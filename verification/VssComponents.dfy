/** The component hierarchy of a VSS writer: a case-insensitive prefix order on full paths, the loop
    that marks the top-level components, and the lists of affected paths.

    Case folding is that of the platform, a function on characters.  Paths hold no NUL. */
module VssComponents {

  // ---------------------------------------------------------------- paths

  predicate IsEqual(fold: char -> char, a: string, b: string) {
    |a| == |b| && forall i :: 0 <= i < |a| ==> fold(a[i]) == fold(b[i])
  }

  function AppendBackslash(s: string): (r: string)
    ensures s <= r && |s| <= |r| <= |s| + 1 && r != "" && r[|r| - 1] == '\\'
    ensures r == s <==> s != "" && s[|s| - 1] == '\\'
  {
    if s == "" then "\\" else if s[|s| - 1] == '\\' then s else s + "\\"
  }

  /** `substr(0, n)` */
  function Front(s: string, n: nat): string {
    if n <= |s| then s[..n] else s
  }

  /** VssComponent::IsAncestorOf, on the full paths of the two components */
  predicate IsAncestorOf(fold: char -> char, a: string, d: string) {
    |d| > |a| && IsEqual(fold, AppendBackslash(a), Front(AppendBackslash(d), |AppendBackslash(a)|))
  }

  /** `d` goes on behind `a`, up to case, with a new name: behind a backslash that ends `a` or follows it. */
  predicate IsBelow(fold: char -> char, a: string, d: string) {
    && |a| < |d|
    && (forall i :: 0 <= i < |a| ==> fold(a[i]) == fold(d[i]))
    && ((a != "" && a[|a| - 1] == '\\') || fold(d[|a|]) == fold('\\'))
  }

  /** A component is an ancestor exactly of what is below its path. */
  lemma AncestorIff(fold: char -> char, a: string, d: string)
    ensures IsAncestorOf(fold, a, d) <==> IsBelow(fold, a, d)
  {
    if |a| < |d| {
      var a', front := AppendBackslash(a), Front(AppendBackslash(d), |AppendBackslash(a)|);
      assert forall i :: 0 <= i < |a'| ==> front[i] == d[i];
      assert forall i :: 0 <= i < |a| ==> a'[i] == a[i];
    }
  }

  /** A path is an ancestor of what continues it behind a backslash, and of nothing that continues it with
      another character, if folding takes no other to a backslash: `\foo` is above `\foo\bar`, not `\foobar`. */
  lemma LookAlikes(fold: char -> char, a: string, c: char, rest: string)
    requires forall c' :: fold(c') == fold('\\') ==> c' == '\\'
    ensures IsAncestorOf(fold, a, a + "\\" + rest)
    ensures a != "" && a[|a| - 1] != '\\' && c != '\\' ==> !IsAncestorOf(fold, a, a + [c] + rest)
  {
    hide IsAncestorOf;
    AncestorIff(fold, a, a + "\\" + rest);
    AncestorIff(fold, a, a + [c] + rest);
  }

  /** A path is never its own ancestor, nor is one that differs from it in case only. */
  lemma AncestorIrreflexive(fold: char -> char, a: string, b: string)
    requires IsEqual(fold, a, b)
    ensures !IsAncestorOf(fold, a, b)
  {
  }

  lemma AncestorTransitive(fold: char -> char, a: string, b: string, c: string)
    requires IsAncestorOf(fold, a, b) && IsAncestorOf(fold, b, c)
    ensures IsAncestorOf(fold, a, c)
  {
    var a', b', c' := AppendBackslash(a), AppendBackslash(b), AppendBackslash(c);
    assert |a'| <= |b'| <= |c'|;
    forall i | 0 <= i < |a'| ensures fold(a'[i]) == fold(c'[i]) {
      assert Front(b', |a'|)[i] == b'[i];
      assert Front(c', |b'|)[i] == c'[i];
    }
  }

  /** The ancestors of a path form a chain, up to case. */
  lemma AncestorsComparable(fold: char -> char, a: string, b: string, c: string)
    requires IsAncestorOf(fold, a, c) && IsAncestorOf(fold, b, c)
    ensures IsAncestorOf(fold, a, b) || IsAncestorOf(fold, b, a) || IsEqual(fold, a, b)
  {
    if |b| < |a| {
      ShorterIsAncestor(fold, b, a, c);
    } else if |a| < |b| {
      ShorterIsAncestor(fold, a, b, c);
    } else {
      EqualLengths(fold, a, b, c);
    }
  }

  lemma ShorterIsAncestor(fold: char -> char, a: string, b: string, c: string)
    requires IsAncestorOf(fold, a, c) && IsAncestorOf(fold, b, c) && |a| < |b|
    ensures IsAncestorOf(fold, a, b)
  {
    var a', b', c' := AppendBackslash(a), AppendBackslash(b), AppendBackslash(c);
    forall i | 0 <= i < |a'| ensures fold(a'[i]) == fold(b'[i]) {
      assert Front(c', |a'|)[i] == c'[i];
      assert Front(c', |b'|)[i] == c'[i];
    }
  }

  lemma EqualLengths(fold: char -> char, a: string, b: string, c: string)
    requires IsAncestorOf(fold, a, c) && IsAncestorOf(fold, b, c) && |a| == |b|
    ensures IsEqual(fold, a, b)
  {
    var a', b', c' := AppendBackslash(a), AppendBackslash(b), AppendBackslash(c);
    forall i | 0 <= i < |a| ensures fold(a[i]) == fold(b[i]) {
      assert Front(c', |a'|)[i] == c'[i] && a'[i] == a[i];
      assert Front(c', |b'|)[i] == c'[i] && b'[i] == b[i];
    }
  }

  // ---------------------------------------------------------------- roots

  /** No path in the list is an ancestor of path `i`. */
  ghost predicate IsRoot(fold: char -> char, paths: seq<string>, i: nat)
    requires i < |paths|
  {
    forall j :: 0 <= j < |paths| ==> !IsAncestorOf(fold, paths[j], paths[i])
  }

  /** Everything that is not a root has a root among its ancestors. */
  lemma {:induction false} RootAbove(fold: char -> char, paths: seq<string>, i: nat) returns (k: nat)
    requires i < |paths| && !IsRoot(fold, paths, i)
    ensures k < |paths| && IsRoot(fold, paths, k) && IsAncestorOf(fold, paths[k], paths[i])
    decreases |paths[i]|
  {
    k :| 0 <= k < |paths| && IsAncestorOf(fold, paths[k], paths[i]);
    if !IsRoot(fold, paths, k) {
      var j := k;
      k := RootAbove(fold, paths, j);
      AncestorTransitive(fold, paths[k], paths[j], paths[i]);
    }
  }

  /** Two roots above one path differ in case only. */
  lemma RootUnique(fold: char -> char, paths: seq<string>, i: nat, k: nat, l: nat)
    requires i < |paths| && k < |paths| && l < |paths|
    requires IsRoot(fold, paths, k) && IsRoot(fold, paths, l)
    requires IsAncestorOf(fold, paths[k], paths[i]) && IsAncestorOf(fold, paths[l], paths[i])
    ensures IsEqual(fold, paths[k], paths[l])
  {
    AncestorsComparable(fold, paths[k], paths[l], paths[i]);
  }

  // ---------------------------------------------------------------- components

  class VssComponent {
    var name: string
    var logicalPath: string
    var fullPath: string
    var isTopLevel: bool

    /** The part of VssComponent::Initialize that computes the full path. */
    constructor (name: string, logicalPath: string)
      ensures this.name == name && this.logicalPath == logicalPath && !isTopLevel
      ensures fullPath != "" && fullPath[0] == '\\'
      ensures var path := AppendBackslash(logicalPath) + name;
              fullPath == path || (path[0] != '\\' && fullPath == "\\" + path)
    {
      this.name, this.logicalPath, isTopLevel := name, logicalPath, false;
      var path := AppendBackslash(logicalPath) + name;
      if path[0] != '\\' {
        path := "\\" + path;
      }
      fullPath := path;
    }
  }

  class VssWriter {
    const fold: char -> char
    var components: seq<VssComponent>

    constructor (fold: char -> char, components: seq<VssComponent>)
      ensures this.fold == fold && this.components == components
    {
      this.fold, this.components := fold, components;
    }

    /** The full paths, in the order of the components. */
    ghost function Paths(): (paths: seq<string>)
      reads this, components
      ensures |paths| == |components| && forall i :: 0 <= i < |paths| ==> paths[i] == components[i].fullPath
    {
      seq(|components|, i requires 0 <= i < |components| reads this, components => components[i].fullPath)
    }

    /** The loop of VssWriter::Initialize that discovers the top-level components: it marks exactly the
        roots. */
    method DiscoverTopLevel()
      requires forall i, j :: 0 <= i < j < |components| ==> components[i] != components[j]
      modifies components`isTopLevel
      ensures Paths() == old(Paths())
      ensures forall i :: 0 <= i < |components| ==> (components[i].isTopLevel <==> IsRoot(fold, Paths(), i))
      ensures forall i :: 0 <= i < |components| ==>
        (components[i].isTopLevel <==> forall j :: 0 <= j < |components| ==> !IsBelow(fold, Paths()[j], Paths()[i]))
    {
      hide IsAncestorOf, IsBelow;
      ghost var paths := Paths();
      forall a, d ensures IsAncestorOf(fold, a, d) <==> IsBelow(fold, a, d) {
        AncestorIff(fold, a, d);
      }
      for i := 0 to |components|
        invariant Paths() == paths
        invariant forall k :: 0 <= k < i ==> (components[k].isTopLevel <==> IsRoot(fold, paths, k))
      {
        components[i].isTopLevel := true;
        for j := 0 to |components|
          invariant Paths() == paths
          invariant forall k :: 0 <= k < i ==> (components[k].isTopLevel <==> IsRoot(fold, paths, k))
          invariant components[i].isTopLevel <==> forall k :: 0 <= k < j ==> !IsAncestorOf(fold, paths[k], paths[i])
        {
          if IsAncestorOf(fold, components[j].fullPath, components[i].fullPath) {
            components[i].isTopLevel := false;
          }
        }
      }
    }
  }

  // ---------------------------------------------------------------- affected paths and volumes

  /** FindStringInList */
  method FindStringInList(fold: char -> char, str: string, stringList: seq<string>) returns (found: bool)
    ensures found <==> exists s :: s in stringList && IsEqual(fold, str, s)
  {
    for i := 0 to |stringList|
      invariant forall k :: 0 <= k < i ==> !IsEqual(fold, str, stringList[k])
    {
      if IsEqual(fold, str, stringList[i]) {
        return true;
      }
    }
    return false;
  }

  /** Item `i` is the first of those equal to it up to case. */
  predicate IsFirst(fold: char -> char, items: seq<string>, i: nat)
    requires i < |items|
  {
    forall j :: 0 <= j < i ==> !IsEqual(fold, items[i], items[j])
  }

  /** The items that are the first of their kind, in order. */
  function Firsts(fold: char -> char, items: seq<string>): seq<string> {
    if items == [] then []
    else
      var n := |items| - 1;
      Firsts(fold, items[..n]) + if IsFirst(fold, items, n) then [items[n]] else []
  }

  lemma EqualIsEquivalence(fold: char -> char, a: string, b: string, c: string)
    ensures IsEqual(fold, a, a) && (IsEqual(fold, a, b) ==> IsEqual(fold, b, a))
    ensures IsEqual(fold, a, b) && IsEqual(fold, b, c) ==> IsEqual(fold, a, c)
  {
  }

  lemma {:induction false} FirstsAreItems(fold: char -> char, items: seq<string>, f: string)
    requires f in Firsts(fold, items)
    ensures f in items
    decreases |items|
  {
    if f != items[|items| - 1] { FirstsAreItems(fold, items[..|items| - 1], f); }
  }

  /** The list that keeps the first of each kind has every item, up to case. */
  lemma {:induction false} FirstsCover(fold: char -> char, items: seq<string>, i: nat) returns (f: string)
    requires i < |items|
    ensures f in Firsts(fold, items) && IsEqual(fold, items[i], f)
    decreases |items|, i
  {
    hide IsEqual;
    var n := |items| - 1;
    if i < n {
      f := FirstsCover(fold, items[..n], i);
    } else if IsFirst(fold, items, n) {
      f := items[n];
      EqualIsEquivalence(fold, f, f, f);
    } else {
      var j :| 0 <= j < n && IsEqual(fold, items[n], items[j]);
      f := FirstsCover(fold, items[..n], j);
      EqualIsEquivalence(fold, items[n], items[j], f);
    }
  }

  /** It has none of them twice. */
  lemma {:induction false} FirstsDistinct(fold: char -> char, items: seq<string>, i: nat, j: nat)
    requires i < j < |Firsts(fold, items)|
    ensures !IsEqual(fold, Firsts(fold, items)[j], Firsts(fold, items)[i])
    decreases |items|
  {
    hide IsEqual;
    var n := |items| - 1;
    var fs := Firsts(fold, items[..n]);
    if j < |fs| {
      FirstsDistinct(fold, items[..n], i, j);
    } else {
      assert fs[i] in fs;
      FirstsAreItems(fold, items[..n], fs[i]);
      var k :| 0 <= k < n && items[..n][k] == fs[i];
      assert !IsEqual(fold, items[n], items[k]);
    }
  }

  /** The loop of VssComponent::Initialize that collects the affected paths, and the volumes in the
      same way: an item is added unless the list has it already. */
  method CollectAffected(fold: char -> char, items: seq<string>) returns (affected: seq<string>)
    ensures affected == Firsts(fold, items)
  {
    affected := [];
    for i := 0 to |items|
      invariant affected == Firsts(fold, items[..i])
    {
      var found := FindStringInList(fold, items[i], affected);
      FirstIffNotFound(fold, items, i);
      if !found {
        affected := affected + [items[i]];
      }
    }
    assert items[..|items|] == items;
  }

  lemma FirstIffNotFound(fold: char -> char, items: seq<string>, i: nat)
    requires i < |items|
    ensures IsFirst(fold, items, i) <==> !exists s :: s in Firsts(fold, items[..i]) && IsEqual(fold, items[i], s)
    ensures Firsts(fold, items[..i + 1]) ==
      Firsts(fold, items[..i]) + if IsFirst(fold, items, i) then [items[i]] else []
  {
    hide IsEqual;
    var rest := items[..i];
    assert items[..i + 1][..i] == rest;
    assert IsFirst(fold, items[..i + 1], i) <==> IsFirst(fold, items, i);
    if !IsFirst(fold, items, i) {
      var j :| 0 <= j < i && IsEqual(fold, items[i], items[j]);
      var f := FirstsCover(fold, rest, j);
      EqualIsEquivalence(fold, items[i], items[j], f);
    }
    if s :| s in Firsts(fold, rest) && IsEqual(fold, items[i], s) {
      FirstsAreItems(fold, rest, s);
      var j :| 0 <= j < |rest| && rest[j] == s;
      assert IsEqual(fold, items[i], items[j]);
    }
  }
}
