/** The backtracking matcher of gtest-port.cc, proved sound and complete for the language of the
    expression. */
module RegexMatch {
  import opened Options
  import opened CStrings
  import opened RegexSyntax

  // ---------------------------------------------------------------- the language

  /** The texts one item stands for. */
  ghost predicate ItemAccepts(it: Item, u: string) {
    && (forall c :: c in u ==> AtomMatchesChar(it.escaped, it.c, c))
    && match it.rep
       case Once => |u| == 1
       case Optional => |u| <= 1
       case Star => true
       case Plus => |u| >= 1
  }

  /** The texts a sequence of items stands for: the concatenation of their languages. */
  ghost predicate InLanguage(items: seq<Item>, w: string) {
    if items == [] then
      w == ""
    else
      exists k :: 0 <= k <= |w| && ItemAccepts(items[0], w[..k]) && InLanguage(items[1..], w[k..])
  }

  /** Some prefix of `str` is in the language; with a trailing `$` it must be all of `str`. */
  ghost predicate HeadMatch(items: seq<Item>, atEnd: bool, str: string) {
    exists k :: 0 <= k <= |str| && InLanguage(items, str[..k]) && (atEnd ==> k == |str|)
  }

  /** Some substring of `str` is in the language, placed where the anchors allow. */
  ghost predicate Matches(re: Regex, str: string) {
    exists i, j :: 0 <= i <= j <= |str| && InLanguage(re.items, str[i..j])
      && (re.atStart ==> i == 0) && (re.atEnd ==> j == |str|)
  }

  /** The first item takes `str[..k]` and the remaining items match what follows. */
  ghost predicate HeadSplit(items: seq<Item>, atEnd: bool, str: string, k: int)
    requires items != []
  {
    0 <= k <= |str| && ItemAccepts(items[0], str[..k]) && HeadMatch(items[1..], atEnd, str[k..])
  }

  lemma HeadMatchIffSplit(items: seq<Item>, atEnd: bool, str: string)
    requires items != []
    ensures HeadMatch(items, atEnd, str) <==> exists k :: HeadSplit(items, atEnd, str, k)
  {
    if HeadMatch(items, atEnd, str) {
      var n :| 0 <= n <= |str| && InLanguage(items, str[..n]) && (atEnd ==> n == |str|);
      var k :| 0 <= k <= n && ItemAccepts(items[0], str[..n][..k]) && InLanguage(items[1..], str[..n][k..]);
      assert str[..n][..k] == str[..k];
      assert str[..n][k..] == str[k..][..n - k];
      assert HeadSplit(items, atEnd, str, k);
    }
    if k :| HeadSplit(items, atEnd, str, k) {
      var m :| 0 <= m <= |str[k..]| && InLanguage(items[1..], str[k..][..m]) && (atEnd ==> m == |str[k..]|);
      var w := str[..k + m];
      assert w[..k] == str[..k];
      assert w[k..] == str[k..][..m];
      assert InLanguage(items, w);
    }
  }

  // ---------------------------------------------------------------- the matcher

  /** Matches a repeated atom and then the rest of the expression, trying ever more repetitions.
      `it` is the repeated item and `rest` the items whose text is `regex`. */
  method MatchRepetitionAndRegexAtHead(ghost it: Item, ghost rest: seq<Item>, ghost atEnd: bool,
                                       escaped: bool, c: char, repeat: char, regex: CString, str: CString)
    returns (matched: bool)
    requires it.escaped == escaped && it.c == c && RenderRep(it.rep) == [repeat]
    requires ValidItems(rest) && regex == RenderBody(rest, atEnd)
    ensures matched <==> exists k :: HeadSplit([it] + rest, atEnd, str, k)
    decreases |regex|, 1
  {
    hide AtomMatchesChar, HeadSplit, HeadMatch, RenderBody, ValidItems, ItemAccepts;
    var minCount := if repeat == '+' then 1 else 0;
    var maxCount := if repeat == '?' then 1 else SIZE_MAX - 1;
    ghost var items := [it] + rest;
    SplitsCount(it, rest, atEnd, str);
    var i := 0;
    while i <= maxCount
      invariant 0 <= i <= maxCount + 1 && i <= |str| + 1
      invariant forall j :: 0 <= j < i && j < |str| ==> AtomMatchesChar(escaped, c, str[j])
      invariant i <= maxCount ==> i <= |str|
      invariant forall k :: 0 <= k < i ==> !HeadSplit(items, atEnd, str, k)
      decreases maxCount - i
    {
      SplitHere(it, rest, atEnd, str, i);
      if i >= minCount {
        var tail := MatchRegexAtHead(rest, atEnd, regex, str[i..]);
        if tail {
          return true;
        }
      }
      AtIsNul(str, i);
      if At(str, i) == '\0' || !AtomMatchesChar(escaped, c, str[i]) {
        NoneBeyond(it, rest, atEnd, str, i);
        return false;
      }
      i := i + 1;
    }
    return false;
  }

  /** How many characters an item may take. */
  predicate MayTake(rep: Rep, k: int) {
    match rep
    case Once => k == 1
    case Optional => k <= 1
    case Star => true
    case Plus => k >= 1
  }

  /** If the atom accepts the first `i` characters, the item can take them if their number fits. */
  lemma SplitHere(it: Item, rest: seq<Item>, atEnd: bool, str: string, i: nat)
    requires i <= |str| && forall j :: 0 <= j < i ==> AtomMatchesChar(it.escaped, it.c, str[j])
    ensures HeadSplit([it] + rest, atEnd, str, i) <==> MayTake(it.rep, i) && HeadMatch(rest, atEnd, str[i..])
  {
    hide AtomMatchesChar, HeadMatch;
    assert ([it] + rest)[1..] == rest;
  }

  lemma NoneBeyond(it: Item, rest: seq<Item>, atEnd: bool, str: string, i: nat)
    requires i <= |str| && (i == |str| || !AtomMatchesChar(it.escaped, it.c, str[i]))
    ensures forall k :: k > i ==> !HeadSplit([it] + rest, atEnd, str, k)
  {
    hide AtomMatchesChar, HeadMatch;
    forall k | i < k <= |str| ensures !HeadSplit([it] + rest, atEnd, str, k) {
      assert str[..k][i] in str[..k];
    }
  }

  lemma SplitsCount(it: Item, rest: seq<Item>, atEnd: bool, str: string)
    ensures forall k :: HeadSplit([it] + rest, atEnd, str, k) ==> 0 <= k <= |str| && MayTake(it.rep, k)
  {
    hide AtomMatchesChar, HeadMatch;
  }

  /** True iff the expression matches a prefix of `str`. */
  method MatchRegexAtHead(ghost items: seq<Item>, ghost atEnd: bool, regex: CString, str: CString)
    returns (matched: bool)
    requires ValidItems(items) && regex == RenderBody(items, atEnd)
    ensures matched <==> HeadMatch(items, atEnd, str)
    decreases |regex|, 0
  {
    hide RenderBody, AtomMatchesChar, HeadSplit, HeadMatch;
    AtIsNul(regex, 0);
    AtIsNul(str, 0);
    NothingMatches(atEnd, str);
    NoBody();
    if items != [] {
      FirstAtom(items, atEnd);
    }
    if At(regex, 0) == '\0' {
      return true;
    }
    if At(regex, 0) == '$' {
      return At(str, 0) == '\0';
    }
    HeadMatchIffSplit(items, atEnd, str);
    ghost var it, rest := items[0], items[1..];
    var escaped := At(regex, 0) == '\\';
    var r := if escaped then regex[1..] else regex;
    assert r[1..] == regex[if escaped then 2 else 1..];
    assert |r| > 1 ==> r[2..] == regex[if escaped then 3 else 2..];
    if IsRepeat(At(r, 1)) {
      assert [it] + rest == items;
      matched := MatchRepetitionAndRegexAtHead(it, rest, atEnd, escaped, r[0], r[1], r[2..], str);
    } else {
      OnceTakesOne(items, atEnd, str);
      matched := false;
      if At(str, 0) != '\0' && AtomMatchesChar(escaped, At(r, 0), At(str, 0)) {
        matched := MatchRegexAtHead(rest, atEnd, r[1..], str[1..]);
      }
    }
  }

  lemma NothingMatches(atEnd: bool, str: string)
    ensures HeadMatch([], atEnd, str) <==> !atEnd || str == ""
  {
    assert InLanguage([], str[..0]);
  }

  /** How the text of an expression starts, seen from its first item. */
  lemma FirstAtom(items: seq<Item>, atEnd: bool)
    requires ValidItems(items) && items != []
    ensures var it, text := items[0], RenderBody(items, atEnd);
            var a := if it.escaped then 2 else 1;
            && |text| >= a && text[0] != '$' && text[0] != '\0' && (text[0] == '\\' <==> it.escaped)
            && text[a - 1] == it.c && (IsRepeat(At(text, a)) <==> it.rep != Once)
            && (it.rep != Once ==> RenderRep(it.rep) == [text[a]])
            && text[if it.rep == Once then a else a + 1..] == RenderBody(items[1..], atEnd)
  {
    BodyHead(items[1..], atEnd);
    var it, rest, text := items[0], RenderBody(items[1..], atEnd), RenderBody(items, atEnd);
    var a := if it.escaped then 2 else 1;
    assert text == RenderItem(it) + rest;
    AnchorOrRepeat(At(text, a));
  }

  lemma OnceTakesOne(items: seq<Item>, atEnd: bool, str: string)
    requires items != [] && items[0].rep == Once
    ensures (exists k :: HeadSplit(items, atEnd, str, k)) <==>
      str != "" && AtomMatchesChar(items[0].escaped, items[0].c, str[0]) && HeadMatch(items[1..], atEnd, str[1..])
  {
    if k :| HeadSplit(items, atEnd, str, k) {
      assert k == 1 && str[..k][0] == str[0];
    }
    if str != "" && AtomMatchesChar(items[0].escaped, items[0].c, str[0]) && HeadMatch(items[1..], atEnd, str[1..]) {
      assert HeadSplit(items, atEnd, str, 1);
    }
  }

  lemma MatchesIffSomeHead(re: Regex, str: string)
    ensures Matches(re, str) <==>
      exists i :: 0 <= i <= |str| && (re.atStart ==> i == 0) && HeadMatch(re.items, re.atEnd, str[i..])
    ensures re.atStart ==> (Matches(re, str) <==> HeadMatch(re.items, re.atEnd, str))
  {
    assert str[0..] == str;
    if Matches(re, str) {
      var i, j :| 0 <= i <= j <= |str| && InLanguage(re.items, str[i..j])
        && (re.atStart ==> i == 0) && (re.atEnd ==> j == |str|);
      assert str[i..][..j - i] == str[i..j];
    }
    if i :| 0 <= i <= |str| && (re.atStart ==> i == 0) && HeadMatch(re.items, re.atEnd, str[i..]) {
      var k :| 0 <= k <= |str[i..]| && InLanguage(re.items, str[i..][..k]) && (re.atEnd ==> k == |str[i..]|);
      assert str[i..][..k] == str[i..i + k];
    }
  }

  /** True iff the expression matches a substring of `str`. */
  method MatchRegexAnywhere(ghost re: Regex, regex: Option<CString>, str: Option<CString>) returns (matched: bool)
    requires regex.Some? ==> ValidItems(re.items) && regex.value == Render(re)
    ensures matched <==> regex.Some? && str.Some? && Matches(re, str.value)
  {
    if regex.None? || str.None? {
      return false;
    }
    hide HeadMatch, Matches, RenderBody;
    var r, s := regex.value, str.value;
    StartAnchor(re);
    MatchesIffSomeHead(re, s);
    if At(r, 0) == '^' {
      matched := MatchRegexAtHead(re.items, re.atEnd, r[1..], s);
      return;
    }
    var p := 0;
    while true
      invariant 0 <= p <= |s|
      invariant forall i :: 0 <= i < p ==> !HeadMatch(re.items, re.atEnd, s[i..])
      decreases |s| - p
    {
      var here := MatchRegexAtHead(re.items, re.atEnd, r, s[p..]);
      if here {
        return true;
      }
      AtIsNul(s, p);
      if At(s, p) == '\0' {
        return false;
      }
      p := p + 1;
    }
  }
}
