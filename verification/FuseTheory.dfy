/** What the depth-first expansion amounts to: it opens exactly the files reachable from the seed, each
    once, fails exactly if one of them is missing, copies every line of theirs once, and writes each name
    that they ask for once. */
module FuseTheory {
  import opened FuseExpansion

  ghost predicate Edge(files: Files, a: string, b: string) {
    a in files && Descend(b) in files[a]
  }

  ghost predicate Walk(files: Files, p: seq<string>) {
    p != [] && forall i :: 0 <= i < |p| - 1 ==> Edge(files, p[i], p[i + 1])
  }

  ghost predicate Reachable(files: Files, a: string, b: string) {
    exists p :: Walk(files, p) && p[0] == a && p[|p| - 1] == b
  }

  /** The file has a line that stands for the name. */
  ghost predicate Asks(files: Files, a: string, mark: string) {
    a in files && Once(mark) in files[a]
  }

  ghost predicate IsMark(files: Files, mark: string) {
    exists a :: Asks(files, a, mark)
  }

  /** No file is sent into by a name that some line stands for. */
  ghost predicate MarksApart(files: Files) {
    forall a, b :: Edge(files, a, b) ==> !IsMark(files, b)
  }

  /** Lines of the file `a`. */
  ghost predicate LinesOf(files: Files, a: string, lines: seq<Line>) {
    a in files && forall line :: line in lines ==> line in files[a]
  }

  lemma ReachSelf(files: Files, a: string)
    ensures Reachable(files, a, a)
  {
    assert Walk(files, [a]) && [a][0] == a && [a][|[a]| - 1] == a;
  }

  lemma ReachStep(files: Files, a: string, b: string, c: string)
    requires Edge(files, a, b) && Reachable(files, b, c)
    ensures Reachable(files, a, c)
  {
    hide Edge;
    var p :| Walk(files, p) && p[0] == b && p[|p| - 1] == c;
    var q := [a] + p;
    forall i | 0 <= i < |q| - 1 ensures Edge(files, q[i], q[i + 1]) {
      if i > 0 {
        assert q[i] == p[i - 1] && q[i + 1] == p[i];
      }
    }
    assert Walk(files, q) && q[0] == a && q[|q| - 1] == c;
  }

  /** The first line, then the others. */
  lemma FirstLine(files: Files, a: string, lines: seq<Line>, seen: set<string>)
    requires lines != [] && LinesOf(files, a, lines)
    ensures a in files && lines[0] in files[a] && LinesOf(files, a, lines[1..])
    ensures var first := ExpandLine(files, lines[0], seen);
            && (first.Done? ==> seen <= first.seen && files.Keys - first.seen <= files.Keys - seen)
            && ExpandLines(files, lines, seen) ==
               if first.Missing? then Missing
               else ExpandLines(files, lines[1..], first.seen).After(first.out, first.visited)
  {
    hide ExpandLines;
    LineFirst(files, lines[0], lines[1..], seen);
    assert lines == [lines[0]] + lines[1..];
  }

  /** A file that is opened is its lines, with the file itself met. */
  lemma OpenedFile(files: Files, path: string, seen: set<string>)
    ensures var r := ExpandFile(files, path, seen);
            if path in seen then r == Done([], [], seen)
            else if path !in files then r == Missing
            else
              && files.Keys - (seen + {path}) < files.Keys - seen
              && LinesOf(files, path, files[path])
              && r == ExpandLines(files, files[path], seen + {path}).After([], [path])
  {
    hide ExpandLines;
    if path !in seen && path in files {
      assert path in files.Keys - seen && path !in files.Keys - (seen + {path});
    }
  }

  // ---------------------------------------------------------------- completeness

  /** Every file met since `seen` is there, and what it sends into or asks for has been met. */
  ghost predicate Closed(files: Files, seen: set<string>, seen': set<string>) {
    forall x :: x in seen' && x !in seen ==>
      IsMark(files, x) || (x in files && (forall b :: Edge(files, x, b) ==> b in seen')
                                      && (forall m :: Asks(files, x, m) ==> m in seen'))
  }

  /** What a line names has been met. */
  predicate Met(line: Line, seen: set<string>) {
    match line
    case Descend(path) => path in seen
    case Once(mark) => mark in seen
    case Copy(_) => true
  }

  lemma {:induction false} FileCloses(files: Files, path: string, seen: set<string>)
    requires ExpandFile(files, path, seen).Done?
    ensures var r := ExpandFile(files, path, seen); path in r.seen && Closed(files, seen, r.seen)
    decreases files.Keys - seen, 0, 1
  {
    hide ExpandFile, ExpandLines;
    OpenedFile(files, path, seen);
    if path !in seen {
      LinesClose(files, path, files[path], seen + {path});
      var r := ExpandLines(files, files[path], seen + {path});
      assert forall line :: line in files[path] ==> Met(line, r.seen);
      assert forall b :: Edge(files, path, b) ==> Met(Descend(b), r.seen);
      assert forall m :: Asks(files, path, m) ==> Met(Once(m), r.seen);
    }
  }

  lemma {:induction false} LinesClose(files: Files, a: string, lines: seq<Line>, seen: set<string>)
    requires LinesOf(files, a, lines) && ExpandLines(files, lines, seen).Done?
    ensures var r := ExpandLines(files, lines, seen);
            Closed(files, seen, r.seen) && seen <= r.seen && forall line :: line in lines ==> Met(line, r.seen)
    decreases files.Keys - seen, 1, |lines|
  {
    hide ExpandFile, ExpandLines, ExpandLine, Closed, LinesOf;
    if lines == [] {
      NoLines(files, seen);
    } else {
      FirstLine(files, a, lines, seen);
      var line, rest, first := lines[0], lines[1..], ExpandLine(files, lines[0], seen);
      LineCloses(files, a, line, seen);
      LinesClose(files, a, rest, first.seen);
      ClosedThen(files, seen, first.seen, ExpandLines(files, rest, first.seen).seen);
      assert lines == [line] + rest;
    }
  }

  lemma {:induction false} LineCloses(files: Files, a: string, line: Line, seen: set<string>)
    requires a in files && line in files[a] && ExpandLine(files, line, seen).Done?
    ensures var r := ExpandLine(files, line, seen); Closed(files, seen, r.seen) && Met(line, r.seen)
    decreases files.Keys - seen, 1, 0
  {
    hide ExpandFile;
    match line
    case Descend(path) => FileCloses(files, path, seen);
    case Once(mark) => assert Asks(files, a, mark);
    case Copy(_) =>
  }

  lemma NoLines(files: Files, seen: set<string>)
    ensures ExpandLines(files, [], seen) == Done([], [], seen) && Closed(files, seen, seen)
  {
  }

  lemma ClosedThen(files: Files, s0: set<string>, s1: set<string>, s2: set<string>)
    requires Closed(files, s0, s1) && Closed(files, s1, s2) && s1 <= s2
    ensures Closed(files, s0, s2)
  {
    hide IsMark, Edge, Asks;
  }

  // ---------------------------------------------------------------- soundness

  /** What an expansion below `a` has met is reachable from `a`, or asked for; what it has found missing
      is reachable. */
  ghost predicate Sound(files: Files, a: string, seen: set<string>, r: Outcome) {
    if r.Done? then
      forall x :: x in r.seen && x !in seen ==> Reachable(files, a, x) || IsMark(files, x)
    else
      exists x :: x !in files && Reachable(files, a, x)
  }

  lemma {:induction false} FileSound(files: Files, path: string, seen: set<string>)
    ensures Sound(files, path, seen, ExpandFile(files, path, seen))
    decreases files.Keys - seen, 0, 1
  {
    hide ExpandFile, ExpandLines, Reachable, IsMark;
    ReachSelf(files, path);
    OpenedFile(files, path, seen);
    if path !in seen && path in files {
      LinesSound(files, path, files[path], seen + {path});
    }
  }

  lemma {:induction false} LinesSound(files: Files, a: string, lines: seq<Line>, seen: set<string>)
    requires LinesOf(files, a, lines)
    ensures Sound(files, a, seen, ExpandLines(files, lines, seen))
    decreases files.Keys - seen, 1, |lines|
  {
    hide ExpandFile, ExpandLines, ExpandLine, Reachable, IsMark, LinesOf;
    if lines == [] {
      NoLines(files, seen);
    } else {
      FirstLine(files, a, lines, seen);
      var first := ExpandLine(files, lines[0], seen);
      LineSound(files, a, lines[0], seen);
      if first.Done? {
        LinesSound(files, a, lines[1..], first.seen);
      }
    }
  }

  lemma {:induction false} LineSound(files: Files, a: string, line: Line, seen: set<string>)
    requires a in files && line in files[a]
    ensures Sound(files, a, seen, ExpandLine(files, line, seen))
    decreases files.Keys - seen, 1, 0
  {
    hide ExpandFile, Reachable;
    match line
    case Descend(path) =>
      FileSound(files, path, seen);
      forall x | Reachable(files, path, x) ensures Reachable(files, a, x) {
        ReachStep(files, a, path, x);
      }
    case Once(mark) => assert Asks(files, a, mark);
    case Copy(_) =>
  }

  // ---------------------------------------------------------------- once each

  ghost predicate Distinct(s: seq<string>) {
    forall i, j :: 0 <= i < j < |s| ==> s[i] != s[j]
  }

  /** The files opened are those met for the first time, and none twice. */
  ghost predicate OpensNew(files: Files, seen: set<string>, r: Outcome) {
    r.Done? ==>
      && Distinct(r.visited)
      && forall x :: x in r.visited <==> x in r.seen && x !in seen && !IsMark(files, x)
  }

  lemma {:induction false} FileOpensNew(files: Files, path: string, seen: set<string>)
    requires MarksApart(files) && !IsMark(files, path)
    ensures OpensNew(files, seen, ExpandFile(files, path, seen))
    decreases files.Keys - seen, 0, 1
  {
    hide ExpandFile, ExpandLines, IsMark, MarksApart;
    OpenedFile(files, path, seen);
    if path !in seen && path in files {
      var r := ExpandLines(files, files[path], seen + {path});
      LinesOpenNew(files, path, files[path], seen + {path});
      if r.Done? {
        JoinNew(files, [path], r.visited, seen, seen + {path}, r.seen);
      }
    }
  }

  lemma {:induction false} LinesOpenNew(files: Files, a: string, lines: seq<Line>, seen: set<string>)
    requires MarksApart(files) && LinesOf(files, a, lines)
    ensures OpensNew(files, seen, ExpandLines(files, lines, seen))
    decreases files.Keys - seen, 1, |lines|
  {
    hide ExpandFile, ExpandLines, ExpandLine, IsMark, MarksApart, LinesOf;
    if lines == [] {
      NoLines(files, seen);
    } else {
      FirstLine(files, a, lines, seen);
      var first := ExpandLine(files, lines[0], seen);
      LineOpensNew(files, a, lines[0], seen);
      if first.Done? {
        var r := ExpandLines(files, lines[1..], first.seen);
        LinesOpenNew(files, a, lines[1..], first.seen);
        if r.Done? {
          JoinNew(files, first.visited, r.visited, seen, first.seen, r.seen);
        }
      }
    }
  }

  lemma {:induction false} LineOpensNew(files: Files, a: string, line: Line, seen: set<string>)
    requires MarksApart(files) && a in files && line in files[a]
    ensures OpensNew(files, seen, ExpandLine(files, line, seen))
    decreases files.Keys - seen, 1, 0
  {
    hide ExpandFile;
    match line
    case Descend(path) =>
      assert Edge(files, a, path);
      FileOpensNew(files, path, seen);
    case Once(mark) => assert Asks(files, a, mark);
    case Copy(_) =>
  }

  lemma JoinNew(files: Files, a: seq<string>, b: seq<string>, s0: set<string>, s1: set<string>, s2: set<string>)
    requires Distinct(a) && Distinct(b) && s0 <= s1 <= s2
    requires forall x :: x in a <==> x in s1 && x !in s0 && !IsMark(files, x)
    requires forall x :: x in b <==> x in s2 && x !in s1 && !IsMark(files, x)
    ensures Distinct(a + b) && forall x :: x in a + b <==> x in s2 && x !in s0 && !IsMark(files, x)
  {
    hide IsMark;
    assert forall i :: 0 <= i < |a| ==> a[i] in a;
    assert forall i :: 0 <= i < |b| ==> b[i] in b;
  }

  // ---------------------------------------------------------------- every line once

  /** How often a text is copied from these lines. */
  function TextsIn(lines: seq<Line>, text: string): nat {
    multiset(lines)[Copy(text)]
  }

  function TextsOf(files: Files, paths: seq<string>, text: string): nat
    requires forall x :: x in paths ==> x in files
  {
    if paths == [] then 0
    else TextsIn(files[paths[0]], text) + TextsOf(files, paths[1..], text)
  }

  lemma {:induction false} TextsOfConcat(files: Files, a: seq<string>, b: seq<string>, text: string)
    requires (forall x :: x in a ==> x in files) && forall x :: x in b ==> x in files
    ensures forall x :: x in a + b ==> x in files
    ensures TextsOf(files, a + b, text) == TextsOf(files, a, text) + TextsOf(files, b, text)
    decreases |a|
  {
    hide TextsIn;
    if a == [] {
      assert a + b == b;
    } else {
      assert (a + b)[1..] == a[1..] + b;
      TextsOfConcat(files, a[1..], b, text);
    }
  }

  /** A text is written as often as it stands in the files opened, and `own` times besides. */
  ghost predicate Copies(files: Files, own: nat, text: string, r: Outcome) {
    r.Done? ==>
      && (forall x :: x in r.visited ==> x in files)
      && multiset(r.out)[Copied(text)] == own + TextsOf(files, r.visited, text)
  }

  lemma {:induction false} FileCopies(files: Files, path: string, seen: set<string>, text: string)
    ensures Copies(files, 0, text, ExpandFile(files, path, seen))
    decreases files.Keys - seen, 0, 1
  {
    hide ExpandFile, ExpandLines, TextsIn;
    OpenedFile(files, path, seen);
    if path !in seen && path in files {
      var r := ExpandLines(files, files[path], seen + {path});
      LinesCopy(files, path, files[path], seen + {path}, text);
      if r.Done? {
        assert ([path] + r.visited)[1..] == r.visited && [] + r.out == r.out;
      }
    }
  }

  lemma {:induction false} LinesCopy(files: Files, a: string, lines: seq<Line>, seen: set<string>, text: string)
    requires LinesOf(files, a, lines)
    ensures Copies(files, TextsIn(lines, text), text, ExpandLines(files, lines, seen))
    decreases files.Keys - seen, 1, |lines|
  {
    hide ExpandFile, ExpandLines, ExpandLine, LinesOf;
    if lines == [] {
      NoLines(files, seen);
    } else {
      FirstLine(files, a, lines, seen);
      var line, rest, first := lines[0], lines[1..], ExpandLine(files, lines[0], seen);
      LineCopies(files, line, seen, text);
      assert lines == [line] + rest;
      assert TextsIn(lines, text) == TextsIn([line], text) + TextsIn(rest, text);
      hide TextsIn;
      if first.Done? {
        LinesCopy(files, a, rest, first.seen, text);
        var r := ExpandLines(files, rest, first.seen);
        if r.Done? {
          CopiesThen(files, first, r, TextsIn([line], text), TextsIn(rest, text), text);
        }
      }
    }
  }

  lemma CopiesThen(files: Files, first: Outcome, r: Outcome, m: nat, n: nat, text: string)
    requires first.Done? && r.Done? && Copies(files, m, text, first) && Copies(files, n, text, r)
    ensures Copies(files, m + n, text, r.After(first.out, first.visited))
  {
    hide TextsOf;
    TextsOfConcat(files, first.visited, r.visited, text);
  }

  lemma {:induction false} LineCopies(files: Files, line: Line, seen: set<string>, text: string)
    ensures Copies(files, TextsIn([line], text), text, ExpandLine(files, line, seen))
    decreases files.Keys - seen, 1, 0
  {
    hide ExpandFile;
    match line
    case Descend(path) => FileCopies(files, path, seen, text);
    case _ =>
  }

  // ---------------------------------------------------------------- every name once

  /** A name is written when it is met for the first time, and only then. */
  ghost predicate MarksOnce(files: Files, mark: string, seen: set<string>, r: Outcome) {
    r.Done? ==>
      multiset(r.out)[First(mark)] == if IsMark(files, mark) && mark in r.seen && mark !in seen then 1 else 0
  }

  lemma {:induction false} FileMarksOnce(files: Files, path: string, seen: set<string>, mark: string)
    requires MarksApart(files) && !IsMark(files, path)
    ensures MarksOnce(files, mark, seen, ExpandFile(files, path, seen))
    decreases files.Keys - seen, 0, 1
  {
    hide ExpandFile, ExpandLines, IsMark, MarksApart;
    OpenedFile(files, path, seen);
    if path !in seen && path in files {
      LinesMarkOnce(files, path, files[path], seen + {path}, mark);
      var r := ExpandLines(files, files[path], seen + {path});
      assert r.Done? ==> [] + r.out == r.out;
    }
  }

  lemma {:induction false} LinesMarkOnce(files: Files, a: string, lines: seq<Line>, seen: set<string>, mark: string)
    requires MarksApart(files) && LinesOf(files, a, lines)
    ensures MarksOnce(files, mark, seen, ExpandLines(files, lines, seen))
    decreases files.Keys - seen, 1, |lines|
  {
    hide ExpandFile, ExpandLines, ExpandLine, IsMark, MarksApart, LinesOf;
    if lines == [] {
      NoLines(files, seen);
    } else {
      FirstLine(files, a, lines, seen);
      var first := ExpandLine(files, lines[0], seen);
      LineMarksOnce(files, a, lines[0], seen, mark);
      if first.Done? {
        LinesMarkOnce(files, a, lines[1..], first.seen, mark);
      }
    }
  }

  lemma {:induction false} LineMarksOnce(files: Files, a: string, line: Line, seen: set<string>, mark: string)
    requires MarksApart(files) && a in files && line in files[a]
    ensures MarksOnce(files, mark, seen, ExpandLine(files, line, seen))
    decreases files.Keys - seen, 1, 0
  {
    hide ExpandFile;
    match line
    case Descend(path) =>
      assert Edge(files, a, path);
      FileMarksOnce(files, path, seen, mark);
    case Once(m) => assert Asks(files, a, m);
    case Copy(_) =>
  }

  /** Some of the files stands for the name. */
  ghost predicate AskedFor(files: Files, paths: seq<string>, mark: string) {
    exists x :: x in paths && Asks(files, x, mark)
  }

  /** A name that was met without being opened was asked for, by `a` or by a file opened. */
  ghost predicate WasAsked(files: Files, a: string, mark: string, seen: set<string>, r: Outcome) {
    r.Done? && mark in r.seen && mark !in seen ==> Asks(files, a, mark) || AskedFor(files, r.visited, mark)
  }

  lemma {:induction false} FileAsked(files: Files, path: string, seen: set<string>, mark: string)
    requires MarksApart(files) && IsMark(files, mark) && !IsMark(files, path)
    ensures var r := ExpandFile(files, path, seen);
            r.Done? && mark in r.seen && mark !in seen ==> AskedFor(files, r.visited, mark)
    decreases files.Keys - seen, 0, 1
  {
    hide ExpandFile, ExpandLines, IsMark, MarksApart, Asks;
    OpenedFile(files, path, seen);
    if path !in seen && path in files {
      LinesAsked(files, path, files[path], seen + {path}, mark);
      var r := ExpandLines(files, files[path], seen + {path});
      assert r.Done? ==> path in [path] + r.visited && forall x :: x in r.visited ==> x in [path] + r.visited;
    }
  }

  lemma {:induction false} LinesAsked(files: Files, a: string, lines: seq<Line>, seen: set<string>, mark: string)
    requires MarksApart(files) && IsMark(files, mark) && LinesOf(files, a, lines)
    ensures WasAsked(files, a, mark, seen, ExpandLines(files, lines, seen))
    decreases files.Keys - seen, 1, |lines|
  {
    hide ExpandFile, ExpandLines, ExpandLine, IsMark, MarksApart, LinesOf, Asks;
    if lines == [] {
      NoLines(files, seen);
    } else {
      FirstLine(files, a, lines, seen);
      var first := ExpandLine(files, lines[0], seen);
      LineAsked(files, a, lines[0], seen, mark);
      if first.Done? {
        LinesAsked(files, a, lines[1..], first.seen, mark);
      }
    }
  }

  lemma {:induction false} LineAsked(files: Files, a: string, line: Line, seen: set<string>, mark: string)
    requires MarksApart(files) && IsMark(files, mark) && a in files && line in files[a]
    ensures WasAsked(files, a, mark, seen, ExpandLine(files, line, seen))
    decreases files.Keys - seen, 1, 0
  {
    hide ExpandFile, IsMark;
    match line
    case Descend(path) =>
      assert Edge(files, a, path);
      FileAsked(files, path, seen, mark);
    case _ =>
  }

  // ---------------------------------------------------------------- order

  /** `s` stands in `t`, in this order, at the places `f`. */
  predicate StandsAt(s: seq<Written>, t: seq<Written>, f: seq<nat>) {
    && |f| == |s| && (forall i :: 0 <= i < |f| ==> f[i] < |t| && t[f[i]] == s[i])
    && (forall i, j :: 0 <= i < j < |f| ==> f[i] < f[j])
  }

  ghost predicate InOrder(s: seq<Written>, t: seq<Written>) {
    exists f :: StandsAt(s, t, f)
  }

  lemma InOrderConcat(s: seq<Written>, t: seq<Written>, s': seq<Written>, t': seq<Written>)
    requires InOrder(s, t) && InOrder(s', t')
    ensures InOrder(s + s', t + t')
  {
    var f :| StandsAt(s, t, f);
    var f' :| StandsAt(s', t', f');
    var g: seq<nat> := f + seq(|f'|, i requires 0 <= i < |f'| => |t| + f'[i]);
    assert StandsAt(s + s', t + t', g);
  }

  lemma NoneInOrder(t: seq<Written>)
    ensures InOrder([], t)
  {
    assert StandsAt([], t, []);
  }

  /** Behind or before something else it still stands in order. */
  lemma InOrderAmong(s: seq<Written>, a: seq<Written>, t: seq<Written>, b: seq<Written>)
    requires InOrder(s, t)
    ensures InOrder(s, a + t) && InOrder(s, t + b)
  {
    hide InOrder;
    NoneInOrder(a);
    NoneInOrder(b);
    InOrderConcat([], a, s, t);
    InOrderConcat(s, t, [], b);
    assert [] + s == s && s + [] == s;
  }

  /** The text lines among these, in their order. */
  function TextLines(lines: seq<Line>): seq<Written> {
    if lines == [] then []
    else (if lines[0].Copy? then [Copied(lines[0].text)] else []) + TextLines(lines[1..])
  }

  /** The text lines of every file opened stand in the output in their order. */
  ghost predicate KeepsOrder(files: Files, r: Outcome) {
    r.Done? ==> forall x :: x in r.visited ==> x in files && InOrder(TextLines(files[x]), r.out)
  }

  lemma {:induction false} FileKeepsOrder(files: Files, path: string, seen: set<string>)
    ensures KeepsOrder(files, ExpandFile(files, path, seen))
    decreases files.Keys - seen, 0, 1
  {
    hide ExpandFile, ExpandLines, InOrder, TextLines;
    OpenedFile(files, path, seen);
    if path !in seen && path in files {
      var r := ExpandLines(files, files[path], seen + {path});
      LinesKeepOrder(files, path, files[path], seen + {path});
      assert r.Done? ==> [] + r.out == r.out;
    }
  }

  lemma {:induction false} LinesKeepOrder(files: Files, a: string, lines: seq<Line>, seen: set<string>)
    requires LinesOf(files, a, lines)
    ensures var r := ExpandLines(files, lines, seen);
            KeepsOrder(files, r) && (r.Done? ==> InOrder(TextLines(lines), r.out))
    decreases files.Keys - seen, 1, |lines|
  {
    hide ExpandFile, ExpandLines, ExpandLine, InOrder, LinesOf;
    if lines == [] {
      NoLines(files, seen);
      NoneInOrder([]);
    } else {
      FirstLine(files, a, lines, seen);
      var first := ExpandLine(files, lines[0], seen);
      LineKeepsOrder(files, lines[0], seen);
      if first.Done? {
        var r := ExpandLines(files, lines[1..], first.seen);
        LinesKeepOrder(files, a, lines[1..], first.seen);
        if r.Done? {
          OrderThen(files, first, r);
          var own := if lines[0].Copy? then [Copied(lines[0].text)] else [];
          InOrderConcat(own, first.out, TextLines(lines[1..]), r.out);
        }
      }
    }
  }

  lemma OrderThen(files: Files, first: Outcome, r: Outcome)
    requires first.Done? && r.Done? && KeepsOrder(files, first) && KeepsOrder(files, r)
    ensures KeepsOrder(files, r.After(first.out, first.visited))
  {
    hide InOrder, TextLines;
    forall x | x in first.visited + r.visited ensures x in files && InOrder(TextLines(files[x]), first.out + r.out) {
      if x in first.visited {
        InOrderAmong(TextLines(files[x]), [], first.out, r.out);
      } else {
        InOrderAmong(TextLines(files[x]), first.out, r.out, []);
      }
    }
  }

  lemma {:induction false} LineKeepsOrder(files: Files, line: Line, seen: set<string>)
    ensures var r := ExpandLine(files, line, seen);
            KeepsOrder(files, r) && (r.Done? ==> InOrder(if line.Copy? then [Copied(line.text)] else [], r.out))
    decreases files.Keys - seen, 1, 0
  {
    hide ExpandFile, InOrder, TextLines;
    var r := ExpandLine(files, line, seen);
    if r.Done? {
      NoneInOrder(r.out);
    }
    match line
    case Descend(path) => FileKeepsOrder(files, path, seen);
    case Copy(text) => OneInOrder(Copied(text));
    case Once(_) =>
  }

  lemma OneInOrder(w: Written)
    ensures InOrder([w], [w])
  {
    assert StandsAt([w], [w], [0]);
  }

  /** What the lines behind a place write stands behind what the lines before it write. */
  lemma {:induction false} LinesSplit(files: Files, a: seq<Line>, b: seq<Line>, seen: set<string>)
    ensures var first := ExpandLines(files, a, seen);
            ExpandLines(files, a + b, seen) ==
            if first.Missing? then Missing else ExpandLines(files, b, first.seen).After(first.out, first.visited)
    decreases |a|
  {
    hide ExpandLines, ExpandLine;
    if a == [] {
      NoLines(files, seen);
      assert a + b == b;
      var r := ExpandLines(files, b, seen);
      assert r.Done? ==> [] + r.out == r.out && [] + r.visited == r.visited;
    } else {
      var first := ExpandLine(files, a[0], seen);
      LineFirst(files, a[0], a[1..], seen);
      LineFirst(files, a[0], a[1..] + b, seen);
      assert a == [a[0]] + a[1..] && a + b == [a[0]] + (a[1..] + b);
      if first.Done? {
        LinesSplit(files, a[1..], b, first.seen);
        var rest := ExpandLines(files, a[1..], first.seen);
        if rest.Done? {
          AfterAfter(ExpandLines(files, b, rest.seen), rest.out, rest.visited, first.out, first.visited);
        }
      }
    }
  }

  /** All that is written for a file that a line sends into, and for the files opened below it, stands in
      one piece at that line, behind what the lines before it write and before what the lines behind it
      write, if the file is first met there; and nothing is written for it if it is not. */
  lemma IncludeStands(files: Files, a: seq<Line>, path: string, b: seq<Line>, seen: set<string>)
    requires ExpandLines(files, a + [Descend(path)] + b, seen).Done?
    ensures var all, before := ExpandLines(files, a + [Descend(path)] + b, seen), ExpandLines(files, a, seen);
            && before.Done?
            && var file := ExpandFile(files, path, before.seen);
            && file.Done? && (path in before.seen ==> file.out == [] && file.visited == [])
            && (path !in before.seen ==> file.visited != [] && file.visited[0] == path)
            && var behind := ExpandLines(files, b, file.seen);
            && behind.Done?
            && all.out == before.out + file.out + behind.out
            && all.visited == before.visited + file.visited + behind.visited
  {
    hide ExpandLines, ExpandFile;
    assert a + [Descend(path)] + b == a + ([Descend(path)] + b);
    LinesSplit(files, a, [Descend(path)] + b, seen);
    var before := ExpandLines(files, a, seen);
    LineFirst(files, Descend(path), b, before.seen);
    OpenedFile(files, path, before.seen);
    var file := ExpandFile(files, path, before.seen);
    var behind := ExpandLines(files, b, file.seen);
    assert before.out + (file.out + behind.out) == before.out + file.out + behind.out;
    assert before.visited + (file.visited + behind.visited) == before.visited + file.visited + behind.visited;
  }

  // ---------------------------------------------------------------- the theorem

  lemma {:induction false} WalkStaysIn(files: Files, s: set<string>, p: seq<string>)
    requires MarksApart(files) && Walk(files, p) && p[0] in s && !IsMark(files, p[0]) && Closed(files, {}, s)
    ensures p[|p| - 1] in s && !IsMark(files, p[|p| - 1])
    decreases |p|
  {
    if |p| > 1 {
      var q := p[1..];
      assert Edge(files, p[0], p[1]);
      forall i | 0 <= i < |q| - 1 ensures Edge(files, q[i], q[i + 1]) {
        assert Edge(files, p[i + 1], p[i + 2]);
      }
      WalkStaysIn(files, s, q);
    }
  }

  /** From any graph, cyclic or not: the expansion fails exactly if a reachable file is missing.
      Otherwise it opens exactly the reachable files, each once, writes exactly their text lines, as often
      as they have them and in their order, and writes a name once if one of these files asks for it, and else not. */
  lemma FusesReachableOnce(files: Files, seed: string)
    requires MarksApart(files) && !IsMark(files, seed)
    ensures var r := ExpandFile(files, seed, {});
            && (r.Missing? <==> exists x :: Reachable(files, seed, x) && x !in files)
            && (r.Done? ==>
                  && Distinct(r.visited)
                  && (forall x :: x in r.visited <==> Reachable(files, seed, x))
                  && (forall x :: x in r.visited ==> x in files)
                  && (forall text :: multiset(r.out)[Copied(text)] == TextsOf(files, r.visited, text))
                  && (forall x :: x in r.visited ==> InOrder(TextLines(files[x]), r.out))
                  && (forall mark :: multiset(r.out)[First(mark)] == if AskedFor(files, r.visited, mark) then 1 else 0))
  {
    hide ExpandFile, IsMark, MarksApart, TextsOf, Closed, Reachable, Edge, InOrder, TextLines;
    var r := ExpandFile(files, seed, {});
    FileSound(files, seed, {});
    FileKeepsOrder(files, seed, {});
    if r.Done? {
      FileOpensNew(files, seed, {});
      forall x ensures x in r.visited <==> Reachable(files, seed, x) {
        VisitedIffReachable(files, seed, x);
      }
      FileCopies(files, seed, {}, "");
      forall text ensures multiset(r.out)[Copied(text)] == TextsOf(files, r.visited, text) {
        FileCopies(files, seed, {}, text);
      }
      forall mark ensures multiset(r.out)[First(mark)] == if AskedFor(files, r.visited, mark) then 1 else 0 {
        FileMarksOnce(files, seed, {}, mark);
        MetIffAsked(files, seed, mark);
      }
    }
  }

  lemma VisitedIffReachable(files: Files, seed: string, x: string)
    requires MarksApart(files) && !IsMark(files, seed) && ExpandFile(files, seed, {}).Done?
    ensures var r := ExpandFile(files, seed, {}); x in r.visited <==> Reachable(files, seed, x)
  {
    hide ExpandFile, IsMark, MarksApart, Closed, Edge;
    var r := ExpandFile(files, seed, {});
    FileSound(files, seed, {});
    FileCloses(files, seed, {});
    FileOpensNew(files, seed, {});
    if Reachable(files, seed, x) {
      var p :| Walk(files, p) && p[0] == seed && p[|p| - 1] == x;
      WalkStaysIn(files, r.seen, p);
    }
  }

  lemma MetIffAsked(files: Files, seed: string, mark: string)
    requires MarksApart(files) && !IsMark(files, seed) && ExpandFile(files, seed, {}).Done?
    ensures var r := ExpandFile(files, seed, {});
            IsMark(files, mark) && mark in r.seen <==> AskedFor(files, r.visited, mark)
  {
    hide ExpandFile, MarksApart, Edge, Asks;
    FileCloses(files, seed, {});
    FileOpensNew(files, seed, {});
    if IsMark(files, mark) {
      FileAsked(files, seed, {}, mark);
    }
  }
}
