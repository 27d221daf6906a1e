/** The include graph of the files as they are, before a fuser has looked at a line, and why a fuser's view
    of the lines does not change it. */
module FuseGraph {
  import opened Options
  import opened FuseExpansion
  import opened FuseTheory

  /** The file `a` has a line that leads to `b`. */
  ghost predicate Includes<L>(files: map<string, seq<L>>, leads: (L, string) -> bool, a: string, b: string) {
    a in files && exists i :: 0 <= i < |files[a]| && leads(files[a][i], b)
  }

  ghost predicate Path<L>(files: map<string, seq<L>>, leads: (L, string) -> bool, p: seq<string>) {
    p != [] && forall i :: 0 <= i < |p| - 1 ==> Includes(files, leads, p[i], p[i + 1])
  }

  /** `b` is `a`, or is included by it, or by a file that is, and so on. */
  ghost predicate Reaches<L>(files: map<string, seq<L>>, leads: (L, string) -> bool, a: string, b: string) {
    exists p :: Path(files, leads, p) && p[0] == a && p[|p| - 1] == b
  }

  /** How often a line stands in these files. */
  function Occurrences<L(==)>(files: map<string, seq<L>>, paths: seq<string>, line: L): nat
    requires forall x :: x in paths ==> x in files
  {
    if paths == [] then 0
    else multiset(files[paths[0]])[line] + Occurrences(files, paths[1..], line)
  }

  /** The lines of a file that have a text to be copied, in their order. */
  function Texts<L>(lines: seq<L>, text: L -> Option<string>): seq<Written> {
    if lines == [] then []
    else (if text(lines[0]).Some? then [Copied(text(lines[0]).value)] else []) + Texts(lines[1..], text)
  }

  // ---------------------------------------------------------------- what the fuser sees

  /** The fuser goes where the lines lead. */
  ghost predicate GoesWhere<L(!new)>(classify: L -> Line, leads: (L, string) -> bool) {
    forall line, b :: leads(line, b) <==> classify(line) == Descend(b)
  }

  lemma IncludesIff<L(!new)>(files: map<string, seq<L>>, classify: L -> Line, leads: (L, string) -> bool,
                             a: string, b: string)
    requires GoesWhere(classify, leads)
    ensures Includes(files, leads, a, b) <==> Edge(Classified(files, classify), a, b)
  {
    hide Classified;
    var graph := Classified(files, classify);
    if a in files {
      assert Each(files[a], graph[a], classify);
      if Includes(files, leads, a, b) {
        var i :| 0 <= i < |files[a]| && leads(files[a][i], b);
        assert graph[a][i] == Descend(b);
      }
      if Edge(graph, a, b) {
        var i :| 0 <= i < |graph[a]| && graph[a][i] == Descend(b);
        assert leads(files[a][i], b);
      }
    }
  }

  /** What a file reaches is the same in both views. */
  lemma ReachesIff<L(!new)>(files: map<string, seq<L>>, classify: L -> Line, leads: (L, string) -> bool,
                            a: string, b: string)
    requires GoesWhere(classify, leads)
    ensures Reaches(files, leads, a, b) <==> Reachable(Classified(files, classify), a, b)
  {
    hide Classified, Edge, Includes, GoesWhere;
    var graph := Classified(files, classify);
    forall x, y ensures Includes(files, leads, x, y) <==> Edge(graph, x, y) {
      IncludesIff(files, classify, leads, x, y);
    }
    if Reaches(files, leads, a, b) {
      var p :| Path(files, leads, p) && p[0] == a && p[|p| - 1] == b;
      assert Walk(graph, p);
    }
    if Reachable(graph, a, b) {
      var p :| Walk(graph, p) && p[0] == a && p[|p| - 1] == b;
      assert Path(files, leads, p);
    }
  }

  lemma {:induction false} CountIff<L>(lines: seq<L>, s: seq<Line>, classify: L -> Line, line: L, text: string)
    requires Each(lines, s, classify) && forall l :: l in lines ==> (classify(l) == Copy(text) <==> l == line)
    ensures multiset(lines)[line] == TextsIn(s, text)
  {
    if lines != [] {
      assert lines == [lines[0]] + lines[1..] && s == [s[0]] + s[1..];
      assert lines[0] in lines && forall l :: l in lines[1..] ==> l in lines;
      CountIff(lines[1..], s[1..], classify, line, text);
    }
  }

  lemma {:induction false} OccurrencesIff<L(!new)>(files: map<string, seq<L>>, classify: L -> Line,
                                                     paths: seq<string>, line: L, text: string)
    requires (forall x :: x in paths ==> x in files) && forall l :: classify(l) == Copy(text) <==> l == line
    ensures Occurrences(files, paths, line) == TextsOf(Classified(files, classify), paths, text)
  {
    hide Classified, TextsIn;
    if paths != [] {
      var graph := Classified(files, classify);
      assert paths[0] in files && Each(files[paths[0]], graph[paths[0]], classify);
      CountIff(files[paths[0]], graph[paths[0]], classify, line, text);
      OccurrencesIff(files, classify, paths[1..], line, text);
    }
  }

  /** The fuser copies the texts. */
  ghost predicate CopiesTexts<L(!new)>(classify: L -> Line, text: L -> Option<string>) {
    forall line :: (text(line).Some? <==> classify(line).Copy?)
      && (text(line).Some? ==> classify(line) == Copy(text(line).value))
  }

  lemma {:induction false} TextsIff<L(!new)>(lines: seq<L>, s: seq<Line>, classify: L -> Line,
                                             text: L -> Option<string>)
    requires Each(lines, s, classify) && CopiesTexts(classify, text)
    ensures Texts(lines, text) == TextLines(s)
  {
    if lines != [] {
      TextsIff(lines[1..], s[1..], classify, text);
      assert s[0] == classify(lines[0]);
    }
  }
}
