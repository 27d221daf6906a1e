/** What the two fusers of fuse_gtest_files.py have in common: a depth-first expansion of a possibly
    cyclic include graph in which every file is expanded where it is first met. */
module FuseExpansion {
  /** A line sends the fuser into another file, or is copied, or stands for a name that is noted, and
      written, only the first time it is met. */
  datatype Line = Descend(path: string) | Copy(text: string) | Once(mark: string)

  type Files = map<string, seq<Line>>

  predicate Each<L>(lines: seq<L>, s: seq<Line>, classify: L -> Line) {
    |s| == |lines| && forall i :: 0 <= i < |lines| ==> s[i] == classify(lines[i])
  }

  /** The files, with what a fuser makes of each line. */
  function Classified<L>(files: map<string, seq<L>>, classify: L -> Line): (r: Files)
    ensures r.Keys == files.Keys
    ensures forall p :: p in files ==> Each(files[p], r[p], classify)
    ensures forall p, line :: p in files && line in r[p] ==> exists l :: l in files[p] && line == classify(l)
    ensures forall p, l :: p in files && l in files[p] ==> classify(l) in r[p]
  {
    var r := map p | p in files :: seq(|files[p]|, i requires 0 <= i < |files[p]| => classify(files[p][i]));
    assert forall p, i :: p in files && 0 <= i < |files[p]| ==> r[p][i] == classify(files[p][i]);
    r
  }

  datatype Written = Copied(text: string) | First(mark: string)

  /** What an expansion wrote, the files it opened in order, and all names met by then; or a file that is
      not there, which ends the program. */
  datatype Outcome = Missing | Done(out: seq<Written>, visited: seq<string>, seen: set<string>)
  {
    function After(out0: seq<Written>, visited0: seq<string>): Outcome {
      if Missing? then Missing else Done(out0 + out, visited0 + visited, seen)
    }
  }

  // ---------------------------------------------------------------- the expansion

  /** Expands a file unless it has been met before. */
  function ExpandFile(files: Files, path: string, seen: set<string>): (r: Outcome)
    ensures r.Done? ==> seen <= r.seen
    decreases files.Keys - seen, 0, 1
  {
    if path in seen then Done([], [], seen)
    else if path !in files then Missing
    else
      assert files.Keys - (seen + {path}) < files.Keys - seen by { assert path in files.Keys - seen; }
      ExpandLines(files, files[path], seen + {path}).After([], [path])
  }

  function ExpandLines(files: Files, lines: seq<Line>, seen: set<string>): (r: Outcome)
    ensures r.Done? ==> seen <= r.seen
    decreases files.Keys - seen, 1, |lines|
  {
    if lines == [] then Done([], [], seen)
    else
      match lines[0]
      case Copy(s) => ExpandLines(files, lines[1..], seen).After([Copied(s)], [])
      case Once(mark) =>
        if mark in seen then ExpandLines(files, lines[1..], seen)
        else
          assert files.Keys - (seen + {mark}) <= files.Keys - seen;
          ExpandLines(files, lines[1..], seen + {mark}).After([First(mark)], [])
      case Descend(path) =>
        match ExpandFile(files, path, seen)
        case Missing => Missing
        case Done(out, visited, seen') =>
          assert files.Keys - seen' <= files.Keys - seen;
          ExpandLines(files, lines[1..], seen').After(out, visited)
  }

  lemma StartLines(files: Files, lines: seq<Line>, seen: set<string>)
    ensures ExpandLines(files, lines[0..], seen).After([], []) == ExpandLines(files, lines, seen)
  {
    assert lines[0..] == lines;
  }

  lemma EndLines(files: Files, lines: seq<Line>, seen: set<string>, out: seq<Written>, visited: seq<string>)
    ensures ExpandLines(files, lines[|lines|..], seen).After(out, visited) == Done(out, visited, seen)
  {
  }

  /** What one line adds: what it writes and opens, and what has been met behind it. */
  function ExpandLine(files: Files, line: Line, seen: set<string>): Outcome {
    match line
    case Copy(s) => Done([Copied(s)], [], seen)
    case Once(mark) => if mark in seen then Done([], [], seen) else Done([First(mark)], [], seen + {mark})
    case Descend(path) => ExpandFile(files, path, seen)
  }

  lemma OneLine(files: Files, lines: seq<Line>, i: nat, seen: set<string>, out: seq<Written>, visited: seq<string>)
    requires i < |lines|
    ensures var first := ExpandLine(files, lines[i], seen);
            ExpandLines(files, lines[i..], seen).After(out, visited) ==
            if first.Missing? then Missing
            else ExpandLines(files, lines[i + 1..], first.seen).After(out + first.out, visited + first.visited)
  {
    hide ExpandFile;
    var first := ExpandLine(files, lines[i], seen);
    assert lines[i..][1..] == lines[i + 1..];
    if first.Done? {
      LineFirst(files, lines[i], lines[i + 1..], seen);
      hide ExpandLines, ExpandLine;
      AfterAfter(ExpandLines(files, lines[i + 1..], first.seen), first.out, first.visited, out, visited);
      assert lines[i..] == [lines[i]] + lines[i + 1..];
    }
  }

  lemma LineFirst(files: Files, line: Line, rest: seq<Line>, seen: set<string>)
    ensures var first := ExpandLine(files, line, seen);
            ExpandLines(files, [line] + rest, seen) ==
            if first.Missing? then Missing else ExpandLines(files, rest, first.seen).After(first.out, first.visited)
  {
    hide ExpandFile;
    assert ([line] + rest)[1..] == rest;
    var r := ExpandLines(files, rest, seen);
    assert r.Done? ==> [] + r.out == r.out && [] + r.visited == r.visited;
  }

  lemma AfterAfter(r: Outcome, a: seq<Written>, b: seq<string>, c: seq<Written>, d: seq<string>)
    ensures r.After(a, b).After(c, d) == r.After(c + a, d + b)
  {
    if r.Done? {
      assert c + (a + r.out) == (c + a) + r.out && d + (b + r.visited) == (d + b) + r.visited;
    }
  }

  // ---------------------------------------------------------------- the fuser

  class Fuser {
    const files: Files
    var processed: set<string>
    var output: seq<Written>
    ghost var visited: seq<string>

    constructor (files: Files)
      ensures this.files == files && processed == {} && output == [] && visited == []
    {
      this.files, processed, output, visited := files, {}, [], [];
    }

    /** The recursive ProcessFile; false if a file cannot be opened. */
    method ProcessFile(path: string) returns (ok: bool)
      modifies this
      ensures var r := ExpandFile(files, path, old(processed));
              && (ok <==> r.Done?)
              && (ok ==> processed == r.seen && output == old(output) + r.out && visited == old(visited) + r.visited)
      decreases files.Keys - processed, 0
    {
      if path in processed {
        return true;
      }
      processed := processed + {path};
      if path !in files {
        return false;
      }
      visited := visited + [path];
      assert path in files.Keys - old(processed);
      ok := ProcessLines(files[path]);
    }

    /** The loop over the lines of a file. */
    method ProcessLines(lines: seq<Line>) returns (ok: bool)
      modifies this
      ensures var r := ExpandLines(files, lines, old(processed));
              && (ok <==> r.Done?)
              && (ok ==> processed == r.seen && output == old(output) + r.out && visited == old(visited) + r.visited)
      decreases files.Keys - processed, 1
    {
      hide ExpandLines, ExpandFile, Outcome.After;
      ghost var out: seq<Written>, vis: seq<string> := [], [];
      StartLines(files, lines, processed);
      for i := 0 to |lines|
        invariant old(processed) <= processed && output == old(output) + out && visited == old(visited) + vis
        invariant ExpandLines(files, lines[i..], processed).After(out, vis) == ExpandLines(files, lines, old(processed))
      {
        ghost var first := ExpandLine(files, lines[i], processed);
        OneLine(files, lines, i, processed, out, vis);
        match lines[i] {
          case Descend(path) =>
            ok := ProcessFile(path);
            if !ok {
              return;
            }
          case Once(mark) =>
            if mark !in processed {
              processed := processed + {mark};
              output := output + [First(mark)];
            }
          case Copy(s) =>
            output := output + [Copied(s)];
        }
        out, vis := out + first.out, vis + first.visited;
      }
      EndLines(files, lines, processed, out, vis);
      ok := true;
    }
  }
}
