/** The header fuser of fuse_gtest_files.py. */
module FuseHeaders {
  import opened Options
  import opened FuseExpansion
  import opened FuseTheory
  import opened FuseGraph

  const GTEST_H_SEED: string := "include/gtest/gtest.h"

  /** A line as the fuser sees it: `#include "gtest/..."`, with what is quoted, or any other text. */
  datatype HeaderLine = GtestInclude(quoted: string) | Text(text: string)

  /** What the loop of ProcessFile does with a line. */
  function Classify(line: HeaderLine): Line {
    match line
    case GtestInclude(quoted) => Descend("include/" + quoted)
    case Text(text) => Copy(text)
  }

  /** `#include "gtest/x.h"` stands for the file include/gtest/x.h. */
  predicate Leads(line: HeaderLine, path: string) {
    line.GtestInclude? && path == "include/" + line.quoted
  }

  function TextOf(line: HeaderLine): Option<string> {
    if line.Text? then Some(line.text) else None
  }

  /** FuseGTestH: false if a header is missing.  It ends for any include graph, cycles included, and fails
      exactly if a header reachable from gtest.h is missing.  Otherwise it opens the reachable headers, each
      once and no other, and what it writes are their other lines, each as often as it stands in
      them and in its order there. */
  method FuseGTestH(files: map<string, seq<HeaderLine>>)
    returns (ok: bool, output: seq<Written>, ghost paths: seq<string>)
    ensures var r := ExpandFile(Classified(files, Classify), GTEST_H_SEED, {});
            (ok <==> r.Done?) && (ok ==> output == r.out && paths == r.visited)
    ensures ok <==> forall x :: Reaches(files, Leads, "include/gtest/gtest.h", x) ==> x in files
    ensures ok ==> Distinct(paths) && forall x :: x in paths <==> Reaches(files, Leads, "include/gtest/gtest.h", x)
    ensures ok ==> forall x :: x in paths ==> x in files && InOrder(Texts(files[x], TextOf), output)
    ensures ok ==> forall text :: multiset(output)[Copied(text)] == Occurrences(files, paths, Text(text))
    ensures ok ==> forall line :: line in output ==> line.Copied?
  {
    hide ExpandFile, Classified, Reaches, Texts, InOrder, Occurrences, Distinct;
    HeadersFusedOnce(files);
    var fuser := new Fuser(Classified(files, Classify));
    ok := fuser.ProcessFile(GTEST_H_SEED);
    output, paths := fuser.output, fuser.visited;
  }

  lemma NoNames(files: map<string, seq<HeaderLine>>, name: string)
    ensures !IsMark(Classified(files, Classify), name)
  {
  }

  /** What the expansion opens and writes, in terms of the headers as they are. */
  lemma HeadersFusedOnce(files: map<string, seq<HeaderLine>>)
    ensures var r := ExpandFile(Classified(files, Classify), "include/gtest/gtest.h", {});
            && (r.Done? <==> forall x :: Reaches(files, Leads, "include/gtest/gtest.h", x) ==> x in files)
            && (r.Done? ==>
                  && Distinct(r.visited)
                  && (forall x :: x in r.visited <==> Reaches(files, Leads, "include/gtest/gtest.h", x))
                  && (forall x :: x in r.visited ==> x in files && InOrder(Texts(files[x], TextOf), r.out))
                  && (forall text :: multiset(r.out)[Copied(text)] == Occurrences(files, r.visited, Text(text)))
                  && (forall line :: line in r.out ==> line.Copied?))
  {
    ClassifyAgrees();
    hide ExpandFile, Classified, IsMark, Reachable, Reaches, TextsOf, InOrder, TextLines, Texts, Edge, Asks;
    hide Occurrences, GoesWhere, CopiesTexts, Classify, Each;
    var graph := Classified(files, Classify);
    forall name ensures !IsMark(graph, name) {
      NoNames(files, name);
    }
    FusesReachableOnce(graph, GTEST_H_SEED);
    forall x ensures Reaches(files, Leads, GTEST_H_SEED, x) <==> Reachable(graph, GTEST_H_SEED, x) {
      ReachesIff(files, Classify, Leads, GTEST_H_SEED, x);
    }
    var r := ExpandFile(graph, GTEST_H_SEED, {});
    if r.Done? {
      forall name ensures multiset(r.out)[First(name)] == 0 {
        NotAsked(graph, r.visited, name);
      }
      OnlyCopied(r.out);
      forall text ensures TextsOf(graph, r.visited, text) == Occurrences(files, r.visited, Text(text)) {
        OccurrencesIff(files, Classify, r.visited, Text(text), text);
      }
      forall x | x in r.visited ensures Texts(files[x], TextOf) == TextLines(graph[x]) {
        TextsIff(files[x], graph[x], Classify, TextOf);
      }
    }
  }

  lemma ClassifyAgrees()
    ensures GoesWhere(Classify, Leads) && CopiesTexts(Classify, TextOf)
    ensures forall text, line :: Classify(line) == Copy(text) <==> line == Text(text)
  {
  }

  lemma OnlyCopied(out: seq<Written>)
    requires forall name :: multiset(out)[First(name)] == 0
    ensures forall line :: line in out ==> line.Copied?
  {
    forall line | line in out ensures line.Copied? {
      assert line in multiset(out);
      assert line.First? ==> multiset(out)[First(line.mark)] == 0;
    }
  }

  lemma NotAsked(files: Files, paths: seq<string>, name: string)
    requires !IsMark(files, name)
    ensures !AskedFor(files, paths, name)
  {
  }
}
