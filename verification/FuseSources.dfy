/** The source fuser of fuse_gtest_files.py.  It expands "src/" includes and gtest-spi.h in place, and
    turns every other include of a gtest header into one include of the fused header. */
module FuseSources {
  import opened Options
  import opened FuseExpansion
  import opened FuseTheory
  import opened FuseGraph
  import FuseHeaders

  const GTEST_SPI_H_SEED: string := "include/gtest/gtest-spi.h"
  const GTEST_ALL_CC_SEED: string := "src/gtest-all.cc"

  /** A line as the fuser sees it: `#include "gtest/..."`, with what is quoted, `#include "src/..."`, with
      what follows the slash, or any other text. */
  datatype SourceLine = GtestInclude(quoted: string) | SrcInclude(rest: string) | Text(text: string)

  /** What the loop of ProcessFile does with a line.  The include of the fused header is written when its
      name is first met. */
  function Classify(line: SourceLine): Line {
    match line
    case GtestInclude(quoted) =>
      if "include/" + quoted == GTEST_SPI_H_SEED then Descend(GTEST_SPI_H_SEED) else Once(FuseHeaders.GTEST_H_SEED)
    case SrcInclude(rest) => Descend("src/" + rest)
    case Text(text) => Copy(text)
  }

  /** `#include "src/x"` stands for the file src/x, and of the gtest headers only gtest-spi.h is followed. */
  predicate Leads(line: SourceLine, path: string) {
    match line
    case SrcInclude(rest) => path == "src/" + rest
    case GtestInclude(quoted) => quoted == "gtest/gtest-spi.h" && path == "include/gtest/gtest-spi.h"
    case Text(_) => false
  }

  function TextOf(line: SourceLine): Option<string> {
    if line.Text? then Some(line.text) else None
  }

  /** FuseGTestAllCcToFile: false if a file is missing.  It ends for any include graph, and fails exactly if a
      file reachable from gtest-all.cc is missing.  Otherwise it opens the reachable files, each once and
      no other, copies their other lines, each as often as it stands in them and in its order there, and
      writes the include of the fused header once if some of these files asks for a header that went into
      it, and not at all if none does. */
  method FuseGTestAllCc(files: map<string, seq<SourceLine>>)
    returns (ok: bool, output: seq<Written>, ghost paths: seq<string>)
    ensures var r := ExpandFile(Classified(files, Classify), GTEST_ALL_CC_SEED, {});
            (ok <==> r.Done?) && (ok ==> output == r.out && paths == r.visited)
    ensures ok <==> forall x :: Reaches(files, Leads, "src/gtest-all.cc", x) ==> x in files
    ensures ok ==> Distinct(paths) && forall x :: x in paths <==> Reaches(files, Leads, "src/gtest-all.cc", x)
    ensures ok ==> forall x :: x in paths ==> x in files && InOrder(Texts(files[x], TextOf), output)
    ensures ok ==> forall text :: multiset(output)[Copied(text)] == Occurrences(files, paths, Text(text))
    ensures ok ==> multiset(output)[First("include/gtest/gtest.h")]
                     == if exists x :: x in paths && AsksForHeader(files[x]) then 1 else 0
    ensures ok ==> forall line :: line in output ==> line.Copied? || line == First("include/gtest/gtest.h")
  {
    hide ExpandFile, Classified, Reaches, Texts, InOrder, Occurrences, Distinct, AsksForHeader;
    SourcesFusedOnce(files);
    var fuser := new Fuser(Classified(files, Classify));
    ok := fuser.ProcessFile(GTEST_ALL_CC_SEED);
    output, paths := fuser.output, fuser.visited;
  }

  /** The only name that is not opened is that of the fused header, and no line sends into it. */
  lemma HeaderNotExpanded(line: SourceLine)
    ensures Classify(line).Descend? ==> Classify(line).path != FuseHeaders.GTEST_H_SEED
    ensures Classify(line).Once? ==> Classify(line).mark == FuseHeaders.GTEST_H_SEED
  {
    if line.SrcInclude? {
      assert ("src/" + line.rest)[0] == 's' && FuseHeaders.GTEST_H_SEED[0] == 'i';
    } else if line.GtestInclude? {
      assert |GTEST_SPI_H_SEED| != |FuseHeaders.GTEST_H_SEED|;
    }
  }

  lemma NamesApart(files: map<string, seq<SourceLine>>)
    ensures MarksApart(Classified(files, Classify))
    ensures forall name :: IsMark(Classified(files, Classify), name) ==> name == FuseHeaders.GTEST_H_SEED
  {
    hide Classify, Classified;
    var graph := Classified(files, Classify);
    forall name | IsMark(graph, name) ensures name == FuseHeaders.GTEST_H_SEED {
      var a :| Asks(graph, a, name);
      var l :| l in files[a] && Once(name) == Classify(l);
      HeaderNotExpanded(l);
    }
    forall a, b | Edge(graph, a, b) ensures b != FuseHeaders.GTEST_H_SEED {
      var l :| l in files[a] && Descend(b) == Classify(l);
      HeaderNotExpanded(l);
    }
  }

  /** The line asks for a header that is part of the fused one. */
  predicate IsAsk(line: SourceLine) {
    line.GtestInclude? && line.quoted != "gtest/gtest-spi.h"
  }

  predicate AsksForHeader(lines: seq<SourceLine>) {
    exists line :: line in lines && IsAsk(line)
  }

  /** `"include/" + quoted` names gtest-spi.h for one quoted path only. */
  lemma SpiQuoted(quoted: string)
    ensures "include/" + quoted == GTEST_SPI_H_SEED <==> quoted == "gtest/gtest-spi.h"
  {
    assert GTEST_SPI_H_SEED == "include/" + "gtest/gtest-spi.h";
    assert ("include/" + quoted)[8..] == quoted;
  }

  lemma AskIff(line: SourceLine)
    ensures IsAsk(line) <==> Classify(line) == Once(FuseHeaders.GTEST_H_SEED)
  {
    if line.GtestInclude? {
      SpiQuoted(line.quoted);
    }
  }

  lemma AsksIff(files: map<string, seq<SourceLine>>, path: string)
    ensures Asks(Classified(files, Classify), path, FuseHeaders.GTEST_H_SEED) <==>
      path in files && AsksForHeader(files[path])
  {
    hide Classified, Classify, IsAsk;
    if Asks(Classified(files, Classify), path, FuseHeaders.GTEST_H_SEED) {
      var line :| line in files[path] && Once(FuseHeaders.GTEST_H_SEED) == Classify(line);
      AskIff(line);
    }
    if path in files && AsksForHeader(files[path]) {
      var line :| line in files[path] && IsAsk(line);
      AskIff(line);
      assert Classify(line) in Classified(files, Classify)[path];
    }
  }

  lemma ClassifyAgrees()
    ensures GoesWhere(Classify, Leads) && CopiesTexts(Classify, TextOf)
    ensures forall text, line :: Classify(line) == Copy(text) <==> line == Text(text)
  {
    forall line: SourceLine, b: string ensures Leads(line, b) <==> Classify(line) == Descend(b) {
      if line.GtestInclude? {
        SpiQuoted(line.quoted);
      }
    }
  }

  /** What the expansion opens and writes, in terms of the files as they are. */
  lemma SourcesFusedOnce(files: map<string, seq<SourceLine>>)
    ensures var r := ExpandFile(Classified(files, Classify), "src/gtest-all.cc", {});
            && (r.Done? <==> forall x :: Reaches(files, Leads, "src/gtest-all.cc", x) ==> x in files)
            && (r.Done? ==>
                  && Distinct(r.visited)
                  && (forall x :: x in r.visited <==> Reaches(files, Leads, "src/gtest-all.cc", x))
                  && (forall x :: x in r.visited ==> x in files && InOrder(Texts(files[x], TextOf), r.out))
                  && (forall text :: multiset(r.out)[Copied(text)] == Occurrences(files, r.visited, Text(text)))
                  && multiset(r.out)[First("include/gtest/gtest.h")]
                       == (if exists x :: x in r.visited && AsksForHeader(files[x]) then 1 else 0)
                  && (forall line :: line in r.out ==> line.Copied? || line == First("include/gtest/gtest.h")))
  {
    ClassifyAgrees();
    NamesApart(files);
    hide ExpandFile, Classified, IsMark, Reachable, Reaches, TextsOf, InOrder, TextLines, Texts, Edge, Asks;
    hide Occurrences, GoesWhere, CopiesTexts, Classify, Each, AsksForHeader, MarksApart;
    var graph, seed := Classified(files, Classify), "src/gtest-all.cc";
    assert seed[0] != FuseHeaders.GTEST_H_SEED[0];
    FusesReachableOnce(graph, seed);
    forall x ensures Reaches(files, Leads, seed, x) <==> Reachable(graph, seed, x) {
      ReachesIff(files, Classify, Leads, seed, x);
    }
    forall x ensures Asks(graph, x, FuseHeaders.GTEST_H_SEED) <==> x in files && AsksForHeader(files[x]) {
      AsksIff(files, x);
    }
    var r := ExpandFile(graph, seed, {});
    if r.Done? {
      OnlyHeaderNamed(graph, r.visited, r.out);
      forall text ensures TextsOf(graph, r.visited, text) == Occurrences(files, r.visited, Text(text)) {
        OccurrencesIff(files, Classify, r.visited, Text(text), text);
      }
      forall x | x in r.visited ensures Texts(files[x], TextOf) == TextLines(graph[x]) {
        TextsIff(files[x], graph[x], Classify, TextOf);
      }
    }
  }

  lemma OnlyHeaderNamed(graph: Files, visited: seq<string>, out: seq<Written>)
    requires forall name :: IsMark(graph, name) ==> name == FuseHeaders.GTEST_H_SEED
    requires forall name :: multiset(out)[First(name)] == if AskedFor(graph, visited, name) then 1 else 0
    ensures forall line :: line in out ==> line.Copied? || line == First(FuseHeaders.GTEST_H_SEED)
  {
    hide Asks;
    forall line | line in out ensures line.Copied? || line == First(FuseHeaders.GTEST_H_SEED) {
      assert line in multiset(out);
      if line.First? {
        assert line == First(line.mark) && multiset(out)[First(line.mark)] > 0;
        assert AskedFor(graph, visited, line.mark) && IsMark(graph, line.mark);
      }
    }
  }
}
