/** The Range header's grammar, written down without reference to the parser, and the theorems that
    tie the parser to it: it serves a header exactly when the header can be written this way and the
    ranges asked for fit, and every range it stores lies inside the body. */
module RangeGrammar {
  import opened Options
  import opened CStrings
  import opened Decimals
  import opened RangeTypes
  import opened RangeParse

  // ---------------------------------------------------------------- how a header is written

  /** One range as it is written, with the number of spaces at each place that allows them. */
  datatype Written =
    | WFromTo(s0: nat, first: string, s1: nat, s2: nat, last: string, s3: nat)
    | WFrom(s0: nat, first: string, s1: nat, s2: nat)
    | WSuffix(s0: nat, count: string, s1: nat)

  function Spaces(n: nat): (s: string)
    ensures |s| == n
  {
    seq(n, _ => ' ')
  }

  predicate Numeral(s: string) {
    s != "" && AllDigits(s, 0, |s|) && Number(s, 0, |s|) <= MAX_OFF_T
  }

  predicate ValidWritten(w: Written) {
    match w
    case WFromTo(_, first, _, _, last, _) => Numeral(first) && Numeral(last)
    case WFrom(_, first, _, _) => Numeral(first)
    case WSuffix(_, count, _) => Numeral(count)
  }

  function Opening(s0: nat, first: string, s1: nat): string {
    Spaces(s0) + (first + (Spaces(s1) + "-"))
  }

  function Closing(last: string, s: nat): string {
    last + Spaces(s)
  }

  function Text(w: Written): string {
    match w
    case WFromTo(s0, first, s1, s2, last, s3) => Opening(s0, first, s1) + (Spaces(s2) + Closing(last, s3))
    case WFrom(s0, first, s1, s2) => Opening(s0, first, s1) + Spaces(s2)
    case WSuffix(s0, count, s1) => Spaces(s0) + ("-" + Closing(count, s1))
  }

  function Meaning(w: Written): RangeSpec
    requires ValidWritten(w)
  {
    match w
    case WFromTo(_, first, _, _, last, _) => FromTo(Number(first, 0, |first|), Number(last, 0, |last|))
    case WFrom(_, first, _, _) => From(Number(first, 0, |first|))
    case WSuffix(_, count, _) => Suffix(Number(count, 0, |count|))
  }

  /** A header is a nonempty list of written ranges, separated by commas. */
  function TextAll(ws: seq<Written>): string
    requires ws != []
  {
    if |ws| == 1 then Text(ws[0]) else Text(ws[0]) + ("," + TextAll(ws[1..]))
  }

  predicate ValidHeader(ws: seq<Written>) {
    ws != [] && forall i :: 0 <= i < |ws| ==> ValidWritten(ws[i])
  }

  // ---------------------------------------------------------------- reading what was written

  ghost predicate Occurs(text: string, p: nat, s: string) {
    p + |s| <= |text| && text[p..p + |s|] == s
  }

  lemma OccursConcat(text: string, p: nat, a: string, b: string)
    ensures Occurs(text, p, a + b) <==> Occurs(text, p, a) && Occurs(text, p + |a|, b)
    ensures Occurs(text, p, a + b) ==> p + |a| + |b| <= |text|
  {
    if Occurs(text, p, a + b) {
      assert text[p..p + |a|] == text[p..p + |a + b|][..|a|];
      assert text[p + |a|..p + |a| + |b|] == text[p..p + |a + b|][|a|..];
    }
    if Occurs(text, p, a) && Occurs(text, p + |a|, b) {
      assert text[p..p + |a + b|] == text[p..p + |a|] + text[p + |a|..p + |a| + |b|];
    }
  }

  lemma {:induction false} SkipSpacesOver(text: string, p: nat, n: nat)
    requires Occurs(text, p, Spaces(n)) && At(text, p + n) != ' '
    ensures SkipSpaces(text, p) == p + n
    decreases n
  {
    if n > 0 {
      assert text[p] == text[p..p + n][0];
      assert text[p + 1..p + n] == text[p..p + n][1..] == Spaces(n - 1);
      SkipSpacesOver(text, p + 1, n - 1);
    }
  }

  lemma {:induction false} SkipDigitsOver(text: string, p: nat, q: nat)
    requires p <= q <= |text| && AllDigits(text, p, q) && !IsDigit(At(text, q))
    ensures SkipDigits(text, p) == q
    decreases q - p
  {
    if p < q { SkipDigitsOver(text, p + 1, q); }
  }

  lemma ScanNumberOver(text: string, p: nat, s: string)
    requires Occurs(text, p, s) && Numeral(s) && !IsDigit(At(text, p + |s|))
    ensures ScanNumber(text, p) == Some((Number(s, 0, |s|), p + |s|))
    ensures IsDigit(At(text, p))
  {
    var t := text[p..p + |s|];
    assert forall i :: 0 <= i < |s| ==> t[i] == text[p + i];
    NumberOfPrefix(text, s, p, |s|);
    SkipDigitsOver(text, p, p + |s|);
  }

  lemma AfterSpaces(text: string, p: nat, n: nat, rest: string)
    requires Occurs(text, p, Spaces(n)) && Occurs(text, p + n, rest)
    requires rest != "" && rest[0] != ' '
    ensures SkipSpaces(text, p) == p + n && At(text, p + n) == rest[0]
    ensures !IsDigit(rest[0]) ==> !IsDigit(At(text, p))
  {
    assert text[p + n] == text[p + n..p + n + |rest|][0];
    SkipSpacesOver(text, p, n);
    if n > 0 {
      assert text[p] == text[p..p + n][0];
    }
  }

  lemma SpacesAtEnd(text: string, p: nat, n: nat)
    requires Occurs(text, p, Spaces(n)) && AtItemEnd(text, p + n)
    ensures SkipSpaces(text, p) == p + n && !IsDigit(At(text, p))
  {
    SkipSpacesOver(text, p, n);
    if n > 0 {
      assert text[p] == text[p..p + n][0];
    }
  }

  lemma OpeningReadBack(text: string, p: nat, s0: nat, first: string, s1: nat)
    requires Numeral(first) && Occurs(text, p, Opening(s0, first, s1))
    ensures ScanOpening(text, p) == Some((Number(first, 0, |first|), p + |Opening(s0, first, s1)|))
    ensures At(text, SkipSpaces(text, p)) != '-'
  {
    hide Occurs, Spaces, SkipSpaces, SkipDigits, ScanNumber, Number;
    var p1 := p + s0;
    var p2 := p1 + |first|;
    OccursConcat(text, p, Spaces(s0), first + (Spaces(s1) + "-"));
    OccursConcat(text, p1, first, Spaces(s1) + "-");
    OccursConcat(text, p2, Spaces(s1), "-");
    AfterSpaces(text, p, s0, first);
    AfterSpaces(text, p2, s1, "-");
    ScanNumberOver(text, p1, first);
  }

  lemma ClosingReadBack(text: string, p: nat, last: string, s: nat)
    requires Numeral(last) && Occurs(text, p, Closing(last, s)) && AtItemEnd(text, p + |Closing(last, s)|)
    ensures ScanClosing(text, p) == Some((Number(last, 0, |last|), p + |Closing(last, s)|))
    ensures Closing(last, s) != "" && IsDigit(Closing(last, s)[0]) && Closing(last, s)[0] != ' '
  {
    hide Occurs, Spaces, SkipSpaces, SkipDigits, ScanNumber, Number;
    OccursConcat(text, p, last, Spaces(s));
    SpacesAtEnd(text, p + |last|, s);
    ScanNumberOver(text, p, last);
  }

  /** A written range is read back as what it means. */
  lemma ReadBack(text: string, p: nat, w: Written)
    requires ValidWritten(w) && Occurs(text, p, Text(w)) && AtItemEnd(text, p + |Text(w)|)
    ensures ScanItem(text, p) == Some((Meaning(w), p + |Text(w)|))
  {
    hide Occurs, Spaces, SkipSpaces, SkipDigits, ScanNumber, ScanOpening, ScanClosing, Number, Opening, Closing;
    match w {
      case WFromTo(s0, first, s1, s2, last, s3) => ReadBackFromTo(text, p, s0, first, s1, s2, last, s3);
      case WFrom(s0, first, s1, s2) =>
        OccursConcat(text, p, Opening(s0, first, s1), Spaces(s2));
        OpeningReadBack(text, p, s0, first, s1);
        SpacesAtEnd(text, p + |Opening(s0, first, s1)|, s2);
      case WSuffix(s0, count, s1) =>
        OccursConcat(text, p, Spaces(s0), "-" + Closing(count, s1));
        OccursConcat(text, p + s0, "-", Closing(count, s1));
        AfterSpaces(text, p, s0, "-");
        ClosingReadBack(text, p + s0 + 1, count, s1);
    }
  }

  lemma ReadBackFromTo(text: string, p: nat, s0: nat, first: string, s1: nat, s2: nat, last: string, s3: nat)
    requires Numeral(first) && Numeral(last)
    requires var t := Text(WFromTo(s0, first, s1, s2, last, s3)); Occurs(text, p, t) && AtItemEnd(text, p + |t|)
    ensures ScanItem(text, p) == Some((FromTo(Number(first, 0, |first|), Number(last, 0, |last|)),
                                       p + |Text(WFromTo(s0, first, s1, s2, last, s3))|))
  {
    hide *;
    var opening, closing := Opening(s0, first, s1), Closing(last, s3);
    TextFromTo(s0, first, s1, s2, last, s3);
    var p2 := p + |opening|;
    OccursConcat(text, p, opening, Spaces(s2) + closing);
    OccursConcat(text, p2, Spaces(s2), closing);
    OpeningReadBack(text, p, s0, first, s1);
    ClosingReadBack(text, p2 + s2, last, s3);
    AfterSpaces(text, p2, s2, closing);
    ScanFromTo(text, p, p2, p2 + s2);
  }

  lemma TextFromTo(s0: nat, first: string, s1: nat, s2: nat, last: string, s3: nat)
    ensures Text(WFromTo(s0, first, s1, s2, last, s3)) == Opening(s0, first, s1) + (Spaces(s2) + Closing(last, s3))
  {
  }

  /** A range with both numbers, put together from its parts. */
  lemma ScanFromTo(text: string, p: nat, p2: nat, p3: nat)
    requires p <= |text| && p2 <= |text| && p3 <= |text|
    requires At(text, SkipSpaces(text, p)) != '-' && SkipSpaces(text, p2) == p3 && IsDigit(At(text, p3))
    requires ScanOpening(text, p).Some? && ScanOpening(text, p).value.1 == p2 && ScanClosing(text, p3).Some?
    ensures ScanItem(text, p) ==
      Some((FromTo(ScanOpening(text, p).value.0, ScanClosing(text, p3).value.0), ScanClosing(text, p3).value.1))
  {
    hide SkipSpaces, ScanOpening, ScanClosing;
  }

  lemma SpacesWere(text: string, p: nat)
    requires p <= |text|
    ensures text[p..SkipSpaces(text, p)] == Spaces(SkipSpaces(text, p) - p)
  {
    var q := SkipSpaces(text, p);
    assert forall i :: 0 <= i < q - p ==> text[p..q][i] == text[p + i] == ' ';
  }

  lemma NumeralWas(text: string, p: nat)
    requires p <= |text| && ScanNumber(text, p).Some?
    ensures var (v, q) := ScanNumber(text, p).value; Numeral(text[p..q]) && Number(text[p..q], 0, q - p) == v
  {
    var (v, q) := ScanNumber(text, p).value;
    assert forall i :: 0 <= i < q - p ==> text[p..q][i] == text[p + i];
    NumberOfPrefix(text, text[p..q], p, q - p);
  }

  lemma Cut(text: string, a: nat, b: nat, c: nat)
    requires a <= b <= c <= |text|
    ensures text[a..c] == text[a..b] + text[b..c]
  {
  }

  lemma OpeningWas(text: string, p: nat) returns (s0: nat, first: string, s1: nat)
    requires p <= |text| && ScanOpening(text, p).Some?
    ensures var (v, q) := ScanOpening(text, p).value;
            Numeral(first) && Number(first, 0, |first|) == v && text[p..q] == Opening(s0, first, s1)
  {
    hide SkipSpaces, SkipDigits, ScanNumber, Number;
    var p1 := SkipSpaces(text, p);
    var p2 := ScanNumber(text, p1).value.1;
    var p3 := SkipSpaces(text, p2);
    SpacesWere(text, p);
    NumeralWas(text, p1);
    SpacesWere(text, p2);
    s0, first, s1 := p1 - p, text[p1..p2], p3 - p2;
    Cut(text, p, p1, p3 + 1);
    Cut(text, p1, p2, p3 + 1);
    Cut(text, p2, p3, p3 + 1);
  }

  lemma ClosingWas(text: string, p: nat) returns (last: string, s: nat)
    requires p <= |text| && ScanClosing(text, p).Some?
    ensures var (v, q) := ScanClosing(text, p).value;
            Numeral(last) && Number(last, 0, |last|) == v && text[p..q] == Closing(last, s)
  {
    hide SkipSpaces, SkipDigits, ScanNumber, Number;
    var p1 := ScanNumber(text, p).value.1;
    var p2 := SkipSpaces(text, p1);
    NumeralWas(text, p);
    SpacesWere(text, p1);
    last, s := text[p..p1], p2 - p1;
    assert text[p..p2] == text[p..p1] + text[p1..p2];
  }

  /** What the scanner accepts as a range is one written range. */
  lemma WasWritten(text: string, p: nat) returns (w: Written)
    requires p <= |text| && ScanItem(text, p).Some?
    ensures var (spec, q) := ScanItem(text, p).value;
            ValidWritten(w) && Meaning(w) == spec && text[p..q] == Text(w)
  {
    hide SkipSpaces, SkipDigits, ScanNumber, ScanOpening, ScanClosing, Number, Opening, Closing;
    var q := ScanItem(text, p).value.1;
    var p1 := SkipSpaces(text, p);
    if At(text, p1) == '-' {
      SpacesWere(text, p);
      var count, s := ClosingWas(text, p1 + 1);
      w := WSuffix(p1 - p, count, s);
      assert text[p..q] == text[p..p1] + ([text[p1]] + text[p1 + 1..q]);
    } else {
      var s0, first, s1 := OpeningWas(text, p);
      var p2 := ScanOpening(text, p).value.1;
      var p3 := SkipSpaces(text, p2);
      SpacesWere(text, p2);
      if AtItemEnd(text, p3) {
        w := WFrom(s0, first, s1, p3 - p2);
        assert text[p..q] == text[p..p2] + text[p2..p3];
      } else {
        var last, s3 := ClosingWas(text, p3);
        w := WFromTo(s0, first, s1, p3 - p2, last, s3);
        assert text[p..q] == text[p..p2] + (text[p2..p3] + text[p3..q]);
      }
    }
  }

  // ---------------------------------------------------------------- which ranges are served

  /** The ranges that have any bytes, in the order asked for. */
  function Satisfiable(specs: seq<RangeSpec>, contentLength: nat): seq<Range> {
    if specs == [] then []
    else
      var r := Resolve(specs[0], contentLength);
      (if r.start < r.end then [r] else []) + Satisfiable(specs[1..], contentLength)
  }

  function Meanings(ws: seq<Written>): seq<RangeSpec>
    requires forall i :: 0 <= i < |ws| ==> ValidWritten(ws[i])
  {
    if ws == [] then [] else [Meaning(ws[0])] + Meanings(ws[1..])
  }

  /** `served` is what a header asks for, and it is neither nothing nor too much. */
  predicate Acceptable(served: seq<Range>, contentLength: nat, ranges: nat) {
    served != [] && |served| <= ranges && Total(served) <= contentLength
  }

  /** The parser's verdict on a list of ranges already read, by the same early exits. */
  function Outcome(specs: seq<RangeSpec>, contentLength: nat, stored: seq<Range>, size: int, left: nat)
    : (Status, seq<Range>)
  {
    if specs == [] then (Verdict(contentLength, stored, size), stored)
    else
      var r := Resolve(specs[0], contentLength);
      if r.start < r.end then
        var stored' := stored + [r];
        if size > MAX_OFF_T - Length(r) then (NotSatisfiable, stored')
        else if left == 0 then (Declined, stored')
        else Outcome(specs[1..], contentLength, stored', size + Length(r), left - 1)
      else
        Outcome(specs[1..], contentLength, stored, size, left)
  }

  lemma {:induction false} TotalOfConcat(a: seq<Range>, b: seq<Range>)
    ensures Total(a + b) == Total(a) + Total(b)
    decreases |b|
  {
    if b == [] {
      assert a + b == a;
    } else {
      assert (a + b)[..|a + b| - 1] == a + b[..|b| - 1];
      TotalOfConcat(a, b[..|b| - 1]);
    }
  }

  lemma TotalOfSnoc(a: seq<Range>, r: Range)
    ensures Total(a + [r]) == Total(a) + Length(r)
  {
    assert (a + [r])[..|a|] == a;
  }

  lemma {:induction false} SatisfiableTotal(specs: seq<RangeSpec>, contentLength: nat)
    ensures |Satisfiable(specs, contentLength)| <= Total(Satisfiable(specs, contentLength))
  {
    if specs != [] {
      var r := Resolve(specs[0], contentLength);
      SatisfiableTotal(specs[1..], contentLength);
      if r.start < r.end {
        TotalOfConcat([r], Satisfiable(specs[1..], contentLength));
        TotalOfSnoc([], r);
        assert [] + [r] == [r];
      } else {
        assert [] + Satisfiable(specs[1..], contentLength) == Satisfiable(specs[1..], contentLength);
      }
    }
  }

  /** The early exits come to this: the ranges with any bytes must exist, be few enough, and have no
      more bytes in all than the body. */
  lemma {:induction false} OutcomeIsAcceptable(specs: seq<RangeSpec>, contentLength: nat, stored: seq<Range>,
                                               size: int, left: nat)
    requires contentLength <= MAX_OFF_T && size == Total(stored)
    ensures var served := stored + Satisfiable(specs, contentLength);
            var o := Outcome(specs, contentLength, stored, size, left);
            o.0 == Ok <==> Acceptable(served, contentLength, |stored| + left)
    ensures var served := stored + Satisfiable(specs, contentLength);
            var o := Outcome(specs, contentLength, stored, size, left);
            o.0 == Ok ==> o.1 == served
    decreases |specs|
  {
    hide Resolve, Total;
    if specs == [] {
      assert stored + [] == stored;
    } else {
      var r := Resolve(specs[0], contentLength);
      var rest := Satisfiable(specs[1..], contentLength);
      if r.start < r.end {
        assert stored + ([r] + rest) == (stored + [r]) + rest;
        SatisfiableTotal(specs[1..], contentLength);
        TotalOfSnoc(stored, r);
        TotalOfConcat(stored + [r], rest);
        OutcomeIsAcceptable(specs[1..], contentLength, stored + [r], size + Length(r),
          if left == 0 then 0 else left - 1);
      } else {
        assert [] + rest == rest;
        OutcomeIsAcceptable(specs[1..], contentLength, stored, size, left);
      }
    }
  }

  // ---------------------------------------------------------------- the parser against the grammar

  lemma FirstOfHeader(text: string, p: nat, ws: seq<Written>)
    requires ws != [] && p <= |text| && text[p..] == TextAll(ws)
    ensures var q := p + |Text(ws[0])|;
            && Occurs(text, p, Text(ws[0])) && AtItemEnd(text, q)
            && (At(text, q) == ',' <==> |ws| > 1)
            && (|ws| > 1 ==> text[q + 1..] == TextAll(ws[1..]))
  {
    hide Text;
    var t := Text(ws[0]);
    var tail := if |ws| == 1 then "" else "," + TextAll(ws[1..]);
    assert text[p..] == t + tail;
    assert text[p..p + |t|] == text[p..][..|t|];
    assert text[p + |t|..] == text[p..][|t|..];
  }

  /** Parsing the text of a header has the outcome of the list it means. */
  lemma {:induction false} ParseWritten(text: string, p: nat, ws: seq<Written>,
                                        contentLength: nat, stored: seq<Range>, size: int, left: nat)
    requires ValidHeader(ws) && p <= |text| && text[p..] == TextAll(ws)
    ensures ParseFrom(text, p, contentLength, stored, size, left)
         == Outcome(Meanings(ws), contentLength, stored, size, left)
    decreases |ws|
  {
    hide Occurs, ScanItem, Text, Meaning, Resolve, TextAll;
    var w, rest := ws[0], ws[1..];
    var q := p + |Text(w)|;
    FirstOfHeader(text, p, ws);
    ReadBack(text, p, w);
    assert Meanings(ws) == [Meaning(w)] + Meanings(rest);
    assert Meanings(ws)[1..] == Meanings(rest);
    if |ws| > 1 {
      var r := Resolve(Meaning(w), contentLength);
      if r.start < r.end {
        ParseWritten(text, q + 1, rest, contentLength, stored + [r], size + Length(r),
          if left == 0 then 0 else left - 1);
      } else {
        ParseWritten(text, q + 1, rest, contentLength, stored, size, left);
      }
    }
  }

  /** A header the parser accepts is one that can be written. */
  lemma {:induction false} AcceptedWasWritten(text: CString, p: nat, contentLength: nat,
                                              stored: seq<Range>, size: int, left: nat) returns (ws: seq<Written>)
    requires p <= |text| && ParseFrom(text, p, contentLength, stored, size, left).0 == Ok
    ensures ValidHeader(ws) && text[p..] == TextAll(ws)
    decreases |text| - p
  {
    hide ScanItem, Text, Resolve;
    var (spec, q) := ScanItem(text, p).value;
    var w := WasWritten(text, p);
    var r := Resolve(spec, contentLength);
    AtIsNul(text, q);
    assert text[p..] == text[p..q] + text[q..];
    if At(text, q) == ',' {
      var rest;
      if r.start < r.end {
        rest := AcceptedWasWritten(text, q + 1, contentLength, stored + [r], size + Length(r), left - 1);
      } else {
        rest := AcceptedWasWritten(text, q + 1, contentLength, stored, size, left);
      }
      ws := [w] + rest;
      assert ws[1..] == rest && text[q..] == "," + text[q + 1..];
    } else {
      ws := [w];
      assert text[q..] == "";
    }
  }

  /** `header`, after "bytes=", is the text of `ws`. */
  ghost predicate IsHeader(header: string, ws: seq<Written>) {
    ValidHeader(ws) && |header| >= 6 && header[6..] == TextAll(ws)
  }

  /** The parser serves `served` exactly when the header is written in the grammar, asks for `served`
      and `served` is acceptable. */
  lemma ParseIsGrammar(header: CString, contentLength: nat, ranges: nat, served: seq<Range>)
    requires |header| >= 7 && contentLength <= MAX_OFF_T
    ensures ParseFrom(header, 6, contentLength, [], 0, ranges) == (Ok, served) <==>
      && (exists ws :: IsHeader(header, ws) && served == Satisfiable(Meanings(ws), contentLength))
      && Acceptable(served, contentLength, ranges)
  {
    if ParseFrom(header, 6, contentLength, [], 0, ranges) == (Ok, served) {
      var ws := AcceptedWasWritten(header, 6, contentLength, [], 0, ranges);
      ServedIs(header, ws, contentLength, ranges);
    }
    if ws :| IsHeader(header, ws) && served == Satisfiable(Meanings(ws), contentLength) {
      ServedIs(header, ws, contentLength, ranges);
    }
  }

  lemma ServedIs(header: CString, ws: seq<Written>, contentLength: nat, ranges: nat)
    requires contentLength <= MAX_OFF_T && IsHeader(header, ws)
    ensures var o := ParseFrom(header, 6, contentLength, [], 0, ranges);
            var served := Satisfiable(Meanings(ws), contentLength);
            && (o.0 == Ok <==> Acceptable(served, contentLength, ranges)) && (o.0 == Ok ==> o.1 == served)
  {
    hide ParseFrom, Outcome, Satisfiable, Acceptable, TextAll, Meanings;
    ParseWritten(header, 6, ws, contentLength, [], 0, ranges);
    OutcomeIsAcceptable(Meanings(ws), contentLength, [], 0, ranges);
    assert [] + Satisfiable(Meanings(ws), contentLength) == Satisfiable(Meanings(ws), contentLength);
  }

  lemma RefusedIs(header: CString, ws: seq<Written>, contentLength: nat, ranges: nat)
    requires contentLength <= MAX_OFF_T && IsHeader(header, ws)
    ensures var o := ParseFrom(header, 6, contentLength, [], 0, ranges);
            var served := Satisfiable(Meanings(ws), contentLength);
            o.0 == NotSatisfiable <==> served == [] || Total(served[..Stored(served, ranges)]) > MAX_OFF_T
  {
    hide ParseFrom, Outcome, Satisfiable, Stored, TextAll, Meanings;
    ParseWritten(header, 6, ws, contentLength, [], 0, ranges);
    OutcomeRefuses(Meanings(ws), contentLength, [], 0, ranges);
    assert [] + Satisfiable(Meanings(ws), contentLength) == Satisfiable(Meanings(ws), contentLength);
  }

  // ---------------------------------------------------------------- the other two answers

  lemma TotalOfMore(a: seq<Range>, b: seq<Range>)
    requires forall i :: 0 <= i < |b| ==> Length(b[i]) > 0
    ensures Total(a) <= Total(a + b)
  {
    TotalOfConcat(a, b);
    TotalNonnegative(b);
  }

  /** How many ranges the loop stores: all, or one more than are allowed. */
  function Stored(served: seq<Range>, ranges: nat): (k: nat)
    ensures k <= |served|
  {
    if |served| <= ranges then |served| else ranges + 1
  }

  lemma {:induction false} OutcomeRefuses(specs: seq<RangeSpec>, contentLength: nat, stored: seq<Range>,
                                          size: int, left: nat)
    requires size == Total(stored) <= MAX_OFF_T
    ensures var served := stored + Satisfiable(specs, contentLength);
            Outcome(specs, contentLength, stored, size, left).0 == NotSatisfiable <==>
              served == [] || Total(served[..Stored(served, |stored| + left)]) > MAX_OFF_T
    decreases |specs|
  {
    hide Resolve, Total;
    var served := stored + Satisfiable(specs, contentLength);
    if specs == [] {
      assert served == stored;
      assert served[..|served|] == served;
    } else {
      var r, rest := Resolve(specs[0], contentLength), Satisfiable(specs[1..], contentLength);
      var stored' := stored + [r];
      if r.start < r.end {
        assert served == stored' + rest;
        TotalOfSnoc(stored, r);
        if size > MAX_OFF_T - Length(r) {
          var k := Stored(served, |stored| + left);
          assert served[..k] == stored' + rest[..k - |stored'|];
          SatisfiableShape(specs[1..], contentLength);
          TotalOfMore(stored', rest[..k - |stored'|]);
        } else if left == 0 {
          assert served[..|stored'|] == stored';
        } else {
          OutcomeRefuses(specs[1..], contentLength, stored', size + Length(r), left - 1);
        }
      } else {
        assert [] + rest == rest;
        OutcomeRefuses(specs[1..], contentLength, stored, size, left);
      }
    }
  }

  /** A grammatical header is answered as not satisfiable exactly when no range has any bytes, or the
      ranges stored come to more bytes than an off_t can count.  It is declined, so that the whole body
      is sent, in all other cases in which it is not served. */
  lemma GrammaticalAnswers(header: CString, ws: seq<Written>, contentLength: nat, ranges: nat)
    requires contentLength <= MAX_OFF_T && IsHeader(header, ws)
    ensures var status := ParseFrom(header, 6, contentLength, [], 0, ranges).0;
            var served := Satisfiable(Meanings(ws), contentLength);
            && (status == Ok <==> Acceptable(served, contentLength, ranges))
            && (status == NotSatisfiable <==> served == [] || Total(served[..Stored(served, ranges)]) > MAX_OFF_T)
  {
    hide *;
    ServedIs(header, ws, contentLength, ranges);
    RefusedIs(header, ws, contentLength, ranges);
  }

  // ---------------------------------------------------------------- ranges without bytes, and empty elements

  /** A range that ends before it starts is skipped, wherever it stands: what is served is what would be
      served without it. */
  lemma {:induction false} BackwardIsSkipped(before: seq<Written>, w: Written, after: seq<Written>, contentLength: nat)
    requires ValidWritten(w) && w.WFromTo? && Number(w.first, 0, |w.first|) > Number(w.last, 0, |w.last|)
    requires forall v :: v in before + after ==> ValidWritten(v)
    ensures forall i :: 0 <= i < |before + [w] + after| ==> ValidWritten((before + [w] + after)[i])
    ensures Satisfiable(Meanings(before + [w] + after), contentLength)
         == Satisfiable(Meanings(before + after), contentLength)
    decreases |before|
  {
    hide Number, Satisfiable, Meanings, Meaning, ValidWritten;
    BackwardIsEmpty(w, contentLength);
    var all, rest := before + [w] + after, before + after;
    forall i | 0 <= i < |all| ensures ValidWritten(all[i]) {
      assert all[i] == w || all[i] in rest;
    }
    FirstServed(all, contentLength);
    if before == [] {
      assert all[1..] == after && rest == after;
    } else {
      assert all[1..] == before[1..] + [w] + after && rest[1..] == before[1..] + after;
      assert forall v :: v in rest[1..] ==> v in rest;
      BackwardIsSkipped(before[1..], w, after, contentLength);
      FirstServed(rest, contentLength);
    }
  }

  lemma BackwardIsEmpty(w: Written, contentLength: nat)
    requires ValidWritten(w) && w.WFromTo? && Number(w.first, 0, |w.first|) > Number(w.last, 0, |w.last|)
    ensures Resolve(Meaning(w), contentLength).start >= Resolve(Meaning(w), contentLength).end
  {
    hide Number;
  }

  /** What the first range adds to what is served. */
  lemma FirstServed(ws: seq<Written>, contentLength: nat)
    requires ws != [] && forall i :: 0 <= i < |ws| ==> ValidWritten(ws[i])
    ensures var r, more := Resolve(Meaning(ws[0]), contentLength), Satisfiable(Meanings(ws[1..]), contentLength);
            Satisfiable(Meanings(ws), contentLength) == if r.start < r.end then [r] + more else more
  {
    hide Resolve, Meaning, ValidWritten;
    assert Meanings(ws) == [Meaning(ws[0])] + Meanings(ws[1..]);
    assert Meanings(ws)[1..] == Meanings(ws[1..]);
    var more := Satisfiable(Meanings(ws[1..]), contentLength);
    assert [] + more == more;
  }

  /** So the answer to a header is the answer to the header without that range. */
  lemma BackwardChangesNothing(header: CString, shorter: CString, before: seq<Written>, w: Written, after: seq<Written>,
                               contentLength: nat, ranges: nat)
    requires contentLength <= MAX_OFF_T
    requires IsHeader(header, before + [w] + after) && IsHeader(shorter, before + after)
    requires ValidWritten(w) && w.WFromTo? && Number(w.first, 0, |w.first|) > Number(w.last, 0, |w.last|)
    ensures var a := ParseFrom(header, 6, contentLength, [], 0, ranges);
            var b := ParseFrom(shorter, 6, contentLength, [], 0, ranges);
            a.0 == b.0 && (a.0 == Ok ==> a.1 == b.1)
  {
    hide ParseFrom, Satisfiable, Meanings, Number, TextAll, Acceptable, Stored, Total;
    assert forall v :: v in before + after ==> ValidWritten(v);
    BackwardIsSkipped(before, w, after, contentLength);
    GrammaticalAnswers(header, before + [w] + after, contentLength, ranges);
    GrammaticalAnswers(shorter, before + after, contentLength, ranges);
    ServedIs(header, before + [w] + after, contentLength, ranges);
    ServedIs(shorter, before + after, contentLength, ranges);
  }

  /** The parser refuses a header at the first element that is empty, or that starts with a tab. */
  lemma EmptyElementRefused(text: CString, p: nat, contentLength: nat, stored: seq<Range>, size: int, left: nat)
    requires p <= |text| && At(text, SkipSpaces(text, p)) in {',', '\t', '\0'}
    ensures ParseFrom(text, p, contentLength, stored, size, left) == (NotSatisfiable, stored)
  {
  }

  // ---------------------------------------------------------------- safety of what is served

  lemma {:induction false} SatisfiableShape(specs: seq<RangeSpec>, contentLength: nat)
    ensures forall i :: 0 <= i < |Satisfiable(specs, contentLength)| ==>
      var r := Satisfiable(specs, contentLength)[i];
      r.start < r.end <= contentLength && (r.start < 0 ==> Length(r) > contentLength)
  {
    if specs != [] { SatisfiableShape(specs[1..], contentLength); }
  }

  lemma {:induction false} MemberWithinTotal(ranges: seq<Range>, k: nat)
    requires k < |ranges| && forall i :: 0 <= i < |ranges| ==> Length(ranges[i]) > 0
    ensures Length(ranges[k]) <= Total(ranges)
    decreases |ranges|
  {
    TotalNonnegative(ranges[..|ranges| - 1]);
    if k < |ranges| - 1 { MemberWithinTotal(ranges[..|ranges| - 1], k); }
  }

  lemma {:induction false} TotalNonnegative(ranges: seq<Range>)
    requires forall i :: 0 <= i < |ranges| ==> Length(ranges[i]) > 0
    ensures Total(ranges) >= 0
    decreases |ranges|
  {
    if ranges != [] { TotalNonnegative(ranges[..|ranges| - 1]); }
  }

  /** A suffix longer than the body starts before it.  Such a range is stored by the loop, but it alone
      exceeds the body, so the header is not served: what is served lies in the body. */
  lemma ServedInBounds(header: CString, contentLength: nat, ranges: nat)
    requires |header| >= 7 && contentLength <= MAX_OFF_T
    requires ParseFrom(header, 6, contentLength, [], 0, ranges).0 == Ok
    ensures var served := ParseFrom(header, 6, contentLength, [], 0, ranges).1;
            && InBounds(served, contentLength) && Total(served) <= contentLength
            && 0 < |served| <= ranges
  {
    var served := ParseFrom(header, 6, contentLength, [], 0, ranges).1;
    ParseIsGrammar(header, contentLength, ranges, served);
    var ws :| IsHeader(header, ws) && served == Satisfiable(Meanings(ws), contentLength);
    SatisfiableShape(Meanings(ws), contentLength);
    forall i | 0 <= i < |served| ensures 0 <= served[i].start {
      MemberWithinTotal(served, i);
    }
  }

  lemma {:induction false} MeaningServed(ws: seq<Written>, contentLength: nat, i: nat) returns (k: nat)
    requires i < |ws| && forall j :: 0 <= j < |ws| ==> ValidWritten(ws[j])
    requires var r := Resolve(Meaning(ws[i]), contentLength); r.start < r.end
    ensures var served := Satisfiable(Meanings(ws), contentLength);
            k < |served| && served[k] == Resolve(Meaning(ws[i]), contentLength)
    decreases i
  {
    hide Resolve, Meaning;
    assert Meanings(ws) == [Meaning(ws[0])] + Meanings(ws[1..]);
    assert Meanings(ws)[1..] == Meanings(ws[1..]);
    var r := Resolve(Meaning(ws[0]), contentLength);
    if i == 0 {
      k := 0;
    } else {
      k := MeaningServed(ws[1..], contentLength, i - 1);
      k := if r.start < r.end then k + 1 else k;
    }
  }

  /** A header with a suffix longer than the body is never served, wherever it stands and whatever else
      is asked for. */
  lemma OverlongSuffixRefused(header: CString, ws: seq<Written>, contentLength: nat, ranges: nat, i: nat)
    requires contentLength <= MAX_OFF_T && IsHeader(header, ws) && i < |ws|
    requires ws[i].WSuffix? && Number(ws[i].count, 0, |ws[i].count|) > contentLength
    ensures ParseFrom(header, 6, contentLength, [], 0, ranges).0 != Ok
  {
    hide ParseFrom, Number, TextAll;
    var served := Satisfiable(Meanings(ws), contentLength);
    var k := MeaningServed(ws, contentLength, i);
    SatisfiableShape(Meanings(ws), contentLength);
    MemberWithinTotal(served, k);
    ServedIs(header, ws, contentLength, ranges);
  }

  /** It need not get as far as the check on the sum behind the loop: here the sum overflows within. */
  lemma OverlongMayOverflow()
    ensures Outcome([Suffix(MAX_OFF_T), FromTo(0, 0)], 1, [], 0, 5).0 == NotSatisfiable
  {
    var specs := [Suffix(MAX_OFF_T), FromTo(0, 0)];
    assert Resolve(specs[0], 1) == Range(1 - MAX_OFF_T, 1) && Resolve(specs[1], 1) == Range(0, 1);
    assert specs[1..][0] == specs[1];
  }

  // ---------------------------------------------------------------- round trip

  /** `w` asks for exactly `r`. */
  predicate Writes(w: Written, r: Range, contentLength: nat) {
    ValidWritten(w) && Resolve(Meaning(w), contentLength) == r
  }

  /** A list of in-bounds ranges within the limits, written in any way, is read back as itself. */
  lemma RoundTrip(header: CString, ws: seq<Written>, rs: seq<Range>, contentLength: nat, ranges: nat)
    requires |header| >= 7 && contentLength <= MAX_OFF_T && IsHeader(header, ws)
    requires InBounds(rs, contentLength)
    requires |ws| == |rs| && forall i :: 0 <= i < |ws| ==> Writes(ws[i], rs[i], contentLength)
    ensures ParseFrom(header, 6, contentLength, [], 0, ranges) == (Ok, rs) <==>
      0 < |rs| <= ranges && Total(rs) <= contentLength
  {
    AllSatisfiable(ws, rs, contentLength);
    ParseIsGrammar(header, contentLength, ranges, rs);
  }

  lemma {:induction false} AllSatisfiable(ws: seq<Written>, rs: seq<Range>, contentLength: nat)
    requires InBounds(rs, contentLength)
    requires |ws| == |rs| && forall i :: 0 <= i < |ws| ==> Writes(ws[i], rs[i], contentLength)
    ensures forall i :: 0 <= i < |ws| ==> ValidWritten(ws[i])
    ensures Satisfiable(Meanings(ws), contentLength) == rs
  {
    if ws != [] {
      AllSatisfiable(ws[1..], rs[1..], contentLength);
      assert Meanings(ws)[1..] == Meanings(ws[1..]);
      assert rs == [rs[0]] + rs[1..];
    }
  }

  /** Every in-bounds range can be written, as first and last position, as an open range when it
      reaches the end, and as a suffix then too; with any spaces the grammar allows. */
  lemma CanBeWritten(r: Range, contentLength: nat, s0: nat, s1: nat, s2: nat, s3: nat)
    requires 0 <= r.start < r.end <= contentLength <= MAX_OFF_T
    ensures Writes(WFromTo(s0, Decimal(r.start), s1, s2, Decimal(r.end - 1), s3), r, contentLength)
    ensures r.end == contentLength ==> Writes(WFrom(s0, Decimal(r.start), s1, s2), r, contentLength)
    ensures r.end == contentLength ==> Writes(WSuffix(s0, Decimal(Length(r)), s1), r, contentLength)
  {
    NumberOfDecimal(r.start);
    NumberOfDecimal(r.end - 1);
    NumberOfDecimal(Length(r));
  }
}
