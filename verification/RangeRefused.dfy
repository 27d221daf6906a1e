/** What the Range header's parser answers to a header outside the grammar. */
module RangeRefused {
  import opened Options
  import opened CStrings
  import opened Decimals
  import opened RangeTypes
  import opened RangeParse
  import opened RangeGrammar

  /** A written range stands at `p`, up to a comma or the end. */
  ghost predicate ItemAt(text: string, p: nat) {
    exists w :: ValidWritten(w) && Occurs(text, p, Text(w)) && AtItemEnd(text, p + |Text(w)|)
  }

  /** The scanner finds a range exactly where one is written. */
  lemma ItemIffWritten(text: string, p: nat)
    requires p <= |text|
    ensures ScanItem(text, p).Some? <==> ItemAt(text, p)
  {
    hide ScanItem, Text, ValidWritten, Meaning;
    if ScanItem(text, p).Some? {
      var w := WasWritten(text, p);
      assert Occurs(text, p, Text(w));
    }
    if ItemAt(text, p) {
      var w :| ValidWritten(w) && Occurs(text, p, Text(w)) && AtItemEnd(text, p + |Text(w)|);
      ReadBack(text, p, w);
    }
  }

  /** Written ranges, each with a comma behind it. */
  function Lead(ws: seq<Written>): string {
    if ws == [] then "" else Text(ws[0]) + ("," + Lead(ws[1..]))
  }

  /** From `p` on the text has these ranges, with commas, and then no range. */
  ghost predicate Fails(text: string, p: nat, ws: seq<Written>) {
    && (forall i :: 0 <= i < |ws| ==> ValidWritten(ws[i]))
    && Occurs(text, p, Lead(ws)) && !ItemAt(text, p + |Lead(ws)|)
  }

  /** More ranges than allowed have been stored, and those that are stored can be counted. */
  predicate TooMany(served: seq<Range>, ranges: nat) {
    |served| > ranges && Total(served[..ranges + 1]) <= MAX_OFF_T
  }

  lemma FirstOfLead(text: string, p: nat, ws: seq<Written>)
    requires ws != [] && Fails(text, p, ws)
    ensures var q := p + |Text(ws[0])|;
            && ValidWritten(ws[0]) && q < |text| && text[q] == ','
            && Occurs(text, p, Text(ws[0])) && Fails(text, q + 1, ws[1..])
            && ScanItem(text, p) == Some((Meaning(ws[0]), q))
  {
    hide Occurs, Text, ValidWritten, ItemAt, ScanItem, Meaning;
    var q := p + |Text(ws[0])|;
    OccursConcat(text, p, Text(ws[0]), "," + Lead(ws[1..]));
    OccursConcat(text, q, ",", Lead(ws[1..]));
    CommaAt(text, q);
    ReadBack(text, p, ws[0]);
  }

  lemma CommaAt(text: string, q: nat)
    requires Occurs(text, q, ",")
    ensures q < |text| && text[q] == ','
  {
    assert text[q] == text[q..q + 1][0];
  }

  lemma TooManyOfMore(stored: seq<Range>, rest: seq<Range>, left: nat)
    requires forall i :: 0 <= i < |rest| ==> Length(rest[i]) > 0
    requires Total(stored) > MAX_OFF_T && |stored| <= left + 1
    ensures !TooMany(stored + rest, left)
  {
    hide Total;
    var served := stored + rest;
    if |served| > left {
      var more := rest[..left + 1 - |stored|];
      assert served[..left + 1] == stored + more;
      TotalOfMore(stored, more);
    }
  }

  lemma TooManyIff(stored: seq<Range>, rest: seq<Range>, left: nat)
    requires Total(stored) <= MAX_OFF_T
    ensures |stored| == left + 1 ==> TooMany(stored + rest, left)
    ensures rest == [] && |stored| <= left ==> !TooMany(stored + rest, left)
  {
    hide Total;
    assert |stored| == left + 1 ==> (stored + rest)[..left + 1] == stored;
  }

  lemma {:induction false} FailsFrom(text: string, p: nat, ws: seq<Written>, contentLength: nat, stored: seq<Range>,
                                     size: int, left: nat)
    requires p <= |text| && Fails(text, p, ws) && size == Total(stored) <= MAX_OFF_T
    ensures ParseFrom(text, p, contentLength, stored, size, left).0 ==
      if TooMany(stored + Satisfiable(Meanings(ws), contentLength), |stored| + left) then Declined else NotSatisfiable
    decreases |ws|
  {
    hide ScanItem, Text, ValidWritten, ItemAt, Occurs, Resolve, Meaning, Total, Satisfiable, Meanings, TooMany, Lead;
    if ws == [] {
      NoLead(text, p);
      NothingServed(contentLength);
      TooManyIff(stored, [], |stored| + left);
    } else {
      FirstOfLead(text, p, ws);
      FirstServed(ws, contentLength);
      var q, r := p + |Text(ws[0])|, Resolve(Meaning(ws[0]), contentLength);
      var rest := Satisfiable(Meanings(ws[1..]), contentLength);
      if r.start < r.end {
        var stored' := stored + [r];
        TotalOfSnoc(stored, r);
        assert stored + ([r] + rest) == stored' + rest;
        if size > MAX_OFF_T - Length(r) {
          SatisfiableShape(Meanings(ws[1..]), contentLength);
          TooManyOfMore(stored', rest, |stored| + left);
        } else if left == 0 {
          TooManyIff(stored', rest, |stored|);
        } else {
          FailsFrom(text, q + 1, ws[1..], contentLength, stored', size + Length(r), left - 1);
        }
      } else {
        FailsFrom(text, q + 1, ws[1..], contentLength, stored, size, left);
      }
    }
  }

  lemma NoLead(text: string, p: nat)
    requires p <= |text| && Fails(text, p, [])
    ensures ScanItem(text, p) == None
  {
    hide ItemAt, ScanItem;
    ItemIffWritten(text, p);
  }

  lemma NothingServed(contentLength: nat)
    ensures Satisfiable(Meanings([]), contentLength) == []
  {
  }

  /** A header that fails to be grammatical behind some ranges is never served.  It is declined if those ranges
      are already too many, and is not satisfiable otherwise. */
  lemma MalformedAnswers(header: CString, ws: seq<Written>, contentLength: nat, ranges: nat)
    requires |header| >= 6 && Fails(header, 6, ws)
    ensures var status := ParseFrom(header, 6, contentLength, [], 0, ranges).0;
            && status != Ok
            && (status == Declined <==> TooMany(Satisfiable(Meanings(ws), contentLength), ranges))
  {
    hide ParseFrom, Satisfiable, TooMany, Meanings, Occurs, ItemAt, Lead;
    FailsFrom(header, 6, ws, contentLength, [], 0, ranges);
    var served := Satisfiable(Meanings(ws), contentLength);
    assert [] + served == served;
  }

  /** Every header is grammatical or fails so. */
  lemma {:induction false} WrittenOrFails(text: CString, p: nat) returns (whole: bool, ws: seq<Written>)
    requires p <= |text|
    ensures whole ==> ValidHeader(ws) && text[p..] == TextAll(ws)
    ensures !whole ==> Fails(text, p, ws)
    decreases |text| - p
  {
    hide Text, ValidWritten, ItemAt, ScanItem, Meaning;
    ItemIffWritten(text, p);
    if ScanItem(text, p).None? {
      whole, ws := false, [];
    } else {
      var q := ScanItem(text, p).value.1;
      var w := WasWritten(text, p);
      AtIsNul(text, q);
      assert text[p..] == text[p..q] + text[q..];
      if q == |text| {
        whole, ws := true, [w];
      } else {
        whole, ws := WrittenOrFails(text, q + 1);
        if whole {
          JoinHeader(text, p, w, q, ws);
        } else {
          JoinFails(text, p, w, q, ws);
        }
        ws := [w] + ws;
      }
    }
  }

  lemma JoinHeader(text: string, p: nat, w: Written, q: nat, rest: seq<Written>)
    requires p <= q < |text| && text[q] == ',' && ValidWritten(w) && text[p..q] == Text(w)
    requires ValidHeader(rest) && text[q + 1..] == TextAll(rest)
    ensures ValidHeader([w] + rest) && text[p..] == TextAll([w] + rest)
  {
    hide Text, ValidWritten;
    assert ([w] + rest)[1..] == rest;
    assert text[p..] == text[p..q] + ("," + text[q + 1..]);
  }

  lemma JoinFails(text: string, p: nat, w: Written, q: nat, rest: seq<Written>)
    requires p <= q < |text| && text[q] == ',' && ValidWritten(w) && text[p..q] == Text(w)
    requires Fails(text, q + 1, rest)
    ensures Fails(text, p, [w] + rest)
  {
    hide Text, ValidWritten, ItemAt, Occurs;
    assert ([w] + rest)[1..] == rest && text[q..q + 1] == ",";
    OccursIs(text, p, q);
    OccursIs(text, q, q + 1);
    OccursConcat(text, q, ",", Lead(rest));
    OccursConcat(text, p, Text(w), "," + Lead(rest));
  }

  lemma OccursIs(text: string, p: nat, q: nat)
    requires p <= q <= |text|
    ensures Occurs(text, p, text[p..q])
  {
  }

  /** Two of them: no number, and a number without a dash. */
  lemma MalformedExamples(contentLength: nat, ranges: nat)
    ensures ParseFrom("bytes=abc", 6, contentLength, [], 0, ranges).0 == NotSatisfiable
    ensures ParseFrom("bytes=5", 6, contentLength, [], 0, ranges).0 == NotSatisfiable
  {
    hide Number;
    assert SkipSpaces("bytes=abc", 6) == 6 && SkipDigits("bytes=abc", 6) == 6;
    var text := "bytes=5";
    assert SkipSpaces(text, 6) == 6 && SkipDigits(text, 6) == 7 && SkipSpaces(text, 7) == 7;
  }
}
