/** The byte-range-set of section 2.1 of RFC 7233, in the list syntax of section 7 of RFC 7230, written
    down apart from the parser; and the theorems that say exactly where the two part. */
module RangeRfc {
  import opened Options
  import opened CStrings
  import opened Decimals
  import opened RangeTypes
  import opened RangeParse
  import opened RangeGrammar

  // ---------------------------------------------------------------- the grammar of the RFC

  /** byte-range-spec and suffix-byte-range-spec; the numerals may be of any size. */
  datatype Element = ByteRange(first: string, last: string) | OpenRange(first: string) | SuffixRange(count: string)

  /** What stands between two commas: white space, and an element with white space behind it, or none. */
  datatype Slot = Slot(pre: string, element: Option<Element>, post: string)

  predicate Digits(s: string) {
    s != "" && AllDigits(s, 0, |s|)
  }

  predicate IsOws(c: char) {
    c == ' ' || c == '\t'
  }

  predicate Ows(s: string) {
    forall i :: 0 <= i < |s| ==> IsOws(s[i])
  }

  predicate ValidElement(e: Element) {
    match e
    case ByteRange(first, last) => Digits(first) && Digits(last)
    case OpenRange(first) => Digits(first)
    case SuffixRange(count) => Digits(count)
  }

  predicate ValidSlot(s: Slot) {
    Ows(s.pre) && Ows(s.post) && if s.element.Some? then ValidElement(s.element.value) else s.post == ""
  }

  function ElementText(e: Element): string {
    match e
    case ByteRange(first, last) => first + ("-" + last)
    case OpenRange(first) => first + "-"
    case SuffixRange(count) => "-" + count
  }

  function SlotText(s: Slot): string {
    s.pre + if s.element.Some? then ElementText(s.element.value) + s.post else ""
  }

  function Joined(texts: seq<string>): string
    requires texts != []
  {
    if |texts| == 1 then texts[0] else texts[0] + ("," + Joined(texts[1..]))
  }

  function SlotTexts(slots: seq<Slot>): (texts: seq<string>)
    ensures |texts| == |slots| && forall i :: 0 <= i < |slots| ==> texts[i] == SlotText(slots[i])
  {
    seq(|slots|, i requires 0 <= i < |slots| => SlotText(slots[i]))
  }

  /** A list with at least one element.  Elements may be missing; white space stands around commas only,
      so there is none at the front or at the end. */
  predicate ByteRangeSet(slots: seq<Slot>) {
    && slots != [] && (forall i :: 0 <= i < |slots| ==> ValidSlot(slots[i]))
    && (exists i :: 0 <= i < |slots| && slots[i].element.Some?)
    && slots[0].pre == ""
    && (var end := slots[|slots| - 1]; end.post == "" && (end.element.None? ==> end.pre == ""))
  }

  function Value(s: string): nat
    requires Digits(s)
  {
    Number(s, 0, |s|)
  }

  /** The RFC calls a range invalid that ends before it starts. */
  predicate Ordered(e: Element)
    requires ValidElement(e)
  {
    e.ByteRange? ==> Value(e.first) <= Value(e.last)
  }

  predicate OrderedSlot(s: Slot)
    requires ValidSlot(s)
  {
    s.element.Some? ==> Ordered(s.element.value)
  }

  predicate AllOrdered(slots: seq<Slot>)
    requires forall i :: 0 <= i < |slots| ==> ValidSlot(slots[i])
  {
    forall i :: 0 <= i < |slots| ==> OrderedSlot(slots[i])
  }

  /** The header, after "bytes=", is a valid byte-range-set, and this one. */
  predicate IsSet(header: string, slots: seq<Slot>) {
    ByteRangeSet(slots) && |header| >= 6 && header[6..] == Joined(SlotTexts(slots))
  }

  // ---------------------------------------------------------------- what the RFC asks for

  /** The bytes of a representation that an element selects.  A last position beyond the end means the
      last byte, and a suffix longer than the representation all of it. */
  function Selected(e: Element, length: nat): Range
    requires ValidElement(e)
  {
    match e
    case ByteRange(first, last) => Range(Value(first), if Value(last) >= length then length else Value(last) + 1)
    case OpenRange(first) => Range(Value(first), length)
    case SuffixRange(count) => Range(if Value(count) > length then 0 else length - Value(count), length)
  }

  /** The satisfiable ranges, in the order asked for. */
  function Asked(slots: seq<Slot>, length: nat): seq<Range>
    requires forall i :: 0 <= i < |slots| ==> ValidSlot(slots[i])
  {
    if slots == [] then []
    else
      assert ValidSlot(slots[0]);
      var rest := Asked(slots[1..], length);
      if slots[0].element.None? then rest
      else
        var r := Selected(slots[0].element.value, length);
        if r.start < r.end then [r] + rest else rest
  }

  // ---------------------------------------------------------------- texts that can be cut in one way only

  /** Two ways to cut a text behind characters of a kind, before one that is not, are the same. */
  lemma SpanUnique(a: string, b: string, c: string, d: string, kind: char -> bool)
    requires a + b == c + d
    requires (forall i :: 0 <= i < |a| ==> kind(a[i])) && forall i :: 0 <= i < |c| ==> kind(c[i])
    requires (b != "" ==> !kind(b[0])) && (d != "" ==> !kind(d[0]))
    ensures a == c && b == d
  {
    var t := a + b;
    assert (b != "" ==> t[|a|] == b[0]) && (d != "" ==> t[|c|] == d[0]);
    assert forall i :: 0 <= i < |a| ==> kind(t[i]);
    assert forall i :: 0 <= i < |c| ==> t[i] == c[i];
    assert |a| == |c|;
    assert a == (a + b)[..|a|] == (c + d)[..|a|] == c;
    assert b == (a + b)[|a|..] == (c + d)[|a|..] == d;
  }

  predicate NoComma(s: string) {
    forall i :: 0 <= i < |s| ==> s[i] != ','
  }

  lemma {:induction false} JoinedOnce(a: seq<string>, b: seq<string>)
    requires a != [] && b != [] && Joined(a) == Joined(b)
    requires (forall i :: 0 <= i < |a| ==> NoComma(a[i])) && forall i :: 0 <= i < |b| ==> NoComma(b[i])
    ensures a == b
    decreases |a|
  {
    var s := if |a| == 1 then "" else "," + Joined(a[1..]);
    var t := if |b| == 1 then "" else "," + Joined(b[1..]);
    assert NoComma(a[0]) && NoComma(b[0]);
    assert Joined(a) == a[0] + s && Joined(b) == b[0] + t;
    SpanUnique(a[0], s, b[0], t, c => c != ',');
    if |a| > 1 && |b| > 1 {
      assert Joined(a[1..]) == s[1..] && Joined(b[1..]) == t[1..];
      JoinedOnce(a[1..], b[1..]);
    }
    assert a == [a[0]] + a[1..] && b == [b[0]] + b[1..];
  }

  // ---------------------------------------------------------------- one element, written in both grammars

  /** The slot and the written range are the same text: no space next to the dash, and the white space
      around is spaces. */
  predicate Same(w: Written, s: Slot) {
    match w
    case WFromTo(s0, first, s1, s2, last, s3) =>
      s1 == 0 && s2 == 0 && s == Slot(Spaces(s0), Some(ByteRange(first, last)), Spaces(s3))
    case WFrom(s0, first, s1, s2) => s1 == 0 && s == Slot(Spaces(s0), Some(OpenRange(first)), Spaces(s2))
    case WSuffix(s0, count, s1) => s == Slot(Spaces(s0), Some(SuffixRange(count)), Spaces(s1))
  }

  lemma SameText(w: Written, s: Slot)
    requires Same(w, s)
    ensures Text(w) == SlotText(s)
  {
    NoSpaces();
    match w
    case WFromTo(s0, first, s1, s2, last, s3) =>
      assert Text(w) == (Spaces(s0) + (first + ("" + "-"))) + ("" + (last + Spaces(s3)));
      assert SlotText(s) == Spaces(s0) + ((first + ("-" + last)) + Spaces(s3));
    case WFrom(s0, first, s1, s2) =>
      assert Text(w) == (Spaces(s0) + (first + ("" + "-"))) + Spaces(s2);
    case WSuffix(s0, count, s1) =>
  }

  lemma NoSpaces()
    ensures Spaces(0) == ""
  {
  }

  lemma SpacesAreOws(n: nat)
    ensures Ows(Spaces(n)) && forall i :: 0 <= i < n ==> Spaces(n)[i] == ' '
  {
  }

  /** What an element's text starts with. */
  lemma ElementHead(e: Element)
    requires ValidElement(e)
    ensures var t := ElementText(e);
            t != "" && (e.SuffixRange? ==> t[0] == '-') && (!e.SuffixRange? ==> IsDigit(t[0]))
  {
  }

  /** The text of a written range behind its leading spaces. */
  function Core(w: Written): string {
    match w
    case WFromTo(_, first, s1, s2, last, s3) => first + (Spaces(s1) + ("-" + (Spaces(s2) + (last + Spaces(s3)))))
    case WFrom(_, first, s1, s2) => first + (Spaces(s1) + ("-" + Spaces(s2)))
    case WSuffix(_, count, s1) => "-" + (count + Spaces(s1))
  }

  lemma TextIsCore(w: Written)
    ensures Text(w) == Spaces(w.s0) + Core(w)
  {
    match w
    case WFromTo(s0, first, s1, s2, last, s3) =>
      var tail := Spaces(s2) + (last + Spaces(s3));
      assert (Spaces(s0) + (first + (Spaces(s1) + "-"))) + tail == Spaces(s0) + (first + (Spaces(s1) + ("-" + tail)));
    case WFrom(s0, first, s1, s2) =>
      assert (Spaces(s0) + (first + (Spaces(s1) + "-"))) + Spaces(s2)
          == Spaces(s0) + (first + (Spaces(s1) + ("-" + Spaces(s2))));
    case WSuffix(s0, count, s1) =>
  }

  lemma CoreHead(w: Written)
    requires ValidWritten(w)
    ensures Core(w) != "" && (w.WSuffix? ==> Core(w)[0] == '-') && (!w.WSuffix? ==> IsDigit(Core(w)[0]))
  {
    hide Number;
  }

  /** If the two have the same text, it is the same element with the same white space. */
  lemma TextSame(w: Written, s: Slot)
    requires ValidWritten(w) && ValidSlot(s) && Text(w) == SlotText(s)
    ensures Same(w, s)
  {
    hide Text, Spaces, Core, ElementText, ValidWritten, ValidElement, IsDigit;
    TextIsCore(w);
    CoreHead(w);
    SpacesAreOws(w.s0);
    DigitsAreNoOws();
    if s.element.None? {
      assert s.pre + "" == s.pre;
      SpanUnique(Spaces(w.s0), Core(w), s.pre, "", IsOws);
    } else {
      var e := s.element.value;
      ElementHead(e);
      SpanUnique(Spaces(w.s0), Core(w), s.pre, ElementText(e) + s.post, IsOws);
      assert (ElementText(e) + s.post)[0] == ElementText(e)[0];
      CoreSame(w, s);
    }
  }

  lemma DigitsAreNoOws()
    ensures forall c :: IsDigit(c) ==> !IsOws(c) && c != '-' && c != ','
    ensures !IsOws('-') && !IsDigit('-') && !IsDigit(' ') && !IsDigit('\t')
  {
  }

  /** The first number and the dash, with no space between. */
  lemma AfterFirst(first: string, s1: nat, y: string, f: string, z: string)
    requires Digits(first) && Digits(f) && first + (Spaces(s1) + ("-" + y)) == f + ("-" + z)
    ensures first == f && s1 == 0 && y == z
  {
    hide Digits;
    var x := Spaces(s1) + ("-" + y);
    DigitsOnly(first);
    DigitsOnly(f);
    DigitsAreNoOws();
    SpacesAreOws(s1);
    assert x[0] == if s1 > 0 then ' ' else '-';
    SpanUnique(first, x, f, "-" + z, IsDigit);
    assert ("-" + z)[0] == '-';
    NoSpaces();
    assert x == "-" + y;
    assert y == ("-" + y)[1..] == ("-" + z)[1..] == z;
  }

  lemma DigitsOnly(s: string)
    requires Digits(s)
    ensures s != "" && forall i :: 0 <= i < |s| ==> IsDigit(s[i])
  {
  }

  /** A number and the white space behind it. */
  lemma NumberAndSpaces(last: string, s3: nat, l: string, post: string)
    requires Digits(last) && Digits(l) && Ows(post) && last + Spaces(s3) == l + post
    ensures last == l && Spaces(s3) == post
  {
    hide Digits;
    DigitsOnly(last);
    DigitsOnly(l);
    DigitsAreNoOws();
    SpacesAreOws(s3);
    SpanUnique(last, Spaces(s3), l, post, IsDigit);
  }

  /** The two numbers, with no space behind the dash. */
  lemma AfterDash(s2: nat, last: string, s3: nat, l: string, post: string)
    requires Digits(last) && Digits(l) && Ows(post) && Spaces(s2) + (last + Spaces(s3)) == l + post
    ensures s2 == 0 && last == l && Spaces(s3) == post
  {
    hide Digits;
    var y := Spaces(s2) + (last + Spaces(s3));
    DigitsOnly(last);
    DigitsOnly(l);
    DigitsAreNoOws();
    SpacesAreOws(s2);
    assert (l + post)[0] == l[0];
    assert y[0] == if s2 > 0 then ' ' else last[0];
    NoSpaces();
    assert y == last + Spaces(s3);
    NumberAndSpaces(last, s3, l, post);
  }

  lemma NumberIsNoSpace(s2: nat, last: string, rest: string, post: string)
    requires Digits(last) && Ows(post)
    ensures Spaces(s2) + (last + rest) != post
    ensures Spaces(s2) != last + rest
  {
    hide Digits;
    DigitsOnly(last);
    DigitsAreNoOws();
    SpacesAreOws(s2);
    assert (Spaces(s2) + (last + rest))[s2] == last[0];
    assert (last + rest)[0] == last[0];
  }

  lemma CoreSame(w: Written, s: Slot)
    requires ValidWritten(w) && ValidSlot(s) && s.element.Some? && s.pre == Spaces(w.s0)
    requires Core(w) == ElementText(s.element.value) + s.post
    requires w.WSuffix? <==> s.element.value.SuffixRange?
    ensures Same(w, s)
  {
    hide Spaces, AllDigits, Number;
    match w {
      case WSuffix(s0, count, s1) =>
        var c := s.element.value.count;
        assert count + Spaces(s1) == Core(w)[1..];
        assert (("-" + c) + s.post)[1..] == c + s.post;
        NumberAndSpaces(count, s1, c, s.post);
      case WFromTo(s0, first, s1, s2, last, s3) => CoreSameFromTo(w, s);
      case WFrom(s0, first, s1, s2) => CoreSameFrom(w, s);
    }
  }

  lemma CoreSameFromTo(w: Written, s: Slot)
    requires ValidWritten(w) && ValidSlot(s) && s.element.Some? && s.pre == Spaces(w.s0)
    requires Core(w) == ElementText(s.element.value) + s.post
    requires w.WFromTo? && !s.element.value.SuffixRange?
    ensures Same(w, s)
  {
    hide Spaces, AllDigits, Number, Ows, IsOws, IsDigit;
    var e, y := s.element.value, Spaces(w.s2) + (w.last + Spaces(w.s3));
    var z := if e.ByteRange? then e.last + s.post else s.post;
    assert ElementText(e) + s.post == e.first + ("-" + z);
    AfterFirst(w.first, w.s1, y, e.first, z);
    if e.ByteRange? {
      AfterDash(w.s2, w.last, w.s3, e.last, s.post);
    } else {
      NumberIsNoSpace(w.s2, w.last, Spaces(w.s3), s.post);
    }
  }

  lemma CoreSameFrom(w: Written, s: Slot)
    requires ValidWritten(w) && ValidSlot(s) && s.element.Some? && s.pre == Spaces(w.s0)
    requires Core(w) == ElementText(s.element.value) + s.post
    requires w.WFrom? && !s.element.value.SuffixRange?
    ensures Same(w, s)
  {
    hide Spaces, AllDigits, Number, Ows, IsOws, IsDigit;
    var e := s.element.value;
    var z := if e.ByteRange? then e.last + s.post else s.post;
    assert ElementText(e) + s.post == e.first + ("-" + z);
    AfterFirst(w.first, w.s1, Spaces(w.s2), e.first, z);
    if e.ByteRange? {
      NumberIsNoSpace(w.s2, e.last, s.post, s.post);
    }
  }

  // ---------------------------------------------------------------- whole headers, written in both grammars

  function Texts(ws: seq<Written>): (texts: seq<string>)
    ensures |texts| == |ws| && forall i :: 0 <= i < |ws| ==> texts[i] == Text(ws[i])
  {
    seq(|ws|, i requires 0 <= i < |ws| => Text(ws[i]))
  }

  lemma {:induction false} TextAllIsJoined(ws: seq<Written>)
    requires ws != []
    ensures TextAll(ws) == Joined(Texts(ws))
  {
    hide Text;
    if |ws| > 1 {
      TextAllIsJoined(ws[1..]);
      assert Texts(ws)[1..] == Texts(ws[1..]);
    }
  }

  lemma NumeralHasNoComma(s: string)
    requires Digits(s)
    ensures NoComma(s)
  {
    DigitsOnly(s);
    DigitsAreNoOws();
  }

  lemma OwsHasNoComma(s: string)
    requires Ows(s)
    ensures NoComma(s)
  {
  }

  lemma NoCommaConcat(a: string, b: string)
    requires NoComma(a) && NoComma(b)
    ensures NoComma(a + b)
  {
  }

  lemma SlotHasNoComma(s: Slot)
    requires ValidSlot(s)
    ensures NoComma(SlotText(s))
  {
    hide NoComma, Digits, Ows;
    OwsHasNoComma(s.pre);
    OwsHasNoComma(s.post);
    OwsHasNoComma("") by { NoSpaces(); SpacesAreOws(0); }
    if s.element.Some? {
      var e := s.element.value;
      ElementHasNoComma(e);
      NoCommaConcat(ElementText(e), s.post);
      NoCommaConcat(s.pre, ElementText(e) + s.post);
    } else {
      NoCommaConcat(s.pre, "");
    }
  }

  lemma ElementHasNoComma(e: Element)
    requires ValidElement(e)
    ensures NoComma(ElementText(e))
  {
    assert NoComma("-");
    hide NoComma, Digits;
    match e
    case ByteRange(first, last) =>
      NumeralHasNoComma(first);
      NumeralHasNoComma(last);
      NoCommaConcat("-", last);
      NoCommaConcat(first, "-" + last);
    case OpenRange(first) =>
      NumeralHasNoComma(first);
      NoCommaConcat(first, "-");
    case SuffixRange(count) =>
      NumeralHasNoComma(count);
      NoCommaConcat("-", count);
  }

  lemma WrittenHasNoComma(w: Written)
    requires ValidWritten(w)
    ensures NoComma(Text(w))
  {
  }

  predicate AllSame(ws: seq<Written>, slots: seq<Slot>) {
    |ws| == |slots| && forall i :: 0 <= i < |ws| ==> Same(ws[i], slots[i])
  }

  /** A header that is written in both grammars is the same list in both. */
  lemma SetSame(header: CString, ws: seq<Written>, slots: seq<Slot>)
    requires IsHeader(header, ws) && IsSet(header, slots)
    ensures AllSame(ws, slots)
  {
    hide Text, SlotText, Joined, ValidWritten, ValidSlot, NoComma, Same;
    var a, b := Texts(ws), SlotTexts(slots);
    TextAllIsJoined(ws);
    forall i | 0 <= i < |a| ensures NoComma(a[i]) {
      WrittenHasNoComma(ws[i]);
    }
    forall i | 0 <= i < |b| ensures NoComma(b[i]) {
      SlotHasNoComma(slots[i]);
    }
    JoinedOnce(a, b);
    forall i | 0 <= i < |ws| ensures Same(ws[i], slots[i]) {
      assert a[i] == b[i];
      TextSame(ws[i], slots[i]);
    }
  }

  /** And the same list, valid in both, is the same text. */
  lemma SameIsText(ws: seq<Written>, slots: seq<Slot>)
    requires ws != [] && AllSame(ws, slots)
    ensures TextAll(ws) == Joined(SlotTexts(slots))
  {
    hide Text, SlotText, Joined, TextAll;
    forall i | 0 <= i < |ws| ensures Text(ws[i]) == SlotText(slots[i]) {
      SameText(ws[i], slots[i]);
    }
    TextAllIsJoined(ws);
    assert Texts(ws) == SlotTexts(slots);
  }

  // ---------------------------------------------------------------- the parser's headers seen from the RFC

  predicate NoSpaceAtDash(w: Written) {
    match w
    case WFromTo(_, _, s1, s2, _, _) => s1 == 0 && s2 == 0
    case WFrom(_, _, s1, _) => s1 == 0
    case WSuffix(_, _, _) => true
  }

  predicate Forward(w: Written)
    requires ValidWritten(w)
  {
    w.WFromTo? ==> Number(w.first, 0, |w.first|) <= Number(w.last, 0, |w.last|)
  }

  /** The number of spaces behind a range. */
  function SpacesBehind(w: Written): nat {
    match w
    case WFromTo(_, _, _, _, _, s3) => s3
    case WFrom(_, _, _, s2) => s2
    case WSuffix(_, _, s1) => s1
  }

  /** No space at the front, at the end or next to a dash, and no range that ends before it starts. */
  predicate Plain(ws: seq<Written>)
    requires ValidHeader(ws)
  {
    && ws[0].s0 == 0 && SpacesBehind(ws[|ws| - 1]) == 0
    && forall i :: 0 <= i < |ws| ==> NoSpaceAtDash(ws[i]) && Forward(ws[i])
  }

  /** A written range as an element of the RFC. */
  function AsSlot(w: Written): Slot {
    match w
    case WFromTo(s0, first, _, _, last, s3) => Slot(Spaces(s0), Some(ByteRange(first, last)), Spaces(s3))
    case WFrom(s0, first, _, s2) => Slot(Spaces(s0), Some(OpenRange(first)), Spaces(s2))
    case WSuffix(s0, count, s1) => Slot(Spaces(s0), Some(SuffixRange(count)), Spaces(s1))
  }

  lemma AsSlotIsSame(w: Written)
    requires ValidWritten(w) && NoSpaceAtDash(w)
    ensures Same(w, AsSlot(w)) && ValidSlot(AsSlot(w)) && (OrderedSlot(AsSlot(w)) <==> Forward(w))
  {
    hide Spaces, Number, AllDigits;
    SpacesAreOws(w.s0);
    SpacesAreOws(SpacesBehind(w));
  }

  /** The same element, seen from the slot. */
  lemma SameMeans(w: Written, s: Slot)
    requires ValidWritten(w) && ValidSlot(s) && Same(w, s)
    ensures NoSpaceAtDash(w) && (OrderedSlot(s) <==> Forward(w))
    ensures |s.pre| == w.s0 && |s.post| == SpacesBehind(w)
  {
    hide Number, AllDigits;
  }

  /** A header of the parser's grammar is a valid byte-range-set of the RFC exactly when it has no space at
      the front, at the end or next to a dash, and no range that ends before it starts. */
  lemma ParserInRfc(header: CString, ws: seq<Written>)
    requires IsHeader(header, ws)
    ensures (exists slots :: IsSet(header, slots) && AllOrdered(slots)) <==> Plain(ws)
  {
    hide Same, ValidSlot, ValidWritten, OrderedSlot, Forward, Joined, TextAll, SlotText, NoSpaceAtDash, SpacesBehind;
    if slots :| IsSet(header, slots) && AllOrdered(slots) {
      SetSame(header, ws, slots);
      forall i | 0 <= i < |ws| ensures NoSpaceAtDash(ws[i]) && Forward(ws[i]) {
        SameMeans(ws[i], slots[i]);
      }
      SameMeans(ws[0], slots[0]);
      SameMeans(ws[|ws| - 1], slots[|ws| - 1]);
    }
    if Plain(ws) {
      PlainIsSet(header, ws);
    }
  }

  lemma PlainIsSet(header: CString, ws: seq<Written>)
    requires IsHeader(header, ws) && Plain(ws)
    ensures exists slots :: IsSet(header, slots) && AllOrdered(slots)
  {
    hide Same, ValidSlot, ValidWritten, OrderedSlot, Forward, Joined, TextAll, SlotText, NoSpaceAtDash, SpacesBehind;
    var slots := seq(|ws|, i requires 0 <= i < |ws| => AsSlot(ws[i]));
    forall i | 0 <= i < |ws| ensures Same(ws[i], slots[i]) && ValidSlot(slots[i]) && OrderedSlot(slots[i]) {
      AsSlotIsSame(ws[i]);
    }
    SameIsText(ws, slots);
    SameMeans(ws[0], slots[0]);
    SameMeans(ws[|ws| - 1], slots[|ws| - 1]);
    assert slots[0].element.Some?;
    assert ByteRangeSet(slots);
    assert IsSet(header, slots) && AllOrdered(slots);
  }

  // ---------------------------------------------------------------- the RFC's headers seen from the parser

  predicate SpacesOnly(s: string) {
    forall i :: 0 <= i < |s| ==> s[i] == ' '
  }

  /** No number is above the largest off_t. */
  predicate Small(e: Element)
    requires ValidElement(e)
  {
    match e
    case ByteRange(first, last) => Value(first) <= MAX_OFF_T && Value(last) <= MAX_OFF_T
    case OpenRange(first) => Value(first) <= MAX_OFF_T
    case SuffixRange(count) => Value(count) <= MAX_OFF_T
  }

  predicate ReadableSlot(s: Slot)
    requires ValidSlot(s)
  {
    s.element.Some? && SpacesOnly(s.pre) && SpacesOnly(s.post) && Small(s.element.value)
  }

  /** No element is missing, there is no tab, and no number is above the largest off_t. */
  predicate Readable(slots: seq<Slot>)
    requires forall i :: 0 <= i < |slots| ==> ValidSlot(slots[i])
  {
    forall i :: 0 <= i < |slots| ==> ReadableSlot(slots[i])
  }

  function AsWritten(s: Slot): Written
    requires s.element.Some?
  {
    match s.element.value
    case ByteRange(first, last) => WFromTo(|s.pre|, first, 0, 0, last, |s.post|)
    case OpenRange(first) => WFrom(|s.pre|, first, 0, |s.post|)
    case SuffixRange(count) => WSuffix(|s.pre|, count, |s.post|)
  }

  lemma SpacesOf(s: string)
    requires SpacesOnly(s)
    ensures s == Spaces(|s|)
  {
  }

  lemma AsWrittenIsSame(s: Slot)
    requires ValidSlot(s) && ReadableSlot(s)
    ensures ValidWritten(AsWritten(s)) && Same(AsWritten(s), s)
  {
    hide Spaces, SpacesOnly, AllDigits, Number;
    SpacesOf(s.pre);
    SpacesOf(s.post);
  }

  lemma SameIsReadable(w: Written, s: Slot)
    requires ValidWritten(w) && ValidSlot(s) && Same(w, s)
    ensures ReadableSlot(s)
  {
    hide AllDigits, Number;
    SpacesAreOws(w.s0);
    SpacesAreOws(SpacesBehind(w));
  }

  /** A byte-range-set of the RFC is a header of the parser's grammar exactly when it is readable; so the
      parser refuses every other. */
  lemma ReadIff(header: CString, slots: seq<Slot>)
    requires IsSet(header, slots)
    ensures (exists ws :: IsHeader(header, ws)) <==> Readable(slots)
    ensures forall ws :: IsHeader(header, ws) ==> AllSame(ws, slots)
  {
    hide Same, ValidSlot, ValidWritten, Joined, TextAll, SlotText, ReadableSlot;
    forall ws | IsHeader(header, ws) ensures AllSame(ws, slots) && Readable(slots) {
      SetSame(header, ws, slots);
      forall i | 0 <= i < |slots| ensures ReadableSlot(slots[i]) {
        SameIsReadable(ws[i], slots[i]);
      }
    }
    if Readable(slots) {
      ReadableIsHeader(header, slots);
    }
  }

  lemma ReadableIsHeader(header: CString, slots: seq<Slot>)
    requires IsSet(header, slots) && Readable(slots)
    ensures exists ws :: IsHeader(header, ws)
  {
    hide Same, ValidSlot, ValidWritten, Joined, TextAll, SlotText;
    var ws := seq(|slots|, i requires 0 <= i < |slots| => AsWritten(slots[i]));
    forall i | 0 <= i < |ws| ensures ValidWritten(ws[i]) && Same(ws[i], slots[i]) {
      AsWrittenIsSame(slots[i]);
    }
    SameIsText(ws, slots);
    assert IsHeader(header, ws);
  }

  // ---------------------------------------------------------------- what is served against what is asked for

  predicate Overlong(s: Slot, length: nat)
    requires ValidSlot(s)
  {
    s.element.Some? && s.element.value.SuffixRange? && Value(s.element.value.count) > length
  }

  /** No suffix is longer than the representation. */
  predicate NoneOverlong(slots: seq<Slot>, length: nat)
    requires forall i :: 0 <= i < |slots| ==> ValidSlot(slots[i])
  {
    forall i :: 0 <= i < |slots| ==> !Overlong(slots[i], length)
  }

  lemma SameRange(w: Written, s: Slot, length: nat)
    requires ValidWritten(w) && ValidSlot(s) && Same(w, s)
    ensures s.element.Some?
    ensures if Overlong(s, length) then Resolve(Meaning(w), length).start < 0 && Resolve(Meaning(w), length).end >= 0
            else Resolve(Meaning(w), length) == Selected(s.element.value, length)
    ensures Selected(s.element.value, length).start >= 0
  {
    hide AllDigits, Number;
  }

  lemma {:induction false} AskedNonnegative(slots: seq<Slot>, length: nat)
    requires forall i :: 0 <= i < |slots| ==> ValidSlot(slots[i])
    ensures forall k :: 0 <= k < |Asked(slots, length)| ==> Asked(slots, length)[k].start >= 0
  {
    hide Value;
    if slots != [] {
      assert ValidSlot(slots[0]);
      AskedNonnegative(slots[1..], length);
    }
  }

  /** The parser's list is the list asked for exactly when no suffix is longer than the representation. */
  lemma {:induction false} SameRangesIff(ws: seq<Written>, slots: seq<Slot>, length: nat)
    requires forall i :: 0 <= i < |ws| ==> ValidWritten(ws[i])
    requires forall i :: 0 <= i < |slots| ==> ValidSlot(slots[i])
    requires AllSame(ws, slots)
    ensures Satisfiable(Meanings(ws), length) == Asked(slots, length) <==> NoneOverlong(slots, length)
    decreases |ws|
  {
    hide Same, ValidSlot, ValidWritten, Overlong, Resolve, Meaning, Selected, Meanings;
    if ws == [] {
      assert Meanings(ws) == [] by { NoMeanings(); }
    } else {
      SameRange(ws[0], slots[0], length);
      FirstServed(ws, length);
      SameRangesIff(ws[1..], slots[1..], length);
      AskedNonnegative(slots, length);
      assert forall i :: 0 < i < |slots| ==> slots[i] == slots[1..][i - 1];
      assert NoneOverlong(slots, length) <==> !Overlong(slots[0], length) && NoneOverlong(slots[1..], length);
      var r, more := Resolve(Meaning(ws[0]), length), Satisfiable(Meanings(ws[1..]), length);
      var rest := Asked(slots[1..], length);
      assert ([r] + more)[0] == r && ([r] + more)[1..] == more && ([r] + rest)[1..] == rest;
    }
  }

  lemma NoMeanings()
    ensures Meanings([]) == []
  {
  }

  /** The parser answers OK to a valid byte-range-set if and only if it can read the set, no suffix is
      longer than the representation, and the ranges asked for are some, few enough, and no more bytes in
      all than the representation has.  Then it serves what was asked for. */
  lemma ServedAsAsked(header: CString, slots: seq<Slot>, length: nat, ranges: nat)
    requires |header| >= 7 && length <= MAX_OFF_T && IsSet(header, slots)
    ensures var answer, asked := ParseFrom(header, 6, length, [], 0, ranges), Asked(slots, length);
            && (answer.0 == Status.Ok <==>
                  Readable(slots) && NoneOverlong(slots, length) && Acceptable(asked, length, ranges))
            && (answer.0 == Status.Ok ==> answer.1 == asked)
  {
    hide ParseFrom, Asked, Satisfiable, Acceptable, IsHeader, Readable, NoneOverlong, AllSame, ByteRangeSet, Meanings;
    SetIsValid(header, slots);
    var answer, asked := ParseFrom(header, 6, length, [], 0, ranges), Asked(slots, length);
    ReadIff(header, slots);
    ParseIsGrammar(header, length, ranges, asked);
    ParseIsGrammar(header, length, ranges, answer.1);
    forall ws | IsHeader(header, ws)
      ensures ValidHeader(ws) && (Satisfiable(Meanings(ws), length) == asked <==> NoneOverlong(slots, length))
      ensures answer.0 == Status.Ok ==> NoneOverlong(slots, length)
    {
      HeaderIsValid(header, ws);
      SameRangesIff(ws, slots, length);
      OverlongRefused(header, ws, slots, length, ranges);
    }
  }

  lemma OverlongRefused(header: CString, ws: seq<Written>, slots: seq<Slot>, length: nat, ranges: nat)
    requires length <= MAX_OFF_T && |header| >= 6
    ensures IsHeader(header, ws) && IsSet(header, slots) && AllSame(ws, slots) ==>
      (ParseFrom(header, 6, length, [], 0, ranges).0 == Status.Ok ==> NoneOverlong(slots, length))
  {
    hide ParseFrom, Joined, TextAll, Number;
    if IsHeader(header, ws) && IsSet(header, slots) && AllSame(ws, slots) {
      forall i | 0 <= i < |slots|
        ensures ParseFrom(header, 6, length, [], 0, ranges).0 == Status.Ok ==> !Overlong(slots[i], length)
      {
        if Overlong(slots[i], length) {
          assert Same(ws[i], slots[i]);
          OverlongSuffixRefused(header, ws, length, ranges, i);
        }
      }
    }
  }

  lemma HeaderIsValid(header: CString, ws: seq<Written>)
    requires IsHeader(header, ws)
    ensures ValidHeader(ws)
  {
  }

  lemma SetIsValid(header: CString, slots: seq<Slot>)
    requires IsSet(header, slots)
    ensures forall i :: 0 <= i < |slots| ==> ValidSlot(slots[i])
  {
  }

  // ---------------------------------------------------------------- inputs

  lemma Numbers()
    ensures Numeral("0") && Numeral("3") && Numeral("4") && Numeral("5")
    ensures Number("0", 0, 1) == 0 && Number("3", 0, 1) == 3 && Number("4", 0, 1) == 4 && Number("5", 0, 1) == 5
  {
  }

  const BACKWARD: Written := WFromTo(0, "5", 0, 0, "3", 0)
  const FIRST_BYTE: Written := WFromTo(0, "0", 0, 0, "0", 0)

  lemma BackwardTexts()
    ensures Text(BACKWARD) == "5-3" && Text(FIRST_BYTE) == "0-0"
  {
    NoSpaces();
    hide Spaces;
    assert Opening(0, "5", 0) == "5-" && Closing("3", 0) == "3";
    assert Opening(0, "0", 0) == "0-" && Closing("0", 0) == "0";
  }

  lemma BackwardHeader()
    ensures IsHeader("bytes=5-3,0-0", [BACKWARD, FIRST_BYTE])
  {
    Numbers();
    BackwardTexts();
    hide Text, Number;
    assert [BACKWARD, FIRST_BYTE][1..] == [FIRST_BYTE];
    assert "bytes=5-3,0-0"[6..] == "5-3,0-0" == TextAll([BACKWARD, FIRST_BYTE]);
  }

  lemma OneServed(w: Written, length: nat)
    requires ValidWritten(w) && Resolve(Meaning(w), length).start < Resolve(Meaning(w), length).end
    ensures Satisfiable(Meanings([w]), length) == [Resolve(Meaning(w), length)]
    ensures Total([Resolve(Meaning(w), length)]) == Length(Resolve(Meaning(w), length))
  {
    hide Resolve, Meaning, ValidWritten;
    FirstServed([w], length);
    assert [Resolve(Meaning(w), length)][..0] == [];
  }

  /** A range that ends before it starts makes the set invalid, but the other range is served. */
  lemma BackwardIsServed()
    ensures var header: CString := "bytes=5-3,0-0";
            && ParseFrom(header, 6, 10, [], 0, 5) == (Status.Ok, [Range(0, 1)])
            && !exists slots :: IsSet(header, slots) && AllOrdered(slots)
  {
    Numbers();
    BackwardHeader();
    hide ParseFrom, TextAll, Number, Satisfiable, Total, Meanings;
    var header: CString, ws := "bytes=5-3,0-0", [BACKWARD, FIRST_BYTE];
    assert ws[1..] == [FIRST_BYTE];
    FirstServed(ws, 10);
    OneServed(FIRST_BYTE, 10);
    ParseIsGrammar(header, 10, 5, [Range(0, 1)]);
    ParserInRfc(header, ws);
    assert !Forward(ws[0]);
  }

  const SPACED: Written := WFromTo(1, "0", 0, 0, "4", 0)

  lemma SpacedHeader()
    ensures IsHeader("bytes= 0-4", [SPACED])
  {
    Numbers();
    NoSpaces();
    assert Spaces(1) == " ";
    hide Spaces, Number;
    assert Opening(1, "0", 0) == " 0-" && Closing("4", 0) == "4";
    assert "bytes= 0-4"[6..] == " 0-4" == TextAll([SPACED]);
  }

  /** A space at the front puts the header out of the RFC's grammar, but it is served. */
  lemma SpaceIsServed()
    ensures var header: CString := "bytes= 0-4";
            && ParseFrom(header, 6, 10, [], 0, 5) == (Status.Ok, [Range(0, 5)])
            && !exists slots :: IsSet(header, slots) && AllOrdered(slots)
  {
    Numbers();
    SpacedHeader();
    hide ParseFrom, TextAll, Number, Satisfiable, Total, Meanings;
    var header: CString, ws := "bytes= 0-4", [SPACED];
    OneServed(SPACED, 10);
    ParseIsGrammar(header, 10, 5, [Range(0, 5)]);
    ParserInRfc(header, ws);
  }

  const EMPTY_FIRST: seq<Slot> := [Slot("", None, ""), Slot("", Some(ByteRange("0", "0")), "")]

  lemma EmptyFirstIsSet()
    ensures IsSet("bytes=,0-0", EMPTY_FIRST) && AllOrdered(EMPTY_FIRST)
  {
    Numbers();
    hide Number;
    assert SlotText(EMPTY_FIRST[0]) == "" && SlotText(EMPTY_FIRST[1]) == "0-0";
    assert SlotTexts(EMPTY_FIRST) == ["", "0-0"] && ["", "0-0"][1..] == ["0-0"];
    assert "bytes=,0-0"[6..] == ",0-0" == Joined(["", "0-0"]);
    hide SlotText, SlotTexts, Joined;
    assert EMPTY_FIRST[1].element.Some?;
  }

  lemma EmptyFirstAsks()
    ensures forall i :: 0 <= i < |EMPTY_FIRST| ==> ValidSlot(EMPTY_FIRST[i])
    ensures Asked(EMPTY_FIRST, 10) == [Range(0, 1)] && !Readable(EMPTY_FIRST)
  {
    Numbers();
    hide Number;
    var rest := [EMPTY_FIRST[1]];
    assert EMPTY_FIRST[1..] == rest && rest[1..] == [];
    assert Asked(rest, 10) == [Range(0, 1)];
    assert !ReadableSlot(EMPTY_FIRST[0]);
  }

  /** An empty element does not matter to the RFC, but the parser does not serve the header. */
  lemma EmptyNotServed()
    ensures var header: CString := "bytes=,0-0";
            && IsSet(header, EMPTY_FIRST) && AllOrdered(EMPTY_FIRST) && Asked(EMPTY_FIRST, 10) == [Range(0, 1)]
            && ParseFrom(header, 6, 10, [], 0, 5).0 != Status.Ok
  {
    hide ParseFrom, IsSet, Asked, AllOrdered, Acceptable, Readable, NoneOverlong;
    EmptyFirstIsSet();
    EmptyFirstAsks();
    ServedAsAsked("bytes=,0-0", EMPTY_FIRST, 10, 5);
  }

  /** A suffix longer than the representation means all of it, but the parser does not serve the header. */
  lemma SuffixNotServed()
    ensures var header: CString := "bytes=-5";
            var slots := [Slot("", Some(SuffixRange("5")), "")];
            && IsSet(header, slots) && AllOrdered(slots) && Asked(slots, 2) == [Range(0, 2)]
            && ParseFrom(header, 6, 2, [], 0, 5).0 != Status.Ok
  {
    Numbers();
    var header: CString := "bytes=-5";
    var some := Slot("", Some(SuffixRange("5")), "");
    var slots := [some];
    hide Number, ParseFrom;
    assert SlotText(some) == "-5" && SlotTexts(slots) == ["-5"];
    assert header[6..] == "-5" == Joined(["-5"]);
    assert slots[0].element.Some?;
    assert IsSet(header, slots);
    assert slots[1..] == [];
    ServedAsAsked(header, slots, 2, 5);
    assert Overlong(slots[0], 2);
  }
}
