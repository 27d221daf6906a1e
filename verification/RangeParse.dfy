/** The parser for the Range request header (section 2.1 of RFC 7233).

    `ParseFrom` says what the parser does from a given position on, with its early exits.  Its
    meaning is given by two reference definitions that know nothing of positions: how a list of
    ranges is written (`TextAll`), and which of the ranges asked for are served (`Satisfiable`). */
module RangeParse {
  import opened Options
  import opened CStrings
  import opened Decimals
  import opened RangeTypes

  datatype Status = Ok | NotSatisfiable | Declined

  // ---------------------------------------------------------------- scanning

  /** The first position from `p` on that is not a space. */
  function SkipSpaces(text: string, p: nat): (q: nat)
    requires p <= |text|
    ensures p <= q <= |text| && At(text, q) != ' '
    ensures forall i :: p <= i < q ==> text[i] == ' '
    decreases |text| - p
  {
    if At(text, p) == ' ' then SkipSpaces(text, p + 1) else p
  }

  /** The first position from `p` on that is not a digit. */
  function SkipDigits(text: string, p: nat): (q: nat)
    requires p <= |text|
    ensures p <= q <= |text| && !IsDigit(At(text, q))
    ensures AllDigits(text, p, q)
    decreases |text| - p
  {
    if IsDigit(At(text, p)) then SkipDigits(text, p + 1) else p
  }

  /** A nonempty digit run whose value is at most the largest off_t, and where it ends. */
  function ScanNumber(text: string, p: nat): (r: Option<(nat, nat)>)
    requires p <= |text|
    ensures r.Some? ==> p < r.value.1 <= |text|
  {
    var q := SkipDigits(text, p);
    if p < q && Number(text, p, q) <= MAX_OFF_T then Some((Number(text, p, q), q)) else None
  }

  // ---------------------------------------------------------------- one range

  datatype RangeSpec = FromTo(first: nat, last: nat) | From(first: nat) | Suffix(count: nat)

  /** The bytes a range asks for.  A suffix longer than the body is not cut down to it. */
  function Resolve(spec: RangeSpec, contentLength: nat): Range {
    match spec
    case FromTo(first, last) => Range(first, if last >= contentLength then contentLength else last + 1)
    case From(first) => Range(first, contentLength)
    case Suffix(count) => Range(contentLength - count, contentLength)
  }

  predicate AtItemEnd(text: string, p: nat)
    requires p <= |text|
  {
    At(text, p) == ',' || At(text, p) == '\0'
  }

  /** Spaces, the first number, spaces and the dash; and the position after the dash. */
  function ScanOpening(text: string, p: nat): (r: Option<(nat, nat)>)
    requires p <= |text|
    ensures r.Some? ==> p < r.value.1 <= |text|
  {
    match ScanNumber(text, SkipSpaces(text, p))
    case None => None
    case Some((first, q)) =>
      var d := SkipSpaces(text, q);
      if At(text, d) == '-' then Some((first, d + 1)) else None
  }

  /** The last number and spaces, up to the end of the range. */
  function ScanClosing(text: string, p: nat): (r: Option<(nat, nat)>)
    requires p <= |text|
    ensures r.Some? ==> p < r.value.1 <= |text| && AtItemEnd(text, r.value.1)
  {
    match ScanNumber(text, p)
    case None => None
    case Some((last, q)) =>
      var e := SkipSpaces(text, q);
      if AtItemEnd(text, e) then Some((last, e)) else None
  }

  /** One range from `p` on, and the position of the comma or terminator that ends it. */
  function ScanItem(text: string, p: nat): (r: Option<(RangeSpec, nat)>)
    requires p <= |text|
    ensures r.Some? ==> p < r.value.1 <= |text| && AtItemEnd(text, r.value.1)
  {
    var p1 := SkipSpaces(text, p);
    if At(text, p1) == '-' then
      match ScanClosing(text, p1 + 1)
      case None => None
      case Some((count, q)) => Some((Suffix(count), q))
    else
      match ScanOpening(text, p)
      case None => None
      case Some((first, p2)) =>
        var p3 := SkipSpaces(text, p2);
        if AtItemEnd(text, p3) then Some((From(first), p3))
        else
          match ScanClosing(text, p3)
          case None => None
          case Some((last, q)) => Some((FromTo(first, last), q))
  }

  // ---------------------------------------------------------------- the whole header

  /** The status, and the ranges stored by then, when `stored` with `size` bytes in all have been
      stored before position `p` and `left` more are allowed. */
  function ParseFrom(text: string, p: nat, contentLength: nat, stored: seq<Range>, size: int, left: nat)
    : (Status, seq<Range>)
    requires p <= |text|
    decreases |text| - p
  {
    match ScanItem(text, p)
    case None => (NotSatisfiable, stored)
    case Some((spec, q)) =>
      var r := Resolve(spec, contentLength);
      if r.start < r.end then
        var stored' := stored + [r];
        if size > MAX_OFF_T - Length(r) then (NotSatisfiable, stored')
        else if left == 0 then (Declined, stored')
        else Continue(text, q, contentLength, stored', size + Length(r), left - 1)
      else
        Continue(text, q, contentLength, stored, size, left)
  }

  function Continue(text: string, q: nat, contentLength: nat, stored: seq<Range>, size: int, left: nat)
    : (Status, seq<Range>)
    requires q <= |text|
    decreases |text| - q, 0
  {
    if At(text, q) == ',' then ParseFrom(text, q + 1, contentLength, stored, size, left)
    else (Verdict(contentLength, stored, size), stored)
  }

  function Verdict(contentLength: nat, stored: seq<Range>, size: int): Status {
    if stored == [] then NotSatisfiable else if size > contentLength then Declined else Ok
  }

  // ---------------------------------------------------------------- the parser

  method SkipSpacesLoop(text: CString, p: nat) returns (q: nat)
    requires p <= |text|
    ensures q == SkipSpaces(text, p)
  {
    q := p;
    while At(text, q) == ' '
      invariant p <= q <= |text| && SkipSpaces(text, q) == SkipSpaces(text, p)
      decreases |text| - q
    {
      q := q + 1;
    }
  }

  /** The numeral loop with its guard against overflow: it accepts a digit run exactly when its value
      is at most the largest off_t. */
  method ReadNumber(text: CString, p: nat) returns (r: Option<(nat, nat)>)
    requires p <= |text| && IsDigit(At(text, p))
    ensures r == ScanNumber(text, p)
  {
    var cutoff := MAX_OFF_T / 10;
    var cutlim := MAX_OFF_T % 10;
    var value: int, q := 0, p;
    ghost var end := SkipDigits(text, p);
    while IsDigit(At(text, q))
      invariant p <= q <= end && SkipDigits(text, q) == end
      invariant value == Number(text, p, q) <= MAX_OFF_T
      decreases |text| - q
    {
      var d := Digit(At(text, q));
      if value >= cutoff && (value > cutoff || d > cutlim) {
        assert Number(text, p, q + 1) > MAX_OFF_T;
        NumberMonotone(text, p, q + 1, end);
        return None;
      }
      value := value * 10 + d;
      q := q + 1;
    }
    return Some((value, q));
  }

  /** The last number, and what may stand behind it. */
  method ReadClosing(text: CString, p: nat) returns (r: Option<(nat, nat)>)
    requires p <= |text|
    ensures r == ScanClosing(text, p)
  {
    hide Number, SkipDigits;
    if !IsDigit(At(text, p)) {
      return None;
    }
    var last := ReadNumber(text, p);
    if last.None? {
      return None;
    }
    var end, q := last.value.0, last.value.1;
    q := SkipSpacesLoop(text, q);
    return if AtItemEnd(text, q) then Some((end, q)) else None;
  }

  /** The part of the parse loop that reads one range and works out its bounds. */
  method ReadItem(text: CString, p0: nat, contentLength: nat) returns (ok: bool, start: int, end: int, p: nat)
    requires p0 <= |text|
    ensures ok <==> ScanItem(text, p0).Some?
    ensures ok ==>
      var (spec, q) := ScanItem(text, p0).value;
      p == q && Range(start, end) == Resolve(spec, contentLength)
  {
    hide Number, SkipDigits, ScanClosing;
    ok, start, end, p := false, 0, 0, p0;
    var suffix := false;
    p := SkipSpacesLoop(text, p);
    if At(text, p) != '-' {
      if !IsDigit(At(text, p)) {
        return;
      }
      var first := ReadNumber(text, p);
      if first.None? {
        return;
      }
      start, p := first.value.0, first.value.1;
      p := SkipSpacesLoop(text, p);
      if At(text, p) != '-' {
        return;
      }
      p := SkipSpacesLoop(text, p + 1);
      if AtItemEnd(text, p) {
        ok, end := true, contentLength;
        return;
      }
    } else {
      suffix, p := true, p + 1;
    }
    var last := ReadClosing(text, p);
    if last.None? {
      return;
    }
    end, p := last.value.0, last.value.1;
    if suffix {
      start := contentLength - end;
      end := contentLength - 1;
    }
    if end >= contentLength {
      end := contentLength;
    } else {
      end := end + 1;
    }
    ok := true;
  }

  /** ngx_http_range_parse for a main request.  `ranges` is the largest number of ranges served. */
  method Parse(ctx: RangeContext, header: CString, contentLength: nat, ranges: nat) returns (status: Status)
    requires |header| >= 7 && contentLength <= MAX_OFF_T
    requires ctx.ranges == []
    modifies ctx`ranges
    ensures (status, ctx.ranges) == ParseFrom(header, 6, contentLength, [], 0, ranges)
  {
    hide ScanItem, SkipSpaces, SkipDigits;
    var p: nat := 6;
    var size, left := 0, ranges;
    while true
      invariant p <= |header| && 0 <= size <= MAX_OFF_T
      invariant ParseFrom(header, p, contentLength, ctx.ranges, size, left)
             == ParseFrom(header, 6, contentLength, [], 0, ranges)
      decreases |header| - p
    {
      var ok, start, end, q := ReadItem(header, p, contentLength);
      if !ok {
        return NotSatisfiable;
      }
      p := q;
      if start < end {
        ctx.ranges := ctx.ranges + [Range(start, end)];
        if size > MAX_OFF_T - (end - start) {
          return NotSatisfiable;
        }
        size := size + (end - start);
        if left == 0 {
          return Declined;
        }
        left := left - 1;
      }
      if At(header, p) != ',' {
        break;
      }
      p := p + 1;
    }
    if |ctx.ranges| == 0 {
      return NotSatisfiable;
    }
    if size > contentLength {
      return Declined;
    }
    return Ok;
  }
}
