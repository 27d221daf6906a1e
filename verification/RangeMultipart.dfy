/** The multipart response (Appendix A of RFC 7233): the header filter lays out the fixed texts and
    announces a length, the body filter builds the chain of parts.

    `Message` is the body the format calls for, written down directly.  The chain is proved to show
    exactly that, and the announced length to be its length. */
module RangeMultipart {
  import opened Decimals
  import opened RangeTypes
  import opened RangeBuffers

  const CRLF: string := "\r\n"
  /** NGX_ATOMIC_T_LEN and NGX_OFF_T_LEN: the decimal places a 64-bit number may need */
  const ATOMIC_T_LEN: nat := 20
  const OFF_T_LEN: nat := 20
  const SIZE_T: nat := 0x1_0000_0000_0000_0000

  /** The response headers the filter reads and rewrites. */
  class HeadersOut {
    var contentType: string
    var contentTypeLen: nat
    var charset: string
    var contentLength: int

    constructor (contentType: string, contentTypeLen: nat, charset: string, contentLength: int)
      ensures this.contentType == contentType && this.contentTypeLen == contentTypeLen
      ensures this.charset == charset && this.contentLength == contentLength
    {
      this.contentType, this.contentTypeLen := contentType, contentTypeLen;
      this.charset, this.contentLength := charset, contentLength;
    }
  }

  // ---------------------------------------------------------------- the format

  function Zeros(n: nat): (s: string)
    ensures |s| == n
  {
    seq(n, _ => '0')
  }

  /** `%0muA`: the boundary number, padded with zeros to its largest width. */
  function Boundary(number: nat): string
    requires number < SIZE_T
  {
    var digits := Decimal(number);
    (if |digits| < ATOMIC_T_LEN then Zeros(ATOMIC_T_LEN - |digits|) else "") + digits
  }

  lemma BoundaryLength(number: nat)
    requires number < SIZE_T
    ensures |Boundary(number)| == ATOMIC_T_LEN
  {
    PowersOfTen();
    DecimalLength(number, ATOMIC_T_LEN);
  }

  lemma PowersOfTen()
    ensures Pow10(20) == 100_000_000_000_000_000_000
  {
    assert Pow10(5) == 100_000;
    assert Pow10(10) == 10_000_000_000;
    assert Pow10(15) == 1_000_000_000_000_000;
  }

  /** The Content-Type line of each part: none for an empty type, with the charset if the type came
      without parameters of its own. */
  function TypeLine(contentType: string, contentTypeLen: nat, charset: string): string {
    if contentTypeLen == |contentType| && charset != "" then
      "Content-Type: " + contentType + "; charset=" + charset + CRLF
    else if contentType != "" then
      "Content-Type: " + contentType + CRLF
    else
      ""
  }

  function Delimiter(number: nat): string
    requires number < SIZE_T
  {
    CRLF + "--" + Boundary(number)
  }

  /** "Content-Range: bytes START-END/SIZE", from START on, and the empty line. */
  function RangeText(r: Range, contentLength: nat): string
    requires 0 <= r.start < r.end
  {
    Decimal(r.start) + "-" + Decimal(r.end - 1) + "/" + Decimal(contentLength) + CRLF + CRLF
  }

  function PartHeader(number: nat, typeLine: string): string
    requires number < SIZE_T
  {
    Delimiter(number) + CRLF + typeLine + "Content-Range: bytes "
  }

  /** What the Content-Range text of a part has to say: the first and the last position of the range and the
      size of the body, as numerals, and the empty line. */
  ghost predicate ReadsAs(text: string, r: Range, total: nat)
    requires 0 <= r.start < r.end
  {
    exists first, last, size ::
      && IsNumeral(first, r.start) && IsNumeral(last, r.end - 1) && IsNumeral(size, total)
      && text == first + "-" + last + "/" + size + "\r\n\r\n"
  }

  lemma RangeTextReads(r: Range, total: nat)
    requires 0 <= r.start < r.end
    ensures ReadsAs(RangeText(r, total), r, total)
  {
    hide IsNumeral, Decimal;
    DecimalIsNumeral(r.start);
    DecimalIsNumeral(r.end - 1);
    DecimalIsNumeral(total);
    assert "\r\n" + "\r\n" == "\r\n\r\n";
  }

  /** Twenty digits, which denote the number. */
  predicate IsBoundary(b: string, number: nat) {
    |b| == 20 && AllDigits(b, 0, |b|) && Number(b, 0, |b|) == number
  }

  lemma BoundaryReads(number: nat)
    requires number < SIZE_T
    ensures IsBoundary(Boundary(number), number)
  {
    hide Decimal, Number;
    BoundaryLength(number);
    NumberOfDecimal(number);
    var digits := Decimal(number);
    NumberPadded(Zeros(ATOMIC_T_LEN - |digits|), digits, |digits|);
    assert Boundary(number) == Zeros(ATOMIC_T_LEN - |digits|) + digits;
  }

  /** The type line says the type that the whole body would have had, with the charset if there is one and
      the type has no parameters; there is none if nothing is known. */
  lemma TypeLineReads(contentType: string, contentTypeLen: nat, charset: string)
    ensures var line := TypeLine(contentType, contentTypeLen, charset);
            && (charset != "" && contentTypeLen == |contentType| ==>
                  line == "Content-Type: " + contentType + "; charset=" + charset + "\r\n")
            && (contentType != "" && (charset == "" || contentTypeLen != |contentType|) ==>
                  line == "Content-Type: " + contentType + "\r\n")
            && (contentType == "" && (charset == "" || contentTypeLen != 0) ==> line == "")
  {
  }

  /** What stands in front of the Content-Range text of each part. */
  lemma PartHeaderReads(number: nat, typeLine: string)
    requires number < SIZE_T
    ensures IsBoundary(Boundary(number), number)
    ensures PartHeader(number, typeLine) == "\r\n--" + Boundary(number) + "\r\n" + typeLine + "Content-Range: bytes "
    ensures Delimiter(number) == "\r\n--" + Boundary(number)
  {
    hide IsBoundary, Boundary;
    BoundaryReads(number);
    assert "\r\n" + "--" == "\r\n--";
  }

  /** The parts of the multipart body before its closing delimiter.  `data` is the body, of `total`
      bytes, or as much of it as has the ranges. */
  function MessageParts(number: nat, typeLine: string, ranges: seq<Range>, total: nat, data: string): string
    requires number < SIZE_T && InBounds(ranges, |data|)
  {
    if ranges == [] then ""
    else
      var r := ranges[|ranges| - 1];
      MessageParts(number, typeLine, ranges[..|ranges| - 1], total, data)
        + PartHeader(number, typeLine) + RangeText(r, total) + data[r.start..r.end]
  }

  function Message(number: nat, typeLine: string, ranges: seq<Range>, total: nat, data: string): string
    requires number < SIZE_T && InBounds(ranges, |data|)
  {
    MessageParts(number, typeLine, ranges, total, data) + Delimiter(number) + "--" + CRLF
  }

  // ---------------------------------------------------------------- the header filter

  /** The length computed by the header filter: the last boundary, then each range. */
  function MessageLength(boundaryHeader: string, contentRange: seq<string>, ranges: seq<Range>): nat
    requires |contentRange| == |ranges| && forall i :: 0 <= i < |ranges| ==> Length(ranges[i]) >= 0
  {
    if ranges == [] then |CRLF + "--"| + ATOMIC_T_LEN + |"--" + CRLF|
    else
      var n := |ranges| - 1;
      MessageLength(boundaryHeader, contentRange[..n], ranges[..n])
        + (|boundaryHeader| + |contentRange[n]| + Length(ranges[n]))
  }

  /** A size_t stored in an off_t. */
  function ToOffT(len: nat): int
    requires len < SIZE_T
  {
    if len <= MAX_OFF_T then len else len - SIZE_T
  }

  function RangeTexts(ranges: seq<Range>, contentLength: nat): (texts: seq<string>)
    requires InBounds(ranges, contentLength)
    ensures |texts| == |ranges| && forall i :: 0 <= i < |ranges| ==> texts[i] == RangeText(ranges[i], contentLength)
  {
    seq(|ranges|, i requires 0 <= i < |ranges| => RangeText(ranges[i], contentLength))
  }

  lemma TextsRead(ranges: seq<Range>, contentLength: nat)
    requires InBounds(ranges, contentLength)
    ensures forall i :: 0 <= i < |ranges| ==> ReadsAs(RangeTexts(ranges, contentLength)[i], ranges[i], contentLength)
  {
    hide ReadsAs, RangeText;
    forall i | 0 <= i < |ranges| ensures ReadsAs(RangeTexts(ranges, contentLength)[i], ranges[i], contentLength) {
      RangeTextReads(ranges[i], contentLength);
    }
  }

  lemma AddWrapped(a: nat, b: nat)
    ensures (a % SIZE_T + b) % SIZE_T == (a + b) % SIZE_T
  {
  }

  /** The three ways the boundary header is printed. */
  method PrintBoundaryHeader(headers: HeadersOut, number: nat) returns (text: string)
    requires number < SIZE_T
    ensures text == PartHeader(number, TypeLine(headers.contentType, headers.contentTypeLen, headers.charset))
  {
    hide Boundary;
    var boundary := Boundary(number);
    if headers.contentTypeLen == |headers.contentType| && headers.charset != "" {
      text := CRLF + "--" + boundary + CRLF
        + ("Content-Type: " + headers.contentType + "; charset=" + headers.charset + CRLF) + "Content-Range: bytes ";
    } else if headers.contentType != "" {
      text := CRLF + "--" + boundary + CRLF + ("Content-Type: " + headers.contentType + CRLF) + "Content-Range: bytes ";
    } else {
      text := CRLF + "--" + boundary + CRLF + "" + "Content-Range: bytes ";
    }
  }

  /** One more range: its text is added to the texts, and its bytes to the length. */
  lemma NextText(boundaryHeader: string, texts: seq<string>, ranges: seq<Range>, i: nat, contentLength: nat, len: nat)
    requires InBounds(ranges, contentLength) && i < |ranges|
    requires texts == RangeTexts(ranges[..i], contentLength)
    requires len == MessageLength(boundaryHeader, texts, ranges[..i]) % SIZE_T
    ensures var text := RangeText(ranges[i], contentLength);
            && texts + [text] == RangeTexts(ranges[..i + 1], contentLength)
            && (len + (|boundaryHeader| + |text| + Length(ranges[i]))) % SIZE_T
                 == MessageLength(boundaryHeader, texts + [text], ranges[..i + 1]) % SIZE_T
  {
    hide RangeText;
    var text := RangeText(ranges[i], contentLength);
    assert ranges[..i + 1][..i] == ranges[..i] && (texts + [text])[..i] == texts;
    AddWrapped(MessageLength(boundaryHeader, texts, ranges[..i]), |boundaryHeader| + |text| + Length(ranges[i]));
  }

  lemma NoTexts(boundaryHeader: string, ranges: seq<Range>, contentLength: nat)
    requires InBounds(ranges, contentLength)
    ensures ranges[..|ranges|] == ranges && RangeTexts(ranges[..0], contentLength) == []
    ensures MessageLength(boundaryHeader, [], ranges[..0]) == |CRLF + "--"| + ATOMIC_T_LEN + |"--" + CRLF|
  {
  }

  /** ngx_http_range_multipart_header */
  method MultipartHeader(ctx: RangeContext, headers: HeadersOut, number: nat)
    requires number < SIZE_T && 0 <= headers.contentLength <= MAX_OFF_T
    requires InBounds(ctx.ranges, headers.contentLength) && ctx.contentRange == []
    modifies ctx`boundaryHeader, ctx`contentRange, headers
    ensures ctx.boundaryHeader ==
      PartHeader(number, TypeLine(old(headers.contentType), old(headers.contentTypeLen), old(headers.charset)))
    ensures ctx.contentRange == RangeTexts(ctx.ranges, old(headers.contentLength))
    ensures headers.contentLength == ToOffT(MessageLength(ctx.boundaryHeader, ctx.contentRange, ctx.ranges) % SIZE_T)
    ensures headers.contentType == "multipart/byteranges; boundary=" + Boundary(number)
    ensures headers.contentTypeLen == |headers.contentType| && headers.charset == ""
    ensures forall i :: 0 <= i < |ctx.ranges| ==>
      ReadsAs(ctx.contentRange[i], ctx.ranges[i], old(headers.contentLength))
    ensures exists b ::
              && IsBoundary(b, number) && headers.contentType == "multipart/byteranges; boundary=" + b
              && ctx.boundaryHeader == "\r\n--" + b + "\r\n"
                   + TypeLine(old(headers.contentType), old(headers.contentTypeLen), old(headers.charset))
                   + "Content-Range: bytes "
  {
    hide PartHeader, TypeLine, RangeText, Boundary, MessageLength, ReadsAs, IsBoundary;
    PartHeaderReads(number, TypeLine(headers.contentType, headers.contentTypeLen, headers.charset));
    TextsRead(ctx.ranges, headers.contentLength);
    ctx.boundaryHeader := PrintBoundaryHeader(headers, number);
    headers.contentType := "multipart/byteranges; boundary=" + Boundary(number);
    headers.contentTypeLen := |headers.contentType|;
    headers.charset := "";
    var len := |CRLF + "--"| + ATOMIC_T_LEN + |"--" + CRLF|;
    var contentLength := headers.contentLength;
    NoTexts(ctx.boundaryHeader, ctx.ranges, contentLength);
    for i := 0 to |ctx.ranges|
      modifies ctx`contentRange
      invariant ctx.contentRange == RangeTexts(ctx.ranges[..i], contentLength)
      invariant len == MessageLength(ctx.boundaryHeader, ctx.contentRange, ctx.ranges[..i]) % SIZE_T
    {
      NextText(ctx.boundaryHeader, ctx.contentRange, ctx.ranges, i, contentLength, len);
      var text := RangeText(ctx.ranges[i], contentLength);
      ctx.contentRange := ctx.contentRange + [text];
      len := (len + (|ctx.boundaryHeader| + |text| + Length(ctx.ranges[i]))) % SIZE_T;
    }
    headers.contentLength := ToOffT(len);
  }

  /** The bytes allocated for the boundary header. */
  function HeaderRoom(contentType: string, contentTypeLen: nat, charset: string): nat {
    |CRLF + "--"| + ATOMIC_T_LEN + |CRLF + "Content-Type: "| + |contentType| + |CRLF + "Content-Range: bytes "|
      + if contentTypeLen == |contentType| && charset != "" then |"; charset="| + |charset| else 0
  }

  /** The boundary header fits the bytes allocated for it, and fills them if there is a type line. */
  lemma HeaderFits(number: nat, contentType: string, contentTypeLen: nat, charset: string)
    requires number < SIZE_T
    ensures var line := TypeLine(contentType, contentTypeLen, charset);
            var room := HeaderRoom(contentType, contentTypeLen, charset);
            |PartHeader(number, line)| <= room && (line != "" <==> |PartHeader(number, line)| == room)
  {
    BoundaryLength(number);
  }

  /** The Content-Range text fits the bytes allocated for it. */
  lemma RangeTextFits(r: Range, contentLength: nat)
    requires 0 <= r.start < r.end <= contentLength <= MAX_OFF_T
    ensures |RangeText(r, contentLength)| <= 3 * OFF_T_LEN + 2 + 4
  {
    PowersOfTen();
    DecimalLength(r.start, OFF_T_LEN);
    DecimalLength(r.end - 1, OFF_T_LEN);
    DecimalLength(contentLength, OFF_T_LEN);
  }

  // ---------------------------------------------------------------- the chain of parts

  /** `w` is what a buffer shows that reaches from the start to the end of the range, counted from the
      first byte of a buffer that shows `p`.  If the range is not inside that buffer, only the number of
      bytes is known. */
  predicate IsWindow(w: Piece, p: Piece, r: Range) {
    && w == Piece(w.data, p.hasBytes, false, false, false)
    && (p.hasBytes ==> |w.data| == Length(r))
    && (0 <= r.start <= r.end <= |p.data| ==> w.data == p.data[r.start..r.end])
  }

  predicate AreWindows(windows: seq<Piece>, p: Piece, ranges: seq<Range>) {
    |windows| == |ranges| && forall i :: 0 <= i < |ranges| ==> IsWindow(windows[i], p, ranges[i])
  }

  /** The data piece of one range, as the pointers of `buf` give it. */
  ghost function Window(buf: Buf, r: Range): Piece
    reads buf
    requires r.start <= r.end
  {
    Piece(if buf.inMemory then Read(buf.mem, buf.pos + r.start, buf.pos + r.end)
          else if buf.inFile then Read(buf.file, buf.filePos + r.start, buf.filePos + r.end)
          else "",
          buf.inMemory || buf.inFile, false, false, false)
  }

  ghost function Windows(buf: Buf, ranges: seq<Range>): (windows: seq<Piece>)
    reads buf
    requires forall i :: 0 <= i < |ranges| ==> ranges[i].start <= ranges[i].end
    ensures |windows| == |ranges| && forall i :: 0 <= i < |ranges| ==> windows[i] == Window(buf, ranges[i])
  {
    seq(|ranges|, i requires 0 <= i < |ranges| reads buf => Window(buf, ranges[i]))
  }

  lemma WindowsAreWindows(buf: Buf, ranges: seq<Range>)
    requires buf.Valid() && forall i :: 0 <= i < |ranges| ==> ranges[i].start <= ranges[i].end
    ensures AreWindows(Windows(buf, ranges), buf.View(), ranges)
  {
    hide AreWindows, Windows, IsWindow;
    forall i | 0 <= i < |ranges| ensures IsWindow(Window(buf, ranges[i]), buf.View(), ranges[i]) {
      WindowIsWindow(buf, ranges[i]);
    }
    AllAreWindows(Windows(buf, ranges), buf.View(), ranges);
  }

  lemma AllAreWindows(windows: seq<Piece>, p: Piece, ranges: seq<Range>)
    requires |windows| == |ranges| && forall i :: 0 <= i < |ranges| ==> IsWindow(windows[i], p, ranges[i])
    ensures AreWindows(windows, p, ranges)
  {
  }

  lemma ReadWithin(s: string, p: int, q: int, lo: int, hi: int)
    requires 0 <= p <= q <= |s| && 0 <= lo <= hi <= q - p
    ensures Read(s, p + lo, p + hi) == Read(s, p, q)[lo..hi]
  {
    SubSlice(s, p, q, lo, hi);
  }

  lemma WindowIsWindow(buf: Buf, r: Range)
    requires buf.Valid() && r.start <= r.end
    ensures IsWindow(Window(buf, r), buf.View(), r)
  {
    var p, w := buf.View(), Window(buf, r);
    if 0 <= r.start && r.end <= buf.Size() {
      WindowWithin(buf, r);
    }
    hide Buf.Valid, Buf.View, Window, Buf.Special, Piece.Special;
    assert w == Piece(w.data, p.hasBytes, false, false, false);
  }

  lemma WindowWithin(buf: Buf, r: Range)
    requires buf.Valid() && 0 <= r.start <= r.end <= buf.Size()
    ensures Window(buf, r).data == buf.Data()[r.start..r.end]
  {
    if buf.inMemory {
      ReadWithin(buf.mem, buf.pos, buf.last, r.start, r.end);
    } else if buf.inFile {
      ReadWithin(buf.file, buf.filePos, buf.fileLast, r.start, r.end);
    }
  }

  function TextPiece(text: string): Piece {
    Piece(text, true, false, false, false)
  }

  /** The three buffers of each range. */
  function PartsPieces(boundaryHeader: string, texts: seq<string>, windows: seq<Piece>): seq<Piece>
    requires |texts| == |windows|
  {
    if windows == [] then []
    else
      var n := |windows| - 1;
      PartsPieces(boundaryHeader, texts[..n], windows[..n])
        + [TextPiece(boundaryHeader), TextPiece(texts[n]), windows[n]]
  }

  /** The closing delimiter is made from the beginning of the boundary header. */
  function ClosingPiece(boundaryHeader: string): Piece
    requires |boundaryHeader| >= |CRLF + "--"| + ATOMIC_T_LEN
  {
    Piece(boundaryHeader[..|CRLF + "--"| + ATOMIC_T_LEN] + "--" + CRLF, true, false, true, false)
  }

  /** The chain of parts, with its closing delimiter. */
  function AllPieces(boundaryHeader: string, texts: seq<string>, windows: seq<Piece>): seq<Piece>
    requires |texts| == |windows| && |boundaryHeader| >= |CRLF + "--"| + ATOMIC_T_LEN
  {
    PartsPieces(boundaryHeader, texts, windows) + [ClosingPiece(boundaryHeader)]
  }

  /** The buffers look like `pieces`; their windows may reach out of the memory they show. */
  ghost predicate Displays(bufs: seq<Buf>, pieces: seq<Piece>)
    reads bufs
  {
    && |bufs| == |pieces|
    && forall i :: 0 <= i < |bufs| ==> bufs[i].Ordered() && bufs[i].View() == pieces[i]
  }

  ghost predicate AllValid(bufs: seq<Buf>)
    reads bufs
  {
    forall i :: 0 <= i < |bufs| ==> bufs[i].Valid()
  }

  /** ngx_alloc_chain_link and `*ll = ...`: chains a buffer behind the links so far. */
  method AppendBuf(b: Buf, out: Link?, end: Link?,
                   ghost links: seq<Link>, ghost bufs: seq<Buf>, ghost pieces: seq<Piece>)
    returns (out': Link?, end': Link, ghost links': seq<Link>)
    requires IsChain(out, links) && Distinct(links) && Carries(links, bufs) && Displays(bufs, pieces) && b.Ordered()
    requires end == if links == [] then null else links[|links| - 1]
    modifies links`next
    ensures fresh(end') && links' == links + [end']
    ensures IsChain(out', links') && Distinct(links') && Carries(links', bufs + [b])
    ensures b.Ordered() && Displays(bufs + [b], pieces + [old(b.View())])
  {
    hide *;
    DisplaysSnoc(bufs, pieces, b, b.View());
    out', end', links' := AppendLink(b, out, end, links, bufs);
  }

  method AppendLink(b: Buf, out: Link?, end: Link?, ghost links: seq<Link>, ghost bufs: seq<Buf>)
    returns (out': Link?, end': Link, ghost links': seq<Link>)
    requires IsChain(out, links) && Distinct(links) && Carries(links, bufs)
    requires end == if links == [] then null else links[|links| - 1]
    modifies links`next
    ensures fresh(end') && links' == links + [end']
    ensures IsChain(out', links') && Distinct(links') && Carries(links', bufs + [b])
  {
    end' := new Link(b);
    links' := links + [end'];
    out' := out;
    if end == null {
      out' := end';
    } else {
      end.next := end';
    }
  }

  method TextBuf(text: string) returns (b: Buf)
    ensures fresh(b) && b.Valid() && b.View() == TextPiece(text)
  {
    b := new Buf(text, 0, |text|, "", 0, 0, true, false);
  }

  /** A part of a buffer that has both memory and file shows the same in both. */
  lemma CutsAgree(buf: Buf, r: Range)
    requires buf.Valid() && 0 <= r.start <= r.end <= buf.Size()
    ensures buf.inMemory && buf.inFile ==>
      buf.mem[buf.pos + r.start..buf.pos + r.end] == buf.file[buf.filePos + r.start..buf.filePos + r.end]
  {
    if buf.inMemory && buf.inFile {
      assert |buf.mem[buf.pos..buf.last]| == |buf.file[buf.filePos..buf.fileLast]|;
      SubSlice(buf.mem, buf.pos, buf.last, r.start, r.end);
      SubSlice(buf.file, buf.filePos, buf.fileLast, r.start, r.end);
    }
  }

  /** `b` has the windows of `buf` that the range names. */
  ghost predicate IsCut(b: Buf, buf: Buf, r: Range)
    reads b, buf
  {
    && b.mem == buf.mem && b.file == buf.file && b.inMemory == buf.inMemory && b.inFile == buf.inFile
    && !b.flush && !b.lastBuf && !b.sync
    && (if buf.inMemory then b.pos == buf.pos + r.start && b.last == buf.pos + r.end else b.pos == b.last == 0)
    && (if buf.inFile then b.filePos == buf.filePos + r.start && b.fileLast == buf.filePos + r.end
        else b.filePos == b.fileLast == 0)
  }

  lemma CutDisplays(b: Buf, buf: Buf, r: Range)
    requires IsCut(b, buf, r) && r.start <= r.end
    ensures b.Ordered() && b.View() == Window(buf, r)
  {
    hide Read;
  }

  /** The windows that the range names lie inside the memory and the file that `buf` shows, and agree. */
  ghost predicate Inside(buf: Buf, r: Range)
    reads buf
    requires r.start <= r.end
  {
    && (buf.inMemory ==> 0 <= buf.pos + r.start && buf.pos + r.end <= |buf.mem|)
    && (buf.inFile ==> 0 <= buf.filePos + r.start && buf.filePos + r.end <= |buf.file|)
    && (buf.inMemory && buf.inFile ==>
          buf.mem[buf.pos + r.start..buf.pos + r.end] == buf.file[buf.filePos + r.start..buf.filePos + r.end])
  }

  lemma CutIsValid(b: Buf, buf: Buf, r: Range)
    requires IsCut(b, buf, r) && r.start <= r.end
    ensures b.Valid() <==> Inside(buf, r)
  {
  }

  /** A range that lies in a valid buffer lies in its memory. */
  lemma WithinIsInside(buf: Buf, r: Range)
    requires buf.Valid() && 0 <= r.start <= r.end <= buf.Size()
    ensures Inside(buf, r)
  {
    CutsAgree(buf, r);
    assert buf.inMemory && buf.inFile ==> |buf.mem[buf.pos..buf.last]| == |buf.file[buf.filePos..buf.fileLast]|;
  }

  /** If the memory ends with the buffer, no other range does. */
  lemma BeyondIsOutside(buf: Buf, r: Range)
    requires buf.Valid() && 0 <= r.start <= r.end && buf.inMemory && buf.last == |buf.mem|
    ensures Inside(buf, r) ==> r.end <= buf.Size()
  {
  }

  ghost predicate AllInside(buf: Buf, ranges: seq<Range>)
    reads buf
    requires forall i :: 0 <= i < |ranges| ==> ranges[i].start <= ranges[i].end
  {
    forall i :: 0 <= i < |ranges| ==> Inside(buf, ranges[i])
  }

  lemma AllWithinAreInside(buf: Buf, ranges: seq<Range>)
    requires buf.Valid() && forall i :: 0 <= i < |ranges| ==> ranges[i].start <= ranges[i].end
    ensures RangesWithin(ranges, buf.Size()) ==> AllInside(buf, ranges)
  {
    hide Inside, Buf.Valid, Buf.Size;
    if RangesWithin(ranges, buf.Size()) {
      forall i | 0 <= i < |ranges| ensures Inside(buf, ranges[i]) {
        WithinIsInside(buf, ranges[i]);
      }
    }
  }

  /** A buffer onto the part of `buf` that the range names. */
  method DataBuf(buf: Buf, r: Range) returns (b: Buf)
    requires buf.Valid() && r.start <= r.end
    ensures fresh(b) && b.Ordered() && b.View() == Window(buf, r)
    ensures b.Valid() <==> Inside(buf, r)
  {
    hide Buf.Valid, Buf.View, Buf.Ordered, Window, Inside;
    var pos, last := if buf.inMemory then buf.pos + r.start else 0, if buf.inMemory then buf.pos + r.end else 0;
    var filePos := if buf.inFile then buf.filePos + r.start else 0;
    var fileLast := if buf.inFile then buf.filePos + r.end else 0;
    b := new Buf(buf.mem, pos, last, buf.file, filePos, fileLast, buf.inMemory, buf.inFile);
    CutDisplays(b, buf, r);
    CutIsValid(b, buf, r);
  }

  lemma DisplaysSnoc(bufs: seq<Buf>, pieces: seq<Piece>, b: Buf, p: Piece)
    requires Displays(bufs, pieces) && b.Ordered() && b.View() == p
    ensures Displays(bufs + [b], pieces + [p])
  {
    hide Buf.Ordered, Buf.View;
  }

  lemma ValidSnoc(bufs: seq<Buf>, b: Buf)
    ensures AllValid(bufs + [b]) <==> AllValid(bufs) && b.Valid()
  {
    hide Buf.Valid;
    assert forall i :: 0 <= i < |bufs| ==> (bufs + [b])[i] == bufs[i];
    assert (bufs + [b])[|bufs|] == b;
  }

  lemma ValidSnocs(bufs: seq<Buf>, b: Buf, c: Buf, d: Buf)
    ensures AllValid(bufs + [b] + [c] + [d]) <==> AllValid(bufs) && b.Valid() && c.Valid() && d.Valid()
  {
    hide *;
    ValidSnoc(bufs, b);
    ValidSnoc(bufs + [b], c);
    ValidSnoc(bufs + [b] + [c], d);
  }

  /** A new buffer for a text, chained behind the rest. */
  method AppendText(text: string, out: Link?, end: Link?,
                    ghost links: seq<Link>, ghost bufs: seq<Buf>, ghost pieces: seq<Piece>)
    returns (out': Link?, end': Link, b: Buf)
    requires IsChain(out, links) && Distinct(links) && Carries(links, bufs) && Displays(bufs, pieces)
    requires end == if links == [] then null else links[|links| - 1]
    modifies links`next
    ensures fresh(end') && fresh(b) && b.Valid()
    ensures IsChain(out', links + [end']) && Distinct(links + [end']) && Carries(links + [end'], bufs + [b])
    ensures Displays(bufs + [b], pieces + [TextPiece(text)])
  {
    b := TextBuf(text);
    assert b.Ordered();
    hide *;
    ghost var links';
    out', end', links' := AppendBuf(b, out, end, links, bufs, pieces);
  }

  /** The boundary header and the range text of one range. */
  method AppendTexts(ctx: RangeContext, i: nat, out: Link?, end: Link?,
                     ghost links: seq<Link>, ghost bufs: seq<Buf>, ghost pieces: seq<Piece>)
    returns (out': Link?, end0: Link, end1: Link, header: Buf, range: Buf)
    requires i < |ctx.contentRange|
    requires IsChain(out, links) && Distinct(links) && Carries(links, bufs) && Displays(bufs, pieces)
    requires end == if links == [] then null else links[|links| - 1]
    modifies links`next
    ensures fresh(end0) && fresh(end1) && fresh(header) && fresh(range) && header.Valid() && range.Valid()
    ensures var links' := links + [end0] + [end1];
            IsChain(out', links') && Distinct(links') && Carries(links', bufs + [header] + [range])
    ensures Displays(bufs + [header] + [range],
                     pieces + [TextPiece(ctx.boundaryHeader)] + [TextPiece(ctx.contentRange[i])])
  {
    hide *;
    out', end0, header := AppendText(ctx.boundaryHeader, out, end, links, bufs, pieces);
    out', end1, range := AppendText(ctx.contentRange[i], out', end0, links + [end0], bufs + [header],
                                    pieces + [TextPiece(ctx.boundaryHeader)]);
  }

  /** A buffer for the data of one range, chained behind the rest. */
  method AppendData(buf: Buf, r: Range, out: Link?, end: Link?,
                    ghost links: seq<Link>, ghost bufs: seq<Buf>, ghost pieces: seq<Piece>)
    returns (out': Link?, end': Link, b: Buf)
    requires buf.Valid() && r.start <= r.end
    requires IsChain(out, links) && Distinct(links) && Carries(links, bufs) && Displays(bufs, pieces)
    requires end == if links == [] then null else links[|links| - 1]
    modifies links`next
    ensures fresh(end') && fresh(b) && (b.Valid() <==> old(Inside(buf, r)))
    ensures IsChain(out', links + [end']) && Distinct(links + [end']) && Carries(links + [end'], bufs + [b])
    ensures Displays(bufs + [b], pieces + [old(Window(buf, r))])
  {
    hide *;
    b := DataBuf(buf, r);
    ghost var links';
    out', end', links' := AppendBuf(b, out, end, links, bufs, pieces);
  }

  /** The boundary header, the range text and the data of one range. */
  method AppendPart(ctx: RangeContext, i: nat, buf: Buf, out: Link?, end: Link?,
                    ghost links: seq<Link>, ghost bufs: seq<Buf>, ghost pieces: seq<Piece>)
    returns (out': Link?, end': Link, ghost links': seq<Link>, ghost bufs': seq<Buf>)
    requires i < |ctx.ranges| == |ctx.contentRange|
    requires buf.Valid() && ctx.ranges[i].start <= ctx.ranges[i].end
    requires IsChain(out, links) && Distinct(links) && Carries(links, bufs) && Displays(bufs, pieces)
    requires end == if links == [] then null else links[|links| - 1]
    modifies links`next
    ensures links <= links' && bufs <= bufs' && links' != [] && end' == links'[|links'| - 1]
    ensures forall j :: |links| <= j < |links'| ==> fresh(links'[j])
    ensures forall j :: |bufs| <= j < |bufs'| ==> fresh(bufs'[j])
    ensures AllValid(bufs') <==> old(AllValid(bufs) && Inside(buf, ctx.ranges[i]))
    ensures IsChain(out', links') && Distinct(links') && Carries(links', bufs')
    ensures Displays(bufs', pieces + [TextPiece(ctx.boundaryHeader), TextPiece(ctx.contentRange[i]),
                                      old(Window(buf, ctx.ranges[i]))])
  {
    hide *;
    ghost var p0, p1 := TextPiece(ctx.boundaryHeader), TextPiece(ctx.contentRange[i]);
    ghost var p2 := Window(buf, ctx.ranges[i]);
    var end0, end1, header, range, data;
    out', end0, end1, header, range := AppendTexts(ctx, i, out, end, links, bufs, pieces);
    out', end', data := AppendData(buf, ctx.ranges[i], out', end1, links + [end0] + [end1], bufs + [header] + [range],
                                   pieces + [p0] + [p1]);
    links', bufs' := links + [end0] + [end1] + [end'], bufs + [header] + [range] + [data];
    ValidSnocs(bufs, header, range, data);
    assert pieces + [p0] + [p1] + [p2] == pieces + [p0, p1, p2];
  }

  /** The loop over the ranges. */
  method AppendParts(ctx: RangeContext, buf: Buf)
    returns (out: Link?, end: Link?, ghost links: seq<Link>, ghost bufs: seq<Buf>, ghost pieces: seq<Piece>)
    requires buf.Valid() && |ctx.contentRange| == |ctx.ranges|
    requires forall i :: 0 <= i < |ctx.ranges| ==> ctx.ranges[i].start <= ctx.ranges[i].end
    ensures forall j :: 0 <= j < |links| ==> fresh(links[j])
    ensures forall j :: 0 <= j < |bufs| ==> fresh(bufs[j])
    ensures IsChain(out, links) && Distinct(links) && Carries(links, bufs)
    ensures end == if links == [] then null else links[|links| - 1]
    ensures pieces == PartsPieces(ctx.boundaryHeader, ctx.contentRange, Windows(buf, ctx.ranges))
    ensures Displays(bufs, pieces)
    ensures AllValid(bufs) <==> AllInside(buf, ctx.ranges)
  {
    NoParts();
    hide IsChain, Distinct, Carries, Displays, AllValid, Buf.Valid, Buf.View, Buf.Ordered, Window, TextPiece, Inside;
    out, end, links, bufs, pieces := null, null, [], [], [];
    ghost var texts, windows := ctx.contentRange, Windows(buf, ctx.ranges);
    for i := 0 to |ctx.ranges|
      invariant forall j :: 0 <= j < |links| ==> fresh(links[j])
      invariant forall j :: 0 <= j < |bufs| ==> fresh(bufs[j])
      invariant AllValid(bufs) <==> AllInside(buf, ctx.ranges[..i])
      invariant IsChain(out, links) && Distinct(links) && Carries(links, bufs) && Displays(bufs, pieces)
      invariant end == if links == [] then null else links[|links| - 1]
      invariant pieces == PartsPieces(ctx.boundaryHeader, texts[..i], windows[..i])
    {
      NextPart(ctx.boundaryHeader, texts, windows, i);
      InsideSnoc(buf, ctx.ranges, i);
      out, end, links, bufs := AppendPart(ctx, i, buf, out, end, links, bufs, pieces);
      pieces := pieces + [TextPiece(ctx.boundaryHeader), TextPiece(texts[i]), windows[i]];
    }
    assert windows[..|windows|] == windows && texts[..|texts|] == texts && ctx.ranges[..|windows|] == ctx.ranges;
  }

  lemma InsideSnoc(buf: Buf, ranges: seq<Range>, i: nat)
    requires i < |ranges| && forall j :: 0 <= j < |ranges| ==> ranges[j].start <= ranges[j].end
    ensures AllInside(buf, ranges[..i + 1]) <==> AllInside(buf, ranges[..i]) && Inside(buf, ranges[i])
  {
    hide Inside;
    var all := ranges[..i + 1];
    assert all[i] == ranges[i] && forall j :: 0 <= j < i ==> all[j] == ranges[..i][j];
  }

  lemma NextPart(boundaryHeader: string, texts: seq<string>, windows: seq<Piece>, i: nat)
    requires i < |texts| == |windows|
    ensures PartsPieces(boundaryHeader, texts[..i + 1], windows[..i + 1])
         == PartsPieces(boundaryHeader, texts[..i], windows[..i])
            + [TextPiece(boundaryHeader), TextPiece(texts[i]), windows[i]]
  {
    assert windows[..i + 1][..i] == windows[..i] && texts[..i + 1][..i] == texts[..i];
  }

  /** ngx_http_range_multipart_body */
  method MultipartBody(ctx: RangeContext, buf: Buf) returns (out: Link?, ghost links: seq<Link>, ghost bufs: seq<Buf>)
    requires buf.Valid() && |ctx.contentRange| == |ctx.ranges|
    requires forall i :: 0 <= i < |ctx.ranges| ==> ctx.ranges[i].start <= ctx.ranges[i].end
    requires |ctx.boundaryHeader| >= |CRLF + "--"| + ATOMIC_T_LEN
    ensures forall j :: 0 <= j < |links| ==> fresh(links[j])
    ensures forall j :: 0 <= j < |bufs| ==> fresh(bufs[j])
    ensures IsChain(out, links) && Distinct(links) && Carries(links, bufs)
    ensures Displays(bufs, AllPieces(ctx.boundaryHeader, ctx.contentRange, Windows(buf, ctx.ranges)))
    ensures AllValid(bufs) <==> AllInside(buf, ctx.ranges)
  {
    hide IsChain, Distinct, Carries, Displays, AllValid, Buf.Valid, Buf.View, Buf.Ordered, AllInside;
    hide PartsPieces, ClosingPiece, Windows, Window;
    ghost var pieces;
    var end;
    out, end, links, bufs, pieces := AppendParts(ctx, buf);
    var b := ClosingBuf(ctx.boundaryHeader);
    out, end, links := AppendBuf(b, out, end, links, bufs, pieces);
    ValidSnoc(bufs, b);
    bufs := bufs + [b];
  }

  method ClosingBuf(boundaryHeader: string) returns (b: Buf)
    requires |boundaryHeader| >= |CRLF + "--"| + ATOMIC_T_LEN
    ensures fresh(b) && b.Valid() && b.Ordered() && b.View() == ClosingPiece(boundaryHeader)
  {
    b := TextBuf(boundaryHeader[..|CRLF + "--"| + ATOMIC_T_LEN] + "--" + CRLF);
    b.lastBuf := true;
  }

  lemma NoParts()
    ensures IsChain(null, []) && Distinct<Link>([]) && Carries([], []) && Displays([], []) && AllValid([])
  {
  }

  // ---------------------------------------------------------------- the body filter

  /** Every range lies in a buffer of `size` bytes found at the offset 0. */
  predicate RangesWithin(ranges: seq<Range>, size: int) {
    forall i :: 0 <= i < |ranges| ==> 0 <= ranges[i].start && ranges[i].end <= size
  }

  /** Which buffer ngx_http_range_test_overlapped lets through: the first one, if it carries the
      last-buffer mark or has all the ranges. */
  predicate Accepts(offset: int, p: Piece, ranges: seq<Range>) {
    offset == 0 && (p.lastBuf || RangesWithin(ranges, |p.data|))
  }

  /** ngx_http_range_test_overlapped */
  method TestOverlapped(ctx: RangeContext, buf: Buf) returns (ok: bool)
    requires buf.Valid()
    modifies ctx`offset
    ensures ok <==> Accepts(old(ctx.offset), buf.View(), ctx.ranges)
    ensures ctx.offset == if ok then |buf.View().data| else old(ctx.offset)
  {
    if ctx.offset != 0 {
      return false;
    }
    if !buf.lastBuf {
      var start, last := ctx.offset, ctx.offset + buf.Size();
      for i := 0 to |ctx.ranges|
        invariant ctx.offset == 0 && RangesWithin(ctx.ranges[..i], last)
      {
        if start > ctx.ranges[i].start || last < ctx.ranges[i].end {
          return false;
        }
      }
      assert ctx.ranges[..|ctx.ranges|] == ctx.ranges;
    }
    ctx.offset := buf.Size();
    ok := true;
  }

  datatype Handled = PassedOn | Failed | Replaced

  /** What a call is given: the pieces of its chain, and what the first buffer shows at the ranges. */
  datatype Call = Call(pieces: seq<Piece>, windows: seq<Piece>)

  predicate IsCall(call: Call, ranges: seq<Range>) {
    && call.pieces != [] && AreWindows(call.windows, call.pieces[0], ranges)
    && (call.pieces[0].hasBytes || call.pieces[0].data == "")
  }

  /** What a call does: how the chain was handled, the new offset and what is handed on. */
  datatype Answer = Answer(handled: Handled, offset: int, emitted: seq<Piece>)

  /** One call of the body filter for more than one range. */
  function Handle(offset: int, call: Call, boundaryHeader: string, texts: seq<string>, ranges: seq<Range>): Answer
    requires call.pieces != [] && |texts| == |call.windows| && |boundaryHeader| >= |CRLF + "--"| + ATOMIC_T_LEN
  {
    var first := call.pieces[0];
    if first.Special() then Answer(PassedOn, offset, call.pieces)
    else if Accepts(offset, first, ranges) then
      Answer(Replaced, |first.data|, AllPieces(boundaryHeader, texts, call.windows))
    else Answer(Failed, offset, [])
  }

  /** ngx_http_range_body_filter for more than one range.  `links0` and `bufs0` are the chain passed in,
      and `pieces` what it shows. */
  method MultipartFilter(ctx: RangeContext, chain: Link, ghost links0: seq<Link>, ghost bufs0: seq<Buf>,
                         ghost pieces: seq<Piece>)
    returns (handled: Handled, out: Link?, ghost links: seq<Link>, ghost bufs: seq<Buf>)
    requires IsChain(chain, links0) && Distinct(links0) && Carries(links0, bufs0) && Shows(bufs0, pieces)
    requires |ctx.contentRange| == |ctx.ranges| && |ctx.boundaryHeader| >= |CRLF + "--"| + ATOMIC_T_LEN
    requires forall i :: 0 <= i < |ctx.ranges| ==> ctx.ranges[i].start <= ctx.ranges[i].end
    modifies ctx`offset
    ensures pieces != [] && IsCall(Call(pieces, Windows(chain.buf, ctx.ranges)), ctx.ranges)
    ensures var answer := Handle(old(ctx.offset), Call(pieces, Windows(chain.buf, ctx.ranges)),
                                 ctx.boundaryHeader, ctx.contentRange, ctx.ranges);
            handled == answer.handled && ctx.offset == answer.offset && Displays(bufs, answer.emitted)
    ensures IsChain(out, links) && Distinct(links) && Carries(links, bufs)
    ensures handled == PassedOn ==> out == chain && links == links0 && bufs == bufs0
    ensures handled == Replaced ==> forall j :: 0 <= j < |links| ==> fresh(links[j]) && fresh(links[j].buf)
    ensures handled == Replaced ==> (AllValid(bufs) <==> AllInside(chain.buf, ctx.ranges))
    ensures handled == Replaced && RangesWithin(ctx.ranges, |pieces[0].data|) ==> AllValid(bufs)
  {
    FirstOfChain(chain, links0, bufs0, pieces);
    WindowsAreWindows(chain.buf, ctx.ranges);
    NoParts();
    AllWithinAreInside(chain.buf, ctx.ranges);
    hide Shows, Displays, IsChain, AllPieces, Windows, AreWindows, RangesWithin, AllInside, AllValid;
    handled, out, links, bufs := PassedOn, chain, links0, bufs0;
    if chain.buf.Special() {
      return;
    }
    var ok := TestOverlapped(ctx, chain.buf);
    if !ok {
      return Failed, null, [], [];
    }
    handled := Replaced;
    out, links, bufs := MultipartBody(ctx, chain.buf);
  }

  lemma FirstOfChain(chain: Link, links: seq<Link>, bufs: seq<Buf>, pieces: seq<Piece>)
    requires IsChain(chain, links) && Carries(links, bufs) && Shows(bufs, pieces)
    ensures pieces != [] && chain.buf.Valid() && chain.buf.View() == pieces[0] && Displays(bufs, pieces)
    ensures pieces[0].hasBytes || pieces[0].data == ""
  {
    assert links[0] == chain && bufs[0].Valid();
  }

  /** An input: a buffer of two bytes, marked as the last, is let through for a range that ends at three, and
      the window onto that range reaches out of the memory. */
  method ShortBuffer() returns (buf: Buf)
    ensures buf.Valid() && !buf.Special()
    ensures Accepts(0, buf.View(), [Range(0, 1), Range(1, 3)]) && !AllInside(buf, [Range(0, 1), Range(1, 3)])
  {
    buf := new Buf("ab", 0, 2, "", 0, 0, true, false);
    buf.lastBuf := true;
    assert !Inside(buf, [Range(0, 1), Range(1, 3)][1]);
  }
}
