/** From a Range header to the body of the response: the parser, the header filter and the body filters put
    together. */
module RangeResponse {
  import opened CStrings
  import opened RangeTypes
  import opened RangeBuffers
  import opened RangeParse
  import opened RangeGrammar
  import S = RangeSinglepart
  import SR = RangeSinglepartRun
  import opened RangeMultipart
  import opened RangeMultipartRun

  /** The ranges that a header is answered with. */
  function Served(header: CString, contentLength: nat, limit: nat): (Status, seq<Range>)
    requires |header| >= 6
  {
    ParseFrom(header, 6, contentLength, [], 0, limit)
  }

  /** A header that is answered OK with one range: however the body is cut into buffers and the buffers into
      calls, the response is that range of the body, which is not empty and lies in it. */
  lemma OneRangeResponse(header: CString, body: string, limit: nat, r: Range, calls: seq<seq<Piece>>)
    requires |header| >= 7 && |body| <= MAX_OFF_T && Served(header, |body|, limit) == (Status.Ok, [r])
    requires (forall i :: 0 <= i < |calls| ==> SR.AllProper(calls[i])) && DataOf(SR.Flatten(calls)) == body
    ensures 0 <= r.start < r.end <= |body|
    ensures DataOf(SR.Run(calls, 0, r).0) == body[r.start..r.end]
  {
    hide ParseFrom, DataOf, SR.Flatten, SR.Run;
    ServedInBounds(header, |body|, limit);
    assert InBounds([r], |body|) && [r][0] == r;
    SR.RunEmitsRange(calls, 0, body, r);
  }

  /** A header that is answered OK with any ranges, and a body that comes in one buffer: the call that
      brings the buffer is answered with the multipart message of these ranges, byte for byte, and the
      length announced beforehand is its length, if that is an off_t. */
  lemma MultipartResponse(header: CString, body: string, limit: nat, number: nat, contentType: string,
                          contentTypeLen: nat, charset: string, call: Call)
    requires |header| >= 7 && |body| <= MAX_OFF_T && Served(header, |body|, limit).0 == Status.Ok && number < SIZE_T
    requires IsCall(call, Served(header, |body|, limit).1) && call.pieces[0].data == body
    ensures var ranges := Served(header, |body|, limit).1;
            && InBounds(ranges, |body|) && ranges != []
            && var typeLine := TypeLine(contentType, contentTypeLen, charset);
            var start, texts := PartHeader(number, typeLine), RangeTexts(ranges, |body|);
            && |start| >= |CRLF + "--"| + ATOMIC_T_LEN
            && var answer := Handle(0, call, start, texts, ranges);
            var message := Message(number, typeLine, ranges, |body|, body);
            && answer.handled == Replaced && DataOf(answer.emitted) == message
            && IsMultipart(message, number, typeLine, ranges, |body|, body)
            && (ToOffT(MessageLength(start, texts, ranges) % SIZE_T) == |message| <==> |message| <= MAX_OFF_T)
  {
    hide ParseFrom, DataOf, PartHeader, RangeText, TypeLine, MessageLength, AllPieces, AreWindows, ToOffT, Message;
    hide IsMultipart;
    var ranges := Served(header, |body|, limit).1;
    ServedInBounds(header, |body|, limit);
    BodyIsAccepted(call, ranges, body);
    var typeLine := TypeLine(contentType, contentTypeLen, charset);
    var start, texts := PartHeader(number, typeLine), RangeTexts(ranges, |body|);
    ChainIsMessage(number, typeLine, call.pieces[0], call.windows, ranges, |body|);
    AcceptedIsMeasured(0, call, ranges);
    AnnouncedExactly(start, texts, call.windows, ranges);
  }

  lemma BodyIsAccepted(call: Call, ranges: seq<Range>, body: string)
    requires IsCall(call, ranges) && call.pieces[0].data == body && InBounds(ranges, |body|) && ranges != []
    ensures !call.pieces[0].Special() && Accepts(0, call.pieces[0], ranges)
  {
    assert ranges[0].end > 0;
  }
}
