/** What the multipart filter promises of a whole response: the chain of parts is the message the
    format calls for, the announced length is the length of what comes out, and how often the message
    can come out. */
module RangeMultipartRun {
  import opened RangeTypes
  import opened RangeBuffers
  import opened RangeMultipart

  lemma DataOfThree(a: seq<Piece>, p: Piece, q: Piece, r: Piece)
    ensures DataOf(a + [p, q, r]) == DataOf(a) + p.data + q.data + r.data
  {
    hide DataOf;
    assert a + [p, q, r] == a + [p] + [q] + [r];
    DataOfSnoc(a, p);
    DataOfSnoc(a + [p], q);
    DataOfSnoc(a + [p] + [q], r);
  }

  lemma NoPieces()
    ensures DataOf([]) == ""
  {
  }

  // ---------------------------------------------------------------- the bytes of the message

  lemma {:induction false} PartsAreMessage(number: nat, typeLine: string, p: Piece, windows: seq<Piece>,
                                           ranges: seq<Range>, total: nat)
    requires number < SIZE_T && InBounds(ranges, |p.data|) && |p.data| <= total && AreWindows(windows, p, ranges)
    ensures DataOf(PartsPieces(PartHeader(number, typeLine), RangeTexts(ranges, total), windows))
         == MessageParts(number, typeLine, ranges, total, p.data)
    decreases |ranges|
  {
    hide PartHeader, RangeText, DataOf;
    if ranges == [] {
      NoPieces();
    } else {
      var n := |ranges| - 1;
      var header, texts := PartHeader(number, typeLine), RangeTexts(ranges, total);
      assert texts[..n] == RangeTexts(ranges[..n], total);
      PartsAreMessage(number, typeLine, p, windows[..n], ranges[..n], total);
      DataOfThree(PartsPieces(header, texts[..n], windows[..n]), TextPiece(header), TextPiece(texts[n]), windows[n]);
      assert IsWindow(windows[n], p, ranges[n]);
    }
  }

  lemma ClosingIsDelimiter(number: nat, typeLine: string)
    requires number < SIZE_T
    ensures |PartHeader(number, typeLine)| >= |CRLF + "--"| + ATOMIC_T_LEN
    ensures ClosingPiece(PartHeader(number, typeLine)).data == Delimiter(number) + "--" + CRLF
  {
    BoundaryLength(number);
    var h := PartHeader(number, typeLine);
    assert h == Delimiter(number) + (CRLF + typeLine + "Content-Range: bytes ");
    assert h[..|CRLF + "--"| + ATOMIC_T_LEN] == Delimiter(number);
  }

  /** The chain of parts shows exactly the multipart message, if the ranges lie in the buffer. */
  lemma ChainIsMessage(number: nat, typeLine: string, p: Piece, windows: seq<Piece>, ranges: seq<Range>, total: nat)
    requires number < SIZE_T && InBounds(ranges, |p.data|) && |p.data| <= total && AreWindows(windows, p, ranges)
    ensures |PartHeader(number, typeLine)| >= |CRLF + "--"| + ATOMIC_T_LEN
    ensures DataOf(AllPieces(PartHeader(number, typeLine), RangeTexts(ranges, total), windows))
         == Message(number, typeLine, ranges, total, p.data)
    ensures IsMultipart(Message(number, typeLine, ranges, total, p.data), number, typeLine, ranges, total, p.data)
  {
    hide PartHeader, RangeText, DataOf, ClosingPiece, MessageParts, PartsPieces, IsWindow, IsMultipart;
    MessageIsMultipart(number, typeLine, ranges, total, p.data);
    var header, texts := PartHeader(number, typeLine), RangeTexts(ranges, total);
    ClosingIsDelimiter(number, typeLine);
    PartsAreMessage(number, typeLine, p, windows, ranges, total);
    DataOfSnoc(PartsPieces(header, texts, windows), ClosingPiece(header));
    assert MessageParts(number, typeLine, ranges, total, p.data) + (Delimiter(number) + "--" + CRLF)
        == Message(number, typeLine, ranges, total, p.data);
  }

  // ---------------------------------------------------------------- the message, read from the front

  /** The parts from the i-th on, and the end of the message: what `text` has to be, given the texts that
      stand behind "Content-Range: bytes ". */
  function PartsFrom(b: string, typeLine: string, texts: seq<string>, ranges: seq<Range>, data: string, i: nat): string
    requires InBounds(ranges, |data|) && |texts| == |ranges| && i <= |ranges|
    decreases |ranges| - i
  {
    if i == |ranges| then "\r\n--" + b + "--\r\n"
    else
      "\r\n--" + b + "\r\n" + typeLine + "Content-Range: bytes " + texts[i] + data[ranges[i].start..ranges[i].end]
        + PartsFrom(b, typeLine, texts, ranges, data, i + 1)
  }

  /** A multipart/byteranges body: every part names the positions of its range and the size of the whole, and
      holds its bytes. */
  ghost predicate IsMultipart(text: string, number: nat, typeLine: string, ranges: seq<Range>, total: nat, data: string)
    requires InBounds(ranges, |data|)
  {
    exists b, texts: seq<string> ::
      && IsBoundary(b, number) && AreTexts(texts, ranges, total)
      && text == PartsFrom(b, typeLine, texts, ranges, data, 0)
  }

  ghost predicate AreTexts(texts: seq<string>, ranges: seq<Range>, total: nat)
    requires forall i :: 0 <= i < |ranges| ==> 0 <= ranges[i].start < ranges[i].end
  {
    |texts| == |ranges| && forall i :: 0 <= i < |ranges| ==> ReadsAs(texts[i], ranges[i], total)
  }

  lemma MessagePartsNext(number: nat, typeLine: string, ranges: seq<Range>, total: nat, data: string, i: nat)
    requires number < SIZE_T && InBounds(ranges, |data|) && i < |ranges|
    ensures MessageParts(number, typeLine, ranges[..i + 1], total, data)
         == MessageParts(number, typeLine, ranges[..i], total, data)
              + PartHeader(number, typeLine) + RangeText(ranges[i], total) + data[ranges[i].start..ranges[i].end]
  {
    hide PartHeader, RangeText;
    assert ranges[..i + 1][..i] == ranges[..i];
  }

  lemma {:induction false} MessageFrom(number: nat, typeLine: string, ranges: seq<Range>, total: nat, data: string,
                                      i: nat)
    requires number < SIZE_T && InBounds(ranges, |data|) && |data| <= total && i <= |ranges|
    ensures Message(number, typeLine, ranges, total, data)
         == MessageParts(number, typeLine, ranges[..i], total, data)
              + PartsFrom(Boundary(number), typeLine, RangeTexts(ranges, total), ranges, data, i)
    decreases |ranges| - i
  {
    hide PartHeader, RangeText, Boundary, MessageParts, Delimiter, IsBoundary;
    PartHeaderReads(number, typeLine);
    if i == |ranges| {
      assert ranges[..i] == ranges;
      assert "--" + "\r\n" == "--\r\n";
    } else {
      MessageFrom(number, typeLine, ranges, total, data, i + 1);
      MessagePartsNext(number, typeLine, ranges, total, data, i);
    }
  }

  /** `Message` is a multipart/byteranges body. */
  lemma MessageIsMultipart(number: nat, typeLine: string, ranges: seq<Range>, total: nat, data: string)
    requires number < SIZE_T && InBounds(ranges, |data|) && |data| <= total
    ensures IsMultipart(Message(number, typeLine, ranges, total, data), number, typeLine, ranges, total, data)
  {
    hide Message, PartsFrom, Boundary, IsBoundary, ReadsAs;
    MessageFrom(number, typeLine, ranges, total, data, 0);
    NoMessageParts(number, typeLine, total, data);
    BoundaryReads(number);
    TextsRead(ranges, total);
    assert ranges[..0] == [];
    assert AreTexts(RangeTexts(ranges, total), ranges, total);
  }

  lemma NoMessageParts(number: nat, typeLine: string, total: nat, data: string)
    requires number < SIZE_T
    ensures MessageParts(number, typeLine, [], total, data) == ""
  {
  }

  /** The chain of parts carries one mark, the last-buffer mark on its last buffer. */
  lemma MarkedAtEnd(boundaryHeader: string, texts: seq<string>, windows: seq<Piece>, p: Piece, ranges: seq<Range>)
    requires |texts| == |ranges| && AreWindows(windows, p, ranges) && |boundaryHeader| >= |CRLF + "--"| + ATOMIC_T_LEN
    ensures var all := AllPieces(boundaryHeader, texts, windows);
            && |all| == 3 * |ranges| + 1
            && forall i :: 0 <= i < |all| ==> !all[i].flush && !all[i].sync && (all[i].lastBuf <==> i == |all| - 1)
  {
    PartsUnmarked(boundaryHeader, texts, windows, p, ranges);
  }

  lemma {:induction false} PartsUnmarked(boundaryHeader: string, texts: seq<string>, windows: seq<Piece>, p: Piece,
                                         ranges: seq<Range>)
    requires |texts| == |ranges| && AreWindows(windows, p, ranges)
    ensures var parts := PartsPieces(boundaryHeader, texts, windows);
            && |parts| == 3 * |ranges|
            && forall i :: 0 <= i < |parts| ==> !parts[i].flush && !parts[i].sync && !parts[i].lastBuf
    decreases |ranges|
  {
    if ranges != [] {
      var n := |ranges| - 1;
      PartsUnmarked(boundaryHeader, texts[..n], windows[..n], p, ranges[..n]);
      assert IsWindow(windows[n], p, ranges[n]);
    }
  }

  /** Every window has as many bytes as its range. */
  predicate Measured(windows: seq<Piece>, ranges: seq<Range>) {
    |windows| == |ranges| && forall i :: 0 <= i < |ranges| ==> |windows[i].data| == Length(ranges[i])
  }

  /** The length the header filter adds up is the length of the chain, whatever the fixed texts. */
  lemma {:induction false} LengthIsConserved(boundaryHeader: string, texts: seq<string>, windows: seq<Piece>,
                                             ranges: seq<Range>)
    requires |texts| == |ranges| && Measured(windows, ranges)
    requires |boundaryHeader| >= |CRLF + "--"| + ATOMIC_T_LEN
    ensures MessageLength(boundaryHeader, texts, ranges) == |DataOf(AllPieces(boundaryHeader, texts, windows))|
    decreases |ranges|
  {
    hide DataOf;
    NoPieces();
    var closing := ClosingPiece(boundaryHeader);
    DataOfSnoc(PartsPieces(boundaryHeader, texts, windows), closing);
    if ranges != [] {
      var n := |ranges| - 1;
      var front := PartsPieces(boundaryHeader, texts[..n], windows[..n]);
      LengthIsConserved(boundaryHeader, texts[..n], windows[..n], ranges[..n]);
      DataOfSnoc(front, closing);
      DataOfThree(front, TextPiece(boundaryHeader), TextPiece(texts[n]), windows[n]);
    }
  }

  /** The Content-Length announced is the length of the chain exactly when that length is an off_t. */
  lemma AnnouncedExactly(boundaryHeader: string, texts: seq<string>, windows: seq<Piece>, ranges: seq<Range>)
    requires |texts| == |ranges| && Measured(windows, ranges)
    requires |boundaryHeader| >= |CRLF + "--"| + ATOMIC_T_LEN
    ensures var emitted := |DataOf(AllPieces(boundaryHeader, texts, windows))|;
            ToOffT(MessageLength(boundaryHeader, texts, ranges) % SIZE_T) == emitted <==> emitted <= MAX_OFF_T
  {
    hide AllPieces, MessageLength, DataOf, ToOffT;
    LengthIsConserved(boundaryHeader, texts, windows, ranges);
    StoredExactly(MessageLength(boundaryHeader, texts, ranges));
  }

  lemma StoredExactly(n: nat)
    ensures ToOffT(n % SIZE_T) == n <==> n <= MAX_OFF_T
  {
  }

  // ---------------------------------------------------------------- which buffers are accepted

  /** Where the last of the ranges ends. */
  function Reach(ranges: seq<Range>): (n: nat)
    ensures forall i :: 0 <= i < |ranges| ==> ranges[i].end <= n
    ensures n == 0 || exists i :: 0 <= i < |ranges| && ranges[i].end == n
  {
    if ranges == [] then 0
    else
      var last, n := ranges[|ranges| - 1].end, Reach(ranges[..|ranges| - 1]);
      if last > n then last else n
  }

  /** An accepted buffer has all the ranges exactly if it is unmarked or reaches as far as they do; the whole
      body always does. */
  lemma AcceptedHasRanges(offset: int, p: Piece, ranges: seq<Range>, contentLength: nat)
    requires Accepts(offset, p, ranges) && InBounds(ranges, contentLength)
    ensures InBounds(ranges, |p.data|) <==> !p.lastBuf || Reach(ranges) <= |p.data|
    ensures |p.data| == contentLength ==> InBounds(ranges, |p.data|)
  {
  }

  /** The windows of an accepted buffer have the sizes of their ranges in any case. */
  lemma AcceptedIsMeasured(offset: int, call: Call, ranges: seq<Range>)
    requires IsCall(call, ranges) && ranges != []
    requires forall i :: 0 <= i < |ranges| ==> 0 <= ranges[i].start < ranges[i].end
    requires !call.pieces[0].Special() && Accepts(offset, call.pieces[0], ranges)
    ensures Measured(call.windows, ranges)
  {
    assert ranges[0].end > 0;
    assert forall i :: 0 <= i < |ranges| ==> IsWindow(call.windows[i], call.pieces[0], ranges[i]);
  }

  // ---------------------------------------------------------------- runs

  /** A run of the body filter: what it has handed on, its offset, how often it has replaced a chain by
      the message, and how many bytes it has passed on untouched.  A call that fails hands on nothing and
      leaves the offset; the next is handled like any other. */
  datatype RunState = RunState(emitted: seq<Piece>, offset: int, messages: nat, passed: nat)

  function StepRun(st: RunState, call: Call, boundaryHeader: string, texts: seq<string>, ranges: seq<Range>): RunState
    requires IsCall(call, ranges) && |texts| == |ranges| && |boundaryHeader| >= |CRLF + "--"| + ATOMIC_T_LEN
  {
    var answer := Handle(st.offset, call, boundaryHeader, texts, ranges);
    var replaced, untouched := answer.handled == Replaced, answer.handled == PassedOn;
    RunState(st.emitted + answer.emitted, answer.offset,
             st.messages + (if replaced then 1 else 0),
             st.passed + (if untouched then |DataOf(call.pieces)| else 0))
  }

  function Run(calls: seq<Call>, offset: int, boundaryHeader: string, texts: seq<string>, ranges: seq<Range>): RunState
    requires |texts| == |ranges| && |boundaryHeader| >= |CRLF + "--"| + ATOMIC_T_LEN
    requires forall i :: 0 <= i < |calls| ==> IsCall(calls[i], ranges)
  {
    if calls == [] then RunState([], offset, 0, 0)
    else StepRun(Run(calls[..|calls| - 1], offset, boundaryHeader, texts, ranges), calls[|calls| - 1],
                 boundaryHeader, texts, ranges)
  }

  // ---------------------------------------------------------------- which call hands on what

  /** The call starts with a buffer that is let through if none with data has been. */
  predicate Takes(call: Call, ranges: seq<Range>) {
    call.pieces != [] && !call.pieces[0].Special() && Accepts(0, call.pieces[0], ranges)
  }

  /** No buffer with data has been let through. */
  predicate NoneTaken(calls: seq<Call>, ranges: seq<Range>) {
    forall i :: 0 <= i < |calls| && Takes(calls[i], ranges) ==> calls[i].pieces[0].data == ""
  }

  /** What a call hands on that comes after the calls `before`: its own chain if that starts with a special
      buffer, the message if it is let through, else nothing. */
  function HandedOn(before: seq<Call>, offset: int, call: Call, boundaryHeader: string, texts: seq<string>,
                    ranges: seq<Range>): seq<Piece>
    requires IsCall(call, ranges) && |texts| == |ranges| && |boundaryHeader| >= |CRLF + "--"| + ATOMIC_T_LEN
  {
    if call.pieces[0].Special() then call.pieces
    else if offset == 0 && Takes(call, ranges) && NoneTaken(before, ranges) then
      AllPieces(boundaryHeader, texts, call.windows)
    else []
  }

  /** What all calls hand on, one after the other. */
  function AllHandedOn(calls: seq<Call>, offset: int, boundaryHeader: string, texts: seq<string>, ranges: seq<Range>)
    : seq<Piece>
    requires |texts| == |ranges| && |boundaryHeader| >= |CRLF + "--"| + ATOMIC_T_LEN
    requires forall i :: 0 <= i < |calls| ==> IsCall(calls[i], ranges)
  {
    if calls == [] then []
    else
      var before := calls[..|calls| - 1];
      AllHandedOn(before, offset, boundaryHeader, texts, ranges)
        + HandedOn(before, offset, calls[|calls| - 1], boundaryHeader, texts, ranges)
  }

  /** Over any run, from any offset, exactly this is handed on, piece by piece; and the offset says whether
      a buffer with data has been let through. */
  lemma {:induction false} RunHandsOn(calls: seq<Call>, offset: int, boundaryHeader: string, texts: seq<string>,
                                      ranges: seq<Range>)
    requires |texts| == |ranges| && |boundaryHeader| >= |CRLF + "--"| + ATOMIC_T_LEN
    requires forall i :: 0 <= i < |calls| ==> IsCall(calls[i], ranges)
    ensures var st := Run(calls, offset, boundaryHeader, texts, ranges);
            && st.emitted == AllHandedOn(calls, offset, boundaryHeader, texts, ranges)
            && (st.offset == 0 <==> offset == 0 && NoneTaken(calls, ranges))
    decreases |calls|
  {
    hide DataOf, AllPieces, IsCall, HandedOn, StepRun, Takes;
    if calls != [] {
      var before, call := calls[..|calls| - 1], calls[|calls| - 1];
      RunHandsOn(before, offset, boundaryHeader, texts, ranges);
      NoneTakenSnoc(before, call, ranges);
      assert calls == before + [call];
      var st := Run(before, offset, boundaryHeader, texts, ranges);
      StepHandsOn(st, before, offset, call, boundaryHeader, texts, ranges);
    }
  }

  lemma NoneTakenSnoc(before: seq<Call>, call: Call, ranges: seq<Range>)
    ensures NoneTaken(before + [call], ranges) <==>
      NoneTaken(before, ranges) && (Takes(call, ranges) ==> call.pieces[0].data == "")
  {
    hide Takes;
    var all := before + [call];
    assert all[|before|] == call && forall i :: 0 <= i < |before| ==> before[i] == all[i];
  }

  lemma StepHandsOn(st: RunState, before: seq<Call>, offset: int, call: Call, boundaryHeader: string,
                    texts: seq<string>, ranges: seq<Range>)
    requires |texts| == |ranges| && |boundaryHeader| >= |CRLF + "--"| + ATOMIC_T_LEN && IsCall(call, ranges)
    requires st.offset == 0 <==> offset == 0 && NoneTaken(before, ranges)
    ensures var st' := StepRun(st, call, boundaryHeader, texts, ranges);
            && st'.emitted == st.emitted + HandedOn(before, offset, call, boundaryHeader, texts, ranges)
            && (st'.offset == 0 <==> st.offset == 0 && (Takes(call, ranges) ==> call.pieces[0].data == ""))
            && st'.messages == st.messages + if st.offset == 0 && Takes(call, ranges) then 1 else 0
  {
    hide DataOf, AllPieces, AreWindows, RangesWithin, NoneTaken;
  }

  // ---------------------------------------------------------------- how often the message is handed on

  predicate SomeTakes(calls: seq<Call>, ranges: seq<Range>) {
    exists i :: 0 <= i < |calls| && Takes(calls[i], ranges)
  }

  /** The call is let through, after others, which all started with an empty buffer. */
  predicate TakenAgain(calls: seq<Call>, ranges: seq<Range>, j: int) {
    0 <= j < |calls| && Takes(calls[j], ranges) && SomeTakes(calls[..j], ranges) && NoneTaken(calls[..j], ranges)
  }

  lemma SomeTakesSnoc(before: seq<Call>, call: Call, ranges: seq<Range>)
    ensures SomeTakes(before + [call], ranges) <==> SomeTakes(before, ranges) || Takes(call, ranges)
  {
    hide Takes;
    var all := before + [call];
    assert all[|before|] == call && forall i :: 0 <= i < |before| ==> before[i] == all[i];
  }

  lemma TakenAgainSnoc(before: seq<Call>, call: Call, ranges: seq<Range>)
    ensures (exists j :: TakenAgain(before + [call], ranges, j)) <==>
      || (exists j :: TakenAgain(before, ranges, j))
      || (Takes(call, ranges) && SomeTakes(before, ranges) && NoneTaken(before, ranges))
  {
    hide Takes, SomeTakes, NoneTaken;
    var all := before + [call];
    assert all[..|before|] == before && all[|before|] == call;
    forall j | 0 <= j < |before| ensures TakenAgain(all, ranges, j) <==> TakenAgain(before, ranges, j) {
      assert all[..j] == before[..j];
    }
    if Takes(call, ranges) && SomeTakes(before, ranges) && NoneTaken(before, ranges) {
      assert TakenAgain(all, ranges, |before|);
    }
  }

  /** The message is handed on at most once if and only if the run does not start at offset 0, or no call
      is let through after others that all started with an empty buffer. */
  lemma {:induction false} AtMostOnceIff(calls: seq<Call>, offset: int, boundaryHeader: string, texts: seq<string>,
                                         ranges: seq<Range>)
    requires |texts| == |ranges| && |boundaryHeader| >= |CRLF + "--"| + ATOMIC_T_LEN
    requires forall i :: 0 <= i < |calls| ==> IsCall(calls[i], ranges)
    ensures var messages := Run(calls, offset, boundaryHeader, texts, ranges).messages;
            && (messages <= 1 <==> offset != 0 || !exists j :: TakenAgain(calls, ranges, j))
            && (messages == 0 <==> offset != 0 || !SomeTakes(calls, ranges))
    decreases |calls|
  {
    hide DataOf, IsCall, StepRun, Takes, SomeTakes, NoneTaken, TakenAgain, AllHandedOn;
    if calls == [] {
      NoCalls(ranges);
    } else {
      var before, call := calls[..|calls| - 1], calls[|calls| - 1];
      var st := Run(before, offset, boundaryHeader, texts, ranges);
      AtMostOnceIff(before, offset, boundaryHeader, texts, ranges);
      RunHandsOn(before, offset, boundaryHeader, texts, ranges);
      StepHandsOn(st, before, offset, call, boundaryHeader, texts, ranges);
      assert calls == before + [call];
      SomeTakesSnoc(before, call, ranges);
      TakenAgainSnoc(before, call, ranges);
      NoTakers(before, ranges);
    }
  }

  lemma NoTakers(calls: seq<Call>, ranges: seq<Range>)
    ensures !SomeTakes(calls, ranges) ==> NoneTaken(calls, ranges)
  {
    hide Takes;
  }

  lemma NoCalls(ranges: seq<Range>)
    ensures !SomeTakes([], ranges) && forall j :: !TakenAgain([], ranges, j)
  {
  }

  /** An input: two calls that start with an empty buffer marked as the last. */
  lemma EmptyRepeats(call: Call, boundaryHeader: string, texts: seq<string>, ranges: seq<Range>)
    requires |texts| == |ranges| && |boundaryHeader| >= |CRLF + "--"| + ATOMIC_T_LEN && IsCall(call, ranges)
    requires var p := call.pieces[0]; p.hasBytes && p.lastBuf && p.data == ""
    ensures Run([call, call], 0, boundaryHeader, texts, ranges).messages == 2
    ensures Run([call], 0, boundaryHeader, texts, ranges).messages == 1
  {
    hide DataOf, AllPieces;
    assert [call, call][..1] == [call] && [call][..0] == [];
    assert Run([call], 0, boundaryHeader, texts, ranges).messages == 1;
  }

  // ---------------------------------------------------------------- how many bytes that is

  /** Every byte handed on is counted: those of the messages by the announced length, and those of chains
      passed on untouched. */
  lemma {:induction false} RunConserves(calls: seq<Call>, offset: int, boundaryHeader: string, texts: seq<string>,
                                        ranges: seq<Range>)
    requires ranges != [] && |texts| == |ranges| && |boundaryHeader| >= |CRLF + "--"| + ATOMIC_T_LEN
    requires forall i :: 0 <= i < |calls| ==> IsCall(calls[i], ranges)
    requires forall i :: 0 <= i < |ranges| ==> 0 <= ranges[i].start < ranges[i].end
    ensures var st := Run(calls, offset, boundaryHeader, texts, ranges);
            |DataOf(st.emitted)| == st.messages * MessageLength(boundaryHeader, texts, ranges) + st.passed
    decreases |calls|
  {
    hide DataOf, MessageLength, IsCall, StepRun;
    var length := MessageLength(boundaryHeader, texts, ranges);
    if calls == [] {
      NoPieces();
    } else {
      var call := calls[|calls| - 1];
      var st := Run(calls[..|calls| - 1], offset, boundaryHeader, texts, ranges);
      RunConserves(calls[..|calls| - 1], offset, boundaryHeader, texts, ranges);
      StepConserves(st, call, boundaryHeader, texts, ranges);
      OneMore(st.messages, length);
    }
  }

  lemma OneMore(n: nat, length: nat)
    ensures (n + 1) * length == n * length + length
  {
  }

  lemma StepConserves(st: RunState, call: Call, boundaryHeader: string, texts: seq<string>, ranges: seq<Range>)
    requires ranges != [] && |texts| == |ranges| && |boundaryHeader| >= |CRLF + "--"| + ATOMIC_T_LEN
    requires IsCall(call, ranges) && forall i :: 0 <= i < |ranges| ==> 0 <= ranges[i].start < ranges[i].end
    ensures var st' := StepRun(st, call, boundaryHeader, texts, ranges);
            var length := MessageLength(boundaryHeader, texts, ranges);
            var more := |DataOf(st'.emitted)| - |DataOf(st.emitted)|;
            if st'.messages == st.messages then more == st'.passed - st.passed
            else more == length && st'.passed == st.passed && st'.messages == st.messages + 1
  {
    hide DataOf, MessageLength, AllPieces, IsWindow;
    var answer := Handle(st.offset, call, boundaryHeader, texts, ranges);
    DataOfConcat(st.emitted, answer.emitted);
    NoPieces();
    if answer.handled == Replaced {
      AcceptedIsMeasured(st.offset, call, ranges);
      LengthIsConserved(boundaryHeader, texts, call.windows, ranges);
    }
  }
}
