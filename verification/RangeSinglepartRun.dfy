/** Whole runs of the single-range body filter: however the body is cut into buffers and the buffers
    into calls, exactly the bytes of the range come out, in order, and the filter marks exactly the
    buffer in which the range ends as the last. */
module RangeSinglepartRun {
  import opened RangeTypes
  import opened RangeBuffers
  import opened RangeSinglepart

  /** A piece without a place for data shows none. */
  predicate AllProper(pieces: seq<Piece>) {
    forall i :: 0 <= i < |pieces| ==> pieces[i].hasBytes || pieces[i].data == ""
  }

  function Flatten(calls: seq<seq<Piece>>): seq<Piece> {
    if calls == [] then [] else Flatten(calls[..|calls| - 1]) + calls[|calls| - 1]
  }

  /** What a run of calls hands on in all, and the offset it ends with. */
  function Run(calls: seq<seq<Piece>>, offset: int, r: Range): (seq<Piece>, int) {
    if calls == [] then ([], offset)
    else
      var (out, o) := Run(calls[..|calls| - 1], offset, r);
      var st := Filter(calls[|calls| - 1], o, r);
      (out + Output(st), st.offset)
  }

  /** What proper buffers show is proper. */
  lemma ShownIsProper(bufs: seq<Buf>, pieces: seq<Piece>)
    requires Shows(bufs, pieces)
    ensures AllProper(pieces)
  {
    forall i | 0 <= i < |pieces| ensures pieces[i].hasBytes || pieces[i].data == "" {
      assert bufs[i].View() == pieces[i];
    }
  }

  // ---------------------------------------------------------------- the bytes

  function Max(a: int, b: int): int {
    if a < b then b else a
  }

  function Min(a: int, b: int): int {
    if a < b then a else b
  }

  lemma ClipLength(data: string, offset: int, r: Range)
    requires r.start < r.end
    ensures |Clip(data, offset, r)| == Max(0, Min(offset + |data|, r.end) - Max(offset, r.start))
  {
  }

  lemma ClipConcat(a: string, b: string, offset: int, r: Range)
    requires r.start < r.end
    ensures Clip(a + b, offset, r) == Clip(a, offset, r) + Clip(b, offset + |a|, r)
  {
    var whole, left, right := Clip(a + b, offset, r), Clip(a, offset, r), Clip(b, offset + |a|, r);
    ClipLength(a + b, offset, r);
    ClipLength(a, offset, r);
    ClipLength(b, offset + |a|, r);
    assert |whole| == |left| + |right|;
    forall i | 0 <= i < |whole| ensures whole[i] == (left + right)[i] {
      ClipConcatAt(a, b, offset, r, i);
    }
    hide Clip, Max, Min;
  }

  lemma ClipConcatAt(a: string, b: string, offset: int, r: Range, i: nat)
    requires r.start < r.end && i < |Clip(a + b, offset, r)|
    requires |Clip(a + b, offset, r)| == |Clip(a, offset, r)| + |Clip(b, offset + |a|, r)|
    ensures Clip(a + b, offset, r)[i] == (Clip(a, offset, r) + Clip(b, offset + |a|, r))[i]
  {
    var left := Clip(a, offset, r);
    ClipAt(a + b, offset, r, i);
    ClipLength(a, offset, r);
    if i < |left| {
      ClipAt(a, offset, r, i);
    } else {
      ClipAt(b, offset + |a|, r, i - |left|);
    }
    hide Clip;
  }

  /** What is clipped starts where the range does, or at the front. */
  lemma ClipAt(data: string, offset: int, r: Range, i: nat)
    requires r.start < r.end && i < |Clip(data, offset, r)|
    ensures var lo := Max(0, r.start - offset); lo + i < |data| && Clip(data, offset, r)[i] == data[lo + i]
  {
  }

  lemma ClipOutside(data: string, offset: int, r: Range)
    requires r.end <= offset || r.start >= offset + |data|
    ensures Clip(data, offset, r) == ""
  {
  }

  lemma {:induction false} FilterData(pieces: seq<Piece>, offset: int, r: Range)
    requires AllProper(pieces) && r.start < r.end
    ensures var st := Filter(pieces, offset, r);
            && DataOf(st.kept) == Clip(DataOf(pieces), offset, r)
            && DataOf(st.tail) == ""
            && offset <= st.offset <= offset + |DataOf(pieces)|
            && if st.done then st.offset >= r.end && st.tail == [] else st.offset == offset + |DataOf(pieces)|
    decreases |pieces|
  {
    hide Clip, DataOf;
    if pieces == [] {
      NoData(offset, r);
    } else {
      var front, p := pieces[..|pieces| - 1], pieces[|pieces| - 1];
      assert pieces == front + [p];
      DataOfSnoc(front, p);
      FilterData(front, offset, r);
      var st := Filter(front, offset, r);
      ClipConcat(DataOf(front), p.data, offset, r);
      StepData(st, p, r, offset + |DataOf(front)|);
    }
  }

  lemma NoData(offset: int, r: Range)
    ensures DataOf([]) == "" && Clip("", offset, r) == ""
  {
  }

  lemma StepData(st: Progress, p: Piece, r: Range, position: int)
    requires (p.hasBytes || p.data == "") && r.start < r.end && DataOf(st.tail) == ""
    requires if st.done then position >= st.offset >= r.end && st.tail == [] else st.offset == position
    ensures var st' := Step(st, p, r);
            && DataOf(st'.kept) == DataOf(st.kept) + Clip(p.data, position, r)
            && DataOf(st'.tail) == ""
            && st.offset <= st'.offset <= position + |p.data|
            && if st'.done then st'.offset >= r.end && st'.tail == [] else st'.offset == position + |p.data|
  {
    hide Clip, DataOf;
    NoData(position, r);
    var c := Clip(p.data, position, r);
    if st.done {
      ClipOutside(p.data, position, r);
      assert DataOf(st.kept) + c == DataOf(st.kept);
    } else if p.Special() {
      DataOfSnoc(st.kept, p);
    } else if r.end <= st.offset || r.start >= st.offset + |p.data| {
      ClipOutside(p.data, position, r);
      DataOfSnoc(st.tail, Emptied(p));
      assert DataOf(st.kept) + c == DataOf(st.kept);
    } else {
      DataOfSnoc(st.kept, p.(data := c));
      DataOfSnoc(st.kept, p.(data := c, lastBuf := true));
    }
  }

  lemma OutputData(st: Progress)
    requires DataOf(st.tail) == ""
    ensures DataOf(Output(st)) == DataOf(st.kept)
  {
    DataOfConcat(st.kept, st.tail);
  }

  lemma {:induction false} FlattenProper(calls: seq<seq<Piece>>)
    requires forall i :: 0 <= i < |calls| ==> AllProper(calls[i])
    ensures AllProper(Flatten(calls))
    decreases |calls|
  {
    if calls != [] { FlattenProper(calls[..|calls| - 1]); }
  }

  /** At every moment of a run what has come out is the range's part of what has gone in.  The offset
      is the position in the body, unless the range is over: the bytes dropped with the rest of a chain
      are not counted, but they are past the end of the range. */
  lemma {:induction false} RunData(calls: seq<seq<Piece>>, offset: int, r: Range)
    requires (forall i :: 0 <= i < |calls| ==> AllProper(calls[i])) && r.start < r.end
    ensures var (out, o) := Run(calls, offset, r);
            && DataOf(out) == Clip(DataOf(Flatten(calls)), offset, r)
            && (o == offset + |DataOf(Flatten(calls))| || r.end <= o <= offset + |DataOf(Flatten(calls))|)
    decreases |calls|
  {
    hide Clip, DataOf, Filter, Output;
    if calls == [] {
      NoData(offset, r);
    } else {
      var front, call := calls[..|calls| - 1], calls[|calls| - 1];
      RunData(front, offset, r);
      var (out, o) := Run(front, offset, r);
      var st := Filter(call, o, r);
      var before, data := DataOf(Flatten(front)), DataOf(call);
      FilterData(call, o, r);
      OutputData(st);
      DataOfConcat(out, Output(st));
      DataOfConcat(Flatten(front), call);
      ClipConcat(before, data, offset, r);
      if o != offset + |before| {
        ClipOutside(data, o, r);
        ClipOutside(data, offset + |before|, r);
      }
    }
  }

  /** The run emits exactly the range, whose places are counted from `offset` before the body: the filter
      starts at the content offset of the response. */
  lemma RunEmitsRange(calls: seq<seq<Piece>>, offset: int, body: string, r: Range)
    requires forall i :: 0 <= i < |calls| ==> AllProper(calls[i])
    requires DataOf(Flatten(calls)) == body && offset <= r.start < r.end <= offset + |body|
    ensures DataOf(Run(calls, offset, r).0) == body[r.start - offset..r.end - offset]
  {
    hide Run, DataOf, Flatten;
    RunData(calls, offset, r);
  }

  // ---------------------------------------------------------------- the last-buffer mark

  predicate Marked(p: Piece) {
    p.data != "" && p.lastBuf
  }

  /** Where in the body the marked pieces end, if the first piece starts at `base`. */
  function Marks(pieces: seq<Piece>, base: int): seq<int> {
    if pieces == [] then []
    else
      Marks(pieces[..|pieces| - 1], base)
      + (if Marked(pieces[|pieces| - 1]) then [base + |DataOf(pieces)|] else [])
  }

  /** One piece with data is marked, and none with data follows it. */
  ghost predicate MarkedLast(pieces: seq<Piece>) {
    exists k :: MarkedLastAt(pieces, k)
  }

  predicate MarkedLastAt(pieces: seq<Piece>, k: int) {
    && 0 <= k < |pieces| && Marked(pieces[k])
    && (forall j :: 0 <= j < k ==> !Marked(pieces[j]))
    && (forall j :: k < j < |pieces| ==> pieces[j].data == "")
  }

  /** The marks strictly inside the range. */
  function Within(marks: seq<int>, r: Range): seq<int> {
    if marks == [] then []
    else
      var m := marks[|marks| - 1];
      Within(marks[..|marks| - 1], r) + (if r.start < m < r.end then [m] else [])
  }

  lemma MarksOfSnoc(a: seq<Piece>, p: Piece, base: int)
    ensures Marks(a + [p], base) == Marks(a, base) + if Marked(p) then [base + |DataOf(a)| + |p.data|] else []
  {
    assert (a + [p])[..|a|] == a;
    DataOfSnoc(a, p);
  }

  lemma {:induction false} MarksOfConcat(a: seq<Piece>, b: seq<Piece>, base: int)
    ensures Marks(a + b, base) == Marks(a, base) + Marks(b, base + |DataOf(a)|)
    decreases |b|
  {
    hide Marked, DataOf;
    if b == [] {
      assert a + b == a;
    } else {
      var front, p := b[..|b| - 1], b[|b| - 1];
      assert b == front + [p] && a + b == (a + front) + [p];
      MarksOfConcat(a, front, base);
      MarksOfSnoc(a + front, p, base);
      MarksOfSnoc(front, p, base + |DataOf(a)|);
      DataOfConcat(a, front);
    }
  }

  lemma {:induction false} MarksBounded(pieces: seq<Piece>, base: int)
    ensures forall m :: m in Marks(pieces, base) ==> base < m <= base + |DataOf(pieces)|
    decreases |pieces|
  {
    hide DataOf;
    if pieces != [] {
      var front, p := pieces[..|pieces| - 1], pieces[|pieces| - 1];
      assert pieces == front + [p];
      MarksBounded(front, base);
      DataOfSnoc(front, p);
    }
  }

  lemma FirstMark(pieces: seq<Piece>, base: int)
    requires Marks(pieces, base) != []
    ensures base < Marks(pieces, base)[0] <= base + |DataOf(pieces)|
  {
    hide Marks, DataOf;
    MarksBounded(pieces, base);
    assert Marks(pieces, base)[0] in Marks(pieces, base);
  }

  lemma NoDataNoMarks(pieces: seq<Piece>, base: int)
    requires DataOf(pieces) == ""
    ensures Marks(pieces, base) == []
  {
    hide Marks, DataOf;
    if Marks(pieces, base) != [] {
      FirstMark(pieces, base);
    }
  }

  lemma {:induction false} WithinConcat(a: seq<int>, b: seq<int>, r: Range)
    ensures Within(a + b, r) == Within(a, r) + Within(b, r)
    decreases |b|
  {
    if b == [] {
      assert a + b == a;
    } else {
      assert (a + b)[..|a + b| - 1] == a + b[..|b| - 1];
      WithinConcat(a, b[..|b| - 1], r);
    }
  }

  lemma {:induction false} WithinEmpty(marks: seq<int>, r: Range)
    ensures Within(marks, r) == [] <==> forall m :: m in marks ==> !(r.start < m < r.end)
    decreases |marks|
  {
    if marks != [] {
      var front, m := marks[..|marks| - 1], marks[|marks| - 1];
      WithinEmpty(front, r);
      assert marks == front + [m];
      assert m in marks && forall x :: x in marks <==> x in front || x == m;
    }
  }

  /** The marks of what a call keeps, in places of the body: those of its pieces that lie inside the
      range, and the end of the range if it was reached in this call. */
  ghost predicate RightMarks(st: Progress, marks: seq<int>, offset: int, r: Range) {
    && Marks(st.kept, Max(offset, r.start)) == Within(marks, r) + (if offset < r.end <= st.offset then [r.end] else [])
    && (offset < r.end ==> (st.done <==> st.offset >= r.end))
  }

  lemma {:induction false} FilterMarks(pieces: seq<Piece>, offset: int, r: Range)
    requires AllProper(pieces) && r.start < r.end
    ensures RightMarks(Filter(pieces, offset, r), Marks(pieces, offset), offset, r)
    decreases |pieces|
  {
    hide Marks, Within, Clip, DataOf, Step, RightMarks;
    if pieces == [] {
      NothingMarked(offset, r);
    } else {
      var n := |pieces| - 1;
      var front, p := pieces[..n], pieces[n];
      assert pieces == front + [p];
      FilterMarks(front, offset, r);
      FilterData(front, offset, r);
      MarksOfSnoc(front, p, offset);
      ClipLength(DataOf(front), offset, r);
      StepMarks(Filter(front, offset, r), p, offset, offset + |DataOf(front)|, Marks(front, offset), r);
    }
  }

  lemma NothingMarked(offset: int, r: Range)
    ensures RightMarks(Progress(offset, [], [], false), Marks([], offset), offset, r)
  {
  }

  lemma StepMarks(st: Progress, p: Piece, offset: int, position: int, marks: seq<int>, r: Range)
    requires (p.hasBytes || p.data == "") && r.start < r.end && offset <= position
    requires RightMarks(st, marks, offset, r)
    requires |DataOf(st.kept)| == Max(0, Min(position, r.end) - Max(offset, r.start))
    requires if st.done then position >= st.offset >= r.end else st.offset == position
    ensures RightMarks(Step(st, p, r), marks + (if Marked(p) then [position + |p.data|] else []), offset, r)
  {
    hide Marks, Within, Clip, DataOf;
    var added := if Marked(p) then [position + |p.data|] else [];
    var st' := Step(st, p, r);
    var base := Max(offset, r.start);
    WithinConcat(marks, added, r);
    WithinOne(position + |p.data|, r);
    ClipLength(p.data, position, r);
    if st'.kept != st.kept {
      MarksOfSnoc(st.kept, st'.kept[|st'.kept| - 1], base);
    }
  }

  lemma WithinOne(m: int, r: Range)
    ensures Within([], r) == [] && Within([m], r) == if r.start < m < r.end then [m] else []
  {
    assert [m][..0] == [];
  }

  /** What one call hands on has the marks of what it keeps, the emptied tail having none. */
  lemma OutputMarks(st: Progress, base: int)
    requires DataOf(st.tail) == ""
    ensures Marks(Output(st), base) == Marks(st.kept, base)
  {
    hide Marks, DataOf;
    NoDataNoMarks(st.tail, base + |DataOf(st.kept)|);
    MarksOfConcat(st.kept, st.tail, base);
    assert Marks([], base) == [] by { NoPieces(base); }
  }

  lemma NoPieces(base: int)
    ensures Marks([], base) == [] && DataOf([]) == ""
  {
  }

  lemma WithinBeyond(pieces: seq<Piece>, base: int, r: Range)
    requires base >= r.end
    ensures Within(Marks(pieces, base), r) == []
  {
    hide Marks, Within, DataOf;
    MarksBounded(pieces, base);
    WithinEmpty(Marks(pieces, base), r);
  }

  /** At every moment of a run the marks of what has come out are the marks of what has gone in, as far
      as they are strictly inside the range, and then the end of the range if it has been reached. */
  lemma {:induction false} RunMarks(calls: seq<seq<Piece>>, offset: int, r: Range)
    requires (forall i :: 0 <= i < |calls| ==> AllProper(calls[i])) && r.start < r.end
    ensures var (out, o) := Run(calls, offset, r);
            Marks(out, Max(offset, r.start))
              == Within(Marks(Flatten(calls), offset), r) + if offset < r.end <= o then [r.end] else []
    decreases |calls|
  {
    hide Marks, Within, Clip, DataOf, Filter, Output;
    var base := Max(offset, r.start);
    if calls == [] {
      NoPieces(base);
      NoPieces(offset);
      WithinOne(0, r);
    } else {
      var front, call := calls[..|calls| - 1], calls[|calls| - 1];
      RunMarks(front, offset, r);
      RunData(front, offset, r);
      var (out, o) := Run(front, offset, r);
      var st := Filter(call, o, r);
      var before := |DataOf(Flatten(front))|;
      FilterData(call, o, r);
      FilterMarks(call, o, r);
      OutputMarks(st, base + |DataOf(out)|);
      MarksOfConcat(out, Output(st), base);
      MarksOfConcat(Flatten(front), call, offset);
      ClipLength(DataOf(Flatten(front)), offset, r);
      var w1, w2 := Within(Marks(Flatten(front), offset), r), Within(Marks(call, offset + before), r);
      WithinConcat(Marks(Flatten(front), offset), Marks(call, offset + before), r);
      if o >= r.end {
        WithinBeyond(call, offset + before, r);
        ClipLength(DataOf(call), o, r);
        NoDataNoMarks(st.kept, base + |DataOf(out)|);
        assert w1 + w2 == w1 && Marks(out, base) + [] == Marks(out, base);
      } else {
        assert base + |DataOf(out)| == Max(o, r.start);
        assert w1 + [] == w1;
        assert offset < r.end <= st.offset ==> w1 + (w2 + [r.end]) == (w1 + w2) + [r.end];
        assert w1 + (w2 + []) == (w1 + w2) + [];
      }
    }
  }

  /** The mark belongs on the last piece of the body, which ends no earlier than the range: no piece
      that ends strictly inside the range comes in marked. */
  predicate NoEarlyMark(pieces: seq<Piece>, offset: int, r: Range) {
    forall m :: m in Marks(pieces, offset) ==> !(r.start < m < r.end)
  }

  lemma {:induction false} NoMarksIff(pieces: seq<Piece>, base: int)
    ensures Marks(pieces, base) == [] <==> forall j :: 0 <= j < |pieces| ==> !Marked(pieces[j])
    decreases |pieces|
  {
    hide Marked;
    if pieces != [] {
      NoMarksIff(pieces[..|pieces| - 1], base);
      var front, p := pieces[..|pieces| - 1], pieces[|pieces| - 1];
      assert forall j :: 0 <= j < |front| ==> pieces[j] == front[j];
      assert Marked(pieces[|pieces| - 1]) ==> Marks(pieces, base) != [];
    }
  }

  /** A last piece without data does not matter. */
  lemma MarkedLastNoData(front: seq<Piece>, p: Piece)
    requires p.data == ""
    ensures MarkedLast(front + [p]) <==> MarkedLast(front)
  {
    hide MarkedLastAt;
    forall k ensures MarkedLastAt(front + [p], k) <==> MarkedLastAt(front, k) {
      MarkedLastAtNoData(front, p, k);
    }
  }

  lemma MarkedLastAtNoData(front: seq<Piece>, p: Piece, k: int)
    requires p.data == ""
    ensures MarkedLastAt(front + [p], k) <==> MarkedLastAt(front, k)
  {
    var pieces := front + [p];
    assert !Marked(p) && pieces[|front|] == p;
    assert forall j :: 0 <= j < |front| ==> front[j] == pieces[j];
    hide Marked;
  }

  /** A last piece with data decides. */
  lemma MarkedLastData(front: seq<Piece>, p: Piece)
    requires p.data != ""
    ensures MarkedLast(front + [p]) <==> Marked(p) && forall j :: 0 <= j < |front| ==> !Marked(front[j])
  {
    var pieces := front + [p];
    assert pieces[|front|] == p;
    assert forall j :: 0 <= j < |front| ==> front[j] == pieces[j];
    hide Marked;
    if Marked(p) && forall j :: 0 <= j < |front| ==> !Marked(front[j]) {
      assert MarkedLastAt(pieces, |front|);
    }
  }

  lemma {:induction false} MarkedLastIff(pieces: seq<Piece>, base: int)
    ensures MarkedLast(pieces) <==> Marks(pieces, base) == [base + |DataOf(pieces)|]
    decreases |pieces|
  {
    hide DataOf, MarkedLast;
    if pieces == [] {
      NoPieces(base);
      NothingMarkedLast();
    } else {
      var front, p := pieces[..|pieces| - 1], pieces[|pieces| - 1];
      assert pieces == front + [p];
      var before, marks := |DataOf(front)|, Marks(front, base);
      if p.data == "" {
        MarkedLastNoData(front, p);
      } else {
        MarkedLastData(front, p);
      }
      MarkedLastIff(front, base);
      MarksOfSnoc(front, p, base);
      DataOfSnoc(front, p);
      NoMarksIff(front, base);
      assert marks + [] == marks;
      if marks != [] {
        FirstMark(front, base);
        assert |marks + [base + before + |p.data|]| > 1;
        assert Marks(pieces, base)[0] == marks[0];
      }
    }
  }

  lemma NothingMarkedLast()
    ensures !MarkedLast([])
  {
  }

  /** Over a whole body exactly one buffer with data is marked as the last, and it is the last with
      data, if and only if no buffer that ends strictly inside the range came in marked. */
  lemma RunMarksOnce(calls: seq<seq<Piece>>, offset: int, body: string, r: Range)
    requires forall i :: 0 <= i < |calls| ==> AllProper(calls[i])
    requires DataOf(Flatten(calls)) == body && offset <= r.start < r.end <= offset + |body|
    ensures MarkedLast(Run(calls, offset, r).0) <==> NoEarlyMark(Flatten(calls), offset, r)
  {
    hide Marks, Within, MarkedLast, DataOf, Run;
    var (out, o) := Run(calls, offset, r);
    var inside := Within(Marks(Flatten(calls), offset), r);
    RunMarks(calls, offset, r);
    RunData(calls, offset, r);
    ClipLength(body, offset, r);
    MarkedLastIff(out, r.start);
    WithinEmpty(Marks(Flatten(calls), offset), r);
    assert inside + [r.end] == [r.end] <==> inside == [] by {
      assert |inside + [r.end]| == |inside| + 1;
    }
  }

  /** An early mark is not cleared: of a body of two buffers, both inside the range and both marked, both
      come out marked. */
  lemma EarlyMarkStays()
    ensures var p, q := Piece("a", true, false, true, false), Piece("b", true, false, true, false);
            Run([[p], [q]], 0, Range(0, 2)).0 == [p, q] && !MarkedLast([p, q])
  {
    var p, q := Piece("a", true, false, true, false), Piece("b", true, false, true, false);
    MarkedPieceStays(p, 0, Range(0, 2));
    MarkedPieceStays(q, 1, Range(0, 2));
    TwoCalls([p], [q], 0, Range(0, 2));
    assert Marked([p, q][0]) && Marked([p, q][1]);
    hide Filter, Run;
  }

  /** A marked piece inside the range comes out as it was. */
  lemma MarkedPieceStays(p: Piece, offset: int, r: Range)
    requires p.hasBytes && p.lastBuf && p.data != "" && r.start <= offset && offset + |p.data| <= r.end
    ensures var st := Filter([p], offset, r); Output(st) == [p] && st.offset == offset + |p.data|
  {
    assert [p][..0] == [];
    assert Clip(p.data, offset, r) == p.data;
    hide Clip;
  }

  lemma TwoCalls(a: seq<Piece>, b: seq<Piece>, offset: int, r: Range)
    ensures var st := Filter(a, offset, r); Run([a, b], offset, r).0 == Output(st) + Output(Filter(b, st.offset, r))
  {
    hide Filter, Output;
    assert [a, b][..1] == [a] && [a][..0] == [];
    assert Run([], offset, r) == ([], offset);
    assert [] + Output(Filter(a, offset, r)) == Output(Filter(a, offset, r));
  }
}
