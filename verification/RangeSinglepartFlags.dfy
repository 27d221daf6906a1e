/** Which buffers come out of the single-range filter marked as the last, those without data included: a
    buffer outside the range is emptied but keeps its mark, and is handed on if it stands behind the last
    buffer that its call passes on. */
module RangeSinglepartFlags {
  import opened RangeTypes
  import opened RangeBuffers
  import opened RangeSinglepart
  import opened RangeSinglepartRun

  /** Marked as the last, and not special. */
  predicate Flagged(p: Piece) {
    p.lastBuf && p.hasBytes
  }

  function Flags(pieces: seq<Piece>): nat {
    if pieces == [] then 0 else Flags(pieces[..|pieces| - 1]) + if Flagged(pieces[|pieces| - 1]) then 1 else 0
  }

  lemma FlagsSnoc(a: seq<Piece>, p: Piece)
    ensures Flags(a + [p]) == Flags(a) + if Flagged(p) then 1 else 0
  {
    assert (a + [p])[..|a|] == a;
  }

  lemma {:induction false} FlagsConcat(a: seq<Piece>, b: seq<Piece>)
    ensures Flags(a + b) == Flags(a) + Flags(b)
    decreases |b|
  {
    hide Flagged;
    if b == [] {
      assert a + b == a;
    } else {
      assert (a + b)[..|a + b| - 1] == a + b[..|b| - 1];
      FlagsConcat(a, b[..|b| - 1]);
    }
  }

  // ---------------------------------------------------------------- the pieces of one call, seen from outside

  /** Where the piece starts, if the call starts at `offset`. */
  function Start(pieces: seq<Piece>, k: nat, offset: int): int
    requires k < |pieces|
  {
    offset + |DataOf(pieces[..k])|
  }

  /** The piece shows part of the range. */
  predicate Overlaps(pieces: seq<Piece>, k: nat, offset: int, r: Range)
    requires k < |pieces|
  {
    var start := Start(pieces, k, offset);
    !pieces[k].Special() && start < r.end && r.start < start + |pieces[k].data|
  }

  /** The range ends in the piece; the rest of the call is not looked at. */
  predicate EndsRange(pieces: seq<Piece>, k: nat, offset: int, r: Range)
    requires k < |pieces|
  {
    Overlaps(pieces, k, offset, r) && r.end <= Start(pieces, k, offset) + |pieces[k].data|
  }

  predicate LookedAt(pieces: seq<Piece>, k: nat, offset: int, r: Range)
    requires k <= |pieces|
  {
    forall j :: 0 <= j < k ==> !EndsRange(pieces, j, offset, r)
  }

  predicate PassedOn(pieces: seq<Piece>, k: nat, offset: int, r: Range)
    requires k < |pieces|
  {
    LookedAt(pieces, k, offset, r) && (pieces[k].Special() || Overlaps(pieces, k, offset, r))
  }

  /** Emptied, with nothing passed on from there up to place `n`. */
  predicate Trails(pieces: seq<Piece>, k: nat, n: nat, offset: int, r: Range)
    requires k < n <= |pieces|
  {
    LookedAt(pieces, k, offset, r) && forall j :: k <= j < n ==> !PassedOn(pieces, j, offset, r)
  }

  /** A marked piece that comes out, besides the one in which the range ends: it shows an earlier part of
      the range, or it is emptied and stands behind the last piece passed on. */
  predicate Stray(pieces: seq<Piece>, k: int, offset: int, r: Range) {
    && 0 <= k < |pieces| && Flagged(pieces[k])
    && (|| (PassedOn(pieces, k, offset, r) && !EndsRange(pieces, k, offset, r))
        || (Trails(pieces, k, |pieces|, offset, r) && exists j :: 0 <= j < k && PassedOn(pieces, j, offset, r)))
  }

  // ---------------------------------------------------------------- one call

  /** The filter after `n` pieces, in these terms. */
  ghost predicate FlagsAfter(pieces: seq<Piece>, n: nat, st: Progress, offset: int, r: Range)
    requires n <= |pieces|
  {
    var ended := if st.done then 1 else 0;
    && (st.done <==> !LookedAt(pieces, n, offset, r))
    && (st.kept == [] <==> forall k :: 0 <= k < n ==> !PassedOn(pieces, k, offset, r))
    && Flags(st.kept) >= ended
    && (Flags(st.kept) == ended <==>
          forall k :: 0 <= k < n && PassedOn(pieces, k, offset, r) && Flagged(pieces[k]) ==>
            EndsRange(pieces, k, offset, r))
    && (Flags(st.tail) == 0 <==> forall k :: 0 <= k < n && Trails(pieces, k, n, offset, r) ==> !Flagged(pieces[k]))
  }

  lemma {:induction false} CallFlags(pieces: seq<Piece>, n: nat, offset: int, r: Range)
    requires n <= |pieces| && AllProper(pieces) && r.start < r.end
    ensures FlagsAfter(pieces, n, Filter(pieces[..n], offset, r), offset, r)
    decreases n
  {
    hide FlagsAfter, Filter, DataOf;
    if n == 0 {
      NoneAfter(pieces, offset, r);
    } else {
      CallFlags(pieces, n - 1, offset, r);
      FilterData(pieces[..n - 1], offset, r);
      FilterNext(pieces, n - 1, offset, r);
      var st := Filter(pieces[..n - 1], offset, r);
      if st.done {
        DoneFlags(pieces, n - 1, st, offset, r);
      } else {
        StepFlags(pieces, n - 1, st, offset, r);
      }
    }
  }

  lemma NoneAfter(pieces: seq<Piece>, offset: int, r: Range)
    ensures FlagsAfter(pieces, 0, Filter(pieces[..0], offset, r), offset, r)
  {
    assert pieces[..0] == [];
  }

  /** Behind the end of the range nothing changes. */
  lemma DoneFlags(pieces: seq<Piece>, n: nat, st: Progress, offset: int, r: Range)
    requires n < |pieces| && st.done
    ensures FlagsAfter(pieces, n, st, offset, r) ==> FlagsAfter(pieces, n + 1, Step(st, pieces[n], r), offset, r)
  {
    hide EndsRange, Overlaps, Flags, Flagged;
    if FlagsAfter(pieces, n, st, offset, r) {
      assert !PassedOn(pieces, n, offset, r);
    }
  }

  lemma StepFlags(pieces: seq<Piece>, n: nat, st: Progress, offset: int, r: Range)
    requires n < |pieces| && AllProper(pieces) && r.start < r.end && !st.done && FlagsAfter(pieces, n, st, offset, r)
    requires st.offset == Start(pieces, n, offset)
    ensures FlagsAfter(pieces, n + 1, Step(st, pieces[n], r), offset, r)
  {
    hide FlagsAfter, Clip, DataOf, Flags;
    if PassedOn(pieces, n, offset, r) {
      KeptFlags(pieces, n, st, offset, r);
    } else {
      assert !LookedAt(pieces, n, offset, r) ==> st.done by { LookedAtIffGoing(pieces, n, st, offset, r); }
      SkippedFlags(pieces, n, st, offset, r);
    }
  }

  lemma LookedAtIffGoing(pieces: seq<Piece>, n: nat, st: Progress, offset: int, r: Range)
    requires n <= |pieces| && FlagsAfter(pieces, n, st, offset, r)
    ensures st.done <==> !LookedAt(pieces, n, offset, r)
  {
  }

  /** What the filter makes of a piece that it passes on. */
  lemma KeptStep(pieces: seq<Piece>, n: nat, st: Progress, offset: int, r: Range)
    requires n < |pieces| && AllProper(pieces) && r.start < r.end && !st.done && st.offset == Start(pieces, n, offset)
    requires pieces[n].Special() || Overlaps(pieces, n, offset, r)
    ensures var st' := Step(st, pieces[n], r);
            && st'.tail == [] && st'.kept != [] && st'.kept == st.kept + [st'.kept[|st'.kept| - 1]]
            && (Flagged(st'.kept[|st'.kept| - 1]) <==> st'.done || Flagged(pieces[n]))
            && (st'.done <==> EndsRange(pieces, n, offset, r))
  {
    hide Start, Clip, DataOf;
  }

  lemma KeptFlags(pieces: seq<Piece>, n: nat, st: Progress, offset: int, r: Range)
    requires n < |pieces| && AllProper(pieces) && r.start < r.end && !st.done && st.offset == Start(pieces, n, offset)
    ensures PassedOn(pieces, n, offset, r) && FlagsAfter(pieces, n, st, offset, r) ==>
      FlagsAfter(pieces, n + 1, Step(st, pieces[n], r), offset, r)
  {
    hide Start, Flags, Flagged, Step, EndsRange, Overlaps;
    if PassedOn(pieces, n, offset, r) && FlagsAfter(pieces, n, st, offset, r) {
      NoFlags();
      KeptStep(pieces, n, st, offset, r);
      var st' := Step(st, pieces[n], r);
      FlagsSnoc(st.kept, st'.kept[|st'.kept| - 1]);
      var m := n + 1;
      assert forall k :: 0 <= k < m ==> !Trails(pieces, k, m, offset, r);
    }
  }

  lemma SkippedFlags(pieces: seq<Piece>, n: nat, st: Progress, offset: int, r: Range)
    requires n < |pieces| && AllProper(pieces) && r.start < r.end && !st.done && FlagsAfter(pieces, n, st, offset, r)
    requires st.offset == Start(pieces, n, offset) && LookedAt(pieces, n, offset, r) && !PassedOn(pieces, n, offset, r)
    ensures FlagsAfter(pieces, n + 1, Step(st, pieces[n], r), offset, r)
  {
    hide Start, Flags, Clip, DataOf;
    var p, st' := pieces[n], Step(st, pieces[n], r);
    FlagsSnoc(st.tail, Emptied(p));
    assert st'.tail == st.tail + [Emptied(p)] && st'.kept == st.kept && !st'.done;
    assert Flagged(Emptied(p)) <==> Flagged(p);
    assert !EndsRange(pieces, n, offset, r);
    hide Flagged, Step, EndsRange, Overlaps;
    forall k | 0 <= k < n ensures Trails(pieces, k, n + 1, offset, r) <==> Trails(pieces, k, n, offset, r) {
    }
    assert Trails(pieces, n, n + 1, offset, r);
  }

  lemma NoFlags()
    ensures Flags([]) == 0
  {
  }

  /** What one call hands on is marked once if the range ends in it, not at all if it does not, and besides
      exactly if there is a stray. */
  lemma OutputFlags(pieces: seq<Piece>, offset: int, r: Range)
    requires AllProper(pieces) && r.start < r.end
    ensures var st := Filter(pieces, offset, r);
            var ended := if st.done then 1 else 0;
            Flags(Output(st)) >= ended && (Flags(Output(st)) == ended <==> forall k :: !Stray(pieces, k, offset, r))
  {
    var n := |pieces|;
    CallFlags(pieces, n, offset, r);
    assert pieces[..n] == pieces;
    var st := Filter(pieces, offset, r);
    FlagsConcat(st.kept, st.tail);
    NoFlags();
    hide Filter, Flags, PassedOn, EndsRange, Flagged, LookedAt;
    if exists k :: 0 <= k < n && PassedOn(pieces, k, offset, r) {
      StraysIff(pieces, offset, r);
    } else {
      assert forall k :: !Stray(pieces, k, offset, r);
    }
  }

  lemma StraysIff(pieces: seq<Piece>, offset: int, r: Range)
    requires exists k :: 0 <= k < |pieces| && PassedOn(pieces, k, offset, r)
    ensures (forall k :: !Stray(pieces, k, offset, r)) <==>
      && (forall k :: 0 <= k < |pieces| && PassedOn(pieces, k, offset, r) && Flagged(pieces[k]) ==>
            EndsRange(pieces, k, offset, r))
      && (forall k :: 0 <= k < |pieces| && Trails(pieces, k, |pieces|, offset, r) ==> !Flagged(pieces[k]))
  {
    hide PassedOn, EndsRange, Flagged, LookedAt;
    var i :| 0 <= i < |pieces| && PassedOn(pieces, i, offset, r);
    forall k | 0 <= k < |pieces|
      ensures Stray(pieces, k, offset, r) <==>
        && Flagged(pieces[k])
        && ((PassedOn(pieces, k, offset, r) && !EndsRange(pieces, k, offset, r))
            || Trails(pieces, k, |pieces|, offset, r))
    {
      if Trails(pieces, k, |pieces|, offset, r) {
        assert i < k;
      }
    }
  }

  // ---------------------------------------------------------------- whole runs

  /** Behind the range it does not matter where exactly a call starts. */
  lemma BeyondSame(pieces: seq<Piece>, k: int, o: int, p: int, r: Range)
    requires r.end <= o && r.end <= p
    ensures Stray(pieces, k, o, r) <==> Stray(pieces, k, p, r)
  {
    hide DataOf, Flagged;
    assert forall j :: 0 <= j < |pieces| ==> !Overlaps(pieces, j, o, r) && !Overlaps(pieces, j, p, r);
    hide Overlaps;
    assert forall j :: 0 <= j < |pieces| ==> (PassedOn(pieces, j, o, r) <==> PassedOn(pieces, j, p, r));
    hide PassedOn;
    if 0 <= k < |pieces| {
      assert Trails(pieces, k, |pieces|, o, r) <==> Trails(pieces, k, |pieces|, p, r);
    }
  }

  /** A stray of one of the calls, each at its place in the body. */
  predicate StrayOf(calls: seq<seq<Piece>>, i: int, k: int, offset: int, r: Range) {
    0 <= i < |calls| && Stray(calls[i], k, offset + |DataOf(Flatten(calls[..i]))|, r)
  }

  lemma StraySnoc(front: seq<seq<Piece>>, call: seq<Piece>, offset: int, place: int, r: Range)
    requires place == offset + |DataOf(Flatten(front))|
    ensures (forall i, k :: !StrayOf(front + [call], i, k, offset, r)) <==>
      && (forall i, k :: !StrayOf(front, i, k, offset, r))
      && (forall k :: !Stray(call, k, place, r))
  {
    hide Stray, DataOf, Flatten;
    var calls := front + [call];
    assert calls[..|front|] == front && calls[|front|] == call;
    forall i, k ensures StrayOf(calls, i, k, offset, r) <==>
      if i == |front| then Stray(call, k, place, r) else StrayOf(front, i, k, offset, r)
    {
      if 0 <= i < |front| {
        assert calls[..i] == front[..i];
      }
    }
    if k :| Stray(call, k, place, r) {
      assert StrayOf(calls, |front|, k, offset, r);
    }
  }

  /** After any number of calls, from any offset: what has come out is marked once if the end of the range
      has been reached, not at all if it has not, and besides exactly if there has been a stray. */
  lemma {:induction false} RunFlags(calls: seq<seq<Piece>>, offset: int, r: Range)
    requires (forall i :: 0 <= i < |calls| ==> AllProper(calls[i])) && r.start < r.end
    ensures var (out, o) := Run(calls, offset, r);
            var reached := if offset < r.end <= o then 1 else 0;
            && Flags(out) >= reached
            && (Flags(out) == reached <==> forall i, k :: !StrayOf(calls, i, k, offset, r))
    decreases |calls|
  {
    hide Filter, Output, DataOf, Flags, Stray, StrayOf, Flatten, Clip;
    if calls == [] {
      NoFlags();
      NoStrays(offset, r);
    } else {
      var front, call := calls[..|calls| - 1], calls[|calls| - 1];
      assert calls == front + [call];
      RunFlags(front, offset, r);
      RunData(front, offset, r);
      var (out, o) := Run(front, offset, r);
      var st, place := Filter(call, o, r), offset + |DataOf(Flatten(front))|;
      OutputFlags(call, o, r);
      FilterMarks(call, o, r);
      FilterData(call, o, r);
      FlagsConcat(out, Output(st));
      StraySnoc(front, call, offset, place, r);
      if o != place {
        forall k ensures Stray(call, k, o, r) <==> Stray(call, k, place, r) {
          BeyondSame(call, k, o, place, r);
        }
      }
      EndedOnce(call, o, r);
    }
  }

  lemma NoStrays(offset: int, r: Range)
    ensures forall i, k :: !StrayOf([], i, k, offset, r)
  {
  }

  /** A call ends the range exactly if it starts before its end and comes to it. */
  lemma {:induction false} EndedOnce(pieces: seq<Piece>, offset: int, r: Range)
    requires AllProper(pieces) && r.start < r.end
    ensures var st := Filter(pieces, offset, r); offset <= st.offset && (st.done <==> offset < r.end <= st.offset)
    decreases |pieces|
  {
    hide Clip;
    if pieces != [] {
      EndedOnce(pieces[..|pieces| - 1], offset, r);
    }
  }

  /** Over a whole body exactly one buffer comes out marked as the last, special ones aside, if and only if
      there is no stray: no marked buffer that shows part of the range and ends before it does, and none
      outside the range that stands behind the last buffer its call passes on. */
  lemma OneFlagIff(calls: seq<seq<Piece>>, offset: int, body: string, r: Range)
    requires forall i :: 0 <= i < |calls| ==> AllProper(calls[i])
    requires DataOf(Flatten(calls)) == body && offset <= r.start < r.end <= offset + |body|
    ensures Flags(Run(calls, offset, r).0) == 1 <==> forall i, k :: !StrayOf(calls, i, k, offset, r)
  {
    hide Run, Flags, StrayOf, DataOf, Flatten;
    RunFlags(calls, offset, r);
    RunData(calls, offset, r);
  }

  /** An input: a marked buffer before the range, behind a special one.  It comes out, emptied and marked,
      ahead of all data. */
  lemma EmptiedMarkStays()
    ensures var f, p, q := Piece("", false, true, false, false), Piece("ab", true, false, true, false),
                           Piece("c", true, false, false, false);
            Run([[f, p], [q]], 0, Range(2, 3)).0 == [f, Emptied(p), q.(lastBuf := true)]
  {
    var f, p, q := Piece("", false, true, false, false), Piece("ab", true, false, true, false),
                   Piece("c", true, false, false, false);
    SpecialThenEmptied(f, p, Range(2, 3));
    WholeRange(q, Range(2, 3));
    TwoCalls([f, p], [q], 0, Range(2, 3));
    hide Filter, Run;
    assert [f, Emptied(p)] + [q.(lastBuf := true)] == [f, Emptied(p), q.(lastBuf := true)];
  }

  lemma SpecialThenEmptied(f: Piece, p: Piece, r: Range)
    requires f.Special() && f.data == "" && p.hasBytes && |p.data| <= r.start
    ensures var st := Filter([f, p], 0, r); Output(st) == [f, Emptied(p)] && st.offset == |p.data|
  {
    assert [f, p][..1] == [f] && [f][..0] == [];
    assert Filter([f], 0, r) == Progress(0, [f], [], false);
    assert Filter([f, p], 0, r) == Step(Progress(0, [f], [], false), p, r);
    hide Filter;
  }

  lemma WholeRange(q: Piece, r: Range)
    requires q.hasBytes && q.data != "" && r.end == r.start + |q.data|
    ensures Output(Filter([q], r.start, r)) == [q.(lastBuf := true)]
  {
    assert [q][..0] == [];
    assert Clip(q.data, r.start, r) == q.data;
    hide Clip;
  }
}
