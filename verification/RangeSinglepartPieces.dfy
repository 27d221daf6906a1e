/** What one call of the single-range filter hands on, piece by piece: which of its pieces come out, in their
    order, and how each of them looks. */
module RangeSinglepartPieces {
  import opened RangeTypes
  import opened RangeBuffers
  import opened RangeSinglepart
  import opened RangeSinglepartRun
  import opened RangeSinglepartFlags

  /** How the k-th piece looks when it comes out.  A special one is as it was.  One that shows part of the
      range has just that data, and is marked as the last if it was or if the range ends in it.  Any
      other has no data left and is marked for synchronization; its other marks are as they were. */
  predicate LooksLike(q: Piece, pieces: seq<Piece>, k: nat, offset: int, r: Range)
    requires k < |pieces| && r.start < r.end
  {
    var p, start := pieces[k], Start(pieces, k, offset);
    && q.hasBytes == p.hasBytes && q.flush == p.flush
    && if p.Special() then q.data == p.data && q.lastBuf == p.lastBuf && q.sync == p.sync
       else if Overlaps(pieces, k, offset, r) then
         && q.data == p.data[(if r.start > start then r.start - start else 0)
                             ..(if r.end < start + |p.data| then r.end - start else |p.data|)]
         && (q.lastBuf <==> p.lastBuf || r.end <= start + |p.data|) && q.sync == p.sync
       else q.data == "" && q.lastBuf == p.lastBuf && q.sync
  }

  predicate AllLookLike(out: seq<Piece>, pieces: seq<Piece>, ks: seq<nat>, offset: int, r: Range)
    requires r.start < r.end
  {
    && |out| == |ks| && (forall a :: 0 <= a < |ks| ==> ks[a] < |pieces| && LooksLike(out[a], pieces, ks[a], offset, r))
    && (forall a, b :: 0 <= a < b < |ks| ==> ks[a] < ks[b])
  }

  /** The positions from `t` up to `n`. */
  function UpTo(t: nat, n: nat): (ks: seq<nat>)
    requires t <= n
    ensures |ks| == n - t && forall a :: 0 <= a < |ks| ==> ks[a] == t + a
  {
    seq(n - t, a requires 0 <= a < n - t => t + a)
  }

  /** The filter after `n` pieces has kept those at `ks`, and has emptied those behind the last of them, unless
      the range is over. */
  ghost predicate After(pieces: seq<Piece>, n: nat, st: Progress, ks: seq<nat>, t: nat, offset: int, r: Range)
    requires r.start < r.end
  {
    && t <= n <= |pieces| && Positions(ks, t)
    && AllLookLike(st.kept, pieces, ks, offset, r)
    && (forall k :: 0 <= k < n ==> (k in ks <==> PassedOn(pieces, k, offset, r)))
    && (st.done ==> st.tail == [] && !LookedAt(pieces, t, offset, r))
    && (!st.done ==> LookedAt(pieces, n, offset, r) && AllLookLike(st.tail, pieces, UpTo(t, n), offset, r))
  }

  lemma {:induction false} CallKeeps(pieces: seq<Piece>, n: nat, offset: int, r: Range)
    returns (ks: seq<nat>, t: nat)
    requires n <= |pieces| && AllProper(pieces) && r.start < r.end
    ensures After(pieces, n, Filter(pieces[..n], offset, r), ks, t, offset, r)
    decreases n
  {
    hide After, Filter, DataOf;
    if n == 0 {
      ks, t := [], 0;
      StartsAfter(pieces, offset, r);
    } else {
      ks, t := CallKeeps(pieces, n - 1, offset, r);
      FilterData(pieces[..n - 1], offset, r);
      FilterNext(pieces, n - 1, offset, r);
      ks, t := StepKeeps(pieces, n - 1, Filter(pieces[..n - 1], offset, r), ks, t, offset, r);
    }
  }

  lemma StartsAfter(pieces: seq<Piece>, offset: int, r: Range)
    requires r.start < r.end
    ensures After(pieces, 0, Filter(pieces[..0], offset, r), [], 0, offset, r)
  {
    assert pieces[..0] == [];
  }

  lemma StepKeeps(pieces: seq<Piece>, n: nat, st: Progress, ks: seq<nat>, t: nat, offset: int, r: Range)
    returns (ks': seq<nat>, t': nat)
    requires n < |pieces| && AllProper(pieces) && r.start < r.end && After(pieces, n, st, ks, t, offset, r)
    requires !st.done ==> st.offset == Start(pieces, n, offset)
    ensures After(pieces, n + 1, Step(st, pieces[n], r), ks', t', offset, r)
  {
    ks', t' := ks, t;
    if st.done {
      OverStays(pieces, n, st, ks, t, offset, r);
    } else if pieces[n].Special() || Overlaps(pieces, n, offset, r) {
      ks', t' := ks + [n], n + 1;
      KeptStays(pieces, n, st, ks, t, offset, r);
    } else {
      EmptiedStays(pieces, n, st, ks, t, offset, r);
    }
  }

  lemma OverStays(pieces: seq<Piece>, n: nat, st: Progress, ks: seq<nat>, t: nat, offset: int, r: Range)
    requires n < |pieces| && r.start < r.end && After(pieces, n, st, ks, t, offset, r) && st.done
    ensures After(pieces, n + 1, Step(st, pieces[n], r), ks, t, offset, r)
  {
    hide AllLookLike, EndsRange;
  }

  /** The piece itself. */
  lemma KeptLooks(pieces: seq<Piece>, n: nat, st: Progress, offset: int, r: Range)
    requires n < |pieces| && AllProper(pieces) && r.start < r.end && !st.done && st.offset == Start(pieces, n, offset)
    requires pieces[n].Special() || Overlaps(pieces, n, offset, r)
    ensures var st' := Step(st, pieces[n], r);
            && st'.tail == [] && |st'.kept| == |st.kept| + 1 && st'.kept[..|st.kept|] == st.kept
            && LooksLike(st'.kept[|st.kept|], pieces, n, offset, r)
            && (st'.done <==> EndsRange(pieces, n, offset, r))
  {
    hide Start;
  }

  lemma KeptStays(pieces: seq<Piece>, n: nat, st: Progress, ks: seq<nat>, t: nat, offset: int, r: Range)
    requires n < |pieces| && AllProper(pieces) && r.start < r.end && !st.done && st.offset == Start(pieces, n, offset)
    requires After(pieces, n, st, ks, t, offset, r) && (pieces[n].Special() || Overlaps(pieces, n, offset, r))
    ensures After(pieces, n + 1, Step(st, pieces[n], r), ks + [n], n + 1, offset, r)
  {
    hide Step, LooksLike, EndsRange, Overlaps;
    KeptLooks(pieces, n, st, offset, r);
    PositionsSnoc(ks, t, n);
    var st' := Step(st, pieces[n], r);
    assert st'.kept == st.kept + [st'.kept[|st.kept|]];
    assert forall k :: k in ks + [n] <==> k in ks || k == n;
    assert UpTo(n + 1, n + 1) == [];
  }

  lemma EmptiedStays(pieces: seq<Piece>, n: nat, st: Progress, ks: seq<nat>, t: nat, offset: int, r: Range)
    requires n < |pieces| && r.start < r.end && !st.done && st.offset == Start(pieces, n, offset)
    requires After(pieces, n, st, ks, t, offset, r) && !pieces[n].Special() && !Overlaps(pieces, n, offset, r)
    ensures After(pieces, n + 1, Step(st, pieces[n], r), ks, t, offset, r)
  {
    var st' := Step(st, pieces[n], r);
    EmptiedLooks(pieces, n, st, offset, r);
    hide Step, LooksLike, Overlaps;
    assert UpTo(t, n + 1) == UpTo(t, n) + [n];
    assert n !in ks;
  }

  lemma EmptiedLooks(pieces: seq<Piece>, n: nat, st: Progress, offset: int, r: Range)
    requires n < |pieces| && r.start < r.end && !st.done && st.offset == Start(pieces, n, offset)
    requires !pieces[n].Special() && !Overlaps(pieces, n, offset, r)
    ensures var st' := Step(st, pieces[n], r);
            && st'.kept == st.kept && !st'.done && st'.tail == st.tail + [Emptied(pieces[n])]
            && LooksLike(Emptied(pieces[n]), pieces, n, offset, r)
  {
    hide Start, Clip;
  }

  /** The piece is emptied, and something before it is passed on but nothing behind. */
  predicate Behind(pieces: seq<Piece>, k: nat, offset: int, r: Range)
    requires k < |pieces|
  {
    Trails(pieces, k, |pieces|, offset, r) && exists j :: 0 <= j < k && PassedOn(pieces, j, offset, r)
  }

  lemma BehindIff(pieces: seq<Piece>, st: Progress, ks: seq<nat>, t: nat, k: nat, offset: int, r: Range)
    requires r.start < r.end && After(pieces, |pieces|, st, ks, t, offset, r) && k < |pieces|
    ensures Behind(pieces, k, offset, r) <==> ks != [] && !st.done && t <= k
  {
    hide AllLookLike, EndsRange;
    if ks != [] {
      assert ks[|ks| - 1] == t - 1 && t - 1 in ks;
      assert PassedOn(pieces, t - 1, offset, r);
    } else {
      assert forall j :: 0 <= j < |pieces| ==> !PassedOn(pieces, j, offset, r);
    }
    assert forall j :: t <= j < |pieces| ==> j !in ks;
    hide PassedOn;
  }

  lemma InUpTo(ks: seq<nat>, t: nat, n: nat, k: nat)
    requires t <= n && k < n
    ensures k in ks + UpTo(t, n) <==> k in ks || t <= k
  {
    assert t <= k ==> UpTo(t, n)[k - t] == k;
  }

  lemma LooksConcat(a: seq<Piece>, b: seq<Piece>, pieces: seq<Piece>, ks: seq<nat>, t: nat, offset: int, r: Range)
    requires r.start < r.end && t <= |pieces| && AllLookLike(a, pieces, ks, offset, r) && Positions(ks, t)
    requires AllLookLike(b, pieces, UpTo(t, |pieces|), offset, r)
    ensures AllLookLike(a + b, pieces, ks + UpTo(t, |pieces|), offset, r)
  {
    hide LooksLike;
    var all := ks + UpTo(t, |pieces|);
    forall i | 0 <= i < |all| ensures all[i] < |pieces| && LooksLike((a + b)[i], pieces, all[i], offset, r) {
      if i >= |ks| {
        assert (a + b)[i] == b[i - |ks|];
      }
    }
  }

  /** One call hands on the pieces it passes on and, if there are any, those emptied behind the last of them,
      in their order, and each looks as it should. */
  lemma PieceByPiece(pieces: seq<Piece>, offset: int, r: Range) returns (ks: seq<nat>)
    requires AllProper(pieces) && r.start < r.end
    ensures AllLookLike(Output(Filter(pieces, offset, r)), pieces, ks, offset, r)
    ensures forall k :: 0 <= k < |pieces| ==>
      (k in ks <==> PassedOn(pieces, k, offset, r) || Behind(pieces, k, offset, r))
  {
    var kept, t := CallKeeps(pieces, |pieces|, offset, r);
    assert pieces[..|pieces|] == pieces;
    var st := Filter(pieces, offset, r);
    ks := if kept == [] then [] else kept + if st.done then [] else UpTo(t, |pieces|);
    hide Filter, LooksLike, PassedOn, Behind;
    forall k | 0 <= k < |pieces| ensures k in ks <==> PassedOn(pieces, k, offset, r) || Behind(pieces, k, offset, r) {
      BehindIff(pieces, st, kept, t, k, offset, r);
      InUpTo(kept, t, |pieces|, k);
    }
    if kept != [] && !st.done {
      LooksConcat(st.kept, st.tail, pieces, kept, t, offset, r);
    } else if kept != [] {
      assert Output(st) == st.kept;
    }
  }
}
