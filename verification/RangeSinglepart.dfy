/** The body filter for a single range: it trims the buffers of each call against the range, keeping
    the position in the body between calls, and relinks the chain it was given in place.

    `Filter` says what one call passes on; the theorems say what a whole run of calls passes on. */
module RangeSinglepart {
  import opened RangeTypes
  import opened RangeBuffers

  /** The filter part-way through a chain: the pieces linked into the output, and the emptied pieces
      after the last of them, which stay linked behind it unless something else is. */
  datatype Progress = Progress(offset: int, kept: seq<Piece>, tail: seq<Piece>, done: bool)

  function Emptied(p: Piece): Piece {
    p.(data := "", sync := true)
  }

  /** The part of `data`, found at `offset` of the body, that lies in the range. */
  function Clip(data: string, offset: int, r: Range): string {
    var lo := if r.start <= offset then 0 else if r.start - offset <= |data| then r.start - offset else |data|;
    var hi := if r.end <= offset then 0 else if r.end - offset <= |data| then r.end - offset else |data|;
    if lo <= hi then data[lo..hi] else ""
  }

  function Step(st: Progress, p: Piece, r: Range): Progress {
    var last := st.offset + |p.data|;
    if st.done then
      st
    else if p.Special() then
      Progress(last, st.kept + [p], [], false)
    else if r.end <= st.offset || r.start >= last then
      Progress(last, st.kept, st.tail + [Emptied(p)], false)
    else
      var p' := p.(data := Clip(p.data, st.offset, r));
      if r.end <= last then Progress(last, st.kept + [p'.(lastBuf := true)], [], true)
      else Progress(last, st.kept + [p'], [], false)
  }

  /** One call, piece by piece. */
  function Filter(pieces: seq<Piece>, offset: int, r: Range): Progress {
    if pieces == [] then Progress(offset, [], [], false)
    else Step(Filter(pieces[..|pieces| - 1], offset, r), pieces[|pieces| - 1], r)
  }

  /** What one call hands to the next filter: nothing at all if no piece was kept. */
  function Output(st: Progress): seq<Piece> {
    if st.kept == [] then [] else st.kept + st.tail
  }

  // ---------------------------------------------------------------- the filter on the heap

  /** Empties a buffer outside the range. */
  method SkipBuf(buf: Buf)
    requires buf.Valid()
    modifies buf`pos, buf`last, buf`filePos, buf`fileLast, buf`lastBuf, buf`sync
    ensures buf.Valid() && buf.View() == Emptied(old(buf.View()))
  {
    if buf.inFile {
      buf.filePos := buf.fileLast;
    }
    buf.pos := buf.last;
    buf.sync := true;
  }

  /** Drops `k` bytes from the front of a buffer. */
  method TrimFront(buf: Buf, k: nat)
    requires buf.Valid() && k <= buf.Size()
    modifies buf`pos, buf`last, buf`filePos, buf`fileLast, buf`lastBuf, buf`sync
    ensures buf.Valid() && buf.Size() == old(buf.Size()) - k
    ensures var p := old(buf.View()); buf.View() == p.(data := p.data[k..])
  {
    SubSlice(buf.mem, buf.pos, buf.last, if buf.inMemory then k else 0, buf.last - buf.pos);
    SubSlice(buf.file, buf.filePos, buf.fileLast, if buf.inFile then k else 0, buf.fileLast - buf.filePos);
    if buf.inFile {
      buf.filePos := buf.filePos + k;
    }
    if buf.inMemory {
      buf.pos := buf.pos + k;
    }
  }

  /** Drops `k` bytes from the back of a buffer and marks it as the last one. */
  method TrimBack(buf: Buf, k: nat)
    requires buf.Valid() && k <= buf.Size()
    modifies buf`pos, buf`last, buf`filePos, buf`fileLast, buf`lastBuf, buf`sync
    ensures buf.Valid()
    ensures var p := old(buf.View()); buf.View() == p.(data := p.data[..|p.data| - k], lastBuf := true)
  {
    SubSlice(buf.mem, buf.pos, buf.last, 0, buf.last - buf.pos - if buf.inMemory then k else 0);
    SubSlice(buf.file, buf.filePos, buf.fileLast, 0, buf.fileLast - buf.filePos - if buf.inFile then k else 0);
    if buf.inFile {
      buf.fileLast := buf.fileLast - k;
    }
    if buf.inMemory {
      buf.last := buf.last - k;
    }
    buf.lastBuf := true;
  }

  /** Trims a buffer that shows part of the range, and marks it when the range ends in it. */
  method TrimBuf(buf: Buf, r: Range, start: int, last: int)
    requires buf.Valid() && last == start + buf.Size()
    requires r.start < r.end && start < r.end && r.start < last
    modifies buf`pos, buf`last, buf`filePos, buf`fileLast, buf`lastBuf, buf`sync
    ensures buf.Valid()
    ensures var p := old(buf.View());
            buf.View() == p.(data := Clip(p.data, start, r), lastBuf := p.lastBuf || r.end <= last)
  {
    assert buf.Ordered();
    hide *;
    ghost var p := buf.View();
    ghost var front := if r.start > start then p.data[r.start - start..] else p.data;
    ClipInSteps(p.data, start, r);
    if r.start > start {
      TrimFront(buf, r.start - start);
    }
    assert buf.View() == p.(data := front);
    if r.end <= last {
      TrimBack(buf, last - r.end);
    }
  }

  /** The part of a buffer in the range is what is left when it is trimmed at the front, then at the back. */
  lemma ClipInSteps(data: string, start: int, r: Range)
    requires r.start < r.end && start < r.end && r.start < start + |data|
    ensures var last := start + |data|;
            var front := if r.start > start then data[r.start - start..] else data;
            Clip(data, start, r) == if r.end <= last then front[..|front| - (last - r.end)] else front
  {
    var lo := if r.start > start then r.start - start else 0;
    assert data[0..] == data && data[lo..|data|] == data[lo..];
    if r.end <= start + |data| {
      assert data[lo..][..r.end - start - lo] == data[lo..r.end - start];
    }
  }

  lemma FilterNext(pieces: seq<Piece>, i: nat, offset: int, r: Range)
    requires i < |pieces|
    ensures Filter(pieces[..i + 1], offset, r) == Step(Filter(pieces[..i], offset, r), pieces[i], r)
  {
    assert pieces[..i + 1][..i] == pieces[..i];
  }

  /** `ks` are increasing positions below `t`, the last of them just below it. */
  predicate Positions(ks: seq<nat>, t: nat) {
    && (forall a :: 0 <= a < |ks| ==> ks[a] < t)
    && (forall a, b :: 0 <= a < b < |ks| ==> ks[a] < ks[b])
    && t == if ks == [] then 0 else ks[|ks| - 1] + 1
  }

  /** The elements at the given positions. */
  function Pick<T>(s: seq<T>, ks: seq<nat>): (picked: seq<T>)
    requires forall a :: 0 <= a < |ks| ==> ks[a] < |s|
    ensures |picked| == |ks| && forall a :: 0 <= a < |ks| ==> picked[a] == s[ks[a]]
  {
    seq(|ks|, a requires 0 <= a < |ks| => s[ks[a]])
  }

  /** The links at positions `ks` are chained from `out`, and from the last of them the original chain
      goes on. */
  ghost predicate Linked(links: seq<Link>, out: Link?, ks: seq<nat>, t: nat)
    reads links`next
  {
    && Positions(ks, t) && t <= |links|
    && out == (if ks == [] then null else links[ks[0]])
    && (forall a {:trigger links[ks[a]].next} :: 0 <= a < |ks| - 1 ==> links[ks[a]].next == links[ks[a + 1]])
    && (forall j {:trigger links[j].next} :: 0 <= j < |links| && t - 1 <= j ==> links[j].next == LinkAt(links, j + 1))
  }

  /** The buffers before `i` look as the progress says, the others as they came. */
  ghost predicate Looks(bufs: seq<Buf>, pieces: seq<Piece>, st: Progress, ks: seq<nat>, t: nat, i: nat)
    reads bufs
  {
    && |bufs| == |pieces| && t <= i <= |bufs| && Positions(ks, t)
    && |ks| == |st.kept| && |st.tail| == i - t
    && (forall j :: 0 <= j < |bufs| ==> bufs[j].Valid())
    && (forall a :: 0 <= a < |ks| ==> bufs[ks[a]].View() == st.kept[a])
    && (forall j :: t <= j < i ==> bufs[j].View() == st.tail[j - t])
    && (forall j :: i <= j < |bufs| ==> bufs[j].View() == pieces[j])
  }

  lemma PositionsSnoc(ks: seq<nat>, t: nat, i: nat)
    requires Positions(ks, t) && t <= i
    ensures Positions(ks + [i], i + 1)
  {
  }

  lemma PositionsEnd(ks: seq<nat>, t: nat)
    requires Positions(ks, t)
    ensures forall a :: 0 <= a < |ks| - 1 ==> ks[a] < t - 1
    ensures if ks == [] then t == 0 else ks[|ks| - 1] == t - 1
  {
  }

  /** `*ll = cl`: chains a link behind the last one kept. */
  method LinkIn(ghost links: seq<Link>, cl: Link, lastKept: Link?, out: Link?, ghost ks: seq<nat>,
                ghost t: nat, ghost i: nat)
    returns (out': Link?)
    requires Linked(links, out, ks, t) && Distinct(links) && t <= i < |links| && cl == links[i]
    requires lastKept == if t == 0 then null else links[t - 1]
    modifies links`next
    ensures Linked(links, out', ks + [i], i + 1)
  {
    PositionsSnoc(ks, t, i);
    hide Positions;
    PositionsEnd(ks, t);
    out' := out;
    if lastKept == null {
      out' := cl;
    } else {
      lastKept.next := cl;
    }
  }

  /** The fate of a piece at `start`: whether it is kept, and whether the range ends in it. */
  predicate Keeps(p: Piece, start: int, r: Range) {
    p.Special() || (start < r.end && r.start < start + |p.data|)
  }

  predicate EndsIn(p: Piece, start: int, r: Range) {
    !p.Special() && Keeps(p, start, r) && r.end <= start + |p.data|
  }

  function Treated(p: Piece, start: int, r: Range): Piece {
    if p.Special() then p
    else if Keeps(p, start, r) then p.(data := Clip(p.data, start, r), lastBuf := p.lastBuf || EndsIn(p, start, r))
    else Emptied(p)
  }

  lemma StepIsTreated(st: Progress, p: Piece, r: Range)
    requires !st.done
    ensures var q := Treated(p, st.offset, r);
            Step(st, p, r) == if Keeps(p, st.offset, r)
                              then Progress(st.offset + |p.data|, st.kept + [q], [], EndsIn(p, st.offset, r))
                              else Progress(st.offset + |p.data|, st.kept, st.tail + [q], false)
  {
    hide Piece.Special, Clip;
  }

  /** What the loop body does to a buffer: pass it on, empty it or trim it. */
  method TreatBuf(buf: Buf, range: Range, start: int, last: int) returns (kept: bool, ends: bool)
    requires buf.Valid() && last == start + buf.Size() && range.start < range.end
    modifies buf`pos, buf`last, buf`filePos, buf`fileLast, buf`lastBuf, buf`sync
    ensures buf.Valid()
    ensures var p := old(buf.View());
            kept == Keeps(p, start, range) && ends == EndsIn(p, start, range) && buf.View() == Treated(p, start, range)
  {
    assert buf.Ordered();
    hide Buf.Valid, Buf.Ordered, Buf.View, Buf.Special, Piece.Special, Clip, Emptied;
    kept, ends := true, false;
    if buf.Special() {
      return;
    }
    if range.end <= start || range.start >= last {
      SkipBuf(buf);
      return false, false;
    }
    TrimBuf(buf, range, start, last);
    ends := range.end <= last;
  }

  /** The loop body, for the buffer at position `i` of the chain. */
  method Treat(buf: Buf, range: Range, start: int, last: int,
               ghost bufs: seq<Buf>, ghost pieces: seq<Piece>, ghost st: Progress, ghost ks: seq<nat>,
                 ghost t: nat, ghost i: nat)
    returns (kept: bool, ends: bool)
    requires Distinct(bufs) && i < |bufs| && buf == bufs[i] && Looks(bufs, pieces, st, ks, t, i)
    requires !st.done && start == st.offset && last == start + buf.Size() && range.start < range.end
    modifies buf`pos, buf`last, buf`filePos, buf`fileLast, buf`lastBuf, buf`sync
    ensures var st' := Step(st, pieces[i], range);
            && st'.offset == last && (st'.done <==> ends) && (ends ==> kept)
            && (kept ==> Looks(bufs, pieces, st', ks + [i], i + 1, i + 1))
            && (!kept ==> Looks(bufs, pieces, st', ks, t, i + 1))
  {
    hide Buf.Valid, Buf.View, Buf.Data, Buf.Special, Piece.Special, Treated, Step;
    StepIsTreated(st, pieces[i], range);
    PositionsSnoc(ks, t, i);
    hide Positions;
    PositionsEnd(ks, t);
    kept, ends := TreatBuf(buf, range, start, last);
  }

  /** The positions of what is passed on: the kept ones, and everything behind the last of them. */
  function Passed(ks: seq<nat>, t: nat, n: nat): seq<nat>
    requires t <= n
  {
    if ks == [] then [] else ks + seq(n - t, j requires 0 <= j < n - t => t + j)
  }

  /** One round of the loop over the chain, at its link number `i`. */
  method Round(ctx: RangeContext, range: Range, cl: Link, lastKept: Link?, out: Link?,
               ghost links: seq<Link>, ghost bufs: seq<Buf>, ghost pieces: seq<Piece>,
               ghost st: Progress, ghost ks: seq<nat>, ghost t: nat, ghost i: nat)
    returns (lastKept': Link?, out': Link?, ends: bool, ghost ks': seq<nat>, ghost t': nat)
    requires Distinct(links) && Distinct(bufs) && Carries(links, bufs) && range.start < range.end
    requires t <= i < |links| == |pieces| && cl == links[i] && lastKept == (if t == 0 then null else links[t - 1])
    requires Linked(links, out, ks, t) && Looks(bufs, pieces, st, ks, t, i)
    requires !st.done && ctx.offset == st.offset
    modifies ctx`offset, links`next
    modifies bufs`pos, bufs`last, bufs`filePos, bufs`fileLast, bufs`lastBuf, bufs`sync
    ensures Carries(links, bufs) && t' <= i + 1
    ensures var st' := Step(st, pieces[i], range);
            && ctx.offset == st'.offset && (st'.done <==> ends) && Looks(bufs, pieces, st', ks', t', i + 1)
    ensures ends ==> t' == i + 1 && (forall a :: 0 <= a < |ks'| ==> ks'[a] < |links|) && IsChain(out', Pick(links, ks'))
    ensures !ends ==> Linked(links, out', ks', t') && cl.next == LinkAt(links, i + 1)
    ensures !ends ==> lastKept' == if t' == 0 then null else links[t' - 1]
  {
    hide Step, Linked, Looks, Shows, Pick, Positions, Buf.Valid, Buf.View, Buf.Data, Buf.Special;
    lastKept', out', ks', t' := lastKept, out, ks, t;
    var buf := cl.buf;
    var start := ctx.offset;
    var last := ctx.offset + buf.Size();
    ctx.offset := last;
    var kept;
    kept, ends := Treat(buf, range, start, last, bufs, pieces, st, ks, t, i);
    if kept {
      out' := LinkIn(links, cl, lastKept, out, ks, t, i);
      lastKept', ks', t' := cl, ks + [i], i + 1;
      if ends {
        CutAfter(links, cl, out', ks', i);
      } else {
        NextLink(links, out', ks', t', i);
      }
    } else {
      NextLink(links, out, ks, t, i);
    }
  }

  /** The loop over the chain.  `ks` and `t` are where the kept links and the tail behind them are. */
  method TrimChain(ctx: RangeContext, range: Range, chain: Link?, ghost links: seq<Link>, ghost bufs: seq<Buf>,
                   ghost pieces: seq<Piece>)
    returns (out: Link?, ghost ks: seq<nat>, ghost t: nat)
    requires range.start < range.end
    requires IsChain(chain, links) && Distinct(links) && Carries(links, bufs) && Distinct(bufs) && Shows(bufs, pieces)
    modifies ctx`offset, links`next
    modifies bufs`pos, bufs`last, bufs`filePos, bufs`fileLast, bufs`lastBuf, bufs`sync
    ensures Carries(links, bufs)
    ensures var st := Filter(pieces, old(ctx.offset), range);
            && ctx.offset == st.offset
            && Looks(bufs, pieces, st, ks, t, if st.done then t else |bufs|)
            && (forall a :: 0 <= a < |ks| ==> ks[a] < |links|)
            && (st.done ==> IsChain(out, Pick(links, ks)))
            && (!st.done ==> Linked(links, out, ks, t))
  {
    hide Filter, Step, Output, Looks, Linked, Shows, Pick, Positions, Buf.Valid, Buf.View, Buf.Data, Buf.Special;
    ghost var n, offset0 := |links|, ctx.offset;
    ghost var i: nat := 0;
    ks, t := [], 0;
    ghost var st := Filter([], offset0, range);
    FilterNone(offset0, range);
    assert pieces[..0] == [];
    out := null;
    Entry(chain, links, bufs, pieces, st);
    var lastKept: Link? := null;
    var cl := chain;
    while cl != null
      invariant t <= i <= n == |pieces| && cl == LinkAt(links, i)
      invariant st == Filter(pieces[..i], offset0, range) && !st.done && ctx.offset == st.offset
      invariant Carries(links, bufs)
      invariant Linked(links, out, ks, t) && Looks(bufs, pieces, st, ks, t, i)
      invariant lastKept == if t == 0 then null else links[t - 1]
      decreases n - i
    {
      FilterNext(pieces, i, offset0, range);
      var ends;
      lastKept, out, ends, ks, t := Round(ctx, range, cl, lastKept, out, links, bufs, pieces, st, ks, t, i);
      st := Step(st, pieces[i], range);
      if ends {
        FilterDone(pieces, i + 1, offset0, range);
        return;
      }
      cl := cl.next;
      i := i + 1;
    }
    assert pieces[..i] == pieces;
    PositionsBelow(links, out, ks, t);
  }

  lemma PositionsBelow(links: seq<Link>, out: Link?, ks: seq<nat>, t: nat)
    requires Linked(links, out, ks, t)
    ensures forall a :: 0 <= a < |ks| ==> ks[a] < |links|
  {
  }

  /** ngx_http_range_singlepart_body.  `links` and `bufs` are the chain passed in, and `pieces` what it
      shows; `passed` are the positions of the chain that is handed on. */
  method SinglepartBody(ctx: RangeContext, chain: Link?, ghost links: seq<Link>, ghost bufs: seq<Buf>,
                        ghost pieces: seq<Piece>)
    returns (out: Link?, ghost passed: seq<nat>)
    requires ctx.ranges != [] && ctx.ranges[0].start < ctx.ranges[0].end
    requires IsChain(chain, links) && Distinct(links) && Carries(links, bufs) && Distinct(bufs) && Shows(bufs, pieces)
    modifies ctx`offset, links`next
    modifies bufs`pos, bufs`last, bufs`filePos, bufs`fileLast, bufs`lastBuf, bufs`sync
    ensures ctx.offset == Filter(pieces, old(ctx.offset), ctx.ranges[0]).offset
    ensures forall a :: 0 <= a < |passed| ==> passed[a] < |links|
    ensures forall a, b :: 0 <= a < b < |passed| ==> passed[a] < passed[b]
    ensures IsChain(out, Pick(links, passed)) && Carries(links, bufs)
    ensures Shows(Pick(bufs, passed), Output(Filter(pieces, old(ctx.offset), ctx.ranges[0])))
  {
    hide Filter, Step, Output, Linked, Shows, Pick, Passed, Buf.Valid, Buf.View, Buf.Data, Buf.Special;
    ghost var st := Filter(pieces, ctx.offset, ctx.ranges[0]);
    ghost var ks, t;
    out, ks, t := TrimChain(ctx, ctx.ranges[0], chain, links, bufs, pieces);
    if st.done {
      passed := ks;
      DoneOutput(bufs, pieces, st, ks, t);
    } else {
      passed := Passed(ks, t, |links|);
      EndOutput(bufs, pieces, st, ks, t);
      EndChain(links, out, ks, t);
    }
  }

  lemma FilterNone(offset: int, r: Range)
    ensures Filter([], offset, r) == Progress(offset, [], [], false)
  {
  }

  /** Once the end of the range has been found the rest of the chain is not looked at. */
  lemma {:induction false} FilterDone(pieces: seq<Piece>, i: nat, offset: int, r: Range)
    requires i <= |pieces| && Filter(pieces[..i], offset, r).done
    ensures Filter(pieces, offset, r) == Filter(pieces[..i], offset, r)
    decreases |pieces|
  {
    if i < |pieces| {
      var front := pieces[..|pieces| - 1];
      assert front[..i] == pieces[..i];
      FilterDone(front, i, offset, r);
    } else {
      assert pieces[..i] == pieces;
    }
  }

  lemma Entry(chain: Link?, links: seq<Link>, bufs: seq<Buf>, pieces: seq<Piece>, st: Progress)
    requires IsChain(chain, links) && Shows(bufs, pieces) && st.kept == st.tail == []
    ensures |bufs| == |pieces| && Linked(links, null, [], 0) && Looks(bufs, pieces, st, [], 0, 0)
  {
    hide Buf.Valid, Buf.View, Buf.Data, Buf.Special;
  }

  lemma NextLink(links: seq<Link>, out: Link?, ks: seq<nat>, t: nat, i: nat)
    requires Linked(links, out, ks, t) && i < |links| && t - 1 <= i
    ensures links[i].next == LinkAt(links, i + 1)
  {
  }

  /** `cl->next = NULL`: ends the chain with the link just kept. */
  method CutAfter(ghost links: seq<Link>, cl: Link, out: Link?, ghost ks: seq<nat>, ghost i: nat)
    requires Distinct(links) && i < |links| && cl == links[i] && Linked(links, out, ks, i + 1)
    modifies cl`next
    ensures forall a :: 0 <= a < |ks| ==> ks[a] < |links|
    ensures forall a, b :: 0 <= a < b < |ks| ==> ks[a] < ks[b]
    ensures IsChain(out, Pick(links, ks))
  {
    cl.next := null;
  }

  lemma DoneOutput(bufs: seq<Buf>, pieces: seq<Piece>, st: Progress, ks: seq<nat>, t: nat)
    requires Looks(bufs, pieces, st, ks, t, t)
    ensures forall a :: 0 <= a < |ks| ==> ks[a] < |bufs|
    ensures Shows(Pick(bufs, ks), Output(st))
  {
    hide Buf.Valid, Buf.View, Buf.Data, Buf.Special;
  }

  lemma EndOutput(bufs: seq<Buf>, pieces: seq<Piece>, st: Progress, ks: seq<nat>, t: nat)
    requires Looks(bufs, pieces, st, ks, t, |bufs|)
    ensures forall a :: 0 <= a < |Passed(ks, t, |bufs|)| ==> Passed(ks, t, |bufs|)[a] < |bufs|
    ensures Shows(Pick(bufs, Passed(ks, t, |bufs|)), Output(st))
  {
    hide Buf.Valid, Buf.View, Buf.Data, Buf.Special;
  }

  lemma PassedInOrder(ks: seq<nat>, t: nat, n: nat)
    requires Positions(ks, t) && t <= n
    ensures var p := Passed(ks, t, n);
            && (forall a :: 0 <= a < |p| ==> p[a] < n)
            && (forall a, b :: 0 <= a < b < |p| ==> p[a] < p[b])
            && (p != [] ==> p[|p| - 1] == n - 1 && p[0] == ks[0])
  {
  }

  /** Of two neighbours among what is passed on, either both are kept ones, or the second is right behind
      the first in the chain. */
  lemma PassedNeighbours(ks: seq<nat>, t: nat, n: nat, a: nat)
    requires Positions(ks, t) && t <= n && a + 1 < |Passed(ks, t, n)|
    ensures var p := Passed(ks, t, n);
            if a < |ks| - 1 then p[a] == ks[a] && p[a + 1] == ks[a + 1] else p[a] >= t - 1 && p[a + 1] == p[a] + 1
  {
  }

  lemma EndChain(links: seq<Link>, out: Link?, ks: seq<nat>, t: nat)
    requires Linked(links, out, ks, t)
    ensures forall a :: 0 <= a < |Passed(ks, t, |links|)| ==> Passed(ks, t, |links|)[a] < |links|
    ensures forall a, b :: 0 <= a < b < |Passed(ks, t, |links|)| ==>
      Passed(ks, t, |links|)[a] < Passed(ks, t, |links|)[b]
    ensures IsChain(out, Pick(links, Passed(ks, t, |links|)))
  {
    hide Passed, Positions;
    PassedInOrder(ks, t, |links|);
    PassedEmpty(ks, t, |links|);
    var p := Passed(ks, t, |links|);
    forall a | 0 <= a < |p| ensures links[p[a]].next == LinkAt(Pick(links, p), a + 1) {
      NextPassed(links, out, ks, t, a);
    }
  }

  lemma NextPassed(links: seq<Link>, out: Link?, ks: seq<nat>, t: nat, a: nat)
    requires Linked(links, out, ks, t) && a < |Passed(ks, t, |links|)|
    ensures var p := Passed(ks, t, |links|);
            p[a] < |links| && links[p[a]].next == if a + 1 < |p| && p[a + 1] < |links| then links[p[a + 1]] else null
  {
    hide Passed, Positions;
    PassedInOrder(ks, t, |links|);
    if a + 1 < |Passed(ks, t, |links|)| {
      PassedNeighbours(ks, t, |links|, a);
    }
  }

  lemma PassedEmpty(ks: seq<nat>, t: nat, n: nat)
    requires t <= n
    ensures Passed(ks, t, n) == [] <==> ks == []
  {
  }
}
