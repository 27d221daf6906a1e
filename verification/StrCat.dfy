/** strcat_s on flat memory.  It finds out about overlap only while it copies, by watching for one of
    its two pointers to run into the other string; `CatCode` says in advance what it will find. */
module StrCat {
  import opened Options
  import opened CStrings
  import opened CMemory
  import opened StrCopy

  /** The code strcat_s returns, from the lengths of the two strings and where they lie. */
  function CatCode(m: seq<char>, dest: Option<nat>, destMax: nat, src: Option<nat>): Errno
    requires Checked(dest, destMax, src) ==> dest.value <= |m| && src.value <= |m|
  {
    if !Checked(dest, destMax, src) then Refusal(dest, destMax)
    else
      var d, s := dest.value, src.value;
      var len := StrLen(m, d);
      if d < s && s - d < Min(len, destMax) then EOVERLAP_AND_RESET
      else if len >= destMax then EINVAL_AND_RESET
      else AppendCode(StrLen(m, s), destMax - len, if d < s then s - d - len else d - s, d < s)
  }

  /** What happens to `n` characters and their terminator, with room for `room` and a pointer `gap`
      characters away from the string it must not reach.  A gap of zero is never noticed: the source
      then starts where the destination ends, and is empty, or the two strings are the same. */
  function AppendCode(n: nat, room: nat, gap: int, below: bool): Errno {
    if n < room && (n < gap || (gap == 0 && (below || n == 0))) then EOK
    else if gap == 0 || room <= gap then ERANGE_AND_RESET
    else EOVERLAP_AND_RESET
  }

  /** The characters copied so far, up to but not with the terminator of the source. */
  predicate Copied(m: seq<char>, m0: seq<char>, to: nat, from: nat, k: nat) {
    && |m| == |m0| && to + k <= |m| && from + k <= |m|
    && m[to..to + k] == m0[from..from + k] && SameOutside(m, m0, to, k)
  }

  /** The copy loop for a destination below the source: it stops when it reaches the source. */
  method AppendBelow(mem: array<char>, to: nat, from: nat, room: nat) returns (e: Errno)
    requires 0 < room && to + room <= mem.Length && Terminated(mem[..], from) && to <= from
    requires to == from ==> mem[from] == '\0'
    modifies mem
    ensures e == AppendCode(old(StrLen(mem[..], from)), room, from - to, true)
    ensures if e == EOK then Copied(mem[..], old(mem[..]), to, from, old(StrLen(mem[..], from)) + 1)
            else SameOutside(mem[..], old(mem[..]), to, room)
  {
    hide StrLen, Copied, SameOutside;
    ghost var m0 := mem[..];
    ghost var n := StrLen(m0, from);
    var d, s, available := to, from, room;
    NothingCopied(m0, to, from);
    while true
      invariant to <= d < to + room && s - from == d - to <= n && available == room - (d - to)
      invariant d < from || d == to
      invariant Copied(mem[..], m0, to, from, d - to)
      decreases available
    {
      ghost var m := mem[..];
      CopiedMore(m, m0, to, from, d - to, room);
      mem[d] := mem[s];
      assert mem[..] == m[d := m[s]];
      d, s := d + 1, s + 1;
      if mem[d - 1] == '\0' {
        StrLenIs(m0, from, d - 1 - to);
        return EOK;
      }
      available := available - 1;
      if available == 0 {
        return ERANGE_AND_RESET;
      }
      if d == from {
        return EOVERLAP_AND_RESET;
      }
    }
  }

  lemma NothingCopied(m: seq<char>, to: nat, from: nat)
    requires to <= |m| && from <= |m|
    ensures Copied(m, m, to, from, 0)
  {
  }

  /** One more character copied from a place that has not been written yet. */
  lemma CopiedMore(m: seq<char>, m0: seq<char>, to: nat, from: nat, k: nat, room: nat)
    requires Copied(m, m0, to, from, k) && to + k < |m| && from + k < |m| && k < room
    requires to + k < from || from + k < to || k == 0
    ensures m[from + k] == m0[from + k]
    ensures Copied(m[to + k := m[from + k]], m0, to, from, k + 1)
    ensures SameOutside(m[to + k := m[from + k]], m0, to, room)
  {
    var m' := m[to + k := m[from + k]];
    assert m'[to..to + k + 1] == m[to..to + k] + [m[from + k]];
    assert m0[from..from + k + 1] == m0[from..from + k] + [m0[from + k]];
  }

  /** The copy loop for a destination above the source, whose string starts at `guard`: it stops when
      it has read the source up to there.  When both strings are the same it follows itself. */
  method AppendAbove(mem: array<char>, to: nat, from: nat, room: nat, guard: nat) returns (e: Errno)
    requires 0 < room && to + room <= mem.Length && Terminated(mem[..], from) && from <= guard <= to
    requires to == guard + StrLen(mem[..], guard)
    modifies mem
    ensures e == AppendCode(old(StrLen(mem[..], from)), room, guard - from, false)
    ensures if e == EOK then Copied(mem[..], old(mem[..]), to, from, old(StrLen(mem[..], from)) + 1)
            else SameOutside(mem[..], old(mem[..]), to, room)
  {
    hide Following, SameOutside, StrLen, Copied;
    ghost var m0 := mem[..];
    var d, s, available := to, from, room;
    StartFollowing(m0, to, from, guard);
    while true
      invariant to <= d < to + room && s - from == d - to && available == room - (d - to)
      invariant (from == guard || s < guard) && Following(mem[..], m0, to, from, guard, d - to)
      decreases available
    {
      ghost var m := mem[..];
      mem[d] := mem[s];
      assert mem[..] == m[d := m[s]];
      Follow(m, m0, to, from, guard, d - to, room);
      d, s := d + 1, s + 1;
      if mem[d - 1] == '\0' {
        return EOK;
      }
      available := available - 1;
      if available == 0 {
        return ERANGE_AND_RESET;
      }
      if s == guard {
        return EOVERLAP_AND_RESET;
      }
    }
  }

  /** `k` characters of a source below its destination have been copied, none of them the terminator.
      Below the destination's own string the source is as it was; if it is that string, all that has
      been read and written is nonempty. */
  ghost predicate Following(m: seq<char>, m0: seq<char>, to: nat, from: nat, guard: nat, k: nat) {
    && SameOutside(m, m0, to, k) && from <= guard <= to && to + k <= |m| && Terminated(m0, from)
    && (from == guard ==> to == from + StrLen(m0, from))
    && if from < guard then k <= StrLen(m0, from) && from + k <= guard && m[to..to + k] == m0[from..from + k]
       else k > 0 ==> to > from && forall i :: from <= i < to + k ==> m[i] != '\0'
  }

  lemma StartFollowing(m0: seq<char>, to: nat, from: nat, guard: nat)
    requires from <= guard <= to <= |m0| && Terminated(m0, from) && to == guard + StrLen(m0, guard)
    ensures Following(m0, m0, to, from, guard, 0)
  {
  }

  lemma Follow(m: seq<char>, m0: seq<char>, to: nat, from: nat, guard: nat, k: nat, room: nat)
    requires Following(m, m0, to, from, guard, k) && to + k < |m| && k < room && (from == guard || from + k < guard)
    ensures from + k < |m|
    ensures var m', n := m[to + k := m[from + k]], StrLen(m0, from);
            && SameOutside(m', m0, to, room)
            && if m[from + k] == '\0' then k == n && (from == guard ==> n == 0) && Copied(m', m0, to, from, k + 1)
               else Following(m', m0, to, from, guard, k + 1) && (from < guard ==> k < n) && (from == guard ==> n > 0)
  {
    if from < guard {
      FollowBelow(m, m0, to, from, guard, k, room);
    } else {
      FollowItself(m, m0, to, from, k, room);
    }
  }

  lemma FollowBelow(m: seq<char>, m0: seq<char>, to: nat, from: nat, guard: nat, k: nat, room: nat)
    requires Following(m, m0, to, from, guard, k) && to + k < |m| && k < room && from + k < guard
    ensures var m', n := m[to + k := m[from + k]], StrLen(m0, from);
            && SameOutside(m', m0, to, room)
            && if m[from + k] == '\0' then k == n && Copied(m', m0, to, from, k + 1)
               else Following(m', m0, to, from, guard, k + 1) && k < n
  {
    CopiedMore(m, m0, to, from, k, room);
    StrLenIs(m0, from, if m[from + k] == '\0' then k else k + 1);
    hide StrLen, SameOutside;
  }

  lemma FollowItself(m: seq<char>, m0: seq<char>, to: nat, from: nat, k: nat, room: nat)
    requires Following(m, m0, to, from, from, k) && to + k < |m| && k < room
    ensures var m', n := m[to + k := m[from + k]], StrLen(m0, from);
            && SameOutside(m', m0, to, room)
            && if m[from + k] == '\0' then k == n == 0 && Copied(m', m0, to, from, k + 1)
               else Following(m', m0, to, from, from, k + 1) && n > 0
  {
  }

  /** The loop that looks for the end of the destination, within its size.  With a guard it gives up
      when it meets the source first. */
  method SeekEnd(mem: array<char>, dest: nat, destMax: nat, guard: Option<nat>)
    returns (hit: bool, end: nat, available: nat)
    requires dest + destMax <= mem.Length
    ensures var len := StrLen(mem[..], dest);
            && (hit <==> guard.Some? && dest <= guard.value && guard.value - dest < Min(len, destMax))
            && (!hit ==>
                  available == (if len >= destMax then 0 else destMax - len) && end == dest + (destMax - available))
  {
    hit, end, available := false, dest, destMax;
    while available > 0 && mem[end] != '\0'
      invariant 0 <= available <= destMax && end == dest + (destMax - available)
      invariant forall i :: dest <= i < end ==> mem[i] != '\0'
      invariant guard.Some? && dest <= guard.value ==> end <= guard.value
    {
      StrLenIs(mem[..], dest, end - dest + 1);
      if guard == Some(end) {
        hit := true;
        return;
      }
      end := end + 1;
      available := available - 1;
    }
    StrLenIs(mem[..], dest, end - dest);
  }

  /** strcat_s */
  method StrCat(mem: array<char>, dest: Option<nat>, destMax: nat, src: Option<nat>) returns (e: Errno)
    requires Buffers(mem[..], dest, destMax, src)
    modifies mem
    ensures e == CatCode(old(mem[..]), dest, destMax, src)
    ensures destMax == 0 || destMax > 0x7FFF_FFFF ==> e == ERANGE
    ensures 0 < destMax <= 0x7FFF_FFFF ==>
      && (dest.None? ==> e == EINVAL)
      && (dest.Some? && src.None? ==> e == EINVAL_AND_RESET)
      && (dest.Some? && src.Some? ==>
            old(StrLen(mem[..], dest.value)) >= destMax ==>
              e == if dest.value < src.value < dest.value + destMax then EOVERLAP_AND_RESET else EINVAL_AND_RESET)
    ensures Leaves(e, mem[..], old(mem[..]), dest, destMax,
                   if e == EOK then old(StrAt(mem[..], dest.value) + (StrAt(mem[..], src.value) + ['\0'])) else [])
    ensures e == EOK ==> BothStand(mem[..], old(mem[..]), dest.value, src.value)
  {
    hide StrLen, SameOutside, Leaves, StrAt, Copied, BothStand;
    ghost var m0 := mem[..];
    NothingLeaves(m0, dest, destMax);
    if destMax == 0 || destMax > STRING_MAX_LEN {
      return ERANGE;
    }
    if dest.None? || src.None? {
      if dest.Some? {
        ResetLeaves(m0, dest, destMax);
        mem[dest.value] := '\0';
        return EINVAL_AND_RESET;
      }
      return EINVAL;
    }
    ResetLeaves(m0, dest, destMax);
    var d, s := dest.value, src.value;
    var hit, end, available := SeekEnd(mem, d, destMax, if d < s then Some(s) else None);
    if hit {
      mem[d] := '\0';
      return EOVERLAP_AND_RESET;
    }
    if available == 0 {
      mem[d] := '\0';
      return EINVAL_AND_RESET;
    }
    e := Append(mem, d, s, end, available, destMax);
    if e == EOK {
      SumStands(mem[..], m0, d, destMax, s);
    }
  }

  /** The string that was at `d` stands there, and the one that was at `s` behind it. */
  predicate BothStand(m: seq<char>, m0: seq<char>, d: nat, s: nat)
    requires d <= |m0| && s <= |m0|
  {
    var len, n := StrLen(m0, d), StrLen(m0, s);
    && d + len + n < |m| && m[d..d + len] == m0[d..d + len]
    && m[d + len..d + len + n] == m0[s..s + n] && m[d + len + n] == '\0'
  }

  lemma SumStands(m: seq<char>, m0: seq<char>, d: nat, destMax: nat, s: nat)
    requires d <= |m0| && s <= |m0| && Leaves(EOK, m, m0, Some(d), destMax, StrAt(m0, d) + (StrAt(m0, s) + ['\0']))
    ensures BothStand(m, m0, d, s)
  {
    hide Leaves;
    var a, b := StrAt(m0, d), StrAt(m0, s);
    assert a + (b + ['\0']) == (a + b) + ['\0'];
    TextStands(m, m0, d, destMax, a + b);
    var all := m[d..d + |a + b|];
    assert all[..|a|] == a && all[|a|..] == b;
    hide StrLen, StrAt;
    assert m[d..d + |a|] == all[..|a|];
    assert m[d + |a|..d + |a| + |b|] == all[|a|..];
  }

  /** The two copy loops, and the reset when they fail. */
  method Append(mem: array<char>, d: nat, s: nat, end: nat, available: nat, destMax: nat) returns (e: Errno)
    requires d + destMax <= mem.Length && InRange(destMax) && Terminated(mem[..], s)
    requires end == d + StrLen(mem[..], d) && 0 < available == destMax - StrLen(mem[..], d)
    requires d < s ==> end <= s
    modifies mem
    ensures e == AppendCode(old(StrLen(mem[..], s)), available, if d < s then s - end else d - s, d < s)
    ensures Leaves(e, mem[..], old(mem[..]), Some(d), destMax,
                   if e == EOK then old(StrAt(mem[..], d) + (StrAt(mem[..], s) + ['\0'])) else [])
  {
    hide StrLen, SameOutside, Leaves, StrAt, Copied;
    ghost var m0 := mem[..];
    if d < s {
      EndIsNul(m0, d, s, end);
      e := AppendBelow(mem, end, s, available);
    } else {
      e := AppendAbove(mem, end, s, available, d);
    }
    if e == EOK {
      CatLeaves(mem[..], m0, d, s, end, destMax);
    } else {
      ghost var m1 := mem[..];
      mem[d] := '\0';
      assert mem[..] == m1[d := '\0'];
      CatFails(e, m1, m0, d, end, destMax);
    }
  }

  lemma EndIsNul(m: seq<char>, d: nat, s: nat, end: nat)
    requires s < |m| && d <= |m| && end == d + StrLen(m, d)
    ensures end == s ==> m[s] == '\0'
  {
  }

  lemma CatLeaves(m: seq<char>, m0: seq<char>, d: nat, s: nat, end: nat, destMax: nat)
    requires d <= |m0| && d <= end == d + StrLen(m0, d) && Terminated(m0, s)
    requires Copied(m, m0, end, s, StrLen(m0, s) + 1) && StrLen(m0, d) + StrLen(m0, s) + 1 <= destMax
    ensures Leaves(EOK, m, m0, Some(d), destMax, StrAt(m0, d) + (StrAt(m0, s) + ['\0']))
  {
    hide StrLen;
    var n := StrLen(m0, s) + 1;
    assert m[d..end] == StrAt(m0, d);
    assert m0[s..s + n] == StrAt(m0, s) + ['\0'];
    hide StrAt;
    assert m[d..end + n] == m[d..end] + m[end..end + n];
  }

  lemma CatFails(e: Errno, m: seq<char>, m0: seq<char>, d: nat, end: nat, destMax: nat)
    requires e !in {EOK, EINVAL, ERANGE} && d <= end <= d + destMax <= |m0| && InRange(destMax)
    requires SameOutside(m, m0, end, d + destMax - end)
    ensures Leaves(e, m[d := '\0'], m0, Some(d), destMax, [])
  {
  }

  // ---------------------------------------------------------------- what the codes promise

  /** The string at the end of the destination and the source do not share a character. */
  predicate Apart(d: nat, s: nat, len: nat, n: nat) {
    d + len + n + 1 <= s || s + n + 1 <= d
  }

  /** strcat_s succeeds exactly when the destination ends within its size, the two strings fit it
      together, and the source lies apart from all of the result; or the source is empty and is the
      destination's own terminator. */
  lemma CatSucceedsIff(m: seq<char>, d: nat, destMax: nat, s: nat)
    requires Buffers(m, Some(d), destMax, Some(s)) && InRange(destMax)
    ensures var len, n := StrLen(m, d), StrLen(m, s);
            CatCode(m, Some(d), destMax, Some(s)) == EOK <==>
              len + n < destMax && (Apart(d, s, len, n) || (n == 0 && s == d + len))
  {
    var len, n := StrLen(m, d), StrLen(m, s);
    if s <= d {
      // the source's string cannot end inside the destination's
      if d - s <= n {
        StrLenIs(m, s, d - s);
        SameEnd(m, s, d);
      }
    } else if s - d < len {
      SameEnd(m, d, s);
    }
  }

  /** Strings that would fit but overlap are reported as overlapping, with one exception: a string
      appended to itself is reported as out of range. */
  lemma OverlapReported(m: seq<char>, d: nat, destMax: nat, s: nat)
    requires Buffers(m, Some(d), destMax, Some(s)) && InRange(destMax)
    requires StrLen(m, d) + StrLen(m, s) < destMax
    requires CatCode(m, Some(d), destMax, Some(s)) != EOK
    ensures CatCode(m, Some(d), destMax, Some(s)) == if s == d then ERANGE_AND_RESET else EOVERLAP_AND_RESET
  {
    if d < s && s - d < StrLen(m, d) {
      SameEnd(m, d, s);
    }
  }

  /** Strings that lie apart but do not fit are reported as out of range. */
  lemma NotFitting(m: seq<char>, d: nat, destMax: nat, s: nat)
    requires Buffers(m, Some(d), destMax, Some(s)) && InRange(destMax)
    requires d + destMax <= s || s + StrLen(m, s) + 1 <= d
    requires StrLen(m, d) < destMax <= StrLen(m, d) + StrLen(m, s)
    ensures CatCode(m, Some(d), destMax, Some(s)) == ERANGE_AND_RESET
  {
  }

  /** "a" appended to itself, with room for "aa". */
  lemma SelfAppend()
    ensures var m := ['a', '\0', '\0', '\0'];
            && StrLen(m, 0) + StrLen(m, 0) < 4
            && CatCode(m, Some(0), 4, Some(0)) == ERANGE_AND_RESET
  {
    var m := ['a', '\0', '\0', '\0'];
    assert StrLen(m, 1) == 0;
    OverlapReported(m, 0, 4, 0);
  }

  lemma {:induction false} SameEnd(m: seq<char>, p: nat, q: nat)
    requires p <= |m| && p <= q <= p + StrLen(m, p)
    ensures q + StrLen(m, q) == p + StrLen(m, p)
    decreases q - p
  {
    if p < q { SameEnd(m, p + 1, q); }
  }
}
