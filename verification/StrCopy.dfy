/** strcpy_s and strncpy_s on flat memory: exactly when they copy, what they leave behind otherwise. */
module StrCopy {
  import opened Options
  import opened CStrings
  import opened CMemory

  // ---------------------------------------------------------------- strcpy_s

  /** The code strcpy_s returns.  It copies when the string fits and either lies apart from its
      destination or is already there. */
  function CopyCode(m: seq<char>, dest: Option<nat>, destMax: nat, src: Option<nat>): Errno
    requires Checked(dest, destMax, src) ==> src.value <= |m|
  {
    if !Checked(dest, destMax, src) then Refusal(dest, destMax)
    else
      var n := StrLen(m, src.value) + 1;
      if n > destMax then ERANGE_AND_RESET
      else if dest == src || Disjoint(dest.value, src.value, n) then EOK
      else EOVERLAP_AND_RESET
  }

  /** The buffers the caller vouches for: `destMax` characters at `dest`, a string at `src`. */
  predicate Buffers(m: seq<char>, dest: Option<nat>, destMax: nat, src: Option<nat>) {
    && (dest.Some? && InRange(destMax) ==> dest.value + destMax <= |m|)
    && (Checked(dest, destMax, src) ==> Terminated(m, src.value))
  }

  method StrLenLoop(mem: array<char>, p: nat) returns (n: nat)
    requires Terminated(mem[..], p)
    ensures n == StrLen(mem[..], p)
  {
    n := 0;
    StrLenIs(mem[..], p, 0);
    while mem[p + n] != '\0'
      invariant n <= StrLen(mem[..], p) && p + n < mem.Length
      invariant forall i :: p <= i < p + n ==> mem[i] != '\0'
      decreases mem.Length - n
    {
      n := n + 1;
      StrLenIs(mem[..], p, n);
    }
    StrLenIs(mem[..], p, n);
  }

  /** strcpy_error */
  method StrCpyError(mem: array<char>, dest: Option<nat>, destMax: nat, src: Option<nat>) returns (e: Errno)
    requires Buffers(mem[..], dest, destMax, src)
    modifies mem
    ensures e == if !Checked(dest, destMax, src) then Refusal(dest, destMax)
                 else if old(StrLen(mem[..], src.value)) + 1 > destMax then ERANGE_AND_RESET else EOK
    ensures mem[..] == if e in {EOK, EINVAL, ERANGE} then old(mem[..]) else old(mem[..])[dest.value := '\0']
  {
    if destMax == 0 || destMax > STRING_MAX_LEN {
      return ERANGE;
    } else if dest.None? || src.None? {
      if dest.Some? {
        mem[dest.value] := '\0';
        return EINVAL_AND_RESET;
      }
      return EINVAL;
    } else {
      var n := StrLenLoop(mem, src.value);
      if n + 1 > destMax {
        mem[dest.value] := '\0';
        return ERANGE_AND_RESET;
      }
      return EOK;
    }
  }

  /** The copying part of strcpy_s: the string of `n` characters at `s`, with its terminator, unless
      it overlaps its destination. */
  method CopyApart(mem: array<char>, d: nat, s: nat, n: nat, destMax: nat) returns (e: Errno)
    requires Terminated(mem[..], s) && n == StrLen(mem[..], s) + 1 <= destMax && d + destMax <= mem.Length && d != s
    requires InRange(destMax)
    modifies mem
    ensures e == if Disjoint(d, s, n) then EOK else EOVERLAP_AND_RESET
    ensures Leaves(e, mem[..], old(mem[..]), Some(d), destMax,
                   if e == EOK then old(StrAt(mem[..], s)) + ['\0'] else [])
  {
    hide StrLen, SameOutside, Leaves, StrAt;
    ghost var m0 := mem[..];
    if d < s {
      if d + n <= s {
        MemCpy(mem, d, s, n);
        CopyLeaves(mem[..], m0, d, s, destMax);
        return EOK;
      }
    } else {
      if s + n <= d {
        MemCpy(mem, d, s, n);
        CopyLeaves(mem[..], m0, d, s, destMax);
        return EOK;
      }
    }
    mem[d] := '\0';
    ResetLeaves(m0, Some(d), destMax);
    return EOVERLAP_AND_RESET;
  }

  /** strcpy_s */
  method StrCpy(mem: array<char>, dest: Option<nat>, destMax: nat, src: Option<nat>) returns (e: Errno)
    requires Buffers(mem[..], dest, destMax, src)
    modifies mem
    ensures e == CopyCode(old(mem[..]), dest, destMax, src)
    ensures destMax == 0 || destMax > 0x7FFF_FFFF ==> e == ERANGE
    ensures 0 < destMax <= 0x7FFF_FFFF ==>
      && (dest.None? ==> e == EINVAL)
      && (dest.Some? && src.None? ==> e == EINVAL_AND_RESET)
      && (dest.Some? && src.Some? ==>
            e == if old(StrLen(mem[..], src.value)) + 1 > destMax then ERANGE_AND_RESET
                 else if dest == src || Disjoint(dest.value, src.value, old(StrLen(mem[..], src.value)) + 1) then EOK
                 else EOVERLAP_AND_RESET)
    ensures Leaves(e, mem[..], old(mem[..]), dest, destMax,
                   if e == EOK then old(StrAt(mem[..], src.value)) + ['\0'] else [])
    ensures e == EOK ==>
      StandsAt(mem[..], dest.value, old(mem[..]), src.value, old(StrLen(mem[..], src.value)))
  {
    hide StrLen, SameOutside, Leaves, StrAt, StandsAt;
    ghost var m0 := mem[..];
    NothingLeaves(m0, dest, destMax);
    if dest.Some? && InRange(destMax) {
      ResetLeaves(m0, dest, destMax);
    }
    if destMax > 0 && destMax <= STRING_MAX_LEN && dest.Some? && src.Some? && dest != src {
      var d, s := dest.value, src.value;
      var n := BoundedLength(mem, s, destMax);
      if n <= destMax {
        e := CopyApart(mem, d, s, n, destMax);
        if e == EOK {
          StringStands(mem[..], m0, d, destMax, s);
        }
        return;
      }
    }
    e := StrCpyError(mem, dest, destMax, src);
    if e == EOK {
      SameAsItself(m0, src.value, StrLen(m0, src.value) + 1);
      CopyLeaves(m0, m0, src.value, src.value, destMax);
      StringStands(m0, m0, src.value, destMax, src.value);
    }
  }

  /** The string that was at `s` stands at `d`. */
  lemma StringStands(m: seq<char>, m0: seq<char>, d: nat, destMax: nat, s: nat)
    requires s <= |m0| && Leaves(EOK, m, m0, Some(d), destMax, StrAt(m0, s) + ['\0'])
    ensures StandsAt(m, d, m0, s, StrLen(m0, s))
  {
    hide Leaves;
    TextStands(m, m0, d, destMax, StrAt(m0, s));
  }

  /** The scan of strcpy_s: the length with the terminator, or just more than the limit. */
  method BoundedLength(mem: array<char>, s: nat, limit: nat) returns (n: nat)
    requires Terminated(mem[..], s) && limit > 0
    ensures n == if StrLen(mem[..], s) < limit then StrLen(mem[..], s) + 1 else limit + 1
  {
    var end, left: int := s, limit;
    StrLenIs(mem[..], s, 0);
    while true
      invariant end == s + (limit - left) && 0 <= left <= limit && end < mem.Length
      invariant limit - left <= StrLen(mem[..], s)
      invariant forall i :: s <= i < end ==> mem[i] != '\0'
      decreases left
    {
      var c := mem[end];
      end := end + 1;
      if c == '\0' {
        StrLenIs(mem[..], s, end - 1 - s);
        break;
      }
      StrLenIs(mem[..], s, end - s);
      var more := left > 0;
      left := left - 1;
      if !more {
        break;
      }
    }
    n := end - s;
  }

  // ---------------------------------------------------------------- strncpy_s

  function Min(a: nat, b: nat): nat {
    if a < b then a else b
  }

  /** The code strncpy_s returns (non-Windows build).  The room it looks at for overlap is one more than
      the characters it copies, for the terminator. */
  function CopyNCode(m: seq<char>, dest: Option<nat>, destMax: nat, src: Option<nat>, count: nat): Errno
    requires Checked(dest, destMax, src) ==> src.value <= |m|
  {
    if !Checked(dest, destMax, src) then Refusal(dest, destMax)
    else if count > STRING_MAX_LEN then ERANGE_AND_RESET
    else if count == 0 then EOK
    else
      var n := Min(StrLen(m, src.value), count);
      if n >= destMax then ERANGE_AND_RESET
      else if dest == src || Disjoint(dest.value, src.value, n + 1) then EOK
      else EOVERLAP_AND_RESET
  }

  /** What strncpy_s leaves at its destination on success. */
  function Truncated(m: seq<char>, p: nat, count: nat): seq<char>
    requires p <= |m|
  {
    StrAt(m, p)[..Min(StrLen(m, p), count)] + ['\0']
  }

  /** The caller vouches for the destination and for as much of the source as may be read. */
  predicate NBuffers(m: seq<char>, dest: Option<nat>, destMax: nat, src: Option<nat>, count: nat) {
    && (dest.Some? && InRange(destMax) ==> dest.value + destMax <= |m|)
    && (Checked(dest, destMax, src) ==>
         && src.value <= |m|
         && (Terminated(m, src.value) || StrLen(m, src.value) >= count || StrLen(m, src.value) >= destMax))
  }

  /** strncpy_error */
  method StrNCpyError(mem: array<char>, dest: Option<nat>, destMax: nat, src: Option<nat>, count: nat)
    returns (e: Errno)
    requires NBuffers(mem[..], dest, destMax, src, count)
    requires Checked(dest, destMax, src) && 0 < count <= STRING_MAX_LEN ==> Terminated(mem[..], src.value)
    modifies mem
    ensures e ==
      if !Checked(dest, destMax, src) then Refusal(dest, destMax)
      else if count > STRING_MAX_LEN then ERANGE_AND_RESET
      else if count == 0 then EOK
      else if old(Min(StrLen(mem[..], src.value), count)) + 1 > destMax then ERANGE_AND_RESET else EOK
    ensures mem[..] ==
      if e in {EINVAL, ERANGE} || (e == EOK && count > 0) then old(mem[..]) else old(mem[..])[dest.value := '\0']
  {
    if destMax == 0 || destMax > STRING_MAX_LEN {
      return ERANGE;
    } else if dest.None? || src.None? {
      if dest.Some? {
        mem[dest.value] := '\0';
        return EINVAL_AND_RESET;
      }
      return EINVAL;
    } else if count > STRING_MAX_LEN {
      mem[dest.value] := '\0';
      return ERANGE_AND_RESET;
    } else if count == 0 {
      mem[dest.value] := '\0';
      return EOK;
    } else {
      var n := StrLenLoop(mem, src.value);
      if Min(n, count) + 1 > destMax {
        mem[dest.value] := '\0';
        return ERANGE_AND_RESET;
      }
      return EOK;
    }
  }

  /** The scan of strncpy_s: how far it got, and what is left of the two limits. */
  method BoundedNLength(mem: array<char>, s: nat, destMax: nat, count: nat)
    returns (end: nat, destLeft: nat, countLeft: nat)
    requires s <= mem.Length && 0 < destMax && 0 < count
    requires Terminated(mem[..], s) || StrLen(mem[..], s) >= count || StrLen(mem[..], s) >= destMax
    ensures var n := StrLen(mem[..], s);
      if n >= destMax && count >= destMax then destLeft == 0
      else if n >= count then destLeft > 0 && countLeft == 0
      else destLeft > 0 && countLeft > 0 && end == s + n + 1
  {
    end, destLeft, countLeft := s, destMax, count;
    while true
      invariant s <= end <= mem.Length && destLeft == destMax - (end - s) > 0 && countLeft == count - (end - s) > 0
      invariant end - s <= StrLen(mem[..], s)
      invariant forall i :: s <= i < end ==> mem[i] != '\0'
      decreases destLeft
    {
      var c := mem[end];
      end := end + 1;
      if c == '\0' {
        StrLenIs(mem[..], s, end - 1 - s);
        break;
      }
      StrLenIs(mem[..], s, end - s);
      destLeft := destLeft - 1;
      if destLeft == 0 {
        break;
      }
      countLeft := countLeft - 1;
      if countLeft == 0 {
        break;
      }
    }
  }

  /** The copying part of strncpy_s. */
  method CopyNApart(mem: array<char>, d: nat, s: nat, size: nat, fill: bool, destMax: nat, count: nat)
    returns (e: Errno)
    requires s <= mem.Length && d + destMax <= mem.Length && 0 < count && InRange(destMax)
    requires size == Min(StrLen(mem[..], s), count) + 1 <= destMax
    requires fill <==> StrLen(mem[..], s) >= count
    requires fill || Terminated(mem[..], s)
    modifies mem
    ensures e == if d == s || Disjoint(d, s, size) then EOK else EOVERLAP_AND_RESET
    ensures Leaves(e, mem[..], old(mem[..]), Some(d), destMax,
                   if e == EOK then old(Truncated(mem[..], s, count)) else [])
  {
    hide StrLen, StrAt, SameOutside, Leaves, Truncated, Terminated;
    ghost var m0 := mem[..];
    if (d < s && d + size <= s) || (s < d && s + size <= d) || d == s {
      SizeFits(m0, s, size, fill, count);
      if fill {
        MemCpy(mem, d, s, size - 1);
        ghost var m1 := mem[..];
        mem[d + size - 1] := '\0';
        assert mem[..] == m1[d + size - 1 := '\0'];
        TerminatedCopy(mem[..], m1, m0, d, s, size);
      } else {
        MemCpy(mem, d, s, size);
        WholeCopy(mem[..], m0, d, s, size);
      }
      TruncatedLeaves(mem[..], m0, d, s, size, destMax, count);
      return EOK;
    } else {
      mem[d] := '\0';
      ResetLeaves(m0, Some(d), destMax);
      return EOVERLAP_AND_RESET;
    }
  }

  lemma SizeFits(m: seq<char>, s: nat, size: nat, fill: bool, count: nat)
    requires s <= |m| && 0 < count && size == Min(StrLen(m, s), count) + 1
    requires (fill <==> StrLen(m, s) >= count) && (fill || Terminated(m, s))
    ensures s + size - 1 <= |m| && (!fill ==> s + size <= |m| && m[s + size - 1] == '\0')
  {
  }

  lemma TerminatedCopy(m: seq<char>, m1: seq<char>, m0: seq<char>, d: nat, s: nat, size: nat)
    requires 0 < size && d + size <= |m1| && s + size - 1 <= |m0|
    requires SameOutside(m1, m0, d, size - 1) && m1[d..d + (size - 1)] == m0[s..s + (size - 1)]
    requires m == m1[d + size - 1 := '\0']
    ensures SameOutside(m, m0, d, size) && m[d..d + size] == m0[s..s + size - 1] + ['\0']
  {
    assert m[d..d + size] == m1[d..d + (size - 1)] + ['\0'];
  }

  lemma WholeCopy(m: seq<char>, m0: seq<char>, d: nat, s: nat, size: nat)
    requires 0 < size && d + size <= |m| && s + size <= |m0| && m0[s + size - 1] == '\0'
    requires m[d..d + size] == m0[s..s + size]
    ensures m[d..d + size] == m0[s..s + size - 1] + ['\0']
  {
  }

  lemma TruncatedLeaves(m: seq<char>, m0: seq<char>, d: nat, s: nat, size: nat, destMax: nat, count: nat)
    requires s <= |m0| && size == Min(StrLen(m0, s), count) + 1 <= destMax && d + size <= |m| && s + size - 1 <= |m0|
    requires SameOutside(m, m0, d, size) && m[d..d + size] == m0[s..s + size - 1] + ['\0']
    ensures Leaves(EOK, m, m0, Some(d), destMax, Truncated(m0, s, count))
  {
    hide SameOutside;
    assert Truncated(m0, s, count) == StrAt(m0, s)[..size - 1] + ['\0'];
    assert StrAt(m0, s)[..size - 1] == m0[s..s + size - 1];
  }

  /** strncpy_s */
  method StrNCpy(mem: array<char>, dest: Option<nat>, destMax: nat, src: Option<nat>, count: nat) returns (e: Errno)
    requires NBuffers(mem[..], dest, destMax, src, count)
    modifies mem
    ensures e == CopyNCode(old(mem[..]), dest, destMax, src, count)
    ensures destMax == 0 || destMax > 0x7FFF_FFFF ==> e == ERANGE
    ensures 0 < destMax <= 0x7FFF_FFFF ==>
      && (dest.None? ==> e == EINVAL)
      && (dest.Some? && src.None? ==> e == EINVAL_AND_RESET)
      && (dest.Some? && src.Some? ==>
            && (count > 0x7FFF_FFFF ==> e == ERANGE_AND_RESET)
            && (count == 0 ==> e == EOK)
            && (0 < count <= 0x7FFF_FFFF && old(StrLen(mem[..], src.value)) >= destMax && count >= destMax ==>
                  e == ERANGE_AND_RESET))
    ensures Leaves(e, mem[..], old(mem[..]), dest, destMax,
                   if e == EOK then old(Truncated(mem[..], src.value, count)) else [])
    ensures e == EOK ==>
      StandsAt(mem[..], dest.value, old(mem[..]), src.value, Min(old(StrLen(mem[..], src.value)), count))
  {
    hide StrLen, SameOutside, Leaves, StrAt, Truncated, StandsAt;
    ghost var m0 := mem[..];
    NothingLeaves(m0, dest, destMax);
    if dest.Some? && InRange(destMax) {
      ResetLeaves(m0, dest, destMax);
    }
    if destMax > 0 && destMax <= STRING_MAX_LEN && dest.Some? && src.Some? && count <= STRING_MAX_LEN && count > 0 {
      var d, s := dest.value, src.value;
      var end, destLeft, countLeft := BoundedNLength(mem, s, destMax, count);
      if destLeft == 0 {
        mem[d] := '\0';
        return ERANGE_AND_RESET;
      }
      var fill := countLeft == 0;
      var size := if fill then count + 1 else end - s;
      e := CopyNApart(mem, d, s, size, fill, destMax, count);
      if e == EOK {
        FrontStands(mem[..], m0, d, destMax, s, count);
      }
      return;
    }
    if Checked(dest, destMax, src) && count == 0 {
      EmptyLeaves(m0, dest.value, src.value, destMax);
    }
    e := StrNCpyError(mem, dest, destMax, src, count);
    if e == EOK {
      FrontStands(mem[..], m0, dest.value, destMax, src.value, count);
    }
  }

  /** As much of the string at `s` as was to be copied stands at `d`. */
  lemma FrontStands(m: seq<char>, m0: seq<char>, d: nat, destMax: nat, s: nat, count: nat)
    requires s <= |m0| && Leaves(EOK, m, m0, Some(d), destMax, Truncated(m0, s, count))
    ensures StandsAt(m, d, m0, s, Min(StrLen(m0, s), count))
  {
    hide Leaves;
    var n := Min(StrLen(m0, s), count);
    TextStands(m, m0, d, destMax, StrAt(m0, s)[..n]);
    assert StrAt(m0, s)[..n] == m0[s..s + n];
  }

  lemma EmptyLeaves(m0: seq<char>, d: nat, s: nat, destMax: nat)
    requires 0 < destMax && d + destMax <= |m0| && s <= |m0|
    ensures Leaves(EOK, m0[d := '\0'], m0, Some(d), destMax, Truncated(m0, s, 0))
  {
    assert Truncated(m0, s, 0) == ['\0'];
  }

  // ---------------------------------------------------------------- what the codes promise

  /** Regions apart from each other, of which the destination is large enough, are always copied. */
  lemma ApartAndFittingCopies(m: seq<char>, d: nat, destMax: nat, s: nat, count: nat)
    requires InRange(destMax) && s <= |m| && StrLen(m, s) < destMax && Disjoint(d, s, StrLen(m, s) + 1)
    ensures CopyCode(m, Some(d), destMax, Some(s)) == EOK
    ensures count <= STRING_MAX_LEN ==> CopyNCode(m, Some(d), destMax, Some(s), count) == EOK
  {
  }
}
