/** The flat memory the securec functions work on: one array of characters, with pointers as offsets
    into it, so that any two regions may overlap. */
module CMemory {
  import opened Options
  import opened CStrings

  /** The codes of securec.h. */
  datatype Errno = EOK | EINVAL | EINVAL_AND_RESET | ERANGE | ERANGE_AND_RESET | EOVERLAP_AND_RESET

  const STRING_MAX_LEN: nat := 0x7FFF_FFFF

  /** How many characters lie between `p` and the first NUL, or the end of memory. */
  function StrLen(m: seq<char>, p: nat): (n: nat)
    requires p <= |m|
    ensures p + n <= |m| && (p + n < |m| ==> m[p + n] == '\0')
    ensures forall i :: p <= i < p + n ==> m[i] != '\0'
    decreases |m| - p
  {
    if p == |m| || m[p] == '\0' then 0 else 1 + StrLen(m, p + 1)
  }

  /** The string at `p` has its terminator in memory. */
  predicate Terminated(m: seq<char>, p: nat) {
    p < |m| && p + StrLen(m, p) < |m|
  }

  function StrAt(m: seq<char>, p: nat): seq<char>
    requires p <= |m|
  {
    m[p..p + StrLen(m, p)]
  }

  /** A length is the string's length if nothing before it is NUL and it is. */
  lemma {:induction false} StrLenIs(m: seq<char>, p: nat, n: nat)
    requires p + n <= |m| && forall i :: p <= i < p + n ==> m[i] != '\0'
    ensures n <= StrLen(m, p)
    ensures p + n == |m| || m[p + n] == '\0' ==> StrLen(m, p) == n
    decreases n
  {
    if n > 0 { StrLenIs(m, p + 1, n - 1); }
  }

  /** `m` and `m0` agree outside the `n` characters at `p`. */
  predicate SameOutside(m: seq<char>, m0: seq<char>, p: nat, n: nat) {
    |m| == |m0| && forall i :: 0 <= i < |m| && !(p <= i < p + n) ==> m[i] == m0[i]
  }

  predicate Disjoint(p: nat, q: nat, n: nat) {
    p + n <= q || q + n <= p
  }

  /** From lower addresses to higher ones: right when the destination does not start inside the rest
      of the source. */
  method CopyUp(mem: array<char>, dst: nat, src: nat, count: nat)
    requires dst + count <= mem.Length && src + count <= mem.Length
    requires dst <= src || dst >= src + count
    modifies mem
    ensures mem[dst..dst + count] == old(mem[src..src + count])
    ensures SameOutside(mem[..], old(mem[..]), dst, count)
  {
    ghost var m0 := mem[..];
    var d, s, n := dst, src, count;
    while n > 0
      invariant 0 <= n <= count && d == dst + (count - n) && s == src + (count - n)
      invariant mem[dst..d] == m0[src..s] && SameOutside(mem[..], m0, dst, d - dst)
    {
      mem[d] := mem[s];
      d, s, n := d + 1, s + 1, n - 1;
    }
  }

  /** All but the first `n` characters have been copied. */
  predicate CopiedFrom(m: seq<char>, m0: seq<char>, dst: nat, src: nat, count: nat, n: nat) {
    && n <= count && |m| == |m0| && dst + count <= |m| && src + count <= |m|
    && m[dst + n..dst + count] == m0[src + n..src + count] && SameOutside(m, m0, dst + n, count - n)
  }

  lemma CopyNext(m: seq<char>, m0: seq<char>, dst: nat, src: nat, count: nat, n: nat)
    requires CopiedFrom(m, m0, dst, src, count, n) && 0 < n && src <= dst
    ensures CopiedFrom(m[dst + n - 1 := m[src + n - 1]], m0, dst, src, count, n - 1)
  {
    var m' := m[dst + n - 1 := m[src + n - 1]];
    assert m'[dst + n - 1..dst + count] == [m[src + n - 1]] + m[dst + n..dst + count];
    assert m0[src + n - 1..src + count] == [m0[src + n - 1]] + m0[src + n..src + count];
  }

  /** From higher addresses to lower ones: right when the destination starts inside the source. */
  method CopyDown(mem: array<char>, dst: nat, src: nat, count: nat)
    requires dst + count <= mem.Length && src + count <= mem.Length
    requires src <= dst
    modifies mem
    ensures mem[dst..dst + count] == old(mem[src..src + count])
    ensures SameOutside(mem[..], old(mem[..]), dst, count)
  {
    ghost var m0 := mem[..];
    var d: int, s: int, n := dst + count - 1, src + count - 1, count;
    while n > 0
      invariant 0 <= n <= count && d == dst + n - 1 && s == src + n - 1
      invariant CopiedFrom(mem[..], m0, dst, src, count, n)
    {
      CopyNext(mem[..], m0, dst, src, count, n);
      ghost var m := mem[..];
      mem[d] := mem[s];
      assert mem[..] == m[d := m[s]];
      d, s, n := d - 1, s - 1, n - 1;
    }
  }

  /** util_memmove: the destination receives the old source, however the two overlap. */
  method MemMove(mem: array<char>, dst: nat, src: nat, count: nat)
    requires dst + count <= mem.Length && src + count <= mem.Length
    modifies mem
    ensures mem[dst..dst + count] == old(mem[src..src + count])
    ensures SameOutside(mem[..], old(mem[..]), dst, count)
  {
    if dst <= src || dst >= src + count {
      CopyUp(mem, dst, src, count);
    } else {
      CopyDown(mem, dst, src, count);
    }
  }

  /** memcpy: the regions must not overlap, unless they are the same. */
  method MemCpy(mem: array<char>, dst: nat, src: nat, count: nat)
    requires dst + count <= mem.Length && src + count <= mem.Length
    requires dst == src || Disjoint(dst, src, count)
    modifies mem
    ensures mem[dst..dst + count] == old(mem[src..src + count])
    ensures SameOutside(mem[..], old(mem[..]), dst, count)
  {
    CopyUp(mem, dst, src, count);
  }

  predicate InRange(destMax: nat) {
    0 < destMax <= STRING_MAX_LEN
  }

  /** What a string function must leave behind: on EOK the text, at `dest`; on any other code, if there
      is a destination of a proper size, an empty string there, other changes at most in its `destMax`
      characters; if there is none, nothing. */
  ghost predicate Leaves(e: Errno, m: seq<char>, m0: seq<char>, dest: Option<nat>, destMax: nat, text: seq<char>) {
    if e == EOK then
      && dest.Some? && dest.value + |text| <= |m| && |text| <= destMax
      && m[dest.value..dest.value + |text|] == text && SameOutside(m, m0, dest.value, |text|)
    else if dest.Some? && InRange(destMax) then
      && e !in {EINVAL, ERANGE}
      && dest.value < |m| && m[dest.value] == '\0' && SameOutside(m, m0, dest.value, destMax)
    else
      e in {EINVAL, ERANGE} && m == m0
  }

  /** The arguments get past the checks at the head of a string function. */
  predicate Checked(dest: Option<nat>, destMax: nat, src: Option<nat>) {
    InRange(destMax) && dest.Some? && src.Some?
  }

  /** The code for arguments that do not. */
  function Refusal(dest: Option<nat>, destMax: nat): Errno {
    if !InRange(destMax) then ERANGE else if dest.Some? then EINVAL_AND_RESET else EINVAL
  }

  lemma ResetLeaves(m0: seq<char>, dest: Option<nat>, destMax: nat)
    requires dest.Some? && InRange(destMax) && dest.value + destMax <= |m0|
    ensures forall e {:trigger Leaves(e, m0[dest.value := '\0'], m0, dest, destMax, [])} ::
      e !in {EOK, EINVAL, ERANGE} ==> Leaves(e, m0[dest.value := '\0'], m0, dest, destMax, [])
  {
  }

  lemma NothingLeaves(m0: seq<char>, dest: Option<nat>, destMax: nat)
    ensures dest.None? || !InRange(destMax) ==>
      Leaves(EINVAL, m0, m0, dest, destMax, []) && Leaves(ERANGE, m0, m0, dest, destMax, [])
  {
  }

  /** The `n` characters that were at `s` stand at `d`, with a terminator behind them. */
  predicate StandsAt(m: seq<char>, d: nat, m0: seq<char>, s: nat, n: nat) {
    s + n <= |m0| && d + n < |m| && m[d..d + n] == m0[s..s + n] && m[d + n] == '\0'
  }

  /** On EOK the text is there, with its terminator. */
  lemma TextStands(m: seq<char>, m0: seq<char>, d: nat, destMax: nat, text: seq<char>)
    requires Leaves(EOK, m, m0, Some(d), destMax, text + ['\0'])
    ensures d + |text| < |m| && m[d..d + |text|] == text && m[d + |text|] == '\0'
  {
    var all := text + ['\0'];
    assert m[d..d + |all|] == all;
    assert m[d..d + |text|] == all[..|text|];
    assert m[d + |text|] == all[|text|];
  }

  /** A copy of the string at `s`, terminator included, is what EOK promises; so is the string itself. */
  lemma CopyLeaves(m: seq<char>, m0: seq<char>, d: nat, s: nat, destMax: nat)
    requires Terminated(m0, s) && StrLen(m0, s) + 1 <= destMax && d + StrLen(m0, s) + 1 <= |m|
    requires m[d..d + StrLen(m0, s) + 1] == m0[s..s + StrLen(m0, s) + 1] && SameOutside(m, m0, d, StrLen(m0, s) + 1)
    ensures Leaves(EOK, m, m0, Some(d), destMax, StrAt(m0, s) + ['\0'])
  {
    assert m0[s..s + StrLen(m0, s) + 1] == StrAt(m0, s) + ['\0'];
  }

  lemma SameAsItself(m: seq<char>, p: nat, n: nat)
    ensures SameOutside(m, m, p, n)
  {
  }
}
