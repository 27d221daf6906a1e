/** The bounded output stream of securecutil.c, the writers on it, and vsnprintf_s on top of them.

    The formatter is any sequence of writes.  It writes directly when there is room to spare and
    through the checking writers otherwise; both come to the same: the stream holds the text as far as
    its count allows, and fails for good with the first character beyond. */
module BoundedPrint {
  import opened Options
  import opened CStrings
  import opened CMemory

  /** One call of a writer: a character, a repeated character, a string. */
  datatype Write = Char(c: char) | Multi(c: char, num: int) | Str(s: seq<char>)

  function TextOf(w: Write): (t: seq<char>)
    ensures w.Char? ==> t == [w.c]
    ensures w.Multi? ==> |t| == (if w.num > 0 then w.num else 0) && forall i :: 0 <= i < |t| ==> t[i] == w.c
    ensures w.Str? ==> t == w.s
  {
    match w
    case Char(c) => [c]
    case Multi(c, num) => if num > 0 then seq(num, _ => c) else []
    case Str(s) => s
  }

  function Text(ws: seq<Write>): seq<char> {
    if ws == [] then [] else Text(ws[..|ws| - 1]) + TextOf(ws[|ws| - 1])
  }

  /** SECUREC_XPRINTF_STREAM, with the number of characters written so far, -1 after a failure. */
  class Stream {
    var cnt: int
    var ptr: nat
    var written: int

    constructor (cnt: int, ptr: nat)
      ensures this.cnt == cnt && this.ptr == ptr && written == 0
    {
      this.cnt, this.ptr, written := cnt, ptr, 0;
    }

    /** The text `t` has been sent to the stream, which had room for `count` characters from `p` on in
        a memory that was `m0`. */
    ghost predicate Holds(mem: array<char>, m0: seq<char>, p: nat, count: nat, t: seq<char>)
      reads this, mem
    {
      && p + count <= mem.Length
      && SameOutside(mem[..], m0, p, if |t| <= count then |t| else count)
      && if |t| <= count then cnt == count - |t| && ptr == p + |t| && written == |t| && mem[p..p + |t|] == t
         else cnt < 0 && ptr == p + count && written == -1 && mem[p..p + count] == t[..count]
    }

    /** SECUREC_PUTC_NOLOCK with the bookkeeping of the writers: false is EOF. */
    method Putc(mem: array<char>, c: char, ghost m0: seq<char>, ghost p: nat, ghost count: nat, ghost t: seq<char>)
      returns (ok: bool)
      requires Holds(mem, m0, p, count, t)
      modifies this, mem
      ensures Holds(mem, m0, p, count, t + [c])
      ensures ok <==> |t| < count
    {
      cnt := cnt - 1;
      if cnt >= 0 {
        mem[ptr] := c;
        ptr := ptr + 1;
        written := written + 1;
        return true;
      }
      written := -1;
      assert |t| > count ==> (t + [c])[..count] == t[..count];
      return false;
    }

    /** write_string_a; a character repeated by write_multi_char_a and the one of write_char_a are the
        same loop over other characters. */
    method WriteChecked(mem: array<char>, s: seq<char>, ghost m0: seq<char>, ghost p: nat, ghost count: nat,
                        ghost t: seq<char>)
      requires Holds(mem, m0, p, count, t)
      modifies this, mem
      ensures Holds(mem, m0, p, count, t + s)
    {
      hide Holds;
      assert t + s[..0] == t;
      for i := 0 to |s|
        invariant Holds(mem, m0, p, count, t + s[..i])
        invariant i == 0 || |t| + i <= count
      {
        var ok := Putc(mem, s[i], m0, p, count, t + s[..i]);
        assert t + s[..i] + [s[i]] == t + s[..i + 1];
        if !ok {
          FailsForGood(this, mem, m0, p, count, t + s[..i + 1], s[i + 1..]);
          assert t + s[..i + 1] + s[i + 1..] == t + s;
          return;
        }
      }
      assert s[..|s|] == s;
    }

    /** The direct writes of the formatter, for text that leaves room to spare. */
    method WriteDirect(mem: array<char>, s: seq<char>, ghost m0: seq<char>, ghost p: nat, ghost count: nat,
                       ghost t: seq<char>)
      requires Holds(mem, m0, p, count, t) && cnt - |s| > 0
      modifies this, mem
      ensures Holds(mem, m0, p, count, t + s)
    {
      ghost var start := ptr;
      for i := 0 to |s|
        invariant ptr == start + i && cnt == count - |t| && written == |t|
        invariant mem[p..start + i] == t + s[..i] && SameOutside(mem[..], m0, p, |t| + i)
      {
        mem[ptr] := s[i];
        ptr := ptr + 1;
      }
      cnt := cnt - |s|;
      written := written + |s|;
    }
  }

  /** A stream that has failed stays as it is, whatever else is sent. */
  lemma FailsForGood(st: Stream, mem: array<char>, m0: seq<char>, p: nat, count: nat, t: seq<char>, more: seq<char>)
    requires st.Holds(mem, m0, p, count, t) && |t| > count
    ensures st.Holds(mem, m0, p, count, t + more)
  {
    assert (t + more)[..count] == t[..count];
  }

  /** The formatter: every write goes directly when there is room to spare, else through a writer. */
  method Output(st: Stream, mem: array<char>, ws: seq<Write>, formatOk: bool,
                ghost m0: seq<char>, ghost p: nat, ghost count: nat) returns (r: int)
    requires st.Holds(mem, m0, p, count, [])
    modifies st, mem
    ensures st.Holds(mem, m0, p, count, Text(ws))
    ensures r == if formatOk then st.written else -1
  {
    for i := 0 to |ws|
      invariant st.Holds(mem, m0, p, count, Text(ws[..i]))
    {
      assert ws[..i + 1][..i] == ws[..i];
      var s := TextOf(ws[i]);
      if st.cnt - |s| > 0 {
        st.WriteDirect(mem, s, m0, p, count, Text(ws[..i]));
      } else {
        st.WriteChecked(mem, s, m0, p, count, Text(ws[..i]));
      }
    }
    assert ws[..|ws|] == ws;
    r := if formatOk then st.written else -1;
  }

  /** What vsnprintf_helper leaves of the text `t`: all of it with its terminator, or as much as fits. */
  ghost predicate Printed(m: seq<char>, p: nat, count: nat, t: seq<char>)
    requires count > 0
  {
    var n := if |t| < count then |t| else count - 1;
    p + count <= |m| && m[p..p + n + 1] == t[..n] + ['\0']
  }

  /** A text sent with its terminator, and both accepted. */
  lemma WholeIsPrinted(m: seq<char>, p: nat, count: nat, t: seq<char>)
    requires |t| < count && p + count <= |m| && m[p..p + |t| + 1] == t + ['\0']
    ensures Printed(m, p, count, t)
  {
    assert t[..|t|] == t;
  }

  /** A text that fills the buffer, its last character overwritten by the terminator. */
  lemma CutIsPrinted(m: seq<char>, p: nat, count: nat, t: seq<char>)
    requires 0 < count <= |t| && p + count <= |m| && m[p..p + count] == t[..count]
    ensures Printed(m[p + count - 1 := '\0'], p, count, t)
  {
    var m' := m[p + count - 1 := '\0'];
    assert m'[p..p + count] == m[p..p + count][..count - 1] + ['\0'];
  }

  /** vsnprintf_helper */
  method VsnprintfHelper(mem: array<char>, p: nat, count: nat, ws: seq<Write>, formatOk: bool) returns (r: int)
    requires 0 < count && p + count <= mem.Length
    modifies mem
    ensures formatOk ==> Printed(mem[..], p, count, Text(ws))
    ensures SameOutside(mem[..], old(mem[..]), p, count)
    ensures |Text(ws)| > count ==> Printed(mem[..], p, count, Text(ws))
    ensures r == if formatOk && |Text(ws)| < count then |Text(ws)|
                 else if |Text(ws)| > count || (formatOk && |Text(ws)| == count) then -2 else -1
  {
    hide Text, Printed;
    ghost var m0, t := mem[..], Text(ws);
    var st := new Stream(count, p);
    r := Output(st, mem, ws, formatOk, m0, p, count);
    if r >= 0 {
      var ok := st.Putc(mem, '\0', m0, p, count, t);
      if ok {
        WholeIsPrinted(mem[..], p, count, t);
        return;
      }
      assert (t + ['\0'])[..count] == t[..count];
    }
    ghost var m := mem[..];
    mem[p + count - 1] := '\0';
    assert mem[..] == m[p + count - 1 := '\0'];
    if |t| >= count {
      CutIsPrinted(m, p, count, t);
    }
    if st.cnt < 0 {
      return -2;
    }
    return -1;
  }

  // ---------------------------------------------------------------- vsnprintf_s

  /** Every argument is one vsnprintf_s works on; `count` may be the largest size_t for "no limit". */
  predicate GoodArguments(dest: Option<nat>, destMax: nat, count: nat, hasFormat: bool) {
    hasFormat && dest.Some? && InRange(destMax) && (count <= STRING_MAX_LEN - 1 || count == SIZE_MAX)
  }

  /** The value vsnprintf_s returns for a text (non-Windows build). */
  function PrintCode(destMax: nat, count: nat, t: seq<char>, formatOk: bool): int {
    if formatOk && |t| <= count && |t| < destMax then |t| else -1
  }

  /** A text cut off by `count`, in a destination that has room for as much, is kept; one that does not
      fit its destination, or comes from a bad format, is not. */
  predicate KeepsCutText(destMax: nat, count: nat, t: seq<char>, formatOk: bool) {
    destMax > count && |t| > (if formatOk then count else count + 1)
  }

  /** vsnprintf_s (non-Windows build).  `ws` is what the formatter writes for the format, up to where it
      finds the format wrong if `formatOk` is false. */
  method VsnprintfS(mem: array<char>, dest: Option<nat>, destMax: nat, count: nat, hasFormat: bool,
                    ws: seq<Write>, formatOk: bool) returns (r: int)
    requires count <= SIZE_MAX
    requires dest.Some? && destMax > 0 ==>
      dest.value < mem.Length && (InRange(destMax) ==> dest.value + destMax <= mem.Length)
    modifies mem
    ensures !hasFormat || dest.None? || destMax == 0 || destMax > 0x7FFF_FFFF ==> r == -1
    ensures 0x7FFF_FFFF <= count < 0xFFFF_FFFF_FFFF_FFFF ==> r == -1
    ensures !GoodArguments(dest, destMax, count, hasFormat) ==>
      r == -1 && mem[..] == if dest.Some? && destMax > 0 then old(mem[..])[dest.value := '\0'] else old(mem[..])
    ensures GoodArguments(dest, destMax, count, hasFormat) ==>
      && r == PrintCode(destMax, count, Text(ws), formatOk)
      && SameOutside(mem[..], old(mem[..]), dest.value, destMax)
      && if r >= 0 || KeepsCutText(destMax, count, Text(ws), formatOk)
         then Printed(mem[..], dest.value, if destMax > count then count + 1 else destMax, Text(ws))
         else mem[dest.value] == '\0'
  {
    hide Text;
    if !hasFormat || dest.None? || destMax == 0 || destMax > STRING_MAX_LEN
       || (count > STRING_MAX_LEN - 1 && count != SIZE_MAX) {
      if dest.Some? && destMax > 0 {
        mem[dest.value] := '\0';
      }
      return -1;
    }
    var d := dest.value;
    if destMax > count {
      r := VsnprintfHelper(mem, d, count + 1, ws, formatOk);
      if r == -2 {
        return -1;
      }
    } else {
      r := VsnprintfHelper(mem, d, destMax, ws, formatOk);
      mem[d + destMax - 1] := '\0';
    }
    if r < 0 {
      mem[d] := '\0';
      return -1;
    }
  }

  /** What that comes to for a good format, where `m` is the memory left: a text that fits is there with its
      terminator, one that `count` cuts off is there as far as that, one that the destination cuts off is
      not there. */
  lemma AnswerRead(m: seq<char>, d: nat, destMax: nat, count: nat, t: seq<char>)
    requires InRange(destMax) && count <= SIZE_MAX && d < |m|
    requires if PrintCode(destMax, count, t, true) >= 0 || KeepsCutText(destMax, count, t, true)
             then Printed(m, d, if destMax > count then count + 1 else destMax, t)
             else m[d] == '\0'
    ensures var r := PrintCode(destMax, count, t, true);
            && (|t| <= count && |t| < destMax ==> r == |t| && d + |t| < |m| && m[d..d + |t| + 1] == t + ['\0'])
            && (count < |t| && count < destMax ==>
                  r == -1 && d + count < |m| && m[d..d + count + 1] == t[..count] + ['\0'])
            && (destMax <= count && destMax <= |t| ==> r == -1 && m[d] == '\0')
    ensures PrintCode(destMax, count, t, false) == -1
    ensures count < 0x7FFF_FFFF || count == 0xFFFF_FFFF_FFFF_FFFF ==> GoodArguments(Some(d), destMax, count, true)
  {
  }
}
