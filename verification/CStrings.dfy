/** NUL-terminated strings, as the C and C++ sources see them.

    A `CString` is the text before the terminator.  Reading one past the text yields the
    terminator itself, and `At` demands that nothing further is ever read. */
module CStrings {
  /** The largest `size_t`; a string and its terminator must be addressable. */
  const SIZE_MAX: nat := 0xFFFF_FFFF_FFFF_FFFF

  type CString = s: string | '\0' !in s && |s| < SIZE_MAX

  /** `s[i]` in C: the terminator is readable, nothing after it is. */
  function At(s: string, i: nat): char
    requires i <= |s|
  {
    if i < |s| then s[i] else '\0'
  }

  /** Only the end of the text reads as the terminator. */
  lemma AtIsNul(s: CString, i: nat)
    requires i <= |s|
    ensures At(s, i) == '\0' <==> i == |s|
  {
    assert i < |s| ==> s[i] in s;
  }
}
