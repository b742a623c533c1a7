/**
 Byte offsets of the characters of a UTF-8 string, as Rust's `str::char_indices`
 reports them. A Dafny `char` is a Unicode scalar value, so the width of its
 UTF-8 encoding is determined by its code point.
 */
module CharIndices {

  /** Number of bytes in the UTF-8 encoding of `c`. */
  function Utf8Width(c: char): (w: nat)
    ensures 1 <= w <= 4
  {
    if c as int < 0x80 then 1
    else if c as int < 0x800 then 2
    else if c as int < 0x1_0000 then 3
    else 4
  }

  /** The byte offset at which the character `s[i]` starts (for `i == |s|`, the byte length of `s`). */
  function ByteOffset(s: seq<char>, i: nat): (off: nat)
    requires i <= |s|
    ensures i <= off <= 4 * i
  {
    if i == 0 then 0 else ByteOffset(s, i - 1) + Utf8Width(s[i - 1])
  }

  /** Distinct characters start at distinct byte offsets, in the same order. */
  lemma {:induction false} ByteOffsetStrictlyIncreasing(s: seq<char>, i: nat, j: nat)
    requires i < j <= |s|
    ensures ByteOffset(s, i) < ByteOffset(s, j)
    decreases j - i
  {
    if j > i + 1 {
      ByteOffsetStrictlyIncreasing(s, i, j - 1);
    }
  }

  /** On single-byte (ASCII) text a byte offset is just a character position. */
  lemma {:induction false} AsciiByteOffset(s: seq<char>, i: nat)
    requires i <= |s|
    requires forall k :: 0 <= k < |s| ==> s[k] as int < 0x80
    ensures ByteOffset(s, i) == i
  {
    if i > 0 {
      AsciiByteOffset(s, i - 1);
    }
  }
}
