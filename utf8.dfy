/**
 * `new Blob([text]).size` (src/app/page.tsx lines 76 and 93): the number of
 * bytes of the UTF-8 encoding of the text.
 */
module Utf8 {

  /** Bytes UTF-8 spends on one Unicode scalar value. */
  function CharWidth(c: char): nat {
    if c as int < 0x80 then 1
    else if c as int < 0x800 then 2
    else if c as int < 0x10000 then 3
    else 4
  }

  function ByteLength(s: string): nat {
    if |s| == 0 then 0 else CharWidth(s[0]) + ByteLength(s[1..])
  }

  predicate Ascii(s: string) {
    forall i :: 0 <= i < |s| ==> s[i] as int < 0x80
  }

  /** Every character takes one to four bytes. */
  lemma {:induction false} ByteLengthBounds(s: string)
    ensures |s| <= ByteLength(s) <= 4 * |s|
  {
    if |s| > 0 {
      ByteLengthBounds(s[1..]);
    }
  }

  /** A data URL is ASCII, so its Blob size is its length. */
  lemma {:induction false} AsciiByteLength(s: string)
    ensures Ascii(s) ==> ByteLength(s) == |s|
  {
    if |s| > 0 {
      AsciiByteLength(s[1..]);
      assert Ascii(s) ==> Ascii(s[1..]);
    }
  }

  /** Only a pure-ASCII text has as many bytes as characters. */
  lemma {:induction false} ByteLengthIsLengthOnlyIfAscii(s: string)
    ensures ByteLength(s) == |s| ==> Ascii(s)
  {
    if |s| > 0 {
      ByteLengthBounds(s[1..]);
      ByteLengthIsLengthOnlyIfAscii(s[1..]);
      if ByteLength(s) == |s| {
        assert CharWidth(s[0]) == 1;
        forall i | 0 <= i < |s| ensures s[i] as int < 0x80 {
          if i > 0 { assert s[i] == s[1..][i - 1]; }
        }
      }
    }
  }
}
