/** Byte lengths of strings as Rust's `str::len` reports them.

A Rust `&str` is UTF-8; `len()` counts bytes while `chars()` walks Unicode
scalar values. A Dafny `string` is a sequence of scalar values, so the byte
length is computed here from each character's UTF-8 width.
 */
module Utf8 {

  /** Number of bytes UTF-8 uses to encode `c`. */
  function Width(c: char): (w: nat)
    ensures 1 <= w <= 4
    ensures w == 1 <==> c as int < 0x80
  {
    if c as int < 0x80 then 1
    else if c as int < 0x800 then 2
    else if c as int < 0x1_0000 then 3
    else 4
  }

  /** Length of the UTF-8 encoding of `s`, i.e. Rust's `s.len()`. */
  function ByteLen(s: string): (n: nat)
    ensures n >= |s|
    ensures n == 0 <==> s == ""
  {
    if |s| == 0 then 0 else Width(s[0]) + ByteLen(s[1..])
  }

  /** Every character of `s` is ASCII, so it takes one byte. */
  predicate IsAscii(s: string)
  {
    forall i :: 0 <= i < |s| ==> s[i] as int < 0x80
  }

  /** Byte length is additive over concatenation. */
  lemma {:induction false} ByteLenAppend(s: string, t: string)
    ensures ByteLen(s + t) == ByteLen(s) + ByteLen(t)
    decreases |s|
  {
    if |s| == 0 {
      assert s + t == t;
    } else {
      assert (s + t)[1..] == s[1..] + t;
      ByteLenAppend(s[1..], t);
    }
  }

  /** On ASCII text the byte length and the character count agree. */
  lemma {:induction false} AsciiByteLen(s: string)
    requires IsAscii(s)
    ensures ByteLen(s) == |s|
    decreases |s|
  {
    if |s| > 0 {
      assert IsAscii(s[1..]) by {
        forall i | 0 <= i < |s[1..]| ensures s[1..][i] as int < 0x80 {
          assert s[1..][i] == s[i + 1];
        }
      }
      AsciiByteLen(s[1..]);
    }
  }
}
