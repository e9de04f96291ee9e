/**
 * Go's `len` on a string counts the bytes of its UTF-8 encoding, not its
 * characters. A decoded JSON string is valid UTF-8, so its byte length is
 * fixed by the code points it holds.
 */
module Utf8 {

  /** Bytes UTF-8 uses for one code point (RFC 3629, section 3). */
  function Width(c: char): (w: nat)
    ensures 1 <= w <= 4
    ensures w == 1 <==> c as int < 0x80
  {
    if c as int < 0x80 then 1
    else if c as int < 0x800 then 2
    else if c as int < 0x1_0000 then 3
    else 4
  }

  /** Go's `len(s)`. */
  function ByteLen(s: string): nat
    decreases |s|
  {
    if s == [] then 0 else ByteLen(s[..|s| - 1]) + Width(s[|s| - 1])
  }

  predicate IsAscii(s: string) {
    forall i :: 0 <= i < |s| ==> s[i] as int < 0x80
  }

  /** A string holds between one and four bytes per character; exactly one each when ASCII. */
  lemma {:induction false} ByteLenBounds(s: string)
    ensures |s| <= ByteLen(s) <= 4 * |s|
    ensures ByteLen(s) == |s| <==> IsAscii(s)
    decreases |s|
  {
    if s != [] {
      var init := s[..|s| - 1];
      ByteLenBounds(init);
      if IsAscii(s) {
        assert IsAscii(init) by {
          forall i | 0 <= i < |init| ensures init[i] as int < 0x80 { assert init[i] == s[i]; }
        }
      }
      if ByteLen(s) == |s| {
        assert ByteLen(init) == |init| && Width(s[|s| - 1]) == 1;
        forall i | 0 <= i < |s| ensures s[i] as int < 0x80 {
          if i < |s| - 1 { assert s[i] == init[i]; }
        }
      }
    }
  }

  /** `n` copies of one character. */
  function Repeat(c: char, n: nat): (s: string)
    ensures |s| == n && forall i :: 0 <= i < n ==> s[i] == c
  {
    if n == 0 then [] else Repeat(c, n - 1) + [c]
  }

  lemma {:induction false} ByteLenRepeat(c: char, n: nat)
    ensures ByteLen(Repeat(c, n)) == n * Width(c)
  {
    if n > 0 {
      ByteLenRepeat(c, n - 1);
      assert Repeat(c, n)[..n - 1] == Repeat(c, n - 1);
    }
  }
}
