/**
 Bytes, and the bytes of the ASCII text the recorder's tests use.

 A Node `Buffer` holds bytes; the tests build their buffers from ASCII
 string literals, whose UTF-8 encoding is one byte per character.
 */
module Octets {

  newtype byte = x: int | 0 <= x < 256

  /**
   One byte per character: the character's code modulo 256. For an ASCII
   string this is its UTF-8 encoding; it is only applied to ASCII literals.
   */
  function Ascii(s: string): (b: seq<byte>)
    ensures |b| == |s|
  {
    seq(|s|, i requires 0 <= i < |s| => (s[i] as int % 256) as byte)
  }

  /** Encoding commutes with concatenation. */
  lemma {:induction false} AsciiAppend(s: string, t: string)
    ensures Ascii(s + t) == Ascii(s) + Ascii(t)
  {
    assert forall i :: 0 <= i < |s| ==> (s + t)[i] == s[i];
    assert forall i :: |s| <= i < |s + t| ==> (s + t)[i] == t[i - |s|];
  }
}
