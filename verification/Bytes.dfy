// Bytes, byte strings and the handful of facts about slices that the Lua
// modules share.
module Bytes {

  newtype byte = x: int | 0 <= x < 256

  type bytes = seq<byte>

  const TAB: byte := 0x09
  const NEWLINE: byte := 0x0A
  const RETURN: byte := 0x0D
  const SPACE: byte := 0x20
  const QUOTE: byte := 0x22
  const APOSTROPHE: byte := 0x27
  const COMMA: byte := 0x2C
  const MINUS: byte := 0x2D
  const DOT: byte := 0x2E
  const ZERO: byte := 0x30
  const NINE: byte := 0x39
  const EQUALS: byte := 0x3D
  const LBRACKET: byte := 0x5B
  const BACKSLASH: byte := 0x5C
  const RBRACKET: byte := 0x5D
  const UNDERSCORE: byte := 0x5F
  const LBRACE: byte := 0x7B
  const RBRACE: byte := 0x7D

  // The four bytes the parser skips between tokens.
  predicate IsSpace(c: byte) {
    c == SPACE || c == RETURN || c == NEWLINE || c == TAB
  }

  predicate IsDigit(c: byte) {
    ZERO <= c <= NINE
  }

  // The bytes of a text in ASCII.
  function Ascii(s: string): (b: bytes)
    ensures |b| == |s|
    ensures forall i :: 0 <= i < |s| ==> b[i] as int == s[i] as int % 256
  {
    seq(|s|, i requires 0 <= i < |s| => (s[i] as int % 256) as byte)
  }

  // A-Z, a-z and the underscore: what may start a bare key.
  predicate IsKeyStart(c: byte) {
    0x41 <= c <= 0x5A || 0x61 <= c <= 0x7A || c == UNDERSCORE
  }

  predicate IsKeyByte(c: byte) {
    IsKeyStart(c) || IsDigit(c)
  }

  // The input holds t at position p.
  predicate At(b: bytes, p: nat, t: bytes) {
    p + |t| <= |b| && b[p..p + |t|] == t
  }

  lemma AtConcat(b: bytes, p: nat, t: bytes, u: bytes)
    ensures At(b, p, t + u) <==> At(b, p, t) && At(b, p + |t|, u)
  {
    if At(b, p, t + u) {
      var w := b[p..p + |t + u|];
      assert w[..|t|] == t && w[|t|..] == u;
      assert b[p..p + |t|] == w[..|t|];
      assert b[p + |t|..p + |t| + |u|] == w[|t|..];
    }
    if At(b, p, t) && At(b, p + |t|, u) {
      assert b[p..p + |t + u|] == b[p..p + |t|] + b[p + |t|..p + |t| + |u|];
    }
  }

  lemma AtIndex(b: bytes, p: nat, t: bytes, i: nat)
    requires At(b, p, t) && i < |t|
    ensures p + i < |b| && b[p + i] == t[i]
  {
    assert b[p..p + |t|][i] == t[i];
  }

  // Python's s[lo:hi] for non-negative bounds: out-of-range bounds are clamped.
  function Slice(b: bytes, lo: nat, hi: nat): (r: bytes)
    ensures lo <= hi <= |b| ==> r == b[lo..hi]
  {
    var h := if hi <= |b| then hi else |b|;
    if lo <= h then b[lo..h] else []
  }
}
