/** Bytes, the ASCII classes the scanner tests, and "these bytes stand at this offset". */
module Bytes {
  type byte = x: int | 0 <= x < 256
  type bytes = seq<byte>

  /** A UTF-16 code unit, the element of a QString. */
  type unit = x: int | 0 <= x < 0x1_0000
  type units = seq<unit>

  /** QString::fromUtf8, which the repository does not contain. */
  type Utf8Decoder = bytes -> units

  const QUOTE: byte := 0x22
  const BACKSLASH: byte := 0x5C
  const COMMA: byte := 0x2C
  const COLON: byte := 0x3A
  const LBRACE: byte := 0x7B
  const RBRACE: byte := 0x7D
  const LBRACKET: byte := 0x5B
  const RBRACKET: byte := 0x5D
  const MINUS: byte := 0x2D
  const PLUS: byte := 0x2B
  const DOT: byte := 0x2E
  const LOWER_U: byte := 0x75

  predicate IsWhitespace(c: byte) {
    c == 0x20 || c == 0x09 || c == 0x0D || c == 0x0A
  }

  predicate IsDigit(c: byte) {
    0x30 <= c <= 0x39
  }

  predicate IsExponentMark(c: byte) {
    c == 0x65 || c == 0x45
  }

  predicate IsHexDigit(c: byte) {
    IsDigit(c) || 0x61 <= c <= 0x66 || 0x41 <= c <= 0x46
  }

  function HexValue(c: byte): (v: int)
    requires IsHexDigit(c)
    ensures 0 <= v < 16
  {
    if IsDigit(c) then c - 0x30 else if 0x61 <= c <= 0x66 then c - 0x61 + 10 else c - 0x41 + 10
  }

  /** Letter, digit or underscore: what may not follow a literal. */
  predicate IsWordByte(c: byte) {
    IsDigit(c) || 0x61 <= c <= 0x7A || 0x41 <= c <= 0x5A || c == 0x5F
  }

  predicate AllWhitespace(s: bytes) {
    forall i :: 0 <= i < |s| ==> IsWhitespace(s[i])
  }

  predicate AllDigits(s: bytes) {
    forall i :: 0 <= i < |s| ==> IsDigit(s[i])
  }

  /** The bytes w stand in s at offset p, and end no later than the bound. */
  predicate At(s: bytes, p: nat, end: nat, w: bytes): (b: bool)
    ensures b ==> p + |w| <= end <= |s|
  {
    p + |w| <= end <= |s| && s[p..p + |w|] == w
  }

  /** The meaning of At, for proofs that hide it. */
  lemma AtIsSlice(s: bytes, p: nat, end: nat, w: bytes)
    ensures At(s, p, end, w) <==> p + |w| <= end <= |s| && s[p..p + |w|] == w
  {}

  /** What stands between two offsets stands at the first of them. */
  lemma SliceAt(s: bytes, p: nat, q: nat, end: nat)
    requires p <= q <= end <= |s|
    ensures At(s, p, end, s[p..q])
  {}

  lemma AtConcat(s: bytes, p: nat, end: nat, a: bytes, b: bytes)
    ensures At(s, p, end, a + b) <==> At(s, p, end, a) && At(s, p + |a|, end, b)
  {
    var k := p + |a|;
    if k + |b| <= end <= |s| {
      assert s[p..k + |b|] == s[p..k] + s[k..k + |b|];
      assert (a + b)[..|a|] == a && (a + b)[|a|..] == b;
      if s[p..k + |b|] == a + b {
        assert s[p..k] == s[p..k + |b|][..|a|];
        assert s[k..k + |b|] == s[p..k + |b|][|a|..];
      }
    }
  }

  /** One leading byte split off. */
  lemma AtCons(s: bytes, p: nat, end: nat, c: byte, b: bytes)
    ensures At(s, p, end, [c] + b) <==> p < end <= |s| && s[p] == c && At(s, p + 1, end, b)
  {
    AtConcat(s, p, end, [c], b);
    if p < end <= |s| {
      assert s[p..p + 1] == [s[p]];
    }
  }

  lemma AtOne(s: bytes, p: nat, end: nat, c: byte)
    ensures At(s, p, end, [c]) <==> p < end <= |s| && s[p] == c
  {
    if p < end <= |s| {
      assert s[p..p + 1] == [s[p]];
    }
  }

  lemma AtByte(s: bytes, p: nat, end: nat, w: bytes, i: nat)
    requires At(s, p, end, w) && i < |w|
    ensures p + |w| <= end <= |s| && s[p + i] == w[i]
  {
    assert s[p + i] == s[p..p + |w|][i];
  }
}
