/** Bytes, the characters the JSON engine names, and a NUL-terminated view of a text. */
module Ascii {

  type Byte = x: int | 0 <= x < 256

  const TAB: Byte := 9
  const LF: Byte := 10
  const CR: Byte := 13
  const SPACE: Byte := 32
  const QUOTE: Byte := 34
  const HASH: Byte := 35
  const PERCENT: Byte := 37
  const STAR: Byte := 42
  const PLUS: Byte := 43
  const COMMA: Byte := 44
  const MINUS: Byte := 45
  const DOT: Byte := 46
  const SLASH: Byte := 47
  const ZERO: Byte := 48
  const NINE: Byte := 57
  const COLON: Byte := 58
  const LBRACKET: Byte := 91
  const BACKSLASH: Byte := 92
  const RBRACKET: Byte := 93
  const LBRACE: Byte := 123
  const RBRACE: Byte := 125
  const TILDE: Byte := 126

  /** Reading at or past the end of a text yields the terminating NUL. */
  function Peek(src: seq<Byte>, p: nat): Byte {
    if p < |src| then src[p] else 0
  }

  predicate IsDigit(c: Byte) {
    ZERO <= c <= NINE
  }

  /** `word` stands in `src` at position `p`. */
  predicate At(src: seq<Byte>, p: nat, word: seq<Byte>) {
    p + |word| <= |src| && src[p..p + |word|] == word
  }

  lemma AtSplits(src: seq<Byte>, p: nat, a: seq<Byte>, b: seq<Byte>)
    ensures At(src, p, a + b) <==> At(src, p, a) && At(src, p + |a|, b)
  {
    if At(src, p, a + b) {
      assert src[p..p + |a|] == src[p..p + |a + b|][..|a|];
      assert src[p + |a|..p + |a| + |b|] == src[p..p + |a + b|][|a|..];
    }
  }

  lemma AtPeek(src: seq<Byte>, p: nat, word: seq<Byte>, i: nat)
    requires At(src, p, word) && i < |word|
    ensures Peek(src, p + i) == word[i]
  {
    assert src[p..p + |word|][i] == src[p + i];
  }

  lemma AtInside(src: seq<Byte>, p: nat, word: seq<Byte>)
    requires At(src, p, word)
    ensures p + |word| <= |src|
  {
  }

  lemma AtIs(src: seq<Byte>, p: nat, word: seq<Byte>)
    requires At(src, p, word)
    ensures p + |word| <= |src| && src[p..p + |word|] == word
  {
  }

  lemma CharThen(src: seq<Byte>, p: nat, c: Byte, rest: seq<Byte>)
    requires At(src, p, [c] + rest)
    ensures p < |src| && Peek(src, p) == c && At(src, p + 1, rest)
  {
    AtSplits(src, p, [c], rest);
    AtPeek(src, p, [c] + rest, 0);
  }

  /** The upper-case hexadecimal digit of `n`. */
  function HexDigit(n: int): (c: Byte)
    requires 0 <= n < 16
  {
    if n < 10 then ZERO + n else 65 + (n - 10)
  }

  /** The value of a hexadecimal digit of either case, or -1. */
  function HexValue(c: Byte): (v: int)
    ensures -1 <= v < 16
  {
    if ZERO <= c <= NINE then c - ZERO
    else if 65 <= c <= 70 then c - 65 + 10
    else if 97 <= c <= 102 then c - 97 + 10
    else -1
  }

  lemma HexRoundTrip(n: int)
    requires 0 <= n < 16
    ensures HexValue(HexDigit(n)) == n
  {
  }
}
