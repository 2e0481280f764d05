/**
 The UTF-8 codec: `Encode`, `Decode`, `Validate` and `GetRange` of encodings.h and
 `CountStringCodePoint` of strfunc.h, measured against the grammar of section 4 of RFC 3629.
 */
module Utf8 {
  import opened Ascii

  //////////////////////////////////////////////////////////////////////////////
  // The grammar of RFC 3629
  //////////////////////////////////////////////////////////////////////////////

  predicate Tail(c: Byte) { 0x80 <= c <= 0xBF }

  /** `s` is exactly one UTF8-char of section 4 of RFC 3629. */
  predicate Utf8Char(s: seq<Byte>) {
    match |s|
    case 1 => s[0] <= 0x7F
    case 2 => 0xC2 <= s[0] <= 0xDF && Tail(s[1])
    case 3 =>
      && Tail(s[2])
      && ( || (s[0] == 0xE0 && 0xA0 <= s[1] <= 0xBF)
           || (0xE1 <= s[0] <= 0xEC && Tail(s[1]))
           || (s[0] == 0xED && 0x80 <= s[1] <= 0x9F)
           || (0xEE <= s[0] <= 0xEF && Tail(s[1])))
    case 4 =>
      && Tail(s[2]) && Tail(s[3])
      && ( || (s[0] == 0xF0 && 0x90 <= s[1] <= 0xBF)
           || (0xF1 <= s[0] <= 0xF3 && Tail(s[1]))
           || (s[0] == 0xF4 && 0x80 <= s[1] <= 0x8F))
    case _ => false
  }

  /** A Unicode scalar value. */
  predicate IsScalar(cp: int) {
    0 <= cp <= 0x10FFFF && !(0xD800 <= cp <= 0xDFFF)
  }

  /** Six more bits, those of a tail byte, appended to a number. */
  function Joined(high: int, tail: int): int {
    high * 64 + (tail - 0x80)
  }

  /** The number whose bits one UTF8-char carries. */
  function CodePointOf(s: seq<Byte>): int
    requires 1 <= |s| <= 4
  {
    var lead: int := s[0];
    if |s| == 1 then lead
    else if |s| == 2 then Joined(lead - 0xC0, s[1])
    else if |s| == 3 then Joined(Joined(lead - 0xE0, s[1]), s[2])
    else Joined(Joined(Joined(lead - 0xF0, s[1]), s[2]), s[3])
  }

  //////////////////////////////////////////////////////////////////////////////
  // Encode
  //////////////////////////////////////////////////////////////////////////////

  function Encode(cp: int): seq<Byte>
    requires 0 <= cp <= 0x10FFFF
  {
    if cp <= 0x7F then [cp]
    else if cp <= 0x7FF then [0xC0 + cp / 64, 0x80 + cp % 64]
    else if cp <= 0xFFFF then [0xE0 + cp / 4096, 0x80 + cp / 64 % 64, 0x80 + cp % 64]
    else [0xF0 + cp / 0x40000, 0x80 + cp / 4096 % 64, 0x80 + cp / 64 % 64, 0x80 + cp % 64]
  }

  /** What is encoded is a UTF8-char exactly for scalar values (a lone surrogate gives none), and it
      always carries the code point. */
  lemma EncodeIsUtf8(cp: int)
    requires 0 <= cp <= 0x10FFFF
    ensures 1 <= |Encode(cp)| <= 4 && CodePointOf(Encode(cp)) == cp
    ensures Utf8Char(Encode(cp)) <==> IsScalar(cp)
  {
    assert cp == cp / 64 * 64 + cp % 64;
    assert cp / 64 == cp / 4096 * 64 + cp / 64 % 64;
    assert cp / 4096 == cp / 0x40000 * 64 + cp / 4096 % 64;
  }

  lemma SplitJoined(high: int, tail: int)
    requires 0x80 <= tail <= 0xBF
    ensures Joined(high, tail) / 64 == high && Joined(high, tail) % 64 == tail - 0x80
  {
  }

  /** Every UTF8-char is the encoding of exactly one scalar value. */
  lemma DecodedIsEncoded(s: seq<Byte>)
    requires Utf8Char(s)
    ensures IsScalar(CodePointOf(s)) && Encode(CodePointOf(s)) == s
  {
    if |s| == 2 {
      assert s == [s[0], s[1]];
      SplitJoined(s[0] - 0xC0, s[1]);
    } else if |s| == 3 {
      assert s == [s[0], s[1], s[2]];
      Decoded3(s[0], s[1], s[2]);
    } else if |s| == 4 {
      assert s == [s[0], s[1], s[2], s[3]];
      Decoded4(s[0], s[1], s[2], s[3]);
    }
  }

  lemma Decoded3(a: Byte, b: Byte, c: Byte)
    requires Utf8Char([a, b, c])
    ensures var cp := CodePointOf([a, b, c]); IsScalar(cp) && Encode(cp) == [a, b, c]
  {
    SplitThree(a - 0xE0, b, c);
  }

  lemma Decoded4(a: Byte, b: Byte, c: Byte, d: Byte)
    requires Utf8Char([a, b, c, d])
    ensures var cp := CodePointOf([a, b, c, d]); IsScalar(cp) && Encode(cp) == [a, b, c, d]
  {
    SplitFour(a - 0xF0, b, c, d);
  }

  lemma SplitThree(a: int, b: int, c: int)
    requires 0x80 <= b <= 0xBF && 0x80 <= c <= 0xBF
    ensures var cp := Joined(Joined(a, b), c);
            cp / 4096 == a && cp / 64 % 64 == b - 0x80 && cp % 64 == c - 0x80
  {
    SplitJoined(a, b);
    SplitJoined(Joined(a, b), c);
    DivTwice(Joined(Joined(a, b), c));
  }

  lemma SplitFour(a: int, b: int, c: int, d: int)
    requires 0x80 <= b <= 0xBF && 0x80 <= c <= 0xBF && 0x80 <= d <= 0xBF
    ensures var cp := Joined(Joined(Joined(a, b), c), d);
            && cp / 0x40000 == a && cp / 4096 % 64 == b - 0x80
            && cp / 64 % 64 == c - 0x80 && cp % 64 == d - 0x80
  {
    var cp := Joined(Joined(Joined(a, b), c), d);
    SplitThree(a, b, c);
    SplitJoined(Joined(Joined(a, b), c), d);
    DivTwice(cp);
    DivTwice(cp / 64);
    SplitJoined(a, b);
  }

  lemma DivTwice(n: int)
    ensures n / 64 / 64 == n / 4096 && n / 4096 / 64 == n / 0x40000
  {
  }

  //////////////////////////////////////////////////////////////////////////////
  // Decode and Validate
  //////////////////////////////////////////////////////////////////////////////

  /** The class of a byte; the three ranges of continuation bytes are single bits. */
  function GetRange(c: Byte): int {
    if c <= 0x7F then 0
    else if c <= 0x8F then 0x10
    else if c <= 0x9F then 0x40
    else if c <= 0xBF then 0x20
    else if c <= 0xC1 then 8
    else if c <= 0xDF then 2
    else if c == 0xE0 then 10
    else if c == 0xED then 4
    else if c <= 0xEF then 3
    else if c == 0xF0 then 11
    else if c <= 0xF3 then 6
    else if c == 0xF4 then 5
    else 8
  }

  /** `(GetRange(c) & mask) != 0` for a mask of the three continuation bits. */
  predicate Trans(c: Byte, mask: int) {
    var range := GetRange(c);
    || (range / 16 % 2 == 1 && mask / 16 % 2 == 1)
    || (range / 32 % 2 == 1 && mask / 32 % 2 == 1)
    || (range / 64 % 2 == 1 && mask / 64 % 2 == 1)
  }

  /** What the five masks of the decoders select. */
  lemma Masks(c: Byte)
    ensures Trans(c, 0x70) <==> Tail(c)
    ensures Trans(c, 0x50) <==> 0x80 <= c <= 0x9F
    ensures Trans(c, 0x10) <==> 0x80 <= c <= 0x8F
    ensures Trans(c, 0x20) <==> 0xA0 <= c <= 0xBF
    ensures Trans(c, 0x60) <==> 0x90 <= c <= 0xBF
  {
  }

  /** The number of bytes a decoder takes, which only the lead byte decides. */
  function LeadLength(c: Byte): (n: nat)
    ensures 1 <= n <= 4
  {
    if 0xC2 <= c <= 0xDF then 2 else if 0xE0 <= c <= 0xEF then 3 else if 0xF0 <= c <= 0xF4 then 4 else 1
  }

  /** The bytes taken from a stream at `p`, NULs included when the stream runs dry. */
  function Taken(src: seq<Byte>, p: nat, n: nat): (s: seq<Byte>)
    ensures |s| == n
    ensures forall i :: 0 <= i < n ==> s[i] == Peek(src, p + i)
  {
    seq<Byte>(n, i requires 0 <= i => Peek(src, p + i))
  }

  /** The bytes a decoder takes from a stream at `p`. */
  function Unit(src: seq<Byte>, p: nat): (s: seq<Byte>)
    ensures 1 <= |s| <= 4
  {
    Taken(src, p, LeadLength(Peek(src, p)))
  }

  /** A stream over a NUL-terminated text. */
  class InputStream {
    const src: seq<Byte>
    var pos: nat

    constructor (src: seq<Byte>)
      ensures this.src == src && pos == 0
    {
      this.src := src;
      pos := 0;
    }

    method Take() returns (c: Byte)
      modifies this
      ensures c == Peek(src, old(pos)) && pos == old(pos) + 1
    {
      c := Peek(src, pos);
      pos := pos + 1;
    }
  }

  /** The mask a decoder applies to the byte after a lead byte of this class, 0 for no lead byte. */
  function FirstMask(kind: int): int {
    match kind
    case 2 => 0x70
    case 3 => 0x70
    case 4 => 0x50
    case 5 => 0x10
    case 6 => 0x70
    case 10 => 0x20
    case 11 => 0x60
    case _ => 0
  }

  /** The bits of a lead byte that `0xFF >> kind` keeps. */
  function LeadBits(c: Byte, kind: int): int {
    match kind
    case 2 => c % 64
    case 3 => c % 32
    case 4 => c % 16
    case 5 => c % 8
    case 6 => c % 4
    case _ => 0
  }

  /** The masks implement the grammar. */
  lemma MasksAreGrammar(s: seq<Byte>)
    requires |s| >= 1 && |s| == LeadLength(s[0])
    ensures |s| == 1 ==> (Utf8Char(s) <==> s[0] < 0x80)
    ensures |s| >= 2 ==> (Utf8Char(s) <==> Trans(s[1], FirstMask(GetRange(s[0])))
                                           && (|s| >= 3 ==> Tail(s[2])) && (|s| == 4 ==> Tail(s[3])))
    ensures |s| == 2 ==> LeadBits(s[0], GetRange(s[0])) == s[0] - 0xC0
    ensures |s| == 3 ==> LeadBits(s[0], GetRange(s[0])) == s[0] - 0xE0
    ensures |s| == 4 ==> LeadBits(s[0], GetRange(s[0])) == s[0] - 0xF0
  {
    if |s| >= 2 {
      Masks(s[1]);
    }
  }

  /** The continuation bytes of one character: the first against `mask`, the others against 0x70. */
  method TakeTails(input: InputStream, lead: int, mask: int, n: nat) returns (ok: bool, codepoint: int)
    requires 1 <= n <= 3
    modifies input
    ensures input.pos == old(input.pos) + n
    ensures ok <==> TailsGood(input.src, old(input.pos), mask, n)
    ensures ok ==> codepoint == JoinedTails(input.src, old(input.pos), lead, n)
  {
    var c := input.Take();
    AnyMaskIsTail(c, mask);
    codepoint, ok := lead * 64 + c % 64, Trans(c, mask);
    if n >= 2 {
      c := input.Take();
      Masks(c);
      codepoint, ok := codepoint * 64 + c % 64, ok && Trans(c, 0x70);
    }
    if n == 3 {
      c := input.Take();
      Masks(c);
      codepoint, ok := codepoint * 64 + c % 64, ok && Trans(c, 0x70);
    }
  }

  lemma AnyMaskIsTail(c: Byte, mask: int)
    ensures Trans(c, mask) ==> Tail(c)
  {
  }

  predicate TailsGood(src: seq<Byte>, p: nat, mask: int, n: nat) {
    && Trans(Peek(src, p), mask)
    && (n >= 2 ==> Tail(Peek(src, p + 1)))
    && (n == 3 ==> Tail(Peek(src, p + 2)))
  }

  function JoinedTails(src: seq<Byte>, p: nat, lead: int, n: nat): int {
    var one := Joined(lead, Peek(src, p));
    if n == 1 then one
    else if n == 2 then Joined(one, Peek(src, p + 1))
    else Joined(Joined(one, Peek(src, p + 1)), Peek(src, p + 2))
  }

  lemma UnitOfTails(src: seq<Byte>, p: nat)
    ensures var c, n, s := Peek(src, p), LeadLength(Peek(src, p)) - 1, Unit(src, p);
            && (n == 0 ==> (Utf8Char(s) <==> c < 0x80) && CodePointOf(s) == c)
            && (n >= 1 ==> (Utf8Char(s) <==> TailsGood(src, p + 1, FirstMask(GetRange(c)), n))
                           && CodePointOf(s) == JoinedTails(src, p + 1, LeadBits(c, GetRange(c)), n))
  {
    MasksAreGrammar(Unit(src, p));
  }

  /** Decode takes `LeadLength` bytes, accepts them exactly when they are one UTF8-char, and then
      yields the scalar value they carry. */
  method Decode(input: InputStream) returns (ok: bool, codepoint: int)
    modifies input
    ensures input.pos == old(input.pos) + LeadLength(Peek(input.src, old(input.pos)))
    ensures ok <==> Utf8Char(Unit(input.src, old(input.pos)))
    ensures ok ==> codepoint == CodePointOf(Unit(input.src, old(input.pos)))
  {
    UnitOfTails(input.src, input.pos);
    var c := input.Take();
    if c < 0x80 {
      return true, c;
    }
    var kind := GetRange(c);
    match kind {
      case 2 =>
        ok, codepoint := TakeTails(input, LeadBits(c, kind), FirstMask(kind), 1);
      case 3 | 4 | 10 =>
        ok, codepoint := TakeTails(input, LeadBits(c, kind), FirstMask(kind), 2);
      case 5 | 6 | 11 =>
        ok, codepoint := TakeTails(input, LeadBits(c, kind), FirstMask(kind), 3);
      case _ =>
        ok, codepoint := false, 0;
    }
  }

  /** Validate takes the bytes Decode takes, copies them all, and gives the same verdict. */
  method Validate(input: InputStream) returns (ok: bool, copied: seq<Byte>)
    modifies input
    ensures input.pos == old(input.pos) + LeadLength(Peek(input.src, old(input.pos)))
    ensures ok <==> Utf8Char(Unit(input.src, old(input.pos)))
    ensures copied == Unit(input.src, old(input.pos))
  {
    UnitOfTails(input.src, input.pos);
    TakenSplit(input.src, input.pos, LeadLength(Peek(input.src, input.pos)) - 1);
    var c := input.Take();
    copied := [c];
    if c < 0x80 {
      return true, copied;
    }
    var kind := GetRange(c);
    var tails := [];
    match kind {
      case 2 =>
        ok, tails := CopyTails(input, FirstMask(kind), 1);
      case 3 | 4 | 10 =>
        ok, tails := CopyTails(input, FirstMask(kind), 2);
      case 5 | 6 | 11 =>
        ok, tails := CopyTails(input, FirstMask(kind), 3);
      case _ =>
        ok := false;
    }
    copied := copied + tails;
  }

  lemma TakenSplit(src: seq<Byte>, p: nat, n: nat)
    ensures Taken(src, p, n + 1) == [Peek(src, p)] + Taken(src, p + 1, n)
  {
  }

  method CopyTails(input: InputStream, mask: int, n: nat) returns (ok: bool, copied: seq<Byte>)
    requires 1 <= n <= 3
    modifies input
    ensures input.pos == old(input.pos) + n
    ensures ok <==> TailsGood(input.src, old(input.pos), mask, n)
    ensures copied == Taken(input.src, old(input.pos), n)
  {
    var c := input.Take();
    copied, ok := [c], Trans(c, mask);
    if n >= 2 {
      c := input.Take();
      Masks(c);
      copied, ok := copied + [c], ok && Trans(c, 0x70);
    }
    if n == 3 {
      c := input.Take();
      Masks(c);
      copied, ok := copied + [c], ok && Trans(c, 0x70);
    }
  }

  //////////////////////////////////////////////////////////////////////////////
  // Texts
  //////////////////////////////////////////////////////////////////////////////

  /** `s` is a sequence of UTF8-chars, section 4 of RFC 3629. */
  predicate WellFormed(s: seq<Byte>)
    decreases |s|
  {
    s == [] || (var n := LeadLength(s[0]); n <= |s| && Utf8Char(s[..n]) && WellFormed(s[n..]))
  }

  function CodePoints(s: seq<Byte>): (cps: seq<int>)
    requires WellFormed(s)
    decreases |s|
  {
    if s == [] then [] else var n := LeadLength(s[0]); [CodePointOf(s[..n])] + CodePoints(s[n..])
  }

  predicate Scalars(cps: seq<int>) {
    forall i :: 0 <= i < |cps| ==> IsScalar(cps[i])
  }

  function EncodeAll(cps: seq<int>): seq<Byte>
    requires Scalars(cps)
  {
    if cps == [] then [] else Encode(cps[0]) + EncodeAll(cps[1..])
  }

  lemma CharHeadsText(head: seq<Byte>, rest: seq<Byte>)
    requires Utf8Char(head)
    ensures LeadLength((head + rest)[0]) == |head|
    ensures (head + rest)[..|head|] == head && (head + rest)[|head|..] == rest
  {
  }

  /** Encoding scalar values and decoding the bytes is the identity. */
  lemma {:induction false} EncodeThenDecode(cps: seq<int>)
    requires Scalars(cps)
    ensures WellFormed(EncodeAll(cps)) && CodePoints(EncodeAll(cps)) == cps
  {
    if cps != [] {
      EncodeIsUtf8(cps[0]);
      CharHeadsText(Encode(cps[0]), EncodeAll(cps[1..]));
      EncodeThenDecode(cps[1..]);
    }
  }

  /** Decoding a well-formed text yields scalar values whose encoding is the text. */
  lemma {:induction false} DecodeThenEncode(s: seq<Byte>)
    requires WellFormed(s)
    ensures Scalars(CodePoints(s))
    ensures EncodeAll(CodePoints(s)) == s
    decreases |s|
  {
    if s != [] {
      var n := LeadLength(s[0]);
      DecodedIsEncoded(s[..n]);
      DecodeThenEncode(s[n..]);
      assert CodePoints(s) == [CodePointOf(s[..n])] + CodePoints(s[n..]);
      assert CodePoints(s)[1..] == CodePoints(s[n..]);
      assert s == s[..n] + s[n..];
    }
  }

  /** A character that is accepted lies inside the text. */
  lemma UnitInside(s: seq<Byte>, p: nat)
    requires p < |s|
    ensures Utf8Char(Unit(s, p)) <==> var n := LeadLength(s[p]); p + n <= |s| && Utf8Char(s[p..p + n])
    ensures Utf8Char(Unit(s, p)) ==> Unit(s, p) == s[p..p + LeadLength(s[p])]
  {
    var n := LeadLength(s[p]);
    if p + n <= |s| {
      assert Unit(s, p) == s[p..p + n];
    } else {
      assert Unit(s, p)[n - 1] == 0;
      UnitOfTails(s, p);
      Masks(0);
    }
  }

  /** Counting the code points of a whole text succeeds exactly on well-formed text. */
  method CountStringCodePoint(s: seq<Byte>) returns (ok: bool, count: nat)
    ensures ok <==> WellFormed(s)
    ensures ok ==> count == |CodePoints(s)|
  {
    var input := new InputStream(s);
    count := 0;
    while input.pos < |s|
      invariant input.src == s && input.pos <= |s|
      invariant WellFormed(s) <==> WellFormed(s[input.pos..])
      invariant WellFormed(s) ==> |CodePoints(s)| == count + |CodePoints(s[input.pos..])|
      decreases |s| - input.pos
    {
      ghost var rest, n := s[input.pos..], LeadLength(s[input.pos]);
      UnitInside(s, input.pos);
      var good, _ := Decode(input);
      if !good {
        return false, count;
      }
      assert rest[..n] == s[input.pos - n..input.pos];
      assert rest[n..] == s[input.pos..];
      count := count + 1;
    }
    ok := true;
  }
}
