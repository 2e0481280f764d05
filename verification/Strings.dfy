/**
 Strings of section 7 of RFC 8259, put together from characters and escapes: ParseStringToStream reads
 each as the bytes it stands for, and accepts nothing else.
 */
module Strings {
  import opened Ascii
  import opened Events
  import opened Scanner
  import Printing
  import RoundTrip
  import Utf8

  //////////////////////////////////////////////////////////////////////////////
  // Characters of a string
  //////////////////////////////////////////////////////////////////////////////

  /** The one-letter escapes and what they stand for. */
  const LETTERS: seq<(Byte, Byte)> := [(34, 34), (92, 92), (47, 47), (98, 8), (102, 12), (110, 10), (114, 13), (116, 9)]

  /** A character as it stands in a string: as it is, a one-letter escape, a unicode escape, or the
      unicode escapes of a surrogate pair; `lower` says which hexadecimal digits are lower case. */
  datatype Char =
    | Raw(bytes: seq<Byte>)
    | Letter(letter: Byte, meaning: Byte)
    | Unit(v: int, lower: seq<bool>)
    | Pair(cp: int, lower: seq<bool>, lowerToo: seq<bool>)

  /** With validation a character as it is must be one of UTF-8, otherwise it is a byte. A code unit
      that is a low surrogate is let through. */
  predicate GoodChar(ch: Char, validate: bool) {
    match ch
    case Raw(bytes) =>
      && bytes != [] && bytes[0] >= 0x20 && bytes[0] != QUOTE && bytes[0] != BACKSLASH
      && (if validate then Utf8.Utf8Char(bytes) else |bytes| == 1)
    case Letter(letter, meaning) => (letter, meaning) in LETTERS
    case Unit(v, lower) => 0 <= v <= 0xFFFF && !(0xD800 <= v <= 0xDBFF) && |lower| == 4
    case Pair(cp, lower, lowerToo) => 0x10000 <= cp <= 0x10FFFF && |lower| == 4 && |lowerToo| == 4
  }

  function HexChar(n: int, lower: bool): Byte
    requires 0 <= n < 16
  {
    if n < 10 then ZERO + n else if lower then 97 + (n - 10) else 65 + (n - 10)
  }

  /** Backslash, u and four hexadecimal digits. */
  function UnitText(v: int, lower: seq<bool>): (s: seq<Byte>)
    requires 0 <= v <= 0xFFFF && |lower| == 4
    ensures |s| == 6
  {
    [BACKSLASH, 117, HexChar(v / 4096, lower[0]), HexChar(v / 256 % 16, lower[1]),
     HexChar(v / 16 % 16, lower[2]), HexChar(v % 16, lower[3])]
  }

  /** The surrogates of a code point beyond the first plane. */
  function HighSurrogate(cp: int): (v: int)
    requires 0x10000 <= cp <= 0x10FFFF
    ensures 0xD800 <= v <= 0xDBFF
  {
    0xD800 + (cp - 0x10000) / 0x400
  }

  function LowSurrogate(cp: int): (v: int)
    requires 0x10000 <= cp <= 0x10FFFF
    ensures 0xDC00 <= v <= 0xDFFF
  {
    0xDC00 + (cp - 0x10000) % 0x400
  }

  function CharText(ch: Char, validate: bool): (s: seq<Byte>)
    requires GoodChar(ch, validate)
    ensures |s| >= 1
  {
    match ch
    case Raw(bytes) => bytes
    case Letter(letter, _) => [BACKSLASH, letter]
    case Unit(v, lower) => UnitText(v, lower)
    case Pair(cp, lower, lowerToo) => UnitText(HighSurrogate(cp), lower) + UnitText(LowSurrogate(cp), lowerToo)
  }

  function CharBytes(ch: Char, validate: bool): seq<Byte>
    requires GoodChar(ch, validate)
  {
    match ch
    case Raw(bytes) => bytes
    case Letter(_, meaning) => [meaning]
    case Unit(v, _) => Utf8.Encode(v)
    case Pair(cp, _, _) => Utf8.Encode(cp)
  }

  predicate GoodChars(chars: seq<Char>, validate: bool) {
    forall i | 0 <= i < |chars| :: GoodChar(chars[i], validate)
  }

  function CharsText(chars: seq<Char>, validate: bool): seq<Byte>
    requires GoodChars(chars, validate)
  {
    if chars == [] then [] else CharText(chars[0], validate) + CharsText(chars[1..], validate)
  }

  function CharsBytes(chars: seq<Char>, validate: bool): seq<Byte>
    requires GoodChars(chars, validate)
  {
    if chars == [] then [] else CharBytes(chars[0], validate) + CharsBytes(chars[1..], validate)
  }

  //////////////////////////////////////////////////////////////////////////////
  // Every such string is read
  //////////////////////////////////////////////////////////////////////////////

  lemma HexCharReads(n: int, lower: bool)
    requires 0 <= n < 16
    ensures HexValue(HexChar(n, lower)) == n
  {
  }

  lemma UnitReads(src: seq<Byte>, p: nat, v: int, lower: seq<bool>)
    requires 0 <= v <= 0xFFFF && |lower| == 4 && At(src, p, UnitText(v, lower))
    ensures Peek(src, p) == BACKSLASH && Peek(src, p + 1) == 117 && Hex4(src, p + 2) == v
  {
    hide HexChar, HexValue, At;
    var text := UnitText(v, lower);
    AtPeek(src, p, text, 0);
    AtPeek(src, p, text, 1);
    AtPeek(src, p, text, 2);
    AtPeek(src, p, text, 3);
    AtPeek(src, p, text, 4);
    AtPeek(src, p, text, 5);
    HexCharReads(v / 4096, lower[0]);
    HexCharReads(v / 256 % 16, lower[1]);
    HexCharReads(v / 16 % 16, lower[2]);
    HexCharReads(v % 16, lower[3]);
    FourDigits(v);
  }

  lemma FourDigits(v: int)
    requires 0 <= v <= 0xFFFF
    ensures ((v / 4096 * 16 + v / 256 % 16) * 16 + v / 16 % 16) * 16 + v % 16 == v
  {
    assert v == v / 16 * 16 + v % 16;
    assert v / 16 == v / 256 * 16 + v / 16 % 16;
    assert v / 256 == v / 4096 * 16 + v / 256 % 16;
  }

  lemma PairReads(src: seq<Byte>, p: nat, cp: int, lower: seq<bool>, lowerToo: seq<bool>)
    requires 0x10000 <= cp <= 0x10FFFF && |lower| == 4 && |lowerToo| == 4
    requires At(src, p, UnitText(HighSurrogate(cp), lower) + UnitText(LowSurrogate(cp), lowerToo))
    ensures Peek(src, p) == BACKSLASH && Peek(src, p + 1) == 117 && UnicodeEscape(src, p) == Ok(cp, p + 12)
  {
    hide At, UnitText, Hex4;
    AtSplits(src, p, UnitText(HighSurrogate(cp), lower), UnitText(LowSurrogate(cp), lowerToo));
    UnitReads(src, p, HighSurrogate(cp), lower);
    UnitReads(src, p + 6, LowSurrogate(cp), lowerToo);
    var x := cp - 0x10000;
    assert x == x / 0x400 * 0x400 + x % 0x400;
  }

  /** Every character is read as the bytes it stands for. */
  lemma CharReads(src: seq<Byte>, p: nat, ch: Char, validate: bool)
    requires GoodChar(ch, validate) && At(src, p, CharText(ch, validate))
    ensures Peek(src, p) != QUOTE
    ensures StringPiece(src, p, validate) == Ok(CharBytes(ch, validate), p + |CharText(ch, validate)|)
  {
    hide At, Hex4, UnicodeEscape, UnitText, Utf8.Encode, Utf8.Utf8Char;
    match ch
    case Raw(bytes) =>
      AtPeek(src, p, bytes, 0);
      if validate {
        LeadDecides(bytes);
        RoundTrip.TakenIs(src, p, bytes);
      } else {
        assert bytes == [bytes[0]];
      }
    case Letter(letter, meaning) =>
      AtPeek(src, p, [BACKSLASH, letter], 0);
      AtPeek(src, p, [BACKSLASH, letter], 1);
    case Unit(v, lower) =>
      UnitReads(src, p, v, lower);
      OneUnit(src, p);
    case Pair(cp, lower, lowerToo) =>
      PairReads(src, p, cp, lower, lowerToo);
  }

  lemma LeadDecides(bytes: seq<Byte>)
    requires Utf8.Utf8Char(bytes)
    ensures bytes != [] && Utf8.LeadLength(bytes[0]) == |bytes|
  {
  }

  lemma OneUnit(src: seq<Byte>, p: nat)
    requires Hex4(src, p + 2) >= 0 && !(0xD800 <= Hex4(src, p + 2) <= 0xDBFF)
    ensures UnicodeEscape(src, p) == Ok(Hex4(src, p + 2), p + 6)
  {
    hide Hex4;
  }

  lemma {:induction false} CharsRead(src: seq<Byte>, p: nat, chars: seq<Char>, validate: bool, acc: seq<Byte>)
    requires GoodChars(chars, validate) && At(src, p, CharsText(chars, validate) + [QUOTE])
    ensures p <= |src|
    ensures StringRest(src, p, validate, acc)
         == Ok(acc + CharsBytes(chars, validate), p + |CharsText(chars, validate)| + 1)
    decreases |chars|
  {
    hide At, StringPiece, StringRest, GoodChar, CharText, CharBytes;
    AtInside(src, p, CharsText(chars, validate) + [QUOTE]);
    if chars == [] {
      assert CharsText(chars, validate) + [QUOTE] == [QUOTE];
      RoundTrip.QuoteReads(src, p, validate);
      RoundTrip.RestEnds(src, p, validate, acc);
      assert acc + [] == acc;
    } else {
      var text, rest := CharText(chars[0], validate), CharsText(chars[1..], validate);
      RoundTrip.Reassociate(text, rest, [QUOTE]);
      AtSplits(src, p, text, rest + [QUOTE]);
      CharReads(src, p, chars[0], validate);
      RoundTrip.RestGoesOn(src, p, validate, acc);
      CharsRead(src, p + |text|, chars[1..], validate, acc + CharBytes(chars[0], validate));
      RoundTrip.Reassociate(acc, CharBytes(chars[0], validate), CharsBytes(chars[1..], validate));
    }
  }

  //////////////////////////////////////////////////////////////////////////////
  // Nothing else is
  //////////////////////////////////////////////////////////////////////////////

  lemma HexCharIs(c: Byte) returns (lower: bool)
    requires HexValue(c) >= 0
    ensures c == HexChar(HexValue(c), lower)
  {
    lower := c >= 97;
  }

  lemma UnitIs(src: seq<Byte>, p: nat) returns (lower: seq<bool>)
    requires Peek(src, p) == BACKSLASH && Peek(src, p + 1) == 117 && Hex4(src, p + 2) >= 0
    ensures |lower| == 4 && At(src, p, UnitText(Hex4(src, p + 2), lower))
  {
    hide HexChar, HexValue;
    var a := HexCharIs(Peek(src, p + 2));
    var b := HexCharIs(Peek(src, p + 3));
    var c := HexCharIs(Peek(src, p + 4));
    var d := HexCharIs(Peek(src, p + 5));
    lower := [a, b, c, d];
    var v := Hex4(src, p + 2);
    Digits16(HexValue(Peek(src, p + 2)), HexValue(Peek(src, p + 3)), HexValue(Peek(src, p + 4)), HexValue(Peek(src, p + 5)));
    assert src[p..p + 6] == [src[p], src[p + 1], src[p + 2], src[p + 3], src[p + 4], src[p + 5]];
  }

  lemma Digits16(a: int, b: int, c: int, d: int)
    requires 0 <= a < 16 && 0 <= b < 16 && 0 <= c < 16 && 0 <= d < 16
    ensures var v := ((a * 16 + b) * 16 + c) * 16 + d;
            v / 4096 == a && v / 256 % 16 == b && v / 16 % 16 == c && v % 16 == d
  {
    var v := ((a * 16 + b) * 16 + c) * 16 + d;
    assert v / 16 == (a * 16 + b) * 16 + c && v / 256 == a * 16 + b;
  }

  /** What one round of the loop takes is one character. */
  lemma PieceIsChar(src: seq<Byte>, p: nat, validate: bool) returns (ch: Char)
    requires StringPiece(src, p, validate).Ok? && Peek(src, p) != QUOTE
    ensures GoodChar(ch, validate) && At(src, p, CharText(ch, validate))
    ensures StringPiece(src, p, validate) == Ok(CharBytes(ch, validate), p + |CharText(ch, validate)|)
  {
    hide Hex4, UnitText, Utf8.Encode, Utf8.Utf8Char;
    var c := Peek(src, p);
    if c != BACKSLASH {
      ch := RawIs(src, p, validate);
    } else if Unescape(Peek(src, p + 1)) != 0 {
      ch := Letter(Peek(src, p + 1), Unescape(Peek(src, p + 1)));
      assert (Peek(src, p + 1), Unescape(Peek(src, p + 1))) in LETTERS by { LetterIs(Peek(src, p + 1)); }
    } else {
      ch := EscapeIs(src, p, validate);
    }
  }

  lemma LetterIs(e: Byte)
    requires Unescape(e) != 0
    ensures (e, Unescape(e)) in LETTERS
  {
    assert LETTERS[0] == (34, 34) && LETTERS[1] == (92, 92) && LETTERS[2] == (47, 47) && LETTERS[3] == (98, 8);
    assert LETTERS[4] == (102, 12) && LETTERS[5] == (110, 10) && LETTERS[6] == (114, 13) && LETTERS[7] == (116, 9);
  }

  lemma RawIs(src: seq<Byte>, p: nat, validate: bool) returns (ch: Char)
    requires StringPiece(src, p, validate).Ok? && Peek(src, p) != QUOTE && Peek(src, p) != BACKSLASH
    ensures GoodChar(ch, validate) && At(src, p, CharText(ch, validate))
    ensures StringPiece(src, p, validate) == Ok(CharBytes(ch, validate), p + |CharText(ch, validate)|)
  {
    hide UnicodeEscape, Utf8.Utf8Char;
    if validate {
      Utf8.UnitInside(src, p);
      ch := Raw(Utf8.Unit(src, p));
    } else {
      ch := Raw([src[p]]);
      assert src[p..p + 1] == [src[p]];
    }
  }

  lemma EscapeIs(src: seq<Byte>, p: nat, validate: bool) returns (ch: Char)
    requires StringPiece(src, p, validate).Ok? && Peek(src, p) == BACKSLASH && Unescape(Peek(src, p + 1)) == 0
    ensures GoodChar(ch, validate) && At(src, p, CharText(ch, validate))
    ensures StringPiece(src, p, validate) == Ok(CharBytes(ch, validate), p + |CharText(ch, validate)|)
  {
    hide Hex4, UnitText, Utf8.Encode, Utf8.Utf8Char, At;
    var v := Hex4(src, p + 2);
    var lower := UnitIs(src, p);
    if 0xD800 <= v <= 0xDBFF {
      var lowerToo := UnitIs(src, p + 6);
      var cp := UnicodeEscape(src, p).value;
      Surrogates(v, Hex4(src, p + 8));
      ch := Pair(cp, lower, lowerToo);
      AtSplits(src, p, UnitText(v, lower), UnitText(Hex4(src, p + 8), lowerToo));
    } else {
      ch := Unit(v, lower);
    }
  }

  lemma Surrogates(high: int, low: int)
    requires 0xD800 <= high <= 0xDBFF && 0xDC00 <= low <= 0xDFFF
    ensures var cp := (high - 0xD800) * 1024 + (low - 0xDC00) + 0x10000;
            0x10000 <= cp <= 0x10FFFF && HighSurrogate(cp) == high && LowSurrogate(cp) == low
  {
  }

  /** Whatever the reader takes for a string is one, and it yields its bytes. */
  lemma {:induction false} StringIsChars(src: seq<Byte>, p: nat, validate: bool, acc: seq<Byte>) returns (chars: seq<Char>)
    requires p <= |src| && StringRest(src, p, validate, acc).Ok?
    ensures GoodChars(chars, validate) && At(src, p, CharsText(chars, validate) + [QUOTE])
    ensures StringRest(src, p, validate, acc)
         == Ok(acc + CharsBytes(chars, validate), p + |CharsText(chars, validate)| + 1)
    decreases |src| - p
  {
    hide StringPiece, GoodChar, CharText, CharBytes;
    var piece := StringPiece(src, p, validate);
    if Peek(src, p) == QUOTE {
      chars := [];
      QuoteIs(src, p, validate);
      assert acc + [] == acc && [] + [QUOTE] == [QUOTE] && src[p..p + 1] == [QUOTE];
    } else {
      var ch := PieceIsChar(src, p, validate);
      var rest := StringIsChars(src, piece.pos, validate, acc + piece.value);
      chars := [ch] + rest;
      assert chars[1..] == rest;
      RoundTrip.RestGoesOn(src, p, validate, acc);
      hide StringRest, At;
      RoundTrip.Reassociate(CharText(ch, validate), CharsText(rest, validate), [QUOTE]);
      AtSplits(src, p, CharText(ch, validate), CharsText(rest, validate) + [QUOTE]);
      RoundTrip.Reassociate(acc, CharBytes(ch, validate), CharsBytes(rest, validate));
    }
  }

  lemma QuoteIs(src: seq<Byte>, p: nat, validate: bool)
    requires Peek(src, p) == QUOTE
    ensures p < |src| && StringPiece(src, p, validate) == Ok([], p + 1)
  {
  }

  /** The escape of a high surrogate that no low surrogate follows is an error. */
  lemma LoneHighSurrogate(src: seq<Byte>, p: nat, v: int, lower: seq<bool>, validate: bool)
    requires 0xD800 <= v <= 0xDBFF && |lower| == 4 && At(src, p, UnitText(v, lower))
    requires !(Peek(src, p + 6) == BACKSLASH && Peek(src, p + 7) == 117 && 0xDC00 <= Hex4(src, p + 8) <= 0xDFFF)
    ensures StringPiece(src, p, validate).Err?
    ensures Peek(src, p + 6) != BACKSLASH ==> StringPiece(src, p, validate) == Err(StringUnicodeSurrogateInvalid, p)
  {
    hide Hex4, UnitText;
    UnitReads(src, p, v, lower);
  }

  //////////////////////////////////////////////////////////////////////////////
  // Strings that break off
  //////////////////////////////////////////////////////////////////////////////

  /** The hexadecimal digits, of either case. */
  const HEX: seq<Byte> := [48, 49, 50, 51, 52, 53, 54, 55, 56, 57, 65, 66, 67, 68, 69, 70, 97, 98, 99, 100, 101, 102]

  predicate IsHex(c: Byte) {
    c in HEX
  }

  predicate FourHex(src: seq<Byte>, p: nat) {
    IsHex(Peek(src, p)) && IsHex(Peek(src, p + 1)) && IsHex(Peek(src, p + 2)) && IsHex(Peek(src, p + 3))
  }

  /** What can be wrong at a position of a string, and the error for it. */
  predicate Broken(src: seq<Byte>, p: nat, validate: bool, code: ErrorCode) {
    var c, e := Peek(src, p), Peek(src, p + 1);
    match code
    case StringMissQuotationMark => c == 0
    case StringInvalidEncoding =>
      || 0 < c < 0x20
      || (validate && c >= 0x20 && c != QUOTE && c != BACKSLASH && forall q | p < q <= |src| :: !Utf8.Utf8Char(src[p..q]))
    case StringEscapeInvalid => c == BACKSLASH && e != 117 && forall i | 0 <= i < |LETTERS| :: LETTERS[i].0 != e
    case StringUnicodeEscapeInvalidHex => c == BACKSLASH && e == 117 && !FourHex(src, p + 2)
    case _ => false
  }

  lemma HexWhen(c: Byte)
    ensures HexValue(c) >= 0 <==> IsHex(c)
  {
    if HexValue(c) >= 0 {
      if IsDigit(c) { assert HEX[c - 48] == c; } else if c < 97 { assert HEX[c - 55] == c; } else { assert HEX[c - 81] == c; }
    }
  }

  lemma FourHexWhen(src: seq<Byte>, p: nat)
    ensures Hex4(src, p) >= 0 <==> FourHex(src, p)
  {
    hide HexValue, IsHex;
    HexWhen(Peek(src, p));
    HexWhen(Peek(src, p + 1));
    HexWhen(Peek(src, p + 2));
    HexWhen(Peek(src, p + 3));
  }

  lemma PieceFails(src: seq<Byte>, p: nat, validate: bool, code: ErrorCode)
    requires p <= |src| && Broken(src, p, validate, code)
    ensures StringPiece(src, p, validate) == Err(code, p)
  {
    hide Hex4, Utf8.Utf8Char;
    match code
    case StringEscapeInvalid =>
      var e := Peek(src, p + 1);
      assert LETTERS[0].0 != e && LETTERS[1].0 != e && LETTERS[2].0 != e && LETTERS[3].0 != e;
      assert LETTERS[4].0 != e && LETTERS[5].0 != e && LETTERS[6].0 != e && LETTERS[7].0 != e;
    case StringUnicodeEscapeInvalidHex => FourHexWhen(src, p + 2);
    case StringInvalidEncoding =>
      Utf8.UnitInside(src, p);
    case _ =>
  }

  /** Characters, and then something that is none: the error says what and where. */
  lemma {:induction false} StringFails(src: seq<Byte>, p: nat, chars: seq<Char>, validate: bool, acc: seq<Byte>, code: ErrorCode)
    requires GoodChars(chars, validate) && At(src, p, CharsText(chars, validate))
    requires Broken(src, p + |CharsText(chars, validate)|, validate, code)
    ensures p <= |src| && StringRest(src, p, validate, acc) == Err(code, p + |CharsText(chars, validate)|)
    decreases |chars|
  {
    hide At, StringPiece, StringRest, GoodChar, CharText, CharBytes, Broken;
    AtInside(src, p, CharsText(chars, validate));
    if chars == [] {
      PieceFails(src, p, validate, code);
      RestFails(src, p, validate, acc);
    } else {
      var text := CharText(chars[0], validate);
      AtSplits(src, p, text, CharsText(chars[1..], validate));
      CharReads(src, p, chars[0], validate);
      RoundTrip.RestGoesOn(src, p, validate, acc);
      StringFails(src, p + |text|, chars[1..], validate, acc + CharBytes(chars[0], validate), code);
    }
  }

  lemma RestFails(src: seq<Byte>, p: nat, validate: bool, acc: seq<Byte>)
    requires p <= |src| && StringPiece(src, p, validate).Err?
    ensures StringRest(src, p, validate, acc) == StringPiece(src, p, validate)
  {
    hide StringPiece;
  }

  //////////////////////////////////////////////////////////////////////////////
  // What the writer chooses
  //////////////////////////////////////////////////////////////////////////////

  const UPPER: seq<bool> := [false, false, false, false]

  /** The writer takes a one-letter escape if there is one, other than for the solidus; else a unicode
      escape in upper case for a control character; else the byte itself. */
  lemma WrittenByte(c: Byte)
    ensures forall i | 0 <= i < |LETTERS| ::
      LETTERS[i].1 == c && c != SLASH ==> Printing.EscapedByte(c) == [BACKSLASH, LETTERS[i].0]
    ensures c == SLASH || (forall i | 0 <= i < |LETTERS| :: LETTERS[i].1 != c) ==>
      Printing.EscapedByte(c) == if c < 0x20 then UnitText(c, UPPER) else [c]
  {
    assert LETTERS[0].1 == QUOTE && LETTERS[1].1 == BACKSLASH && LETTERS[3].1 == 8 && LETTERS[4].1 == 12;
    assert LETTERS[5].1 == LF && LETTERS[6].1 == CR && LETTERS[7].1 == TAB;
  }

  lemma {:induction false} EscapedJoins(a: seq<Byte>, b: seq<Byte>)
    ensures Printing.Escaped(a + b) == Printing.Escaped(a) + Printing.Escaped(b)
    decreases |a|
  {
    hide Printing.EscapedByte;
    if a == [] {
      assert a + b == b;
    } else {
      assert (a + b)[1..] == a[1..] + b;
      EscapedJoins(a[1..], b);
    }
  }

  lemma {:induction false} PlainEscapes(s: seq<Byte>)
    requires forall i | 0 <= i < |s| :: s[i] >= 0x20 && s[i] != QUOTE && s[i] != BACKSLASH
    ensures |Printing.Escaped(s)| == |s|
  {
    if s != [] { PlainEscapes(s[1..]); }
  }

  lemma EncodeEscapes(v: int)
    requires 0 <= v <= 0x10FFFF
    ensures |Printing.Escaped(Utf8.Encode(v))| <= 6
  {
    var bytes := Utf8.Encode(v);
    if v >= 0x80 {
      PlainEscapes(bytes);
    } else {
      assert bytes == [v] && Printing.Escaped(bytes) == Printing.EscapedByte(v) + Printing.Escaped([]);
    }
  }

  lemma CharNoShorter(ch: Char, validate: bool)
    requires GoodChar(ch, validate)
    ensures |Printing.Escaped(CharBytes(ch, validate))| <= |CharText(ch, validate)|
  {
    match ch
    case Raw(bytes) => PlainEscapes(bytes);
    case Letter(letter, meaning) =>
      assert LETTERS[0] == (34, 34) && LETTERS[1] == (92, 92) && LETTERS[2] == (47, 47) && LETTERS[3] == (98, 8);
      assert Printing.Escaped([meaning]) == Printing.EscapedByte(meaning) + Printing.Escaped([]);
    case Unit(v, lower) =>
      hide Printing.Escaped;
      EncodeEscapes(v);
    case Pair(cp, lower, lowerToo) =>
      hide Printing.Escaped;
      EncodeEscapes(cp);
  }

  /** No text of a string that a reader would give back is shorter than the one the writer writes. */
  lemma {:induction false} NoShorterText(chars: seq<Char>, validate: bool)
    requires GoodChars(chars, validate)
    ensures |Printing.Escaped(CharsBytes(chars, validate))| <= |CharsText(chars, validate)|
  {
    hide GoodChar, CharText, CharBytes, Printing.EscapedByte;
    if chars != [] {
      CharNoShorter(chars[0], validate);
      NoShorterText(chars[1..], validate);
      EscapedJoins(CharBytes(chars[0], validate), CharsBytes(chars[1..], validate));
    }
  }
}
