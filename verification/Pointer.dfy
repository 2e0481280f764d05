/**
 JSON Pointer texts, as in pointer.h: Parse and Stringify in the plain form of section 3 and the URI
 fragment form of section 6 of RFC 6901.
 */
module Pointers {
  import opened Ascii
  import opened Events
  import Decimal
  import Utf8

  const INVALID_INDEX: Size := 0xFFFF_FFFF

  const ONE: Byte := 49

  datatype Token = Token(name: seq<Byte>, index: Size)

  datatype PointerError =
    | TokenMustBeginWithSolidus
    | InvalidEscape
    | InvalidPercentEncoding
    | CharacterMustPercentEncode

  datatype Parsed = Tokens(tokens: seq<Token>) | Error(error: PointerError, offset: nat)

  /** A piece of a name and where the text goes on, or an error. */
  datatype Piece = Piece(bytes: seq<Byte>, pos: nat) | Bad(code: PointerError, at: nat)

  //////////////////////////////////////////////////////////////////////////////
  // Array indices
  //////////////////////////////////////////////////////////////////////////////

  const TWO32: int := 0x1_0000_0000

  /** Digits without a superfluous zero. */
  predicate IsCanonical(name: seq<Byte>) {
    name != [] && Decimal.AllDigits(name) && (|name| > 1 ==> name[0] != ZERO)
  }

  /** The number the first `j` digits denote, in 32 bits. */
  function Prefix32(name: seq<Byte>, j: nat): int
    requires Decimal.AllDigits(name) && j <= |name|
  {
    Decimal.NatOf(name[..j]) % TWO32
  }

  /** The overflow test catches the name: some digit makes the number smaller, in 32 bits. */
  predicate Caught(name: seq<Byte>)
    requires Decimal.AllDigits(name)
  {
    exists j | 0 <= j < |name| :: Prefix32(name, j + 1) < Prefix32(name, j)
  }

  /** The index of a token depends on its name alone. */
  function IndexOf(name: seq<Byte>): Size {
    if IsCanonical(name) && !Caught(name) then Prefix32(name, |name|) else INVALID_INDEX
  }

  lemma {:induction false} PrefixGrows(name: seq<Byte>, j: nat)
    requires Decimal.AllDigits(name) && j < |name|
    ensures Decimal.NatOf(name[..j + 1]) == Decimal.NatOf(name[..j]) * 10 + (name[j] - ZERO)
  {
    assert name[..j + 1][..j] == name[..j];
  }

  lemma {:induction false} PrefixBound(name: seq<Byte>, j: nat)
    requires Decimal.AllDigits(name) && j <= |name|
    ensures Decimal.NatOf(name[..j]) <= Decimal.NatOf(name)
    decreases |name| - j
  {
    if j < |name| {
      PrefixGrows(name, j);
      PrefixBound(name, j + 1);
    } else {
      assert name[..j] == name;
    }
  }

  /** A canonical number below 2^32 is its own index. */
  lemma IndexIsNumber(name: seq<Byte>)
    requires IsCanonical(name) && Decimal.NatOf(name) < TWO32
    ensures IndexOf(name) == Decimal.NatOf(name)
  {
    hide Decimal.NatOf;
    forall j | 0 <= j < |name| ensures Prefix32(name, j + 1) >= Prefix32(name, j) {
      PrefixGrows(name, j);
      PrefixBound(name, j);
      PrefixBound(name, j + 1);
    }
    assert name[..|name|] == name;
  }

  /** What an index should be. */
  function ExactIndex(name: seq<Byte>): Size {
    if IsCanonical(name) && Decimal.NatOf(name) < TWO32 then Decimal.NatOf(name) else INVALID_INDEX
  }

  /** The index is right if and only if the number fits 32 bits, or the overflow test catches it, or
      it happens to wrap around to the invalid index. */
  lemma IndexExactly(name: seq<Byte>)
    ensures IndexOf(name) == ExactIndex(name) <==>
      || !IsCanonical(name)
      || Decimal.NatOf(name) < TWO32
      || Caught(name)
      || Decimal.NatOf(name) % TWO32 == INVALID_INDEX
  {
    if IsCanonical(name) && Decimal.NatOf(name) < TWO32 {
      IndexIsNumber(name);
    }
    assert name[..|name|] == name;
  }

  const TEN_BILLION: seq<Byte> := [49, 48, 48, 48, 48, 48, 48, 48, 48, 48, 48]

  /** One more zero, and whether the overflow test notices it. */
  lemma {:induction false} OneMoreZero(name: seq<Byte>, j: nat, v: int)
    requires Decimal.AllDigits(name) && j < |name| && Decimal.NatOf(name[..j]) == v && name[j] == ZERO
    ensures Decimal.NatOf(name[..j + 1]) == v * 10
    ensures Rises(name, j) <==> v * 10 % TWO32 >= v % TWO32
  {
    PrefixGrows(name, j);
  }

  predicate Rises(name: seq<Byte>, j: nat)
    requires Decimal.AllDigits(name) && j < |name|
  {
    Prefix32(name, j + 1) >= Prefix32(name, j)
  }

  lemma {:induction false} FirstDigitsRise(name: seq<Byte>)
    requires Decimal.AllDigits(name) && |name| == 11 && name[0] == ONE && forall i | 1 <= i < 11 :: name[i] == ZERO
    ensures Rises(name, 0) && Rises(name, 1) && Rises(name, 2) && Rises(name, 3) && Rises(name, 4)
    ensures Decimal.NatOf(name[..5]) == 10_000
  {
    PrefixGrows(name, 0);
    NothingDenotesZero(name[..0]);
    assert Rises(name, 0) && Decimal.NatOf(name[..1]) == 1;
    hide Decimal.NatOf, Rises, Decimal.AllDigits;
    OneMoreZero(name, 1, 1);
    OneMoreZero(name, 2, 10);
    OneMoreZero(name, 3, 100);
    OneMoreZero(name, 4, 1000);
  }

  lemma {:induction false} LastDigitsRise(name: seq<Byte>)
    requires Decimal.AllDigits(name) && |name| == 11 && (forall i | 1 <= i < 11 :: name[i] == ZERO)
    requires Decimal.NatOf(name[..5]) == 10_000
    ensures Rises(name, 5) && Rises(name, 6) && Rises(name, 7) && Rises(name, 8) && Rises(name, 9) && Rises(name, 10)
    ensures Decimal.NatOf(name[..11]) == 10_000_000_000
  {
    hide Decimal.NatOf, Rises, Decimal.AllDigits;
    OneMoreZero(name, 5, 10_000);
    OneMoreZero(name, 6, 100_000);
    OneMoreZero(name, 7, 1_000_000);
    OneMoreZero(name, 8, 10_000_000);
    OneMoreZero(name, 9, 100_000_000);
    OneMoreZero(name, 10, 1_000_000_000);
  }

  /** An overflow that is not caught: 10000000000 becomes the index 1410065408. */
  lemma {:induction false} OverflowMissed()
    ensures IsCanonical(TEN_BILLION) && Decimal.NatOf(TEN_BILLION) == 10_000_000_000
    ensures IndexOf(TEN_BILLION) == 1_410_065_408
  {
    hide Decimal.NatOf;
    var name := TEN_BILLION;
    FirstDigitsRise(name);
    LastDigitsRise(name);
    assert name[..11] == name;
    forall j | 0 <= j < |name| ensures Prefix32(name, j + 1) >= Prefix32(name, j) { assert Rises(name, j); }
  }

  /** The conversion of a name to SizeType, with its overflow test. */
  method ParseIndex(name: seq<Byte>, allDigits: bool) returns (index: Size)
    requires allDigits <==> Decimal.AllDigits(name)
    ensures index == IndexOf(name)
  {
    hide Decimal.NatOf;
    if !allDigits || |name| == 0 || (|name| > 1 && name[0] == ZERO) {
      return INVALID_INDEX;
    }
    var n: Size := 0;
    assert Decimal.NatOf(name[..0]) == 0 by { NothingDenotesZero(name[..0]); }
    for j := 0 to |name|
      invariant n == Prefix32(name, j)
      invariant forall k | 0 <= k < j :: Prefix32(name, k + 1) >= Prefix32(name, k)
    {
      PrefixGrows(name, j);
      Step32(Decimal.NatOf(name[..j]), name[j] - ZERO);
      var m := (n * 10 + (name[j] - ZERO)) % TWO32;
      if m < n {
        assert Prefix32(name, j + 1) < Prefix32(name, j);
        return INVALID_INDEX;
      }
      n := m;
    }
    index := n;
  }

  lemma NothingDenotesZero(s: seq<Byte>)
    requires s == []
    ensures Decimal.NatOf(s) == 0
  {
  }

  lemma Step32(x: nat, d: int)
    ensures (x % TWO32 * 10 + d) % TWO32 == (x * 10 + d) % TWO32
  {
    var q := x / TWO32;
    assert x * 10 + d == q * 10 * TWO32 + (x % TWO32 * 10 + d);
    var y := x % TWO32 * 10 + d;
    Decimal.DivUnique(x * 10 + d, TWO32, q * 10 + y / TWO32, y % TWO32);
  }

  //////////////////////////////////////////////////////////////////////////////
  // Percent encoding
  //////////////////////////////////////////////////////////////////////////////

  /** Not one of the unreserved characters of section 2.3 of RFC 3986. */
  predicate NeedPercentEncode(c: Byte) {
    !(IsDigit(c) || 65 <= c <= 90 || 97 <= c <= 122 || c == MINUS || c == DOT || c == 95 || c == TILDE)
  }

  /** The byte a triplet of a percent sign and two hexadecimal digits stands for, -1 if there is none. */
  function PercentByte(src: seq<Byte>, p: nat): (r: int)
    ensures -1 <= r < 256
    ensures r >= 0 ==> p + 3 <= |src|
  {
    if Peek(src, p) != PERCENT || p + 3 > |src| then -1
    else
      var high, low := HexValue(src[p + 1]), HexValue(src[p + 2]);
      if high < 0 || low < 0 then -1 else high * 16 + low
  }

  /** The bytes of `n` triplets in a row. */
  function PercentBytes(src: seq<Byte>, p: nat, n: nat): (r: Option<seq<Byte>>)
    ensures r.Some? ==> |r.value| == n
    decreases n
  {
    if n == 0 then Some([])
    else
      var first := PercentByte(src, p);
      if first < 0 then None
      else
        match PercentBytes(src, p + 3, n - 1)
        case None => None
        case Some(rest) => Some([first] + rest)
  }

  /** One UTF-8 character in triplets. */
  function PercentUnit(src: seq<Byte>, p: nat): (r: Option<seq<Byte>>)
    ensures r.Some? ==> Utf8.Utf8Char(r.value) && 1 <= |r.value| <= 4
  {
    var first := PercentByte(src, p);
    if first < 0 then None
    else
      match PercentBytes(src, p, Utf8.LeadLength(first))
      case None => None
      case Some(bytes) => if Utf8.Utf8Char(bytes) then Some(bytes) else None
  }

  function Percent(c: Byte): seq<Byte> {
    [PERCENT, HexDigit(c / 16), HexDigit(c % 16)]
  }

  function Percents(s: seq<Byte>): (r: seq<Byte>)
    ensures |r| == 3 * |s|
  {
    if s == [] then [] else Percent(s[0]) + Percents(s[1..])
  }

  lemma PercentReads(src: seq<Byte>, p: nat, c: Byte)
    requires At(src, p, Percent(c))
    ensures PercentByte(src, p) == c
  {
    AtPeek(src, p, Percent(c), 0);
    AtPeek(src, p, Percent(c), 1);
    AtPeek(src, p, Percent(c), 2);
    HexRoundTrip(c / 16);
    HexRoundTrip(c % 16);
    hide HexDigit, HexValue;
  }

  lemma {:induction false} PercentsRead(src: seq<Byte>, p: nat, s: seq<Byte>)
    requires At(src, p, Percents(s))
    ensures PercentBytes(src, p, |s|) == Some(s)
    decreases |s|
  {
    hide At, PercentByte, Percent;
    if s != [] {
      AtSplits(src, p, Percent(s[0]), Percents(s[1..]));
      PercentReads(src, p, s[0]);
      PercentsRead(src, p + 3, s[1..]);
      assert s == [s[0]] + s[1..];
    }
  }

  //////////////////////////////////////////////////////////////////////////////
  // Parse
  //////////////////////////////////////////////////////////////////////////////

  /** A character, at `i` after it; a tilde begins an escape. */
  function AfterChar(src: seq<Byte>, c: Byte, i: nat): (r: Piece)
    ensures r.Piece? ==> |r.bytes| == 1 && i <= r.pos <= i + 1 && (i <= |src| ==> r.pos <= |src|)
  {
    if c != TILDE then Piece([c], i)
    else if i < |src| && src[i] == ZERO then Piece([TILDE], i + 1)
    else if i < |src| && src[i] == ONE then Piece([SLASH], i + 1)
    else Bad(InvalidEscape, i)
  }

  /** One round of the loop over the characters of a name. */
  function NamePiece(src: seq<Byte>, i: nat, uri: bool): (r: Piece)
    requires i < |src|
    ensures r.Piece? ==> i < r.pos <= |src| && 1 <= |r.bytes| && |r.bytes| <= r.pos - i
  {
    var c := src[i];
    if uri && c == PERCENT then
      match PercentUnit(src, i)
      case None => Bad(InvalidPercentEncoding, i)
      case Some(bytes) =>
        PercentsInside(src, i, |bytes|);
        if |bytes| == 1 then AfterChar(src, bytes[0], i + 3) else Piece(bytes, i + 3 * |bytes|)
    else if uri && NeedPercentEncode(c) then Bad(CharacterMustPercentEncode, i)
    else AfterChar(src, c, i + 1)
  }

  lemma {:induction false} PercentsInside(src: seq<Byte>, p: nat, n: nat)
    requires PercentBytes(src, p, n).Some? && p <= |src|
    ensures p + 3 * n <= |src|
    decreases n
  {
    if n > 0 { PercentsInside(src, p + 3, n - 1); }
  }

  predicate NameEnds(src: seq<Byte>, i: nat) {
    i >= |src| || src[i] == SLASH
  }

  /** The rest of a name. */
  function Name(src: seq<Byte>, i: nat, uri: bool, acc: seq<Byte>): (r: Piece)
    requires i <= |src|
    ensures r.Piece? ==> i <= r.pos <= |src| && NameEnds(src, r.pos)
    decreases |src| - i
  {
    if NameEnds(src, i) then Piece(acc, i)
    else
      match NamePiece(src, i, uri)
      case Bad(code, at) => Bad(code, at)
      case Piece(bytes, j) => Name(src, j, uri, acc + bytes)
  }

  /** The tokens from a solidus on. */
  function TokensFrom(src: seq<Byte>, i: nat, uri: bool, before: seq<Token>): (r: Parsed)
    requires i <= |src| && NameEnds(src, i)
    decreases |src| - i
  {
    if i == |src| then Tokens(before)
    else
      match Name(src, i + 1, uri, [])
      case Bad(code, at) => Error(code, at)
      case Piece(name, j) => TokensFrom(src, j, uri, before + [Token(name, IndexOf(name))])
  }

  function Parse(src: seq<Byte>): Parsed {
    var uri := Peek(src, 0) == HASH;
    var i := if uri then 1 else 0;
    if i != |src| && src[i] != SLASH then Error(TokenMustBeginWithSolidus, i)
    else TokensFrom(src, i, uri, [])
  }

  //////////////////////////////////////////////////////////////////////////////
  // Stringify
  //////////////////////////////////////////////////////////////////////////////

  /** What the loop of Stringify takes from the front of a name at once. */
  function Taken(name: seq<Byte>, uri: bool): (n: nat)
    requires name != []
    ensures n >= 1
  {
    if uri && NeedPercentEncode(name[0]) && name[0] != SLASH then Utf8.LeadLength(name[0]) else 1
  }

  /** ... and what it writes for it; None if it is no UTF-8 character. */
  function Written(name: seq<Byte>, uri: bool): Option<seq<Byte>>
    requires name != []
  {
    var c := name[0];
    if c == TILDE then Some([TILDE, ZERO])
    else if c == SLASH then Some([TILDE, ONE])
    else if uri && NeedPercentEncode(c) then
      if Utf8.Utf8Char(Utf8.Unit(name, 0)) then Some(Percents(Utf8.Unit(name, 0))) else None
    else Some([c])
  }

  function NameText(name: seq<Byte>, uri: bool): Option<seq<Byte>>
    decreases |name|
  {
    if name == [] then Some([])
    else if Written(name, uri).None? || Taken(name, uri) > |name| then None
    else
      match NameText(name[Taken(name, uri)..], uri)
      case None => None
      case Some(rest) => Some(Written(name, uri).value + rest)
  }

  function TokensText(names: seq<seq<Byte>>, uri: bool): Option<seq<Byte>> {
    if names == [] then Some([])
    else if NameText(names[0], uri).None? || TokensText(names[1..], uri).None? then None
    else Some([SLASH] + NameText(names[0], uri).value + TokensText(names[1..], uri).value)
  }

  function Text(names: seq<seq<Byte>>, uri: bool): Option<seq<Byte>> {
    match TokensText(names, uri)
    case None => None
    case Some(text) => Some(if uri then [HASH] + text else text)
  }

  //////////////////////////////////////////////////////////////////////////////
  // Round trip
  //////////////////////////////////////////////////////////////////////////////

  /** What is written for the front of a name is read as that front. */
  lemma PieceReads(src: seq<Byte>, i: nat, name: seq<Byte>, uri: bool)
    requires name != [] && Written(name, uri).Some? && At(src, i, Written(name, uri).value)
    ensures Taken(name, uri) <= |name| && |Written(name, uri).value| >= 1
    ensures i < |src| && !NameEnds(src, i)
    ensures NamePiece(src, i, uri) == Piece(name[..Taken(name, uri)], i + |Written(name, uri).value|)
  {
    var c, text := name[0], Written(name, uri).value;
    if uri && NeedPercentEncode(c) && c != SLASH {
      PercentsStart(Utf8.Unit(name, 0));
      AtPeek(src, i, text, 0);
      UnitReads(src, i, name);
    } else if c == TILDE || c == SLASH {
      AtPeek(src, i, text, 0);
      AtPeek(src, i, text, 1);
    } else {
      AtPeek(src, i, text, 0);
    }
  }

  lemma PercentsStart(s: seq<Byte>)
    requires s != []
    ensures |Percents(s)| >= 3 && Percents(s)[0] == PERCENT
  {
  }

  lemma UnitReads(src: seq<Byte>, i: nat, name: seq<Byte>)
    requires name != [] && Utf8.Utf8Char(Utf8.Unit(name, 0)) && At(src, i, Percents(Utf8.Unit(name, 0)))
    ensures var n := Utf8.LeadLength(name[0]);
            n <= |name| && Utf8.Unit(name, 0) == name[..n] && PercentUnit(src, i) == Some(name[..n])
  {
    hide At, PercentByte, Percent;
    Utf8.UnitInside(name, 0);
    var unit := Utf8.Unit(name, 0);
    PercentsRead(src, i, unit);
    AtSplits(src, i, Percent(unit[0]), Percents(unit[1..]));
    PercentReads(src, i, unit[0]);
  }

  lemma {:induction false} NameReads(src: seq<Byte>, i: nat, name: seq<Byte>, uri: bool, acc: seq<Byte>)
    requires NameText(name, uri).Some? && At(src, i, NameText(name, uri).value)
    requires NameEnds(src, i + |NameText(name, uri).value|)
    ensures i <= |src| && Name(src, i, uri, acc) == Piece(acc + name, i + |NameText(name, uri).value|)
    decreases |name|
  {
    hide At, NamePiece, Written, Taken;
    if name == [] {
      AtInside(src, i, []);
      assert acc + name == acc;
    } else {
      var n, text, rest := Taken(name, uri), Written(name, uri).value, name[Taken(name, uri)..];
      AtSplits(src, i, text, NameText(rest, uri).value);
      PieceReads(src, i, name, uri);
      NameReads(src, i + |text|, rest, uri, acc + name[..n]);
      assert acc + name[..n] + rest == acc + name;
    }
  }

  /** The tokens with the names given. */
  function TokensOf(names: seq<seq<Byte>>): seq<Token> {
    seq(|names|, i requires 0 <= i < |names| => Token(names[i], IndexOf(names[i])))
  }

  lemma {:induction false} TokensRead(src: seq<Byte>, i: nat, names: seq<seq<Byte>>, uri: bool, before: seq<Token>)
    requires TokensText(names, uri).Some? && At(src, i, TokensText(names, uri).value)
    requires |src| == i + |TokensText(names, uri).value|
    ensures NameEnds(src, i) && TokensFrom(src, i, uri, before) == Tokens(before + TokensOf(names))
    decreases |names|
  {
    hide At, Name, NameText, IndexOf;
    if names == [] {
      assert before + TokensOf(names) == before;
    } else {
      var text, rest := NameText(names[0], uri).value, TokensText(names[1..], uri).value;
      Nest([SLASH], text, rest);
      CharThen(src, i, SLASH, text + rest);
      AtSplits(src, i + 1, text, rest);
      var token := Token(names[0], IndexOf(names[0]));
      TokensRead(src, i + 1 + |text|, names[1..], uri, before + [token]);
      NameReads(src, i + 1, names[0], uri, []);
      assert [] + names[0] == names[0];
      assert TokensOf(names) == [token] + TokensOf(names[1..]);
      assert before + [token] + TokensOf(names[1..]) == before + TokensOf(names);
    }
  }

  lemma Nest(a: seq<Byte>, b: seq<Byte>, c: seq<Byte>)
    ensures a + b + c == a + (b + c)
  {
  }

  /** Parsing a pointer that has been stringified gives the same names back. */
  lemma StringifyThenParse(names: seq<seq<Byte>>, uri: bool)
    requires Text(names, uri).Some?
    ensures Parse(Text(names, uri).value) == Tokens(TokensOf(names))
  {
    hide TokensFrom, TokensOf, TokensText;
    var src, tokens := Text(names, uri).value, TokensText(names, uri).value;
    StartsWithSolidus(names, uri);
    assert src[0..|src|] == src;
    if uri {
      CharThen(src, 0, HASH, tokens);
    }
    TokensRead(src, if uri then 1 else 0, names, uri, []);
    assert [] + TokensOf(names) == TokensOf(names);
  }

  lemma {:induction false} StartsWithSolidus(names: seq<seq<Byte>>, uri: bool)
    requires TokensText(names, uri).Some?
    ensures var text := TokensText(names, uri).value; text == [] || text[0] == SLASH
  {
    hide NameText;
  }

  /** In plain form every list of names can be stringified. */
  lemma {:induction false} PlainNameText(name: seq<Byte>)
    ensures NameText(name, false).Some?
    decreases |name|
  {
    if name != [] { PlainNameText(name[1..]); }
  }

  lemma {:induction false} PlainText(names: seq<seq<Byte>>)
    ensures Text(names, false).Some?
  {
    if names != [] {
      PlainNameText(names[0]);
      PlainText(names[1..]);
    }
  }

  /** In URI fragment form, exactly the lists of well-formed UTF-8 names. */
  lemma {:induction false} UriNameText(name: seq<Byte>)
    ensures NameText(name, true).Some? <==> Utf8.WellFormed(name)
    decreases |name|
  {
    if name != [] {
      hide Utf8.Utf8Char, Utf8.Unit;
      var n := Utf8.LeadLength(name[0]);
      Utf8.UnitInside(name, 0);
      AsciiIsUtf8(name);
      if n <= |name| {
        UriNameText(name[n..]);
      }
    }
  }

  lemma AsciiIsUtf8(name: seq<Byte>)
    requires name != []
    ensures !NeedPercentEncode(name[0]) || name[0] == SLASH ==>
      Utf8.LeadLength(name[0]) == 1 && Utf8.Utf8Char(name[..1]) && Utf8.Utf8Char(Utf8.Unit(name, 0))
  {
    assert Utf8.LeadLength(name[0]) == 1 ==> Utf8.Unit(name, 0) == name[..1];
  }

  lemma {:induction false} UriText(names: seq<seq<Byte>>)
    ensures Text(names, true).Some? <==> forall i | 0 <= i < |names| :: Utf8.WellFormed(names[i])
  {
    hide NameText, Utf8.WellFormed;
    if names != [] {
      UriNameText(names[0]);
      UriText(names[1..]);
      assert forall i | 1 <= i < |names| :: names[i] == names[1..][i - 1];
    }
  }

  //////////////////////////////////////////////////////////////////////////////
  // The number of tokens
  //////////////////////////////////////////////////////////////////////////////

  /** The solidi from `i` on, which Parse counts to know how many tokens to expect. */
  function Solidi(src: seq<Byte>, i: nat): nat
    requires i <= |src|
    decreases |src| - i
  {
    if i == |src| then 0 else (if src[i] == SLASH then 1 else 0) + Solidi(src, i + 1)
  }

  lemma {:induction false} NoSolidus(src: seq<Byte>, i: nat, j: nat)
    requires i <= j <= |src| && forall k | i <= k < j :: src[k] != SLASH
    ensures Solidi(src, i) == Solidi(src, j)
    decreases j - i
  {
    if i < j { NoSolidus(src, i + 1, j); }
  }

  lemma {:induction false} PercentsNoSolidus(src: seq<Byte>, p: nat, n: nat)
    requires PercentBytes(src, p, n).Some? && p + 3 * n <= |src|
    ensures forall k | p <= k < p + 3 * n :: src[k] != SLASH
    decreases n
  {
    if n > 0 { PercentsNoSolidus(src, p + 3, n - 1); }
  }

  lemma PieceNoSolidus(src: seq<Byte>, i: nat, uri: bool)
    requires i < |src| && !NameEnds(src, i) && NamePiece(src, i, uri).Piece?
    ensures forall k | i <= k < NamePiece(src, i, uri).pos :: src[k] != SLASH
  {
    hide PercentByte, PercentBytes, NeedPercentEncode, Utf8.Utf8Char;
    if uri && src[i] == PERCENT {
      var n := |PercentUnit(src, i).value|;
      PercentsInside(src, i, n);
      PercentsNoSolidus(src, i, n);
    }
  }

  lemma {:induction false} NameNoSolidus(src: seq<Byte>, i: nat, uri: bool, acc: seq<Byte>)
    requires i <= |src| && Name(src, i, uri, acc).Piece?
    ensures Solidi(src, i) == Solidi(src, Name(src, i, uri, acc).pos)
    decreases |src| - i
  {
    hide NamePiece;
    if !NameEnds(src, i) {
      var piece := NamePiece(src, i, uri);
      PieceNoSolidus(src, i, uri);
      NoSolidus(src, i, piece.pos);
      NameNoSolidus(src, piece.pos, uri, acc + piece.bytes);
    }
  }

  lemma {:induction false} TokensAreSolidi(src: seq<Byte>, i: nat, uri: bool, before: seq<Token>)
    requires i <= |src| && NameEnds(src, i) && TokensFrom(src, i, uri, before).Tokens?
    ensures |TokensFrom(src, i, uri, before).tokens| == |before| + Solidi(src, i)
    decreases |src| - i
  {
    hide Name, IndexOf;
    if i < |src| {
      NameNoSolidus(src, i + 1, uri, []);
      var piece := Name(src, i + 1, uri, []);
      TokensAreSolidi(src, piece.pos, uri, before + [Token(piece.bytes, IndexOf(piece.bytes))]);
    }
  }

  /** A successful parse fills all the tokens that were counted in advance. */
  lemma TokenCount(src: seq<Byte>)
    requires Parse(src).Tokens?
    ensures |Parse(src).tokens| == Solidi(src, 0)
  {
    hide TokensFrom;
    var uri := Peek(src, 0) == HASH;
    TokensAreSolidi(src, if uri then 1 else 0, uri, []);
  }
}
