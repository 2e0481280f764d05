/**
 The lexical level of reader.h: white space and comments, the three names, strings and numbers,
 each as a function of the text and a position in it.
 */
module Scanner {
  import opened Ascii
  import opened Events
  import Utf8
  import Decimal

  //////////////////////////////////////////////////////////////////////////////
  // White space and comments
  //////////////////////////////////////////////////////////////////////////////

  predicate IsSpace(c: Byte) {
    c == SPACE || c == LF || c == CR || c == TAB
  }

  function SkipSpaces(src: seq<Byte>, p: nat): (q: nat)
    requires p <= |src|
    ensures p <= q <= |src|
    ensures !IsSpace(Peek(src, q))
    decreases |src| - p
  {
    if IsSpace(Peek(src, p)) then SkipSpaces(src, p + 1) else p
  }

  /** The position after the next star-slash, or the end of the text if there is none. */
  function BlockEnd(src: seq<Byte>, p: nat): (r: Scanned<()>)
    requires p <= |src|
    ensures r.Ok? ==> p < r.pos <= |src|
    decreases |src| - p
  {
    if Peek(src, p) == 0 then Err(UnspecificSyntaxError, p)
    else if Peek(src, p) == STAR && Peek(src, p + 1) == SLASH then Ok((), p + 2)
    else BlockEnd(src, p + 1)
  }

  function LineEnd(src: seq<Byte>, p: nat): (q: nat)
    requires p <= |src|
    ensures p <= q <= |src|
    decreases |src| - p
  {
    if Peek(src, p) == 0 then p else if Peek(src, p) == LF then p + 1 else LineEnd(src, p + 1)
  }

  /** SkipWhitespaceAndComments. */
  function Skip(src: seq<Byte>, p: nat, comments: bool): (r: Scanned<()>)
    requires p <= |src|
    ensures r.Ok? ==> p <= r.pos <= |src|
    decreases |src| - p
  {
    var q := SkipSpaces(src, p);
    if !comments || Peek(src, q) != SLASH then Ok((), q)
    else if Peek(src, q + 1) == STAR then
      var end := BlockEnd(src, q + 2);
      if end.Ok? then Skip(src, end.pos, comments) else end
    else if Peek(src, q + 1) == SLASH then Skip(src, LineEnd(src, q + 2), comments)
    else Err(UnspecificSyntaxError, q + 1)
  }

  /** Skipping spaces first changes nothing. */
  lemma SkipAfterSpaces(src: seq<Byte>, p: nat, comments: bool)
    requires p <= |src|
    ensures Skip(src, SkipSpaces(src, p), comments) == Skip(src, p, comments)
  {
    var q := SkipSpaces(src, p);
    assert SkipSpaces(src, q) == q;
  }

  //////////////////////////////////////////////////////////////////////////////
  // null, true, false
  //////////////////////////////////////////////////////////////////////////////

  const NULL: seq<Byte> := [110, 117, 108, 108]
  const TRUE: seq<Byte> := [116, 114, 117, 101]
  const FALSE: seq<Byte> := [102, 97, 108, 115, 101]

  /** One Consume after another: the offset of an error is the first character that differs. */
  function Name(src: seq<Byte>, p: nat, rest: seq<Byte>, event: Event): (r: Scanned<Event>)
    requires p <= |src| && 0 !in rest
    ensures r.Ok? ==> r.pos == p + |rest| <= |src|
    decreases |rest|
  {
    if rest == [] then Ok(event, p)
    else if Peek(src, p) == rest[0] then Name(src, p + 1, rest[1..], event)
    else Err(ValueInvalid, p)
  }

  //////////////////////////////////////////////////////////////////////////////
  // Strings
  //////////////////////////////////////////////////////////////////////////////

  /** The character a one-letter escape stands for, 0 if there is none. */
  function Unescape(e: Byte): Byte {
    if e == QUOTE || e == SLASH || e == BACKSLASH then e
    else if e == 98 then 8
    else if e == 102 then 12
    else if e == 110 then LF
    else if e == 114 then CR
    else if e == 116 then TAB
    else 0
  }

  /** The number four hexadecimal digits denote, -1 if they are not four such digits. */
  function Hex4(src: seq<Byte>, p: nat): (v: int)
    ensures -1 <= v <= 0xFFFF
    ensures v >= 0 ==> p + 4 <= |src|
  {
    var a, b, c, d := HexValue(Peek(src, p)), HexValue(Peek(src, p + 1)),
                      HexValue(Peek(src, p + 2)), HexValue(Peek(src, p + 3));
    if a < 0 || b < 0 || c < 0 || d < 0 then -1 else ((a * 16 + b) * 16 + c) * 16 + d
  }

  /** The code point of a unicode escape whose backslash is at `p`. */
  function UnicodeEscape(src: seq<Byte>, p: nat): (r: Scanned<int>)
    ensures r.Ok? ==> p + 6 <= r.pos <= |src| && 0 <= r.value <= 0x10FFFF
  {
    var high := Hex4(src, p + 2);
    if high < 0 then Err(StringUnicodeEscapeInvalidHex, p)
    else if 0xD800 <= high <= 0xDBFF then
      if Peek(src, p + 6) != BACKSLASH || Peek(src, p + 7) != 117 then Err(StringUnicodeSurrogateInvalid, p)
      else
        var low := Hex4(src, p + 8);
        if low < 0 then Err(StringUnicodeEscapeInvalidHex, p)
        else if low < 0xDC00 || low > 0xDFFF then Err(StringUnicodeSurrogateInvalid, p)
        else Ok((high - 0xD800) * 1024 + (low - 0xDC00) + 0x10000, p + 12)
    else Ok(high, p + 6)
  }

  /** ParseStringToStream: what one round of its loop adds to the string, or nothing more at the
      closing quote. */
  function StringPiece(src: seq<Byte>, p: nat, validate: bool): (r: Scanned<seq<Byte>>)
    ensures r.Ok? ==> p < r.pos <= |src|
  {
    var c := Peek(src, p);
    if c == BACKSLASH then
      var e := Peek(src, p + 1);
      if Unescape(e) != 0 then Ok([Unescape(e)], p + 2)
      else if e == 117 then
        var cp := UnicodeEscape(src, p);
        if cp.Ok? then Ok(Utf8.Encode(cp.value), cp.pos) else Err(cp.code, cp.offset)
      else Err(StringEscapeInvalid, p)
    else if c == QUOTE then Ok([], p + 1)
    else if c == 0 then Err(StringMissQuotationMark, p)
    else if c < 0x20 then Err(StringInvalidEncoding, p)
    else if !validate then Ok([c], p + 1)
    else if Utf8.Utf8Char(Utf8.Unit(src, p)) then
      Utf8.UnitInside(src, p);
      Ok(Utf8.Unit(src, p), p + Utf8.LeadLength(c))
    else Err(StringInvalidEncoding, p)
  }

  /** The characters of a string from `p` to its closing quote. */
  function StringRest(src: seq<Byte>, p: nat, validate: bool, acc: seq<Byte>): (r: Scanned<seq<Byte>>)
    requires p <= |src|
    ensures r.Ok? ==> p < r.pos <= |src|
    decreases |src| - p
  {
    var piece := StringPiece(src, p, validate);
    if piece.Err? then piece
    else if Peek(src, p) == QUOTE then Ok(acc, piece.pos)
    else StringRest(src, piece.pos, validate, acc + piece.value)
  }

  //////////////////////////////////////////////////////////////////////////////
  // Numbers
  //////////////////////////////////////////////////////////////////////////////

  function DigitsEnd(src: seq<Byte>, p: nat): (q: nat)
    requires p <= |src|
    ensures p <= q <= |src|
    ensures forall i :: p <= i < q ==> IsDigit(src[i])
    ensures !IsDigit(Peek(src, q))
    decreases |src| - p
  {
    if IsDigit(Peek(src, p)) then DigitsEnd(src, p + 1) else p
  }

  lemma {:induction false} DigitsEndHere(src: seq<Byte>, p: nat, digits: seq<Byte>)
    requires At(src, p, digits) && Decimal.AllDigits(digits) && !IsDigit(Peek(src, p + |digits|))
    ensures DigitsEnd(src, p) == p + |digits|
    decreases |digits|
  {
    if digits != [] {
      AtPeek(src, p, digits, 0);
      assert digits == [digits[0]] + digits[1..];
      AtSplits(src, p, [digits[0]], digits[1..]);
      DigitsEndHere(src, p + 1, digits[1..]);
    }
  }

  /** The end of `int`, section 6 of RFC 8259, at `p`. */
  function IntEnd(src: seq<Byte>, p: nat): (r: Scanned<()>)
    requires p <= |src|
    ensures r.Ok? ==> p < r.pos <= |src| && forall i :: p <= i < r.pos ==> IsDigit(src[i])
  {
    if Peek(src, p) == ZERO then Ok((), p + 1)
    else if IsDigit(Peek(src, p)) then Ok((), DigitsEnd(src, p))
    else Err(ValueInvalid, p)
  }

  /** The end of an optional `frac` at `p`. */
  function FracEnd(src: seq<Byte>, p: nat): (r: Scanned<()>)
    requires p <= |src|
    ensures r.Ok? ==> p <= r.pos <= |src|
  {
    if Peek(src, p) != DOT then Ok((), p)
    else if IsDigit(Peek(src, p + 1)) then Ok((), DigitsEnd(src, p + 1))
    else Err(NumberMissFraction, p + 1)
  }

  /** The end of an optional `exp` at `p`. */
  function ExpEnd(src: seq<Byte>, p: nat): (r: Scanned<()>)
    requires p <= |src|
    ensures r.Ok? ==> p <= r.pos <= |src|
  {
    if Peek(src, p) != 101 && Peek(src, p) != 69 then Ok((), p)
    else
      var q := if Peek(src, p + 1) == PLUS || Peek(src, p + 1) == MINUS then p + 2 else p + 1;
      if IsDigit(Peek(src, q)) then Ok((), DigitsEnd(src, q)) else Err(NumberMissExponent, q)
  }

  /** The narrowest integer event for a literal, if any integer type holds its value. */
  function IntegerEvent(minus: bool, n: int): Option<Event> {
    if minus then
      if n <= 0x8000_0000 then Some(Int(-n))
      else if n <= 0x8000_0000_0000_0000 then Some(Int64(-n))
      else None
    else
      if n <= 0xFFFF_FFFF then Some(Uint(n))
      else if n <= 0xFFFF_FFFF_FFFF_FFFF then Some(Uint64(n))
      else None
  }

  /** ParseNumber. */
  function Number(src: seq<Byte>, p: nat, cfg: Config): (r: Scanned<Event>)
    requires p <= |src|
    ensures r.Ok? ==> p < r.pos <= |src|
  {
    var minus := Peek(src, p) == MINUS;
    var first := if minus then p + 1 else p;
    var intEnd := IntEnd(src, first);
    if intEnd.Err? then Err(intEnd.code, intEnd.offset) else
    var frac := FracEnd(src, intEnd.pos);
    if frac.Err? then Err(frac.code, frac.offset) else
    var exp := ExpEnd(src, frac.pos);
    if exp.Err? then Err(exp.code, exp.offset) else
    var event := IntegerEvent(minus, Decimal.NatOf(src[first..intEnd.pos]));
    if exp.pos == intEnd.pos && event.Some? then Ok(event.value, exp.pos)
    else if cfg.tooBig(src[p..exp.pos]) then Err(NumberTooBig, p)
    else Ok(Double(src[p..exp.pos]), exp.pos)
  }

  //////////////////////////////////////////////////////////////////////////////
  // Values other than arrays and objects
  //////////////////////////////////////////////////////////////////////////////

  /** ParseString: the quote is at `p`. */
  function StringAt(src: seq<Byte>, p: nat, cfg: Config): (r: Scanned<seq<Byte>>)
    requires p < |src|
    ensures r.Ok? ==> p < r.pos <= |src|
  {
    StringRest(src, p + 1, cfg.validateEncoding, [])
  }

  /** ParseValue on a text that opens neither an array nor an object. */
  function Scalar(src: seq<Byte>, p: nat, cfg: Config): (r: Scanned<Event>)
    requires p <= |src|
    ensures r.Ok? ==> p < r.pos <= |src|
  {
    var c := Peek(src, p);
    if c == NULL[0] then Name(src, p + 1, NULL[1..], Null)
    else if c == TRUE[0] then Name(src, p + 1, TRUE[1..], Bool(true))
    else if c == FALSE[0] then Name(src, p + 1, FALSE[1..], Bool(false))
    else if c == QUOTE then
      var s := StringAt(src, p, cfg);
      if s.Ok? then Ok(String(s.value), s.pos) else Err(s.code, s.offset)
    else Number(src, p, cfg)
  }
}
