/** Parse and Stringify of pointer.h as loops over a text, names being written into one buffer. */
module PointerCode {
  import opened Ascii
  import opened Events
  import opened Pointers
  import Decimal
  import Utf8

  //////////////////////////////////////////////////////////////////////////////
  // Percent decoding
  //////////////////////////////////////////////////////////////////////////////

  class PercentDecodeStream {
    const src: seq<Byte>
    var pos: nat
    var valid: bool

    constructor (src: seq<Byte>, pos: nat)
      ensures this.src == src && this.pos == pos && valid
    {
      this.src, this.pos, valid := src, pos, true;
    }

    /** The byte of the triplet, or 0 and the stream invalid from then on. */
    method Take() returns (c: Byte)
      modifies this
      ensures valid == (old(valid) && PercentByte(src, old(pos)) >= 0)
      ensures if PercentByte(src, old(pos)) >= 0 then c == PercentByte(src, old(pos)) && pos == old(pos) + 3 else c == 0
    {
      if Peek(src, pos) != PERCENT || pos + 3 > |src| {
        valid := false;
        return 0;
      }
      ghost var begin := pos;
      pos := pos + 1;
      c := 0;
      for j := 0 to 2
        invariant pos == begin + 1 + j && begin + 3 <= |src| && src[begin] == PERCENT && valid == old(valid) && begin == old(pos)
        invariant j == 0 ==> c == 0
        invariant j >= 1 ==> HexValue(src[begin + 1]) >= 0
        invariant j == 1 ==> c == HexValue(src[begin + 1])
        invariant j == 2 ==> HexValue(src[begin + 2]) >= 0 && c == HexValue(src[begin + 1]) * 16 + HexValue(src[begin + 2])
      {
        var h := HexValue(src[pos]);
        if h < 0 {
          valid := false;
          return 0;
        }
        c := c % 16 * 16 + h;
        pos := pos + 1;
      }
    }
  }

  lemma {:induction false} PercentBytesMore(src: seq<Byte>, p: nat, n: nat)
    ensures PercentBytes(src, p, n + 1)
         == (match PercentBytes(src, p, n)
             case None => None
             case Some(bytes) => if PercentByte(src, p + 3 * n) < 0 then None else Some(bytes + [PercentByte(src, p + 3 * n)]))
    decreases n
  {
    hide PercentByte;
    if n > 0 {
      PercentBytesMore(src, p + 3, n - 1);
      assert p + 3 + 3 * (n - 1) == p + 3 * n;
      var first, last, rest := PercentByte(src, p), PercentByte(src, p + 3 * n), PercentBytes(src, p + 3, n - 1);
      if first >= 0 && last >= 0 && rest.Some? {
        var a: Byte, z: Byte := first, last;
        assert [a] + (rest.value + [z]) == [a] + rest.value + [z];
      }
    } else {
      OnePercentByte(src, p);
      if PercentByte(src, p) >= 0 {
        var first: Byte := PercentByte(src, p);
        assert [] + [first] == [first];
      }
    }
  }

  /** The verdict on the bytes taken so far. */
  predicate Passes(bytes: seq<Byte>) {
    && |bytes| >= 1
    && (|bytes| >= 2 ==> Utf8.Trans(bytes[1], Utf8.FirstMask(Utf8.GetRange(bytes[0]))))
    && (|bytes| >= 3 ==> Utf8.Tail(bytes[2]))
    && (|bytes| >= 4 ==> Utf8.Tail(bytes[3]))
  }

  lemma PassesMore(bytes: seq<Byte>, c: Byte)
    requires 1 <= |bytes| <= 3
    ensures Passes(bytes + [c]) <==>
      Passes(bytes) && Utf8.Trans(c, if |bytes| == 1 then Utf8.FirstMask(Utf8.GetRange(bytes[0])) else 0x70)
  {
    hide Utf8.Trans, Utf8.FirstMask, Utf8.GetRange;
    Utf8.Masks(c);
  }

  lemma PassesAll(bytes: seq<Byte>)
    requires bytes != [] && |bytes| == Utf8.LeadLength(bytes[0])
    ensures Utf8.Utf8Char(bytes) <==> Passes(bytes) && (bytes[0] < 0x80 || |bytes| >= 2)
  {
    hide Utf8.Trans, Utf8.FirstMask, Utf8.GetRange, Utf8.Utf8Char;
    Utf8.MasksAreGrammar(bytes);
    if |bytes| >= 2 { NotAscii(bytes[0]); }
  }

  lemma NotAscii(c: Byte)
    requires Utf8.LeadLength(c) >= 2
    ensures c >= 0x80
  {
  }

  /** Transcoder::Validate from triplets into the buffer. Every byte taken is put, even from an invalid
      triplet; a first triplet that is invalid puts one byte, and then no more is taken. */
  method Validate(stream: PercentDecodeStream, names: array<Byte>, n: nat) returns (ok: bool, len: nat)
    requires stream.valid && n < names.Length
    requires PercentByte(stream.src, stream.pos) >= 0 ==> n + 4 <= names.Length
    modifies stream, names
    ensures names[..n] == old(names[..n]) && 1 <= len <= 4 && n + len <= names.Length
    ensures ok && stream.valid <==> PercentUnit(stream.src, old(stream.pos)).Some?
    ensures ok && stream.valid ==>
      PercentUnit(stream.src, old(stream.pos)) == Some(names[n..n + len]) && stream.pos == old(stream.pos) + 3 * len
  {
    hide PercentByte, Passes, Utf8.LeadLength, Utf8.Trans, Utf8.FirstMask, Utf8.GetRange, Utf8.Utf8Char, PercentBytes;
    ghost var p, src := stream.pos, stream.src;
    OnePercentByte(src, p);
    var c := stream.Take();
    names[n] := c;
    FirstPasses([c]);
    ghost var bytes := [c];
    var lead := c;
    var total := Utf8.LeadLength(c);
    ok, len := c < 0x80 || total >= 2, 1;
    if PercentByte(src, p) < 0 { ZeroIsAscii(); }
    while len < total
      invariant 1 <= len == |bytes| <= total <= 4 && bytes[0] == lead && total == Utf8.LeadLength(lead)
      invariant total >= 2 ==> PercentByte(src, p) == lead && n + 4 <= names.Length
      invariant names[..n] == old(names[..n]) && names[n..n + len] == bytes
      invariant ok <==> Passes(bytes) && (lead < 0x80 || total >= 2)
      invariant if stream.valid then PercentBytes(src, p, len) == Some(bytes) && stream.pos == p + 3 * len
                else PercentBytes(src, p, len).None?
    {
      PercentBytesMore(src, p, len);
      c := stream.Take();
      PassesMore(bytes, c);
      names[n + len] := c;
      bytes := bytes + [c];
      ok := ok && Utf8.Trans(c, if len == 1 then Utf8.FirstMask(Utf8.GetRange(lead)) else 0x70);
      len := len + 1;
    }
    PassesAll(bytes);
  }

  lemma OnePercentByte(src: seq<Byte>, p: nat)
    ensures PercentBytes(src, p, 1) == if PercentByte(src, p) < 0 then None else Some([PercentByte(src, p)])
  {
    var first := PercentByte(src, p);
    assert PercentBytes(src, p + 3, 0) == Some([]);
    if first >= 0 {
      var byte: Byte := first;
      assert [byte] + [] == [byte];
    }
  }

  lemma FirstPasses(bytes: seq<Byte>)
    requires |bytes| == 1
    ensures Passes(bytes)
  {
  }

  lemma ZeroIsAscii()
    ensures Utf8.LeadLength(0) == 1
  {
  }

  //////////////////////////////////////////////////////////////////////////////
  // Parse
  //////////////////////////////////////////////////////////////////////////////

  /** How far the source cursor is ahead of the buffer cursor inside a name: the solidus has been
      consumed and the NUL not yet written, and so has the number sign of a fragment. */
  function Lead(uri: bool): nat {
    if uri then 2 else 1
  }

  /** One round of the loop over the characters of a name. */
  method ParseChar(src: seq<Byte>, i: nat, uri: bool, names: array<Byte>, n: nat) returns (piece: Piece, end: nat)
    requires i < |src| == names.Length && n + Lead(uri) <= i
    modifies names
    ensures names[..n] == old(names[..n])
    ensures piece == NamePiece(src, i, uri)
    ensures piece.Piece? ==> end + Lead(uri) <= piece.pos && names[..end] == old(names[..n]) + piece.bytes
  {
    hide PercentUnit, PercentByte, NeedPercentEncode, Utf8.Utf8Char;
    var c, i := src[i], i;
    end := n;
    if uri {
      if c == PERCENT {
        var stream := new PercentDecodeStream(src, i);
        RoomForUnit(src, i, n);
        var ok, len := Validate(stream, names, n);
        if !ok || !stream.valid {
          return Bad(InvalidPercentEncoding, i), end;
        }
        i := i + (stream.pos - i) - 1;
        if len == 1 {
          c := names[n];
        } else {
          assert names[..n + len] == names[..n] + names[n..n + len];
          return Piece(names[n..n + len], i + 1), n + len;
        }
      } else if NeedPercentEncode(c) {
        return Bad(CharacterMustPercentEncode, i), end;
      }
    }
    i := i + 1;
    if c == TILDE {
      if i < |src| {
        c := src[i];
        if c == ZERO {
          c := TILDE;
        } else if c == ONE {
          c := SLASH;
        } else {
          return Bad(InvalidEscape, i), end;
        }
        i := i + 1;
      } else {
        return Bad(InvalidEscape, i), end;
      }
    }
    names[n] := c;
    assert names[..n + 1] == names[..n] + [c];
    return Piece([c], i), n + 1;
  }

  /** A character of more than one byte is no digit. */
  lemma LongPieceIsNoNumber(src: seq<Byte>, i: nat, uri: bool)
    requires i < |src|
    ensures var piece := NamePiece(src, i, uri);
            piece.Piece? ==> (Decimal.AllDigits(piece.bytes) <==> |piece.bytes| == 1 && IsDigit(piece.bytes[0]))
  {
    hide PercentUnit, PercentByte, NeedPercentEncode;
  }

  /** Even a sequence that is rejected writes nothing past the source cursor. */
  lemma RoomForUnit(src: seq<Byte>, i: nat, n: nat)
    requires i < |src| && n + 2 <= i
    ensures n < |src| && (PercentByte(src, i) >= 0 ==> n + 4 <= |src|)
  {
  }

  /** The loop over the characters of a name. */
  method ParseName(src: seq<Byte>, start: nat, uri: bool, names: array<Byte>, n: nat)
      returns (piece: Piece, end: nat, allDigits: bool)
    requires start <= |src| == names.Length && n + Lead(uri) <= start
    modifies names
    ensures names[..n] == old(names[..n])
    ensures piece == Name(src, start, uri, [])
    ensures piece.Piece? ==> n <= end && end + Lead(uri) <= piece.pos && names[n..end] == piece.bytes
    ensures piece.Piece? ==> (allDigits <==> Decimal.AllDigits(piece.bytes))
  {
    hide NamePiece;
    var i := start;
    end, allDigits := n, true;
    ghost var head, acc := names[..n], [];
    while i < |src| && src[i] != SLASH
      invariant i <= |src| && n <= end && end + Lead(uri) <= i
      invariant names[..end] == head + acc && (allDigits <==> Decimal.AllDigits(acc))
      invariant Name(src, start, uri, []) == Name(src, i, uri, acc)
      decreases |src| - i
    {
      var next;
      piece, next := ParseChar(src, i, uri, names, end);
      if piece.Bad? {
        assert names[..n] == names[..end][..n];
        return;
      }
      LongPieceIsNoNumber(src, i, uri);
      Join(head, acc, piece.bytes);
      allDigits := allDigits && |piece.bytes| == 1 && IsDigit(piece.bytes[0]);
      i, end, acc := piece.pos, next, acc + piece.bytes;
    }
    assert names[..n] == names[..end][..n] && names[n..end] == names[..end][n..];
    piece := Piece(names[n..end], i);
  }

  lemma Join(head: seq<Byte>, acc: seq<Byte>, bytes: seq<Byte>)
    ensures head + acc + bytes == head + (acc + bytes)
    ensures Decimal.AllDigits(acc + bytes) <==> Decimal.AllDigits(acc) && Decimal.AllDigits(bytes)
  {
    if Decimal.AllDigits(acc + bytes) {
      assert forall i | 0 <= i < |acc| :: acc[i] == (acc + bytes)[i];
      assert forall i | 0 <= i < |bytes| :: bytes[i] == (acc + bytes)[|acc| + i];
    }
  }

  class GenericPointer {
    var tokens: seq<Token>
    var error: Option<PointerError>
    var errorOffset: nat

    constructor ()
      ensures tokens == [] && error == None
    {
      tokens, error, errorOffset := [], None, 0;
    }

    /** Parse: the buffer for the names is as long as the text, and never overrun. */
    method Parse(source: seq<Byte>)
      requires tokens == []
      modifies this
      ensures match Pointers.Parse(source)
              case Tokens(parsed) => tokens == parsed && error == None
              case Error(code, offset) => tokens == [] && error == Some(code) && errorOffset == offset
    {
      hide Name, IndexOf;
      var names := new Byte[|source|];
      var i, n := 0, 0;
      var uri := Peek(source, 0) == HASH;
      if uri {
        i := i + 1;
      }
      if i != |source| && source[i] != SLASH {
        error, errorOffset := Some(TokenMustBeginWithSolidus), i;
        return;
      }
      while i < |source|
        invariant i <= |source| && NameEnds(source, i) && n + Lead(uri) <= i + 1
        invariant Pointers.Parse(source) == TokensFrom(source, i, uri, tokens)
        decreases |source| - i
      {
        var piece, end, allDigits := ParseName(source, i + 1, uri, names, n);
        if piece.Bad? {
          tokens, error, errorOffset := [], Some(piece.code), piece.at;
          return;
        }
        var name := names[n..end];
        names[end] := 0;
        var index := ParseIndex(name, allDigits);
        tokens := tokens + [Token(name, index)];
        n, i := end + 1, piece.pos;
      }
      error := None;
    }

    function Names(): seq<seq<Byte>>
      reads this
    {
      seq(|tokens|, i requires 0 <= i < |tokens| reads this => tokens[i].name)
    }

    method Stringify(uri: bool) returns (ok: bool, out: seq<Byte>)
      ensures ok <==> Text(Names(), uri).Some?
      ensures ok ==> out == Text(Names(), uri).value
    {
      hide NameText;
      ghost var names := Names();
      var text := [];
      assert names[0..] == names;
      PrefixedNothing(TokensText(names, uri));
      for i := 0 to |tokens|
        invariant TokensText(names, uri) == Prefixed(text, TokensText(names[i..], uri))
      {
        assert names[i] == tokens[i].name && names[i..][1..] == names[i + 1..];
        var name;
        ok, name := StringifyName(tokens[i].name, uri);
        if !ok {
          return false, [];
        }
        PrefixedMore(text, names[i..], uri);
        text := text + ([SLASH] + name);
      }
      NoNames(names[|tokens|..], uri);
      return true, if uri then [HASH] + text else text;
    }
  }

  lemma NoNames(names: seq<seq<Byte>>, uri: bool)
    requires names == []
    ensures TokensText(names, uri) == Some([])
  {
  }

  /** Text in front of what may be missing. */
  function Prefixed(text: seq<Byte>, rest: Option<seq<Byte>>): Option<seq<Byte>> {
    match rest
    case None => None
    case Some(more) => Some(text + more)
  }

  lemma PrefixedNothing(rest: Option<seq<Byte>>)
    ensures Prefixed([], rest) == rest
  {
    if rest.Some? { assert [] + rest.value == rest.value; }
  }

  lemma {:induction false} PrefixedMore(text: seq<Byte>, names: seq<seq<Byte>>, uri: bool)
    requires names != [] && NameText(names[0], uri).Some?
    ensures Prefixed(text, TokensText(names, uri))
         == Prefixed(text + ([SLASH] + NameText(names[0], uri).value), TokensText(names[1..], uri))
  {
    hide NameText;
    var rest := TokensText(names[1..], uri);
    if rest.Some? {
      var name := [SLASH] + NameText(names[0], uri).value;
      assert text + (name + rest.value) == text + name + rest.value;
    }
  }

  /** The loop over the characters of a name. */
  method StringifyName(name: seq<Byte>, uri: bool) returns (ok: bool, out: seq<Byte>)
    ensures ok <==> NameText(name, uri).Some?
    ensures ok ==> out == NameText(name, uri).value
  {
    hide Percents, NameText, Utf8.Utf8Char, Utf8.Unit, Utf8.LeadLength;
    out := [];
    var j := 0;
    assert name[0..] == name;
    PrefixedNothing(NameText(name, uri));
    while j < |name|
      invariant 0 <= j <= |name| && NameText(name, uri) == Prefixed(out, NameText(name[j..], uri))
      decreases |name| - j
    {
      var c := name[j];
      ghost var rest, before := name[j..], out;
      if c == TILDE {
        out := out + [TILDE, ZERO];
      } else if c == SLASH {
        out := out + [TILDE, ONE];
      } else if uri && NeedPercentEncode(c) {
        var source := new Utf8.InputStream(name[j..]);
        Utf8.UnitInside(rest, 0);
        var valid, unit := Utf8.Validate(source);
        if !valid {
          NoCharacter(rest, uri);
          return false, [];
        }
        out := out + Percents(unit);
        j := j + source.pos - 1;
      } else {
        out := out + [c];
      }
      j := j + 1;
      NameTextMore(before, rest, uri);
      assert rest[Taken(rest, uri)..] == name[j..];
    }
    EmptyName(name[j..], uri);
    ok := true;
  }

  lemma EmptyName(name: seq<Byte>, uri: bool)
    requires name == []
    ensures NameText(name, uri) == Some([])
  {
  }

  lemma NoCharacter(name: seq<Byte>, uri: bool)
    requires name != [] && Written(name, uri).None?
    ensures NameText(name, uri).None?
  {
  }

  lemma {:induction false} NameTextMore(text: seq<Byte>, name: seq<Byte>, uri: bool)
    requires name != [] && Written(name, uri).Some? && Taken(name, uri) <= |name|
    ensures Prefixed(text, NameText(name, uri))
         == Prefixed(text + Written(name, uri).value, NameText(name[Taken(name, uri)..], uri))
  {
    hide Written, Taken;
    var rest := NameText(name[Taken(name, uri)..], uri);
    if rest.Some? {
      assert text + (Written(name, uri).value + rest.value) == text + Written(name, uri).value + rest.value;
    }
  }
}
