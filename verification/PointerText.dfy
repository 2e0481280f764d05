/**
 The texts of JSON Pointers, put together from their parts: section 3 of RFC 6901, and its section 6 with
 the percent encoding of section 2.1 of RFC 3986. Parse reads each as the names it stands for, and
 accepts nothing else.
 */
module PointerText {
  import opened Ascii
  import opened Events
  import opened Pointers
  import Strings
  import Utf8

  const UPPER: seq<Byte> :=
    [65, 66, 67, 68, 69, 70, 71, 72, 73, 74, 75, 76, 77, 78, 79, 80, 81, 82, 83, 84, 85, 86, 87, 88, 89, 90]
  const LOWER: seq<Byte> :=
    [97, 98, 99, 100, 101, 102, 103, 104, 105, 106, 107, 108, 109, 110, 111, 112, 113, 114, 115, 116, 117, 118, 119, 120, 121, 122]
  const DIGITS: seq<Byte> := [48, 49, 50, 51, 52, 53, 54, 55, 56, 57]
  const OTHERS: seq<Byte> := [45, 46, 95, 126]

  /** The unreserved characters of section 2.3 of RFC 3986: letters, digits, and - . _ ~ */
  predicate Unreserved(c: Byte) {
    c in UPPER || c in LOWER || c in DIGITS || c in OTHERS
  }

  /** A character of a name as it stands in a pointer: as it is; a tilde or a solidus as a tilde, itself
      perhaps in percent encoding, and a digit; or in percent encoding. `lower` says which hexadecimal
      digits are lower case. */
  datatype Mark =
    | Plain(c: Byte)
    | Escape(e: Byte, coded: Option<(bool, bool)>)
    | Coded(bytes: seq<Byte>, lower: seq<(bool, bool)>)

  predicate GoodMark(mark: Mark, uri: bool) {
    match mark
    case Plain(c) => c != TILDE && c != SLASH && (uri ==> Unreserved(c))
    case Escape(e, coded) => (e == TILDE || e == SLASH) && (coded.Some? ==> uri)
    case Coded(bytes, lower) => uri && Utf8.Utf8Char(bytes) && bytes != [TILDE] && |lower| == |bytes|
  }

  predicate GoodMarks(marks: seq<Mark>, uri: bool) {
    forall i | 0 <= i < |marks| :: GoodMark(marks[i], uri)
  }

  predicate GoodPath(path: seq<seq<Mark>>, uri: bool) {
    forall i | 0 <= i < |path| :: GoodMarks(path[i], uri)
  }

  function Triplet(c: Byte, lower: (bool, bool)): (s: seq<Byte>)
    ensures |s| == 3
  {
    [PERCENT, Strings.HexChar(c / 16, lower.0), Strings.HexChar(c % 16, lower.1)]
  }

  function Triplets(bytes: seq<Byte>, lower: seq<(bool, bool)>): (s: seq<Byte>)
    requires |lower| == |bytes|
    ensures |s| == 3 * |bytes|
  {
    if bytes == [] then [] else Triplet(bytes[0], lower[0]) + Triplets(bytes[1..], lower[1..])
  }

  function MarkText(mark: Mark, uri: bool): seq<Byte>
    requires GoodMark(mark, uri)
  {
    match mark
    case Plain(c) => [c]
    case Escape(e, coded) =>
      (if coded.None? then [TILDE] else Triplet(TILDE, coded.value)) + [if e == TILDE then 48 else 49]
    case Coded(bytes, lower) => Triplets(bytes, lower)
  }

  function MarkBytes(mark: Mark): seq<Byte> {
    match mark
    case Plain(c) => [c]
    case Escape(e, _) => [e]
    case Coded(bytes, _) => bytes
  }

  function MarksText(marks: seq<Mark>, uri: bool): seq<Byte>
    requires GoodMarks(marks, uri)
  {
    if marks == [] then [] else MarkText(marks[0], uri) + MarksText(marks[1..], uri)
  }

  function MarksBytes(marks: seq<Mark>): seq<Byte> {
    if marks == [] then [] else MarkBytes(marks[0]) + MarksBytes(marks[1..])
  }

  function PathText(path: seq<seq<Mark>>, uri: bool): seq<Byte>
    requires GoodPath(path, uri)
  {
    if path == [] then [] else [SLASH] + (MarksText(path[0], uri) + PathText(path[1..], uri))
  }

  function PathNames(path: seq<seq<Mark>>): (names: seq<seq<Byte>>)
    ensures |names| == |path|
  {
    seq(|path|, i requires 0 <= i < |path| => MarksBytes(path[i]))
  }

  /** The whole pointer; a hash begins the URI fragment form. */
  function WholeText(path: seq<seq<Mark>>, uri: bool): seq<Byte>
    requires GoodPath(path, uri)
  {
    (if uri then [HASH] else []) + PathText(path, uri)
  }

  //////////////////////////////////////////////////////////////////////////////
  // Every such text is read
  //////////////////////////////////////////////////////////////////////////////

  lemma UpperWhen(c: Byte)
    ensures c in UPPER <==> 65 <= c <= 90
  {
    if 65 <= c <= 90 { assert UPPER[c - 65] == c; }
  }

  lemma LowerWhen(c: Byte)
    ensures c in LOWER <==> 97 <= c <= 122
  {
    if 97 <= c <= 122 { assert LOWER[c - 97] == c; }
  }

  lemma DigitWhen(c: Byte)
    ensures c in DIGITS <==> IsDigit(c)
  {
    if IsDigit(c) { assert DIGITS[c - 48] == c; }
  }

  lemma OtherWhen(c: Byte)
    ensures c in OTHERS <==> c == MINUS || c == DOT || c == 95 || c == TILDE
  {
    assert OTHERS[0] == MINUS && OTHERS[1] == DOT && OTHERS[2] == 95 && OTHERS[3] == TILDE;
  }

  lemma NeedWhen(c: Byte)
    ensures NeedPercentEncode(c) <==> !Unreserved(c)
    ensures c == PERCENT ==> !Unreserved(c)
    ensures c == TILDE ==> !NeedPercentEncode(c)
  {
    UpperWhen(c);
    LowerWhen(c);
    DigitWhen(c);
    OtherWhen(c);
    hide UPPER, LOWER, DIGITS, OTHERS;
  }

  lemma TripletReads(src: seq<Byte>, p: nat, c: Byte, lower: (bool, bool))
    requires At(src, p, Triplet(c, lower))
    ensures PercentByte(src, p) == c && Peek(src, p) == PERCENT
  {
    hide Strings.HexChar, HexValue;
    AtPeek(src, p, Triplet(c, lower), 0);
    AtPeek(src, p, Triplet(c, lower), 1);
    AtPeek(src, p, Triplet(c, lower), 2);
    Strings.HexCharReads(c / 16, lower.0);
    Strings.HexCharReads(c % 16, lower.1);
  }

  lemma {:induction false} TripletsRead(src: seq<Byte>, p: nat, bytes: seq<Byte>, lower: seq<(bool, bool)>)
    requires |lower| == |bytes| && At(src, p, Triplets(bytes, lower))
    ensures PercentBytes(src, p, |bytes|) == Some(bytes)
    ensures bytes != [] ==> PercentByte(src, p) == bytes[0] && Peek(src, p) == PERCENT
    decreases |bytes|
  {
    hide At, Triplet, PercentByte;
    if bytes != [] {
      AtSplits(src, p, Triplet(bytes[0], lower[0]), Triplets(bytes[1..], lower[1..]));
      TripletReads(src, p, bytes[0], lower[0]);
      TripletsRead(src, p + 3, bytes[1..], lower[1..]);
      assert bytes == [bytes[0]] + bytes[1..];
    }
  }

  lemma CodedReads(src: seq<Byte>, p: nat, bytes: seq<Byte>, lower: seq<(bool, bool)>)
    requires Utf8.Utf8Char(bytes) && |lower| == |bytes| && At(src, p, Triplets(bytes, lower))
    ensures p < |src| && Peek(src, p) == PERCENT && PercentUnit(src, p) == Some(bytes)
  {
    hide At, Triplets, PercentByte, PercentBytes, Utf8.Utf8Char;
    Strings.LeadDecides(bytes);
    TripletsRead(src, p, bytes, lower);
    AtInside(src, p, Triplets(bytes, lower));
  }

  lemma TildeReads(src: seq<Byte>, p: nat, lower: (bool, bool))
    requires At(src, p, Triplet(TILDE, lower))
    ensures p < |src| && Peek(src, p) == PERCENT && PercentUnit(src, p) == Some([TILDE])
  {
    assert Triplets([TILDE], [lower]) == Triplet(TILDE, lower) + [];
    CodedReads(src, p, [TILDE], [lower]);
  }

  lemma CharPiece(src: seq<Byte>, i: nat, uri: bool)
    requires i < |src| && !(uri && src[i] == PERCENT)
    ensures NamePiece(src, i, uri)
         == if uri && !Unreserved(src[i]) then Bad(CharacterMustPercentEncode, i) else AfterChar(src, src[i], i + 1)
  {
    hide Unreserved, NeedPercentEncode, AfterChar;
    NeedWhen(src[i]);
  }

  lemma PlainReads(src: seq<Byte>, i: nat, c: Byte, uri: bool)
    requires GoodMark(Plain(c), uri) && At(src, i, [c])
    ensures i < |src| && !NameEnds(src, i) && NamePiece(src, i, uri) == Piece([c], i + 1)
  {
    hide Unreserved, NamePiece, NeedPercentEncode;
    AtPeek(src, i, [c], 0);
    NeedWhen(c);
    CharPiece(src, i, uri);
  }

  lemma EscapeReads(src: seq<Byte>, i: nat, e: Byte, uri: bool)
    requires (e == TILDE || e == SLASH) && At(src, i, [TILDE, if e == TILDE then ZERO else ONE])
    ensures i < |src| && !NameEnds(src, i) && NamePiece(src, i, uri) == Piece([e], i + 2)
  {
    hide Unreserved, NamePiece, NeedPercentEncode;
    AtPeek(src, i, [TILDE, if e == TILDE then ZERO else ONE], 0);
    AtPeek(src, i, [TILDE, if e == TILDE then ZERO else ONE], 1);
    NeedWhen(TILDE);
    CharPiece(src, i, uri);
  }

  lemma CodedEscapeReads(src: seq<Byte>, i: nat, e: Byte, lower: (bool, bool))
    requires (e == TILDE || e == SLASH) && At(src, i, Triplet(TILDE, lower) + [if e == TILDE then ZERO else ONE])
    ensures i < |src| && !NameEnds(src, i) && NamePiece(src, i, true) == Piece([e], i + 4)
  {
    hide At, Triplet, PercentUnit, NeedPercentEncode;
    var digit := [if e == TILDE then ZERO else ONE];
    AtSplits(src, i, Triplet(TILDE, lower), digit);
    TildeReads(src, i, lower);
    AtInside(src, i + 3, digit);
    AtPeek(src, i + 3, digit, 0);
  }

  lemma CodedPiece(src: seq<Byte>, i: nat, bytes: seq<Byte>)
    requires i < |src| && Peek(src, i) == PERCENT && PercentUnit(src, i) == Some(bytes) && bytes != [TILDE]
    ensures NamePiece(src, i, true) == Piece(bytes, i + 3 * |bytes|)
  {
    hide PercentUnit, NeedPercentEncode;
    if |bytes| == 1 { assert bytes == [bytes[0]]; }
  }

  /** Every mark is read as the bytes it stands for. */
  lemma MarkReads(src: seq<Byte>, i: nat, mark: Mark, uri: bool)
    requires GoodMark(mark, uri) && At(src, i, MarkText(mark, uri))
    ensures i < |src| && !NameEnds(src, i)
    ensures NamePiece(src, i, uri) == Piece(MarkBytes(mark), i + |MarkText(mark, uri)|)
  {
    hide At, NamePiece, PercentUnit, Unreserved, Utf8.Utf8Char, Triplet, Triplets;
    match mark
    case Plain(c) => PlainReads(src, i, c, uri);
    case Escape(e, coded) =>
      if coded.None? {
        assert MarkText(mark, uri) == [TILDE, if e == TILDE then ZERO else ONE];
        EscapeReads(src, i, e, uri);
      } else {
        CodedEscapeReads(src, i, e, coded.value);
      }
    case Coded(bytes, lower) =>
      CodedReads(src, i, bytes, lower);
      CodedPiece(src, i, bytes);
  }

  lemma {:induction false} MarksRead(src: seq<Byte>, i: nat, marks: seq<Mark>, uri: bool, acc: seq<Byte>)
    requires GoodMarks(marks, uri) && At(src, i, MarksText(marks, uri)) && NameEnds(src, i + |MarksText(marks, uri)|)
    ensures i <= |src| && Name(src, i, uri, acc) == Piece(acc + MarksBytes(marks), i + |MarksText(marks, uri)|)
    decreases |marks|
  {
    hide At, NamePiece, GoodMark, MarkText, MarkBytes;
    AtInside(src, i, MarksText(marks, uri));
    if marks == [] {
      assert acc + [] == acc;
    } else {
      var text, bytes := MarkText(marks[0], uri), MarkBytes(marks[0]);
      AtSplits(src, i, text, MarksText(marks[1..], uri));
      MarkReads(src, i, marks[0], uri);
      MarksRead(src, i + |text|, marks[1..], uri, acc + bytes);
      assert acc + bytes + MarksBytes(marks[1..]) == acc + MarksBytes(marks);
    }
  }

  lemma {:induction false} PathReads(src: seq<Byte>, i: nat, path: seq<seq<Mark>>, uri: bool, before: seq<Token>)
    requires GoodPath(path, uri) && At(src, i, PathText(path, uri)) && |src| == i + |PathText(path, uri)|
    ensures NameEnds(src, i) && TokensFrom(src, i, uri, before) == Tokens(before + TokensOf(PathNames(path)))
    decreases |path|
  {
    hide At, Name, GoodMarks, MarksText, MarksBytes, IndexOf;
    if path == [] {
      assert before + TokensOf(PathNames(path)) == before;
    } else {
      var text, rest, name := MarksText(path[0], uri), PathText(path[1..], uri), MarksBytes(path[0]);
      CharThen(src, i, SLASH, text + rest);
      AtSplits(src, i + 1, text, rest);
      var token := Token(name, IndexOf(name));
      PathReads(src, i + 1 + |text|, path[1..], uri, before + [token]);
      MarksRead(src, i + 1, path[0], uri, []);
      assert [] + name == name;
      assert TokensOf(PathNames(path)) == [token] + TokensOf(PathNames(path[1..]));
      assert before + [token] + TokensOf(PathNames(path[1..])) == before + TokensOf(PathNames(path));
    }
  }

  /** Parse gives the names that the text of a pointer stands for. */
  lemma WholeReads(path: seq<seq<Mark>>, uri: bool)
    requires GoodPath(path, uri)
    ensures Parse(WholeText(path, uri)) == Tokens(TokensOf(PathNames(path)))
  {
    hide TokensFrom, MarksText, GoodMarks;
    var src, text := WholeText(path, uri), PathText(path, uri);
    assert src[0..|src|] == src;
    assert text == [] || text[0] == SLASH;
    hide PathText;
    if uri { CharThen(src, 0, HASH, text); } else { assert src == text; }
    PathReads(src, if uri then 1 else 0, path, uri, []);
    assert [] + TokensOf(PathNames(path)) == TokensOf(PathNames(path));
  }

  //////////////////////////////////////////////////////////////////////////////
  // Nothing else is
  //////////////////////////////////////////////////////////////////////////////

  lemma TripletIs(src: seq<Byte>, p: nat) returns (lower: (bool, bool))
    requires PercentByte(src, p) >= 0
    ensures At(src, p, Triplet(PercentByte(src, p), lower))
  {
    hide Strings.HexChar, HexValue;
    var a := Strings.HexCharIs(src[p + 1]);
    var b := Strings.HexCharIs(src[p + 2]);
    lower := (a, b);
    var high, low := HexValue(src[p + 1]), HexValue(src[p + 2]);
    Nibbles(high, low);
    assert src[p..p + 3] == [src[p], src[p + 1], src[p + 2]];
  }

  lemma Nibbles(high: int, low: int)
    requires 0 <= high < 16 && 0 <= low < 16
    ensures (high * 16 + low) / 16 == high && (high * 16 + low) % 16 == low
  {
  }

  lemma {:induction false} TripletsAre(src: seq<Byte>, p: nat, n: nat) returns (lower: seq<(bool, bool)>)
    requires PercentBytes(src, p, n).Some? && p <= |src|
    ensures |lower| == n && At(src, p, Triplets(PercentBytes(src, p, n).value, lower))
    decreases n
  {
    hide PercentByte, Triplet;
    if n == 0 {
      lower := [];
    } else {
      var first := TripletIs(src, p);
      var rest := TripletsAre(src, p + 3, n - 1);
      lower := [first] + rest;
      var bytes := PercentBytes(src, p, n).value;
      assert bytes[1..] == PercentBytes(src, p + 3, n - 1).value && lower[1..] == rest;
      AtSplits(src, p, Triplet(bytes[0], first), Triplets(bytes[1..], rest));
    }
  }

  lemma UnitIs(src: seq<Byte>, p: nat) returns (lower: seq<(bool, bool)>)
    requires p <= |src| && PercentUnit(src, p).Some?
    ensures |lower| == |PercentUnit(src, p).value| && At(src, p, Triplets(PercentUnit(src, p).value, lower))
  {
    hide PercentByte, PercentBytes, Triplets, Utf8.Utf8Char, At;
    lower := TripletsAre(src, p, Utf8.LeadLength(PercentByte(src, p)));
  }

  lemma EscapeIs(src: seq<Byte>, i: nat, lower: seq<(bool, bool)>) returns (mark: Mark)
    requires i + 3 <= |src| && AfterChar(src, TILDE, i + 3).Piece? && |lower| == 1 && At(src, i, Triplets([TILDE], lower))
    ensures GoodMark(mark, true) && At(src, i, MarkText(mark, true))
    ensures AfterChar(src, TILDE, i + 3) == Piece(MarkBytes(mark), i + |MarkText(mark, true)|)
  {
    hide At, Triplet;
    assert Triplets([TILDE], lower) == Triplet(TILDE, lower[0]) + [];
    mark := Escape(if src[i + 3] == ZERO then TILDE else SLASH, Some(lower[0]));
    DigitAt(src, i + 3);
    AtSplits(src, i, Triplet(TILDE, lower[0]), [src[i + 3]]);
    assert Triplets([TILDE], lower) == Triplet(TILDE, lower[0]);
  }

  lemma CodedIs(src: seq<Byte>, i: nat) returns (mark: Mark)
    requires i < |src| && src[i] == PERCENT && NamePiece(src, i, true).Piece?
    ensures GoodMark(mark, true) && At(src, i, MarkText(mark, true))
    ensures NamePiece(src, i, true) == Piece(MarkBytes(mark), i + |MarkText(mark, true)|)
  {
    hide At, PercentUnit, NeedPercentEncode, Utf8.Utf8Char, Triplets, AfterChar;
    var bytes := PercentUnit(src, i).value;
    var lower := UnitIs(src, i);
    if bytes == [TILDE] {
      AtInside(src, i, Triplets(bytes, lower));
      mark := EscapeIs(src, i, lower);
    } else {
      CodedPiece(src, i, bytes);
      mark := Coded(bytes, lower);
    }
  }

  lemma DigitAt(src: seq<Byte>, p: nat)
    requires p < |src|
    ensures At(src, p, [src[p]])
  {
  }

  lemma PieceIsMark(src: seq<Byte>, i: nat, uri: bool) returns (mark: Mark)
    requires i < |src| && !NameEnds(src, i) && NamePiece(src, i, uri).Piece?
    ensures GoodMark(mark, uri) && At(src, i, MarkText(mark, uri))
    ensures NamePiece(src, i, uri) == Piece(MarkBytes(mark), i + |MarkText(mark, uri)|)
  {
    hide NamePiece, At, Utf8.Utf8Char, Triplets, Triplet, Unreserved;
    if uri && src[i] == PERCENT {
      mark := CodedIs(src, i);
    } else {
      CharPiece(src, i, uri);
      DigitAt(src, i);
      if src[i] == TILDE {
        mark := Escape(if src[i + 1] == ZERO then TILDE else SLASH, None);
        DigitAt(src, i + 1);
        AtSplits(src, i, [src[i]], [src[i + 1]]);
      } else {
        mark := Plain(src[i]);
      }
    }
  }

  lemma {:induction false} NameIsMarks(src: seq<Byte>, i: nat, uri: bool, acc: seq<Byte>) returns (marks: seq<Mark>)
    requires i <= |src| && Name(src, i, uri, acc).Piece?
    ensures GoodMarks(marks, uri) && At(src, i, MarksText(marks, uri))
    ensures Name(src, i, uri, acc) == Piece(acc + MarksBytes(marks), i + |MarksText(marks, uri)|)
    decreases |src| - i
  {
    hide NamePiece, GoodMark, MarkText, MarkBytes;
    if NameEnds(src, i) {
      marks := [];
      assert acc + [] == acc;
    } else {
      var piece := NamePiece(src, i, uri);
      var mark := PieceIsMark(src, i, uri);
      var rest := NameIsMarks(src, piece.pos, uri, acc + piece.bytes);
      marks := [mark] + rest;
      assert marks[1..] == rest && marks[0] == mark;
      AtSplits(src, i, MarkText(mark, uri), MarksText(rest, uri));
      assert acc + piece.bytes + MarksBytes(rest) == acc + MarksBytes(marks);
    }
  }

  lemma {:induction false} TokensArePath(src: seq<Byte>, i: nat, uri: bool, before: seq<Token>) returns (path: seq<seq<Mark>>)
    requires i <= |src| && NameEnds(src, i) && TokensFrom(src, i, uri, before).Tokens?
    ensures GoodPath(path, uri) && src[i..] == PathText(path, uri)
    decreases |src| - i
  {
    hide Name, IndexOf, GoodMarks, MarksText, MarksBytes;
    if i == |src| {
      path := [];
    } else {
      var name := Name(src, i + 1, uri, []);
      var marks := NameIsMarks(src, i + 1, uri, []);
      var rest := TokensArePath(src, name.pos, uri, before + [Token(name.bytes, IndexOf(name.bytes))]);
      path := [marks] + rest;
      assert path[1..] == rest && path[0] == marks;
      assert src[i..] == [SLASH] + (src[i + 1..name.pos] + src[name.pos..]);
    }
  }

  /** Parse accepts exactly the texts of pointers. */
  lemma AcceptsPointers(src: seq<Byte>)
    ensures Parse(src).Tokens? <==> exists path, uri :: GoodPath(path, uri) && src == WholeText(path, uri)
  {
    hide TokensFrom, GoodPath, PathText;
    if Parse(src).Tokens? {
      var uri := Peek(src, 0) == HASH;
      var i := if uri then 1 else 0;
      var path := TokensArePath(src, i, uri, []);
      assert src == src[..i] + src[i..] && src[..i] == if uri then [HASH] else [];
      assert src == WholeText(path, uri);
    }
    forall path, uri | GoodPath(path, uri) && src == WholeText(path, uri) ensures Parse(src).Tokens? {
      WholeReads(path, uri);
    }
  }

  //////////////////////////////////////////////////////////////////////////////
  // Pointers that break off
  //////////////////////////////////////////////////////////////////////////////

  /** What can be wrong at a position of a name, and the error and offset for it. */
  ghost predicate Broken(src: seq<Byte>, i: nat, uri: bool, code: PointerError, at: nat) {
    i < |src| &&
    match code
    case InvalidEscape =>
      && src[i] == TILDE && at == i + 1 && !At(src, i + 1, [ZERO]) && !At(src, i + 1, [ONE])
    case CharacterMustPercentEncode => uri && src[i] != PERCENT && src[i] != SLASH && !Unreserved(src[i]) && at == i
    case InvalidPercentEncoding =>
      && uri && src[i] == PERCENT && at == i
      && forall bytes, lower | |lower| == |bytes| && Utf8.Utf8Char(bytes) :: !At(src, i, Triplets(bytes, lower))
    case _ => false
  }

  lemma PieceFails(src: seq<Byte>, i: nat, uri: bool, code: PointerError, at: nat)
    requires Broken(src, i, uri, code, at)
    ensures !NameEnds(src, i) && NamePiece(src, i, uri) == Bad(code, at)
  {
    hide Unreserved, NeedPercentEncode, PercentUnit, Utf8.Utf8Char, Triplets;
    match code
    case InvalidEscape =>
      NeedWhen(TILDE);
      CharPiece(src, i, uri);
      if i + 1 < |src| { DigitAt(src, i + 1); }
    case CharacterMustPercentEncode => CharPiece(src, i, uri);
    case InvalidPercentEncoding =>
      if PercentUnit(src, i).Some? {
        var lower := UnitIs(src, i);
      }
  }

  lemma {:induction false} NameFails(src: seq<Byte>, i: nat, marks: seq<Mark>, uri: bool, acc: seq<Byte>, code: PointerError, at: nat)
    requires GoodMarks(marks, uri) && At(src, i, MarksText(marks, uri)) && Broken(src, i + |MarksText(marks, uri)|, uri, code, at)
    ensures i <= |src| && Name(src, i, uri, acc) == Bad(code, at)
    decreases |marks|
  {
    hide At, NamePiece, GoodMark, MarkText, MarkBytes, Broken;
    AtInside(src, i, MarksText(marks, uri));
    if marks == [] {
      PieceFails(src, i, uri, code, at);
    } else {
      AtSplits(src, i, MarkText(marks[0], uri), MarksText(marks[1..], uri));
      MarkReads(src, i, marks[0], uri);
      NameFails(src, i + |MarkText(marks[0], uri)|, marks[1..], uri, acc + MarkBytes(marks[0]), code, at);
    }
  }

  lemma {:induction false} PathFails(src: seq<Byte>, i: nat, path: seq<seq<Mark>>, marks: seq<Mark>, uri: bool, before: seq<Token>, code: PointerError, at: nat)
    requires GoodPath(path, uri) && GoodMarks(marks, uri) && At(src, i, PathText(path, uri) + ([SLASH] + MarksText(marks, uri)))
    requires Broken(src, i + |PathText(path, uri)| + 1 + |MarksText(marks, uri)|, uri, code, at)
    ensures i < |src| && src[i] == SLASH && TokensFrom(src, i, uri, before) == Error(code, at)
    decreases |path|
  {
    hide At, Name, GoodMarks, MarksText, MarksBytes, IndexOf, Broken;
    var last := [SLASH] + MarksText(marks, uri);
    AtSplits(src, i, PathText(path, uri), last);
    AtSplits(src, i + |PathText(path, uri)|, [SLASH], MarksText(marks, uri));
    if path == [] {
      CharThen(src, i, SLASH, MarksText(marks, uri));
      NameFails(src, i + 1, marks, uri, [], code, at);
    } else {
      var text, rest, name := MarksText(path[0], uri), PathText(path[1..], uri), MarksBytes(path[0]);
      CharThen(src, i, SLASH, text + rest);
      AtSplits(src, i + 1, text, rest);
      var j := i + 1 + |text|;
      AtSplits(src, j, rest, last);
      PathFails(src, j, path[1..], marks, uri, before + [Token(name, IndexOf(name))], code, at);
      MarksRead(src, i + 1, path[0], uri, []);
      assert [] + name == name;
    }
  }

  /** A pointer that breaks off is rejected with the error and the offset of the place. */
  lemma WholeFails(src: seq<Byte>, path: seq<seq<Mark>>, marks: seq<Mark>, uri: bool, code: PointerError, at: nat)
    requires GoodPath(path, uri) && GoodMarks(marks, uri)
    requires var begin := WholeText(path, uri) + ([SLASH] + MarksText(marks, uri));
             At(src, 0, begin) && Broken(src, |begin|, uri, code, at)
    ensures Parse(src) == Error(code, at)
  {
    hide At, TokensFrom, GoodPath, GoodMarks, PathText, MarksText, Broken;
    var text, last := PathText(path, uri), [SLASH] + MarksText(marks, uri);
    if uri {
      assert WholeText(path, uri) + last == [HASH] + (text + last);
      CharThen(src, 0, HASH, text + last);
      PathFails(src, 1, path, marks, uri, [], code, at);
    } else {
      assert WholeText(path, uri) + last == text + last;
      PathFails(src, 0, path, marks, uri, [], code, at);
    }
  }

  /** So is one that does not begin with a solidus, after the hash if there is one. */
  lemma NoSolidusFirst(src: seq<Byte>, uri: bool)
    requires uri == At(src, 0, [HASH])
    requires var i := if uri then 1 else 0; i < |src| && !At(src, i, [SLASH])
    ensures Parse(src) == Error(TokenMustBeginWithSolidus, if uri then 1 else 0)
  {
    hide TokensFrom;
    DigitAt(src, 0);
    DigitAt(src, if uri then 1 else 0);
  }
}
