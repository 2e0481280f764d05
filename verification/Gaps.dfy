/**
 White space and comments, put together from pieces: SkipWhitespaceAndComments passes over exactly these.
 */
module Gaps {
  import opened Ascii
  import opened Events
  import opened Scanner

  /** A white-space character of section 2 of RFC 8259, a block comment, or a line comment. */
  datatype Piece = Blank(c: Byte) | Block(body: seq<Byte>) | Line(body: seq<Byte>)

  const BLANKS: seq<Byte> := [32, 9, 10, 13]

  /** A block comment ends at its first star-slash. */
  predicate GoodBlock(body: seq<Byte>) {
    0 !in body && forall i | 0 <= i < |body| :: !(body[i] == STAR && (body + [STAR])[i + 1] == SLASH)
  }

  predicate GoodLine(body: seq<Byte>) {
    0 !in body && LF !in body
  }

  predicate GoodPiece(piece: Piece, comments: bool) {
    match piece
    case Blank(c) => c in BLANKS
    case Block(body) => comments && GoodBlock(body)
    case Line(body) => comments && GoodLine(body)
  }

  predicate GoodPieces(pieces: seq<Piece>, comments: bool) {
    forall i | 0 <= i < |pieces| :: GoodPiece(pieces[i], comments)
  }

  function PieceText(piece: Piece): seq<Byte> {
    match piece
    case Blank(c) => [c]
    case Block(body) => [SLASH, STAR] + (body + [STAR, SLASH])
    case Line(body) => [SLASH, SLASH] + (body + [LF])
  }

  function PiecesText(pieces: seq<Piece>): seq<Byte> {
    if pieces == [] then [] else PieceText(pieces[0]) + PiecesText(pieces[1..])
  }

  /** A character at which skipping stops. */
  predicate Stops(c: Byte, comments: bool) {
    c !in BLANKS && (comments ==> c != SLASH)
  }

  //////////////////////////////////////////////////////////////////////////////
  // All of them are passed over
  //////////////////////////////////////////////////////////////////////////////

  lemma BlankSkips(src: seq<Byte>, p: nat, comments: bool)
    requires p < |src| && src[p] in BLANKS
    ensures Skip(src, p, comments) == Skip(src, p + 1, comments)
  {
    assert IsSpace(src[p]) by { assert BLANKS[0] == 32 && BLANKS[1] == 9 && BLANKS[2] == 10 && BLANKS[3] == 13; }
    assert SkipSpaces(src, p) == SkipSpaces(src, p + 1);
  }

  lemma GoodTail(body: seq<Byte>)
    requires GoodBlock(body) && body != []
    ensures GoodBlock(body[1..])
  {
    var tail := body[1..];
    forall i | 0 <= i < |tail| ensures !(tail[i] == STAR && (tail + [STAR])[i + 1] == SLASH) {
      assert tail[i] == body[i + 1] && (tail + [STAR])[i + 1] == (body + [STAR])[i + 2];
    }
  }

  lemma {:induction false} BlockEnds(src: seq<Byte>, p: nat, body: seq<Byte>)
    requires GoodBlock(body) && At(src, p, body + [STAR, SLASH])
    ensures p <= |src| && BlockEnd(src, p) == Ok((), p + |body| + 2)
    decreases |body|
  {
    var text := body + [STAR, SLASH];
    AtInside(src, p, text);
    AtPeek(src, p, text, 0);
    AtPeek(src, p, text, 1);
    if body != [] {
      assert text[1] == (body + [STAR])[1];
      assert body[0] != 0 && body[0] in body;
      assert text == [body[0]] + (body[1..] + [STAR, SLASH]);
      AtSplits(src, p, [body[0]], body[1..] + [STAR, SLASH]);
      GoodTail(body);
      BlockEnds(src, p + 1, body[1..]);
    }
  }

  lemma {:induction false} LineEnds(src: seq<Byte>, p: nat, body: seq<Byte>)
    requires GoodLine(body) && At(src, p, body + [LF])
    ensures p <= |src| && LineEnd(src, p) == p + |body| + 1
    decreases |body|
  {
    var text := body + [LF];
    AtInside(src, p, text);
    AtPeek(src, p, text, 0);
    if body != [] {
      assert text == [body[0]] + (body[1..] + [LF]);
      AtSplits(src, p, [body[0]], body[1..] + [LF]);
      LineEnds(src, p + 1, body[1..]);
    }
  }

  lemma BlockSkips(src: seq<Byte>, p: nat, body: seq<Byte>)
    requires GoodBlock(body) && At(src, p, [SLASH, STAR] + (body + [STAR, SLASH]))
    ensures p + |body| + 4 <= |src| && Skip(src, p, true) == Skip(src, p + |body| + 4, true)
  {
    hide BlockEnd, LineEnd, GoodBlock, At;
    var text := [SLASH, STAR] + (body + [STAR, SLASH]);
    AtInside(src, p, text);
    AtPeek(src, p, text, 0);
    AtPeek(src, p, text, 1);
    AtSplits(src, p, [SLASH, STAR], body + [STAR, SLASH]);
    BlockEnds(src, p + 2, body);
    assert SkipSpaces(src, p) == p;
  }

  lemma LineSkips(src: seq<Byte>, p: nat, body: seq<Byte>)
    requires GoodLine(body) && At(src, p, [SLASH, SLASH] + (body + [LF]))
    ensures p + |body| + 3 <= |src| && Skip(src, p, true) == Skip(src, p + |body| + 3, true)
  {
    hide BlockEnd, LineEnd, GoodLine, At;
    var text := [SLASH, SLASH] + (body + [LF]);
    AtInside(src, p, text);
    AtPeek(src, p, text, 0);
    AtPeek(src, p, text, 1);
    AtSplits(src, p, [SLASH, SLASH], body + [LF]);
    LineEnds(src, p + 2, body);
    assert SkipSpaces(src, p) == p;
  }

  lemma PieceSkips(src: seq<Byte>, p: nat, piece: Piece, comments: bool)
    requires GoodPiece(piece, comments) && At(src, p, PieceText(piece))
    ensures p + |PieceText(piece)| <= |src|
    ensures Skip(src, p, comments) == Skip(src, p + |PieceText(piece)|, comments)
  {
    hide Skip, At, GoodBlock, GoodLine;
    AtInside(src, p, PieceText(piece));
    match piece
    case Blank(c) =>
      AtPeek(src, p, [c], 0);
      BlankSkips(src, p, comments);
    case Block(body) => BlockSkips(src, p, body);
    case Line(body) => LineSkips(src, p, body);
  }

  lemma {:induction false} PiecesSkip(src: seq<Byte>, p: nat, pieces: seq<Piece>, comments: bool)
    requires GoodPieces(pieces, comments) && At(src, p, PiecesText(pieces)) && Stops(Peek(src, p + |PiecesText(pieces)|), comments)
    ensures p <= |src| && Skip(src, p, comments) == Ok((), p + |PiecesText(pieces)|)
    decreases |pieces|
  {
    hide At, PieceText, GoodPiece;
    AtInside(src, p, PiecesText(pieces));
    if pieces == [] {
      StopsHere(src, p, comments);
    } else {
      AtSplits(src, p, PieceText(pieces[0]), PiecesText(pieces[1..]));
      PieceSkips(src, p, pieces[0], comments);
      PiecesSkip(src, p + |PieceText(pieces[0])|, pieces[1..], comments);
    }
  }

  lemma {:induction false} CutLineEnds(src: seq<Byte>, p: nat, body: seq<Byte>)
    requires GoodLine(body) && At(src, p, body) && Peek(src, p + |body|) == 0
    ensures p <= |src| && LineEnd(src, p) == p + |body|
    decreases |body|
  {
    if body != [] {
      AtPeek(src, p, body, 0);
      assert body == [body[0]] + body[1..];
      AtSplits(src, p, [body[0]], body[1..]);
      CutLineEnds(src, p + 1, body[1..]);
    }
  }

  /** A line comment at the end of the text need not end. */
  lemma {:induction false} CutSkips(src: seq<Byte>, p: nat, pieces: seq<Piece>, body: seq<Byte>)
    requires GoodPieces(pieces, true) && GoodLine(body) && At(src, p, PiecesText(pieces) + ([SLASH, SLASH] + body))
    requires Peek(src, p + |PiecesText(pieces)| + 2 + |body|) == 0
    ensures p <= |src| && Skip(src, p, true) == Ok((), p + |PiecesText(pieces)| + 2 + |body|)
    decreases |pieces|
  {
    hide At, PieceText, GoodPiece, GoodLine;
    var cut := [SLASH, SLASH] + body;
    AtInside(src, p, PiecesText(pieces) + cut);
    if pieces == [] {
      assert [] + cut == cut;
      CutSkipsAlone(src, p, body);
    } else {
      var text, rest := PieceText(pieces[0]), PiecesText(pieces[1..]);
      assert text + rest + cut == text + (rest + cut);
      AtSplits(src, p, text, rest + cut);
      PieceSkips(src, p, pieces[0], true);
      CutSkips(src, p + |text|, pieces[1..], body);
    }
  }

  lemma CutSkipsAlone(src: seq<Byte>, p: nat, body: seq<Byte>)
    requires GoodLine(body) && At(src, p, [SLASH, SLASH] + body) && Peek(src, p + 2 + |body|) == 0
    ensures p <= |src| && Skip(src, p, true) == Ok((), p + 2 + |body|)
  {
    hide LineEnd, GoodLine, At;
    AtInside(src, p, [SLASH, SLASH] + body);
    AtPeek(src, p, [SLASH, SLASH] + body, 0);
    AtPeek(src, p, [SLASH, SLASH] + body, 1);
    AtSplits(src, p, [SLASH, SLASH], body);
    CutLineEnds(src, p + 2, body);
    assert SkipSpaces(src, p) == p;
    NulStops(src, p + 2 + |body|, true);
  }

  lemma StopsHere(src: seq<Byte>, p: nat, comments: bool)
    requires p <= |src| && Stops(Peek(src, p), comments)
    ensures Skip(src, p, comments) == Ok((), p)
  {
    assert BLANKS[0] == 32 && BLANKS[1] == 9 && BLANKS[2] == 10 && BLANKS[3] == 13;
  }

  //////////////////////////////////////////////////////////////////////////////
  // And nothing else
  //////////////////////////////////////////////////////////////////////////////

  /** The text from `p` to `q` is made of pieces, up to a line comment that the end of the text cuts off. */
  ghost predicate IsGap(src: seq<Byte>, p: nat, q: nat, comments: bool)
    requires p <= q <= |src|
  {
    || (exists pieces :: GoodPieces(pieces, comments) && src[p..q] == PiecesText(pieces))
    || (Peek(src, q) == 0 && exists pieces, body ::
          GoodPieces(pieces, comments) && comments && GoodLine(body) && src[p..q] == PiecesText(pieces) + ([SLASH, SLASH] + body))
  }

  /** Another piece in front of a gap. */
  lemma MoreGap(src: seq<Byte>, p: nat, piece: Piece, m: nat, q: nat, comments: bool)
    requires p <= m <= q <= |src| && GoodPiece(piece, comments) && src[p..m] == PieceText(piece) && IsGap(src, m, q, comments)
    ensures IsGap(src, p, q, comments)
  {
    hide GoodPiece, PieceText, GoodLine;
    assert src[p..q] == src[p..m] + src[m..q];
    if pieces :| GoodPieces(pieces, comments) && src[m..q] == PiecesText(pieces) {
      Longer(piece, pieces, comments);
      assert src[p..q] == PiecesText([piece] + pieces);
    } else {
      var pieces, body :| GoodPieces(pieces, comments) && comments && GoodLine(body)
                          && src[m..q] == PiecesText(pieces) + ([SLASH, SLASH] + body);
      Longer(piece, pieces, comments);
      assert src[p..q] == PiecesText([piece] + pieces) + ([SLASH, SLASH] + body);
    }
  }

  lemma Longer(piece: Piece, pieces: seq<Piece>, comments: bool)
    requires GoodPiece(piece, comments) && GoodPieces(pieces, comments)
    ensures GoodPieces([piece] + pieces, comments) && PiecesText([piece] + pieces) == PieceText(piece) + PiecesText(pieces)
  {
    hide GoodPiece, PieceText;
    assert ([piece] + pieces)[1..] == pieces;
  }

  lemma NoGap(src: seq<Byte>, p: nat, comments: bool)
    requires p <= |src|
    ensures IsGap(src, p, p, comments)
  {
    assert src[p..p] == PiecesText([]) && GoodPieces([], comments);
  }

  lemma {:induction false} SpacesAreGap(src: seq<Byte>, p: nat, q: nat, comments: bool)
    requires p <= |src| && SkipSpaces(src, p) <= q <= |src| && IsGap(src, SkipSpaces(src, p), q, comments)
    ensures IsGap(src, p, q, comments)
    decreases |src| - p
  {
    hide IsGap;
    if IsSpace(Peek(src, p)) {
      SpacesAreGap(src, p + 1, q, comments);
      assert BLANKS[0] == 32 && BLANKS[1] == 9 && BLANKS[2] == 10 && BLANKS[3] == 13;
      assert src[p..p + 1] == [src[p]];
      MoreGap(src, p, Blank(src[p]), p + 1, q, comments);
    }
  }

  lemma {:induction false} BlockIs(src: seq<Byte>, p: nat) returns (body: seq<Byte>)
    requires p <= |src| && BlockEnd(src, p).Ok?
    ensures GoodBlock(body) && src[p..BlockEnd(src, p).pos] == body + [STAR, SLASH]
    decreases |src| - p
  {
    if Peek(src, p) == STAR && Peek(src, p + 1) == SLASH {
      body := [];
      assert src[p..p + 2] == [STAR, SLASH];
    } else {
      var rest := BlockIs(src, p + 1);
      body := [src[p]] + rest;
      var q := BlockEnd(src, p + 1).pos;
      assert src[p..q] == [src[p]] + src[p + 1..q];
      assert src[p + 1..q][0] == src[p + 1];
      assert (rest + [STAR])[0] == (rest + [STAR, SLASH])[0];
      forall i | 0 <= i < |body| ensures !(body[i] == STAR && (body + [STAR])[i + 1] == SLASH) {
        if i == 0 {
          assert (body + [STAR])[1] == (rest + [STAR])[0] == src[p + 1];
        } else {
          assert body[i] == rest[i - 1] && (body + [STAR])[i + 1] == (rest + [STAR])[i];
        }
      }
    }
  }

  lemma {:induction false} LineIs(src: seq<Byte>, p: nat) returns (body: seq<Byte>)
    requires p <= |src|
    ensures GoodLine(body)
    ensures var q := LineEnd(src, p); src[p..q] == body + [LF] || (src[p..q] == body && Peek(src, q) == 0)
    decreases |src| - p
  {
    if Peek(src, p) == 0 {
      body := [];
    } else if Peek(src, p) == LF {
      body := [];
      assert src[p..p + 1] == [LF];
    } else {
      var rest := LineIs(src, p + 1);
      body := [src[p]] + rest;
      var q := LineEnd(src, p);
      assert src[p..q] == [src[p]] + src[p + 1..q];
    }
  }

  lemma BlockGap(src: seq<Byte>, s: nat, q: nat)
    requires s + 2 <= |src| && src[s] == SLASH && src[s + 1] == STAR && BlockEnd(src, s + 2).Ok?
    requires BlockEnd(src, s + 2).pos <= q <= |src| && IsGap(src, BlockEnd(src, s + 2).pos, q, true)
    ensures IsGap(src, s, q, true)
  {
    hide IsGap, BlockEnd, GoodBlock;
    var m := BlockEnd(src, s + 2).pos;
    var body := BlockIs(src, s + 2);
    assert src[s..m] == [SLASH, STAR] + src[s + 2..m];
    MoreGap(src, s, Block(body), m, q, true);
  }

  lemma LineGap(src: seq<Byte>, s: nat, q: nat)
    requires s + 2 <= |src| && src[s] == SLASH && src[s + 1] == SLASH
    requires LineEnd(src, s + 2) <= q <= |src| && IsGap(src, LineEnd(src, s + 2), q, true)
    requires Peek(src, LineEnd(src, s + 2)) == 0 ==> q == LineEnd(src, s + 2)
    ensures IsGap(src, s, q, true)
  {
    hide LineEnd, GoodLine;
    var m := LineEnd(src, s + 2);
    var body := LineIs(src, s + 2);
    assert src[s..m] == [SLASH, SLASH] + src[s + 2..m];
    if src[s + 2..m] == body + [LF] {
      hide IsGap;
      MoreGap(src, s, Line(body), m, q, true);
    } else {
      assert GoodPieces([], true) && src[s..q] == PiecesText([]) + ([SLASH, SLASH] + body);
    }
  }

  lemma StopsWhen(c: Byte, comments: bool)
    ensures Stops(c, comments) <==> !IsSpace(c) && !(comments && c == SLASH)
  {
    assert BLANKS[0] == 32 && BLANKS[1] == 9 && BLANKS[2] == 10 && BLANKS[3] == 13;
  }

  /** What is passed over is a gap, and it goes on until something else comes. */
  lemma {:induction false} SkipIsGap(src: seq<Byte>, p: nat, comments: bool)
    requires p <= |src| && Skip(src, p, comments).Ok?
    ensures var q := Skip(src, p, comments).pos; IsGap(src, p, q, comments) && Stops(Peek(src, q), comments)
    decreases |src| - p
  {
    hide IsGap, BlockEnd, LineEnd, SkipSpaces, Stops, IsSpace;
    var s := SkipSpaces(src, p);
    var q := Skip(src, p, comments).pos;
    StopsWhen(Peek(src, s), comments);
    NoGap(src, s, comments);
    if comments && Peek(src, s) == SLASH {
      if Peek(src, s + 1) == STAR {
        SkipIsGap(src, BlockEnd(src, s + 2).pos, comments);
        BlockGap(src, s, q);
      } else {
        var m := LineEnd(src, s + 2);
        SkipIsGap(src, m, comments);
        if Peek(src, m) == 0 { NulStops(src, m, comments); }
        LineGap(src, s, q);
      }
    }
    SpacesAreGap(src, p, q, comments);
  }

  lemma NulStops(src: seq<Byte>, p: nat, comments: bool)
    requires p <= |src| && Peek(src, p) == 0
    ensures Skip(src, p, comments) == Ok((), p)
  {
  }

  /** A block comment without an end, and a slash that begins no comment, are errors. */
  lemma {:induction false} UnendedBlock(src: seq<Byte>, p: nat)
    requires p <= |src| && forall i | p <= i < |src| - 1 :: !(src[i] == STAR && src[i + 1] == SLASH)
    ensures BlockEnd(src, p).Err? && BlockEnd(src, p).code == UnspecificSyntaxError
    decreases |src| - p
  {
    if Peek(src, p) != 0 { UnendedBlock(src, p + 1); }
  }
}
