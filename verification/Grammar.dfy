/**
 The texts Parse accepts, put together from their parts: section 2 of RFC 8259, with the comments and
 the trailing commas the flags allow. Each is read as the events of its parts, and nothing else is accepted.
 */
module Grammar {
  import opened Ascii
  import opened Events
  import opened Scanner
  import opened Descent
  import opened Gaps
  import opened Literals
  import Strings
  import Machine
  import RoundTrip

  //////////////////////////////////////////////////////////////////////////////
  // Syntax trees and their texts
  //////////////////////////////////////////////////////////////////////////////

  type Gap = seq<Piece>

  /** A value as it stands in a text; `empty` is what stands between brackets with no items. */
  datatype Node =
    | Nil
    | Truth(b: bool)
    | Numeric(n: Numeral)
    | Text(chars: seq<Strings.Char>)
    | List(braces: bool, empty: Gap, items: seq<Item>, comma: Option<Gap>)

  /** An element of an array, or a member of an object with its name. */
  datatype Item = Item(before: Gap, tag: Option<Tag>, value: Node, after: Gap)

  /** The name of a member and its colon. */
  datatype Tag = Tag(chars: seq<Strings.Char>, before: Gap, after: Gap)

  predicate GoodTag(tag: Option<Tag>, cfg: Config) {
    tag.Some? ==>
      && Strings.GoodChars(tag.value.chars, cfg.validateEncoding)
      && GoodPieces(tag.value.before, cfg.comments) && GoodPieces(tag.value.after, cfg.comments)
  }

  /** What the flags allow. */
  predicate Good(node: Node, cfg: Config) {
    match node
    case Numeric(n) => GoodNumeral(n) && (NumeralEvent(n).Double? ==> !cfg.tooBig(NumeralText(n)))
    case Text(chars) => Strings.GoodChars(chars, cfg.validateEncoding)
    case List(braces, empty, items, comma) =>
      && GoodPieces(empty, cfg.comments) && GoodComma(comma, cfg) && (comma.Some? ==> items != [])
      && forall i | 0 <= i < |items| :: GoodItem(items[i], braces, cfg)
    case _ => true
  }

  predicate GoodComma(comma: Option<Gap>, cfg: Config) {
    comma.Some? ==> cfg.trailingCommas && GoodPieces(comma.value, cfg.comments)
  }

  predicate GoodItem(item: Item, braces: bool, cfg: Config) {
    && GoodPieces(item.before, cfg.comments) && GoodPieces(item.after, cfg.comments)
    && (item.tag.Some? <==> braces) && GoodTag(item.tag, cfg) && Good(item.value, cfg)
  }

  predicate GoodItems(items: seq<Item>, braces: bool, cfg: Config) {
    forall i | 0 <= i < |items| :: GoodItem(items[i], braces, cfg)
  }

  function Open(braces: bool): Byte {
    if braces then LBRACE else LBRACKET
  }

  function Close(braces: bool): Byte {
    if braces then RBRACE else RBRACKET
  }

  function QuotedText(chars: seq<Strings.Char>, validate: bool): seq<Byte>
    requires Strings.GoodChars(chars, validate)
  {
    [QUOTE] + (Strings.CharsText(chars, validate) + [QUOTE])
  }

  function TagText(tag: Option<Tag>, cfg: Config): seq<Byte>
    requires GoodTag(tag, cfg)
  {
    match tag
    case None => []
    case Some(Tag(chars, before, after)) =>
      QuotedText(chars, cfg.validateEncoding) + (PiecesText(before) + ([COLON] + PiecesText(after)))
  }

  /** The end of a list: an optional comma, and the bracket. */
  function EndText(braces: bool, comma: Option<Gap>): seq<Byte> {
    match comma
    case None => [Close(braces)]
    case Some(gap) => [COMMA] + (PiecesText(gap) + [Close(braces)])
  }

  function NodeText(node: Node, cfg: Config): seq<Byte>
    requires Good(node, cfg)
    decreases node
  {
    match node
    case Nil => NULL
    case Truth(b) => if b then TRUE else FALSE
    case Numeric(n) => NumeralText(n)
    case Text(chars) => QuotedText(chars, cfg.validateEncoding)
    case List(braces, empty, items, comma) =>
      [Open(braces)] + (if items == [] then PiecesText(empty) + [Close(braces)] else ItemsText(items, braces, comma, cfg))
  }

  /** The items of a list with the commas between them, and its end. */
  function ItemsText(items: seq<Item>, braces: bool, comma: Option<Gap>, cfg: Config): seq<Byte>
    requires items != [] && GoodItems(items, braces, cfg)
    decreases items
  {
    var item := items[0];
    PiecesText(item.before) + (TagText(item.tag, cfg) + (NodeText(item.value, cfg) + (PiecesText(item.after) +
      (if |items| == 1 then EndText(braces, comma) else [COMMA] + ItemsText(items[1..], braces, comma, cfg)))))
  }

  //////////////////////////////////////////////////////////////////////////////
  // The events of a syntax tree
  //////////////////////////////////////////////////////////////////////////////

  function BeginOf(braces: bool): Event {
    if braces then StartObject else StartArray
  }

  /** The count is in 32 bits. */
  function EndOf(braces: bool, count: nat): Event {
    if braces then EndObject(count % 0x1_0000_0000) else EndArray(count % 0x1_0000_0000)
  }

  function TagEvents(tag: Option<Tag>, cfg: Config): seq<Event>
    requires GoodTag(tag, cfg)
  {
    if tag.None? then [] else [Key(Strings.CharsBytes(tag.value.chars, cfg.validateEncoding))]
  }

  function NodeEvents(node: Node, cfg: Config): seq<Event>
    requires Good(node, cfg)
    decreases node
  {
    match node
    case Nil => [Null]
    case Truth(b) => [Bool(b)]
    case Numeric(n) => [NumeralEvent(n)]
    case Text(chars) => [String(Strings.CharsBytes(chars, cfg.validateEncoding))]
    case List(braces, _, items, _) => [BeginOf(braces)] + (ItemsEvents(items, braces, cfg) + [EndOf(braces, |items|)])
  }

  function ItemsEvents(items: seq<Item>, braces: bool, cfg: Config): seq<Event>
    requires GoodItems(items, braces, cfg)
    decreases items
  {
    if items == [] then []
    else (TagEvents(items[0].tag, cfg) + NodeEvents(items[0].value, cfg)) + ItemsEvents(items[1..], braces, cfg)
  }

  //////////////////////////////////////////////////////////////////////////////
  // The loops of ParseObject and ParseArray
  //////////////////////////////////////////////////////////////////////////////

  /** The loop of either at its head. */
  function Loop(braces: bool, src: seq<Byte>, p: nat, cfg: Config, count: Size, sent: seq<Event>): Outcome
    requires p <= |src|
  {
    if braces then Members(src, p, cfg, count, sent) else Elements(src, p, cfg, count, sent)
  }

  /** ... after an item and what is skipped behind it. */
  function AfterItem(braces: bool, src: seq<Byte>, p: nat, cfg: Config, count: Size, sent: seq<Event>): Outcome
    requires p <= |src|
  {
    if Peek(src, p) == COMMA then
      var next := Skip(src, p + 1, cfg.comments);
      if next.Err? then Fail(sent, next.code, next.offset)
      else if cfg.trailingCommas && Peek(src, next.pos) == Close(braces) then
        Done(sent + [if braces then EndObject(count) else EndArray(count)], next.pos + 1)
      else Loop(braces, src, next.pos, cfg, count, sent)
    else if Peek(src, p) == Close(braces) then Done(sent + [if braces then EndObject(count) else EndArray(count)], p + 1)
    else Fail(sent, if braces then ObjectMissCommaOrCurlyBracket else ArrayMissCommaOrSquareBracket, p)
  }

  /** The name of a member and its colon, read at `p`. */
  predicate Tagged(src: seq<Byte>, p: nat, cfg: Config, name: seq<Byte>, q: nat) {
    p < |src| && Peek(src, p) == QUOTE &&
    var s := StringAt(src, p, cfg);
    s.Ok? && s.value == name &&
    var colon := Skip(src, s.pos, cfg.comments);
    colon.Ok? && Peek(src, colon.pos) == COLON && Skip(src, colon.pos + 1, cfg.comments) == Ok((), q)
  }

  lemma AfterCommas(src: seq<Byte>, p: nat, cfg: Config, count: Size, sent: seq<Event>)
    requires p < |src| && Peek(src, p) == COMMA
    ensures AfterComma(src, p, cfg, count, sent) == AfterItem(true, src, p, cfg, count, sent)
    ensures AfterElementComma(src, p, cfg, count, sent) == AfterItem(false, src, p, cfg, count, sent)
  {
    hide Skip, Members, Elements;
  }

  lemma AfterValues(src: seq<Byte>, start: nat, v: Outcome, cfg: Config, count: Size, s: nat)
    requires start <= |src| && Advances(src, start, v) && v.Done? && Skip(src, v.pos, cfg.comments) == Ok((), s)
    ensures s <= |src| && AfterMember(src, start, v, cfg, count) == AfterItem(true, src, s, cfg, count, v.events)
    ensures AfterElement(src, start, v, cfg, count) == AfterItem(false, src, s, cfg, count, v.events)
  {
    hide Skip, AfterComma, AfterElementComma, Members, Elements;
    if Peek(src, s) == COMMA { AfterCommas(src, s, cfg, count, v.events); }
  }

  lemma MemberStep(src: seq<Byte>, p: nat, cfg: Config, count: Size, sent: seq<Event>, name: seq<Byte>, a: nat, v: Outcome, s: nat)
    requires Tagged(src, p, cfg, name, a) && a <= |src|
    requires v == ParseValue(src, a, cfg, sent + [Key(name)]) && v.Done? && Skip(src, v.pos, cfg.comments) == Ok((), s)
    ensures s <= |src| && Members(src, p, cfg, count, sent) == AfterItem(true, src, s, cfg, Inc(count), v.events)
  {
    hide Skip, StringAt, ParseValue, AfterMember, AfterItem;
    AfterValues(src, p, v, cfg, Inc(count), s);
    assert AfterKey(src, p, StringAt(src, p, cfg).pos, cfg, count, sent + [Key(name)]) == AfterMember(src, p, v, cfg, Inc(count));
  }

  lemma ElementStep(src: seq<Byte>, p: nat, cfg: Config, count: Size, sent: seq<Event>, v: Outcome, s: nat)
    requires p <= |src| && v == ParseValue(src, p, cfg, sent) && v.Done? && Skip(src, v.pos, cfg.comments) == Ok((), s)
    ensures s <= |src| && Elements(src, p, cfg, count, sent) == AfterItem(false, src, s, cfg, Inc(count), v.events)
  {
    hide Skip, ParseValue, AfterElement, AfterItem;
    AfterValues(src, p, v, cfg, Inc(count), s);
  }

  lemma ListBegins(braces: bool, src: seq<Byte>, p: nat, cfg: Config, sent: seq<Event>)
    requires p < |src| && Peek(src, p) == Open(braces)
    ensures ParseValue(src, p, cfg, sent) ==
      (var sent := sent + [BeginOf(braces)];
       var at := Skip(src, p + 1, cfg.comments);
       if at.Err? then Fail(sent, at.code, at.offset)
       else if Peek(src, at.pos) == Close(braces) then Done(sent + [EndOf(braces, 0)], at.pos + 1)
       else Loop(braces, src, at.pos, cfg, 0, sent))
  {
    hide Skip, Members, Elements;
  }

  lemma ScalarValue(src: seq<Byte>, p: nat, cfg: Config, sent: seq<Event>)
    requires p <= |src| && Peek(src, p) != LBRACE && Peek(src, p) != LBRACKET
    ensures var v := Scalar(src, p, cfg);
            ParseValue(src, p, cfg, sent) == if v.Ok? then Done(sent + [v.value], v.pos) else Fail(sent, v.code, v.offset)
  {
    hide Scalar;
  }

  //////////////////////////////////////////////////////////////////////////////
  // Every such text is read
  //////////////////////////////////////////////////////////////////////////////

  /** A character a value may begin with: no gap goes on with it, and it ends nothing. */
  predicate Begins(c: Byte) {
    Stops(c, true) && c != 0 && c != RBRACE && c != RBRACKET
  }

  lemma StopsBoth(c: Byte, comments: bool)
    requires Stops(c, true)
    ensures Stops(c, comments)
  {
  }

  lemma BeginsWhen(c: Byte)
    ensures IsDigit(c) || c == MINUS || c == QUOTE || c == LBRACE || c == LBRACKET || c == 110 || c == 116 || c == 102 ==> Begins(c)
    ensures c == COMMA || c == COLON || c == RBRACE || c == RBRACKET ==> Stops(c, true)
  {
    StopsWhen(c, true);
    hide Stops;
  }

  lemma NumeralStarts(n: Numeral)
    requires GoodNumeral(n)
    ensures |NumeralText(n)| >= 1 && (IsDigit(NumeralText(n)[0]) || NumeralText(n)[0] == MINUS)
  {
  }

  lemma NodeStarts(src: seq<Byte>, p: nat, node: Node, cfg: Config)
    requires Good(node, cfg) && At(src, p, NodeText(node, cfg))
    ensures p < |src| && Begins(Peek(src, p))
  {
    hide At, ItemsText, PiecesText, Strings.CharsText, NumeralText, Begins;
    var text := NodeText(node, cfg);
    assert |text| >= 1 && (IsDigit(text[0]) || text[0] in [MINUS, QUOTE, LBRACE, LBRACKET, 110, 116, 102]) by {
      if node.Numeric? { NumeralStarts(node.n); }
    }
    hide NodeText;
    AtInside(src, p, text);
    AtPeek(src, p, text, 0);
    BeginsWhen(text[0]);
  }

  lemma QuotedReads(src: seq<Byte>, p: nat, chars: seq<Strings.Char>, cfg: Config)
    requires Strings.GoodChars(chars, cfg.validateEncoding) && At(src, p, QuotedText(chars, cfg.validateEncoding))
    ensures p < |src| && Peek(src, p) == QUOTE
    ensures StringAt(src, p, cfg)
         == Ok(Strings.CharsBytes(chars, cfg.validateEncoding), p + |QuotedText(chars, cfg.validateEncoding)|)
  {
    hide At, StringRest, Strings.CharsText, Strings.CharsBytes, Strings.GoodChars;
    CharThen(src, p, QUOTE, Strings.CharsText(chars, cfg.validateEncoding) + [QUOTE]);
    Strings.CharsRead(src, p + 1, chars, cfg.validateEncoding, []);
    assert [] + Strings.CharsBytes(chars, cfg.validateEncoding) == Strings.CharsBytes(chars, cfg.validateEncoding);
  }

  /** A gap and the character that ends it. */
  lemma GapReads(src: seq<Byte>, p: nat, gap: Gap, c: Byte, rest: seq<Byte>, cfg: Config)
    requires GoodPieces(gap, cfg.comments) && At(src, p, PiecesText(gap) + ([c] + rest)) && Stops(c, true)
    ensures var q := p + |PiecesText(gap)|;
            q < |src| && Peek(src, q) == c && At(src, q + 1, rest) && Skip(src, p, cfg.comments) == Ok((), q)
  {
    hide At, PiecesText, Skip, Stops, GoodPieces;
    AtSplits(src, p, PiecesText(gap), [c] + rest);
    CharThen(src, p + |PiecesText(gap)|, c, rest);
    StopsBoth(c, cfg.comments);
    PiecesSkip(src, p, gap, cfg.comments);
  }

  /** Neither a gap nor a comma or bracket goes on with a number. */
  lemma GapEnds(src: seq<Byte>, p: nat, gap: Gap, c: Byte, rest: seq<Byte>, comments: bool)
    requires GoodPieces(gap, comments) && At(src, p, PiecesText(gap) + ([c] + rest)) && RoundTrip.Ends(c)
    ensures RoundTrip.Ends(Peek(src, p))
  {
    hide At;
    var text := PiecesText(gap) + ([c] + rest);
    AtPeek(src, p, text, 0);
    if gap != [] {
      PieceEnds(gap[0], comments);
      assert text[0] == PieceText(gap[0])[0];
    }
  }

  lemma PieceEnds(piece: Piece, comments: bool)
    requires GoodPiece(piece, comments)
    ensures |PieceText(piece)| >= 1 && RoundTrip.Ends(PieceText(piece)[0])
  {
    assert BLANKS[0] == 32 && BLANKS[1] == 9 && BLANKS[2] == 10 && BLANKS[3] == 13;
  }

  lemma TagReads(src: seq<Byte>, p: nat, tag: Tag, cfg: Config)
    requires GoodTag(Some(tag), cfg) && At(src, p, TagText(Some(tag), cfg)) && Begins(Peek(src, p + |TagText(Some(tag), cfg)|))
    ensures Tagged(src, p, cfg, Strings.CharsBytes(tag.chars, cfg.validateEncoding), p + |TagText(Some(tag), cfg)|)
  {
    hide At, Skip, StringAt, Strings.CharsText, Strings.CharsBytes, PiecesText, QuotedText, Stops, GoodPieces, Strings.GoodChars;
    var name := QuotedText(tag.chars, cfg.validateEncoding);
    AtSplits(src, p, name, PiecesText(tag.before) + ([COLON] + PiecesText(tag.after)));
    QuotedReads(src, p, tag.chars, cfg);
    BeginsWhen(COLON);
    GapReads(src, p + |name|, tag.before, COLON, PiecesText(tag.after), cfg);
    var a := p + |name| + |PiecesText(tag.before)| + 1;
    AtInside(src, a, PiecesText(tag.after));
    StopsBoth(Peek(src, p + |TagText(Some(tag), cfg)|), cfg.comments);
    PiecesSkip(src, a, tag.after, cfg.comments);
  }

  /** A tree reads: its text is parsed as its events. */
  lemma {:induction false} NodeReads(src: seq<Byte>, p: nat, node: Node, cfg: Config, sent: seq<Event>)
    requires Good(node, cfg) && At(src, p, NodeText(node, cfg))
    requires node.Numeric? ==> RoundTrip.Ends(Peek(src, p + |NodeText(node, cfg)|))
    ensures p < |src|
    ensures ParseValue(src, p, cfg, sent) == Done(sent + NodeEvents(node, cfg), p + |NodeText(node, cfg)|)
    decreases node, 0
  {
    hide At, ParseValue, Scalar, Begins;
    NodeStarts(src, p, node, cfg);
    if node.List? {
      ListReads(src, p, node, cfg, sent);
    } else {
      ScalarReads(src, p, node, cfg);
      ScalarValue(src, p, cfg, sent);
    }
  }

  lemma ScalarReads(src: seq<Byte>, p: nat, node: Node, cfg: Config)
    requires Good(node, cfg) && !node.List? && At(src, p, NodeText(node, cfg)) && p < |src|
    requires node.Numeric? ==> RoundTrip.Ends(Peek(src, p + |NodeText(node, cfg)|))
    ensures Peek(src, p) != LBRACE && Peek(src, p) != LBRACKET
    ensures |NodeEvents(node, cfg)| == 1
    ensures Scalar(src, p, cfg) == Ok(NodeEvents(node, cfg)[0], p + |NodeText(node, cfg)|)
  {
    hide At, Name, StringAt, Scanner.Number, NumeralEvent, NumeralText, GoodNumeral, QuotedText, Strings.GoodChars, Strings.CharsBytes;
    match node
    case Nil => RoundTrip.WordReads(src, p, NULL, Null);
    case Truth(b) => RoundTrip.WordReads(src, p, if b then TRUE else FALSE, Bool(b));
    case Numeric(n) =>
      NumeralSends(src, p, n, cfg);
      NumeralStarts(n);
      AtPeek(src, p, NumeralText(n), 0);
    case Text(chars) => QuotedReads(src, p, chars, cfg);
  }

  lemma {:induction false} ListReads(src: seq<Byte>, p: nat, node: Node, cfg: Config, sent: seq<Event>)
    requires Good(node, cfg) && node.List? && At(src, p, NodeText(node, cfg)) && p < |src|
    ensures ParseValue(src, p, cfg, sent) == Done(sent + NodeEvents(node, cfg), p + |NodeText(node, cfg)|)
    decreases node.items, 2
  {
    hide At, ParseValue, Skip, ItemsText, ItemsEvents, PiecesText, Loop, Stops, GoodPieces, GoodItem;
    var braces, items := node.braces, node.items;
    var begun := sent + [BeginOf(braces)];
    if items == [] {
      EmptyReads(src, p, braces, node.empty, cfg, sent);
      NoEvents(braces, cfg);
      assert sent + ([BeginOf(braces)] + ([] + [EndOf(braces, 0)])) == begun + [EndOf(braces, 0)];
    } else {
      CharThen(src, p, Open(braces), ItemsText(items, braces, node.comma, cfg));
      ListBegins(braces, src, p, cfg, sent);
      ItemsRead(src, p + 1, items, braces, node.comma, cfg, 0, begun);
      var events := ItemsEvents(items, braces, cfg) + [EndOf(braces, |items|)];
      assert sent + ([BeginOf(braces)] + events) == begun + events;
    }
  }

  lemma EmptyReads(src: seq<Byte>, p: nat, braces: bool, gap: Gap, cfg: Config, sent: seq<Event>)
    requires GoodPieces(gap, cfg.comments) && At(src, p, [Open(braces)] + (PiecesText(gap) + [Close(braces)]))
    ensures p < |src|
    ensures ParseValue(src, p, cfg, sent) == Done(sent + [BeginOf(braces)] + [EndOf(braces, 0)], p + |PiecesText(gap)| + 2)
  {
    hide At, ParseValue, Skip, PiecesText, Loop, Stops, GoodPieces;
    CharThen(src, p, Open(braces), PiecesText(gap) + [Close(braces)]);
    ListBegins(braces, src, p, cfg, sent);
    BeginsWhen(Close(braces));
    assert [Close(braces)] == [Close(braces)] + [];
    GapReads(src, p + 1, gap, Close(braces), [], cfg);
  }

  lemma NoEvents(braces: bool, cfg: Config)
    ensures ItemsEvents([], braces, cfg) == []
  {
  }

  /** The first item and what follows it. */
  lemma {:induction false} FirstItem(src: seq<Byte>, p: nat, items: seq<Item>, braces: bool, comma: Option<Gap>, cfg: Config)
    requires items != [] && GoodItems(items, braces, cfg)
    ensures var item := items[0];
            var q := p + |PiecesText(item.before)|;
            var a := q + |TagText(item.tag, cfg)|;
            var r := a + |NodeText(item.value, cfg)|;
            var rest := if |items| == 1 then EndText(braces, comma) else [COMMA] + ItemsText(items[1..], braces, comma, cfg);
            && (At(src, p, ItemsText(items, braces, comma, cfg)) <==>
                && At(src, p, PiecesText(item.before)) && At(src, q, TagText(item.tag, cfg)) && At(src, a, NodeText(item.value, cfg))
                && At(src, r, PiecesText(item.after) + rest))
            && p + |ItemsText(items, braces, comma, cfg)| == r + |PiecesText(item.after)| + |rest|
  {
    hide At, PiecesText, TagText, NodeText, Good, GoodTag, GoodPieces;
    var item := items[0];
    var rest := if |items| == 1 then EndText(braces, comma) else [COMMA] + ItemsText(items[1..], braces, comma, cfg);
    var d := PiecesText(item.after) + rest;
    var c := NodeText(item.value, cfg) + d;
    var b := TagText(item.tag, cfg) + c;
    assert ItemsText(items, braces, comma, cfg) == PiecesText(item.before) + b;
    AtSplits(src, p, PiecesText(item.before), b);
    var q := p + |PiecesText(item.before)|;
    AtSplits(src, q, TagText(item.tag, cfg), c);
    AtSplits(src, q + |TagText(item.tag, cfg)|, NodeText(item.value, cfg), d);
  }

  lemma ItemStarts(src: seq<Byte>, p: nat, tag: Option<Tag>, cfg: Config)
    requires GoodTag(tag, cfg) && At(src, p, TagText(tag, cfg)) && Begins(Peek(src, p + |TagText(tag, cfg)|))
    ensures Begins(Peek(src, p))
  {
    hide At, PiecesText, Strings.CharsText, Begins;
    if tag.Some? {
      AtPeek(src, p, TagText(tag, cfg), 0);
      BeginsWhen(QUOTE);
    }
  }

  lemma {:induction false} ItemReads(src: seq<Byte>, p: nat, item: Item, braces: bool, c: Byte, rest: seq<Byte>, cfg: Config, count: Size, sent: seq<Event>)
    requires GoodItem(item, braces, cfg) && (c == COMMA || c == Close(braces)) && At(src, p, TagText(item.tag, cfg))
    requires var a := p + |TagText(item.tag, cfg)|;
             At(src, a, NodeText(item.value, cfg)) && At(src, a + |NodeText(item.value, cfg)|, PiecesText(item.after) + ([c] + rest))
    ensures var s := p + |TagText(item.tag, cfg)| + |NodeText(item.value, cfg)| + |PiecesText(item.after)|;
            && s < |src| && Peek(src, s) == c && At(src, s + 1, rest)
            && Loop(braces, src, p, cfg, count, sent)
               == AfterItem(braces, src, s, cfg, Inc(count), sent + TagEvents(item.tag, cfg) + NodeEvents(item.value, cfg))
    decreases item
  {
    hide At, Skip, AfterItem, Members, Elements, PiecesText, TagText, NodeText, NodeEvents, Begins, Stops, GoodPieces, Good, Tagged, ParseValue, Strings.GoodChars;
    var a := p + |TagText(item.tag, cfg)|;
    var r := a + |NodeText(item.value, cfg)|;
    var s := r + |PiecesText(item.after)|;
    BeginsWhen(c);
    GapEnds(src, r, item.after, c, rest, cfg.comments);
    GapReads(src, r, item.after, c, rest, cfg);
    NodeStarts(src, a, item.value, cfg);
    NodeReads(src, a, item.value, cfg, sent + TagEvents(item.tag, cfg));
    var v := ParseValue(src, a, cfg, sent + TagEvents(item.tag, cfg));
    if braces {
      TagReads(src, p, item.tag.value, cfg);
      MemberStep(src, p, cfg, count, sent, Strings.CharsBytes(item.tag.value.chars, cfg.validateEncoding), a, v, s);
    } else {
      assert TagText(item.tag, cfg) == [] by { NoTag(cfg); }
      assert sent + TagEvents(item.tag, cfg) == sent;
      ElementStep(src, p, cfg, count, sent, v, s);
    }
  }

  lemma NoTag(cfg: Config)
    ensures TagText(None, cfg) == []
  {
  }

  /** The end of a list, after its last item. */
  lemma EndReads(src: seq<Byte>, p: nat, braces: bool, comma: Option<Gap>, cfg: Config, count: Size, sent: seq<Event>)
    requires GoodComma(comma, cfg) && At(src, p, EndText(braces, comma))
    ensures p < |src| && AfterItem(braces, src, p, cfg, count, sent) == Done(sent + [EndOf(braces, count)], p + |EndText(braces, comma)|)
  {
    hide At, Skip, Loop, PiecesText, Stops, GoodPieces;
    assert [Close(braces)] == [Close(braces)] + [];
    match comma
    case None => CharThen(src, p, Close(braces), []);
    case Some(gap) =>
      CharThen(src, p, COMMA, PiecesText(gap) + [Close(braces)]);
      BeginsWhen(Close(braces));
      GapReads(src, p + 1, gap, Close(braces), [], cfg);
  }

  /** A comma, and then another item. */
  lemma CommaReads(src: seq<Byte>, p: nat, braces: bool, cfg: Config, count: Size, sent: seq<Event>)
    requires p < |src| && Peek(src, p) == COMMA && Skip(src, p + 1, cfg.comments).Ok?
    requires Peek(src, Skip(src, p + 1, cfg.comments).pos) != Close(braces)
    ensures AfterItem(braces, src, p, cfg, count, sent) == Loop(braces, src, Skip(src, p + 1, cfg.comments).pos, cfg, count, sent)
  {
    hide Skip, Loop;
  }

  /** Events put together, and the count one step on. */
  lemma EventsJoin(sent: seq<Event>, items: seq<Item>, braces: bool, cfg: Config, count: Size)
    requires items != [] && GoodItems(items, braces, cfg)
    ensures var events := sent + TagEvents(items[0].tag, cfg) + NodeEvents(items[0].value, cfg);
            events + (ItemsEvents(items[1..], braces, cfg) + [EndOf(braces, Inc(count) + |items[1..]|)])
            == sent + (ItemsEvents(items, braces, cfg) + [EndOf(braces, count + |items|)])
  {
    hide Good, GoodTag, GoodPieces, TagEvents, NodeEvents;
    var x, y, z := TagEvents(items[0].tag, cfg), NodeEvents(items[0].value, cfg), ItemsEvents(items[1..], braces, cfg);
    assert ItemsEvents(items, braces, cfg) == x + y + z;
    var end := [EndOf(braces, count + |items|)];
    assert end == [EndOf(braces, Inc(count) + |items[1..]|)] by { Wraps(count, |items|); }
    assert sent + x + y + (z + end) == sent + (x + y + z + end);
  }

  lemma Wraps(count: Size, n: nat)
    requires n >= 1
    ensures (Inc(count) + (n - 1)) % 0x1_0000_0000 == (count + n) % 0x1_0000_0000
  {
  }

  /** The items of a list, from before the gap in front of the first to behind the bracket. */
  lemma {:induction false} ItemsRead(src: seq<Byte>, p: nat, items: seq<Item>, braces: bool, comma: Option<Gap>, cfg: Config, count: Size, sent: seq<Event>)
    requires items != [] && GoodItems(items, braces, cfg) && GoodComma(comma, cfg) && At(src, p, ItemsText(items, braces, comma, cfg))
    ensures p <= |src|
    ensures var at := Skip(src, p, cfg.comments);
            && at.Ok? && Peek(src, at.pos) != Close(braces)
            && Loop(braces, src, at.pos, cfg, count, sent)
               == Done(sent + (ItemsEvents(items, braces, cfg) + [EndOf(braces, count + |items|)]),
                       p + |ItemsText(items, braces, comma, cfg)|)
    decreases items, 1
  {
    hide At, Skip, Loop, AfterItem, PiecesText, TagText, NodeText, ItemsText, ItemsEvents, NodeEvents, TagEvents, Good, GoodTag, GoodComma, EndOf, Stops, GoodPieces;
    var item := items[0];
    assert GoodItem(item, braces, cfg);
    var q := p + |PiecesText(item.before)|;
    var a := q + |TagText(item.tag, cfg)|;
    var events := sent + TagEvents(item.tag, cfg) + NodeEvents(item.value, cfg);
    var s := a + |NodeText(item.value, cfg)| + |PiecesText(item.after)|;
    AtInside(src, p, ItemsText(items, braces, comma, cfg));
    FirstItem(src, p, items, braces, comma, cfg);
    NodeStarts(src, a, item.value, cfg);
    ItemStarts(src, q, item.tag, cfg);
    StopsBoth(Peek(src, q), cfg.comments);
    PiecesSkip(src, p, item.before, cfg.comments);
    EventsJoin(sent, items, braces, cfg, count);
    if |items| == 1 {
      var c := EndText(braces, comma)[0];
      assert EndText(braces, comma) == [c] + EndText(braces, comma)[1..];
      ItemReads(src, q, item, braces, c, EndText(braces, comma)[1..], cfg, count, sent);
      AtSplits(src, s - |PiecesText(item.after)|, PiecesText(item.after), EndText(braces, comma));
      EndReads(src, s, braces, comma, cfg, Inc(count), events);
      assert items[1..] == [];
      NoEvents(braces, cfg);
    } else {
      var rest := ItemsText(items[1..], braces, comma, cfg);
      ItemReads(src, q, item, braces, COMMA, rest, cfg, count, sent);
      ItemsRead(src, s + 1, items[1..], braces, comma, cfg, Inc(count), events);
      CommaReads(src, s, braces, cfg, Inc(count), events);
    }
  }

  //////////////////////////////////////////////////////////////////////////////
  // Nothing else is
  //////////////////////////////////////////////////////////////////////////////

  /** What is skipped in front of something is a gap. */
  lemma GapIs(src: seq<Byte>, p: nat, comments: bool) returns (gap: Gap)
    requires p <= |src| && Skip(src, p, comments).Ok? && Peek(src, Skip(src, p, comments).pos) != 0
    ensures GoodPieces(gap, comments) && At(src, p, PiecesText(gap)) && Skip(src, p, comments).pos == p + |PiecesText(gap)|
  {
    hide Skip, PiecesText, GoodPieces, GoodLine;
    var q := Skip(src, p, comments).pos;
    SkipIsGap(src, p, comments);
    gap :| GoodPieces(gap, comments) && src[p..q] == PiecesText(gap);
    assert |src[p..q]| == q - p;
  }

  lemma {:induction false} NameIs(src: seq<Byte>, p: nat, rest: seq<Byte>, event: Event)
    requires p <= |src| && 0 !in rest && Name(src, p, rest, event).Ok?
    ensures At(src, p, rest) && Name(src, p, rest, event) == Ok(event, p + |rest|)
    decreases |rest|
  {
    if rest != [] {
      NameIs(src, p + 1, rest[1..], event);
      assert rest == [rest[0]] + rest[1..] && src[p..p + 1] == [rest[0]];
      AtSplits(src, p, [rest[0]], rest[1..]);
    }
  }

  lemma WordIs(src: seq<Byte>, p: nat, word: seq<Byte>, event: Event)
    requires p < |src| && word != [] && 0 !in word && Peek(src, p) == word[0] && Name(src, p + 1, word[1..], event).Ok?
    ensures At(src, p, word) && Name(src, p + 1, word[1..], event) == Ok(event, p + |word|)
  {
    NameIs(src, p + 1, word[1..], event);
    assert word == [word[0]] + word[1..] && src[p..p + 1] == [word[0]];
    AtSplits(src, p, [word[0]], word[1..]);
  }

  lemma QuotedIs(src: seq<Byte>, p: nat, cfg: Config) returns (chars: seq<Strings.Char>)
    requires p < |src| && Peek(src, p) == QUOTE && StringAt(src, p, cfg).Ok?
    ensures Strings.GoodChars(chars, cfg.validateEncoding) && At(src, p, QuotedText(chars, cfg.validateEncoding))
    ensures StringAt(src, p, cfg)
         == Ok(Strings.CharsBytes(chars, cfg.validateEncoding), p + |QuotedText(chars, cfg.validateEncoding)|)
  {
    hide StringRest, Strings.GoodChars, Strings.CharsText, Strings.CharsBytes;
    chars := Strings.StringIsChars(src, p + 1, cfg.validateEncoding, []);
    assert src[p..p + 1] == [QUOTE];
    AtSplits(src, p, [QUOTE], Strings.CharsText(chars, cfg.validateEncoding) + [QUOTE]);
    assert [] + Strings.CharsBytes(chars, cfg.validateEncoding) == Strings.CharsBytes(chars, cfg.validateEncoding);
  }

  lemma ScalarIs(src: seq<Byte>, p: nat, cfg: Config) returns (node: Node)
    requires p <= |src| && Scalar(src, p, cfg).Ok?
    ensures p < |src| && Peek(src, p) != 0 && Good(node, cfg) && !node.List? && At(src, p, NodeText(node, cfg))
    ensures |NodeEvents(node, cfg)| == 1 && Scalar(src, p, cfg) == Ok(NodeEvents(node, cfg)[0], p + |NodeText(node, cfg)|)
  {
    hide At, Name, StringAt, Scanner.Number, NumeralEvent, NumeralText, GoodNumeral, QuotedText, Strings.GoodChars, Strings.CharsBytes;
    var c := Peek(src, p);
    if c == NULL[0] {
      WordIs(src, p, NULL, Null);
      node := Nil;
    } else if c == TRUE[0] {
      WordIs(src, p, TRUE, Bool(true));
      node := Truth(true);
    } else if c == FALSE[0] {
      WordIs(src, p, FALSE, Bool(false));
      node := Truth(false);
    } else if c == QUOTE {
      var chars := QuotedIs(src, p, cfg);
      node := Text(chars);
    } else {
      var n := NumberIsNumeral(src, p, cfg);
      NumeralStarts(n);
      AtInside(src, p, NumeralText(n));
      AtPeek(src, p, NumeralText(n), 0);
      node := Numeric(n);
    }
  }

  /** A value does not begin with a NUL. */
  lemma ValueThere(src: seq<Byte>, p: nat, cfg: Config, sent: seq<Event>)
    requires p <= |src| && ParseValue(src, p, cfg, sent).Done?
    ensures p < |src| && Peek(src, p) != 0
  {
    hide Scalar, ParseValue;
    if Peek(src, p) != LBRACE && Peek(src, p) != LBRACKET {
      ScalarValue(src, p, cfg, sent);
      var node := ScalarIs(src, p, cfg);
    }
  }

  lemma OkIs(r: Scanned<()>)
    ensures r.Ok? ==> r == Ok((), r.pos)
  {
    if r.Ok? {
      match r.value
      case () =>
    }
  }

  /** A member that was read: its name, its colon, its value and what was skipped behind it. */
  lemma MemberHas(src: seq<Byte>, p: nat, cfg: Config, count: Size, sent: seq<Event>) returns (name: seq<Byte>, a: nat, s: nat)
    requires p <= |src| && Members(src, p, cfg, count, sent).Done?
    ensures Tagged(src, p, cfg, name, a) && p < a <= |src|
    ensures var v := ParseValue(src, a, cfg, sent + [Key(name)]); v.Done? && Skip(src, v.pos, cfg.comments) == Ok((), s)
  {
    hide Skip, StringAt, ParseValue;
    var key := StringAt(src, p, cfg);
    name := key.value;
    assert AfterKey(src, p, key.pos, cfg, count, sent + [Key(name)]).Done?;
    a := Skip(src, Skip(src, key.pos, cfg.comments).pos + 1, cfg.comments).pos;
    var v := ParseValue(src, a, cfg, sent + [Key(name)]);
    assert AfterMember(src, p, v, cfg, Inc(count)).Done?;
    OkIs(Skip(src, Skip(src, key.pos, cfg.comments).pos + 1, cfg.comments));
    OkIs(Skip(src, v.pos, cfg.comments));
    s := Skip(src, v.pos, cfg.comments).pos;
  }

  lemma ElementHas(src: seq<Byte>, p: nat, cfg: Config, count: Size, sent: seq<Event>) returns (s: nat)
    requires p <= |src| && Elements(src, p, cfg, count, sent).Done?
    ensures var v := ParseValue(src, p, cfg, sent); v.Done? && Skip(src, v.pos, cfg.comments) == Ok((), s)
  {
    hide Skip, ParseValue;
    var v := ParseValue(src, p, cfg, sent);
    assert AfterElement(src, p, v, cfg, Inc(count)).Done?;
    OkIs(Skip(src, v.pos, cfg.comments));
    s := Skip(src, v.pos, cfg.comments).pos;
  }

  lemma LoopThere(src: seq<Byte>, p: nat, braces: bool, cfg: Config, count: Size, sent: seq<Event>)
    requires p <= |src| && Loop(braces, src, p, cfg, count, sent).Done?
    ensures p < |src| && Peek(src, p) != 0
  {
    hide ParseValue, Skip, Members, Elements;
    if braces {
      var name, a, s := MemberHas(src, p, cfg, count, sent);
    } else {
      var s := ElementHas(src, p, cfg, count, sent);
      ValueThere(src, p, cfg, sent);
    }
  }

  lemma TagIs(src: seq<Byte>, p: nat, cfg: Config, name: seq<Byte>, a: nat) returns (tag: Tag)
    requires Tagged(src, p, cfg, name, a) && a <= |src| && Peek(src, a) != 0
    ensures GoodTag(Some(tag), cfg) && At(src, p, TagText(Some(tag), cfg)) && a == p + |TagText(Some(tag), cfg)|
    ensures TagEvents(Some(tag), cfg) == [Key(name)]
  {
    hide At, Skip, StringAt, Strings.CharsText, Strings.CharsBytes, PiecesText, QuotedText, GoodPieces, Strings.GoodChars;
    var chars := QuotedIs(src, p, cfg);
    var text := QuotedText(chars, cfg.validateEncoding);
    var before := GapIs(src, p + |text|, cfg.comments);
    var colon := p + |text| + |PiecesText(before)|;
    var after := GapIs(src, colon + 1, cfg.comments);
    tag := Tag(chars, before, after);
    AtSplits(src, colon, [COLON], PiecesText(after));
    AtOne(src, colon, COLON);
    AtSplits(src, p + |text|, PiecesText(before), [COLON] + PiecesText(after));
    AtSplits(src, p, text, PiecesText(before) + ([COLON] + PiecesText(after)));
  }

  lemma AtOne(src: seq<Byte>, p: nat, c: Byte)
    requires Peek(src, p) == c && c != 0
    ensures At(src, p, [c])
  {
  }

  /** One more item in front of others, or the last. */
  lemma ItemJoins(src: seq<Byte>, p: nat, item: Item, braces: bool, items: seq<Item>, comma: Option<Gap>, cfg: Config)
    requires GoodItem(item, braces, cfg) && GoodItems(items, braces, cfg)
    requires var q := p + |PiecesText(item.before)|;
             var a := q + |TagText(item.tag, cfg)|;
             var r := a + |NodeText(item.value, cfg)|;
             var rest := if items == [] then EndText(braces, comma) else [COMMA] + ItemsText(items, braces, comma, cfg);
             && At(src, p, PiecesText(item.before)) && At(src, q, TagText(item.tag, cfg)) && At(src, a, NodeText(item.value, cfg))
             && At(src, r, PiecesText(item.after)) && At(src, r + |PiecesText(item.after)|, rest)
    ensures GoodItems([item] + items, braces, cfg) && At(src, p, ItemsText([item] + items, braces, comma, cfg))
    ensures var rest := if items == [] then EndText(braces, comma) else [COMMA] + ItemsText(items, braces, comma, cfg);
            |ItemsText([item] + items, braces, comma, cfg)| == |PiecesText(item.before)| + |TagText(item.tag, cfg)|
              + |NodeText(item.value, cfg)| + |PiecesText(item.after)| + |rest|
  {
    hide At, PiecesText, TagText, NodeText, EndText, ItemsText, Good, GoodTag, GoodPieces;
    var more := [item] + items;
    assert more[1..] == items && more[0] == item;
    var rest := if items == [] then EndText(braces, comma) else [COMMA] + ItemsText(items, braces, comma, cfg);
    var r := p + |PiecesText(item.before)| + |TagText(item.tag, cfg)| + |NodeText(item.value, cfg)|;
    AtSplits(src, r, PiecesText(item.after), rest);
    FirstItem(src, p, more, braces, comma, cfg);
  }

  /** The first item of a list that was read, without the gap in front of it. */
  lemma {:induction false} ItemIs(src: seq<Byte>, p: nat, before: Gap, braces: bool, cfg: Config, count: Size, sent: seq<Event>)
      returns (item: Item)
    requires p <= |src| && GoodPieces(before, cfg.comments) && Loop(braces, src, p, cfg, count, sent).Done?
    ensures GoodItem(item, braces, cfg) && item.before == before && At(src, p, TagText(item.tag, cfg))
    ensures var a := p + |TagText(item.tag, cfg)|;
            var r := a + |NodeText(item.value, cfg)|;
            var s := r + |PiecesText(item.after)|;
            && At(src, a, NodeText(item.value, cfg)) && At(src, r, PiecesText(item.after)) && p < s < |src|
            && Loop(braces, src, p, cfg, count, sent)
               == AfterItem(braces, src, s, cfg, Inc(count), sent + TagEvents(item.tag, cfg) + NodeEvents(item.value, cfg))
    decreases |src| - p, 1
  {
    hide At, Skip, Members, Elements, AfterItem, PiecesText, TagText, NodeText, NodeEvents, Good, GoodTag, GoodPieces, ParseValue, Tagged, Stops;
    var a, s, name, tag := p, p, [], None;
    if braces {
      name, a, s := MemberHas(src, p, cfg, count, sent);
      ValueThere(src, a, cfg, sent + [Key(name)]);
      var t := TagIs(src, p, cfg, name, a);
      tag := Some(t);
      MemberStep(src, p, cfg, count, sent, name, a, ParseValue(src, a, cfg, sent + [Key(name)]), s);
    } else {
      s := ElementHas(src, p, cfg, count, sent);
      NoTagAt(src, p, cfg);
      assert sent + [] == sent;
      ElementStep(src, p, cfg, count, sent, ParseValue(src, p, cfg, sent), s);
    }
    var v := ParseValue(src, a, cfg, sent + TagEvents(tag, cfg));
    var node := ValueIsNode(src, a, cfg, sent + TagEvents(tag, cfg));
    GoesOn(src, s, braces, cfg, Inc(count), v.events);
    var after := GapIs(src, v.pos, cfg.comments);
    item := Item(before, tag, node, after);
  }

  lemma NoTagAt(src: seq<Byte>, p: nat, cfg: Config)
    requires p <= |src|
    ensures GoodTag(None, cfg) && TagText(None, cfg) == [] && At(src, p, []) && TagEvents(None, cfg) == []
  {
  }

  lemma GoesOn(src: seq<Byte>, p: nat, braces: bool, cfg: Config, count: Size, sent: seq<Event>)
    requires p <= |src| && AfterItem(braces, src, p, cfg, count, sent).Done?
    ensures p < |src| && (Peek(src, p) == COMMA || Peek(src, p) == Close(braces))
  {
    hide Skip, Loop;
  }

  /** The items of a list that was read. */
  lemma {:induction false} ItemsAre(src: seq<Byte>, p: nat, before: Gap, braces: bool, cfg: Config, count: Size, sent: seq<Event>)
      returns (items: seq<Item>, comma: Option<Gap>)
    requires GoodPieces(before, cfg.comments) && At(src, p, PiecesText(before)) && p + |PiecesText(before)| <= |src|
    requires Loop(braces, src, p + |PiecesText(before)|, cfg, count, sent).Done?
    ensures items != [] && GoodItems(items, braces, cfg) && GoodComma(comma, cfg) && At(src, p, ItemsText(items, braces, comma, cfg))
    ensures Loop(braces, src, p + |PiecesText(before)|, cfg, count, sent)
         == Done(sent + (ItemsEvents(items, braces, cfg) + [EndOf(braces, count + |items|)]), p + |ItemsText(items, braces, comma, cfg)|)
    decreases |src| - (p + |PiecesText(before)|), 2
  {
    hide At, Skip, Loop, AfterItem, PiecesText, TagText, NodeText, EndText, ItemsText, ItemsEvents, NodeEvents, TagEvents, Good, GoodTag, GoodPieces, EndOf;
    var q := p + |PiecesText(before)|;
    var item := ItemIs(src, q, before, braces, cfg, count, sent);
    var s := q + |TagText(item.tag, cfg)| + |NodeText(item.value, cfg)| + |PiecesText(item.after)|;
    var events := sent + TagEvents(item.tag, cfg) + NodeEvents(item.value, cfg);
    if EndsHere(src, s, braces, cfg) {
      comma := EndIs(src, s, braces, cfg, Inc(count), events);
      ItemJoins(src, p, item, braces, [], comma, cfg);
      items := [item];
      assert [item] + [] == items;
      EventsJoin(sent, items, braces, cfg, count);
      assert items[1..] == [];
      NoEvents(braces, cfg);
    } else {
      var gap := CommaIs(src, s, braces, cfg, Inc(count), events);
      var rest;
      rest, comma := ItemsAre(src, s + 1, gap, braces, cfg, Inc(count), events);
      AtSplits(src, s, [COMMA], ItemsText(rest, braces, comma, cfg));
      ItemJoins(src, p, item, braces, rest, comma, cfg);
      items := [item] + rest;
      assert items[1..] == rest;
      EventsJoin(sent, items, braces, cfg, count);
    }
  }

  /** No further item follows. */
  predicate EndsHere(src: seq<Byte>, p: nat, braces: bool, cfg: Config)
    requires p < |src|
  {
    Peek(src, p) != COMMA ||
    var next := Skip(src, p + 1, cfg.comments);
    next.Ok? && cfg.trailingCommas && Peek(src, next.pos) == Close(braces)
  }

  lemma EndIs(src: seq<Byte>, p: nat, braces: bool, cfg: Config, count: Size, sent: seq<Event>) returns (comma: Option<Gap>)
    requires p < |src| && EndsHere(src, p, braces, cfg) && AfterItem(braces, src, p, cfg, count, sent).Done?
    ensures GoodComma(comma, cfg) && At(src, p, EndText(braces, comma))
    ensures AfterItem(braces, src, p, cfg, count, sent) == Done(sent + [EndOf(braces, count)], p + |EndText(braces, comma)|)
  {
    hide At, Skip, Loop, PiecesText, GoodPieces;
    if Peek(src, p) == COMMA {
      var gap := GapIs(src, p + 1, cfg.comments);
      var q := p + 1 + |PiecesText(gap)|;
      comma := Some(gap);
      AtOne(src, p, COMMA);
      AtOne(src, q, Close(braces));
      AtSplits(src, p + 1, PiecesText(gap), [Close(braces)]);
      AtSplits(src, p, [COMMA], PiecesText(gap) + [Close(braces)]);
    } else {
      comma := None;
      AtOne(src, p, Close(braces));
    }
  }

  lemma CommaIs(src: seq<Byte>, p: nat, braces: bool, cfg: Config, count: Size, sent: seq<Event>) returns (gap: Gap)
    requires p < |src| && !EndsHere(src, p, braces, cfg) && AfterItem(braces, src, p, cfg, count, sent).Done?
    ensures GoodPieces(gap, cfg.comments) && At(src, p, [COMMA]) && At(src, p + 1, PiecesText(gap)) && p + 1 + |PiecesText(gap)| <= |src|
    ensures AfterItem(braces, src, p, cfg, count, sent) == Loop(braces, src, p + 1 + |PiecesText(gap)|, cfg, count, sent)
  {
    hide Skip, Loop, PiecesText, GoodPieces;
    LoopThere(src, Skip(src, p + 1, cfg.comments).pos, braces, cfg, count, sent);
    gap := GapIs(src, p + 1, cfg.comments);
  }

  /** Whatever is read as a value is the text of a tree, and the events are the tree's. */
  lemma {:induction false} ValueIsNode(src: seq<Byte>, p: nat, cfg: Config, sent: seq<Event>) returns (node: Node)
    requires p <= |src| && ParseValue(src, p, cfg, sent).Done?
    ensures Good(node, cfg) && At(src, p, NodeText(node, cfg))
    ensures ParseValue(src, p, cfg, sent) == Done(sent + NodeEvents(node, cfg), p + |NodeText(node, cfg)|)
    decreases |src| - p, 0
  {
    hide At, ParseValue, Scalar;
    if Peek(src, p) == LBRACE || Peek(src, p) == LBRACKET {
      node := ListIs(src, p, Peek(src, p) == LBRACE, cfg, sent);
    } else {
      ScalarValue(src, p, cfg, sent);
      node := ScalarIs(src, p, cfg);
    }
  }

  lemma {:induction false} ListIs(src: seq<Byte>, p: nat, braces: bool, cfg: Config, sent: seq<Event>) returns (node: Node)
    requires p < |src| && Peek(src, p) == Open(braces) && ParseValue(src, p, cfg, sent).Done?
    ensures Good(node, cfg) && At(src, p, NodeText(node, cfg))
    ensures ParseValue(src, p, cfg, sent) == Done(sent + NodeEvents(node, cfg), p + |NodeText(node, cfg)|)
    decreases |src| - p - 1, 3
  {
    hide At, ParseValue, Skip, ItemsText, ItemsEvents, PiecesText, Loop, GoodPieces, GoodItem, GoodComma, EndOf;
    ListBegins(braces, src, p, cfg, sent);
    var at := Skip(src, p + 1, cfg.comments);
    var begun := sent + [BeginOf(braces)];
    AtOne(src, p, Open(braces));
    NothingIsGood(cfg);
    if Peek(src, at.pos) == Close(braces) {
      var gap := GapIs(src, p + 1, cfg.comments);
      node := List(braces, gap, [], None);
      AtOne(src, at.pos, Close(braces));
      AtSplits(src, p + 1, PiecesText(gap), [Close(braces)]);
      AtSplits(src, p, [Open(braces)], PiecesText(gap) + [Close(braces)]);
      NoEvents(braces, cfg);
      assert sent + ([BeginOf(braces)] + ([] + [EndOf(braces, 0)])) == begun + [EndOf(braces, 0)];
    } else {
      LoopThere(src, at.pos, braces, cfg, 0, begun);
      var gap := GapIs(src, p + 1, cfg.comments);
      var items, comma := ItemsAre(src, p + 1, gap, braces, cfg, 0, begun);
      node := List(braces, [], items, comma);
      AtSplits(src, p, [Open(braces)], ItemsText(items, braces, comma, cfg));
      var events := ItemsEvents(items, braces, cfg) + [EndOf(braces, |items|)];
      assert sent + ([BeginOf(braces)] + events) == begun + events;
    }
  }

  lemma NothingIsGood(cfg: Config)
    ensures GoodPieces([], cfg.comments) && GoodComma(None, cfg)
  {
  }

  //////////////////////////////////////////////////////////////////////////////
  // Documents
  //////////////////////////////////////////////////////////////////////////////

  /** A document: a value between gaps, and perhaps a line comment that the end of the text cuts off. */
  datatype Doc = Doc(before: Gap, root: Node, after: Gap, cut: Option<seq<Byte>>)

  predicate GoodDoc(doc: Doc, cfg: Config) {
    && GoodPieces(doc.before, cfg.comments) && Good(doc.root, cfg) && GoodPieces(doc.after, cfg.comments)
    && (doc.cut.Some? ==> cfg.comments && GoodLine(doc.cut.value))
  }

  function CutText(cut: Option<seq<Byte>>): seq<Byte> {
    if cut.None? then [] else [SLASH, SLASH] + cut.value
  }

  function DocText(doc: Doc, cfg: Config): seq<Byte>
    requires GoodDoc(doc, cfg)
  {
    PiecesText(doc.before) + (NodeText(doc.root, cfg) + (PiecesText(doc.after) + CutText(doc.cut)))
  }

  /** The text is the document, up to its end or a NUL. */
  predicate IsDoc(src: seq<Byte>, doc: Doc, cfg: Config) {
    GoodDoc(doc, cfg) && At(src, 0, DocText(doc, cfg)) && Peek(src, |DocText(doc, cfg)|) == 0
  }

  /** A value in front of anything, as with StopWhenDone. */
  lemma RootParses(src: seq<Byte>, before: Gap, root: Node, cfg: Config)
    requires GoodPieces(before, cfg.comments) && Good(root, cfg) && At(src, 0, PiecesText(before) + NodeText(root, cfg))
    requires root.Numeric? ==> RoundTrip.Ends(Peek(src, |PiecesText(before) + NodeText(root, cfg)|))
    ensures var v := Done(NodeEvents(root, cfg), |PiecesText(before) + NodeText(root, cfg)|);
            Advances(src, 0, v) && Parse(src, cfg) == AfterRoot(src, v, cfg)
  {
    hide At, Skip, PiecesText, NodeText, NodeEvents, ParseValue, AfterRoot, Stops, GoodPieces, Good;
    var p := |PiecesText(before)|;
    AtSplits(src, 0, PiecesText(before), NodeText(root, cfg));
    NodeStarts(src, p, root, cfg);
    StopsBoth(Peek(src, p), cfg.comments);
    PiecesSkip(src, 0, before, cfg.comments);
    NodeReads(src, p, root, cfg, []);
    assert [] + NodeEvents(root, cfg) == NodeEvents(root, cfg);
  }

  /** What follows the root. */
  lemma TailSkips(src: seq<Byte>, p: nat, after: Gap, cut: Option<seq<Byte>>, comments: bool)
    requires GoodPieces(after, comments) && (cut.Some? ==> comments && GoodLine(cut.value))
    requires At(src, p, PiecesText(after) + CutText(cut)) && Peek(src, p + |PiecesText(after) + CutText(cut)|) == 0
    ensures p <= |src| && RoundTrip.Ends(Peek(src, p))
    ensures Skip(src, p, comments) == Ok((), p + |PiecesText(after) + CutText(cut)|)
  {
    hide At, Skip, GoodLine;
    var text := PiecesText(after) + CutText(cut);
    AtInside(src, p, text);
    if text != [] {
      AtPeek(src, p, text, 0);
      if after != [] { PieceEnds(after[0], comments); }
    }
    match cut
    case None =>
      assert text == PiecesText(after);
      StopsWhen(0, comments);
      PiecesSkip(src, p, after, comments);
    case Some(body) => CutSkips(src, p, after, body);
  }

  /** A document is parsed as the events of its root. */
  lemma DocParses(src: seq<Byte>, doc: Doc, cfg: Config)
    requires IsDoc(src, doc, cfg) && !cfg.stopWhenDone
    ensures Parse(src, cfg) == Done(NodeEvents(doc.root, cfg), |DocText(doc, cfg)|)
  {
    hide At, Skip, PiecesText, NodeText, NodeEvents, CutText, Parse, GoodPieces, Good, GoodLine;
    var head, tail := PiecesText(doc.before) + NodeText(doc.root, cfg), PiecesText(doc.after) + CutText(doc.cut);
    assert DocText(doc, cfg) == head + tail;
    AtSplits(src, 0, head, tail);
    TailSkips(src, |head|, doc.after, doc.cut, cfg.comments);
    RootParses(src, doc.before, doc.root, cfg);
  }

  lemma RootThere(src: seq<Byte>, cfg: Config)
    requires Parse(src, cfg).Done?
    ensures Skip(src, 0, cfg.comments).Ok?
    ensures var p := Skip(src, 0, cfg.comments).pos;
            && Peek(src, p) != 0 && ParseValue(src, p, cfg, []).Done?
            && Parse(src, cfg) == AfterRoot(src, ParseValue(src, p, cfg, []), cfg)
  {
    hide Skip, ParseValue;
  }

  /** A gap and a root in front of whatever Parse accepts. */
  lemma RootIs(src: seq<Byte>, cfg: Config) returns (before: Gap, root: Node)
    requires Parse(src, cfg).Done?
    ensures GoodPieces(before, cfg.comments) && Good(root, cfg) && At(src, 0, PiecesText(before) + NodeText(root, cfg))
    ensures var v := Done(NodeEvents(root, cfg), |PiecesText(before) + NodeText(root, cfg)|);
            Advances(src, 0, v) && Parse(src, cfg) == AfterRoot(src, v, cfg)
  {
    hide At, Skip, Parse, PiecesText, NodeText, NodeEvents, ParseValue, AfterRoot, GoodPieces, Good;
    RootThere(src, cfg);
    before := GapIs(src, 0, cfg.comments);
    root := ValueIsNode(src, |PiecesText(before)|, cfg, []);
    AtSplits(src, 0, PiecesText(before), NodeText(root, cfg));
    assert [] + NodeEvents(root, cfg) == NodeEvents(root, cfg);
  }

  /** What is skipped at the end. */
  lemma TailIs(src: seq<Byte>, p: nat, comments: bool) returns (after: Gap, cut: Option<seq<Byte>>)
    requires p <= |src| && Skip(src, p, comments).Ok? && Peek(src, Skip(src, p, comments).pos) == 0
    ensures GoodPieces(after, comments) && (cut.Some? ==> comments && GoodLine(cut.value))
    ensures At(src, p, PiecesText(after) + CutText(cut)) && Skip(src, p, comments).pos == p + |PiecesText(after) + CutText(cut)|
  {
    hide Skip, PiecesText, GoodPieces, GoodLine;
    var q := Skip(src, p, comments).pos;
    SkipIsGap(src, p, comments);
    assert |src[p..q]| == q - p;
    if gap: Gap :| GoodPieces(gap, comments) && src[p..q] == PiecesText(gap) {
      after, cut := gap, None;
      assert PiecesText(after) + CutText(cut) == src[p..q];
    } else {
      var gap, body :| GoodPieces(gap, comments) && comments && GoodLine(body) && src[p..q] == PiecesText(gap) + ([SLASH, SLASH] + body);
      after, cut := gap, Some(body);
    }
  }

  /** Whatever Parse accepts is a document. */
  lemma DocIs(src: seq<Byte>, cfg: Config) returns (doc: Doc)
    requires Parse(src, cfg).Done? && !cfg.stopWhenDone
    ensures IsDoc(src, doc, cfg)
  {
    hide At, Skip, Parse, PiecesText, NodeText, NodeEvents, CutText, GoodPieces, Good, GoodLine;
    var before, root := RootIs(src, cfg);
    var head := PiecesText(before) + NodeText(root, cfg);
    var after, cut := TailIs(src, |head|, cfg.comments);
    doc := Doc(before, root, after, cut);
    var tail := PiecesText(after) + CutText(cut);
    assert DocText(doc, cfg) == head + tail;
    AtSplits(src, 0, head, tail);
  }

  /** Parse accepts exactly the documents, and so does IterativeParse. */
  lemma AcceptsDocuments(src: seq<Byte>, cfg: Config)
    requires !cfg.stopWhenDone
    ensures Parse(src, cfg).Done? <==> exists doc :: IsDoc(src, doc, cfg)
    ensures Machine.IterativeParse(src, cfg).Done? <==> exists doc :: IsDoc(src, doc, cfg)
  {
    hide Parse, IsDoc, Machine.IterativeParse;
    Machine.ParsersAccept(src, cfg);
    if Parse(src, cfg).Done? {
      var doc := DocIs(src, cfg);
    }
    forall doc | IsDoc(src, doc, cfg) ensures Parse(src, cfg).Done? {
      DocParses(src, doc, cfg);
    }
  }

  /** With StopWhenDone, what follows the root is not looked at, except that it must not go on with a number. */
  lemma StopsBehindRoot(src: seq<Byte>, before: Gap, root: Node, cfg: Config)
    requires cfg.stopWhenDone && GoodPieces(before, cfg.comments) && Good(root, cfg)
    requires At(src, 0, PiecesText(before) + NodeText(root, cfg))
    requires root.Numeric? ==> RoundTrip.Ends(Peek(src, |PiecesText(before) + NodeText(root, cfg)|))
    ensures Parse(src, cfg) == Done(NodeEvents(root, cfg), |PiecesText(before) + NodeText(root, cfg)|)
  {
    hide Parse, At, PiecesText, NodeText, NodeEvents, GoodPieces, Good;
    RootParses(src, before, root, cfg);
  }
}
