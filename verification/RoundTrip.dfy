/**
 What the writer prints, the reader reads back: for every tree the text of the tree parses to the
 tree itself, integer flags, member order and repeated names included.
 */
module RoundTrip {
  import opened Ascii
  import opened Events
  import opened Scanner
  import opened Descent
  import opened T = Tree
  import opened Printing
  import opened Document
  import Writer
  import Decimal
  import Utf8

  /** A character that ends a number: any but those that could go on with it. */
  predicate Ends(c: Byte) {
    !IsDigit(c) && c != DOT && c != 101 && c != 69
  }

  /** A character neither white space nor the begin of a comment. */
  predicate Solid(c: Byte) {
    !IsSpace(c) && c != SLASH
  }

  lemma SkipsNothing(src: seq<Byte>, p: nat, comments: bool)
    requires p <= |src| && Solid(Peek(src, p))
    ensures Skip(src, p, comments) == Ok((), p)
  {
  }

  //////////////////////////////////////////////////////////////////////////////
  // Names, strings and numbers
  //////////////////////////////////////////////////////////////////////////////

  lemma {:induction false} NameReads(src: seq<Byte>, p: nat, word: seq<Byte>, event: Event)
    requires 0 !in word && At(src, p, word)
    ensures Name(src, p, word, event) == Ok(event, p + |word|)
    decreases |word|
  {
    if word != [] {
      AtPeek(src, p, word, 0);
      AtSplits(src, p, [word[0]], word[1..]);
      assert word == [word[0]] + word[1..];
      NameReads(src, p + 1, word[1..], event);
    }
  }

  /** The control characters written as a unicode escape. */
  lemma ControlReads(src: seq<Byte>, p: nat, c: Byte, validate: bool)
    requires EscapeLetter(c) == 117 && At(src, p, EscapedByte(c))
    ensures StringPiece(src, p, validate) == Ok([c], p + 6)
  {
    hide HexDigit, HexValue, At;
    var text := EscapedByte(c);
    HexRoundTrip(c / 16);
    HexRoundTrip(c % 16);
    HexRoundTrip(0);
    ZeroIsHex();
    AtPeek(src, p, text, 0);
    AtPeek(src, p, text, 1);
    AtPeek(src, p, text, 2);
    AtPeek(src, p, text, 3);
    AtPeek(src, p, text, 4);
    AtPeek(src, p, text, 5);
    assert Hex4(src, p + 2) == c;
    assert Utf8.Encode(c) == [c];
  }

  lemma ZeroIsHex()
    ensures HexDigit(0) == ZERO
  {
  }

  /** A byte that is not validated, or is ASCII. */
  lemma PieceReads(src: seq<Byte>, p: nat, c: Byte, validate: bool)
    requires At(src, p, EscapedByte(c)) && (validate ==> c < 0x80)
    ensures StringPiece(src, p, validate) == Ok([c], p + |EscapedByte(c)|)
    ensures Peek(src, p) != QUOTE
  {
    AtPeek(src, p, EscapedByte(c), 0);
    if EscapeLetter(c) == 117 {
      ControlReads(src, p, c, validate);
    } else if EscapeLetter(c) != 0 {
      AtPeek(src, p, EscapedByte(c), 1);
    } else if validate {
      assert Utf8.Unit(src, p) == [c];
    }
  }

  lemma HighByte(c: Byte)
    requires c >= 0x80
    ensures EscapedByte(c) == [c]
  {
  }

  /** Bytes from 0x80 on are written as they are. */
  lemma {:induction false} RawPrefix(s: seq<Byte>, k: nat)
    requires k <= |s| && forall i | 0 <= i < k :: s[i] >= 0x80
    ensures Escaped(s) == s[..k] + Escaped(s[k..])
    decreases k
  {
    hide EscapedByte;
    if k == 0 {
      assert s[..0] == [] && s[0..] == s;
    } else {
      HighByte(s[0]);
      assert Escaped(s) == [s[0]] + Escaped(s[1..]);
      RawPrefix(s[1..], k - 1);
      assert s[1..][..k - 1] == s[1..k] && s[1..][k - 1..] == s[k..];
      hide Escaped;
      Reassociate([s[0]], s[1..k], Escaped(s[k..]));
      assert s[..k] == [s[0]] + s[1..k];
    }
  }

  /** Such bytes in the text come from the string. */
  lemma {:induction false} RawRun(src: seq<Byte>, p: nat, s: seq<Byte>, k: nat)
    requires At(src, p, Escaped(s) + [QUOTE]) && forall i | p <= i < p + k :: Peek(src, i) >= 0x80
    ensures k <= |s| && Utf8.Taken(src, p, k) == s[..k]
    decreases k
  {
    hide At, Utf8.Taken;
    if k == 0 {
    } else if s == [] {
      assert Escaped(s) + [QUOTE] == [QUOTE];
      AtPeek(src, p, [QUOTE], 0);
      assert false;
    } else {
      var rest := Escaped(s[1..]) + [QUOTE];
      assert Escaped(s) + [QUOTE] == EscapedByte(s[0]) + rest;
      AtSplits(src, p, EscapedByte(s[0]), rest);
      AtPeek(src, p, EscapedByte(s[0]), 0);
      RawRun(src, p + 1, s[1..], k - 1);
      Utf8.TakenSplit(src, p, k - 1);
      assert s[..k] == [s[0]] + s[1..][..k - 1];
    }
  }

  /** A string begins with one UTF-8 character. */
  predicate StartsWell(s: seq<Byte>)
    requires s != []
  {
    Utf8.LeadLength(s[0]) <= |s| && Utf8.Utf8Char(s[..Utf8.LeadLength(s[0])])
  }

  lemma AllHigh(s: seq<Byte>)
    requires Utf8.Utf8Char(s) && |s| >= 2
    ensures forall i | 0 <= i < |s| :: s[i] >= 0x80
  {
  }

  /** A byte from 0x80 on, validated: the whole character is taken, exactly if it is one. */
  lemma CharReads(src: seq<Byte>, p: nat, s: seq<Byte>)
    requires s != [] && s[0] >= 0x80 && At(src, p, Escaped(s) + [QUOTE])
    ensures Peek(src, p) == s[0]
    ensures var n := Utf8.LeadLength(s[0]);
            if StartsWell(s) then
              && StringPiece(src, p, true) == Ok(s[..n], p + n)
              && At(src, p + n, Escaped(s[n..]) + [QUOTE]) && |Escaped(s)| == n + |Escaped(s[n..])|
            else StringPiece(src, p, true) == Err(StringInvalidEncoding, p)
  {
    hide At, Escaped, Utf8.Utf8Char, Utf8.LeadLength, Utf8.Taken;
    RawPrefix(s, 1);
    assert s[..1] == [s[0]];
    Reassociate([s[0]], Escaped(s[1..]), [QUOTE]);
    CharThen(src, p, s[0], Escaped(s[1..]) + [QUOTE]);
    var n := Utf8.LeadLength(s[0]);
    if StartsWell(s) {
      OneOrHigh(s[..n]);
      RawPrefix(s, n);
      Reassociate(s[..n], Escaped(s[n..]), [QUOTE]);
      AtSplits(src, p, s[..n], Escaped(s[n..]) + [QUOTE]);
      TakenIs(src, p, s[..n]);
    } else if Utf8.Utf8Char(Utf8.Unit(src, p)) {
      var unit := Utf8.Unit(src, p);
      OneOrHigh(unit);
      UnitIs(src, p, n);
      RawRun(src, p, s, n);
      assert false;
    }
  }

  lemma OneOrHigh(s: seq<Byte>)
    requires Utf8.Utf8Char(s) && s != [] && s[0] >= 0x80
    ensures forall i | 0 <= i < |s| :: s[i] >= 0x80
  {
    if |s| >= 2 { AllHigh(s); }
  }

  lemma UnitIs(src: seq<Byte>, p: nat, n: nat)
    requires n == Utf8.LeadLength(Peek(src, p))
    ensures Utf8.Unit(src, p) == Utf8.Taken(src, p, n)
    ensures forall i | p <= i < p + n :: Peek(src, i) == Utf8.Unit(src, p)[i - p]
  {
  }

  lemma TakenIs(src: seq<Byte>, p: nat, word: seq<Byte>)
    requires At(src, p, word)
    ensures Utf8.Taken(src, p, |word|) == word
  {
    forall i | 0 <= i < |word| ensures Peek(src, p + i) == word[i] { AtPeek(src, p, word, i); }
  }

  /** Reading a string the writer wrote: it comes back, unless it is validated and not UTF-8. */
  lemma {:induction false} StringReads(src: seq<Byte>, p: nat, s: seq<Byte>, validate: bool, acc: seq<Byte>)
    requires At(src, p, Escaped(s) + [QUOTE])
    ensures p <= |src|
    ensures var r := StringRest(src, p, validate, acc);
            if validate && !Utf8.WellFormed(s) then r.Err? && r.code == StringInvalidEncoding
            else r == Ok(acc + s, p + |Escaped(s)| + 1)
    decreases |s|
  {
    hide EscapedByte, At, StringPiece, StringRest;
    AtInside(src, p, Escaped(s) + [QUOTE]);
    if s == [] {
      assert Escaped(s) + [QUOTE] == [QUOTE];
      QuoteReads(src, p, validate);
      RestEnds(src, p, validate, acc);
      assert acc + s == acc;
    } else if validate && s[0] >= 0x80 {
      hide Escaped;
      var n := Utf8.LeadLength(s[0]);
      CharReads(src, p, s);
      RestGoesOn(src, p, validate, acc);
      if StartsWell(s) {
        StringReads(src, p + n, s[n..], validate, acc + s[..n]);
        assert acc + s[..n] + s[n..] == acc + s;
      }
    } else {
      var rest := Escaped(s[1..]) + [QUOTE];
      assert Escaped(s) + [QUOTE] == EscapedByte(s[0]) + rest;
      AtSplits(src, p, EscapedByte(s[0]), rest);
      PieceReads(src, p, s[0], validate);
      RestGoesOn(src, p, validate, acc);
      StringReads(src, p + |EscapedByte(s[0])|, s[1..], validate, acc + [s[0]]);
      AsciiWellFormed(s);
      hide Utf8.WellFormed;
      assert acc + [s[0]] + s[1..] == acc + s;
    }
  }

  lemma RestEnds(src: seq<Byte>, p: nat, validate: bool, acc: seq<Byte>)
    requires p <= |src| && Peek(src, p) == QUOTE && StringPiece(src, p, validate) == Ok([], p + 1)
    ensures StringRest(src, p, validate, acc) == Ok(acc, p + 1)
  {
    hide StringPiece;
  }

  lemma RestGoesOn(src: seq<Byte>, p: nat, validate: bool, acc: seq<Byte>)
    requires p <= |src| && Peek(src, p) != QUOTE
    ensures var piece := StringPiece(src, p, validate);
            StringRest(src, p, validate, acc) ==
            if piece.Err? then piece else StringRest(src, piece.pos, validate, acc + piece.value)
  {
    hide StringPiece;
  }

  lemma AsciiWellFormed(s: seq<Byte>)
    requires s != []
    ensures s[0] < 0x80 ==> (Utf8.WellFormed(s) <==> Utf8.WellFormed(s[1..]))
  {
    assert s[0] < 0x80 ==> Utf8.LeadLength(s[0]) == 1 && Utf8.Utf8Char(s[..1]);
  }

  lemma QuoteReads(src: seq<Byte>, p: nat, validate: bool)
    requires At(src, p, [QUOTE])
    ensures p < |src| && Peek(src, p) == QUOTE && StringPiece(src, p, validate) == Ok([], p + 1)
  {
    AtPeek(src, p, [QUOTE], 0);
  }

  lemma StringTextReads(src: seq<Byte>, p: nat, s: seq<Byte>, cfg: Config)
    requires At(src, p, StringText(s))
    ensures p < |src| && Peek(src, p) == QUOTE
    ensures var r := StringAt(src, p, cfg);
            if cfg.validateEncoding && !Utf8.WellFormed(s) then r.Err? && r.code == StringInvalidEncoding
            else r == Ok(s, p + |StringText(s)|)
  {
    hide Escaped, At, StringRest, Utf8.WellFormed;
    var rest := Escaped(s) + [QUOTE];
    assert StringText(s) == [QUOTE] + rest;
    AtSplits(src, p, [QUOTE], rest);
    QuoteReads(src, p, cfg.validateEncoding);
    StringReads(src, p + 1, s, cfg.validateEncoding, []);
    assert [] + s == s;
  }

  /** The event the reader sends for the text of an integer. */
  function ReadNumber(n: Number): Event {
    if n.Integer? then
      var x := IntegerOf(n);
      match IntegerEvent(x < 0, if x < 0 then -x else x)
      case Some(event) => event
      case None => Events.Null
    else Double(n.literal)
  }

  lemma IntReads(src: seq<Byte>, p: nat, n: nat)
    requires At(src, p, Decimal.Text(n)) && !IsDigit(Peek(src, p + |Decimal.Text(n)|))
    ensures IntEnd(src, p) == Ok((), p + |Decimal.Text(n)|)
    ensures IsDigit(Peek(src, p))
    ensures src[p..p + |Decimal.Text(n)|] == Decimal.Text(n)
  {
    hide Decimal.Text;
    Decimal.TextDenotes(n);
    AtPeek(src, p, Decimal.Text(n), 0);
    DigitsEndHere(src, p, Decimal.Text(n));
  }

  lemma NumberReads(src: seq<Byte>, p: nat, x: int, cfg: Config)
    requires -TWO63 <= x < TWO64
    requires At(src, p, Decimal.SignedText(x)) && Ends(Peek(src, p + |Decimal.SignedText(x)|))
    ensures p < |src| && (IsDigit(Peek(src, p)) || Peek(src, p) == MINUS)
    ensures Scanner.Number(src, p, cfg) == Ok(IntegerEvent(x < 0, if x < 0 then -x else x).value, p + |Decimal.SignedText(x)|)
  {
    hide Decimal.Text, At, IntEnd, Decimal.NatOf;
    var n := if x < 0 then -x else x;
    Decimal.TextDenotes(n);
    if x < 0 {
      AtSplits(src, p, [MINUS], Decimal.Text(n));
      AtPeek(src, p, Decimal.SignedText(x), 0);
      IntReads(src, p + 1, n);
    } else {
      IntReads(src, p, n);
    }
    AtInside(src, p, Decimal.SignedText(x));
  }

  //////////////////////////////////////////////////////////////////////////////
  // Values
  //////////////////////////////////////////////////////////////////////////////

  /** The first character of the text of a value is no space, closes nothing and begins no comment. */
  lemma TextStarts(v: Value)
    requires Printable(v)
    ensures |TextOf(v)| >= 1
    ensures var c := TextOf(v)[0]; Solid(c) && c != RBRACKET && c != RBRACE && c != 0 && c != COMMA
  {
    hide ElementsText, MembersText, Escaped, Decimal.Text;
    match v
    case Num(n) =>
      var x := IntegerOf(n);
      Decimal.TextDenotes(if x < 0 then -x else x);
      assert Decimal.AllDigits(Decimal.Text(if x < 0 then -x else x));
    case _ =>
  }

  /** Every string and member name of a tree is UTF-8, if the reader validates them. */
  predicate Legal(v: Value, validate: bool) {
    match v
    case String(s) => validate ==> Utf8.WellFormed(s)
    case Array(elements) => forall i :: 0 <= i < |elements| ==> Legal(elements[i], validate)
    case Object(members) =>
      forall i :: 0 <= i < |members| ==> LegalName(members[i].name, validate) && Legal(members[i].value, validate)
    case _ => true
  }

  predicate LegalName(name: seq<Byte>, validate: bool) {
    validate ==> Utf8.WellFormed(name)
  }

  predicate LegalElements(vs: seq<Value>, validate: bool) {
    forall i :: 0 <= i < |vs| ==> Legal(vs[i], validate)
  }

  predicate LegalMembers(ms: seq<Member>, validate: bool) {
    forall i :: 0 <= i < |ms| ==> LegalName(ms[i].name, validate) && Legal(ms[i].value, validate)
  }

  /** A legal tree is read; any other is rejected for its encoding, after some of its events. */
  predicate Reads(r: Outcome, legal: bool, events: seq<Event>, pos: nat) {
    if legal then r == Done(events, pos) else Rejects(r, events)
  }

  predicate Rejects(r: Outcome, events: seq<Event>) {
    r.Fail? && r.code == StringInvalidEncoding && r.events <= events
  }

  lemma RejectsMore(r: Outcome, sent: seq<Event>, events: seq<Event>, rest: seq<Event>, end: Event)
    requires Rejects(r, sent + events)
    ensures Rejects(r, sent + (events + rest) + [end])
  {
    assert sent + (events + rest) + [end] == (sent + events) + (rest + [end]);
  }

  /** The text of a tree, wherever it stands and whatever follows that does not go on with a number. */
  lemma {:induction false} ValueReads(src: seq<Byte>, p: nat, v: Value, cfg: Config, sent: seq<Event>)
    requires Printable(v)
    requires At(src, p, TextOf(v)) && Ends(Peek(src, p + |TextOf(v)|))
    ensures p < |src| && Sized(v)
    ensures Reads(ParseValue(src, p, cfg, sent), Legal(v, cfg.validateEncoding),
                  sent + EventsOf(v, ReadNumber), p + |TextOf(v)|)
    decreases v, 0
  {
    hide ParseValue, At, Legal, TextOf, EventsOf;
    LegalIs(v, cfg.validateEncoding);
    PrintableIsSized(v);
    AtInside(src, p, TextOf(v));
    TextNotEmpty(v);
    Dispatch(src, p, cfg, sent);
    match v
    case Array(elements) => ArrayReads(src, p, elements, cfg, sent);
    case Object(members) => ObjectReads(src, p, members, cfg, sent);
    case _ =>
      ScalarReads(src, p, v, cfg);
      assert sent <= sent + EventsOf(v, ReadNumber);
  }

  lemma TextNotEmpty(v: Value)
    requires Printable(v)
    ensures |TextOf(v)| >= 1
  {
    TextStarts(v);
  }

  lemma Dispatch(src: seq<Byte>, p: nat, cfg: Config, sent: seq<Event>)
    requires p < |src|
    ensures ParseValue(src, p, cfg, sent) ==
      if Peek(src, p) == LBRACE then ParseObject(src, p, cfg, sent)
      else if Peek(src, p) == LBRACKET then ParseArray(src, p, cfg, sent)
      else
        var v := Scalar(src, p, cfg);
        if v.Ok? then Done(sent + [v.value], v.pos) else Fail(sent, v.code, v.offset)
  {
    hide ParseArray, ParseObject, Scalar;
  }

  lemma LegalIs(v: Value, validate: bool)
    ensures v.Array? ==> (Legal(v, validate) <==> LegalElements(v.elements, validate))
    ensures v.Object? ==> (Legal(v, validate) <==> LegalMembers(v.members, validate))
  {
  }

  lemma ScalarReads(src: seq<Byte>, p: nat, v: Value, cfg: Config)
    requires Printable(v) && !v.Array? && !v.Object?
    requires At(src, p, TextOf(v)) && Ends(Peek(src, p + |TextOf(v)|))
    ensures p < |src| && Peek(src, p) != LBRACE && Peek(src, p) != LBRACKET
    ensures EventsOf(v, ReadNumber) == [EventsOf(v, ReadNumber)[0]]
    ensures var r := Scalar(src, p, cfg);
            if Legal(v, cfg.validateEncoding) then r == Ok(EventsOf(v, ReadNumber)[0], p + |TextOf(v)|)
            else r.Err? && r.code == StringInvalidEncoding
  {
    hide At, StringText, Scanner.Number, StringAt, Name, Utf8.WellFormed;
    match v
    case Null => WordReads(src, p, NULL, Events.Null);
    case Bool(b) => WordReads(src, p, if b then TRUE else FALSE, Events.Bool(b));
    case Num(n) => NumberReads(src, p, IntegerOf(n), cfg);
    case String(s) => StringTextReads(src, p, s, cfg);
  }

  lemma WordReads(src: seq<Byte>, p: nat, word: seq<Byte>, event: Event)
    requires At(src, p, word) && word != [] && 0 !in word
    ensures p < |src| && Peek(src, p) == word[0] && Name(src, p + 1, word[1..], event) == Ok(event, p + |word|)
  {
    hide At;
    AtPeek(src, p, word, 0);
    assert word == [word[0]] + word[1..];
    AtSplits(src, p, [word[0]], word[1..]);
    AtInside(src, p, word);
    NameReads(src, p + 1, word[1..], event);
  }

  //////////////////////////////////////////////////////////////////////////////
  // Arrays
  //////////////////////////////////////////////////////////////////////////////

  lemma {:induction false} ArrayReads(src: seq<Byte>, p: nat, elements: seq<Value>, cfg: Config, sent: seq<Event>)
    requires Printable(Array(elements)) && Sized(Array(elements))
    requires At(src, p, TextOf(Array(elements)))
    ensures p < |src| && Peek(src, p) == LBRACKET
    ensures Reads(ParseArray(src, p, cfg, sent), LegalElements(elements, cfg.validateEncoding),
                  sent + EventsOf(Array(elements), ReadNumber), p + |TextOf(Array(elements))|)
    decreases elements, 2
  {
    hide At, Elements, Skip, TextOf, EventsOf, Printable, Sized, ElementsText, ElementEvents, ParseArray, ElementsFrom, Legal;
    ArrayUnfolds(elements);
    var inner := ElementsText(elements, true) + [RBRACKET];
    CharThen(src, p, LBRACKET, inner);
    if elements == [] {
      assert inner == [RBRACKET] + [];
      CharThen(src, p + 1, RBRACKET, []);
      SkipsNothing(src, p + 1, cfg.comments);
      ArrayEmpty(src, p, cfg, sent);
      Enclose(sent, StartArray, [], EndArray(0));
    } else {
      FirstElement(elements);
      FirstStarts(src, p + 1, elements, cfg.comments);
      ArrayBegins(src, p, cfg, sent);
      ElementsRead(src, p + 1, elements, cfg, 0, sent + [StartArray]);
      Enclose(sent, StartArray, ElementEvents(elements, ReadNumber), EndArray(|elements|));
    }
  }

  lemma {:induction false} ArrayUnfolds(elements: seq<Value>)
    requires Printable(Array(elements)) && Sized(Array(elements))
    ensures |elements| < TWO32 && forall i :: 0 <= i < |elements| ==> Printable(elements[i]) && Sized(elements[i])
    ensures TextOf(Array(elements)) == [LBRACKET] + (ElementsText(elements, true) + [RBRACKET])
    ensures EventsOf(Array(elements), ReadNumber) == [StartArray] + ElementEvents(elements, ReadNumber) + [EndArray(|elements|)]
    ensures elements == [] ==> ElementsText(elements, true) == [] && ElementEvents(elements, ReadNumber) == []
  {
    var inner := ElementsText(elements, true);
    assert TextOf(Array(elements)) == [LBRACKET] + inner + [RBRACKET];
    hide TextOf, ElementsText;
  }

  lemma ArrayEmpty(src: seq<Byte>, p: nat, cfg: Config, sent: seq<Event>)
    requires p + 1 < |src| && Peek(src, p + 1) == RBRACKET && Skip(src, p + 1, cfg.comments) == Ok((), p + 1)
    ensures ParseArray(src, p, cfg, sent) == Done(sent + [StartArray] + [EndArray(0)], p + 2)
  {
    hide Skip, Elements;
  }

  lemma ArrayBegins(src: seq<Byte>, p: nat, cfg: Config, sent: seq<Event>)
    requires p + 1 < |src| && Peek(src, p + 1) != RBRACKET && Skip(src, p + 1, cfg.comments) == Ok((), p + 1)
    ensures ParseArray(src, p, cfg, sent) == Elements(src, p + 1, cfg, 0, sent + [StartArray])
  {
    hide Skip, Elements;
  }

  lemma Enclose(sent: seq<Event>, begin: Event, inner: seq<Event>, end: Event)
    ensures sent + [begin] + inner + [end] == sent + ([begin] + inner + [end])
  {
  }

  /** A value's text at a position: nothing is skipped there, and it closes nothing. */
  lemma ElementStarts(src: seq<Byte>, p: nat, v: Value, rest: seq<Byte>, comments: bool)
    requires Printable(v) && At(src, p, TextOf(v) + rest)
    ensures p < |src| && Skip(src, p, comments) == Ok((), p)
    ensures Peek(src, p) != RBRACKET && Peek(src, p) != RBRACE
  {
    hide TextOf, Skip;
    TextStarts(v);
    AtSplits(src, p, TextOf(v), rest);
    AtPeek(src, p, TextOf(v), 0);
    SkipsNothing(src, p, comments);
  }

  /** The text of elements of an array from the first character of one of them. */
  function ElementsFrom(vs: seq<Value>): seq<Byte>
    requires vs != [] && forall i :: 0 <= i < |vs| ==> Printable(vs[i])
  {
    TextOf(vs[0]) + (ElementsText(vs[1..], false) + [RBRACKET])
  }

  lemma FirstStarts(src: seq<Byte>, p: nat, vs: seq<Value>, comments: bool)
    requires vs != [] && (forall i :: 0 <= i < |vs| ==> Printable(vs[i])) && At(src, p, ElementsFrom(vs))
    ensures p < |src| && Skip(src, p, comments) == Ok((), p) && Peek(src, p) != RBRACKET
  {
    hide TextOf, Skip, ElementsText, Printable;
    ElementStarts(src, p, vs[0], ElementsText(vs[1..], false) + [RBRACKET], comments);
  }

  lemma {:induction false} ElementsRead(src: seq<Byte>, p: nat, vs: seq<Value>, cfg: Config, count: Size, sent: seq<Event>)
    requires vs != [] && (forall i :: 0 <= i < |vs| ==> Printable(vs[i]))
    requires count + |vs| < TWO32 && At(src, p, ElementsFrom(vs))
    ensures p <= |src| && forall i :: 0 <= i < |vs| ==> Sized(vs[i])
    ensures Reads(Elements(src, p, cfg, count, sent), LegalElements(vs, cfg.validateEncoding),
                  sent + ElementEvents(vs, ReadNumber) + [EndArray(count + |vs|)], p + |ElementsFrom(vs)|)
    decreases vs, 1
  {
    hide At, Printable, TextOf, ParseValue, Skip, Sized, EventsOf, Elements, Legal, LegalElements;
    forall i | 0 <= i < |vs| ensures Sized(vs[i]) { PrintableIsSized(vs[i]); }
    var text, tail := TextOf(vs[0]), ElementsText(vs[1..], false) + [RBRACKET];
    AtSplits(src, p, text, tail);
    var q := p + |text|;
    var events := EventsOf(vs[0], ReadNumber);
    FirstLegal(vs, cfg.validateEncoding);
    NextCharacter(src, q, vs[1..], tail);
    ValueReads(src, p, vs[0], cfg, sent);
    if !Legal(vs[0], cfg.validateEncoding) {
      ElementsFail(src, p, cfg, count, sent);
      RejectsMore(Elements(src, p, cfg, count, sent), sent, events, ElementEvents(vs[1..], ReadNumber), EndArray(count + |vs|));
    } else if |vs| == 1 {
      assert tail == [RBRACKET] + [];
      CharThen(src, q, RBRACKET, []);
      SkipsNothing(src, q, cfg.comments);
      ElementsEnd(src, p, q, cfg, count, sent, sent + events);
      assert events + ElementEvents(vs[1..], ReadNumber) == events;
    } else {
      var rest := ElementsFrom(vs[1..]);
      assert tail == [COMMA] + rest by { ElementsUnfold(vs[1..]); }
      CharThen(src, q, COMMA, rest);
      SkipsNothing(src, q, cfg.comments);
      FirstStarts(src, q + 1, vs[1..], cfg.comments);
      ElementsStep(src, p, q, cfg, count, sent, sent + events);
      hide ElementsText, Elements;
      ElementsRead(src, q + 1, vs[1..], cfg, count + 1, sent + events);
      Reassociate(sent, events, ElementEvents(vs[1..], ReadNumber));
    }
  }

  /** What follows an element. */
  lemma {:induction false} NextCharacter(src: seq<Byte>, q: nat, rest: seq<Value>, tail: seq<Byte>)
    requires forall i :: 0 <= i < |rest| ==> Printable(rest[i])
    requires tail == ElementsText(rest, false) + [RBRACKET] && At(src, q, tail)
    ensures Ends(Peek(src, q))
  {
    hide Printable, TextOf;
    AtPeek(src, q, tail, 0);
  }

  lemma FirstLegal(vs: seq<Value>, validate: bool)
    requires vs != []
    ensures LegalElements(vs, validate) <==> Legal(vs[0], validate) && LegalElements(vs[1..], validate)
    ensures |vs| == 1 ==> LegalElements(vs[1..], validate)
  {
    hide Legal;
    if LegalElements(vs[1..], validate) {
      assert forall i :: 1 <= i < |vs| ==> vs[i] == vs[1..][i - 1];
    }
  }

  lemma ElementsFail(src: seq<Byte>, p: nat, cfg: Config, count: Size, sent: seq<Event>)
    requires p <= |src| && ParseValue(src, p, cfg, sent).Fail?
    ensures Elements(src, p, cfg, count, sent) == ParseValue(src, p, cfg, sent)
  {
    hide ParseValue;
  }

  lemma {:induction false} ElementsUnfold(vs: seq<Value>)
    requires vs != [] && forall i :: 0 <= i < |vs| ==> Printable(vs[i])
    ensures ElementsText(vs, false) + [RBRACKET] == [COMMA] + ElementsFrom(vs)
  {
    hide TextOf, Printable;
    assert ElementsText(vs, false) == [COMMA] + TextOf(vs[0]) + ElementsText(vs[1..], false);
    hide ElementsText;
    Nest([COMMA], TextOf(vs[0]), ElementsText(vs[1..], false), [RBRACKET]);
  }

  lemma {:induction false} FirstElement(vs: seq<Value>)
    requires vs != [] && forall i :: 0 <= i < |vs| ==> Printable(vs[i])
    ensures ElementsText(vs, true) + [RBRACKET] == ElementsFrom(vs)
  {
    hide TextOf, Printable;
    assert ElementsText(vs, true) == Separator(true) + TextOf(vs[0]) + ElementsText(vs[1..], false);
    assert Separator(true) + TextOf(vs[0]) == TextOf(vs[0]);
    hide ElementsText;
    Reassociate(TextOf(vs[0]), ElementsText(vs[1..], false), [RBRACKET]);
  }

  lemma Nest<X>(a: seq<X>, b: seq<X>, c: seq<X>, d: seq<X>)
    ensures a + b + c + d == a + (b + (c + d))
  {
  }

  /** The loop of ParseArray ends. */
  lemma ElementsEnd(src: seq<Byte>, p: nat, q: nat, cfg: Config, count: Size, sent: seq<Event>, more: seq<Event>)
    requires p < q < |src| && ParseValue(src, p, cfg, sent) == Done(more, q)
    requires Peek(src, q) == RBRACKET && Skip(src, q, cfg.comments) == Ok((), q)
    ensures Elements(src, p, cfg, count, sent) == Done(more + [EndArray(Inc(count))], q + 1)
  {
    hide ParseValue, Skip, AfterElementComma;
  }

  /** The loop of ParseArray goes round once more. */
  lemma ElementsStep(src: seq<Byte>, p: nat, q: nat, cfg: Config, count: Size, sent: seq<Event>, more: seq<Event>)
    requires p < q < |src| && ParseValue(src, p, cfg, sent) == Done(more, q)
    requires Peek(src, q) == COMMA && Skip(src, q, cfg.comments) == Ok((), q)
    requires Skip(src, q + 1, cfg.comments) == Ok((), q + 1) && Peek(src, q + 1) != RBRACKET
    ensures Elements(src, p, cfg, count, sent) == Elements(src, q + 1, cfg, Inc(count), more)
  {
    hide ParseValue, Skip;
    assert AfterElement(src, p, Done(more, q), cfg, Inc(count)) == AfterElementComma(src, q, cfg, Inc(count), more);
    assert AfterElementComma(src, q, cfg, Inc(count), more) == Elements(src, q + 1, cfg, Inc(count), more);
  }

  lemma Reassociate<X>(a: seq<X>, b: seq<X>, c: seq<X>)
    ensures a + (b + c) == a + b + c
  {
  }

  //////////////////////////////////////////////////////////////////////////////
  // Objects
  //////////////////////////////////////////////////////////////////////////////

  lemma {:induction false} ObjectReads(src: seq<Byte>, p: nat, members: seq<Member>, cfg: Config, sent: seq<Event>)
    requires Printable(Object(members)) && Sized(Object(members))
    requires At(src, p, TextOf(Object(members)))
    ensures p < |src| && Peek(src, p) == LBRACE
    ensures Reads(ParseObject(src, p, cfg, sent), LegalMembers(members, cfg.validateEncoding),
                  sent + EventsOf(Object(members), ReadNumber), p + |TextOf(Object(members))|)
    decreases members, 2
  {
    hide At, Members, Skip, TextOf, EventsOf, Printable, Sized, MembersText, MemberEvents, ParseObject, MembersFrom, Legal, LegalName;
    ObjectUnfolds(members);
    var inner := MembersText(members, true) + [RBRACE];
    CharThen(src, p, LBRACE, inner);
    if members == [] {
      assert inner == [RBRACE] + [];
      CharThen(src, p + 1, RBRACE, []);
      SkipsNothing(src, p + 1, cfg.comments);
      ObjectEmpty(src, p, cfg, sent);
      Enclose(sent, StartObject, [], EndObject(0));
    } else {
      FirstMember(members);
      QuoteStarts(src, p + 1, members, cfg.comments);
      ObjectBegins(src, p, cfg, sent);
      MembersRead(src, p + 1, members, cfg, 0, sent + [StartObject]);
      Enclose(sent, StartObject, MemberEvents(members, ReadNumber), EndObject(|members|));
    }
  }

  lemma {:induction false} ObjectUnfolds(members: seq<Member>)
    requires Printable(Object(members)) && Sized(Object(members))
    ensures |members| < TWO32 && forall i :: 0 <= i < |members| ==> Printable(members[i].value) && Sized(members[i].value)
    ensures TextOf(Object(members)) == [LBRACE] + (MembersText(members, true) + [RBRACE])
    ensures EventsOf(Object(members), ReadNumber) == [StartObject] + MemberEvents(members, ReadNumber) + [EndObject(|members|)]
    ensures members == [] ==> MembersText(members, true) == [] && MemberEvents(members, ReadNumber) == []
  {
    var inner := MembersText(members, true);
    assert TextOf(Object(members)) == [LBRACE] + inner + [RBRACE];
    hide TextOf, MembersText;
  }

  lemma ObjectEmpty(src: seq<Byte>, p: nat, cfg: Config, sent: seq<Event>)
    requires p + 1 < |src| && Peek(src, p + 1) == RBRACE && Skip(src, p + 1, cfg.comments) == Ok((), p + 1)
    ensures ParseObject(src, p, cfg, sent) == Done(sent + [StartObject] + [EndObject(0)], p + 2)
  {
    hide Skip, Members;
  }

  lemma ObjectBegins(src: seq<Byte>, p: nat, cfg: Config, sent: seq<Event>)
    requires p + 1 < |src| && Peek(src, p + 1) != RBRACE && Skip(src, p + 1, cfg.comments) == Ok((), p + 1)
    ensures ParseObject(src, p, cfg, sent) == Members(src, p + 1, cfg, 0, sent + [StartObject])
  {
    hide Skip, Members;
  }

  /** The text of members of an object from the quote of the name of one of them. */
  function MembersFrom(ms: seq<Member>): seq<Byte>
    requires ms != [] && forall i :: 0 <= i < |ms| ==> Printable(ms[i].value)
  {
    StringText(ms[0].name) + ([COLON] + (TextOf(ms[0].value) + (MembersText(ms[1..], false) + [RBRACE])))
  }

  lemma Nest5<X>(a: seq<X>, b: seq<X>, c: seq<X>, d: seq<X>, e: seq<X>)
    ensures a + b + c + d + e == a + (b + (c + (d + e)))
  {
  }

  lemma {:induction false} FirstMember(ms: seq<Member>)
    requires ms != [] && forall i :: 0 <= i < |ms| ==> Printable(ms[i].value)
    ensures MembersText(ms, true) + [RBRACE] == MembersFrom(ms)
  {
    hide TextOf, Printable, StringText;
    assert MembersText(ms, true)
        == Separator(true) + StringText(ms[0].name) + [COLON] + TextOf(ms[0].value) + MembersText(ms[1..], false);
    assert Separator(true) + StringText(ms[0].name) == StringText(ms[0].name);
    hide MembersText;
    Nest5(StringText(ms[0].name), [COLON], TextOf(ms[0].value), MembersText(ms[1..], false), [RBRACE]);
  }

  lemma {:induction false} MembersUnfold(ms: seq<Member>)
    requires ms != [] && forall i :: 0 <= i < |ms| ==> Printable(ms[i].value)
    ensures MembersText(ms, false) + [RBRACE] == [COMMA] + MembersFrom(ms)
  {
    hide TextOf, Printable, StringText;
    var name := StringText(ms[0].name);
    Nest5([COMMA] + name, [COLON], TextOf(ms[0].value), MembersText(ms[1..], false), [RBRACE]);
    Reassociate([COMMA], name, [COLON] + (TextOf(ms[0].value) + (MembersText(ms[1..], false) + [RBRACE])));
  }

  lemma QuoteStarts(src: seq<Byte>, p: nat, ms: seq<Member>, comments: bool)
    requires ms != [] && (forall i :: 0 <= i < |ms| ==> Printable(ms[i].value)) && At(src, p, MembersFrom(ms))
    ensures p < |src| && Skip(src, p, comments) == Ok((), p) && Peek(src, p) == QUOTE
  {
    hide TextOf, Skip, MembersText, Escaped;
    AtPeek(src, p, MembersFrom(ms), 0);
    SkipsNothing(src, p, comments);
  }

  lemma {:induction false} MembersRead(src: seq<Byte>, p: nat, ms: seq<Member>, cfg: Config, count: Size, sent: seq<Event>)
    requires ms != [] && (forall i :: 0 <= i < |ms| ==> Printable(ms[i].value))
    requires count + |ms| < TWO32 && At(src, p, MembersFrom(ms))
    ensures p <= |src| && forall i :: 0 <= i < |ms| ==> Sized(ms[i].value)
    ensures Reads(Members(src, p, cfg, count, sent), LegalMembers(ms, cfg.validateEncoding),
                  sent + MemberEvents(ms, ReadNumber) + [EndObject(count + |ms|)], p + |MembersFrom(ms)|)
    decreases ms, 1
  {
    hide At, Printable, TextOf, StringText, ParseValue, Skip, Sized, EventsOf, Members, LegalMember, LegalMembers;
    forall i | 0 <= i < |ms| ensures Sized(ms[i].value) { PrintableIsSized(ms[i].value); }
    var tail := MembersText(ms[1..], false) + [RBRACE];
    var q := p + |MembersFrom(ms)| - |tail|;
    var events := [Key(ms[0].name)] + EventsOf(ms[0].value, ReadNumber);
    hide AfterMember;
    FirstLegalMember(ms, cfg.validateEncoding);
    MemberEnds(ms[1..], tail);
    MemberReads(src, p, ms[0], tail, cfg, count, sent);
    if !LegalMember(ms[0], cfg.validateEncoding) {
      RejectsMore(Members(src, p, cfg, count, sent), sent, events, MemberEvents(ms[1..], ReadNumber), EndObject(count + |ms|));
    } else if |ms| == 1 {
      assert tail == [RBRACE] + [];
      CharThen(src, q, RBRACE, []);
      MembersEnd(src, p, q, cfg, Inc(count), sent + events);
      assert events + MemberEvents(ms[1..], ReadNumber) == events;
    } else {
      var rest := MembersFrom(ms[1..]);
      assert tail == [COMMA] + rest by { MembersUnfold(ms[1..]); }
      CharThen(src, q, COMMA, rest);
      QuoteStarts(src, q + 1, ms[1..], cfg.comments);
      MembersStep(src, p, q, cfg, Inc(count), sent + events);
      assert MemberEvents(ms, ReadNumber) == events + MemberEvents(ms[1..], ReadNumber);
      hide MembersText, MembersFrom, MemberEvents;
      MembersRead(src, q + 1, ms[1..], cfg, count + 1, sent + events);
      Reassociate(sent, events, MemberEvents(ms[1..], ReadNumber));
    }
  }

  lemma MembersStep(src: seq<Byte>, p: nat, q: nat, cfg: Config, count: Size, more: seq<Event>)
    requires p < q < |src| && Peek(src, q) == COMMA && Skip(src, q, cfg.comments) == Ok((), q)
    requires Skip(src, q + 1, cfg.comments) == Ok((), q + 1) && Peek(src, q + 1) == QUOTE
    ensures AfterMember(src, p, Done(more, q), cfg, count) == Members(src, q + 1, cfg, count, more)
  {
    hide Skip, Members;
    assert AfterMember(src, p, Done(more, q), cfg, count) == AfterComma(src, q, cfg, count, more);
  }

  lemma MembersEnd(src: seq<Byte>, p: nat, q: nat, cfg: Config, count: Size, more: seq<Event>)
    requires p < q < |src| && Peek(src, q) == RBRACE && Skip(src, q, cfg.comments) == Ok((), q)
    ensures AfterMember(src, p, Done(more, q), cfg, count) == Done(more + [EndObject(count)], q + 1)
  {
    hide Skip, AfterComma;
  }

  /** What follows a member. */
  lemma {:induction false} MemberEnds(rest: seq<Member>, tail: seq<Byte>)
    requires forall i :: 0 <= i < |rest| ==> Printable(rest[i].value)
    requires tail == MembersText(rest, false) + [RBRACE]
    ensures tail != [] && Ends(tail[0]) && Solid(tail[0])
  {
    hide Printable, TextOf, StringText;
  }

  predicate LegalMember(m: Member, validate: bool) {
    LegalName(m.name, validate) && Legal(m.value, validate)
  }

  lemma FirstLegalMember(ms: seq<Member>, validate: bool)
    requires ms != []
    ensures LegalMembers(ms, validate) <==> LegalMember(ms[0], validate) && LegalMembers(ms[1..], validate)
    ensures |ms| == 1 ==> LegalMembers(ms[1..], validate)
  {
    hide Legal, LegalName;
    if LegalMembers(ms[1..], validate) {
      assert forall i :: 1 <= i < |ms| ==> ms[i] == ms[1..][i - 1];
    }
  }

  /** One name, colon and value. */
  lemma MemberReads(src: seq<Byte>, p: nat, m: Member, tail: seq<Byte>, cfg: Config, count: Size, sent: seq<Event>)
    requires Printable(m.value) && tail != [] && Ends(tail[0]) && Solid(tail[0])
    requires At(src, p, StringText(m.name) + ([COLON] + (TextOf(m.value) + tail)))
    ensures Sized(m.value)
    ensures var q := p + |StringText(m.name)| + 1 + |TextOf(m.value)|;
      && p < q < |src| && At(src, q, tail) && Skip(src, q, cfg.comments) == Ok((), q)
      && var r := Members(src, p, cfg, count, sent);
         if LegalMember(m, cfg.validateEncoding) then
           r == AfterMember(src, p, Done(sent + ([Key(m.name)] + EventsOf(m.value, ReadNumber)), q), cfg, Inc(count))
         else Rejects(r, sent + ([Key(m.name)] + EventsOf(m.value, ReadNumber)))
    decreases m, 1
  {
    hide At, Printable, TextOf, StringText, ParseValue, Skip, Sized, EventsOf, StringAt, Utf8.WellFormed, Legal, Members, AfterMember;
    var rest := TextOf(m.value) + tail;
    AtSplits(src, p, StringText(m.name), [COLON] + rest);
    StringTextReads(src, p, m.name, cfg);
    var colon := p + |StringText(m.name)|;
    CharThen(src, colon, COLON, rest);
    SkipsNothing(src, colon, cfg.comments);
    ElementStarts(src, colon + 1, m.value, tail, cfg.comments);
    AtSplits(src, colon + 1, TextOf(m.value), tail);
    var q := colon + 1 + |TextOf(m.value)|;
    AtPeek(src, q, tail, 0);
    AtInside(src, q, tail);
    SkipsNothing(src, q, cfg.comments);
    ValueReads(src, colon + 1, m.value, cfg, sent + [Key(m.name)]);
    Reassociate(sent, [Key(m.name)], EventsOf(m.value, ReadNumber));
    NameThenValue(src, p, m.name, colon, cfg, count, sent);
  }

  /** The loop of ParseObject from a name to behind its value. */
  lemma NameThenValue(src: seq<Byte>, p: nat, name: seq<Byte>, colon: nat, cfg: Config, count: Size, sent: seq<Event>)
    requires p < colon < |src| && Peek(src, p) == QUOTE && Peek(src, colon) == COLON
    requires Skip(src, colon, cfg.comments) == Ok((), colon) && Skip(src, colon + 1, cfg.comments) == Ok((), colon + 1)
    requires StringAt(src, p, cfg).Ok? ==> StringAt(src, p, cfg) == Ok(name, colon)
    ensures var at, r := StringAt(src, p, cfg), Members(src, p, cfg, count, sent);
            if at.Err? then r == Fail(sent, at.code, at.offset)
            else
              var v := ParseValue(src, colon + 1, cfg, sent + [Key(name)]);
              if v.Fail? then r == v else r == AfterMember(src, p, v, cfg, Inc(count))
  {
    hide Skip, ParseValue, StringAt, AfterComma;
    if StringAt(src, p, cfg).Ok? {
      var keyed := sent + [Key(name)];
      assert Members(src, p, cfg, count, sent) == AfterKey(src, p, colon, cfg, count, keyed);
      var v := ParseValue(src, colon + 1, cfg, keyed);
      assert AfterKey(src, p, colon, cfg, count, keyed) == AfterMember(src, p, v, cfg, Inc(count));
    }
  }

  //////////////////////////////////////////////////////////////////////////////
  // Whole documents
  //////////////////////////////////////////////////////////////////////////////

  /** The reader's choice of events rebuilds every number with its flags. */
  lemma {:induction false} ReadingIsFaithful(v: Value)
    requires Printable(v)
    ensures Faithful(v, ReadNumber)
  {
    match v
    case Num(n) => FlagsArePrecise(IntegerOf(n));
    case Array(elements) =>
      forall i | 0 <= i < |elements| ensures Faithful(elements[i], ReadNumber) { ReadingIsFaithful(elements[i]); }
    case Object(members) =>
      forall i | 0 <= i < |members| ensures Faithful(members[i].value, ReadNumber) { ReadingIsFaithful(members[i].value); }
    case _ =>
  }

  /** Parsing the text of a tree consumes it all, and the events build that tree; with validation, if
      and only if all its strings are UTF-8. */
  lemma TextParses(v: Value, cfg: Config)
    requires Printable(v)
    ensures Sized(v) && Leaves(EventsOf(v, ReadNumber), [v])
    ensures Reads(Parse(TextOf(v), cfg), Legal(v, cfg.validateEncoding), EventsOf(v, ReadNumber), |TextOf(v)|)
  {
    hide TextOf, ParseValue, Skip, EventsOf, Faithful, Build, Legal;
    var src := TextOf(v);
    TextStarts(v);
    assert src[0..|src|] == src;
    SkipsNothing(src, 0, cfg.comments);
    SkipsNothing(src, |src|, cfg.comments);
    ValueReads(src, 0, v, cfg, []);
    assert [] + EventsOf(v, ReadNumber) == EventsOf(v, ReadNumber);
    ReadingIsFaithful(v);
    BuildsValue([], v, ReadNumber);
    assert [] + [v] == [v];
  }

  /** Without validation every tree is legal. */
  lemma {:induction false} AllLegal(v: Value)
    ensures Legal(v, false)
  {
    match v
    case Array(elements) =>
      forall i | 0 <= i < |elements| ensures Legal(elements[i], false) { AllLegal(elements[i]); }
    case Object(members) =>
      forall i | 0 <= i < |members| ensures Legal(members[i].value, false) { AllLegal(members[i].value); }
    case _ =>
  }

  /** A string of the one byte 0xFF is printed and not read back when validated. */
  lemma RejectedString(cfg: Config)
    requires cfg.validateEncoding
    ensures Printable(Value.String([0xFF]))
    ensures var r := Parse(TextOf(Value.String([0xFF])), cfg); r.Fail? && r.code == StringInvalidEncoding
  {
    hide TextOf, Parse, EventsOf;
    TextParses(Value.String([0xFF]), cfg);
    assert Utf8.LeadLength(0xFF) == 1 && !Utf8.Utf8Char([0xFF][..1]);
  }

  /** The events of such a parse never make an assertion of the stack fail. */
  lemma TextBuilds(v: Value, cfg: Config)
    requires Printable(v)
    ensures Built(Parse(TextOf(v), cfg), [v])
  {
    hide TextOf, Parse, Build, EventsOf, Legal;
    TextParses(v, cfg);
    var r, events := Parse(TextOf(v), cfg), EventsOf(v, ReadNumber);
    if r.Fail? {
      PrefixBuilds(events, |r.events|);
      assert r.events == events[..|r.events|];
    }
  }

  /** Accept into a fresh writer, then parse what it wrote: the same tree, or an encoding error. */
  method PrintThenParse(v: Value, cfg: Config) returns (text: seq<Byte>, result: Outcome, root: Value)
    requires Printable(v)
    ensures text == TextOf(v)
    ensures Sized(v)
    ensures if Legal(v, cfg.validateEncoding) then result.Done? && root == v
            else Rejects(result, EventsOf(v, ReadNumber))
  {
    hide TextOf, WriteAll, Parse, Build, EventsOf, Legal;
    var writer := new Writer.Writer();
    WritesValue(writer.Now(), v);
    writer.Accept(v);
    text := writer.out;
    assert text == [] + TextOf(v) == TextOf(v);
    TextParses(v, cfg);
    var document := new GenericDocument();
    TextBuilds(v, cfg);
    result := document.ParseStream(text, cfg);
    root := document.root;
    assert result.Done? ==> [root] == [v];
  }
}
