/**
 The printer of writer.h: a level stack decides the separator before each value. The text of a tree
 is defined on its own; the writer, fed the events of a tree, writes exactly that text.
 */
module Printing {
  import opened Ascii
  import opened Events
  import opened Tree
  import Scanner
  import Decimal

  //////////////////////////////////////////////////////////////////////////////
  // The text of a value
  //////////////////////////////////////////////////////////////////////////////

  /** The letter after the backslash in the escape of a byte, 0 if it needs no escape. */
  function EscapeLetter(c: Byte): Byte {
    if c == QUOTE || c == BACKSLASH then c
    else if c == 8 then 98
    else if c == TAB then 116
    else if c == LF then 110
    else if c == 12 then 102
    else if c == CR then 114
    else if c < 0x20 then 117
    else 0
  }

  function EscapedByte(c: Byte): (s: seq<Byte>)
    ensures |s| >= 1
  {
    var letter := EscapeLetter(c);
    if letter == 0 then [c]
    else if letter == 117 then [BACKSLASH, letter, ZERO, ZERO, HexDigit(c / 16), HexDigit(c % 16)]
    else [BACKSLASH, letter]
  }

  function Escaped(s: seq<Byte>): seq<Byte> {
    if s == [] then [] else EscapedByte(s[0]) + Escaped(s[1..])
  }

  function StringText(s: seq<Byte>): seq<Byte> {
    [QUOTE] + Escaped(s) + [QUOTE]
  }

  /** A tree the writer can print and a reader can give back: integers with the flags of exactly the
      types that hold them, no doubles, sizes that fit SizeType. */
  predicate Printable(v: Value) {
    match v
    case Num(n) => n.Integer? && -TWO63 <= IntegerOf(n) < TWO64 && n == Exactly(IntegerOf(n))
    case Array(elements) => |elements| < TWO32 && forall i :: 0 <= i < |elements| ==> Printable(elements[i])
    case Object(members) => |members| < TWO32 && forall i :: 0 <= i < |members| ==> Printable(members[i].value)
    case _ => true
  }

  lemma {:induction false} PrintableIsSized(v: Value)
    requires Printable(v)
    ensures Sized(v)
  {
    match v
    case Array(elements) =>
      forall i | 0 <= i < |elements| ensures Sized(elements[i]) { PrintableIsSized(elements[i]); }
    case Object(members) =>
      forall i | 0 <= i < |members| ensures Sized(members[i].value) { PrintableIsSized(members[i].value); }
    case _ =>
  }

  function TextOf(v: Value): (r: seq<Byte>)
    requires Printable(v)
    decreases v, 0
  {
    match v
    case Null => Scanner.NULL
    case Bool(b) => if b then Scanner.TRUE else Scanner.FALSE
    case Num(n) => Decimal.SignedText(IntegerOf(n))
    case String(s) => StringText(s)
    case Array(elements) => [LBRACKET] + ElementsText(elements, true) + [RBRACKET]
    case Object(members) => [LBRACE] + MembersText(members, true) + [RBRACE]
  }

  /** Elements with a comma before each but the first. */
  function ElementsText(vs: seq<Value>, first: bool): seq<Byte>
    requires forall i :: 0 <= i < |vs| ==> Printable(vs[i])
    decreases vs, 1
  {
    if vs == [] then []
    else Separator(first) + TextOf(vs[0]) + ElementsText(vs[1..], false)
  }

  function MembersText(ms: seq<Member>, first: bool): seq<Byte>
    requires forall i :: 0 <= i < |ms| ==> Printable(ms[i].value)
    decreases ms, 1
  {
    if ms == [] then []
    else Separator(first) + StringText(ms[0].name) + [COLON] + TextOf(ms[0].value)
         + MembersText(ms[1..], false)
  }

  //////////////////////////////////////////////////////////////////////////////
  // The writer as a machine over events
  //////////////////////////////////////////////////////////////////////////////

  datatype Level = Level(valueCount: nat, inArray: bool)

  datatype State = State(out: seq<Byte>, levels: seq<Level>, hasRoot: bool)

  /** Prefix: the separator before a value, and the count of values at this level; None where one of
      its assertions fails. */
  function Prefix(w: State, isString: bool): Option<State> {
    if w.levels == [] then
      if w.hasRoot then None else Some(w.(hasRoot := true))
    else
      var n := |w.levels| - 1;
      var top := w.levels[n];
      var separator := if top.valueCount == 0 then []
                       else if top.inArray || top.valueCount % 2 == 0 then [COMMA] else [COLON];
      if !top.inArray && top.valueCount % 2 == 0 && !isString then None
      else Some(w.(out := w.out + separator, levels := w.levels[..n] + [top.(valueCount := top.valueCount + 1)]))
  }

  function Put(w: State, isString: bool, text: seq<Byte>): Option<State> {
    match Prefix(w, isString)
    case None => None
    case Some(p) => Some(p.(out := p.out + text))
  }

  function Open(w: State, level: Level, text: seq<Byte>): Option<State> {
    match Prefix(w, false)
    case None => None
    case Some(p) => Some(p.(out := p.out + text, levels := p.levels + [level]))
  }

  function Close(w: State, inArray: bool, text: seq<Byte>): Option<State> {
    var n := |w.levels| - 1;
    if n >= 0 && w.levels[n].inArray == inArray && (inArray || w.levels[n].valueCount % 2 == 0) then
      Some(w.(out := w.out + text, levels := w.levels[..n]))
    else None
  }

  /** One handler call of Writer. */
  function Write(w: State, event: Event): Option<State> {
    match event
    case Null => Put(w, false, Scanner.NULL)
    case Bool(b) => Put(w, false, if b then Scanner.TRUE else Scanner.FALSE)
    case Int(i) => Put(w, false, Decimal.SignedText(i))
    case Uint(u) => Put(w, false, Decimal.SignedText(u))
    case Int64(i) => Put(w, false, Decimal.SignedText(i))
    case Uint64(u) => Put(w, false, Decimal.SignedText(u))
    case Double(literal) => Put(w, false, literal)
    case String(s) => Put(w, true, StringText(s))
    case Key(s) => Put(w, true, StringText(s))
    case StartObject => Open(w, Level(0, false), [LBRACE])
    case EndObject(_) => Close(w, false, [RBRACE])
    case StartArray => Open(w, Level(0, true), [LBRACKET])
    case EndArray(_) => Close(w, true, [RBRACKET])
  }

  function WriteAll(w: State, events: seq<Event>): Option<State>
    decreases |events|
  {
    if events == [] then Some(w) else
    match Write(w, events[0])
    case None => None
    case Some(s) => WriteAll(s, events[1..])
  }

  lemma {:induction false} WriteAppend(w: State, a: seq<Event>, b: seq<Event>)
    ensures WriteAll(w, a + b) == match WriteAll(w, a) case None => None case Some(s) => WriteAll(s, b)
    decreases |a|
  {
    hide Write;
    if a == [] {
      assert a + b == b;
    } else {
      assert (a + b)[1..] == a[1..] + b;
      match Write(w, a[0])
      case None =>
      case Some(s) => WriteAppend(s, a[1..], b);
    }
  }

  lemma WriteOne(w: State, event: Event)
    ensures WriteAll(w, [event]) == Write(w, event)
  {
    hide Write;
    match Write(w, event)
    case None =>
    case Some(s) => assert WriteAll(s, [event][1..]) == Some(s);
  }

  /** A value may be written here: at the root, in an array, or after a name. */
  predicate Expecting(w: State) {
    if w.levels == [] then !w.hasRoot
    else var top := w.levels[|w.levels| - 1]; top.inArray || top.valueCount % 2 == 1
  }

  /** The state Prefix leads to where a value may be written. */
  function Prefixed(w: State): State
    requires Expecting(w)
  {
    Prefix(w, false).value
  }

  function Appended(w: State, text: seq<Byte>): State {
    w.(out := w.out + text)
  }

  /** The events of a tree write its text, with the separator its place calls for. */
  lemma {:induction false} WritesValue(w: State, v: Value)
    requires Printable(v) && Expecting(w)
    ensures Sized(v) && WriteAll(w, EventsOf(v, AcceptNumber)) == Some(Appended(Prefixed(w), TextOf(v)))
    decreases v, 0
  {
    hide WriteAll;
    PrintableIsSized(v);
    match v
    case Array(elements) => WritesArray(w, elements);
    case Object(members) => WritesObject(w, members);
    case Num(n) =>
      AcceptsInteger(n);
      WriteOne(w, AcceptNumber(n));
    case _ =>
      WriteOne(w, EventsOf(v, AcceptNumber)[0]);
  }

  lemma WritesArray(w: State, elements: seq<Value>)
    requires Printable(Array(elements)) && Expecting(w)
    ensures Sized(Array(elements))
    ensures WriteAll(w, EventsOf(Array(elements), AcceptNumber)) == Some(Appended(Prefixed(w), TextOf(Array(elements))))
    decreases elements, 2
  {
    hide WriteAll, Appended, Counted, Close, Prefix, ElementEvents, ElementsText;
    PrintableIsSized(Array(elements));
    Opens(w, Level(0, true), [LBRACKET]);
    var begun := Open(w, Level(0, true), [LBRACKET]).value;
    WritesElements(begun, elements);
    WriteBracketed(w, StartArray, ElementEvents(elements, AcceptNumber), Events.EndArray(|elements|));
    Closes(w, true, |elements|, [LBRACKET], ElementsText(elements, true), [RBRACKET]);
  }

  lemma WritesObject(w: State, members: seq<Member>)
    requires Printable(Object(members)) && Expecting(w)
    ensures Sized(Object(members))
    ensures WriteAll(w, EventsOf(Object(members), AcceptNumber)) == Some(Appended(Prefixed(w), TextOf(Object(members))))
    decreases members, 2
  {
    hide WriteAll, Appended, Counted, Close, Prefix, MemberEvents, MembersText;
    PrintableIsSized(Object(members));
    Opens(w, Level(0, false), [LBRACE]);
    var begun := Open(w, Level(0, false), [LBRACE]).value;
    WritesMembers(begun, members);
    WriteBracketed(w, StartObject, MemberEvents(members, AcceptNumber), Events.EndObject(|members|));
    Closes(w, false, 2 * |members|, [LBRACE], MembersText(members, true), [RBRACE]);
  }

  lemma Opens(w: State, level: Level, text: seq<Byte>)
    requires Expecting(w)
    ensures Open(w, level, text).Some?
    ensures var begun := Open(w, level, text).value; begun.levels != [] && begun.levels[|begun.levels| - 1] == level
  {
  }

  /** A level that is opened, filled and closed leaves the outer levels as Prefix left them. */
  lemma Closes(w: State, inArray: bool, count: nat, begin: seq<Byte>, text: seq<Byte>, end: seq<Byte>)
    requires Expecting(w) && (inArray || count % 2 == 0)
    ensures var begun := Open(w, Level(0, inArray), begin).value;
            Close(Appended(Counted(begun, count), text), inArray, end) == Some(Appended(Prefixed(w), begin + text + end))
  {
    var begun := Open(w, Level(0, inArray), begin).value;
    var n := |begun.levels| - 1;
    assert begun.levels[..n] == Prefixed(w).levels;
    assert Counted(begun, count).levels[..n] == begun.levels[..n];
    assert Prefixed(w).out + begin + text + end == Prefixed(w).out + (begin + text + end);
  }

  /** The event of an integer carries the integer. */
  lemma AcceptsInteger(n: Number)
    requires n.Integer? && -TWO63 <= IntegerOf(n) < TWO64 && n == Exactly(IntegerOf(n))
    ensures forall w :: Write(w, AcceptNumber(n)) == Put(w, false, Decimal.SignedText(IntegerOf(n)))
  {
    LowHalf(n);
    hide IntegerOf, Exactly, AcceptNumber, Put, Decimal.SignedText;
  }

  lemma LowHalf(n: Number)
    requires n.Integer? && -TWO63 <= IntegerOf(n) < TWO64 && n == Exactly(IntegerOf(n))
    ensures var x := IntegerOf(n); AcceptNumber(n) in {Int(x), Uint(x), Int64(x), Uint64(x)}
  {
    var x := IntegerOf(n);
    if n.isInt && x < 0 {
      Decimal.DivUnique(n.bits, TWO32, TWO32 - 1, x + TWO32);
    } else if n.isInt || n.isUint {
      Decimal.DivUnique(n.bits, TWO32, 0, x);
    }
  }

  lemma WriteBracketed(w: State, begin: Event, inner: seq<Event>, end: Event)
    requires Write(w, begin).Some?
    ensures WriteAll(w, [begin] + inner + [end])
         == match WriteAll(Write(w, begin).value, inner) case None => None case Some(s) => Write(s, end)
  {
    hide Write;
    WriteOne(w, begin);
    WriteAppend(w, [begin], inner);
    WriteAppend(w, [begin] + inner, [end]);
    if WriteAll(w, [begin] + inner).Some? {
      WriteOne(WriteAll(w, [begin] + inner).value, end);
    }
  }

  /** The innermost level, having seen `more` values more. */
  function Counted(w: State, more: nat): State
    requires w.levels != []
  {
    var n := |w.levels| - 1;
    var top := w.levels[n];
    w.(levels := w.levels[..n] + [top.(valueCount := top.valueCount + more)])
  }

  /** Whether nothing has been written at the innermost level. */
  predicate AtFirst(w: State)
    requires w.levels != []
  {
    w.levels[|w.levels| - 1].valueCount == 0
  }

  function Separator(first: bool): seq<Byte> {
    if first then [] else [COMMA]
  }

  lemma {:induction false} WritesElements(w: State, vs: seq<Value>)
    requires w.levels != [] && w.levels[|w.levels| - 1].inArray
    requires forall i :: 0 <= i < |vs| ==> Printable(vs[i])
    ensures forall i :: 0 <= i < |vs| ==> Sized(vs[i])
    ensures WriteAll(w, ElementEvents(vs, AcceptNumber)) == Some(Appended(Counted(w, |vs|), ElementsText(vs, AtFirst(w))))
    decreases vs, 1
  {
    hide EventsOf, Printable, TextOf, Sized;
    if vs == [] {
      assert w == Appended(Counted(w, 0), []);
    } else {
      WritesValue(w, vs[0]);
      var next := Appended(Prefixed(w), TextOf(vs[0]));
      ElementCounted(w, TextOf(vs[0]), |vs| - 1, ElementsText(vs[1..], false));
      hide Appended, Counted, WriteAll, AtFirst;
      WritesElements(next, vs[1..]);
      WriteAppend(w, EventsOf(vs[0], AcceptNumber), ElementEvents(vs[1..], AcceptNumber));
    }
  }

  lemma ElementCounted(w: State, text: seq<Byte>, more: nat, rest: seq<Byte>)
    requires w.levels != [] && w.levels[|w.levels| - 1].inArray
    ensures var next := Appended(Prefixed(w), text);
            && next.levels != [] && next.levels[|next.levels| - 1].inArray && !AtFirst(next)
            && Appended(Counted(next, more), rest) == Appended(Counted(w, more + 1), Separator(AtFirst(w)) + text + rest)
  {
    var n := |w.levels| - 1;
    var next := Appended(Prefixed(w), text);
    assert next.levels[..n] == w.levels[..n];
    var separator := Separator(AtFirst(w));
    assert w.out + separator + text + rest == w.out + (separator + text + rest);
  }

  lemma {:induction false} WritesMembers(w: State, ms: seq<Member>)
    requires w.levels != [] && !w.levels[|w.levels| - 1].inArray && w.levels[|w.levels| - 1].valueCount % 2 == 0
    requires forall i :: 0 <= i < |ms| ==> Printable(ms[i].value)
    ensures forall i :: 0 <= i < |ms| ==> Sized(ms[i].value)
    ensures WriteAll(w, MemberEvents(ms, AcceptNumber)) == Some(Appended(Counted(w, 2 * |ms|), MembersText(ms, AtFirst(w))))
    decreases ms, 1
  {
    hide EventsOf, Printable, TextOf, Sized, StringText, Put, Prefix, Write;
    if ms == [] {
      assert w == Appended(Counted(w, 0), []);
    } else {
      forall i | 0 <= i < |ms| ensures Sized(ms[i].value) { PrintableIsSized(ms[i].value); }
      var name, text := StringText(ms[0].name), TextOf(ms[0].value);
      MemberCounted(w, name, text, 2 * |ms| - 2, MembersText(ms[1..], false));
      hide Appended, Counted, WriteAll, AtFirst;
      WritesMember(w, ms[0]);
      WritesMembers(Appended(Prefixed(Put(w, true, name).value), text), ms[1..]);
      WriteAppend(w, [Key(ms[0].name)] + EventsOf(ms[0].value, AcceptNumber), MemberEvents(ms[1..], AcceptNumber));
    }
  }

  lemma WritesMember(w: State, m: Member)
    requires Printable(m.value) && Put(w, true, StringText(m.name)).Some? && Expecting(Put(w, true, StringText(m.name)).value)
    ensures Sized(m.value)
    ensures WriteAll(w, [Key(m.name)] + EventsOf(m.value, AcceptNumber))
         == Some(Appended(Prefixed(Put(w, true, StringText(m.name)).value), TextOf(m.value)))
    decreases m, 1
  {
    hide WriteAll, Put, EventsOf, Appended, Prefixed;
    PrintableIsSized(m.value);
    WriteOne(w, Key(m.name));
    WritesValue(Put(w, true, StringText(m.name)).value, m.value);
    WriteAppend(w, [Key(m.name)], EventsOf(m.value, AcceptNumber));
  }

  lemma MemberCounted(w: State, name: seq<Byte>, text: seq<Byte>, more: nat, rest: seq<Byte>)
    requires w.levels != [] && !w.levels[|w.levels| - 1].inArray && w.levels[|w.levels| - 1].valueCount % 2 == 0
    ensures Put(w, true, name).Some? && Expecting(Put(w, true, name).value)
    ensures var next := Appended(Prefixed(Put(w, true, name).value), text);
            && next.levels != [] && !next.levels[|next.levels| - 1].inArray && next.levels[|next.levels| - 1].valueCount % 2 == 0
            && !AtFirst(next)
            && Appended(Counted(next, more), rest)
            == Appended(Counted(w, more + 2), Separator(AtFirst(w)) + name + [COLON] + text + rest)
  {
    var n := |w.levels| - 1;
    var named := Put(w, true, name).value;
    var next := Appended(Prefixed(named), text);
    assert named.levels[..n] == w.levels[..n];
    assert next.levels[..n] == w.levels[..n];
    var separator := Separator(AtFirst(w));
    assert w.out + separator + name + [COLON] + text + rest == w.out + (separator + name + [COLON] + text + rest);
  }
}
