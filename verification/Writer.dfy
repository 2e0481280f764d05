/** Writer: the output, the level stack and the root flag as mutable state. */
module Writer {
  import opened Ascii
  import opened Events
  import opened Tree
  import opened Printing
  import Scanner
  import Decimal
  import Itoa

  lemma {:induction false} EscapedAppend(s: seq<Byte>, c: Byte)
    ensures Escaped(s + [c]) == Escaped(s) + EscapedByte(c)
  {
    hide EscapedByte;
    if s == [] {
      assert s + [c] == [c];
    } else {
      EscapedAppend(s[1..], c);
      assert (s + [c])[1..] == s[1..] + [c];
    }
  }

  lemma EscapedNothing()
    ensures Escaped([]) == []
  {
  }

  class Writer {
    var out: seq<Byte>
    var levels: seq<Level>
    var hasRoot: bool

    constructor ()
      ensures Now() == State([], [], false)
    {
      out, levels, hasRoot := [], [], false;
    }

    function Now(): State
      reads this
    {
      State(out, levels, hasRoot)
    }

    predicate IsComplete()
      reads this
    {
      hasRoot && levels == []
    }

    method Prefix(isString: bool)
      requires Printing.Prefix(Now(), isString).Some?
      modifies this
      ensures Some(Now()) == Printing.Prefix(old(Now()), isString)
    {
      if levels != [] {
        var n := |levels| - 1;
        var level := levels[n];
        assert out + [] == out;
        if level.valueCount > 0 {
          if level.inArray {
            out := out + [COMMA];
          } else {
            out := out + [if level.valueCount % 2 == 0 then COMMA else COLON];
          }
        }
        levels := levels[..n] + [level.(valueCount := level.valueCount + 1)];
      } else {
        hasRoot := true;
      }
    }

    /** A value that is written in one piece. */
    method Value(isString: bool, text: seq<Byte>)
      requires Put(Now(), isString, text).Some?
      modifies this
      ensures Some(Now()) == Put(old(Now()), isString, text)
    {
      Prefix(isString);
      out := out + text;
    }

    method WriteString(s: seq<Byte>) returns (text: seq<Byte>)
      ensures text == StringText(s)
    {
      hide EscapedByte, Escaped;
      text := [QUOTE];
      EscapedNothing();
      for i := 0 to |s|
        invariant text == [QUOTE] + Escaped(s[..i])
      {
        EscapedAppend(s[..i], s[i]);
        assert s[..i + 1] == s[..i] + [s[i]];
        var escaped := EscapeByte(s[i]);
        text := text + escaped;
      }
      assert s[..|s|] == s;
      text := text + [QUOTE];
    }

    method EscapeByte(c: Byte) returns (text: seq<Byte>)
      ensures text == EscapedByte(c)
    {
      var letter := EscapeLetter(c);
      if letter != 0 {
        text := [BACKSLASH, letter];
        if letter == 117 {
          text := text + [ZERO, ZERO, HexDigit(c / 16), HexDigit(c % 16)];
        }
      } else {
        text := [c];
      }
    }

    method String(s: seq<Byte>)
      requires Put(Now(), true, StringText(s)).Some?
      modifies this
      ensures Some(Now()) == Put(old(Now()), true, StringText(s))
    {
      var text := WriteString(s);
      Value(true, text);
    }

    method Integer(event: Event)
      requires event.Int? || event.Uint? || event.Int64? || event.Uint64?
      requires event.Int? ==> -TWO31 <= event.i < TWO31
      requires event.Uint? ==> 0 <= event.u < TWO32
      requires event.Int64? ==> -TWO63 <= event.i64 < TWO63
      requires event.Uint64? ==> 0 <= event.u64 < TWO64
      requires Write(Now(), event).Some?
      modifies this
      ensures Some(Now()) == Write(old(Now()), event)
    {
      hide Decimal.Text;
      var text;
      match event {
        case Int(i) => text := Itoa.I32toa(i);
        case Uint(u) => text := Itoa.U32toa(u);
        case Int64(i) => text := Itoa.I64toa(i);
        case Uint64(u) => text := Itoa.U64toa(u);
      }
      Value(false, text);
    }

    method Start(level: Level, text: seq<Byte>)
      requires Open(Now(), level, text).Some?
      modifies this
      ensures Some(Now()) == Open(old(Now()), level, text)
    {
      Prefix(false);
      levels := levels + [level];
      out := out + text;
    }

    method End(inArray: bool, text: seq<Byte>)
      requires Close(Now(), inArray, text).Some?
      modifies this
      ensures Some(Now()) == Close(old(Now()), inArray, text)
    {
      levels := levels[..|levels| - 1];
      out := out + text;
    }

    /** Accept: the value sends its events to the writer. */
    method Accept(v: Tree.Value)
      requires Printable(v) && Sized(v) && WriteAll(Now(), EventsOf(v, AcceptNumber)).Some?
      modifies this
      ensures Some(Now()) == WriteAll(old(Now()), EventsOf(v, AcceptNumber))
      decreases v, 0
    {
      hide WriteAll, Put, Open, Close;
      match v {
        case Null =>
          WriteOne(Now(), Events.Null);
          Value(false, Scanner.NULL);
        case Bool(b) =>
          WriteOne(Now(), Events.Bool(b));
          Value(false, if b then Scanner.TRUE else Scanner.FALSE);
        case Num(n) =>
          WriteOne(Now(), AcceptNumber(n));
          Integer(AcceptNumber(n));
        case String(s) =>
          WriteOne(Now(), Events.String(s));
          String(s);
        case Array(elements) =>
          AcceptArray(elements);
        case Object(members) =>
          AcceptObject(members);
      }
    }

    method AcceptArray(elements: seq<Tree.Value>)
      requires Printable(Array(elements)) && Sized(Array(elements))
      requires WriteAll(Now(), EventsOf(Array(elements), AcceptNumber)).Some?
      modifies this
      ensures Some(Now()) == WriteAll(old(Now()), EventsOf(Array(elements), AcceptNumber))
      decreases elements, 1
    {
      hide WriteAll, Open, Close, EventsOf;
      ghost var goal := WriteAll(Now(), EventsOf(Array(elements), AcceptNumber));
      ArrayWritten(Now(), elements);
      Start(Level(0, true), [LBRACKET]);
      assert elements[0..] == elements;
      for i := 0 to |elements|
        invariant WriteAll(Now(), ElementEvents(elements[i..], AcceptNumber) + [EndArray(|elements|)]) == goal
      {
        ElementWritten(Now(), elements[i..], [EndArray(|elements|)]);
        assert elements[i..][1..] == elements[i + 1..];
        Accept(elements[i]);
      }
      LastWritten(Now(), ElementEvents(elements[|elements|..], AcceptNumber), EndArray(|elements|));
      End(true, [RBRACKET]);
    }

    method AcceptObject(members: seq<Member>)
      requires Printable(Object(members)) && Sized(Object(members))
      requires WriteAll(Now(), EventsOf(Object(members), AcceptNumber)).Some?
      modifies this
      ensures Some(Now()) == WriteAll(old(Now()), EventsOf(Object(members), AcceptNumber))
      decreases members, 1
    {
      hide WriteAll, Open, Close, EventsOf, Put;
      ghost var goal := WriteAll(Now(), EventsOf(Object(members), AcceptNumber));
      ObjectWritten(Now(), members);
      Start(Level(0, false), [LBRACE]);
      assert members[0..] == members;
      for i := 0 to |members|
        invariant WriteAll(Now(), MemberEvents(members[i..], AcceptNumber) + [EndObject(|members|)]) == goal
      {
        MemberWritten(Now(), members[i..], [EndObject(|members|)]);
        assert members[i..][1..] == members[i + 1..];
        String(members[i].name);
        Accept(members[i].value);
      }
      LastWritten(Now(), MemberEvents(members[|members|..], AcceptNumber), EndObject(|members|));
      End(false, [RBRACE]);
    }
  }

  // The first event of what is still to be sent, and what follows it

  lemma Begun(w: State, event: Event, rest: seq<Event>)
    ensures WriteAll(w, [event] + rest)
         == match Write(w, event) case None => None case Some(s) => WriteAll(s, rest)
  {
    hide Write;
    assert ([event] + rest)[1..] == rest;
  }

  lemma Reassociate(a: seq<Event>, b: seq<Event>, c: seq<Event>)
    ensures a + b + c == a + (b + c)
  {
  }

  lemma StartsWritten(w: State)
    ensures Write(w, StartArray) == Open(w, Level(0, true), [LBRACKET])
    ensures Write(w, StartObject) == Open(w, Level(0, false), [LBRACE])
  {
  }

  lemma ArrayWritten(w: State, elements: seq<Tree.Value>)
    requires Sized(Array(elements))
    ensures WriteAll(w, EventsOf(Array(elements), AcceptNumber))
         == match Open(w, Level(0, true), [LBRACKET])
            case None => None
            case Some(s) => WriteAll(s, ElementEvents(elements, AcceptNumber) + [EndArray(|elements|)])
  {
    hide Open, ElementEvents, WriteAll, Write, AcceptNumber;
    StartsWritten(w);
    var inner, end := ElementEvents(elements, AcceptNumber), [EndArray(|elements|)];
    Reassociate([StartArray], inner, end);
    Begun(w, StartArray, inner + end);
  }

  lemma ObjectWritten(w: State, members: seq<Member>)
    requires Sized(Object(members))
    ensures WriteAll(w, EventsOf(Object(members), AcceptNumber))
         == match Open(w, Level(0, false), [LBRACE])
            case None => None
            case Some(s) => WriteAll(s, MemberEvents(members, AcceptNumber) + [EndObject(|members|)])
  {
    hide Open, MemberEvents, WriteAll, Write, AcceptNumber;
    StartsWritten(w);
    var inner, end := MemberEvents(members, AcceptNumber), [EndObject(|members|)];
    Reassociate([StartObject], inner, end);
    Begun(w, StartObject, inner + end);
  }

  lemma ElementWritten(w: State, vs: seq<Tree.Value>, rest: seq<Event>)
    requires vs != [] && forall i :: 0 <= i < |vs| ==> Sized(vs[i])
    ensures WriteAll(w, ElementEvents(vs, AcceptNumber) + rest)
         == match WriteAll(w, EventsOf(vs[0], AcceptNumber))
            case None => None
            case Some(s) => WriteAll(s, ElementEvents(vs[1..], AcceptNumber) + rest)
  {
    hide WriteAll, EventsOf;
    var first, others := EventsOf(vs[0], AcceptNumber), ElementEvents(vs[1..], AcceptNumber);
    assert first + others + rest == first + (others + rest);
    WriteAppend(w, first, others + rest);
  }

  lemma MemberWritten(w: State, ms: seq<Member>, rest: seq<Event>)
    requires ms != [] && forall i :: 0 <= i < |ms| ==> Sized(ms[i].value)
    ensures WriteAll(w, MemberEvents(ms, AcceptNumber) + rest)
         == match Put(w, true, StringText(ms[0].name))
            case None => None
            case Some(s) =>
              match WriteAll(s, EventsOf(ms[0].value, AcceptNumber))
              case None => None
              case Some(s) => WriteAll(s, MemberEvents(ms[1..], AcceptNumber) + rest)
  {
    hide WriteAll, EventsOf, Put;
    var key, first, others := [Key(ms[0].name)], EventsOf(ms[0].value, AcceptNumber), MemberEvents(ms[1..], AcceptNumber);
    assert key + first + others + rest == key + (first + (others + rest));
    WriteAppend(w, key, first + (others + rest));
    WriteOne(w, Key(ms[0].name));
    if Put(w, true, StringText(ms[0].name)).Some? {
      WriteAppend(Put(w, true, StringText(ms[0].name)).value, first, others + rest);
    }
  }

  lemma LastWritten(w: State, nothing: seq<Event>, event: Event)
    requires nothing == []
    ensures WriteAll(w, nothing + [event]) == Write(w, event)
  {
    hide Write;
    assert nothing + [event] == [event];
    WriteOne(w, event);
  }
}
