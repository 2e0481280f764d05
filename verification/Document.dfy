/**
 GenericDocument: the handler that builds a tree on a stack, and ParseStream, which drives it with
 the events of a reader.
 */
module Document {
  import opened Ascii
  import opened Events
  import opened Scanner
  import opened Descent
  import opened Tree
  import Reader

  //////////////////////////////////////////////////////////////////////////////
  // What the reader sends is always one whole value
  //////////////////////////////////////////////////////////////////////////////

  /** The events sent so far leave this stack. */
  predicate Leaves(sent: seq<Event>, stack: seq<Value>) {
    Build([], sent) == Some(stack)
  }

  /** A parse that is done leaves this stack; one that fails has sent nothing the handler asserts against. */
  predicate Built(r: Outcome, stack: seq<Value>) {
    if r.Done? then Leaves(r.events, stack) else Build([], r.events).Some?
  }

  lemma LeavesOneMore(sent: seq<Event>, stack: seq<Value>, event: Event)
    requires Leaves(sent, stack)
    ensures Build([], sent + [event]) == Handle(stack, event)
  {
    assert (sent + [event])[..|sent|] == sent;
  }

  lemma NumberInRange(src: seq<Byte>, p: nat, cfg: Config)
    requires p <= |src|
    ensures var r := Scanner.Number(src, p, cfg); r.Ok? ==> InRange(r.value)
  {
    hide IntEnd, FracEnd, ExpEnd;
  }

  /** The event of a scalar puts one value on the stack. */
  lemma ScalarHandled(src: seq<Byte>, p: nat, cfg: Config, stack: seq<Value>) returns (v: Value)
    requires p <= |src|
    ensures var r := Scalar(src, p, cfg); r.Ok? ==> Handle(stack, r.value) == Some(stack + [v])
  {
    hide Name, StringAt, Handle, Scanner.Number;
    var r := Scalar(src, p, cfg);
    v := Value.Null;
    if r.Ok? {
      NameEvent(src, p + 1, NULL[1..], Events.Null);
      NameEvent(src, p + 1, TRUE[1..], Events.Bool(true));
      NameEvent(src, p + 1, FALSE[1..], Events.Bool(false));
      NumberInRange(src, p, cfg);
      v := SmallEvent(r.value, stack);
    }
  }

  /** Reading a name yields the event of the name. */
  lemma {:induction false} NameEvent(src: seq<Byte>, p: nat, rest: seq<Byte>, event: Event)
    requires 0 !in rest
    ensures p <= |src| && Name(src, p, rest, event).Ok? ==> Name(src, p, rest, event).value == event
    decreases |rest|
  {
    if p <= |src| && rest != [] && Peek(src, p) == rest[0] {
      NameEvent(src, p + 1, rest[1..], event);
    }
  }

  predicate InRange(event: Event) {
    match event
    case Int(i) => -TWO31 <= i < TWO31
    case Uint(u) => 0 <= u < TWO32
    case Int64(i) => -TWO63 <= i < TWO63
    case Uint64(u) => 0 <= u < TWO64
    case Null | Bool(_) | Double(_) | String(_) => true
    case _ => false
  }

  lemma SmallEvent(event: Event, stack: seq<Value>) returns (v: Value)
    requires InRange(event)
    ensures Handle(stack, event) == Some(stack + [v])
  {
    var after := Handle(stack, event).value;
    v := after[|stack|];
  }

  /** A parsed value leaves exactly one more value on the stack. */
  lemma ValueBuilds(src: seq<Byte>, p: nat, cfg: Config, sent: seq<Event>, stack: seq<Value>) returns (v: Value)
    requires p <= |src| < TWO32 && Leaves(sent, stack)
    ensures Built(ParseValue(src, p, cfg, sent), stack + [v])
    decreases |src| - p, 1
  {
    hide Handle, Scalar, Members, Elements, Skip;
    if Peek(src, p) == LBRACE {
      v := ObjectBuilds(src, p, cfg, sent, stack);
    } else if Peek(src, p) == LBRACKET {
      v := ArrayBuilds(src, p, cfg, sent, stack);
    } else {
      v := ScalarHandled(src, p, cfg, stack);
      var r := Scalar(src, p, cfg);
      if r.Ok? {
        LeavesOneMore(sent, stack, r.value);
      }
    }
  }

  lemma ObjectBuilds(src: seq<Byte>, p: nat, cfg: Config, sent: seq<Event>, stack: seq<Value>) returns (v: Value)
    requires p < |src| < TWO32 && Leaves(sent, stack)
    ensures Built(ParseObject(src, p, cfg, sent), stack + [v])
    decreases |src| - p, 0
  {
    hide Members, Skip, Build;
    v := Object([]);
    LeavesOneMore(sent, stack, StartObject);
    var sent := sent + [StartObject];
    var at := Skip(src, p + 1, cfg.comments);
    if at.Ok? {
      assert stack + [v] == stack + [Object([])] + Flat([]);
      if Peek(src, at.pos) == RBRACE {
        HandlesEndObject(stack, []);
        LeavesOneMore(sent, stack + [v], EndObject(0));
      } else {
        v := MembersBuild(src, at.pos, cfg, 0, sent, stack, []);
      }
    }
  }

  /** The stack while an object is being read: `ms` are its members so far. */
  function Reading(stack: seq<Value>, ms: seq<Member>): seq<Value> {
    stack + [Object([])] + Flat(ms)
  }

  lemma MembersBuild(src: seq<Byte>, p: nat, cfg: Config, count: Size, sent: seq<Event>, stack: seq<Value>, ms: seq<Member>)
      returns (v: Value)
    requires |ms| == count <= p <= |src| < TWO32 && Leaves(sent, Reading(stack, ms))
    ensures Built(Members(src, p, cfg, count, sent), stack + [v])
    decreases |src| - p, 4
  {
    hide Skip, Build, StringAt, ParseValue, AfterMember, Reading;
    v := Value.Null;
    if Peek(src, p) == QUOTE {
      var name := StringAt(src, p, cfg);
      if name.Ok? {
        LeavesOneMore(sent, Reading(stack, ms), Key(name.value));
        var sent := sent + [Key(name.value)];
        var named := Reading(stack, ms) + [Value.String(name.value)];
        var colon := Skip(src, name.pos, cfg.comments);
        if colon.Ok? && Peek(src, colon.pos) == COLON {
          var at := Skip(src, colon.pos + 1, cfg.comments);
          if at.Ok? {
            var value := ValueBuilds(src, at.pos, cfg, sent, named);
            var m := Member(name.value, value);
            ReadingMore(stack, ms, m);
            v := AfterMemberBuilds(src, p, ParseValue(src, at.pos, cfg, sent), cfg, Inc(count), stack, ms + [m]);
          }
        }
      }
    }
  }

  lemma ReadingMore(stack: seq<Value>, ms: seq<Member>, m: Member)
    ensures Reading(stack, ms + [m]) == Reading(stack, ms) + [Value.String(m.name)] + [m.value]
  {
    FlatAppend(ms, m);
  }

  lemma AfterMemberBuilds(src: seq<Byte>, start: nat, r: Outcome, cfg: Config, count: Size, stack: seq<Value>, ms: seq<Member>)
      returns (v: Value)
    requires start < |src| < TWO32 && Advances(src, start, r) && |ms| == count <= start + 1
    requires Built(r, Reading(stack, ms))
    ensures Built(AfterMember(src, start, r, cfg, count), stack + [v])
    decreases |src| - start, 2
  {
    hide Skip, Build, Members;
    v := Object(ms);
    if r.Done? {
      HandlesEndObject(stack, ms);
      LeavesOneMore(r.events, Reading(stack, ms), EndObject(count));
      hide Handle, Reading;
      var at := Skip(src, r.pos, cfg.comments);
      if at.Ok? && Peek(src, at.pos) == COMMA {
        var next := Skip(src, at.pos + 1, cfg.comments);
        if next.Ok? && !(cfg.trailingCommas && Peek(src, next.pos) == RBRACE) {
          v := MembersBuild(src, next.pos, cfg, count, r.events, stack, ms);
        }
      }
    }
  }

  lemma ArrayBuilds(src: seq<Byte>, p: nat, cfg: Config, sent: seq<Event>, stack: seq<Value>) returns (v: Value)
    requires p < |src| < TWO32 && Leaves(sent, stack)
    ensures Built(ParseArray(src, p, cfg, sent), stack + [v])
    decreases |src| - p, 0
  {
    hide Elements, Skip, Build;
    v := Array([]);
    LeavesOneMore(sent, stack, StartArray);
    var sent := sent + [StartArray];
    var at := Skip(src, p + 1, cfg.comments);
    if at.Ok? {
      assert stack + [v] == stack + [Array([])] + [];
      if Peek(src, at.pos) == RBRACKET {
        HandlesEndArray(stack, []);
        LeavesOneMore(sent, stack + [v], EndArray(0));
      } else {
        v := ElementsBuild(src, at.pos, cfg, 0, sent, stack, []);
      }
    }
  }

  lemma ElementsBuild(src: seq<Byte>, p: nat, cfg: Config, count: Size, sent: seq<Event>, stack: seq<Value>, vs: seq<Value>)
      returns (v: Value)
    requires |vs| == count <= p <= |src| < TWO32 && Leaves(sent, stack + [Array([])] + vs)
    ensures Built(Elements(src, p, cfg, count, sent), stack + [v])
    decreases |src| - p, 4
  {
    hide Skip, Build, ParseValue;
    v := Value.Null;
    var value := ValueBuilds(src, p, cfg, sent, stack + [Array([])] + vs);
    if ParseValue(src, p, cfg, sent).Fail? {
      return;
    }
    hide AfterElement;
    assert stack + [Array([])] + (vs + [value]) == stack + [Array([])] + vs + [value];
    v := AfterElementBuilds(src, p, ParseValue(src, p, cfg, sent), cfg, Inc(count), stack, vs + [value]);
  }

  lemma AfterElementBuilds(src: seq<Byte>, start: nat, r: Outcome, cfg: Config, count: Size, stack: seq<Value>, vs: seq<Value>)
      returns (v: Value)
    requires start <= |src| < TWO32 && Advances(src, start, r) && |vs| == count <= start + 1
    requires Built(r, stack + [Array([])] + vs)
    ensures Built(AfterElement(src, start, r, cfg, count), stack + [v])
    decreases |src| - start, 2
  {
    hide Skip, Build, Elements;
    v := Array(vs);
    if r.Done? {
      HandlesEndArray(stack, vs);
      LeavesOneMore(r.events, stack + [Array([])] + vs, EndArray(count));
      hide Handle;
      var at := Skip(src, r.pos, cfg.comments);
      if at.Ok? && Peek(src, at.pos) == COMMA {
        var next := Skip(src, at.pos + 1, cfg.comments);
        if next.Ok? && !(cfg.trailingCommas && Peek(src, next.pos) == RBRACKET) {
          v := ElementsBuild(src, next.pos, cfg, count, r.events, stack, vs);
        }
      }
    }
  }

  /** A successful parse leaves one and only one root on the stack, and no parse makes an assertion of
      the stack fail. */
  lemma OneRoot(src: seq<Byte>, cfg: Config) returns (root: Value)
    requires |src| < TWO32
    ensures Built(Parse(src, cfg), [root])
  {
    hide Skip, ParseValue, Build;
    root := Value.Null;
    var at := Skip(src, 0, cfg.comments);
    NothingYet();
    if at.Ok? {
      root := ValueBuilds(src, at.pos, cfg, [], []);
      assert [] + [root] == [root];
    }
  }

  lemma NothingYet()
    ensures Leaves([], [])
  {
  }

  //////////////////////////////////////////////////////////////////////////////
  // The class
  //////////////////////////////////////////////////////////////////////////////

  class GenericDocument {
    var root: Value
    var stack: seq<Value>

    constructor ()
      ensures root == Value.Null && stack == []
    {
      root, stack := Value.Null, [];
    }

    /** A handler function other than EndObject and EndArray pushes one value. */
    method Push(v: Value)
      modifies this`stack
      ensures stack == old(stack) + [v]
    {
      stack := stack + [v];
    }

    method Pop(count: nat) returns (top: seq<Value>)
      requires count <= |stack|
      modifies this`stack
      ensures old(stack) == stack + top && |top| == count
    {
      top := stack[|stack| - count..];
      stack := stack[..|stack| - count];
    }

    method EndArray(elementCount: Size)
      requires |stack| >= elementCount + 1
      modifies this`stack
      ensures Some(stack) == Handle(old(stack), Events.EndArray(elementCount))
    {
      ghost var before := stack;
      var elements := Pop(elementCount);
      var n := |stack|;
      assert before[..n] == stack && before[n..] == elements && before[..n - 1] == stack[..n - 1];
      stack := stack[..n - 1] + [Array(elements)];
    }

    method EndObject(memberCount: Size)
      requires |stack| >= 2 * memberCount + 1 && Named(stack[|stack| - 2 * memberCount..])
      modifies this`stack
      ensures Some(stack) == Handle(old(stack), Events.EndObject(memberCount))
    {
      ghost var before := stack;
      var members := Pop(2 * memberCount);
      var n := |stack|;
      assert before[..n] == stack && before[n..] == members && before[..n - 1] == stack[..n - 1];
      stack := stack[..n - 1] + [Object(Paired(members))];
    }

    /** The handler function of an event, its assertions being what `Handle` needs. */
    method Receive(event: Event)
      requires Handle(stack, event).Some?
      modifies this`stack
      ensures Some(stack) == Handle(old(stack), event)
    {
      match event
      case Null => Push(Value.Null);
      case Bool(b) => Push(Value.Bool(b));
      case Int(i) => Push(Num(OfInt(i)));
      case Uint(u) => Push(Num(OfUint(u)));
      case Int64(i) => Push(Num(OfInt64(i)));
      case Uint64(u) => Push(Num(OfUint64(u)));
      case Double(literal) => Push(Num(Real(literal)));
      case String(s) => Push(Value.String(s));
      case Key(s) => Push(Value.String(s));
      case StartObject => Push(Object([]));
      case StartArray => Push(Array([]));
      case EndObject(count) => EndObject(count);
      case EndArray(count) => EndArray(count);
    }

    /** ParseStream: on success the document holds the one root the events built, and no assertion
        of the stack has failed on the way; on failure the document keeps its value, and none has failed
        either. A text of 4 GB or more may only hold arrays and objects whose sizes fit SizeType. */
    method ParseStream(src: seq<Byte>, cfg: Config) returns (result: Outcome)
      requires |src| < TWO32 || exists built :: Built(Parse(src, cfg), [built])
      requires stack == []
      modifies this
      ensures result == Parse(src, cfg) && stack == []
      ensures result.Done? ==> Leaves(result.events, [root])
      ensures result.Fail? ==> root == old(root)
    {
      var reader := new Reader.Reader(src, cfg);
      reader.Parse();
      result := reader.Standing();
      hide Parse, Build;
      ghost var built;
      if |src| < TWO32 {
        built := OneRoot(src, cfg);
      } else {
        built :| Built(Parse(src, cfg), [built]);
      }
      Feed(result.events);
      if result.Done? {
        assert stack == [built];
        root := stack[0];
      }
      stack := [];
    }

    /** The handler calls of a parse, whether it succeeds or fails in the end. */
    method Feed(events: seq<Event>)
      requires stack == [] && Build([], events).Some?
      modifies this`stack
      ensures Leaves(events, stack)
    {
      hide Handle;
      assert events[..|events|] == events;
      for i := 0 to |events|
        invariant Leaves(events[..i], stack)
      {
        PrefixBuilds(events, i + 1);
        assert events[..i + 1][..i] == events[..i];
        Receive(events[i]);
      }
    }
  }

  /** Events that can all be handled can be handled one by one. */
  lemma {:induction false} PrefixBuilds(events: seq<Event>, n: nat)
    requires n <= |events| && Build([], events).Some?
    ensures Build([], events[..n]).Some?
    decreases |events|
  {
    hide Handle;
    if n < |events| {
      PrefixBuilds(events[..|events| - 1], n);
      assert events[..|events| - 1][..n] == events[..n];
    } else {
      assert events[..n] == events;
    }
  }
}
