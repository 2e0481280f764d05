/**
 The document tree of document.h: integer values with their type flags, the events a value sends
 to a handler (Accept), and the handler functions that build a value from events.
 */
module Tree {
  import opened Ascii
  import opened Events

  /** A number: a 64-bit pattern and the flags saying which integer types hold the value, or the
      literal of a double. */
  datatype Number =
    | Integer(bits: int, isInt: bool, isUint: bool, isInt64: bool, isUint64: bool)
    | Real(literal: seq<Byte>)

  datatype Value =
    | Null
    | Bool(b: bool)
    | Num(n: Number)
    | String(s: seq<Byte>)
    | Array(elements: seq<Value>)
    | Object(members: seq<Member>)

  datatype Member = Member(name: seq<Byte>, value: Value)

  //////////////////////////////////////////////////////////////////////////////
  // Integers
  //////////////////////////////////////////////////////////////////////////////

  const TWO31 := 0x8000_0000
  const TWO32 := 0x1_0000_0000
  const TWO63 := 0x8000_0000_0000_0000
  const TWO64 := 0x1_0000_0000_0000_0000

  /** The value whose flags say precisely which integer types hold `x`. */
  function Exactly(x: int): Number
    requires -TWO63 <= x < TWO64
  {
    Integer(if x < 0 then x + TWO64 else x, -TWO31 <= x < TWO31, 0 <= x < TWO32, -TWO63 <= x < TWO63, 0 <= x < TWO64)
  }

  function OfInt(i: int): Number
    requires -TWO31 <= i < TWO31
  {
    Integer(i % TWO64, true, i >= 0, true, i >= 0)
  }

  function OfUint(u: int): Number
    requires 0 <= u < TWO32
  {
    Integer(u, u / TWO31 % 2 == 0, true, true, true)
  }

  function OfInt64(i: int): Number
    requires -TWO63 <= i < TWO63
  {
    if i >= 0 then Integer(i, i / TWO31 == 0, i / TWO32 == 0, true, true)
    else Integer(i % TWO64, i >= -TWO31, false, true, false)
  }

  function OfUint64(u: int): Number
    requires 0 <= u < TWO64
  {
    Integer(u, u / TWO31 == 0, u / TWO32 == 0, u / TWO63 == 0, true)
  }

  /** Whatever constructor makes it, an integer gets the flags of exactly the types that hold it. */
  lemma FlagsArePrecise(x: int)
    ensures -TWO31 <= x < TWO31 ==> OfInt(x) == Exactly(x)
    ensures 0 <= x < TWO32 ==> OfUint(x) == Exactly(x)
    ensures -TWO63 <= x < TWO63 ==> OfInt64(x) == Exactly(x)
    ensures 0 <= x < TWO64 ==> OfUint64(x) == Exactly(x)
  {
    if -TWO63 <= x < 0 {
      assert x % TWO64 == x + TWO64;
    }
  }

  /** The number a node holds. */
  function IntegerOf(n: Number): int
    requires n.Integer?
  {
    if n.isUint64 then n.bits else n.bits - TWO64
  }

  /** An integer node any constructor can have made. */
  ghost predicate WellFlagged(n: Number) {
    n.Integer? && (exists x :: -TWO63 <= x < TWO64 && n == Exactly(x))
  }

  lemma IntegerOfExactly(x: int)
    requires -TWO63 <= x < TWO64
    ensures IntegerOf(Exactly(x)) == x
  {
  }

  //////////////////////////////////////////////////////////////////////////////
  // Accept
  //////////////////////////////////////////////////////////////////////////////

  /** The event Accept sends for a number: by its flags, reading the low half for 32-bit types. */
  function AcceptNumber(n: Number): Event {
    match n
    case Real(literal) => Double(literal)
    case Integer(bits, isInt, isUint, isInt64, isUint64) =>
      if isInt then Int(if bits % TWO32 < TWO31 then bits % TWO32 else bits % TWO32 - TWO32)
      else if isUint then Uint(bits % TWO32)
      else if isInt64 then Int64(if bits < TWO63 then bits else bits - TWO64)
      else Uint64(bits)
  }

  /** The events of a value, with `number` choosing the event of each number. */
  function EventsOf(v: Value, number: Number -> Event): (r: seq<Event>)
    requires Sized(v)
    ensures r != []
    decreases v, 0
  {
    match v
    case Null => [Events.Null]
    case Bool(b) => [Events.Bool(b)]
    case Num(n) => [number(n)]
    case String(s) => [Events.String(s)]
    case Array(elements) => [StartArray] + ElementEvents(elements, number) + [EndArray(|elements|)]
    case Object(members) => [StartObject] + MemberEvents(members, number) + [EndObject(|members|)]
  }

  function ElementEvents(vs: seq<Value>, number: Number -> Event): seq<Event>
    requires forall i :: 0 <= i < |vs| ==> Sized(vs[i])
    decreases vs, 1
  {
    if vs == [] then [] else EventsOf(vs[0], number) + ElementEvents(vs[1..], number)
  }

  function MemberEvents(ms: seq<Member>, number: Number -> Event): seq<Event>
    requires forall i :: 0 <= i < |ms| ==> Sized(ms[i].value)
    decreases ms, 1
  {
    if ms == [] then []
    else [Key(ms[0].name)] + EventsOf(ms[0].value, number) + MemberEvents(ms[1..], number)
  }

  /** Sizes fit SizeType, as data_.a.size and data_.o.size must. */
  predicate Sized(v: Value) {
    match v
    case Array(elements) => |elements| < TWO32 && forall i :: 0 <= i < |elements| ==> Sized(elements[i])
    case Object(members) => |members| < TWO32 && forall i :: 0 <= i < |members| ==> Sized(members[i].value)
    case _ => true
  }

  //////////////////////////////////////////////////////////////////////////////
  // The handler of GenericDocument
  //////////////////////////////////////////////////////////////////////////////

  /** The values Pop<Member>(count) reads as names and values. */
  predicate Named(vs: seq<Value>) {
    |vs| % 2 == 0 && forall i :: 0 <= i < |vs| && i % 2 == 0 ==> vs[i].String?
  }

  function Paired(vs: seq<Value>): (ms: seq<Member>)
    requires Named(vs)
    ensures |ms| == |vs| / 2
  {
    seq(|vs| / 2, i requires 0 <= i < |vs| / 2 => Member(vs[2 * i].s, vs[2 * i + 1]))
  }

  /** One handler call on the value stack, None where an assertion of Stack fails. */
  function Handle(stack: seq<Value>, event: Event): Option<seq<Value>> {
    match event
    case Null => Some(stack + [Value.Null])
    case Bool(b) => Some(stack + [Value.Bool(b)])
    case Int(i) => if -TWO31 <= i < TWO31 then Some(stack + [Num(OfInt(i))]) else None
    case Uint(u) => if 0 <= u < TWO32 then Some(stack + [Num(OfUint(u))]) else None
    case Int64(i) => if -TWO63 <= i < TWO63 then Some(stack + [Num(OfInt64(i))]) else None
    case Uint64(u) => if 0 <= u < TWO64 then Some(stack + [Num(OfUint64(u))]) else None
    case Double(literal) => Some(stack + [Num(Real(literal))])
    case String(s) => Some(stack + [Value.String(s)])
    case Key(s) => Some(stack + [Value.String(s)])
    case StartObject => Some(stack + [Object([])])
    case StartArray => Some(stack + [Array([])])
    case EndObject(count) =>
      var base := |stack| - 2 * count;
      if base >= 1 && Named(stack[base..]) then Some(stack[..base - 1] + [Object(Paired(stack[base..]))]) else None
    case EndArray(count) =>
      var base := |stack| - count;
      if base >= 1 then Some(stack[..base - 1] + [Array(stack[base..])]) else None
  }

  function Build(stack: seq<Value>, events: seq<Event>): Option<seq<Value>> {
    if events == [] then Some(stack) else
    match Build(stack, events[..|events| - 1])
    case None => None
    case Some(s) => Handle(s, events[|events| - 1])
  }

  lemma {:induction false} BuildAppend(stack: seq<Value>, a: seq<Event>, b: seq<Event>)
    ensures Build(stack, a + b) == match Build(stack, a) case None => None case Some(s) => Build(s, b)
  {
    if b == [] {
      assert a + b == a;
    } else {
      BuildAppend(stack, a, b[..|b| - 1]);
      assert (a + b)[..|a + b| - 1] == a + b[..|b| - 1];
    }
  }

  lemma BuildOne(stack: seq<Value>, event: Event)
    ensures Build(stack, [event]) == Handle(stack, event)
  {
    assert [event][..0] == [];
  }

  /** The members of an object as they lie on the stack. */
  function Flat(ms: seq<Member>): (vs: seq<Value>)
    ensures |vs| == 2 * |ms|
  {
    if ms == [] then [] else [Value.String(ms[0].name), ms[0].value] + Flat(ms[1..])
  }

  lemma {:induction false} FlatAppend(ms: seq<Member>, m: Member)
    ensures Flat(ms + [m]) == Flat(ms) + [Value.String(m.name), m.value]
  {
    if ms != [] {
      assert (ms + [m])[1..] == ms[1..] + [m];
      FlatAppend(ms[1..], m);
    }
  }

  lemma {:induction false} PairedFlat(ms: seq<Member>)
    ensures Named(Flat(ms)) && Paired(Flat(ms)) == ms
  {
    if ms != [] {
      PairedFlat(ms[1..]);
      NamedCons(ms[0], Flat(ms[1..]));
      assert ms == [ms[0]] + ms[1..];
    }
  }

  lemma NamedCons(m: Member, vs: seq<Value>)
    requires Named(vs)
    ensures var all := [Value.String(m.name), m.value] + vs; Named(all) && Paired(all) == [m] + Paired(vs)
  {
    var all := [Value.String(m.name), m.value] + vs;
    assert forall i :: 2 <= i < |all| ==> all[i] == vs[i - 2];
    assert Named(all);
    assert forall i :: 1 <= i < |all| / 2 ==> Paired(all)[i] == Paired(vs)[i - 1];
  }

  /** `number` chooses events from which the handler makes the same number again. */
  ghost predicate Faithful(v: Value, number: Number -> Event) {
    match v
    case Num(n) => forall stack :: Handle(stack, number(n)) == Some(stack + [v])
    case Array(elements) => forall i :: 0 <= i < |elements| ==> Faithful(elements[i], number)
    case Object(members) => forall i :: 0 <= i < |members| ==> Faithful(members[i].value, number)
    case _ => true
  }

  lemma HandlesEndArray(stack: seq<Value>, elements: seq<Value>)
    requires |elements| < TWO32
    ensures Handle(stack + [Array([])] + elements, EndArray(|elements|)) == Some(stack + [Array(elements)])
  {
    var full := stack + [Array([])] + elements;
    assert full[..|stack|] == stack && full[|stack| + 1..] == elements;
  }

  lemma HandlesEndObject(stack: seq<Value>, members: seq<Member>)
    requires |members| < TWO32
    ensures Handle(stack + [Object([])] + Flat(members), EndObject(|members|)) == Some(stack + [Object(members)])
  {
    hide Flat, Paired, Named;
    var full := stack + [Object([])] + Flat(members);
    assert full[..|stack|] == stack && full[|stack| + 1..] == Flat(members);
    PairedFlat(members);
  }

  /** The events of a value, on any stack, leave that stack and exactly that value. */
  lemma {:induction false} BuildsValue(stack: seq<Value>, v: Value, number: Number -> Event)
    requires Sized(v) && Faithful(v, number)
    ensures Build(stack, EventsOf(v, number)) == Some(stack + [v])
    decreases v, 0
  {
    hide Build;
    match v
    case Array(elements) =>
      BuildsElements(stack + [Array([])], elements, number);
      Bracketed(stack, StartArray, ElementEvents(elements, number), EndArray(|elements|));
      HandlesEndArray(stack, elements);
    case Object(members) =>
      BuildsMembers(stack + [Object([])], members, number);
      Bracketed(stack, StartObject, MemberEvents(members, number), EndObject(|members|));
      HandlesEndObject(stack, members);
    case _ =>
      BuildOne(stack, EventsOf(v, number)[0]);
  }

  /** Running bracketed events one part after another. */
  lemma Bracketed(stack: seq<Value>, begin: Event, inner: seq<Event>, end: Event)
    requires Handle(stack, begin).Some?
    ensures Build(stack, [begin] + inner + [end])
         == match Build(Handle(stack, begin).value, inner) case None => None case Some(s) => Handle(s, end)
  {
    BuildOne(stack, begin);
    BuildAppend(stack, [begin], inner);
    BuildAppend(stack, [begin] + inner, [end]);
    if Build(stack, [begin] + inner).Some? {
      BuildOne(Build(stack, [begin] + inner).value, end);
    }
  }

  lemma {:induction false} BuildsElements(stack: seq<Value>, vs: seq<Value>, number: Number -> Event)
    requires forall i :: 0 <= i < |vs| ==> Sized(vs[i]) && Faithful(vs[i], number)
    ensures Build(stack, ElementEvents(vs, number)) == Some(stack + vs)
    decreases vs, 1
  {
    hide Handle;
    if vs == [] {
      assert stack + vs == stack;
    } else {
      BuildsValue(stack, vs[0], number);
      BuildsElements(stack + [vs[0]], vs[1..], number);
      BuildAppend(stack, EventsOf(vs[0], number), ElementEvents(vs[1..], number));
      assert stack + vs == stack + [vs[0]] + vs[1..];
    }
  }

  lemma {:induction false} BuildsMembers(stack: seq<Value>, ms: seq<Member>, number: Number -> Event)
    requires forall i :: 0 <= i < |ms| ==> Sized(ms[i].value) && Faithful(ms[i].value, number)
    ensures Build(stack, MemberEvents(ms, number)) == Some(stack + Flat(ms))
    decreases ms, 1
  {
    hide Handle, EventsOf, Sized, Faithful;
    if ms == [] {
      assert stack + Flat(ms) == stack;
    } else {
      hide Build;
      var first, rest := [Value.String(ms[0].name), ms[0].value], Flat(ms[1..]);
      BuildsMember(stack, ms[0], number);
      BuildsMembers(stack + first, ms[1..], number);
      BuildAppend(stack, [Key(ms[0].name)] + EventsOf(ms[0].value, number), MemberEvents(ms[1..], number));
      assert stack + (first + rest) == stack + first + rest;
    }
  }

  lemma BuildsMember(stack: seq<Value>, m: Member, number: Number -> Event)
    requires Sized(m.value) && Faithful(m.value, number)
    ensures Build(stack, [Key(m.name)] + EventsOf(m.value, number)) == Some(stack + [Value.String(m.name), m.value])
    decreases m, 1
  {
    hide Build;
    var named := stack + [Value.String(m.name)];
    BuildOne(stack, Key(m.name));
    BuildsValue(named, m.value, number);
    BuildAppend(stack, [Key(m.name)], EventsOf(m.value, number));
    assert named + [m.value] == stack + [Value.String(m.name), m.value];
  }

  //////////////////////////////////////////////////////////////////////////////
  // Members by name
  //////////////////////////////////////////////////////////////////////////////

  /** The position of the first member of a name, or the number of members. */
  function Find(members: seq<Member>, name: seq<Byte>): (i: nat)
    ensures i <= |members|
    ensures i < |members| ==> members[i].name == name
    ensures forall j | 0 <= j < i :: members[j].name != name
  {
    if members == [] || members[0].name == name then 0 else 1 + Find(members[1..], name)
  }

  method FindMember(members: seq<Member>, name: seq<Byte>) returns (i: nat)
    ensures i == Find(members, name)
  {
    i := 0;
    assert members[0..] == members;
    while i < |members| && members[i].name != name
      invariant i <= |members| && Find(members, name) == i + Find(members[i..], name)
    {
      assert members[i..][1..] == members[i + 1..];
      i := i + 1;
    }
  }

  lemma FindIs(members: seq<Member>, name: seq<Byte>, i: nat)
    requires i < |members| && members[i].name == name && forall j | 0 <= j < i :: members[j].name != name
    ensures Find(members, name) == i
  {
    var j := Find(members, name);
    if i < j { assert false; }
  }

  lemma FindUpdated(members: seq<Member>, name: seq<Byte>, v: Value)
    ensures var i := Find(members, name);
            && (i < |members| ==> Find(members[i := Member(name, v)], name) == i)
            && (i == |members| ==> Find(members + [Member(name, v)], name) == i)
  {
    hide Find;
    var i := Find(members, name);
    if i < |members| {
      FindIs(members[i := Member(name, v)], name, i);
    } else {
      FindIs(members + [Member(name, v)], name, i);
    }
  }
}
