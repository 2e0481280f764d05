/**
 The serializer and deserializer that CreateDOM.cpp emits for a class of the object model: what
 saveSerialize and saveDeserialize emit for each member, and what the emitted statements do to an
 object and a JSON tree. Names of classes and enums are resolved to positions in the schema.
 */
module Generator {
  import opened Ascii
  import opened Events
  import opened T = Tree

  //////////////////////////////////////////////////////////////////////////////
  // Schema and objects
  //////////////////////////////////////////////////////////////////////////////

  datatype IntType = U64 | U32 | I64

  datatype Kind =
    | Whole(t: IntType)
    | Truth
    | Chars
    | Enum(e: nat, asInteger: bool)
    | Class(c: nat)

  datatype Presence = Required | Optional | OptionalDeserialize

  /** A member row; `inherited` if it belongs to a base class and is only listed again. */
  datatype Item = Item(name: seq<Byte>, kind: Kind, isArray: bool, presence: Presence, inherited: bool)

  datatype ClassDef = ClassDef(base: Option<nat>, items: seq<Item>)

  /** A row of the emitted enum table. */
  datatype Entry = Entry(key: nat, text: seq<Byte>)

  datatype Schema = Schema(classes: seq<ClassDef>, enums: seq<seq<Entry>>)

  /** The value of a data member. `Default` stands for whatever the constructor of the class puts there. */
  datatype Field =
    | Skipped
    | Absent
    | Default
    | OneWhole(i: int)
    | OneTruth(b: bool)
    | OneText(s: seq<Byte>)
    | OneChoice(key: nat)
    | OneObject(o: Instance)
    | Wholes(ints: seq<int>)
    | Texts(texts: seq<seq<Byte>>)
    | Objects(objects: seq<Instance>)

  datatype Instance = Instance(base: Option<Instance>, fields: seq<Field>)

  //////////////////////////////////////////////////////////////////////////////
  // What is emitted
  //////////////////////////////////////////////////////////////////////////////

  datatype WriteStatement =
    | WriteNothing
    | AddMember(name: seq<Byte>, guarded: bool, what: Kind)
    | AddArray(name: seq<Byte>, element: Kind)

  datatype ReadStatement =
    | ReadNothing
    | FindOne(name: seq<Byte>, required: bool, what: Kind)
    | FindArray(name: seq<Byte>, required: bool, element: Kind)
    | FindDead(name: seq<Byte>, required: bool)

  /** saveSerialize on one member. */
  function EmitWrite(item: Item): WriteStatement {
    if item.inherited then WriteNothing
    else if item.isArray then AddArray(item.name, item.kind)
    else AddMember(item.name, item.presence == Optional, item.kind)
  }

  /** saveDeserialize on one member. An enum that is missing is never an error; the code for an array
      of strings asks the value to be a string and an array at once. Arrays of enums and of truth values
      are left out: what is emitted to read them does not compile. */
  function EmitRead(item: Item): ReadStatement {
    var required := item.presence == Required;
    if item.inherited then ReadNothing
    else
      match item.kind
      case Whole(_) => if item.isArray then FindArray(item.name, required, item.kind) else FindOne(item.name, required, item.kind)
      case Truth => FindOne(item.name, required, item.kind)
      case Chars => if item.isArray then FindDead(item.name, required) else FindOne(item.name, required, item.kind)
      case Enum(_, _) => FindOne(item.name, false, item.kind)
      case Class(_) => if item.isArray then FindArray(item.name, required, item.kind) else FindOne(item.name, required, item.kind)
  }

  //////////////////////////////////////////////////////////////////////////////
  // Enum tables
  //////////////////////////////////////////////////////////////////////////////

  /** stringifyEnum: the table goes into a map, so a later row wins. */
  function Stringify(entries: seq<Entry>, key: nat): Option<seq<Byte>> {
    if entries == [] then None
    else
      var n := |entries| - 1;
      if entries[n].key == key then Some(entries[n].text) else Stringify(entries[..n], key)
  }

  /** unstringifyEnum, likewise. */
  function Unstringify(entries: seq<Entry>, text: seq<Byte>): Option<nat> {
    if entries == [] then None
    else
      var n := |entries| - 1;
      if entries[n].text == text then Some(entries[n].key) else Unstringify(entries[..n], text)
  }

  /** Distinct texts, each a C string. */
  predicate GoodEnum(entries: seq<Entry>) {
    && (forall i, j | 0 <= i < j < |entries| :: entries[i].text != entries[j].text)
    && (forall i | 0 <= i < |entries| :: 0 !in entries[i].text)
  }

  lemma {:induction false} EnumRoundTrip(entries: seq<Entry>, key: nat)
    requires GoodEnum(entries) && Stringify(entries, key).Some?
    ensures Unstringify(entries, Stringify(entries, key).value) == Some(key)
    ensures 0 !in Stringify(entries, key).value
    ensures exists i | 0 <= i < |entries| :: entries[i].text == Stringify(entries, key).value
  {
    var n := |entries| - 1;
    if entries[n].key != key {
      EnumRoundTrip(entries[..n], key);
      var i :| 0 <= i < |entries[..n]| && entries[..n][i].text == Stringify(entries, key).value;
      assert entries[i].text == Stringify(entries, key).value;
    }
  }

  //////////////////////////////////////////////////////////////////////////////
  // The serializer
  //////////////////////////////////////////////////////////////////////////////

  /** What c_str() lets through. */
  function CString(s: seq<Byte>): seq<Byte> {
    if s == [] || s[0] == 0 then [] else [s[0]] + CString(s[1..])
  }

  lemma {:induction false} CStringWhole(s: seq<Byte>)
    requires 0 !in s
    ensures CString(s) == s
  {
    if s != [] {
      CStringWhole(s[1..]);
    }
  }

  function InType(t: IntType, i: int): bool {
    match t
    case U64 => 0 <= i < TWO64
    case U32 => 0 <= i < TWO32
    case I64 => -TWO63 <= i < TWO63
  }

  /** The JSON value made of a C++ integer. */
  function EncodeInt(t: IntType, i: int): Value {
    if !InType(t, i) then Value.Null
    else
      match t
      case U64 => Num(OfUint64(i))
      case U32 => Num(OfUint(i))
      case I64 => Num(OfInt64(i))
  }

  function Encode(schema: Schema, what: Kind, field: Field): Value
    decreases field, 1
  {
    match (what, field)
    case (Whole(t), OneWhole(i)) => EncodeInt(t, i)
    case (Truth, OneTruth(b)) => Value.Bool(b)
    case (Chars, OneText(s)) => Value.String(CString(s))
    case (Enum(e, asInteger), OneChoice(key)) =>
      if asInteger then EncodeInt(U64, key)
      else if e < |schema.enums| && Stringify(schema.enums[e], key).Some? then Value.String(Stringify(schema.enums[e], key).value)
      else Value.Null
    case (Class(c), OneObject(o)) => Object(Write(schema, c, o))
    case _ => Value.Null
  }

  function EncodeAll(schema: Schema, element: Kind, field: Field): seq<Value>
    decreases field, 1
  {
    match (element, field)
    case (Whole(t), Wholes(ints)) => seq(|ints|, i requires 0 <= i < |ints| => EncodeInt(t, ints[i]))
    case (Chars, Texts(texts)) => seq(|texts|, i requires 0 <= i < |texts| => Value.String(CString(texts[i])))
    case (Class(c), Objects(objects)) => EncodeObjects(schema, c, objects)
    case _ => []
  }

  function EncodeObjects(schema: Schema, c: nat, objects: seq<Instance>): (vs: seq<Value>)
    ensures |vs| == |objects|
    decreases objects, 0
  {
    if objects == [] then []
    else [Object(Write(schema, c, objects[0]))] + EncodeObjects(schema, c, objects[1..])
  }

  /** The members one emitted statement adds. */
  function ExecWrite(schema: Schema, statement: WriteStatement, field: Field): seq<Member>
    decreases field, 2
  {
    match statement
    case WriteNothing => []
    case AddMember(name, guarded, what) =>
      if guarded && field == Absent then [] else [Member(name, Encode(schema, what, field))]
    case AddArray(name, element) => [Member(name, Array(EncodeAll(schema, element, field)))]
  }

  function WriteItems(schema: Schema, items: seq<Item>, fields: seq<Field>): seq<Member>
    decreases fields, 0
  {
    if items == [] || fields == [] then []
    else ExecWrite(schema, EmitWrite(items[0]), fields[0]) + WriteItems(schema, items[1..], fields[1..])
  }

  /** serializeTo: the base class first, into the same JSON object. */
  function Write(schema: Schema, c: nat, o: Instance): seq<Member>
    decreases o, 0
  {
    if c >= |schema.classes| then []
    else
      var def := schema.classes[c];
      var base := if def.base.Some? && o.base.Some? then Write(schema, def.base.value, o.base.value) else [];
      base + WriteItems(schema, def.items, o.fields)
  }

  //////////////////////////////////////////////////////////////////////////////
  // The deserializer
  //////////////////////////////////////////////////////////////////////////////

  /** FindMember. */
  function Lookup(members: seq<Member>, name: seq<Byte>): Option<Value> {
    var m := Find(members, name);
    if m < |members| then Some(members[m].value) else None
  }

  /** GetUint64, GetUint or GetInt64 on a number, a string going through stringToInt. */
  function DecodeInt(t: IntType, v: Value, stringToInt: (IntType, seq<Byte>) -> int): Option<int> {
    match v
    case String(s) => Some(stringToInt(t, CString(s)))
    case Num(n) =>
      if n.Real? then None
      else (
        match t
        case U64 => if n.isUint64 then Some(n.bits) else None
        case U32 => if n.isUint then Some(n.bits % TWO32) else None
        case I64 => if n.isInt64 then Some(if n.bits < TWO63 then n.bits else n.bits - TWO64) else None)
    case _ => None
  }

  function DecodeInts(t: IntType, vs: seq<Value>, stringToInt: (IntType, seq<Byte>) -> int): Option<seq<int>> {
    if vs == [] then Some([])
    else
      match (DecodeInt(t, vs[0], stringToInt), DecodeInts(t, vs[1..], stringToInt))
      case (Some(i), Some(rest)) => Some([i] + rest)
      case _ => None
  }

  function Decode(schema: Schema, what: Kind, v: Value, stringToInt: (IntType, seq<Byte>) -> int): Option<Field>
    decreases v, |schema.classes| + 1, 0
  {
    match what
    case Whole(t) =>
      (match DecodeInt(t, v, stringToInt)
       case Some(i) => Some(OneWhole(i))
       case None => None)
    case Truth => if v.Bool? then Some(OneTruth(v.b)) else None
    case Chars => if v.String? then Some(OneText(CString(v.s))) else None
    case Enum(e, asInteger) =>
      if v.String? then
        if e < |schema.enums| && Unstringify(schema.enums[e], CString(v.s)).Some?
        then Some(OneChoice(Unstringify(schema.enums[e], CString(v.s)).value)) else None
      else if asInteger && v.Num? && v.n.Integer? && v.n.isUint64 && v.n.bits >= 0 then Some(OneChoice(v.n.bits))
      else None
    case Class(c) =>
      if c >= |schema.classes| then None
      else
        match Read(schema, c, v, Blank(schema, c), stringToInt)
        case Some(o) => Some(OneObject(o))
        case None => None
  }

  /** Objects read one by one and pushed behind those already there. */
  function DecodeObjects(schema: Schema, c: nat, vs: seq<Value>, stringToInt: (IntType, seq<Byte>) -> int): Option<seq<Instance>>
    decreases vs, |schema.classes| + 1, 0
  {
    if vs == [] then Some([])
    else if c >= |schema.classes| then None
    else
      match (Read(schema, c, vs[0], Blank(schema, c), stringToInt), DecodeObjects(schema, c, vs[1..], stringToInt))
      case (Some(o), Some(rest)) => Some([o] + rest)
      case _ => None
  }

  /** What one emitted statement makes of a data member, None where it returns false. */
  function ExecRead(schema: Schema, statement: ReadStatement, d: Value, field: Field,
                    stringToInt: (IntType, seq<Byte>) -> int): Option<Field>
    requires d.Object?
    decreases d, 0, 0
  {
    match statement
    case ReadNothing => Some(field)
    case FindOne(name, required, what) =>
      var m := Find(d.members, name);
      if m == |d.members| then if required then None else Some(field)
      else Decode(schema, what, d.members[m].value, stringToInt)
    case FindArray(name, required, element) =>
      var m := Find(d.members, name);
      if m == |d.members| then if required then None else Some(field)
      else
        var v := d.members[m].value;
        if !v.Array? then None
        else
          (match element
           case Whole(t) =>
             (match DecodeInts(t, v.elements, stringToInt)
              case Some(ints) => Some(Wholes(ints))
              case None => None)
           case Class(c) =>
             (match DecodeObjects(schema, c, v.elements, stringToInt)
              case Some(objects) => Some(Objects((if field.Objects? then field.objects else []) + objects))
              case None => None)
           case _ => None)
    case FindDead(name, required) =>
      if Find(d.members, name) == |d.members| && !required then Some(field) else None
  }

  function ReadItems(schema: Schema, items: seq<Item>, d: Value, fields: seq<Field>,
                     stringToInt: (IntType, seq<Byte>) -> int): Option<seq<Field>>
    requires d.Object?
    decreases d, 0, |items| + 1
  {
    if items == [] || fields == [] then Some([])
    else
      match (ExecRead(schema, EmitRead(items[0]), d, fields[0], stringToInt), ReadItems(schema, items[1..], d, fields[1..], stringToInt))
      case (Some(field), Some(rest)) => Some([field] + rest)
      case _ => None
  }

  /** deserializeFrom: the base class first, from the same JSON object. */
  function Read(schema: Schema, c: nat, d: Value, r: Instance, stringToInt: (IntType, seq<Byte>) -> int): Option<Instance>
    requires c < |schema.classes|
    decreases d, c + 1, 0
  {
    if !d.Object? then None
    else
      var def := schema.classes[c];
      match (ReadBase(schema, c, d, r, stringToInt), ReadItems(schema, def.items, d, r.fields, stringToInt))
      case (Some(base), Some(fields)) => Some(Instance(base, fields))
      case _ => None
  }

  function ReadBase(schema: Schema, c: nat, d: Value, r: Instance, stringToInt: (IntType, seq<Byte>) -> int): Option<Option<Instance>>
    requires c < |schema.classes|
    decreases d, c, 1
  {
    var def := schema.classes[c];
    if def.base.None? || def.base.value >= c || r.base.None? then Some(None)
    else
      match Read(schema, def.base.value, d, r.base.value, stringToInt)
      case Some(base) => Some(Some(base))
      case None => None
  }

  /** A data member as the constructor leaves it. */
  function BlankField(item: Item): Field {
    if item.inherited then Skipped
    else if item.isArray then
      match item.kind
      case Whole(_) => Wholes([])
      case Chars => Texts([])
      case _ => Objects([])
    else if item.presence == Optional then Absent
    else Default
  }

  /** A new object of a class. */
  function Blank(schema: Schema, c: nat): Instance
    requires c < |schema.classes|
    decreases c
  {
    var def := schema.classes[c];
    Instance(if def.base.None? || def.base.value >= c then None else Some(Blank(schema, def.base.value)),
             seq(|def.items|, i requires 0 <= i < |def.items| => BlankField(def.items[i])))
  }
}
