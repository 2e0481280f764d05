/** The emitted deserializer undoes the emitted serializer. */
module Generated {
  import opened Ascii
  import opened Events
  import opened T = Tree
  import opened Generator
  import Printing
  import RoundTrip
  import Document
  import Descent

  type Atoi = (IntType, seq<Byte>) -> int

  //////////////////////////////////////////////////////////////////////////////
  // Schemas and objects that can be generated
  //////////////////////////////////////////////////////////////////////////////

  /** The kinds the generator supports on both sides; arrays cannot be std::optional. */
  predicate GoodItem(schema: Schema, item: Item) {
    || item.inherited
    || ( && (item.kind.Class? ==> item.kind.c < |schema.classes|)
         && (item.kind.Enum? ==> item.kind.e < |schema.enums|)
         && (item.isArray ==> !item.kind.Enum? && !item.kind.Truth?)
         && (item.isArray ==> item.presence != Optional))
  }

  /** The names of the members a class declares itself. */
  function OwnNames(items: seq<Item>): seq<seq<Byte>> {
    if items == [] then []
    else (if items[0].inherited then [] else [items[0].name]) + OwnNames(items[1..])
  }

  /** The names along the inheritance chain. */
  function Names(schema: Schema, c: nat): seq<seq<Byte>>
    requires c < |schema.classes|
    decreases c
  {
    var def := schema.classes[c];
    (if def.base.None? || def.base.value >= c then [] else Names(schema, def.base.value)) + OwnNames(def.items)
  }

  predicate Distinct(names: seq<seq<Byte>>) {
    forall i, j | 0 <= i < j < |names| :: names[i] != names[j]
  }

  predicate GoodClass(schema: Schema, c: nat)
    requires c < |schema.classes|
  {
    var def := schema.classes[c];
    && (def.base.Some? ==> def.base.value < c)
    && (forall i | 0 <= i < |def.items| :: GoodItem(schema, def.items[i]))
    && Distinct(Names(schema, c))
  }

  /** Inheritance is acyclic, names are distinct along it, and so are the texts of each enum. */
  predicate GoodSchema(schema: Schema) {
    && (forall c | 0 <= c < |schema.classes| :: GoodClass(schema, c))
    && (forall e | 0 <= e < |schema.enums| :: GoodEnum(schema.enums[e]))
  }

  /** The value has the type of the member; strings contain no NUL. */
  predicate FitsOne(schema: Schema, kind: Kind, field: Field)
    decreases field, 1
  {
    match (kind, field)
    case (Whole(t), OneWhole(i)) => InType(t, i)
    case (Truth, OneTruth(_)) => true
    case (Chars, OneText(s)) => 0 !in s
    case (Enum(e, _), OneChoice(key)) => key < TWO64 && e < |schema.enums| && Stringify(schema.enums[e], key).Some?
    case (Class(c), OneObject(o)) => Fits(schema, c, o)
    case _ => false
  }

  predicate FitsMany(schema: Schema, kind: Kind, field: Field)
    decreases field, 1
  {
    match (kind, field)
    case (Whole(t), Wholes(ints)) => forall i | 0 <= i < |ints| :: InType(t, ints[i])
    case (Chars, Texts(_)) => true
    case (Class(c), Objects(objects)) => forall i | 0 <= i < |objects| :: Fits(schema, c, objects[i])
    case _ => false
  }

  predicate FitsField(schema: Schema, item: Item, field: Field)
    decreases field, 2
  {
    if item.inherited then field == Skipped
    else if item.isArray then FitsMany(schema, item.kind, field)
    else FitsOne(schema, item.kind, field) || (item.presence == Optional && field == Absent)
  }

  /** An object of the class. */
  predicate Fits(schema: Schema, c: nat, o: Instance)
    decreases o, 0
  {
    c < |schema.classes| &&
    var def := schema.classes[c];
    && (if def.base.None? then o.base.None? else o.base.Some? && Fits(schema, def.base.value, o.base.value))
    && |o.fields| == |def.items|
    && forall i | 0 <= i < |def.items| :: FitsField(schema, def.items[i], o.fields[i])
  }

  /** No array of strings is in the way. */
  predicate CleanField(schema: Schema, item: Item, field: Field)
    decreases field, 1
  {
    if item.inherited then true
    else
      match item.kind
      case Chars => !item.isArray
      case Class(c) =>
        (match field
         case OneObject(o) => Clean(schema, c, o)
         case Objects(objects) => forall i | 0 <= i < |objects| :: Clean(schema, c, objects[i])
         case _ => true)
      case _ => true
  }

  /** Neither in the object nor in the objects inside it. */
  predicate Clean(schema: Schema, c: nat, o: Instance)
    decreases o, 0
  {
    c < |schema.classes| ==>
      var def := schema.classes[c];
      && (def.base.Some? && o.base.Some? ==> Clean(schema, def.base.value, o.base.value))
      && forall i | 0 <= i < |def.items| && i < |o.fields| :: CleanField(schema, def.items[i], o.fields[i])
  }

  //////////////////////////////////////////////////////////////////////////////
  // Names of the members written
  //////////////////////////////////////////////////////////////////////////////

  lemma {:induction false} LookupAppend(a: seq<Member>, b: seq<Member>, name: seq<Byte>)
    ensures Lookup(a + b, name) == if Lookup(a, name).Some? then Lookup(a, name) else Lookup(b, name)
  {
    hide Find;
    var m, n := Find(a, name), Find(b, name);
    if m < |a| {
      FindIs(a + b, name, m);
    } else if n < |b| {
      FindIs(a + b, name, |a| + n);
    } else {
      assert forall i | 0 <= i < |a + b| :: (a + b)[i].name != name;
    }
  }

  /** All members have names of the list. */
  predicate Named(members: seq<Member>, names: seq<seq<Byte>>) {
    forall i | 0 <= i < |members| :: members[i].name in names
  }

  lemma NotNamed(members: seq<Member>, names: seq<seq<Byte>>, name: seq<Byte>)
    requires Named(members, names) && name !in names
    ensures Lookup(members, name) == None
  {
  }

  lemma {:induction false} ItemsNamed(schema: Schema, items: seq<Item>, fields: seq<Field>)
    ensures Named(WriteItems(schema, items, fields), OwnNames(items))
    decreases |items|
  {
    hide Encode, EncodeAll;
    if items != [] && fields != [] {
      ItemsNamed(schema, items[1..], fields[1..]);
    }
  }

  lemma {:induction false} ObjectNamed(schema: Schema, c: nat, o: Instance)
    requires GoodSchema(schema) && c < |schema.classes|
    ensures Named(Write(schema, c, o), Names(schema, c))
    decreases c
  {
    hide WriteItems, OwnNames, GoodItem, Distinct;
    var def := schema.classes[c];
    assert GoodClass(schema, c);
    ItemsNamed(schema, def.items, o.fields);
    if def.base.Some? && o.base.Some? {
      ObjectNamed(schema, def.base.value, o.base.value);
    }
  }

  //////////////////////////////////////////////////////////////////////////////
  // Values
  //////////////////////////////////////////////////////////////////////////////

  lemma IntBack(t: IntType, i: int, atoi: Atoi)
    requires InType(t, i)
    ensures DecodeInt(t, EncodeInt(t, i), atoi) == Some(i)
  {
  }

  lemma {:induction false} IntsBack(t: IntType, ints: seq<int>, vs: seq<Value>, atoi: Atoi)
    requires |vs| == |ints| && forall i | 0 <= i < |ints| :: InType(t, ints[i]) && vs[i] == EncodeInt(t, ints[i])
    ensures DecodeInts(t, vs, atoi) == Some(ints)
    decreases |ints|
  {
    hide EncodeInt, DecodeInt, InType;
    if ints != [] {
      IntBack(t, ints[0], atoi);
      IntsBack(t, ints[1..], vs[1..], atoi);
      assert ints == [ints[0]] + ints[1..];
    }
  }

  /** A value written is read again, unless an array that cannot be read is inside. */
  lemma {:induction false} OneBack(schema: Schema, kind: Kind, field: Field, atoi: Atoi)
    requires GoodSchema(schema) && FitsOne(schema, kind, field)
    ensures Decode(schema, kind, Encode(schema, kind, field), atoi)
         == if kind.Class? && !Clean(schema, kind.c, field.o) then None else Some(field)
    decreases field, 1
  {
    hide GoodClass, EncodeInt, DecodeInt, InType, Read, Write, Clean, GoodEnum;
    match (kind, field)
    case (Whole(t), OneWhole(i)) => IntBack(t, i, atoi);
    case (Truth, OneTruth(_)) =>
    case (Chars, OneText(text)) => CStringWhole(text);
    case (Enum(e, asInteger), OneChoice(key)) => EnumBack(schema, e, asInteger, key, atoi);
    case (Class(c), OneObject(o)) => ObjectBack(schema, c, o, Object(Write(schema, c, o)), atoi);
  }

  lemma EnumBack(schema: Schema, e: nat, asInteger: bool, key: nat, atoi: Atoi)
    requires e < |schema.enums| && GoodEnum(schema.enums[e]) && key < TWO64 && Stringify(schema.enums[e], key).Some?
    ensures Decode(schema, Enum(e, asInteger), Encode(schema, Enum(e, asInteger), OneChoice(key)), atoi) == Some(OneChoice(key))
  {
    hide GoodEnum;
    EnumRoundTrip(schema.enums[e], key);
    CStringWhole(Stringify(schema.enums[e], key).value);
  }

  lemma {:induction false} ObjectsBack(schema: Schema, c: nat, objects: seq<Instance>, atoi: Atoi)
    requires GoodSchema(schema) && c < |schema.classes| && forall i | 0 <= i < |objects| :: Fits(schema, c, objects[i])
    ensures DecodeObjects(schema, c, EncodeObjects(schema, c, objects), atoi)
         == if forall i | 0 <= i < |objects| :: Clean(schema, c, objects[i]) then Some(objects) else None
    decreases objects, 0
  {
    hide GoodSchema, Read, Write, Clean, Fits;
    if objects != [] {
      ObjectBack(schema, c, objects[0], Object(Write(schema, c, objects[0])), atoi);
      ObjectsBack(schema, c, objects[1..], atoi);
      var vs := EncodeObjects(schema, c, objects);
      assert vs[1..] == EncodeObjects(schema, c, objects[1..]);
      assert objects == [objects[0]] + objects[1..];
      AllClean(schema, c, objects);
    }
  }

  lemma AllClean(schema: Schema, c: nat, objects: seq<Instance>)
    requires objects != []
    ensures (forall i | 0 <= i < |objects| :: Clean(schema, c, objects[i]))
       <==> Clean(schema, c, objects[0]) && forall i | 0 <= i < |objects[1..]| :: Clean(schema, c, objects[1..][i])
  {
    hide Clean;
    if forall i | 0 <= i < |objects[1..]| :: Clean(schema, c, objects[1..][i]) {
      assert forall i | 1 <= i < |objects| :: objects[i] == objects[1..][i - 1];
    }
  }

  //////////////////////////////////////////////////////////////////////////////
  // Members
  //////////////////////////////////////////////////////////////////////////////

  /** One statement reads what the other wrote. */
  lemma {:induction false} ItemBack(schema: Schema, item: Item, field: Field, d: Value, atoi: Atoi)
    requires GoodSchema(schema) && GoodItem(schema, item) && FitsField(schema, item, field) && d.Object?
    requires !item.inherited ==> Lookup(d.members, item.name) == Lookup(ExecWrite(schema, EmitWrite(item), field), item.name)
    ensures ExecRead(schema, EmitRead(item), d, BlankField(item), atoi)
         == if CleanField(schema, item, field) then Some(field) else None
    decreases field, 2
  {
    hide GoodSchema, Encode, Decode, EncodeAll, Clean, Find;
    if !item.inherited {
      if item.isArray {
        OneMember(item.name, Array(EncodeAll(schema, item.kind, field)));
        ArrayBack(schema, item, field, d, atoi);
      } else if item.presence == Optional && field == Absent {
        NoMember(item.name);
      } else {
        OneMember(item.name, Encode(schema, item.kind, field));
        OneBack(schema, item.kind, field, atoi);
      }
    }
  }

  lemma OneMember(name: seq<Byte>, v: Value)
    ensures Lookup([Member(name, v)], name) == Some(v)
  {
  }

  lemma NoMember(name: seq<Byte>)
    ensures Lookup([], name) == None
  {
  }

  lemma {:induction false} ArrayBack(schema: Schema, item: Item, field: Field, d: Value, atoi: Atoi)
    requires GoodSchema(schema) && GoodItem(schema, item) && !item.inherited && item.isArray && FitsField(schema, item, field)
    requires d.Object? && Lookup(d.members, item.name) == Some(Array(EncodeAll(schema, item.kind, field)))
    ensures ExecRead(schema, EmitRead(item), d, BlankField(item), atoi)
         == if CleanField(schema, item, field) then Some(field) else None
    decreases field, 1
  {
    hide GoodSchema, EncodeInt, DecodeInt, Fits, Clean, Read, Write, Find;
    match (item.kind, field)
    case (Whole(t), Wholes(ints)) => IntsBack(t, ints, EncodeAll(schema, item.kind, field), atoi);
    case (Class(c), Objects(objects)) =>
      ObjectsBack(schema, c, objects, atoi);
      assert [] + objects == objects;
    case _ =>
  }

  predicate AllFit(schema: Schema, items: seq<Item>, fields: seq<Field>) {
    |fields| == |items| && forall i | 0 <= i < |items| :: GoodItem(schema, items[i]) && FitsField(schema, items[i], fields[i])
  }

  predicate AllFieldsClean(schema: Schema, items: seq<Item>, fields: seq<Field>) {
    forall i | 0 <= i < |items| && i < |fields| :: CleanField(schema, items[i], fields[i])
  }

  function BlankFields(items: seq<Item>): seq<Field> {
    seq(|items|, i requires 0 <= i < |items| => BlankField(items[i]))
  }

  /** `d` holds under these names what `written` holds. */
  predicate Agrees(d: Value, written: seq<Member>, names: seq<seq<Byte>>) {
    d.Object? && forall name | name in names :: Lookup(d.members, name) == Lookup(written, name)
  }

  lemma {:induction false} ItemsBack(schema: Schema, items: seq<Item>, fields: seq<Field>, d: Value, atoi: Atoi)
    requires GoodSchema(schema) && AllFit(schema, items, fields) && Distinct(OwnNames(items))
    requires Agrees(d, WriteItems(schema, items, fields), OwnNames(items))
    ensures ReadItems(schema, items, d, BlankFields(items), atoi)
         == if AllFieldsClean(schema, items, fields) then Some(fields) else None
    decreases fields, 0
  {
    hide GoodSchema, GoodItem, FitsField, CleanField, ExecRead, ExecWrite, BlankField, EmitRead, EmitWrite, Lookup;
    if items == [] {
      assert fields == [];
    } else {
      FirstItem(schema, items, fields, d);
      ItemBack(schema, items[0], fields[0], d, atoi);
      ItemsBack(schema, items[1..], fields[1..], d, atoi);
      assert BlankFields(items)[1..] == BlankFields(items[1..]);
      assert fields == [fields[0]] + fields[1..];
      assert AllFieldsClean(schema, items, fields) <==>
        CleanField(schema, items[0], fields[0]) && AllFieldsClean(schema, items[1..], fields[1..]) by {
        FirstClean(schema, items, fields);
      }
    }
  }

  lemma FirstClean(schema: Schema, items: seq<Item>, fields: seq<Field>)
    requires items != [] && |fields| == |items|
    ensures AllFieldsClean(schema, items, fields) <==>
      CleanField(schema, items[0], fields[0]) && AllFieldsClean(schema, items[1..], fields[1..])
  {
    hide CleanField;
    if AllFieldsClean(schema, items[1..], fields[1..]) {
      assert forall i | 1 <= i < |items| :: items[i] == items[1..][i - 1] && fields[i] == fields[1..][i - 1];
    }
  }

  /** What `d` holds for the first item and for the others. */
  lemma {:induction false} FirstItem(schema: Schema, items: seq<Item>, fields: seq<Field>, d: Value)
    requires items != [] && |fields| == |items| && Distinct(OwnNames(items))
    requires Agrees(d, WriteItems(schema, items, fields), OwnNames(items))
    ensures !items[0].inherited ==>
      Lookup(d.members, items[0].name) == Lookup(ExecWrite(schema, EmitWrite(items[0]), fields[0]), items[0].name)
    ensures Distinct(OwnNames(items[1..])) && Agrees(d, WriteItems(schema, items[1..], fields[1..]), OwnNames(items[1..]))
  {
    hide Lookup, Encode, EncodeAll;
    var first, rest := ExecWrite(schema, EmitWrite(items[0]), fields[0]), WriteItems(schema, items[1..], fields[1..]);
    var name, names := items[0].name, OwnNames(items[1..]);
    var own := if items[0].inherited then [] else [name];
    assert OwnNames(items) == own + names;
    ApartFrom(own, names);
    ItemsNamed(schema, items[1..], fields[1..]);
    forall n | n in own + names ensures Lookup(first + rest, n) == if n in names then Lookup(rest, n) else Lookup(first, n) {
      LookupAppend(first, rest, n);
      if n in names {
        NotNamed(first, own, n);
      } else {
        NotNamed(rest, names, n);
      }
    }
  }

  lemma ApartFrom(a: seq<seq<Byte>>, b: seq<seq<Byte>>)
    requires Distinct(a + b)
    ensures Distinct(a) && Distinct(b) && forall x | x in a :: x !in b
  {
    assert forall i | 0 <= i < |a| :: a[i] == (a + b)[i];
    assert forall i | 0 <= i < |b| :: b[i] == (a + b)[|a| + i];
  }

  //////////////////////////////////////////////////////////////////////////////
  // Objects
  //////////////////////////////////////////////////////////////////////////////

  /** deserializeFrom on an object that holds what serializeTo wrote rebuilds the object, if and only if
      no array of strings is in it. */
  lemma {:induction false} ObjectBack(schema: Schema, c: nat, o: Instance, d: Value, atoi: Atoi)
    requires GoodSchema(schema) && Fits(schema, c, o) && Agrees(d, Write(schema, c, o), Names(schema, c))
    ensures Read(schema, c, d, Blank(schema, c), atoi) == if Clean(schema, c, o) then Some(o) else None
    decreases o, 0
  {
    hide GoodItem, FitsField, CleanField, ReadItems, WriteItems, OwnNames, Lookup;
    var def := schema.classes[c];
    assert GoodClass(schema, c);
    Parts(schema, c, o, d);
    assert AllFit(schema, def.items, o.fields);
    ItemsBack(schema, def.items, o.fields, d, atoi);
    assert Blank(schema, c).fields == BlankFields(def.items);
    if def.base.Some? {
      ObjectBack(schema, def.base.value, o.base.value, d, atoi);
    }
  }

  /** What `d` holds for the base class and for the class itself. */
  lemma {:induction false} Parts(schema: Schema, c: nat, o: Instance, d: Value)
    requires GoodSchema(schema) && Fits(schema, c, o) && Agrees(d, Write(schema, c, o), Names(schema, c))
    ensures GoodClass(schema, c)
    ensures var def := schema.classes[c];
            && Distinct(OwnNames(def.items)) && Agrees(d, WriteItems(schema, def.items, o.fields), OwnNames(def.items))
            && (def.base.Some? ==> Agrees(d, Write(schema, def.base.value, o.base.value), Names(schema, def.base.value)))
  {
    hide GoodItem, FitsField, WriteItems, OwnNames, Lookup;
    var def := schema.classes[c];
    assert GoodClass(schema, c);
    var base := if def.base.Some? then Write(schema, def.base.value, o.base.value) else [];
    var baseNames := if def.base.Some? then Names(schema, def.base.value) else [];
    var own, ownNames := WriteItems(schema, def.items, o.fields), OwnNames(def.items);
    ApartFrom(baseNames, ownNames);
    ItemsNamed(schema, def.items, o.fields);
    if def.base.Some? { ObjectNamed(schema, def.base.value, o.base.value); }
    assert Write(schema, c, o) == base + own && Names(schema, c) == baseNames + ownNames;
    hide Write, Names;
    forall n | n in baseNames + ownNames ensures Lookup(base + own, n) == if n in ownNames then Lookup(own, n) else Lookup(base, n) {
      LookupAppend(base, own, n);
      if n in ownNames {
        NotNamed(base, baseNames, n);
      } else {
        NotNamed(own, ownNames, n);
      }
    }
  }

  /** Serialize, then deserialize. */
  lemma SerializeThenDeserialize(schema: Schema, c: nat, o: Instance, atoi: Atoi)
    requires GoodSchema(schema) && Fits(schema, c, o)
    ensures Read(schema, c, Object(Write(schema, c, o)), Blank(schema, c), atoi) == if Clean(schema, c, o) then Some(o) else None
  {
    hide Read, Write, Clean;
    ObjectBack(schema, c, o, Object(Write(schema, c, o)), atoi);
  }

  //////////////////////////////////////////////////////////////////////////////
  // Through text
  //////////////////////////////////////////////////////////////////////////////

  predicate AllPrintable(members: seq<Member>) {
    forall i | 0 <= i < |members| :: Printing.Printable(members[i].value)
  }

  predicate AllSized(members: seq<Member>) {
    forall i | 0 <= i < |members| :: Sized(members[i].value)
  }

  lemma IntPrintable(t: IntType, i: int)
    requires InType(t, i)
    ensures Printing.Printable(EncodeInt(t, i))
  {
    FlagsArePrecise(i);
    IntegerOfExactly(i);
  }

  /** Whatever the serializer writes can be printed, if its sizes fit SizeType. */
  lemma {:induction false} OnePrintable(schema: Schema, kind: Kind, field: Field)
    requires FitsOne(schema, kind, field) && Sized(Encode(schema, kind, field))
    ensures Printing.Printable(Encode(schema, kind, field))
    decreases field, 1
  {
    hide InType, EncodeInt, Write, Stringify;
    match (kind, field)
    case (Whole(t), OneWhole(i)) => IntPrintable(t, i);
    case (Enum(e, asInteger), OneChoice(key)) => IsU64(key); IntPrintable(U64, key);
    case (Class(c), OneObject(o)) => ObjectPrintable(schema, c, o);
    case _ =>
  }

  lemma IsU64(i: nat)
    requires i < TWO64
    ensures InType(U64, i)
  {
  }

  lemma {:induction false} ObjectsPrintable(schema: Schema, c: nat, objects: seq<Instance>)
    requires forall i | 0 <= i < |objects| :: Fits(schema, c, objects[i])
    requires forall i | 0 <= i < |objects| :: Sized(EncodeObjects(schema, c, objects)[i])
    ensures forall i | 0 <= i < |objects| :: Printing.Printable(EncodeObjects(schema, c, objects)[i])
    decreases objects, 0
  {
    hide Fits, Write, Sized, Printing.Printable;
    if objects != [] {
      var vs := EncodeObjects(schema, c, objects);
      assert vs[1..] == EncodeObjects(schema, c, objects[1..]) && vs[0] == Object(Write(schema, c, objects[0]));
      assert Sized(vs[0]);
      ObjectPrintable(schema, c, objects[0]);
      assert forall i | 0 <= i < |objects[1..]| :: EncodeObjects(schema, c, objects[1..])[i] == vs[i + 1];
      ObjectsPrintable(schema, c, objects[1..]);
      assert forall i | 1 <= i < |objects| :: vs[i] == EncodeObjects(schema, c, objects[1..])[i - 1];
    }
  }

  lemma {:induction false} ManyPrintable(schema: Schema, kind: Kind, field: Field)
    requires FitsMany(schema, kind, field) && Sized(Array(EncodeAll(schema, kind, field)))
    ensures Printing.Printable(Array(EncodeAll(schema, kind, field)))
    decreases field, 1
  {
    hide InType, EncodeInt, Write, Fits, EncodeObjects;
    match (kind, field)
    case (Whole(t), Wholes(ints)) =>
      forall i | 0 <= i < |ints| ensures Printing.Printable(EncodeInt(t, ints[i])) { IntPrintable(t, ints[i]); }
    case (Class(c), Objects(objects)) =>
      ObjectsPrintable(schema, c, objects);
    case _ =>
  }

  lemma {:induction false} ItemsPrintable(schema: Schema, items: seq<Item>, fields: seq<Field>)
    requires |fields| == |items| && (forall i | 0 <= i < |items| :: FitsField(schema, items[i], fields[i]))
    requires AllSized(WriteItems(schema, items, fields))
    ensures AllPrintable(WriteItems(schema, items, fields))
    decreases fields, 0
  {
    hide Encode, EncodeAll, FitsOne, FitsMany, Sized, Printing.Printable;
    if items != [] {
      var first, rest := ExecWrite(schema, EmitWrite(items[0]), fields[0]), WriteItems(schema, items[1..], fields[1..]);
      assert WriteItems(schema, items, fields) == first + rest;
      SizedParts(first, rest);
      ItemsPrintable(schema, items[1..], fields[1..]);
      var item, field := items[0], fields[0];
      assert FitsField(schema, item, field);
      if !item.inherited && first != [] {
        assert Sized(first[0].value);
        if item.isArray {
          ManyPrintable(schema, item.kind, field);
        } else if FitsOne(schema, item.kind, field) {
          OnePrintable(schema, item.kind, field);
        }
      }
    }
  }

  lemma SizedParts(a: seq<Member>, b: seq<Member>)
    requires AllSized(a + b)
    ensures AllSized(a) && AllSized(b)
  {
    hide Sized;
    assert forall i | 0 <= i < |a| :: a[i] == (a + b)[i];
    assert forall i | 0 <= i < |b| :: b[i] == (a + b)[|a| + i];
  }

  lemma {:induction false} MembersPrintable(schema: Schema, c: nat, o: Instance)
    requires Fits(schema, c, o) && AllSized(Write(schema, c, o))
    ensures AllPrintable(Write(schema, c, o))
    decreases o, 0
  {
    hide WriteItems, FitsField, Sized, Printing.Printable;
    var def := schema.classes[c];
    var base := if def.base.Some? then Write(schema, def.base.value, o.base.value) else [];
    var own := WriteItems(schema, def.items, o.fields);
    assert Write(schema, c, o) == base + own;
    SizedParts(base, own);
    ItemsPrintable(schema, def.items, o.fields);
    if def.base.Some? {
      MembersPrintable(schema, def.base.value, o.base.value);
    }
  }

  lemma {:induction false} ObjectPrintable(schema: Schema, c: nat, o: Instance)
    requires Fits(schema, c, o) && Sized(Object(Write(schema, c, o)))
    ensures Printing.Printable(Object(Write(schema, c, o)))
    decreases o, 1
  {
    hide Write, Fits;
    MembersPrintable(schema, c, o);
  }

  /** serialize and deserialize: through the writer's text and the parser the object comes back; with
      validation, if and only if all its strings are UTF-8. */
  lemma TextRoundTrip(schema: Schema, c: nat, o: Instance, cfg: Config, atoi: Atoi)
    requires GoodSchema(schema) && Fits(schema, c, o) && Clean(schema, c, o) && Sized(Object(Write(schema, c, o)))
    ensures Printing.Printable(Object(Write(schema, c, o)))
    ensures var root := Object(Write(schema, c, o));
            var r := Descent.Parse(Printing.TextOf(root), cfg);
            if RoundTrip.Legal(root, cfg.validateEncoding) then
              r.Done? && Document.Leaves(r.events, [root]) && Read(schema, c, root, Blank(schema, c), atoi) == Some(o)
            else r.Fail? && r.code == StringInvalidEncoding
  {
    hide Read, Write, Clean, Fits, GoodSchema, Printing.TextOf, Descent.Parse, EventsOf, Document.Leaves, RoundTrip.Legal;
    var root := Object(Write(schema, c, o));
    ObjectPrintable(schema, c, o);
    RoundTrip.TextParses(root, cfg);
    SerializeThenDeserialize(schema, c, o, atoi);
  }

  //////////////////////////////////////////////////////////////////////////////
  // Members that are missing
  //////////////////////////////////////////////////////////////////////////////

  predicate Missing(d: Value, name: seq<Byte>) {
    d.Object? && forall i | 0 <= i < |d.members| :: d.members[i].name != name
  }

  /** A member without which the reader gives up: required, and not an enum. */
  predicate Demanded(item: Item) {
    !item.inherited && item.presence == Required && !item.kind.Enum?
  }

  /** The class or one of its bases demands a member that is missing. */
  predicate Lacks(schema: Schema, c: nat, d: Value)
    requires c < |schema.classes|
    decreases c
  {
    var def := schema.classes[c];
    || (def.base.Some? && def.base.value < c && Lacks(schema, def.base.value, d))
    || (exists i | 0 <= i < |def.items| :: Demanded(def.items[i]) && Missing(d, def.items[i].name))
  }

  /** The object has a part for each base and a data member for each item. */
  predicate Shaped(schema: Schema, c: nat, r: Instance)
    decreases r
  {
    c < |schema.classes| &&
    var def := schema.classes[c];
    && |r.fields| == |def.items|
    && (if def.base.None? then r.base.None? else def.base.value < c && r.base.Some? && Shaped(schema, def.base.value, r.base.value))
  }

  lemma ItemMissing(schema: Schema, item: Item, field: Field, d: Value, atoi: Atoi)
    requires d.Object? && (item.inherited || Missing(d, item.name))
    ensures ExecRead(schema, EmitRead(item), d, field, atoi) == if Demanded(item) then None else Some(field)
  {
    hide Decode, DecodeInts, DecodeObjects;
  }

  /** Each data member the reader sets is set from its own item. */
  lemma {:induction false} ItemsRead(schema: Schema, items: seq<Item>, d: Value, fields: seq<Field>, atoi: Atoi)
    requires d.Object? && |fields| == |items|
    ensures var r := ReadItems(schema, items, d, fields, atoi);
            && (r.Some? <==> forall i | 0 <= i < |items| :: ExecRead(schema, EmitRead(items[i]), d, fields[i], atoi).Some?)
            && (r.Some? ==> |r.value| == |items| && forall i | 0 <= i < |items| ::
                  ExecRead(schema, EmitRead(items[i]), d, fields[i], atoi) == Some(r.value[i]))
    decreases |items|
  {
    hide ExecRead, EmitRead;
    if items != [] {
      ItemsRead(schema, items[1..], d, fields[1..], atoi);
      assert forall i | 1 <= i < |items| :: items[i] == items[1..][i - 1] && fields[i] == fields[1..][i - 1];
    }
  }

  /** deserializeFrom fails when a member is demanded and missing, be it of the class or of a base. */
  lemma {:induction false} MissingMember(schema: Schema, c: nat, d: Value, r: Instance, atoi: Atoi)
    requires Shaped(schema, c, r) && d.Object? && Lacks(schema, c, d)
    ensures Read(schema, c, d, r, atoi) == None
    decreases r
  {
    hide ReadItems, ExecRead, EmitRead, Demanded, Missing;
    var def := schema.classes[c];
    if def.base.Some? && Lacks(schema, def.base.value, d) {
      MissingMember(schema, def.base.value, d, r.base.value, atoi);
    } else {
      var i :| 0 <= i < |def.items| && Demanded(def.items[i]) && Missing(d, def.items[i].name);
      ItemMissing(schema, def.items[i], r.fields[i], d, atoi);
      ItemsRead(schema, def.items, d, r.fields, atoi);
    }
  }

  /** A data member whose JSON member is missing keeps what it held. */
  lemma MissingKept(schema: Schema, c: nat, d: Value, r: Instance, i: nat, atoi: Atoi)
    requires Shaped(schema, c, r) && i < |r.fields| && Missing(d, schema.classes[c].items[i].name)
    requires Read(schema, c, d, r, atoi).Some?
    ensures var o := Read(schema, c, d, r, atoi).value; |o.fields| == |r.fields| && o.fields[i] == r.fields[i]
  {
    hide ReadItems, ExecRead, EmitRead, Demanded, ReadBase;
    var items := schema.classes[c].items;
    ItemsRead(schema, items, d, r.fields, atoi);
    ItemMissing(schema, items[i], r.fields[i], d, atoi);
  }

  /** None of the members the class and its bases read is there. */
  predicate AllMissing(schema: Schema, c: nat, d: Value)
    requires c < |schema.classes|
    decreases c
  {
    var def := schema.classes[c];
    && (forall i | 0 <= i < |def.items| :: def.items[i].inherited || Missing(d, def.items[i].name))
    && (def.base.Some? && def.base.value < c ==> AllMissing(schema, def.base.value, d))
  }

  /** From an object that holds none of its members, such as {}, a class is read exactly if it demands none,
      and then nothing has changed. */
  lemma {:induction false} NothingRead(schema: Schema, c: nat, d: Value, r: Instance, atoi: Atoi)
    requires Shaped(schema, c, r) && d.Object? && AllMissing(schema, c, d)
    ensures Read(schema, c, d, r, atoi) == if Lacks(schema, c, d) then None else Some(r)
    decreases r
  {
    hide ReadItems, ExecRead, EmitRead, Demanded, Missing;
    var def := schema.classes[c];
    if Lacks(schema, c, d) {
      MissingMember(schema, c, d, r, atoi);
    } else {
      if def.base.Some? { NothingRead(schema, def.base.value, d, r.base.value, atoi); }
      forall i | 0 <= i < |def.items|
        ensures ExecRead(schema, EmitRead(def.items[i]), d, r.fields[i], atoi) == Some(r.fields[i]) {
        DemandedOwn(def.items[i]);
        ItemMissing(schema, def.items[i], r.fields[i], d, atoi);
      }
      ItemsRead(schema, def.items, d, r.fields, atoi);
      assert ReadItems(schema, def.items, d, r.fields, atoi).value == r.fields;
    }
  }

  lemma DemandedOwn(item: Item)
    ensures Demanded(item) ==> !item.inherited
  {
  }

  //////////////////////////////////////////////////////////////////////////////
  // An object that does not come back
  //////////////////////////////////////////////////////////////////////////////

  /** A class with one array of strings, and an object of it in which the array is empty. */
  const TEXTS := Item([120], Chars, true, Required, false)
  const TEXTS_SCHEMA := Schema([ClassDef(None, [TEXTS])], [])
  const TEXTS_OBJECT := Instance(None, [Texts([])])

  /** Its emitted reader rejects what its emitted writer makes. */
  lemma {:induction false} TextsFail(atoi: Atoi)
    ensures GoodSchema(TEXTS_SCHEMA) && Fits(TEXTS_SCHEMA, 0, TEXTS_OBJECT)
    ensures Write(TEXTS_SCHEMA, 0, TEXTS_OBJECT) == [Member(TEXTS.name, Array([]))]
    ensures Read(TEXTS_SCHEMA, 0, Object([Member(TEXTS.name, Array([]))]), Blank(TEXTS_SCHEMA, 0), atoi) == None
  {
    var items := TEXTS_SCHEMA.classes[0].items;
    assert OwnNames(items) == [TEXTS.name] by { assert items[1..] == []; }
    assert Names(TEXTS_SCHEMA, 0) == [TEXTS.name];
    assert FitsField(TEXTS_SCHEMA, TEXTS, Texts([]));
    assert !CleanField(TEXTS_SCHEMA, items[0], TEXTS_OBJECT.fields[0]);
    TextsWritten();
    SerializeThenDeserialize(TEXTS_SCHEMA, 0, TEXTS_OBJECT, atoi);
  }

  lemma {:induction false} TextsWritten()
    ensures Write(TEXTS_SCHEMA, 0, TEXTS_OBJECT) == [Member(TEXTS.name, Array([]))]
  {
    var items, fields := TEXTS_SCHEMA.classes[0].items, TEXTS_OBJECT.fields;
    assert EmitWrite(items[0]) == AddArray(TEXTS.name, Chars);
    assert EncodeAll(TEXTS_SCHEMA, Chars, Texts([])) == [];
    assert ExecWrite(TEXTS_SCHEMA, AddArray(TEXTS.name, Chars), Texts([])) == [Member(TEXTS.name, Array([]))];
    assert WriteItems(TEXTS_SCHEMA, items[1..], fields[1..]) == [];
  }
}
