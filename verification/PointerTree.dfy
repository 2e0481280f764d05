/** Get, Create and Set of pointer.h over document trees. */
module PointerTree {
  import opened Ascii
  import opened Events
  import opened T = Tree
  import opened Pointers

  const APPEND: seq<Byte> := [MINUS]

  /** Tokens as Parse makes them. */
  predicate Indexed(tokens: seq<Token>) {
    forall i | 0 <= i < |tokens| :: tokens[i].index == IndexOf(tokens[i].name)
  }

  //////////////////////////////////////////////////////////////////////////////
  // Get
  //////////////////////////////////////////////////////////////////////////////

  /** The value a pointer leads to, or the position of the first token that cannot be resolved. */
  datatype Resolved = Found(value: Value) | Unresolved(token: nat)

  /** The child a token leads to. */
  function Child(v: Value, t: Token): Option<Value> {
    match v
    case Object(members) =>
      var i := Find(members, t.name);
      if i < |members| then Some(members[i].value) else None
    case Array(elements) =>
      if t.index == INVALID_INDEX || t.index >= |elements| then None else Some(elements[t.index])
    case _ => None
  }

  function Resolve(v: Value, tokens: seq<Token>): Resolved {
    if tokens == [] then Found(v)
    else
      match Child(v, tokens[0])
      case None => Unresolved(0)
      case Some(child) =>
        match Resolve(child, tokens[1..])
        case Found(value) => Found(value)
        case Unresolved(n) => Unresolved(n + 1)
  }

  /** Get: a loop over the tokens. */
  method Get(root: Value, tokens: seq<Token>) returns (r: Resolved)
    ensures r == Resolve(root, tokens)
  {
    var v := root;
    assert tokens[0..] == tokens;
    for i := 0 to |tokens|
      invariant Resolve(root, tokens) == After(i, Resolve(v, tokens[i..]))
    {
      var t := tokens[i];
      assert tokens[i..][1..] == tokens[i + 1..];
      match v {
        case Object(members) =>
          var m := FindMember(members, t.name);
          if m == |members| {
            return Unresolved(i);
          }
          v := members[m].value;
        case Array(elements) =>
          if t.index == INVALID_INDEX || t.index >= |elements| {
            return Unresolved(i);
          }
          v := elements[t.index];
        case _ =>
          return Unresolved(i);
      }
    }
    r := Found(v);
  }

  /** A result seen from `n` tokens before. */
  function After(n: nat, r: Resolved): Resolved {
    match r
    case Found(value) => Found(value)
    case Unresolved(i) => Unresolved(n + i)
  }

  //////////////////////////////////////////////////////////////////////////////
  // Create and Set
  //////////////////////////////////////////////////////////////////////////////

  /** The tree after Create, and whether the value existed. */
  datatype Created = Created(tree: Value, exist: bool)

  /** SetObject or SetArray where the token asks for it. */
  function Retyped(v: Value, t: Token): Value {
    if t.index == INVALID_INDEX then
      if v.Object? then v else Object([])
    else if v.Array? || v.Object? then v else Array([])
  }

  /** A Null is pushed at the end of the array. */
  predicate Pushes(v: Value, t: Token) {
    v.Array? && t.name == APPEND
  }

  /** Elements padded with Null up to a size. */
  function Padded(elements: seq<Value>, size: nat): (r: seq<Value>)
    ensures |r| == if |elements| < size then size else |elements|
    ensures forall i | 0 <= i < |elements| :: r[i] == elements[i]
    ensures forall i | |elements| <= i < |r| :: r[i] == Value.Null
  {
    elements + seq(if |elements| < size then size - |elements| else 0, i => Value.Null)
  }

  /** The value a token leads to or makes, with what it then becomes put in its place. */
  function Place(v: Value, tokens: seq<Token>, leaf: Value -> Value): Created
    decreases |tokens|
  {
    if tokens == [] then Created(leaf(v), true)
    else
      var t, rest := tokens[0], tokens[1..];
      if Pushes(v, t) then
        Created(Array(v.elements + [Place(Value.Null, rest, leaf).tree]), false)
      else
        match Retyped(v, t)
        case Array(elements) =>
          var all := Padded(elements, t.index + 1);
          var child := Place(all[t.index], rest, leaf);
          Created(Array(all[t.index := child.tree]), t.index < |elements| && child.exist)
        case Object(members) =>
          var m := Find(members, t.name);
          if m == |members| then
            Created(Object(members + [Member(t.name, Place(Value.Null, rest, leaf).tree)]), false)
          else
            var child := Place(members[m].value, rest, leaf);
            Created(Object(members[m := Member(t.name, child.tree)]), child.exist)
        case _ => Created(v, false)
  }

  //////////////////////////////////////////////////////////////////////////////
  // The shapes Create and Set make, token by token
  //////////////////////////////////////////////////////////////////////////////

  function Nulls(n: nat): (r: seq<Value>)
    ensures |r| == n
  {
    seq(n, i => Value.Null)
  }

  /** An index makes an array of what is neither array nor object: that many Nulls, then the value. */
  lemma MakesArray(v: Value, t: Token, rest: seq<Token>, leaf: Value -> Value)
    requires !v.Array? && !v.Object? && t.index != INVALID_INDEX
    ensures Place(v, [t] + rest, leaf)
         == Created(Array(Nulls(t.index) + [Place(Value.Null, rest, leaf).tree]), false)
  {
    var child := Place(Value.Null, rest, leaf).tree;
    assert ([t] + rest)[1..] == rest;
    assert Padded([], t.index + 1)[t.index := child] == Nulls(t.index) + [child];
  }

  /** A name that is no index makes an object with that one member, also of an array. */
  lemma MakesObject(v: Value, t: Token, rest: seq<Token>, leaf: Value -> Value)
    requires !v.Object? && t.index == INVALID_INDEX && !(v.Array? && t.name == APPEND)
    ensures Place(v, [t] + rest, leaf) == Created(Object([Member(t.name, Place(Value.Null, rest, leaf).tree)]), false)
  {
    assert ([t] + rest)[1..] == rest;
    assert [] + [Member(t.name, Place(Value.Null, rest, leaf).tree)] == [Member(t.name, Place(Value.Null, rest, leaf).tree)];
  }

  /** An object stays one, whatever the token: its first member of the name changes, or one is added. */
  lemma KeepsObject(before: seq<Member>, m: Member, after: seq<Member>, t: Token, rest: seq<Token>, leaf: Value -> Value)
    requires (forall i | 0 <= i < |before| :: before[i].name != t.name) && m.name == t.name
    ensures var child := Place(m.value, rest, leaf);
            Place(Object(before + [m] + after), [t] + rest, leaf)
            == Created(Object(before + [Member(t.name, child.tree)] + after), child.exist)
  {
    hide Find;
    var members := before + [m] + after;
    FindIs(members, t.name, |before|);
    assert ([t] + rest)[1..] == rest;
    var child := Place(m.value, rest, leaf).tree;
    assert members[|before| := Member(t.name, child)] == before + [Member(t.name, child)] + after;
  }

  lemma AddsMember(members: seq<Member>, t: Token, rest: seq<Token>, leaf: Value -> Value)
    requires forall i | 0 <= i < |members| :: members[i].name != t.name
    ensures Place(Object(members), [t] + rest, leaf)
         == Created(Object(members + [Member(t.name, Place(Value.Null, rest, leaf).tree)]), false)
  {
    hide Find;
    assert ([t] + rest)[1..] == rest;
    if Find(members, t.name) < |members| { assert false; }
  }

  /** An array met by an index stays one: the element there changes, or Nulls and then the value are added. */
  lemma KeepsArray(before: seq<Value>, x: Value, after: seq<Value>, t: Token, rest: seq<Token>, leaf: Value -> Value)
    requires t.index == |before| && t.index != INVALID_INDEX && t.name != APPEND
    ensures var child := Place(x, rest, leaf);
            Place(Array(before + [x] + after), [t] + rest, leaf)
            == Created(Array(before + [child.tree] + after), child.exist)
  {
    var elements := before + [x] + after;
    assert ([t] + rest)[1..] == rest;
    assert Padded(elements, t.index + 1) == elements;
    var child := Place(x, rest, leaf).tree;
    assert elements[t.index := child] == before + [child] + after;
  }

  lemma ExtendsArray(elements: seq<Value>, t: Token, rest: seq<Token>, leaf: Value -> Value)
    requires |elements| <= t.index && t.index != INVALID_INDEX && t.name != APPEND
    ensures Place(Array(elements), [t] + rest, leaf)
         == Created(Array(elements + Nulls(t.index - |elements|) + [Place(Value.Null, rest, leaf).tree]), false)
  {
    var child := Place(Value.Null, rest, leaf).tree;
    assert ([t] + rest)[1..] == rest;
    assert Padded(elements, t.index + 1)[t.index := child] == elements + Nulls(t.index - |elements|) + [child];
  }

  /** The token `-` adds the value at the end of an array. */
  lemma PushesArray(elements: seq<Value>, t: Token, rest: seq<Token>, leaf: Value -> Value)
    requires t.name == APPEND
    ensures Place(Array(elements), [t] + rest, leaf)
         == Created(Array(elements + [Place(Value.Null, rest, leaf).tree]), false)
  {
    assert ([t] + rest)[1..] == rest;
  }

  /** At the end of the pointer the value is what the leaf makes of it. */
  lemma PlacesLeaf(v: Value, leaf: Value -> Value)
    ensures Place(v, [], leaf) == Created(leaf(v), true)
  {
  }

  /** Where Get stops: the tokens before resolve, and the value they lead to has no such child. */
  lemma {:induction false} UnresolvedWhere(v: Value, tokens: seq<Token>)
    requires Resolve(v, tokens).Unresolved?
    ensures var n := Resolve(v, tokens).token;
            && n < |tokens| && Resolve(v, tokens[..n]).Found? && Child(Resolve(v, tokens[..n]).value, tokens[n]).None?
    decreases |tokens|
  {
    hide Child;
    var n := Resolve(v, tokens).token;
    if n > 0 {
      var child := Child(v, tokens[0]).value;
      UnresolvedWhere(child, tokens[1..]);
      assert tokens[..n][1..] == tokens[1..][..n - 1];
    }
  }

  /** Create: what is made is Null, what exists stays. */
  function Create(v: Value, tokens: seq<Token>): Created {
    Place(v, tokens, (x: Value) => x)
  }

  /** Set: the value created or found is overwritten. */
  function Set(v: Value, tokens: seq<Token>, x: Value): Value {
    Place(v, tokens, (_: Value) => x).tree
  }

  /** Some token of the pointer pushes at the end of an array of the tree. */
  predicate Appends(v: Value, tokens: seq<Token>)
    decreases |tokens|
  {
    tokens != [] && (
      Pushes(v, tokens[0]) ||
      match Child(Retyped(v, tokens[0]), tokens[0])
      case None => false
      case Some(child) => Appends(child, tokens[1..]))
  }

  lemma AppendIsNoIndex()
    ensures IndexOf(APPEND) == INVALID_INDEX
  {
    assert !IsDigit(APPEND[0]);
  }

  /** Create reports an existing value exactly if Get resolves, and then changes nothing. */
  lemma {:induction false} CreateExists(v: Value, tokens: seq<Token>)
    requires Indexed(tokens)
    ensures Create(v, tokens).exist <==> Resolve(v, tokens).Found?
    ensures Create(v, tokens).exist ==> Create(v, tokens).tree == v
    decreases |tokens|
  {
    hide IndexOf;
    if tokens != [] {
      var t, rest := tokens[0], tokens[1..];
      AppendIsNoIndex();
      match Child(v, t)
      case None =>
      case Some(child) => CreateExists(child, rest);
    }
  }

  /** Nothing is pushed on the way into a Null. */
  lemma {:induction false} NullNeverAppends(tokens: seq<Token>)
    ensures !Appends(Value.Null, tokens)
    decreases |tokens|
  {
    hide IndexOf;
  }

  /** What Get finds before, or the Null that Create makes. */
  function Before(v: Value, tokens: seq<Token>): Value {
    match Resolve(v, tokens)
    case Found(x) => x
    case Unresolved(_) => Value.Null
  }

  /** After Place, Get reaches the leaf if and only if no token pushed at the end of an array. */
  lemma {:induction false} PlaceThenResolve(v: Value, tokens: seq<Token>, leaf: Value -> Value)
    requires Indexed(tokens)
    ensures Resolve(Place(v, tokens, leaf).tree, tokens).Found? <==> !Appends(v, tokens)
    ensures !Appends(v, tokens) ==> Resolve(Place(v, tokens, leaf).tree, tokens) == Found(leaf(Before(v, tokens)))
    decreases |tokens|
  {
    hide IndexOf;
    if tokens != [] {
      var t := tokens[0];
      if Pushes(v, t) {
        AppendIsNoIndex();
      } else {
        match Retyped(v, t)
        case Array(elements) =>
          ElementPlaced(v, tokens, leaf, elements);
        case Object(members) =>
          MemberPlaced(v, tokens, leaf, members);
      }
    }
  }

  lemma {:induction false} ElementPlaced(v: Value, tokens: seq<Token>, leaf: Value -> Value, elements: seq<Value>)
    requires Indexed(tokens) && tokens != [] && !Pushes(v, tokens[0]) && Retyped(v, tokens[0]) == Array(elements)
    ensures Resolve(Place(v, tokens, leaf).tree, tokens).Found? <==> !Appends(v, tokens)
    ensures !Appends(v, tokens) ==> Resolve(Place(v, tokens, leaf).tree, tokens) == Found(leaf(Before(v, tokens)))
    decreases |tokens|, 0
  {
    hide IndexOf;
    var t, rest := tokens[0], tokens[1..];
    var all := Padded(elements, t.index + 1);
    NullBefore(rest);
    NullNeverAppends(rest);
    PlaceThenResolve(all[t.index], rest, leaf);
  }

  lemma {:induction false} MemberPlaced(v: Value, tokens: seq<Token>, leaf: Value -> Value, members: seq<Member>)
    requires Indexed(tokens) && tokens != [] && !Pushes(v, tokens[0]) && Retyped(v, tokens[0]) == Object(members)
    ensures Resolve(Place(v, tokens, leaf).tree, tokens).Found? <==> !Appends(v, tokens)
    ensures !Appends(v, tokens) ==> Resolve(Place(v, tokens, leaf).tree, tokens) == Found(leaf(Before(v, tokens)))
    decreases |tokens|, 0
  {
    hide IndexOf;
    var t, rest := tokens[0], tokens[1..];
    NullBefore(rest);
    NullNeverAppends(rest);
    var child := ChildOrNull(members, t.name);
    FindUpdated(members, t.name, Place(child, rest, leaf).tree);
    PlaceThenResolve(child, rest, leaf);
  }

  /** The value of the first member of a name, or the Null that is added for it. */
  function ChildOrNull(members: seq<Member>, name: seq<Byte>): Value {
    var m := Find(members, name);
    if m < |members| then members[m].value else Value.Null
  }

  lemma NullBefore(tokens: seq<Token>)
    ensures Before(Value.Null, tokens) == Value.Null
  {
  }

  /** Create, then Get: the value that was there, or the Null just made; unless something was pushed. */
  lemma CreateThenGet(v: Value, tokens: seq<Token>)
    requires Indexed(tokens)
    ensures Resolve(Create(v, tokens).tree, tokens).Found? <==> !Appends(v, tokens)
    ensures !Appends(v, tokens) ==> Resolve(Create(v, tokens).tree, tokens) == Found(Before(v, tokens))
  {
    hide Appends, Resolve, Place;
    PlaceThenResolve(v, tokens, (x: Value) => x);
  }

  /** Set, then Get: the value set. */
  lemma SetThenGet(v: Value, tokens: seq<Token>, x: Value)
    requires Indexed(tokens)
    ensures Resolve(Set(v, tokens, x), tokens) == Found(x) <==> !Appends(v, tokens)
  {
    hide Appends, Resolve, Place;
    PlaceThenResolve(v, tokens, (_: Value) => x);
  }

  /** The pointer `/-`. */
  const APPENDING := [Token(APPEND, INVALID_INDEX)]

  /** Setting it in an empty array makes an array of the value, in which it is not found. */
  lemma {:induction false} AppendMissed(x: Value)
    ensures Indexed(APPENDING)
    ensures Set(Array([]), APPENDING, x) == Array([x]) && Resolve(Array([x]), APPENDING) == Unresolved(0)
  {
    AppendIsNoIndex();
    hide IndexOf;
    var leaf := (_: Value) => x;
    assert Place(Value.Null, APPENDING[1..], leaf) == Created(x, true);
    assert Place(Array([]), APPENDING, leaf) == Created(Array([] + [x]), false);
    assert [] + [x] == [x];
    assert Set(Array([]), APPENDING, x) == Place(Array([]), APPENDING, (_: Value) => x).tree;
  }

  //////////////////////////////////////////////////////////////////////////////
  // What Create and Set leave alone
  //////////////////////////////////////////////////////////////////////////////

  /** The path `other` leads into the tree beside the path `tokens`, and no value on the common part of
      the two changes its type. */
  predicate Beside(v: Value, tokens: seq<Token>, other: seq<Token>)
    decreases |tokens|
  {
    && tokens != [] && other != [] && Child(v, other[0]).Some?
    && (|| Pushes(v, tokens[0])
        || ( && Retyped(v, tokens[0]) == v
             && ( || (v.Array? && tokens[0].index != other[0].index)
                  || (v.Object? && tokens[0].name != other[0].name)
                  || Beside(Child(v, other[0]).value, tokens[1..], other[1..]))))
  }

  lemma FindOther(members: seq<Member>, i: nat, m: Member, name: seq<Byte>)
    requires Find(members, name) < |members| && m.name != name
    ensures Find(members + [m], name) == Find(members, name)
    ensures i < |members| && members[i].name == m.name ==> Find(members[i := m], name) == Find(members, name)
  {
    hide Find;
    var j := Find(members, name);
    FindIs(members + [m], name, j);
    if i < |members| && members[i].name == m.name {
      FindIs(members[i := m], name, j);
    }
  }

  /** Every value beside the path keeps its place and its content. */
  lemma {:induction false} PlaceKeepsOthers(v: Value, tokens: seq<Token>, leaf: Value -> Value, other: seq<Token>)
    requires Indexed(tokens) && Beside(v, tokens, other)
    ensures Resolve(Place(v, tokens, leaf).tree, other) == Resolve(v, other)
    decreases |tokens|
  {
    hide IndexOf, Padded, Find;
    if !Pushes(v, tokens[0]) {
      match v {
        case Array(elements) =>
          ArrayKeeps(elements, tokens, leaf, other);
        case Object(members) =>
          ObjectKeeps(members, tokens, leaf, other);
      }
    }
  }

  lemma {:induction false} ArrayKeeps(elements: seq<Value>, tokens: seq<Token>, leaf: Value -> Value, other: seq<Token>)
    requires Indexed(tokens) && Beside(Array(elements), tokens, other) && !Pushes(Array(elements), tokens[0])
    ensures Resolve(Place(Array(elements), tokens, leaf).tree, other) == Resolve(Array(elements), other)
    decreases |tokens|, 0
  {
    hide IndexOf;
    var t, u := tokens[0], other[0];
    if t.index == u.index {
      PlaceKeepsOthers(elements[u.index], tokens[1..], leaf, other[1..]);
    }
  }

  lemma {:induction false} ObjectKeeps(members: seq<Member>, tokens: seq<Token>, leaf: Value -> Value, other: seq<Token>)
    requires Indexed(tokens) && Beside(Object(members), tokens, other)
    ensures Resolve(Place(Object(members), tokens, leaf).tree, other) == Resolve(Object(members), other)
    decreases |tokens|, 0
  {
    hide IndexOf, Find;
    var t, u, rest := tokens[0], other[0], tokens[1..];
    var child := Place(ChildOrNull(members, t.name), rest, leaf).tree;
    if t.name == u.name {
      FindUpdated(members, t.name, child);
      PlaceKeepsOthers(ChildOrNull(members, t.name), rest, leaf, other[1..]);
    } else {
      FindOther(members, Find(members, t.name), Member(t.name, child), u.name);
    }
  }
}
