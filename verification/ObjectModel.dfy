/**
 The object model CreateDOM.cpp builds from the rows of a CSV file: processArgs as a state machine over
 rows, and what it leaves after any sequence of rows.
 */
module ObjectModel {
  import opened Ascii
  import opened Events
  import opened Csv

  /** An object row and the member rows that belong to it. */
  datatype Object = Object(name: seq<Byte>, kind: seq<Byte>, inherits: seq<Byte>, children: seq<seq<Byte>>, items: seq<Row>)

  const NOTHING := Object([], [], [], [], [])

  datatype Model = Model(objects: seq<Object>, current: Object, have: bool, ended: bool)

  const START := Model([], NOTHING, false, false)

  //////////////////////////////////////////////////////////////////////////////
  // Kinds of rows
  //////////////////////////////////////////////////////////////////////////////

  const FILENAME: seq<Byte> := [102, 105, 108, 101, 110, 97, 109, 101]
  const NAMESPACE: seq<Byte> := [110, 97, 109, 101, 115, 112, 97, 99, 101]
  const POD: seq<Byte> := [112, 111, 100]
  const EXPORTXML: seq<Byte> := [101, 120, 112, 111, 114, 116, 120, 109, 108]
  const URL: seq<Byte> := [117, 114, 108]
  const OBJECTNAME: seq<Byte> := [111, 98, 106, 101, 99, 116, 110, 97, 109, 101]

  function LowerAll(s: seq<Byte>): seq<Byte> {
    seq(|s|, i requires 0 <= i < |s| => Lower(s[i]))
  }

  /** A row that sets a name of the model or is the header line. */
  predicate IsSetting(field: seq<Byte>) {
    LowerAll(field) in {FILENAME, NAMESPACE, POD, EXPORTXML, URL, OBJECTNAME}
  }

  datatype RowKind = EndRow | ObjectRow | MemberRow | OtherRow

  function KindOf(row: Row): (kind: RowKind)
    ensures kind.ObjectRow? || kind.MemberRow? ==> row != []
  {
    if row == [] then OtherRow
    else if IsEof(row[0]) then EndRow
    else if IsSetting(row[0]) then OtherRow
    else if row[0] != [] then ObjectRow
    else if |row| >= 2 && row[1] != [] then MemberRow
    else OtherRow
  }

  //////////////////////////////////////////////////////////////////////////////
  // processArgs
  //////////////////////////////////////////////////////////////////////////////

  /** Every object of the name gets a child. */
  function AddChild(objects: seq<Object>, parent: seq<Byte>, child: seq<Byte>): seq<Object> {
    seq(|objects|, i requires 0 <= i < |objects| => WithChild(objects[i], parent, child))
  }

  function WithChild(o: Object, parent: seq<Byte>, child: seq<Byte>): Object {
    if o.name == parent then o.(children := o.children + [child]) else o
  }

  /** The object a row begins; one that has gathered members before the first object row keeps them. */
  function Begun(o: Object, row: Row): Object
    requires row != []
  {
    o.(name := row[0], kind := if |row| >= 3 then row[2] else o.kind, inherits := if |row| >= 4 then row[3] else o.inherits)
  }

  function Declare(m: Model, row: Row): Model
    requires row != []
  {
    var stored := if m.have then m.objects + [m.current] else m.objects;
    var current := Begun(if m.have then NOTHING else m.current, row);
    Model(if |row| >= 4 then AddChild(stored, row[3], row[0]) else stored, current, true, m.ended)
  }

  function Process(m: Model, row: Row): Model {
    if m.ended then m
    else
      match KindOf(row)
      case EndRow => m.(ended := true)
      case ObjectRow => Declare(m, row)
      case MemberRow => m.(current := m.current.(items := m.current.items + [row]))
      case OtherRow => m
  }

  function Run(m: Model, rows: seq<Row>): Model
    decreases |rows|
  {
    if rows == [] then m else Run(Process(m, rows[0]), rows[1..])
  }

  /** The objects stored and the current one. */
  function All(m: Model): seq<Object> {
    if m.have then m.objects + [m.current] else m.objects
  }

  //////////////////////////////////////////////////////////////////////////////
  // What a sequence of rows declares
  //////////////////////////////////////////////////////////////////////////////

  /** The names of the objects declared in these rows that inherit from `name`, in order. */
  function ChildrenIn(rows: seq<Row>, name: seq<Byte>): seq<seq<Byte>> {
    if rows == [] || KindOf(rows[0]).EndRow? then []
    else if KindOf(rows[0]).ObjectRow? && |rows[0]| >= 4 && rows[0][3] == name then [rows[0][0]] + ChildrenIn(rows[1..], name)
    else ChildrenIn(rows[1..], name)
  }

  /** The member rows before the next object row. */
  function MembersIn(rows: seq<Row>): seq<Row> {
    if rows == [] || KindOf(rows[0]).EndRow? || KindOf(rows[0]).ObjectRow? then []
    else if KindOf(rows[0]).MemberRow? then [rows[0]] + MembersIn(rows[1..])
    else MembersIn(rows[1..])
  }

  /** The objects declared: each with the later objects that name it as their base, and the member rows
      that follow it. `lead` are member rows before the first object row. */
  function Declared(rows: seq<Row>, have: bool, lead: seq<Row>): seq<Object> {
    if rows == [] || KindOf(rows[0]).EndRow? then []
    else
      var row, rest := rows[0], rows[1..];
      match KindOf(row)
      case ObjectRow =>
        [Object(row[0], if |row| >= 3 then row[2] else [], if |row| >= 4 then row[3] else [],
                ChildrenIn(rest, row[0]), (if have then [] else lead) + MembersIn(rest))]
        + Declared(rest, true, [])
      case MemberRow => Declared(rest, have, if have then lead else lead + [row])
      case OtherRow => Declared(rest, have, lead)
  }

  /** What rows add to objects there already: children to all of them, members to the last. */
  function Adopted(objects: seq<Object>, have: bool, rows: seq<Row>): seq<Object> {
    seq(|objects|, i requires 0 <= i < |objects| => Raised(objects[i], have && i == |objects| - 1, rows))
  }

  function Raised(o: Object, last: bool, rows: seq<Row>): Object {
    o.(children := o.children + ChildrenIn(rows, o.name), items := o.items + if last then MembersIn(rows) else [])
  }

  /** Before the first object row nothing is set but members. */
  predicate Sound(m: Model) {
    !m.have ==> m.objects == [] && m.current == NOTHING.(items := m.current.items)
  }

  lemma ProcessSound(m: Model, row: Row)
    requires Sound(m)
    ensures Sound(Process(m, row))
  {
    hide KindOf;
  }

  lemma {:induction false} EndedRun(m: Model, rows: seq<Row>)
    requires m.ended
    ensures Run(m, rows) == m
    decreases |rows|
  {
    hide KindOf;
    if rows != [] { EndedRun(m, rows[1..]); }
  }

  lemma NothingAdopted(objects: seq<Object>, have: bool, rows: seq<Row>)
    requires rows == [] || KindOf(rows[0]).EndRow?
    ensures Adopted(objects, have, rows) == objects
  {
    hide KindOf;
    forall i | 0 <= i < |objects| ensures Raised(objects[i], have && i == |objects| - 1, rows) == objects[i] {
      assert objects[i].children + [] == objects[i].children && objects[i].items + [] == objects[i].items;
    }
  }

  /** After any sequence of rows the objects are those the rows declare. */
  lemma {:induction false} RunDeclares(m: Model, rows: seq<Row>)
    requires Sound(m) && !m.ended
    ensures All(Run(m, rows)) == Adopted(All(m), m.have, rows) + Declared(rows, m.have, if m.have then [] else m.current.items)
    decreases |rows|
  {
    hide KindOf, Adopted, ChildrenIn, MembersIn;
    var lead := if m.have then [] else m.current.items;
    if rows == [] {
      NothingAdopted(All(m), m.have, rows);
    } else {
      var row, rest, next := rows[0], rows[1..], Process(m, rows[0]);
      ProcessSound(m, row);
      match KindOf(row)
      case EndRow =>
        NothingAdopted(All(m), m.have, rows);
        EndedRun(next, rest);
      case ObjectRow =>
        RunDeclares(next, rest);
        assert rows == [row] + rest;
        ObjectAdopts(m, row, rest);
      case MemberRow =>
        RunDeclares(next, rest);
        assert rows == [row] + rest;
        MemberAdopts(m, row, rest);
      case OtherRow =>
        RunDeclares(next, rest);
        assert rows == [row] + rest;
        OtherAdopts(All(m), m.have, row, rest);
    }
  }

  lemma OtherAdopts(objects: seq<Object>, have: bool, row: Row, rest: seq<Row>)
    requires KindOf(row).OtherRow?
    ensures Adopted(objects, have, [row] + rest) == Adopted(objects, have, rest)
  {
    hide KindOf;
    assert ([row] + rest)[1..] == rest;
  }

  /** What one row adds to an object. */
  lemma FirstRow(row: Row, rest: seq<Row>, name: seq<Byte>)
    requires !KindOf(row).EndRow?
    ensures ChildrenIn([row] + rest, name)
         == (if KindOf(row).ObjectRow? && |row| >= 4 && row[3] == name then [row[0]] else []) + ChildrenIn(rest, name)
    ensures MembersIn([row] + rest)
         == if KindOf(row).ObjectRow? then [] else (if KindOf(row).MemberRow? then [row] else []) + MembersIn(rest)
  {
    hide KindOf;
    assert ([row] + rest)[1..] == rest;
  }

  lemma ObjectAdopts(m: Model, row: Row, rest: seq<Row>)
    requires Sound(m) && !m.ended && KindOf(row).ObjectRow?
    ensures Adopted(All(Declare(m, row)), true, rest)
         == Adopted(All(m), m.have, [row] + rest)
            + [Object(row[0], if |row| >= 3 then row[2] else [], if |row| >= 4 then row[3] else [],
                      ChildrenIn(rest, row[0]), (if m.have then [] else m.current.items) + MembersIn(rest))]
  {
    hide KindOf, ChildrenIn, MembersIn;
    var before, after := All(m), All(Declare(m, row));
    var n := |before|;
    forall i | 0 <= i < n ensures Raised(after[i], false, rest) == Raised(before[i], m.have && i == n - 1, [row] + rest) {
      FirstRow(row, rest, before[i].name);
      ObjectRaises(before[i], row, rest, m.have && i == n - 1);
    }
    assert [] + ChildrenIn(rest, row[0]) == ChildrenIn(rest, row[0]);
    assert Adopted(after, true, rest)[..n] == Adopted(before, m.have, [row] + rest);
  }

  lemma ObjectRaises(o: Object, row: Row, rest: seq<Row>, last: bool)
    requires KindOf(row).ObjectRow?
    ensures Raised(if |row| >= 4 then WithChild(o, row[3], row[0]) else o, false, rest) == Raised(o, last, [row] + rest)
  {
    hide KindOf, ChildrenIn, MembersIn;
    FirstRow(row, rest, o.name);
    if |row| >= 4 && row[3] == o.name {
      assert o.children + [row[0]] + ChildrenIn(rest, o.name) == o.children + ([row[0]] + ChildrenIn(rest, o.name));
    } else {
      assert [] + ChildrenIn(rest, o.name) == ChildrenIn(rest, o.name);
    }
  }

  lemma MemberAdopts(m: Model, row: Row, rest: seq<Row>)
    requires Sound(m) && !m.ended && KindOf(row).MemberRow?
    ensures Adopted(All(Process(m, row)), m.have, rest) == Adopted(All(m), m.have, [row] + rest)
  {
    hide KindOf, ChildrenIn, MembersIn;
    var before, after := All(m), All(Process(m, row));
    forall i | 0 <= i < |before|
      ensures Raised(after[i], m.have && i == |before| - 1, rest) == Raised(before[i], m.have && i == |before| - 1, [row] + rest)
    {
      FirstRow(row, rest, before[i].name);
      assert [] + ChildrenIn(rest, before[i].name) == ChildrenIn(rest, before[i].name);
      if m.have && i == |before| - 1 {
        assert before[i].items + [row] + MembersIn(rest) == before[i].items + ([row] + MembersIn(rest));
      }
    }
  }

  /** A new model after any rows: the objects declared by them, in order. */
  lemma ModelDeclares(rows: seq<Row>)
    ensures All(Run(START, rows)) == Declared(rows, false, [])
  {
    hide Run, Declared;
    RunDeclares(START, rows);
    assert Adopted([], false, rows) == [];
  }

  //////////////////////////////////////////////////////////////////////////////
  // From objects to rows and back
  //////////////////////////////////////////////////////////////////////////////

  /** The keywords, as processArgs spells them. */
  const END: seq<Byte> := [69, 79, 70]
  const SETTINGS: seq<seq<Byte>> := [
    [70, 105, 108, 101, 110, 97, 109, 101],
    [78, 97, 109, 101, 115, 112, 97, 99, 101],
    [80, 79, 68],
    [69, 120, 112, 111, 114, 116, 88, 77, 76],
    [85, 82, 76],
    [79, 98, 106, 101, 99, 116, 78, 97, 109, 101]
  ]

  /** Letters of either case count as the same. */
  predicate SameLetter(a: Byte, b: Byte) {
    a == b || (65 <= a <= 90 && b == a + 32) || (65 <= b <= 90 && a == b + 32)
  }

  predicate SameWord(a: seq<Byte>, b: seq<Byte>) {
    |a| == |b| && forall i | 0 <= i < |a| :: SameLetter(a[i], b[i])
  }

  predicate IsKeyword(field: seq<Byte>) {
    exists i | 0 <= i < |SETTINGS| :: SameWord(field, SETTINGS[i])
  }

  lemma SameIsLower(a: seq<Byte>, b: seq<Byte>)
    ensures SameWord(a, b) <==> LowerAll(a) == LowerAll(b)
  {
    if LowerAll(a) == LowerAll(b) {
      assert |a| == |b|;
      forall i | 0 <= i < |a| ensures SameLetter(a[i], b[i]) {
        assert LowerAll(a)[i] == LowerAll(b)[i];
      }
    }
  }

  lemma SettingsAreKeywords(field: seq<Byte>)
    ensures IsSetting(field) <==> IsKeyword(field)
  {
    hide SameWord;
    assert LowerAll(SETTINGS[0]) == FILENAME && LowerAll(SETTINGS[1]) == NAMESPACE && LowerAll(SETTINGS[2]) == POD;
    assert LowerAll(SETTINGS[3]) == EXPORTXML && LowerAll(SETTINGS[4]) == URL && LowerAll(SETTINGS[5]) == OBJECTNAME;
    forall i | 0 <= i < |SETTINGS| ensures SameWord(field, SETTINGS[i]) <==> LowerAll(field) == LowerAll(SETTINGS[i]) {
      SameIsLower(field, SETTINGS[i]);
    }
    hide LowerAll;
    if IsSetting(field) {
      if LowerAll(field) == FILENAME { assert SameWord(field, SETTINGS[0]); }
      else if LowerAll(field) == NAMESPACE { assert SameWord(field, SETTINGS[1]); }
      else if LowerAll(field) == POD { assert SameWord(field, SETTINGS[2]); }
      else if LowerAll(field) == EXPORTXML { assert SameWord(field, SETTINGS[3]); }
      else if LowerAll(field) == URL { assert SameWord(field, SETTINGS[4]); }
      else { assert SameWord(field, SETTINGS[5]); }
    }
  }

  lemma EofIsKeyword(field: seq<Byte>)
    ensures IsEof(field) <==> SameWord(field, END)
  {
  }

  /** A row inside an object: a member, or one that says nothing about objects. */
  datatype Line = Member(row: Row) | Noise(row: Row)

  predicate GoodLine(line: Line) {
    match line
    case Member(row) => |row| >= 2 && row[0] == [] && row[1] != []
    case Noise(row) => row != [] && (IsKeyword(row[0]) || (row[0] == [] && (|row| < 2 || row[1] == [])))
  }

  /** An object row and the rows that follow it. */
  datatype Plan = Plan(row: Row, lines: seq<Line>)

  predicate GoodLines(lines: seq<Line>) {
    forall i | 0 <= i < |lines| :: GoodLine(lines[i])
  }

  predicate GoodPlan(plan: Plan) {
    && plan.row != [] && plan.row[0] != [] && !SameWord(plan.row[0], END) && !IsKeyword(plan.row[0])
    && GoodLines(plan.lines)
  }

  predicate GoodPlans(plans: seq<Plan>) {
    forall i | 0 <= i < |plans| :: GoodPlan(plans[i])
  }

  function LineRows(lines: seq<Line>): seq<Row> {
    if lines == [] then [] else [lines[0].row] + LineRows(lines[1..])
  }

  function MemberRows(lines: seq<Line>): seq<Row> {
    if lines == [] then []
    else (if lines[0].Member? then [lines[0].row] else []) + MemberRows(lines[1..])
  }

  function PlanRows(plans: seq<Plan>): seq<Row> {
    if plans == [] then [] else [plans[0].row] + (LineRows(plans[0].lines) + PlanRows(plans[1..]))
  }

  /** The field of a row, empty if the row is shorter. */
  function FieldOf(row: Row, i: nat): seq<Byte> {
    if i < |row| then row[i] else []
  }

  /** The objects whose row names `name` as their base, in order. */
  function Heirs(plans: seq<Plan>, name: seq<Byte>): seq<seq<Byte>> {
    if plans == [] then []
    else (if |plans[0].row| >= 4 && plans[0].row[3] == name then [FieldOf(plans[0].row, 0)] else []) + Heirs(plans[1..], name)
  }

  /** What the plans stand for. */
  function Planned(plans: seq<Plan>, lead: seq<Row>): seq<Object> {
    if plans == [] then []
    else
      var row := plans[0].row;
      [Object(FieldOf(row, 0), FieldOf(row, 2), FieldOf(row, 3), Heirs(plans[1..], FieldOf(row, 0)), lead + MemberRows(plans[0].lines))]
      + Planned(plans[1..], [])
  }

  /** Rows after which nothing is read: none, or one that says EOF and whatever follows. */
  predicate Ends(tail: seq<Row>) {
    tail == [] || (tail[0] != [] && SameWord(tail[0][0], END))
  }

  lemma KindOfLine(line: Line)
    requires GoodLine(line)
    ensures KindOf(line.row) == if line.Member? then MemberRow else OtherRow
  {
    hide SameWord;
    var first := line.row[0];
    SettingsAreKeywords(first);
    SettingsAreKeywords([]);
    EofIsKeyword(first);
    KeywordsDiffer(first);
    NothingIsKeyword();
  }

  lemma KeywordsDiffer(field: seq<Byte>)
    ensures !(IsKeyword(field) && SameWord(field, END))
  {
    forall i | 0 <= i < |SETTINGS| ensures !(SameWord(field, SETTINGS[i]) && SameWord(field, END)) {
      assert |SETTINGS[i]| == 3 ==> SETTINGS[i][0] == 80 || SETTINGS[i][0] == 85;
      assert SameWord(field, END) && |SETTINGS[i]| == 3 ==> SameLetter(field[0], END[0]);
    }
  }

  lemma NothingIsKeyword()
    ensures !IsKeyword([]) && !SameWord([], END)
  {
    forall i | 0 <= i < |SETTINGS| ensures !SameWord([], SETTINGS[i]) { assert |SETTINGS[i]| > 0; }
  }

  lemma KindOfPlan(plan: Plan)
    requires GoodPlan(plan)
    ensures KindOf(plan.row) == ObjectRow
  {
    hide SameWord, IsKeyword;
    SettingsAreKeywords(plan.row[0]);
    EofIsKeyword(plan.row[0]);
  }

  lemma KindOfEnd(tail: seq<Row>)
    requires Ends(tail) && tail != []
    ensures KindOf(tail[0]) == EndRow
  {
    EofIsKeyword(tail[0][0]);
  }

  lemma FirstLine(lines: seq<Line>, rest: seq<Row>)
    requires lines != []
    ensures var all := LineRows(lines) + rest;
            all != [] && all[0] == lines[0].row && all[1..] == LineRows(lines[1..]) + rest
  {
    assert LineRows(lines) + rest == [lines[0].row] + (LineRows(lines[1..]) + rest);
  }

  lemma {:induction false} LinesChildren(lines: seq<Line>, rest: seq<Row>, name: seq<Byte>)
    requires GoodLines(lines)
    ensures ChildrenIn(LineRows(lines) + rest, name) == ChildrenIn(rest, name)
    decreases |lines|
  {
    hide KindOf, GoodLine, LineRows;
    if lines == [] {
      NoLines(rest);
    } else {
      FirstLine(lines, rest);
      KindOfLine(lines[0]);
      LinesChildren(lines[1..], rest, name);
    }
  }

  lemma NoLines(rest: seq<Row>)
    ensures LineRows([]) + rest == rest
  {
  }

  lemma {:induction false} LinesMembers(lines: seq<Line>, rest: seq<Row>)
    requires GoodLines(lines)
    ensures MembersIn(LineRows(lines) + rest) == MemberRows(lines) + MembersIn(rest)
    decreases |lines|
  {
    hide KindOf, GoodLine, LineRows;
    if lines == [] {
      NoLines(rest);
    } else {
      FirstLine(lines, rest);
      KindOfLine(lines[0]);
      LinesMembers(lines[1..], rest);
    }
  }

  lemma {:induction false} LinesDeclared(lines: seq<Line>, rest: seq<Row>, have: bool, lead: seq<Row>)
    requires GoodLines(lines)
    ensures Declared(LineRows(lines) + rest, have, lead) == Declared(rest, have, if have then lead else lead + MemberRows(lines))
    decreases |lines|
  {
    hide KindOf, GoodLine, LineRows;
    if lines == [] {
      NoLines(rest);
      assert lead + [] == lead;
    } else {
      FirstLine(lines, rest);
      KindOfLine(lines[0]);
      var row, others := lines[0].row, lines[1..];
      LinesDeclared(others, rest, have, if have || lines[0].Noise? then lead else lead + [row]);
      hide Declared;
      assert lead + ([row] + MemberRows(others)) == lead + [row] + MemberRows(others);
      assert lead + ([] + MemberRows(others)) == lead + MemberRows(others);
    }
  }

  /** Lines inside an object add their members and nothing else. */
  lemma {:induction false} LinesAdd(lines: seq<Line>, rest: seq<Row>, have: bool, lead: seq<Row>, name: seq<Byte>)
    requires GoodLines(lines)
    ensures Declared(LineRows(lines) + rest, have, lead) == Declared(rest, have, if have then lead else lead + MemberRows(lines))
    ensures ChildrenIn(LineRows(lines) + rest, name) == ChildrenIn(rest, name)
    ensures MembersIn(LineRows(lines) + rest) == MemberRows(lines) + MembersIn(rest)
  {
    hide Declared, ChildrenIn, MembersIn, LineRows, MemberRows, GoodLines;
    LinesDeclared(lines, rest, have, lead);
    LinesChildren(lines, rest, name);
    LinesMembers(lines, rest);
  }

  lemma {:induction false} NothingAfter(tail: seq<Row>, have: bool, lead: seq<Row>, name: seq<Byte>)
    requires Ends(tail)
    ensures Declared(tail, have, lead) == [] && ChildrenIn(tail, name) == [] && MembersIn(tail) == []
  {
    hide KindOf;
    if tail != [] { KindOfEnd(tail); }
  }

  lemma {:induction false} PlansHeirs(plans: seq<Plan>, tail: seq<Row>, name: seq<Byte>)
    requires GoodPlans(plans) && Ends(tail)
    ensures ChildrenIn(PlanRows(plans) + tail, name) == Heirs(plans, name)
    ensures MembersIn(PlanRows(plans) + tail) == []
    decreases |plans|
  {
    hide KindOf, GoodPlan, GoodLines, LineRows, Ends;
    if plans == [] {
      assert PlanRows(plans) + tail == tail;
      NothingAfter(tail, true, [], name);
    } else {
      var row := plans[0].row;
      assert GoodPlan(plans[0]);
      PlanLines(plans[0]);
      KindOfPlan(plans[0]);
      var rest := PlanRows(plans[1..]) + tail;
      var all := LineRows(plans[0].lines) + rest;
      assert PlanRows(plans) + tail == [row] + all && ([row] + all)[1..] == all;
      LinesAdd(plans[0].lines, rest, true, [], name);
      PlansHeirs(plans[1..], tail, name);
    }
  }

  lemma PlanLines(plan: Plan)
    requires GoodPlan(plan)
    ensures GoodLines(plan.lines) && plan.row != []
  {
  }

  lemma {:induction false} PlansDeclare(plans: seq<Plan>, tail: seq<Row>, have: bool, lead: seq<Row>)
    requires GoodPlans(plans) && Ends(tail) && (have ==> lead == [])
    ensures Declared(PlanRows(plans) + tail, have, lead) == Planned(plans, lead)
    decreases |plans|
  {
    hide KindOf, GoodPlan, GoodLines, LineRows, Ends, ChildrenIn, MembersIn;
    if plans == [] {
      assert PlanRows(plans) + tail == tail;
      NothingAfter(tail, have, lead, []);
    } else {
      var row, lines := plans[0].row, plans[0].lines;
      assert GoodPlan(plans[0]);
      PlanLines(plans[0]);
      KindOfPlan(plans[0]);
      var rest := PlanRows(plans[1..]) + tail;
      var all := LineRows(lines) + rest;
      assert PlanRows(plans) + tail == [row] + all && ([row] + all)[1..] == all;
      LinesAdd(lines, rest, true, [], row[0]);
      PlansHeirs(plans[1..], tail, row[0]);
      PlansDeclare(plans[1..], tail, true, []);
      assert MemberRows(lines) + [] == MemberRows(lines);
    }
  }

  /** Any objects with their member rows, with rows that say nothing strewn in, and whatever follows a
      row that says EOF: the model holds exactly these objects. Member rows in front of the first object
      go to that object. */
  lemma PlansAreModelled(lead: seq<Line>, plans: seq<Plan>, tail: seq<Row>)
    requires GoodLines(lead) && GoodPlans(plans) && Ends(tail)
    ensures All(Run(START, LineRows(lead) + PlanRows(plans) + tail)) == Planned(plans, MemberRows(lead))
  {
    hide Run, Declared, Planned, GoodLines, GoodPlans, Ends, LineRows, PlanRows, MemberRows;
    var rows := LineRows(lead) + PlanRows(plans) + tail;
    assert rows == LineRows(lead) + (PlanRows(plans) + tail);
    ModelDeclares(rows);
    LinesAdd(lead, PlanRows(plans) + tail, false, [], []);
    assert [] + MemberRows(lead) == MemberRows(lead);
    PlansDeclare(plans, tail, false, MemberRows(lead));
  }

  //////////////////////////////////////////////////////////////////////////////
  // The importer
  //////////////////////////////////////////////////////////////////////////////

  class Importer {
    var objects: seq<Object>
    var current: Object
    var haveObject: bool
    var endOfFile: bool

    function Now(): Model
      reads this
    {
      Model(objects, current, haveObject, endOfFile)
    }

    constructor ()
      ensures Now() == START
    {
      objects, current, haveObject, endOfFile := [], NOTHING, false, false;
    }

    method ProcessArgs(row: Row)
      modifies this
      ensures Now() == Process(old(Now()), row)
    {
      hide KindOf;
      if endOfFile {
        return;
      }
      match KindOf(row) {
        case EndRow => endOfFile := true;
        case OtherRow =>
        case ObjectRow => BeginObject(row);
        case MemberRow => current := current.(items := current.items + [row]);
      }
    }

    method BeginObject(row: Row)
      requires row != []
      modifies this
      ensures Now() == Declare(old(Now()), row)
    {
      if haveObject {
        objects := objects + [current];
        current := NOTHING;
      }
      haveObject := true;
      current := Begun(current, row);
      if |row| >= 4 {
        AddToParents(row[3], row[0]);
      }
    }

    method AddToParents(parent: seq<Byte>, child: seq<Byte>)
      modifies this`objects
      ensures objects == AddChild(old(objects), parent, child)
    {
      var before := objects;
      for j := 0 to |objects|
        invariant |objects| == |before|
        invariant objects[..j] == AddChild(before, parent, child)[..j] && objects[j..] == before[j..]
      {
        assert objects[j] == objects[j..][0] == before[j..][0] == before[j];
        if objects[j].name == parent {
          objects := objects[j := objects[j].(children := objects[j].children + [child])];
        }
        assert objects[j] == AddChild(before, parent, child)[j];
      }
    }

    /** The rows of the text, one by one, until one says EOF; then the current object is stored. */
    method ParseCSV(data: array<Byte>, ghost src: seq<Byte>)
      requires Fresh(data, src, 0) && Now() == START
      modifies this, data
      ensures objects == Declared(Rows(src, 0), false, []) && !haveObject
    {
      hide Process, RowAt, Declared, Fresh, Run, Rows;
      ModelDeclares(Rows(src, 0));
      ReadRows(data, src);
      if haveObject {
        objects := objects + [current];
        current := NOTHING;
        haveObject := false;
      }
    }

    /** ... its loop. */
    method ReadRows(data: array<Byte>, ghost src: seq<Byte>)
      requires Fresh(data, src, 0) && !endOfFile
      modifies this, data
      ensures Now() == Run(old(Now()), Rows(src, 0))
    {
      hide Process, RowAt, Fresh, Run, Rows;
      ghost var goal := Run(Now(), Rows(src, 0));
      var scan, more := 0, true;
      while more && !endOfFile
        invariant 0 <= scan <= |src|
        invariant more && !endOfFile ==> Fresh(data, src, scan) && Run(Now(), Rows(src, scan)) == goal
        invariant !more || endOfFile ==> Now() == goal
        decreases |src| - scan, more
      {
        RowsUnfold(Now(), src, scan);
        scan := SkipLinefeeds(data, scan, src);
        var c := PeekAt(data, scan, src);
        if c == 0 {
          more := false;
        } else {
          var r := TakeRow(data, scan, src);
          if r.None? {
            more := false;
          } else {
            ProcessArgs(r.value.0);
            scan := r.value.1;
          }
        }
      }
    }
  }

  method SkipLinefeeds(data: array<Byte>, start: nat, ghost src: seq<Byte>) returns (scan: nat)
    requires Fresh(data, src, start)
    ensures scan == SkipNewlines(src, start) && Fresh(data, src, scan)
  {
    scan := start;
    FreshPeek(data, src, scan);
    while data[scan] == LF || data[scan] == CR
      invariant start <= scan && Fresh(data, src, scan) && data[scan] == Peek(src, scan)
      invariant SkipNewlines(src, start) == SkipNewlines(src, scan)
      decreases |src| - scan
    {
      FreshPeek(data, src, scan);
      scan := scan + 1;
      FreshPeek(data, src, scan);
    }
  }

  method PeekAt(data: array<Byte>, scan: nat, ghost src: seq<Byte>) returns (c: Byte)
    requires Fresh(data, src, scan)
    ensures c == Peek(src, scan)
  {
    FreshPeek(data, src, scan);
    c := data[scan];
  }

  /** The next row, and what is left to run. */
  lemma {:induction false} RowsUnfold(m: Model, src: seq<Byte>, p: nat)
    requires p <= |src| && !m.ended
    ensures var q := SkipNewlines(src, p);
            if Peek(src, q) == 0 || RowAt(src, q, []).None? then Run(m, Rows(src, p)) == m
            else
              var (row, next) := RowAt(src, q, []).value;
              var after := Process(m, row);
              Run(m, Rows(src, p)) == if after.ended then after else Run(after, Rows(src, next))
  {
    hide RowAt, IsEof;
    var q := SkipNewlines(src, p);
    if Peek(src, q) != 0 && RowAt(src, q, []).Some? {
      var (row, next) := RowAt(src, q, []).value;
      EndsAtEof(m, row);
      if IsEof(row[0]) {
        RunFirst(m, row, []);
      } else {
        RunFirst(m, row, Rows(src, next));
      }
    }
  }

  lemma EndsAtEof(m: Model, row: Row)
    requires !m.ended && row != []
    ensures Process(m, row).ended <==> IsEof(row[0])
  {
  }

  lemma RunFirst(m: Model, row: Row, rest: seq<Row>)
    ensures Run(m, [row] + rest) == Run(Process(m, row), rest)
    ensures Run(m, [row]) == Process(m, row)
  {
    hide Process;
    assert ([row] + rest)[1..] == rest && [row][1..] == [];
  }
}
