/**
 The iterative parser of reader.h: Tokenize, Predict, Transit, HandleError and the loop of
 IterativeParse, as a state machine over the text, and its agreement with recursive descent.
 */
module Machine {
  import opened Ascii
  import opened Events
  import opened Scanner
  import opened Descent

  datatype State =
    | Finish | Error | Start
    | ObjectInitial | MemberKey | MemberValue | ObjectFinish
    | ArrayInitial | Element | ArrayFinish
    | SingleValue
    | ElementDelimiter | MemberDelimiter | KeyValueDelimiter

  datatype Token =
    | LeftBracket | RightBracket | LeftCurly | RightCurly | CommaToken | ColonToken
    | StringToken | FalseToken | TrueToken | NullToken | NumberToken

  function Tokenize(c: Byte): Token {
    if c == LBRACKET then LeftBracket
    else if c == RBRACKET then RightBracket
    else if c == LBRACE then LeftCurly
    else if c == RBRACE then RightCurly
    else if c == COMMA then CommaToken
    else if c == COLON then ColonToken
    else if c == QUOTE then StringToken
    else if c == FALSE[0] then FalseToken
    else if c == TRUE[0] then TrueToken
    else if c == NULL[0] then NullToken
    else NumberToken
  }

  predicate IsScalarToken(t: Token) {
    t.StringToken? || t.FalseToken? || t.TrueToken? || t.NullToken? || t.NumberToken?
  }

  /** The table G: one lookahead token decides the next state. */
  function Predict(state: State, t: Token): State {
    match state
    case Start =>
      if t.LeftBracket? then ArrayInitial
      else if t.LeftCurly? then ObjectInitial
      else if IsScalarToken(t) then SingleValue
      else Error
    case ObjectInitial | MemberDelimiter =>
      if t.RightCurly? then ObjectFinish
      else if t.StringToken? then MemberKey
      else Error
    case MemberKey =>
      if t.ColonToken? then KeyValueDelimiter else Error
    case MemberValue =>
      if t.RightCurly? then ObjectFinish
      else if t.CommaToken? then MemberDelimiter
      else Error
    case ArrayInitial | ElementDelimiter =>
      if t.LeftBracket? then ArrayInitial
      else if t.RightBracket? then ArrayFinish
      else if t.LeftCurly? then ObjectInitial
      else if IsScalarToken(t) then Element
      else Error
    case Element =>
      if t.RightBracket? then ArrayFinish
      else if t.CommaToken? then ElementDelimiter
      else Error
    case KeyValueDelimiter =>
      if t.LeftBracket? then ArrayInitial
      else if t.LeftCurly? then ObjectInitial
      else if IsScalarToken(t) then MemberValue
      else Error
    case _ => Error
  }

  /** What Transit pushes: the state to return to, and a member or element count. */
  datatype Frame = Frame(state: State, count: Size)

  datatype Snapshot = At(pos: nat, state: State, stack: seq<Frame>, sent: seq<Event>)

  /** The result of Transit: a new configuration, or an error already set, or one for HandleError. */
  datatype Transition = Next(to: Snapshot) | Stop(code: ErrorCode, offset: nat)

  /** The error HandleError reports when none is set. */
  function HandleError(state: State): ErrorCode {
    match state
    case Start => DocumentEmpty
    case Finish => DocumentRootNotSingular
    case ObjectInitial | MemberDelimiter => ObjectMissName
    case MemberKey => ObjectMissColon
    case MemberValue => ObjectMissCommaOrCurlyBracket
    case KeyValueDelimiter | ArrayInitial | ElementDelimiter => ValueInvalid
    case _ => ArrayMissCommaOrSquareBracket
  }

  /** The state pushed when a container opens in `state`. */
  function ReturnState(state: State): State {
    match state
    case ArrayInitial | ElementDelimiter => Element
    case KeyValueDelimiter => MemberValue
    case _ => state
  }

  /** The state popped when a container closes. */
  function Restored(state: State): State {
    if state == Start then Finish else state
  }

  predicate InContainer(state: State) {
    state in {ObjectInitial, MemberKey, MemberValue, MemberDelimiter, KeyValueDelimiter,
              ArrayInitial, Element, ElementDelimiter}
  }

  /** The stack discipline: only the bottom frame returns to the root, and a state inside a container
      has a frame to pop. */
  predicate Fits(state: State, stack: seq<Frame>) {
    && (InContainer(state) <==> stack != [])
    && (forall i :: 0 <= i < |stack| ==>
          if i == 0 then stack[i].state == Start else stack[i].state in {Element, MemberValue})
  }

  function Transit(src: seq<Byte>, c: Snapshot, cfg: Config): (r: Transition)
    requires c.pos < |src| && Peek(src, c.pos) != 0 && Fits(c.state, c.stack)
    ensures r.Next? ==> c.pos < r.to.pos <= |src| && Fits(r.to.state, r.to.stack)
  {
    var dst := Predict(c.state, Tokenize(Peek(src, c.pos)));
    match dst
    case Error => Stop(HandleError(c.state), c.pos)
    case ObjectInitial | ArrayInitial =>
      var event := if dst == ObjectInitial then StartObject else StartArray;
      Next(At(c.pos + 1, dst, c.stack + [Frame(ReturnState(c.state), 0)], c.sent + [event]))
    case MemberKey =>
      var name := StringAt(src, c.pos, cfg);
      if name.Ok? then Next(At(name.pos, dst, c.stack, c.sent + [Key(name.value)])) else Stop(name.code, name.offset)
    case KeyValueDelimiter => Next(c.(pos := c.pos + 1, state := dst))
    case MemberDelimiter | ElementDelimiter =>
      var top := c.stack[|c.stack| - 1];
      Next(At(c.pos + 1, dst, c.stack[..|c.stack| - 1] + [top.(count := Inc(top.count))], c.sent))
    case ObjectFinish =>
      if !cfg.trailingCommas && c.state == MemberDelimiter then Stop(ObjectMissName, c.pos)
      else
        var top := c.stack[|c.stack| - 1];
        var count := if c.state == MemberValue then Inc(top.count) else top.count;
        Next(At(c.pos + 1, Restored(top.state), c.stack[..|c.stack| - 1], c.sent + [EndObject(count)]))
    case ArrayFinish =>
      if !cfg.trailingCommas && c.state == ElementDelimiter then Stop(ValueInvalid, c.pos)
      else
        var top := c.stack[|c.stack| - 1];
        var count := if c.state == Element then Inc(top.count) else top.count;
        Next(At(c.pos + 1, Restored(top.state), c.stack[..|c.stack| - 1], c.sent + [EndArray(count)]))
    case _ =>
      // MemberValue, Element and SingleValue: a value that is not compound
      var v := Scalar(src, c.pos, cfg);
      if v.Err? then Stop(v.code, v.offset)
      else Next(At(v.pos, if dst == SingleValue then Finish else dst, c.stack, c.sent + [v.value]))
  }

  /** The loop of IterativeParse, entered after white space has been skipped. */
  function Run(src: seq<Byte>, c: Snapshot, cfg: Config): Outcome
    requires c.pos <= |src| && Fits(c.state, c.stack)
    decreases |src| - c.pos, 0
  {
    if Peek(src, c.pos) == 0 then
      if c.state == Finish then Done(c.sent, c.pos) else Fail(c.sent, HandleError(c.state), c.pos)
    else
      var t := Transit(src, c, cfg);
      if t.Stop? then Fail(c.sent, t.code, t.offset) else Resume(src, t.to, cfg)
  }

  /** The rest of the loop body once Transit has moved the machine. */
  function Resume(src: seq<Byte>, c: Snapshot, cfg: Config): Outcome
    requires c.pos <= |src| && Fits(c.state, c.stack)
    decreases |src| - c.pos, 1
  {
    if cfg.stopWhenDone && c.state == Finish then Done(c.sent, c.pos) else
    var at := Skip(src, c.pos, cfg.comments);
    if at.Err? then Fail(c.sent, at.code, at.offset) else Run(src, c.(pos := at.pos), cfg)
  }

  function IterativeParse(src: seq<Byte>, cfg: Config): Outcome {
    var at := Skip(src, 0, cfg.comments);
    if at.Err? then Fail([], at.code, at.offset) else Run(src, At(at.pos, Start, [], []), cfg)
  }

  //////////////////////////////////////////////////////////////////////////////
  // Agreement with recursive descent
  //////////////////////////////////////////////////////////////////////////////

  /** The states in which a value is expected, and the state that follows the value. */
  predicate ExpectsValue(state: State) {
    state in {Start, ArrayInitial, ElementDelimiter, KeyValueDelimiter}
  }

  function AfterValue(state: State): State {
    Restored(ReturnState(state))
  }

  /** The machine goes on, with this stack and state, from where recursive descent has got to. */
  function GoOn(src: seq<Byte>, r: Outcome, state: State, stack: seq<Frame>, cfg: Config): Outcome
    requires r.Done? ==> r.pos <= |src|
    requires Fits(state, stack)
  {
    if r.Fail? then r else Resume(src, At(r.pos, state, stack, r.events), cfg)
  }

  predicate Misplaced(c: Byte) {
    c == RBRACKET || c == RBRACE || c == COMMA || c == COLON
  }

  // Single turns of the loop

  lemma Stops(src: seq<Byte>, c: Snapshot, cfg: Config)
    requires c.pos <= |src| && Fits(c.state, c.stack) && c.state != Finish
    requires Peek(src, c.pos) == 0 || Predict(c.state, Tokenize(Peek(src, c.pos))) == Error
    ensures Run(src, c, cfg) == Fail(c.sent, HandleError(c.state), c.pos)
  {
    hide Resume, Skip, StringAt, Scalar;
  }

  lemma TakesScalar(src: seq<Byte>, c: Snapshot, cfg: Config)
    requires c.pos < |src| && ExpectsValue(c.state) && Fits(c.state, c.stack)
    requires Peek(src, c.pos) != 0 && IsScalarToken(Tokenize(Peek(src, c.pos)))
    ensures Fits(AfterValue(c.state), c.stack)
    ensures var v := Scalar(src, c.pos, cfg);
            Run(src, c, cfg) == if v.Err? then Fail(c.sent, v.code, v.offset)
                                else Resume(src, At(v.pos, AfterValue(c.state), c.stack, c.sent + [v.value]), cfg)
  {
    hide Resume, Skip, StringAt, Scalar;
  }

  lemma TakesOpening(src: seq<Byte>, c: Snapshot, cfg: Config)
    requires c.pos < |src| && ExpectsValue(c.state) && Fits(c.state, c.stack)
    requires Peek(src, c.pos) in {LBRACE, LBRACKET}
    ensures var (state, event) := if Peek(src, c.pos) == LBRACE then (ObjectInitial, StartObject)
                                  else (ArrayInitial, StartArray);
            var stack := c.stack + [Frame(ReturnState(c.state), 0)];
            && Fits(state, stack)
            && Run(src, c, cfg) == Resume(src, At(c.pos + 1, state, stack, c.sent + [event]), cfg)
  {
    hide Resume, Skip, StringAt, Scalar;
    var state := if Peek(src, c.pos) == LBRACE then ObjectInitial else ArrayInitial;
    assert Predict(c.state, Tokenize(Peek(src, c.pos))) == state;
  }

  lemma TakesName(src: seq<Byte>, c: Snapshot, cfg: Config)
    requires c.pos < |src| && c.state in {ObjectInitial, MemberDelimiter} && Fits(c.state, c.stack)
    requires Peek(src, c.pos) == QUOTE
    ensures var name := StringAt(src, c.pos, cfg);
            Run(src, c, cfg) == if name.Err? then Fail(c.sent, name.code, name.offset)
                                else Resume(src, At(name.pos, MemberKey, c.stack, c.sent + [Key(name.value)]), cfg)
  {
    hide Resume, Skip, StringAt, Scalar;
  }

  lemma TakesColon(src: seq<Byte>, c: Snapshot, cfg: Config)
    requires c.pos < |src| && c.state == MemberKey && Fits(c.state, c.stack)
    requires Peek(src, c.pos) == COLON
    ensures Run(src, c, cfg) == Resume(src, At(c.pos + 1, KeyValueDelimiter, c.stack, c.sent), cfg)
  {
    hide Resume, Skip, StringAt, Scalar;
  }

  function Delimiter(state: State): State {
    if state == Element then ElementDelimiter else MemberDelimiter
  }

  /** A comma counts the value before it. */
  lemma TakesComma(src: seq<Byte>, p: nat, state: State, stack: seq<Frame>, frame: Frame, cfg: Config, sent: seq<Event>)
    requires p < |src| && state in {MemberValue, Element} && Fits(state, stack + [frame])
    requires Peek(src, p) == COMMA
    ensures var counted := stack + [Frame(frame.state, Inc(frame.count))];
            && Fits(Delimiter(state), counted)
            && Run(src, At(p, state, stack + [frame], sent), cfg)
            == Resume(src, At(p + 1, Delimiter(state), counted, sent), cfg)
  {
    hide Resume, Skip, StringAt, Scalar;
    assert (stack + [frame])[..|stack|] == stack;
    assert forall i :: 0 <= i <= |stack| ==>
      (stack + [Frame(frame.state, Inc(frame.count))])[i].state == (stack + [frame])[i].state;
  }

  /** `p` holds the bracket that closes the container of `state`. */
  predicate Closes(src: seq<Byte>, p: nat, state: State, cfg: Config) {
    && p < |src|
    && ( || (state in {ObjectInitial, MemberValue, MemberDelimiter} && Peek(src, p) == RBRACE)
         || (state in {ArrayInitial, Element, ElementDelimiter} && Peek(src, p) == RBRACKET))
    && (state in {MemberDelimiter, ElementDelimiter} ==> cfg.trailingCommas)
  }

  function ClosingEvent(c: Byte, state: State, count: Size): Event {
    var count := if state in {MemberValue, Element} then Inc(count) else count;
    if c == RBRACE then EndObject(count) else EndArray(count)
  }

  lemma ClosingTransit(src: seq<Byte>, p: nat, state: State, stack: seq<Frame>, frame: Frame, cfg: Config, sent: seq<Event>)
    requires Closes(src, p, state, cfg) && Fits(state, stack + [frame])
    ensures Transit(src, At(p, state, stack + [frame], sent), cfg)
         == Next(At(p + 1, Restored(frame.state), stack, sent + [ClosingEvent(Peek(src, p), state, frame.count)]))
  {
    hide StringAt, Scalar, Fits;
    assert (stack + [frame])[..|stack|] == stack;
    var dst := if Peek(src, p) == RBRACE then ObjectFinish else ArrayFinish;
    assert Predict(state, Tokenize(Peek(src, p))) == dst;
  }

  /** A closing bracket pops its frame. */
  lemma TakesClosing(src: seq<Byte>, p: nat, state: State, stack: seq<Frame>, frame: Frame, cfg: Config, sent: seq<Event>)
    requires Closes(src, p, state, cfg) && Fits(state, stack + [frame])
    ensures Fits(Restored(frame.state), stack)
    ensures Run(src, At(p, state, stack + [frame], sent), cfg)
         == GoOn(src, Done(sent + [ClosingEvent(Peek(src, p), state, frame.count)], p + 1),
                 Restored(frame.state), stack, cfg)
  {
    hide Transit, Fits, Resume, Skip;
    PopFits(stack, frame, state);
    ClosingTransit(src, p, state, stack, frame, cfg, sent);
  }

  /** Popping a frame leaves a stack that fits the state the frame restores. */
  lemma PopFits(stack: seq<Frame>, frame: Frame, state: State)
    requires Fits(state, stack + [frame])
    ensures Fits(Restored(frame.state), stack)
  {
    assert (stack + [frame])[|stack|] == frame;
    assert forall i :: 0 <= i < |stack| ==> (stack + [frame])[i] == stack[i];
  }

  lemma FitsInside(a: State, b: State, stack: seq<Frame>)
    requires Fits(a, stack) && InContainer(a) && InContainer(b)
    ensures Fits(b, stack)
  {
  }

  // Whole values

  /** Where a value is expected, the machine does what ParseValue does and then goes on. */
  lemma ValueAgrees(src: seq<Byte>, p: nat, state: State, stack: seq<Frame>, cfg: Config, sent: seq<Event>)
    requires p <= |src| && ExpectsValue(state) && Fits(state, stack)
    requires state == Start ==> Peek(src, p) != 0 && !Misplaced(Peek(src, p))
    requires state in {ArrayInitial, ElementDelimiter} ==> Peek(src, p) != RBRACKET
    ensures Fits(AfterValue(state), stack)
    ensures Run(src, At(p, state, stack, sent), cfg)
         == GoOn(src, ParseValue(src, p, cfg, sent), AfterValue(state), stack, cfg)
    decreases |src| - p, 1
  {
    hide Transit, Skip;
    var c := At(p, state, stack, sent);
    if Peek(src, p) == LBRACE {
      ObjectAgrees(src, p, state, stack, cfg, sent);
    } else if Peek(src, p) == LBRACKET {
      ArrayAgrees(src, p, state, stack, cfg, sent);
    } else if Peek(src, p) == 0 || Misplaced(Peek(src, p)) {
      Stops(src, c, cfg);
      assert Scalar(src, p, cfg) == Err(ValueInvalid, p);
    } else {
      TakesScalar(src, c, cfg);
    }
  }

  lemma ObjectAgrees(src: seq<Byte>, p: nat, state: State, stack: seq<Frame>, cfg: Config, sent: seq<Event>)
    requires p <= |src| && ExpectsValue(state) && Fits(state, stack)
    requires Peek(src, p) == LBRACE
    ensures Fits(AfterValue(state), stack)
    ensures Run(src, At(p, state, stack, sent), cfg)
         == GoOn(src, ParseObject(src, p, cfg, sent), AfterValue(state), stack, cfg)
    decreases |src| - p, 0
  {
    hide Transit, Fits, Skip, Members, Run;
    var frame := Frame(ReturnState(state), 0);
    TakesOpening(src, At(p, state, stack, sent), cfg);
    PopFits(stack, frame, ObjectInitial);
    var at := Skip(src, p + 1, cfg.comments);
    if at.Ok? {
      if Peek(src, at.pos) == RBRACE {
        TakesClosing(src, at.pos, ObjectInitial, stack, frame, cfg, sent + [StartObject]);
      } else {
        MembersAgree(src, at.pos, ObjectInitial, stack, frame, cfg, sent + [StartObject]);
      }
    }
  }

  lemma MembersAgree(src: seq<Byte>, p: nat, state: State, stack: seq<Frame>, frame: Frame, cfg: Config, sent: seq<Event>)
    requires p <= |src| && state in {ObjectInitial, MemberDelimiter} && Fits(state, stack + [frame])
    requires Peek(src, p) == RBRACE ==> state == MemberDelimiter && !cfg.trailingCommas
    ensures Fits(Restored(frame.state), stack)
    ensures Run(src, At(p, state, stack + [frame], sent), cfg)
         == GoOn(src, Members(src, p, cfg, frame.count, sent), Restored(frame.state), stack, cfg)
    decreases |src| - p, 3
  {
    hide Fits, Skip, StringAt, AfterKey;
    PopFits(stack, frame, state);
    var c := At(p, state, stack + [frame], sent);
    if Peek(src, p) == QUOTE {
      TakesName(src, c, cfg);
      var name := StringAt(src, p, cfg);
      if name.Ok? {
        FitsInside(state, MemberKey, c.stack);
        KeyAgrees(src, p, name.pos, stack, frame, cfg, sent + [Key(name.value)]);
      }
    } else if Peek(src, p) == RBRACE {
    } else {
      Stops(src, c, cfg);
    }
  }

  /** From the end of a name at `p` on. */
  lemma KeyAgrees(src: seq<Byte>, start: nat, p: nat, stack: seq<Frame>, frame: Frame, cfg: Config, sent: seq<Event>)
    requires start < p <= |src| && Fits(MemberKey, stack + [frame])
    ensures Fits(Restored(frame.state), stack)
    ensures Resume(src, At(p, MemberKey, stack + [frame], sent), cfg)
         == GoOn(src, AfterKey(src, start, p, cfg, frame.count, sent), Restored(frame.state), stack, cfg)
    decreases |src| - start, 2
  {
    hide Transit, Fits, Skip, ParseValue, AfterMember, Run;
    PopFits(stack, frame, MemberKey);
    var c := At(p, MemberKey, stack + [frame], sent);
    FitsInside(MemberKey, KeyValueDelimiter, c.stack);
    FitsInside(MemberKey, MemberValue, c.stack);
    var colon := Skip(src, p, cfg.comments);
    if colon.Ok? {
      if Peek(src, colon.pos) == COLON {
        TakesColon(src, c.(pos := colon.pos), cfg);
        var at := Skip(src, colon.pos + 1, cfg.comments);
        if at.Ok? {
          ValueAgrees(src, at.pos, KeyValueDelimiter, c.stack, cfg, sent);
          AfterMemberAgrees(src, start, ParseValue(src, at.pos, cfg, sent), stack, frame, cfg);
        }
      } else {
        Stops(src, c.(pos := colon.pos), cfg);
      }
    }
  }

  lemma AfterMemberAgrees(src: seq<Byte>, start: nat, v: Outcome, stack: seq<Frame>, frame: Frame, cfg: Config)
    requires start < |src| && Advances(src, start, v) && Fits(MemberValue, stack + [frame])
    ensures Fits(Restored(frame.state), stack)
    ensures GoOn(src, v, MemberValue, stack + [frame], cfg)
         == GoOn(src, AfterMember(src, start, v, cfg, Inc(frame.count)), Restored(frame.state), stack, cfg)
    decreases |src| - start, 1
  {
    hide Transit, Fits, Skip, AfterComma, Run;
    PopFits(stack, frame, MemberValue);
    if v.Done? {
      var at := Skip(src, v.pos, cfg.comments);
      if at.Ok? {
        if Peek(src, at.pos) == COMMA {
          CommaAgrees(src, at.pos, stack, frame, cfg, v.events);
        } else if Peek(src, at.pos) == RBRACE {
          TakesClosing(src, at.pos, MemberValue, stack, frame, cfg, v.events);
        } else {
          Stops(src, At(at.pos, MemberValue, stack + [frame], v.events), cfg);
        }
      }
    }
  }

  /** From a comma after a member at `p` on. */
  lemma CommaAgrees(src: seq<Byte>, p: nat, stack: seq<Frame>, frame: Frame, cfg: Config, sent: seq<Event>)
    requires p < |src| && Peek(src, p) == COMMA && Fits(MemberValue, stack + [frame])
    ensures Fits(Restored(frame.state), stack)
    ensures Run(src, At(p, MemberValue, stack + [frame], sent), cfg)
         == GoOn(src, AfterComma(src, p, cfg, Inc(frame.count), sent), Restored(frame.state), stack, cfg)
    decreases |src| - p, 0
  {
    hide Transit, Fits, Skip, Members, Run;
    PopFits(stack, frame, MemberValue);
    var counted := Frame(frame.state, Inc(frame.count));
    TakesComma(src, p, MemberValue, stack, frame, cfg, sent);
    var at := Skip(src, p + 1, cfg.comments);
    if at.Ok? {
      if cfg.trailingCommas && Peek(src, at.pos) == RBRACE {
        TakesClosing(src, at.pos, MemberDelimiter, stack, counted, cfg, sent);
      } else {
        MembersAgree(src, at.pos, MemberDelimiter, stack, counted, cfg, sent);
      }
    }
  }

  lemma ArrayAgrees(src: seq<Byte>, p: nat, state: State, stack: seq<Frame>, cfg: Config, sent: seq<Event>)
    requires p <= |src| && ExpectsValue(state) && Fits(state, stack)
    requires Peek(src, p) == LBRACKET
    ensures Fits(AfterValue(state), stack)
    ensures Run(src, At(p, state, stack, sent), cfg)
         == GoOn(src, ParseArray(src, p, cfg, sent), AfterValue(state), stack, cfg)
    decreases |src| - p, 0
  {
    hide Transit, Fits, Skip, Elements, Run;
    var frame := Frame(ReturnState(state), 0);
    TakesOpening(src, At(p, state, stack, sent), cfg);
    PopFits(stack, frame, ArrayInitial);
    var at := Skip(src, p + 1, cfg.comments);
    if at.Ok? {
      if Peek(src, at.pos) == RBRACKET {
        TakesClosing(src, at.pos, ArrayInitial, stack, frame, cfg, sent + [StartArray]);
      } else {
        ElementsAgree(src, at.pos, ArrayInitial, stack, frame, cfg, sent + [StartArray]);
      }
    }
  }

  lemma ElementsAgree(src: seq<Byte>, p: nat, state: State, stack: seq<Frame>, frame: Frame, cfg: Config, sent: seq<Event>)
    requires p <= |src| && state in {ArrayInitial, ElementDelimiter} && Fits(state, stack + [frame])
    requires Peek(src, p) == RBRACKET ==> state == ElementDelimiter && !cfg.trailingCommas
    ensures Fits(Restored(frame.state), stack)
    ensures Run(src, At(p, state, stack + [frame], sent), cfg)
         == GoOn(src, Elements(src, p, cfg, frame.count, sent), Restored(frame.state), stack, cfg)
    decreases |src| - p, 3
  {
    hide Fits, Skip, AfterElement;
    PopFits(stack, frame, state);
    var c := At(p, state, stack + [frame], sent);
    if Peek(src, p) == RBRACKET {
      assert Scalar(src, p, cfg) == Err(ValueInvalid, p);
      assert ParseValue(src, p, cfg, sent) == Fail(sent, ValueInvalid, p);
      LoneBracket(src, p, cfg, Inc(frame.count), sent);
    } else {
      FitsInside(state, Element, c.stack);
      ValueAgrees(src, p, state, c.stack, cfg, sent);
      AfterElementAgrees(src, p, ParseValue(src, p, cfg, sent), stack, frame, cfg);
    }
  }

  lemma LoneBracket(src: seq<Byte>, p: nat, cfg: Config, count: Size, sent: seq<Event>)
    requires p <= |src|
    ensures AfterElement(src, p, Fail(sent, ValueInvalid, p), cfg, count) == Fail(sent, ValueInvalid, p)
  {
  }

  lemma AfterElementAgrees(src: seq<Byte>, start: nat, v: Outcome, stack: seq<Frame>, frame: Frame, cfg: Config)
    requires start <= |src| && Advances(src, start, v) && Fits(Element, stack + [frame])
    ensures Fits(Restored(frame.state), stack)
    ensures GoOn(src, v, Element, stack + [frame], cfg)
         == GoOn(src, AfterElement(src, start, v, cfg, Inc(frame.count)), Restored(frame.state), stack, cfg)
    decreases |src| - start, 2
  {
    hide Transit, Fits, Skip, AfterElementComma, Run;
    PopFits(stack, frame, Element);
    if v.Done? {
      var at := Skip(src, v.pos, cfg.comments);
      if at.Ok? {
        if Peek(src, at.pos) == COMMA {
          ElementCommaAgrees(src, at.pos, stack, frame, cfg, v.events);
        } else if Peek(src, at.pos) == RBRACKET {
          TakesClosing(src, at.pos, Element, stack, frame, cfg, v.events);
        } else {
          Stops(src, At(at.pos, Element, stack + [frame], v.events), cfg);
        }
      }
    }
  }

  /** From a comma after an element at `p` on. */
  lemma ElementCommaAgrees(src: seq<Byte>, p: nat, stack: seq<Frame>, frame: Frame, cfg: Config, sent: seq<Event>)
    requires p < |src| && Peek(src, p) == COMMA && Fits(Element, stack + [frame])
    ensures Fits(Restored(frame.state), stack)
    ensures Run(src, At(p, Element, stack + [frame], sent), cfg)
         == GoOn(src, AfterElementComma(src, p, cfg, Inc(frame.count), sent), Restored(frame.state), stack, cfg)
    decreases |src| - p, 0
  {
    hide Transit, Fits, Skip, Elements, Run;
    PopFits(stack, frame, Element);
    var counted := Frame(frame.state, Inc(frame.count));
    TakesComma(src, p, Element, stack, frame, cfg, sent);
    var at := Skip(src, p + 1, cfg.comments);
    if at.Ok? {
      if cfg.trailingCommas && Peek(src, at.pos) == RBRACKET {
        TakesClosing(src, at.pos, ElementDelimiter, stack, counted, cfg, sent);
      } else {
        ElementsAgree(src, at.pos, ElementDelimiter, stack, counted, cfg, sent);
      }
    }
  }

  // Whole texts

  /** The first character after leading white space and comments, if those are well formed. */
  function FirstCharacter(src: seq<Byte>, cfg: Config): Byte {
    var at := Skip(src, 0, cfg.comments);
    if at.Err? then 0 else Peek(src, at.pos)
  }

  /** After the root value the machine does what Parse does. */
  lemma RootAgrees(src: seq<Byte>, v: Outcome, cfg: Config)
    requires Advances(src, 0, v)
    ensures GoOn(src, v, Finish, [], cfg) == AfterRoot(src, v, cfg)
  {
    if v.Done? && !cfg.stopWhenDone {
      var at := Skip(src, v.pos, cfg.comments);
      if at.Ok? {
        assert Resume(src, At(v.pos, Finish, [], v.events), cfg) == Run(src, At(at.pos, Finish, [], v.events), cfg);
      }
    }
  }

  /** The two parsers agree on every text and under every combination of flags: same events, same
      verdict, same error code and offset -- but for a text whose first character is a misplaced
      `]`, `}`, `,` or `:`. */
  lemma ParsersAgree(src: seq<Byte>, cfg: Config)
    ensures IterativeParse(src, cfg) == Parse(src, cfg) <==> !Misplaced(FirstCharacter(src, cfg))
  {
    hide Transit, ParseObject, ParseArray, Resume, Skip, AfterRoot, Run;
    var at := Skip(src, 0, cfg.comments);
    if at.Ok? {
      var c := At(at.pos, Start, [], []);
      if Peek(src, at.pos) == 0 || Misplaced(Peek(src, at.pos)) {
        MisplacedRoot(src, cfg);
        Stops(src, c, cfg);
      } else {
        ValueAgrees(src, at.pos, Start, [], cfg, []);
        RootAgrees(src, ParseValue(src, at.pos, cfg, []), cfg);
      }
    }
  }

  /** On a misplaced first character both parsers reject at the same offset, before any event. */
  lemma MisplacedRoot(src: seq<Byte>, cfg: Config)
    ensures Misplaced(FirstCharacter(src, cfg)) ==>
              var p := Skip(src, 0, cfg.comments).pos;
              && Parse(src, cfg) == Fail([], ValueInvalid, p)
              && IterativeParse(src, cfg) == Fail([], DocumentEmpty, p)
  {
    hide Skip, ParseObject, ParseArray;
    if Misplaced(FirstCharacter(src, cfg)) {
      var p := Skip(src, 0, cfg.comments).pos;
      assert Scalar(src, p, cfg) == Err(ValueInvalid, p);
      Stops(src, At(p, Start, [], []), cfg);
    }
  }

  /** The text `]`: one parser finds an invalid value, the other an empty document. */
  lemma ParsersDiffer(cfg: Config)
    ensures Parse([RBRACKET], cfg) == Fail([], ValueInvalid, 0)
    ensures IterativeParse([RBRACKET], cfg) == Fail([], DocumentEmpty, 0)
  {
    hide IterativeParse, Parse;
    assert Skip([RBRACKET], 0, cfg.comments) == Ok((), 0);
    MisplacedRoot([RBRACKET], cfg);
  }

  /** Hence on every text both accept or both reject, having sent the same events. */
  lemma ParsersAccept(src: seq<Byte>, cfg: Config)
    ensures IterativeParse(src, cfg).events == Parse(src, cfg).events
    ensures IterativeParse(src, cfg).Done? <==> Parse(src, cfg).Done?
    ensures Parse(src, cfg).Done? ==> IterativeParse(src, cfg).pos == Parse(src, cfg).pos
  {
    hide IterativeParse, Parse;
    ParsersAgree(src, cfg);
    MisplacedRoot(src, cfg);
  }
}
