/**
 The recursive-descent parser of reader.h as functions of the text: Parse, ParseValue, ParseObject
 and ParseArray. `sent` holds the events already sent to the handler.
 */
module Descent {
  import opened Ascii
  import opened Events
  import opened Scanner

  /** An outcome that stays inside the text and moves forward from `p`. */
  predicate Advances(src: seq<Byte>, p: nat, r: Outcome) {
    r.Done? ==> p < r.pos <= |src|
  }

  function ParseValue(src: seq<Byte>, p: nat, cfg: Config, sent: seq<Event>): (r: Outcome)
    requires p <= |src|
    ensures Advances(src, p, r)
    decreases |src| - p, 1
  {
    if Peek(src, p) == LBRACE then ParseObject(src, p, cfg, sent)
    else if Peek(src, p) == LBRACKET then ParseArray(src, p, cfg, sent)
    else
      var v := Scalar(src, p, cfg);
      if v.Ok? then Done(sent + [v.value], v.pos) else Fail(sent, v.code, v.offset)
  }

  function ParseObject(src: seq<Byte>, p: nat, cfg: Config, sent: seq<Event>): (r: Outcome)
    requires p < |src|
    ensures Advances(src, p, r)
    decreases |src| - p, 0
  {
    var sent := sent + [StartObject];
    var at := Skip(src, p + 1, cfg.comments);
    if at.Err? then Fail(sent, at.code, at.offset)
    else if Peek(src, at.pos) == RBRACE then Done(sent + [EndObject(0)], at.pos + 1)
    else Members(src, at.pos, cfg, 0, sent)
  }

  /** The loop of ParseObject at its head, with `count` members behind it. */
  function Members(src: seq<Byte>, p: nat, cfg: Config, count: Size, sent: seq<Event>): (r: Outcome)
    requires p <= |src|
    ensures Advances(src, p, r)
    decreases |src| - p, 4
  {
    if Peek(src, p) != QUOTE then Fail(sent, ObjectMissName, p) else
    var name := StringAt(src, p, cfg);
    if name.Err? then Fail(sent, name.code, name.offset)
    else AfterKey(src, p, name.pos, cfg, count, sent + [Key(name.value)])
  }

  /** ... at `p`, after the name of a member that begins at `start`. */
  function AfterKey(src: seq<Byte>, ghost start: nat, p: nat, cfg: Config, count: Size, sent: seq<Event>): (r: Outcome)
    requires start < p <= |src|
    ensures Advances(src, start, r)
    decreases |src| - start, 3
  {
    var colon := Skip(src, p, cfg.comments);
    if colon.Err? then Fail(sent, colon.code, colon.offset)
    else if Peek(src, colon.pos) != COLON then Fail(sent, ObjectMissColon, colon.pos)
    else
      var at := Skip(src, colon.pos + 1, cfg.comments);
      if at.Err? then Fail(sent, at.code, at.offset)
      else AfterMember(src, start, ParseValue(src, at.pos, cfg, sent), cfg, Inc(count))
  }

  /** ... after the value of a member that begins at `start`. */
  function AfterMember(src: seq<Byte>, ghost start: nat, v: Outcome, cfg: Config, count: Size): (r: Outcome)
    requires start <= |src| && Advances(src, start, v)
    ensures Advances(src, start, r)
    decreases |src| - start, 2
  {
    if v.Fail? then v else
    var at := Skip(src, v.pos, cfg.comments);
    if at.Err? then Fail(v.events, at.code, at.offset)
    else if Peek(src, at.pos) == COMMA then AfterComma(src, at.pos, cfg, count, v.events)
    else if Peek(src, at.pos) == RBRACE then Done(v.events + [EndObject(count)], at.pos + 1)
    else Fail(v.events, ObjectMissCommaOrCurlyBracket, at.pos)
  }

  /** ... at the comma after a member. */
  function AfterComma(src: seq<Byte>, p: nat, cfg: Config, count: Size, sent: seq<Event>): (r: Outcome)
    requires p < |src|
    ensures Advances(src, p, r)
    decreases |src| - p, 0
  {
    var next := Skip(src, p + 1, cfg.comments);
    if next.Err? then Fail(sent, next.code, next.offset)
    else if cfg.trailingCommas && Peek(src, next.pos) == RBRACE then
      Done(sent + [EndObject(count)], next.pos + 1)
    else Members(src, next.pos, cfg, count, sent)
  }

  function ParseArray(src: seq<Byte>, p: nat, cfg: Config, sent: seq<Event>): (r: Outcome)
    requires p < |src|
    ensures Advances(src, p, r)
    decreases |src| - p, 0
  {
    var sent := sent + [StartArray];
    var at := Skip(src, p + 1, cfg.comments);
    if at.Err? then Fail(sent, at.code, at.offset)
    else if Peek(src, at.pos) == RBRACKET then Done(sent + [EndArray(0)], at.pos + 1)
    else Elements(src, at.pos, cfg, 0, sent)
  }

  /** The loop of ParseArray at its head, with `count` elements behind it. */
  function Elements(src: seq<Byte>, p: nat, cfg: Config, count: Size, sent: seq<Event>): (r: Outcome)
    requires p <= |src|
    ensures Advances(src, p, r)
    decreases |src| - p, 3
  {
    AfterElement(src, p, ParseValue(src, p, cfg, sent), cfg, Inc(count))
  }

  /** ... after an element that begins at `start`. */
  function AfterElement(src: seq<Byte>, ghost start: nat, v: Outcome, cfg: Config, count: Size): (r: Outcome)
    requires start <= |src| && Advances(src, start, v)
    ensures Advances(src, start, r)
    decreases |src| - start, 2
  {
    if v.Fail? then v else
    var at := Skip(src, v.pos, cfg.comments);
    if at.Err? then Fail(v.events, at.code, at.offset)
    else if Peek(src, at.pos) == COMMA then AfterElementComma(src, at.pos, cfg, count, v.events)
    else if Peek(src, at.pos) == RBRACKET then Done(v.events + [EndArray(count)], at.pos + 1)
    else Fail(v.events, ArrayMissCommaOrSquareBracket, at.pos)
  }

  /** ... at the comma after an element. */
  function AfterElementComma(src: seq<Byte>, p: nat, cfg: Config, count: Size, sent: seq<Event>): (r: Outcome)
    requires p < |src|
    ensures Advances(src, p, r)
    decreases |src| - p, 0
  {
    var next := Skip(src, p + 1, cfg.comments);
    if next.Err? then Fail(sent, next.code, next.offset)
    else if cfg.trailingCommas && Peek(src, next.pos) == RBRACKET then
      Done(sent + [EndArray(count)], next.pos + 1)
    else Elements(src, next.pos, cfg, count, sent)
  }

  /** What Parse does once the root value has been parsed. */
  function AfterRoot(src: seq<Byte>, v: Outcome, cfg: Config): Outcome
    requires Advances(src, 0, v)
  {
    if v.Fail? || cfg.stopWhenDone then v else
    var at := Skip(src, v.pos, cfg.comments);
    if at.Err? then Fail(v.events, at.code, at.offset)
    else if Peek(src, at.pos) != 0 then Fail(v.events, DocumentRootNotSingular, at.pos)
    else Done(v.events, at.pos)
  }

  function Parse(src: seq<Byte>, cfg: Config): Outcome {
    var at := Skip(src, 0, cfg.comments);
    if at.Err? then Fail([], at.code, at.offset)
    else if Peek(src, at.pos) == 0 then Fail([], DocumentEmpty, at.pos)
    else AfterRoot(src, ParseValue(src, at.pos, cfg, []), cfg)
  }
}
