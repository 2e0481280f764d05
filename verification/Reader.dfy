/**
 GenericReader: the cursor, the handler's record, the error and the state stack as mutable state,
 and the loops of reader.h over them. Every method is held to the function of the same name.
 */
module Reader {
  import opened Ascii
  import opened Events
  import Scanner
  import Descent
  import Machine
  import Decimal
  import Utf8

  /** The value of a 32-bit or 64-bit word read as a signed number after `~u + 1`. */
  function Negated(u: int, modulus: int): int
    requires 0 <= u < modulus
  {
    var word := (modulus - 1 - u + 1) % modulus;
    if word >= modulus / 2 then word - modulus else word
  }

  /** The largest magnitude an integer literal may have in 32 and in 64 bits. */
  function Limit32(minus: bool): int {
    if minus then 0x8000_0000 else 0xFFFF_FFFF
  }

  function Limit64(minus: bool): int {
    if minus then 0x8000_0000_0000_0000 else 0xFFFF_FFFF_FFFF_FFFF
  }

  /** The number the digits of `src` from `a` to `b` denote. */
  ghost function NatAt(src: seq<Byte>, a: nat, b: nat): nat
    requires a <= b <= |src| && forall i :: a <= i < b ==> IsDigit(src[i])
  {
    Decimal.NatOf(src[a..b])
  }

  lemma NatAtStep(src: seq<Byte>, a: nat, b: nat)
    requires a <= b < |src| && forall i :: a <= i <= b ==> IsDigit(src[i])
    ensures NatAt(src, a, a) == 0
    ensures NatAt(src, a, b + 1) == NatAt(src, a, b) * 10 + (src[b] - ZERO)
  {
    assert src[a..b + 1][..b - a] == src[a..b];
  }

  /** More digits never make a smaller number. */
  lemma {:induction false} NatAtGrows(src: seq<Byte>, a: nat, b: nat, c: nat)
    requires a <= b <= c <= |src| && forall i :: a <= i < c ==> IsDigit(src[i])
    ensures NatAt(src, a, b) <= NatAt(src, a, c)
    decreases c
  {
    if b < c {
      NatAtGrows(src, a, b, c - 1);
      NatAtStep(src, a, c - 1);
    }
  }

  /** The digit run that starts at `a` runs on from any point inside it. */
  lemma {:induction false} DigitsRunOn(src: seq<Byte>, a: nat, b: nat)
    requires a <= b <= |src| && forall i :: a <= i < b ==> IsDigit(src[i])
    ensures Scanner.DigitsEnd(src, b) == Scanner.DigitsEnd(src, a)
    decreases b - a
  {
    if a < b {
      DigitsRunOn(src, a + 1, b);
    }
  }

  class Reader {
    const src: seq<Byte>
    const cfg: Config
    var pos: nat
    var sent: seq<Event>
    var stack: seq<Machine.Frame>
    var error: Option<(ErrorCode, nat)>

    constructor (src: seq<Byte>, cfg: Config)
      ensures this.src == src && this.cfg == cfg && pos == 0 && sent == [] && stack == [] && error == None
    {
      this.src := src;
      this.cfg := cfg;
      pos, sent, stack, error := 0, [], [], None;
    }

    /** Where the reader stands: still parsing, or stopped by an error. */
    function Standing(): Outcome
      reads this
    {
      match error
      case None => Done(sent, pos)
      case Some(e) => Fail(sent, e.0, e.1)
    }

    predicate Ready()
      reads this
    {
      error == None && pos <= |src|
    }

    /** The reader stands where a scanner says, `event` having been sent on success. */
    ghost predicate Follows(r: Scanned<()>, before: seq<Event>)
      reads this
    {
      && pos <= |src| && sent == before
      && match r
         case Ok(_, q) => error == None && pos == q
         case Err(code, offset) => error == Some((code, offset))
    }

    method SetError(code: ErrorCode, offset: nat)
      modifies this`error
      ensures error == Some((code, offset))
    {
      error := Some((code, offset));
    }

    method Consume(c: Byte) returns (taken: bool)
      requires pos <= |src| && c != 0
      modifies this`pos
      ensures taken <==> Peek(src, old(pos)) == c
      ensures pos == if taken then old(pos) + 1 else old(pos)
      ensures pos <= |src|
    {
      taken := Peek(src, pos) == c;
      if taken {
        pos := pos + 1;
      }
    }

    method SkipSpaces()
      requires pos <= |src|
      modifies this`pos
      ensures pos <= |src| && pos == Scanner.SkipSpaces(src, old(pos))
    {
      while Scanner.IsSpace(Peek(src, pos))
        invariant pos <= |src| && Scanner.SkipSpaces(src, pos) == Scanner.SkipSpaces(src, old(pos))
        decreases |src| - pos
      {
        pos := pos + 1;
      }
    }

    method SkipWhitespaceAndComments()
      requires Ready()
      modifies this`pos, this`error
      ensures Follows(Scanner.Skip(src, old(pos), cfg.comments), old(sent))
      ensures pos >= old(pos)
    {
      ghost var p := pos;
      Scanner.SkipAfterSpaces(src, pos, cfg.comments);
      SkipSpaces();
      if cfg.comments {
        while error == None && Peek(src, pos) == SLASH
          invariant p <= pos <= |src| && (error == None ==> !Scanner.IsSpace(Peek(src, pos)))
          invariant error == None ==> Scanner.Skip(src, pos, true) == Scanner.Skip(src, p, true)
          invariant error != None ==> Follows(Scanner.Skip(src, p, true), old(sent))
          decreases |src| - pos, error == None
        {
          SkipComment();
          if error == None {
            Scanner.SkipAfterSpaces(src, pos, true);
            SkipSpaces();
          }
        }
      }
    }

    /** One comment; the cursor is at its first slash. */
    method SkipComment()
      requires Ready() && Peek(src, pos) == SLASH
      modifies this`pos, this`error
      ensures old(pos) < pos <= |src|
      ensures error == None ==> Scanner.Skip(src, pos, true) == Scanner.Skip(src, old(pos), true)
      ensures error != None ==> Follows(Scanner.Skip(src, old(pos), true), old(sent))
    {
      pos := pos + 1;
      var block := Consume(STAR);
      if block {
        SkipBlock();
      } else {
        var line := Consume(SLASH);
        if line {
          SkipLine();
        } else {
          SetError(UnspecificSyntaxError, pos);
        }
      }
    }

    method SkipBlock()
      requires Ready()
      modifies this`pos, this`error
      ensures Follows(Scanner.BlockEnd(src, old(pos)), old(sent))
      ensures pos >= old(pos)
    {
      ghost var p := pos;
      while true
        invariant error == None && p <= pos <= |src|
        invariant Scanner.BlockEnd(src, pos) == Scanner.BlockEnd(src, p)
        decreases |src| - pos
      {
        if Peek(src, pos) == 0 {
          SetError(UnspecificSyntaxError, pos);
          return;
        }
        var star := Consume(STAR);
        if star {
          var slash := Consume(SLASH);
          if slash {
            return;
          }
        } else {
          pos := pos + 1;
        }
      }
    }

    method SkipLine()
      requires pos <= |src|
      modifies this`pos
      ensures pos == Scanner.LineEnd(src, old(pos))
    {
      ghost var p := pos;
      var done := false;
      while !done && Peek(src, pos) != 0
        invariant p <= pos <= |src|
        invariant Scanner.LineEnd(src, p) == if done then pos else Scanner.LineEnd(src, pos)
        decreases |src| - pos
      {
        done := Peek(src, pos) == LF;
        pos := pos + 1;
      }
    }

    ////////////////////////////////////////////////////////////////////////////
    // Scalars
    ////////////////////////////////////////////////////////////////////////////

    /** The reader has sent what a scanner found, or stands at its error. */
    ghost predicate Sends(r: Scanned<Event>, before: seq<Event>)
      reads this
    {
      && pos <= |src|
      && Standing() == match r
                       case Ok(event, q) => Done(before + [event], q)
                       case Err(code, offset) => Fail(before, code, offset)
    }

    method ParseName(rest: seq<Byte>, event: Event)
      requires Ready() && pos < |src| && 0 !in rest
      modifies this`pos, this`sent, this`error
      ensures Sends(Scanner.Name(src, old(pos) + 1, rest, event), old(sent))
    {
      pos := pos + 1;
      ghost var p := pos;
      var i := 0;
      while i < |rest|
        invariant 0 <= i <= |rest| && pos == p + i <= |src| && error == None && sent == old(sent)
        invariant Scanner.Name(src, p, rest, event) == Scanner.Name(src, pos, rest[i..], event)
      {
        var taken := Consume(rest[i]);
        if !taken {
          SetError(ValueInvalid, pos);
          return;
        }
        assert rest[i..][1..] == rest[i + 1..];
        i := i + 1;
      }
      sent := sent + [event];
    }

    /** ParseString, its decoded characters collected in `decoded`. */
    method ParseString(isKey: bool)
      requires Ready() && Peek(src, pos) == QUOTE
      modifies this`pos, this`sent, this`error
      ensures var s := Scanner.StringAt(src, old(pos), cfg);
              Sends(match s
                    case Ok(chars, q) => Ok(if isKey then Key(chars) else String(chars), q)
                    case Err(code, offset) => Err(code, offset), old(sent))
    {
      pos := pos + 1;
      ghost var p := pos;
      var decoded := [];
      while Peek(src, pos) != QUOTE
        invariant error == None && pos <= |src| && sent == old(sent)
        invariant Scanner.StringRest(src, pos, cfg.validateEncoding, decoded)
               == Scanner.StringRest(src, p, cfg.validateEncoding, [])
        decreases |src| - pos
      {
        var piece := Scanner.StringPiece(src, pos, cfg.validateEncoding);
        if piece.Err? {
          SetError(piece.code, piece.offset);
          return;
        }
        decoded, pos := decoded + piece.value, piece.pos;
      }
      pos := pos + 1;
      sent := sent + [if isKey then Key(decoded) else String(decoded)];
    }

    /** The accumulation loops of ParseNumber: digits are taken while the value stays within
        `limit`, whose quotient and remainder by ten are the constants compared with. */
    method TakeDigits(ghost first: nat, start: int, limit: int) returns (n: int, exceeded: bool)
      requires Ready() && first <= pos && (forall i :: first <= i < pos ==> IsDigit(src[i]))
      requires start == NatAt(src, first, pos) && 0 <= start <= limit
      modifies this`pos
      ensures old(pos) <= pos <= |src| && (forall i :: first <= i < pos ==> IsDigit(src[i]))
      ensures n == NatAt(src, first, pos) <= limit
      ensures exceeded ==> IsDigit(Peek(src, pos)) && NatAt(src, first, pos + 1) > limit
      ensures !exceeded ==> !IsDigit(Peek(src, pos))
    {
      n, exceeded := start, false;
      while IsDigit(Peek(src, pos))
        invariant old(pos) <= pos <= |src| && (forall i :: first <= i < pos ==> IsDigit(src[i]))
        invariant n == NatAt(src, first, pos) && 0 <= n <= limit
        decreases |src| - pos
      {
        NatAtStep(src, first, pos);
        if n >= limit / 10 {
          if n != limit / 10 || Peek(src, pos) - ZERO > limit % 10 {
            return n, true;
          }
        }
        n := n * 10 + (Peek(src, pos) - ZERO);
        pos := pos + 1;
      }
    }

    method TakeRun()
      requires pos <= |src|
      modifies this`pos
      ensures pos == Scanner.DigitsEnd(src, old(pos))
    {
      ghost var p := pos;
      while IsDigit(Peek(src, pos))
        invariant pos <= |src| && Scanner.DigitsEnd(src, pos) == Scanner.DigitsEnd(src, p)
        decreases |src| - pos
      {
        pos := pos + 1;
      }
    }

    /** The digits of an integer literal: accumulated in 32 bits, then in 64, and beyond that only
        passed over. */
    method ParseDigits(minus: bool) returns (n: int, use64bit: bool, useDouble: bool)
      requires Ready() && IsDigit(Peek(src, pos))
      modifies this`pos
      ensures old(pos) < pos == Scanner.DigitsEnd(src, old(pos)) <= |src|
      ensures var value, limit32, limit64 := NatAt(src, old(pos), pos), Limit32(minus), Limit64(minus);
              && (use64bit <==> value > limit32)
              && (useDouble <==> value > limit64)
              && (!useDouble ==> n == value)
    {
      hide Decimal.NatOf;
      useDouble := false;
      ghost var first := pos;
      var c := Peek(src, pos);
      NatAtStep(src, first, first);
      pos := pos + 1;
      n, use64bit := TakeDigits(first, c - ZERO, Limit32(minus));
      ghost var q := pos;
      if use64bit {
        n, useDouble := TakeDigits(first, n, Limit64(minus));
        ghost var r := pos;
        if useDouble {
          TakeRun();
          NatAtGrows(src, first, r + 1, pos);
        }
        NatAtGrows(src, first, q + 1, if useDouble then r + 1 else pos);
      }
      DigitsRunOn(src, first, pos);
    }

    /** The integer part of ParseNumber. */
    method ParseInt(minus: bool) returns (n: int, use64bit: bool, useDouble: bool)
      requires Ready()
      modifies this`pos, this`error
      ensures Follows(Scanner.IntEnd(src, old(pos)), old(sent))
      ensures error == None ==>
                var value, limit32, limit64 := NatAt(src, old(pos), pos), Limit32(minus), Limit64(minus);
                && (use64bit <==> value > limit32)
                && (useDouble <==> value > limit64)
                && (!useDouble ==> n == value)
    {
      n, use64bit, useDouble := 0, false, false;
      var c := Peek(src, pos);
      if c == ZERO {
        NatAtStep(src, pos, pos);
        pos := pos + 1;
      } else if IsDigit(c) {
        n, use64bit, useDouble := ParseDigits(minus);
      } else {
        SetError(ValueInvalid, pos);
      }
    }

    method ParseFrac()
      requires Ready()
      modifies this`pos, this`error
      ensures Follows(Scanner.FracEnd(src, old(pos)), old(sent))
    {
      hide Scanner.DigitsEnd;
      var dot := Consume(DOT);
      if dot {
        if IsDigit(Peek(src, pos)) {
          TakeRun();
        } else {
          SetError(NumberMissFraction, pos);
        }
      }
    }

    method ParseExp()
      requires Ready()
      modifies this`pos, this`error
      ensures Follows(Scanner.ExpEnd(src, old(pos)), old(sent))
    {
      hide Scanner.DigitsEnd;
      var e := Consume(101);
      if !e {
        e := Consume(69);
      }
      if e {
        var plus := Consume(PLUS);
        if !plus {
          var _ := Consume(MINUS);
        }
        if IsDigit(Peek(src, pos)) {
          TakeRun();
        } else {
          SetError(NumberMissExponent, pos);
        }
      }
    }

    method ParseNumber()
      requires Ready()
      modifies this`pos, this`sent, this`error
      ensures Sends(Scanner.Number(src, old(pos), cfg), old(sent))
    {
      hide Scanner.IntEnd, Scanner.FracEnd, Scanner.ExpEnd, Decimal.NatOf;
      var start := pos;
      var minus := Consume(MINUS);
      ghost var first := pos;
      var n, use64bit, useDouble := ParseInt(minus);
      if error != None {
        return;
      }
      var intEnd := pos;
      ParseFrac();
      if error != None {
        return;
      }
      ParseExp();
      if error != None {
        return;
      }
      if useDouble || pos != intEnd {
        if cfg.tooBig(src[start..pos]) {
          SetError(NumberTooBig, start);
        } else {
          sent := sent + [Double(src[start..pos])];
        }
      } else if use64bit {
        sent := sent + [if minus then Int64(Negated(n, 0x1_0000_0000_0000_0000)) else Uint64(n)];
      } else {
        sent := sent + [if minus then Int(Negated(n, 0x1_0000_0000)) else Uint(n)];
      }
    }

    ////////////////////////////////////////////////////////////////////////////
    // Recursive descent
    ////////////////////////////////////////////////////////////////////////////

    method ParseValue()
      requires Ready()
      modifies this`pos, this`sent, this`error
      ensures pos <= |src| && Standing() == Descent.ParseValue(src, old(pos), cfg, old(sent))
      decreases |src| - pos, 1
    {
      hide Descent.ParseObject, Descent.ParseArray, Scanner.Name, Scanner.Number, Scanner.StringAt;
      var c := Peek(src, pos);
      if c == Scanner.NULL[0] {
        ParseName(Scanner.NULL[1..], Null);
      } else if c == Scanner.TRUE[0] {
        ParseName(Scanner.TRUE[1..], Bool(true));
      } else if c == Scanner.FALSE[0] {
        ParseName(Scanner.FALSE[1..], Bool(false));
      } else if c == QUOTE {
        ParseString(false);
      } else if c == LBRACE {
        ParseObject();
      } else if c == LBRACKET {
        ParseArray();
      } else {
        ParseNumber();
      }
    }

    method ParseObject()
      requires Ready() && Peek(src, pos) == LBRACE
      modifies this`pos, this`sent, this`error
      ensures pos <= |src| && Standing() == Descent.ParseObject(src, old(pos), cfg, old(sent))
      decreases |src| - pos, 0
    {
      hide Descent.Members, Scanner.Skip;
      ghost var goal := Descent.ParseObject(src, pos, cfg, sent);
      ghost var start := pos;
      pos := pos + 1;
      sent := sent + [StartObject];
      SkipWhitespaceAndComments();
      if error != None {
        return;
      }
      var empty := Consume(RBRACE);
      if empty {
        sent := sent + [EndObject(0)];
        return;
      }
      var memberCount, more: bool := 0, true;
      while more
        invariant pos <= |src|
        invariant more ==> start < pos && Ready() && Descent.Members(src, pos, cfg, memberCount, sent) == goal
        invariant !more ==> Standing() == goal
        decreases if more then |src| - pos + 1 else 0
      {
        more := ParseMember(memberCount);
        memberCount := Inc(memberCount);
      }
    }

    /** One round of the loop of ParseObject; `more` if it goes round again. */
    method ParseMember(memberCount: Size) returns (more: bool)
      requires Ready()
      modifies this`pos, this`sent, this`error
      ensures pos <= |src|
      ensures var goal := Descent.Members(src, old(pos), cfg, memberCount, old(sent));
              if more then old(pos) < pos && Ready() && Descent.Members(src, pos, cfg, Inc(memberCount), sent) == goal
              else Standing() == goal
      decreases |src| - pos, 4
    {
      hide Descent.AfterKey, Scanner.Skip, Scanner.StringAt;
      if Peek(src, pos) != QUOTE {
        SetError(ObjectMissName, pos);
        return false;
      }
      ghost var start := pos;
      ParseString(true);
      if error != None {
        return false;
      }
      more := ParseMemberRest(memberCount, start);
    }

    method ParseMemberRest(memberCount: Size, ghost start: nat) returns (more: bool)
      requires Ready() && start < pos
      modifies this`pos, this`sent, this`error
      ensures pos <= |src|
      ensures var goal := Descent.AfterKey(src, start, old(pos), cfg, memberCount, old(sent));
              if more then old(pos) < pos && Ready() && Descent.Members(src, pos, cfg, Inc(memberCount), sent) == goal
              else Standing() == goal
      decreases |src| - start, 3
    {
      hide Descent.ParseValue, Descent.AfterMember, Descent.Members, Scanner.Skip;
      SkipWhitespaceAndComments();
      if error != None {
        return false;
      }
      var colon := Consume(COLON);
      if !colon {
        SetError(ObjectMissColon, pos);
        return false;
      }
      SkipWhitespaceAndComments();
      if error != None {
        return false;
      }
      ParseValue();
      more := EndMember(Inc(memberCount), start);
    }

    method EndMember(memberCount: Size, ghost start: nat) returns (more: bool)
      requires start < |src| && pos <= |src| && Descent.Advances(src, start, Standing())
      modifies this`pos, this`sent, this`error
      ensures pos <= |src|
      ensures var goal := Descent.AfterMember(src, start, old(Standing()), cfg, memberCount);
              if more then old(error) == None && old(pos) < pos && Ready() && Descent.Members(src, pos, cfg, memberCount, sent) == goal
              else Standing() == goal
    {
      hide Descent.Members, Scanner.Skip;
      if error != None {
        return false;
      }
      SkipWhitespaceAndComments();
      if error != None {
        return false;
      }
      var c := Peek(src, pos);
      if c == COMMA {
        pos := pos + 1;
        SkipWhitespaceAndComments();
        if error != None {
          return false;
        }
      } else if c == RBRACE {
        pos := pos + 1;
        sent := sent + [EndObject(memberCount)];
        return false;
      } else {
        SetError(ObjectMissCommaOrCurlyBracket, pos);
        return false;
      }
      if cfg.trailingCommas && Peek(src, pos) == RBRACE {
        sent := sent + [EndObject(memberCount)];
        pos := pos + 1;
        return false;
      }
      more := true;
    }

    method ParseArray()
      requires Ready() && Peek(src, pos) == LBRACKET
      modifies this`pos, this`sent, this`error
      ensures pos <= |src| && Standing() == Descent.ParseArray(src, old(pos), cfg, old(sent))
      decreases |src| - pos, 0
    {
      hide Descent.ParseValue, Descent.AfterElement, Scanner.Skip;
      ghost var goal := Descent.ParseArray(src, pos, cfg, sent);
      ghost var start := pos;
      pos := pos + 1;
      sent := sent + [StartArray];
      SkipWhitespaceAndComments();
      if error != None {
        return;
      }
      var empty := Consume(RBRACKET);
      if empty {
        sent := sent + [EndArray(0)];
        return;
      }
      var elementCount, more: bool := 0, true;
      while more
        invariant pos <= |src|
        invariant more ==> start < pos && Ready() && Descent.Elements(src, pos, cfg, elementCount, sent) == goal
        invariant !more ==> Standing() == goal
        decreases if more then |src| - pos + 1 else 0
      {
        ghost var head := pos;
        ParseValue();
        elementCount := Inc(elementCount);
        more := EndElement(elementCount, head);
      }
    }

    method EndElement(elementCount: Size, ghost start: nat) returns (more: bool)
      requires start <= |src| && pos <= |src| && Descent.Advances(src, start, Standing())
      modifies this`pos, this`sent, this`error
      ensures pos <= |src|
      ensures var goal := Descent.AfterElement(src, start, old(Standing()), cfg, elementCount);
              if more then old(error) == None && old(pos) < pos && Ready() && Descent.Elements(src, pos, cfg, elementCount, sent) == goal
              else Standing() == goal
    {
      hide Descent.Elements, Scanner.Skip;
      if error != None {
        return false;
      }
      SkipWhitespaceAndComments();
      if error != None {
        return false;
      }
      var comma := Consume(COMMA);
      if comma {
        SkipWhitespaceAndComments();
        if error != None {
          return false;
        }
      } else {
        var closing := Consume(RBRACKET);
        if closing {
          sent := sent + [EndArray(elementCount)];
        } else {
          SetError(ArrayMissCommaOrSquareBracket, pos);
        }
        return false;
      }
      if cfg.trailingCommas && Peek(src, pos) == RBRACKET {
        sent := sent + [EndArray(elementCount)];
        pos := pos + 1;
        return false;
      }
      more := true;
    }

    method Parse()
      requires Ready() && pos == 0 && sent == []
      modifies this`pos, this`sent, this`error
      ensures Standing() == Descent.Parse(src, cfg)
    {
      hide Descent.ParseValue, Scanner.Skip;
      SkipWhitespaceAndComments();
      if error != None {
        return;
      }
      if Peek(src, pos) == 0 {
        SetError(DocumentEmpty, pos);
        return;
      }
      ParseValue();
      if error == None && !cfg.stopWhenDone {
        SkipWhitespaceAndComments();
        if error == None && Peek(src, pos) != 0 {
          SetError(DocumentRootNotSingular, pos);
        }
      }
    }

    ////////////////////////////////////////////////////////////////////////////
    // The iterative parser
    ////////////////////////////////////////////////////////////////////////////

    method IterativeParse()
      requires Ready() && pos == 0 && sent == [] && stack == []
      modifies this
      ensures Standing() == Machine.IterativeParse(src, cfg)
    {
      hide Scanner.Skip;
      ghost var goal := Machine.IterativeParse(src, cfg);
      SkipWhitespaceAndComments();
      if error != None {
        return;
      }
      var state := Machine.Start;
      while Peek(src, pos) != 0
        invariant Ready() && Machine.Fits(state, stack)
        invariant Machine.Run(src, Machine.At(pos, state, stack, sent), cfg) == goal
        decreases |src| - pos
      {
        var t := Machine.Transit(src, Machine.At(pos, state, stack, sent), cfg);
        if t.Stop? {
          SetError(t.code, t.offset);
          return;
        }
        pos, state, stack, sent := t.to.pos, t.to.state, t.to.stack, t.to.sent;
        if cfg.stopWhenDone && state == Machine.Finish {
          return;
        }
        SkipWhitespaceAndComments();
        if error != None {
          return;
        }
      }
      if state != Machine.Finish {
        SetError(Machine.HandleError(state), pos);
      }
    }
  }
}
