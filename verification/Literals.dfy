/**
 Number literals of section 6 of RFC 8259, put together from their parts: what ParseNumber makes of
 each, that it accepts nothing else, and what the document stores for it.
 */
module Literals {
  import opened Ascii
  import opened Events
  import opened Scanner
  import opened T = Tree
  import Decimal
  import RoundTrip

  /** The digits of `int`: no leading zero but in 0 itself. */
  predicate IsInt(digits: seq<Byte>) {
    digits != [] && Decimal.AllDigits(digits) && (digits[0] == ZERO ==> |digits| == 1)
  }

  function Literal(minus: bool, digits: seq<Byte>): seq<Byte> {
    (if minus then [MINUS] else []) + digits
  }

  function ValueOf(minus: bool, digits: seq<Byte>): int
    requires Decimal.AllDigits(digits)
  {
    if minus then 0 - Decimal.NatOf(digits) as int else Decimal.NatOf(digits)
  }

  /** The event for an integer: the narrowest type of its sign that holds it. */
  predicate IsEventFor(event: Event, minus: bool, x: int) {
    match event
    case Int(i) => minus && i == x && -TWO31 <= x <= 0
    case Int64(i) => minus && i == x && -TWO63 <= x < -TWO31
    case Uint(u) => !minus && u == x && 0 <= x < TWO32
    case Uint64(u) => !minus && u == x && TWO32 <= x < TWO64
    case _ => false
  }

  lemma {:induction false} DigitsAreText(src: seq<Byte>, p: nat, digits: seq<Byte>)
    requires IsInt(digits) && At(src, p, digits) && !IsDigit(Peek(src, p + |digits|))
    ensures IntEnd(src, p) == Ok((), p + |digits|) && IsDigit(Peek(src, p)) && src[p..p + |digits|] == digits
  {
    hide Decimal.Text, Decimal.NatOf;
    Decimal.CanonicalIsText(digits);
    RoundTrip.IntReads(src, p, Decimal.NatOf(digits));
  }

  /** Every integer literal: one of the four integer events exactly if the number is in [-2^63, 2^64),
      with its exact value; otherwise a double, or an error if no double holds it. */
  lemma LiteralReads(src: seq<Byte>, p: nat, minus: bool, digits: seq<Byte>, cfg: Config)
    requires IsInt(digits) && At(src, p, Literal(minus, digits))
    requires RoundTrip.Ends(Peek(src, p + |Literal(minus, digits)|))
    ensures p < |src|
    ensures var x, r, end := ValueOf(minus, digits), Scanner.Number(src, p, cfg), p + |Literal(minus, digits)|;
            if -TWO63 <= x < TWO64 then r.Ok? && r.pos == end && IsEventFor(r.value, minus, x)
            else if cfg.tooBig(Literal(minus, digits)) then r == Err(NumberTooBig, p)
            else r == Ok(Double(Literal(minus, digits)), end)
  {
    hide At, IntEnd, Decimal.NatOf, IsInt;
    var literal := Literal(minus, digits);
    AtInside(src, p, literal);
    assert src[p..p + |literal|] == literal by { AtIs(src, p, literal); }
    if minus {
      AtSplits(src, p, [MINUS], digits);
      AtPeek(src, p, literal, 0);
      DigitsAreText(src, p + 1, digits);
    } else {
      assert literal == digits;
      DigitsAreText(src, p, digits);
    }
    NotEmpty(literal, digits);
  }

  lemma NotEmpty(literal: seq<Byte>, digits: seq<Byte>)
    requires IsInt(digits) && |literal| >= |digits|
    ensures |literal| >= 1
  {
  }

  /** The document keeps the number with the flags of exactly the integer types that hold it. */
  lemma LiteralStored(event: Event, minus: bool, x: int, stack: seq<Value>)
    requires IsEventFor(event, minus, x)
    ensures -TWO63 <= x < TWO64 && Handle(stack, event) == Some(stack + [Num(Exactly(x))])
  {
    FlagsArePrecise(x);
    hide OfInt, OfUint, OfInt64, OfUint64, Exactly;
  }

  //////////////////////////////////////////////////////////////////////////////
  // Numbers with a fraction or an exponent
  //////////////////////////////////////////////////////////////////////////////

  /** `exp`: e or E, an optional sign, digits. */
  datatype Exponent = NoExponent | Exponent(e: Byte, sign: seq<Byte>, digits: seq<Byte>)

  /** `[ minus ] int [ frac ] [ exp ]`; no digits in `frac` stand for none. */
  datatype Numeral = Numeral(minus: bool, whole: seq<Byte>, frac: seq<Byte>, exp: Exponent)

  predicate GoodExponent(exp: Exponent) {
    exp.Exponent? ==>
      && (exp.e == 101 || exp.e == 69)
      && (exp.sign == [] || exp.sign == [PLUS] || exp.sign == [MINUS])
      && exp.digits != [] && Decimal.AllDigits(exp.digits)
  }

  predicate GoodNumeral(n: Numeral) {
    IsInt(n.whole) && Decimal.AllDigits(n.frac) && GoodExponent(n.exp)
  }

  function FracText(frac: seq<Byte>): seq<Byte> {
    if frac == [] then [] else [DOT] + frac
  }

  function ExpText(exp: Exponent): seq<Byte> {
    if exp.NoExponent? then [] else [exp.e] + (exp.sign + exp.digits)
  }

  function NumeralText(n: Numeral): seq<Byte> {
    Literal(n.minus, n.whole) + (FracText(n.frac) + ExpText(n.exp))
  }

  lemma {:induction false} FracReads(src: seq<Byte>, p: nat, frac: seq<Byte>)
    requires Decimal.AllDigits(frac) && p <= |src| && At(src, p, FracText(frac))
    requires !IsDigit(Peek(src, p + |FracText(frac)|)) && (frac == [] ==> Peek(src, p) != DOT)
    ensures FracEnd(src, p) == Ok((), p + |FracText(frac)|)
  {
    hide At;
    if frac != [] {
      CharThen(src, p, DOT, frac);
      AtPeek(src, p + 1, frac, 0);
      DigitsEndHere(src, p + 1, frac);
    }
  }

  lemma {:induction false} ExpReads(src: seq<Byte>, p: nat, exp: Exponent)
    requires GoodExponent(exp) && p <= |src| && At(src, p, ExpText(exp))
    requires !IsDigit(Peek(src, p + |ExpText(exp)|))
    requires exp.NoExponent? ==> Peek(src, p) != 101 && Peek(src, p) != 69
    ensures ExpEnd(src, p) == Ok((), p + |ExpText(exp)|)
  {
    hide At;
    if exp.Exponent? {
      CharThen(src, p, exp.e, exp.sign + exp.digits);
      AtSplits(src, p + 1, exp.sign, exp.digits);
      if exp.sign != [] { AtPeek(src, p + 1, exp.sign, 0); }
      var q := p + 1 + |exp.sign|;
      AtPeek(src, q, exp.digits, 0);
      DigitsEndHere(src, q, exp.digits);
    }
  }

  /** What stands behind the parts of a numeral. */
  lemma AfterParts(src: seq<Byte>, i: nat, frac: seq<Byte>, exp: Exponent)
    requires GoodExponent(exp) && At(src, i, FracText(frac) + ExpText(exp))
    requires RoundTrip.Ends(Peek(src, i + |FracText(frac) + ExpText(exp)|))
    ensures var f := i + |FracText(frac)|;
            && i <= f <= |src| && At(src, i, FracText(frac)) && At(src, f, ExpText(exp))
            && !IsDigit(Peek(src, i)) && !IsDigit(Peek(src, f)) && (frac == [] ==> Peek(src, i) != DOT)
            && (exp.NoExponent? ==> Peek(src, f) != 101 && Peek(src, f) != 69)
  {
    hide At;
    var f := i + |FracText(frac)|;
    AtSplits(src, i, FracText(frac), ExpText(exp));
    AtInside(src, f, ExpText(exp));
    if exp.Exponent? { AtPeek(src, f, ExpText(exp), 0); }
    if frac != [] { AtPeek(src, i, FracText(frac), 0); }
  }

  /** Every number with a fraction or an exponent is sent as a double that carries all of it, or is too
      big for one. */
  lemma NumeralReads(src: seq<Byte>, p: nat, n: Numeral, cfg: Config)
    requires GoodNumeral(n) && (n.frac != [] || n.exp.Exponent?)
    requires At(src, p, NumeralText(n)) && RoundTrip.Ends(Peek(src, p + |NumeralText(n)|))
    ensures p < |src|
    ensures Scanner.Number(src, p, cfg)
         == if cfg.tooBig(NumeralText(n)) then Err(NumberTooBig, p) else Ok(Double(NumeralText(n)), p + |NumeralText(n)|)
  {
    hide At, IntEnd, FracEnd, ExpEnd, Decimal.NatOf, IntegerEvent;
    var tail := FracText(n.frac) + ExpText(n.exp);
    AtSplits(src, p, Literal(n.minus, n.whole), tail);
    var first, i := p + (if n.minus then 1 else 0), p + |Literal(n.minus, n.whole)|;
    AfterParts(src, i, n.frac, n.exp);
    AtSplits(src, p, if n.minus then [MINUS] else [], n.whole);
    if n.minus { AtPeek(src, p, [MINUS], 0); }
    DigitsAreText(src, first, n.whole);
    FracReads(src, i, n.frac);
    ExpReads(src, i + |FracText(n.frac)|, n.exp);
    AtIs(src, p, NumeralText(n));
  }

  /** The event of a numeral: an integer of the narrowest type of its sign, or a double. */
  function NumeralEvent(n: Numeral): Event
    requires GoodNumeral(n)
  {
    var x := ValueOf(n.minus, n.whole);
    if n.frac != [] || n.exp.Exponent? || x < -TWO63 || x >= TWO64 then Double(NumeralText(n))
    else if n.minus then if x >= -TWO31 then Int(x) else Int64(x)
    else if x < TWO32 then Uint(x) else Uint64(x)
  }

  /** Every numeral is sent as its event, unless that is a double and no double holds the number. */
  lemma NumeralSends(src: seq<Byte>, p: nat, n: Numeral, cfg: Config)
    requires GoodNumeral(n) && At(src, p, NumeralText(n)) && RoundTrip.Ends(Peek(src, p + |NumeralText(n)|))
    ensures p < |src|
    ensures Scanner.Number(src, p, cfg)
         == if NumeralEvent(n).Double? && cfg.tooBig(NumeralText(n)) then Err(NumberTooBig, p)
            else Ok(NumeralEvent(n), p + |NumeralText(n)|)
  {
    hide At, Scanner.Number, Decimal.NatOf, IsInt;
    if n.frac != [] || n.exp.Exponent? {
      NumeralReads(src, p, n, cfg);
    } else {
      assert NumeralText(n) == Literal(n.minus, n.whole);
      LiteralReads(src, p, n.minus, n.whole, cfg);
    }
  }

  /** ParseNumber accepts nothing but numerals: what it consumes is one, and what it sends is its event. */
  lemma NumberIsNumeral(src: seq<Byte>, p: nat, cfg: Config) returns (n: Numeral)
    requires p <= |src| && Scanner.Number(src, p, cfg).Ok?
    ensures GoodNumeral(n) && At(src, p, NumeralText(n))
    ensures Scanner.Number(src, p, cfg) == Ok(NumeralEvent(n), p + |NumeralText(n)|)
    ensures NumeralEvent(n).Double? ==> !cfg.tooBig(NumeralText(n))
  {
    hide IntEnd, FracEnd, ExpEnd, Decimal.NatOf, IsInt, FracText, ExpText, NumeralText, NumeralEvent, IntegerEvent;
    var minus := Peek(src, p) == MINUS;
    var first := if minus then p + 1 else p;
    var i := IntEnd(src, first).pos;
    var f := FracEnd(src, i).pos;
    var e := ExpEnd(src, f).pos;
    WholeIsInt(src, first);
    var frac := FracIs(src, i);
    var exp := ExpIs(src, f);
    n := Numeral(minus, src[first..i], frac, exp);
    TextIs(src, p, i, f, e, n);
    NoParts(n);
    EventIs(n);
  }

  lemma TextIs(src: seq<Byte>, p: nat, i: nat, f: nat, e: nat, n: Numeral)
    requires p <= i <= f <= e <= |src| && (n.minus ==> p < i && src[p] == MINUS)
    requires n.whole == src[if n.minus then p + 1 else p..i] && src[i..f] == FracText(n.frac) && src[f..e] == ExpText(n.exp)
    ensures NumeralText(n) == src[p..e] && (e == i <==> FracText(n.frac) == [] && ExpText(n.exp) == [])
  {
    hide FracText, ExpText;
    Slices(src, p, i, f, e);
    assert src[p..i] == Literal(n.minus, n.whole);
  }

  lemma NoParts(n: Numeral)
    ensures FracText(n.frac) == [] && ExpText(n.exp) == [] <==> n.frac == [] && n.exp.NoExponent?
  {
  }

  lemma EventIs(n: Numeral)
    requires GoodNumeral(n)
    ensures var event := IntegerEvent(n.minus, Decimal.NatOf(n.whole));
            NumeralEvent(n) == if n.frac == [] && n.exp.NoExponent? && event.Some? then event.value else Double(NumeralText(n))
    ensures var event := IntegerEvent(n.minus, Decimal.NatOf(n.whole));
            NumeralEvent(n).Double? <==> !(n.frac == [] && n.exp.NoExponent? && event.Some?)
  {
    hide Decimal.NatOf, NumeralText;
  }

  lemma Slices(src: seq<Byte>, p: nat, i: nat, f: nat, e: nat)
    requires p <= i <= f <= e <= |src|
    ensures src[p..e] == src[p..i] + (src[i..f] + src[f..e])
  {
  }

  lemma WholeIsInt(src: seq<Byte>, p: nat)
    requires p <= |src| && IntEnd(src, p).Ok?
    ensures IsInt(src[p..IntEnd(src, p).pos])
  {
  }

  lemma FracIs(src: seq<Byte>, p: nat) returns (frac: seq<Byte>)
    requires p <= |src| && FracEnd(src, p).Ok?
    ensures Decimal.AllDigits(frac) && src[p..FracEnd(src, p).pos] == FracText(frac)
  {
    var q := FracEnd(src, p).pos;
    frac := if q == p then [] else src[p + 1..q];
    if q != p { assert src[p..q] == [DOT] + src[p + 1..q]; }
  }

  lemma ExpIs(src: seq<Byte>, p: nat) returns (exp: Exponent)
    requires p <= |src| && ExpEnd(src, p).Ok?
    ensures GoodExponent(exp) && src[p..ExpEnd(src, p).pos] == ExpText(exp)
  {
    var q := ExpEnd(src, p).pos;
    if q == p {
      return NoExponent;
    }
    var signed := Peek(src, p + 1) == PLUS || Peek(src, p + 1) == MINUS;
    var d := if signed then p + 2 else p + 1;
    exp := Exponent(src[p], src[p + 1..d], src[d..q]);
    assert src[p..q] == [src[p]] + (src[p + 1..d] + src[d..q]);
    if signed { assert exp.sign == [src[p + 1]]; } else { assert exp.sign == []; }
  }

  //////////////////////////////////////////////////////////////////////////////
  // Numbers that break off
  //////////////////////////////////////////////////////////////////////////////

  /** No digit where a number begins, or behind its minus. */
  lemma NoDigits(src: seq<Byte>, p: nat, minus: bool, cfg: Config)
    requires p <= |src| && At(src, p, Literal(minus, [])) && !IsDigit(Peek(src, p + |Literal(minus, [])|))
    requires !minus ==> Peek(src, p) != MINUS
    ensures Scanner.Number(src, p, cfg) == Err(ValueInvalid, p + |Literal(minus, [])|)
  {
    if minus { AtPeek(src, p, [MINUS], 0); }
  }

  lemma IntegerThen(src: seq<Byte>, p: nat, minus: bool, whole: seq<Byte>, cfg: Config)
    requires IsInt(whole) && At(src, p, Literal(minus, whole)) && !IsDigit(Peek(src, p + |Literal(minus, whole)|))
    ensures var first, i := p + (if minus then 1 else 0), p + |Literal(minus, whole)|;
            first <= i <= |src| && IntEnd(src, first) == Ok((), i) && (Peek(src, p) == MINUS <==> minus)
  {
    hide At, IntEnd, Decimal.NatOf;
    AtInside(src, p, Literal(minus, whole));
    AtSplits(src, p, if minus then [MINUS] else [], whole);
    if minus { AtPeek(src, p, [MINUS], 0); }
    DigitsAreText(src, p + (if minus then 1 else 0), whole);
  }

  /** A point without a digit behind it. */
  lemma NoFraction(src: seq<Byte>, p: nat, minus: bool, whole: seq<Byte>, cfg: Config)
    requires IsInt(whole) && At(src, p, Literal(minus, whole) + [DOT]) && !IsDigit(Peek(src, p + |Literal(minus, whole)| + 1))
    ensures p < |src| && Scanner.Number(src, p, cfg) == Err(NumberMissFraction, p + |Literal(minus, whole)| + 1)
  {
    hide At, IntEnd, Decimal.NatOf;
    var i := p + |Literal(minus, whole)|;
    AtSplits(src, p, Literal(minus, whole), [DOT]);
    AtInside(src, i, [DOT]);
    AtPeek(src, i, [DOT], 0);
    IntegerThen(src, p, minus, whole, cfg);
  }

  lemma ExponentBreaks(src: seq<Byte>, p: nat, e: Byte, sign: seq<Byte>)
    requires (e == 101 || e == 69) && (sign == [] || sign == [PLUS] || sign == [MINUS]) && At(src, p, [e] + sign)
    requires var c := Peek(src, p + 1 + |sign|); !IsDigit(c) && (sign == [] ==> c != PLUS && c != MINUS)
    ensures p < |src| && ExpEnd(src, p) == Err(NumberMissExponent, p + 1 + |sign|)
  {
    hide At;
    CharThen(src, p, e, sign);
    if sign != [] { AtPeek(src, p + 1, sign, 0); }
  }

  /** An exponent without a digit. */
  lemma NoExponentDigit(src: seq<Byte>, p: nat, minus: bool, whole: seq<Byte>, frac: seq<Byte>, e: Byte, sign: seq<Byte>, cfg: Config)
    requires IsInt(whole) && Decimal.AllDigits(frac) && (e == 101 || e == 69) && (sign == [] || sign == [PLUS] || sign == [MINUS])
    requires At(src, p, Literal(minus, whole) + (FracText(frac) + ([e] + sign)))
    requires var c := Peek(src, p + |Literal(minus, whole)| + |FracText(frac)| + 1 + |sign|);
             !IsDigit(c) && (sign == [] ==> c != PLUS && c != MINUS)
    ensures p < |src|
    ensures Scanner.Number(src, p, cfg) == Err(NumberMissExponent, p + |Literal(minus, whole)| + |FracText(frac)| + 1 + |sign|)
  {
    hide At, IntEnd, FracEnd, ExpEnd, Decimal.NatOf, IntegerEvent, IsInt;
    var i := p + |Literal(minus, whole)|;
    var f := i + |FracText(frac)|;
    AtSplits(src, p, Literal(minus, whole), FracText(frac) + ([e] + sign));
    AtSplits(src, i, FracText(frac), [e] + sign);
    CharThen(src, f, e, sign);
    if frac != [] { AtPeek(src, i, FracText(frac), 0); }
    IntegerThen(src, p, minus, whole, cfg);
    FracReads(src, i, frac);
    ExponentBreaks(src, f, e, sign);
  }

  /** The document keeps a double as it was sent. */
  lemma DoubleStored(literal: seq<Byte>, stack: seq<Value>)
    ensures Handle(stack, Double(literal)) == Some(stack + [Num(Real(literal))])
    ensures AcceptNumber(Real(literal)) == Double(literal)
  {
  }
}
