/**
 Prettify and WriteExponent of dtoa.h: a numeral and a decimal exponent become the text of a number,
 in the grammar of section 6 of RFC 8259.
 */
module Prettifying {
  import opened Ascii
  import opened Events
  import opened Decimal
  import opened Powers
  import opened Scanner
  import opened DigitGeneration
  import Itoa
  import Literals
  import RoundTrip

  //////////////////////////////////////////////////////////////////////////////
  // What the text of a number denotes
  //////////////////////////////////////////////////////////////////////////////

  const LOWER_E: Byte := 101

  /** The parts of a number without a sign: its digits before and after the point, its exponent. */
  datatype Parts = Parts(whole: seq<Byte>, fraction: seq<Byte>, exponent: int)

  /** The parts of a text, if the scanner of the reader takes all of it for one number. */
  function Split(text: seq<Byte>): Option<Parts> {
    var i := IntEnd(text, 0);
    if i.Err? then None else
    var f := FracEnd(text, i.pos);
    if f.Err? then None else
    var e := ExpEnd(text, f.pos);
    if e.Err? || e.pos != |text| then None
    else Some(Parts(text[..i.pos],
                    if f.pos > i.pos then text[i.pos + 1..f.pos] else [],
                    if e.pos > f.pos then ExponentOf(text[f.pos + 1..]) else 0))
  }

  function ExponentOf(s: seq<Byte>): int {
    if AllDigits(s) then NatOf(s)
    else if s[0] == MINUS && AllDigits(s[1..]) then 0 - NatOf(s[1..]) as int
    else if AllDigits(s[1..]) then NatOf(s[1..])
    else 0
  }

  function ValueOf(p: Parts): real
    requires AllDigits(p.whole + p.fraction)
  {
    NatOf(p.whole + p.fraction) as real * Power(10.0, p.exponent - |p.fraction|)
  }

  /** Digits that may stand before the point. */
  predicate IsWhole(s: seq<Byte>) {
    s != [] && AllDigits(s) && (s[0] == ZERO ==> |s| == 1)
  }

  function Middle(fraction: seq<Byte>): seq<Byte> {
    if fraction == [] then [] else [DOT] + fraction
  }

  function Last(exponent: int, exponential: bool): seq<Byte> {
    if exponential then [LOWER_E] + SignedText(exponent) else []
  }

  /** Parts put together, with or without an exponent. */
  function Compose(p: Parts, exponential: bool): seq<Byte> {
    p.whole + Middle(p.fraction) + Last(p.exponent, exponential)
  }

  /** The reader takes them apart again. */
  lemma {:induction false} SplitsComposed(p: Parts, exponential: bool)
    requires IsWhole(p.whole) && AllDigits(p.fraction) && (exponential || p.exponent == 0)
    ensures Split(Compose(p, exponential)) == Some(p)
  {
    hide SignedText, IntEnd, FracEnd, ExpEnd, IsWhole, AllDigits, ExponentOf, Split, Middle, Last;
    var text := Compose(p, exponential);
    var n, f := |p.whole|, |p.whole + Middle(p.fraction)|;
    Pieces(text, p.whole, Middle(p.fraction), Last(p.exponent, exponential));
    hide Compose;
    AfterPieces(text, n, f, p.fraction, p.exponent, exponential);
    MiddleEmpty(p.fraction);
    WholeEndsAt(text, p.whole);
    FractionEndsAt(text, n, p.fraction);
    ExponentEndsAt(text, f, p.exponent, exponential);
    SplitIs(text, n, f, p.fraction, p.exponent, exponential);
  }

  lemma SplitIs(text: seq<Byte>, n: nat, f: nat, fraction: seq<Byte>, exponent: int, exponential: bool)
    requires n <= f <= |text| && text[n..f] == Middle(fraction) && text[f..] == Last(exponent, exponential)
    requires IntEnd(text, 0) == Ok((), n) && FracEnd(text, n) == Ok((), f) && ExpEnd(text, f) == Ok((), |text|)
    requires if exponential then ExponentOf(SignedText(exponent)) == exponent else exponent == 0
    ensures Split(text) == Some(Parts(text[..n], fraction, exponent))
  {
    hide SignedText, IntEnd, FracEnd, ExpEnd, ExponentOf;
    if fraction != [] {
      assert text[n + 1..f] == text[n..f][1..] == fraction;
    }
    if exponential {
      assert text[f + 1..] == text[f..][1..] == SignedText(exponent);
    }
  }

  lemma Pieces(text: seq<Byte>, a: seq<Byte>, b: seq<Byte>, c: seq<Byte>)
    requires text == a + b + c
    ensures text[..|a|] == a && text[|a|..|a + b|] == b && text[|a + b|..] == c
    ensures At(text, 0, a) && At(text, |a|, b) && At(text, |a + b|, c)
  {
  }

  lemma MiddleEmpty(fraction: seq<Byte>)
    ensures Middle(fraction) == [] <==> fraction == []
  {
  }

  /** What follows the digits is no digit. */
  lemma AfterPieces(text: seq<Byte>, n: nat, f: nat, fraction: seq<Byte>, exponent: int, exponential: bool)
    requires n <= f <= |text| && text[n..f] == Middle(fraction) && text[f..] == Last(exponent, exponential)
    ensures Peek(text, n) == if fraction != [] then DOT else if exponential then LOWER_E else 0
    ensures Peek(text, f) == if exponential then LOWER_E else 0
  {
    if fraction != [] { assert text[n..f][0] == text[n]; }
    if exponential { assert text[f..][0] == text[f]; }
  }

  lemma {:induction false} WholeEndsAt(text: seq<Byte>, whole: seq<Byte>)
    requires IsWhole(whole) && At(text, 0, whole) && !IsDigit(Peek(text, |whole|))
    ensures IntEnd(text, 0) == Ok((), |whole|)
  {
    hide At;
    AtPeek(text, 0, whole, 0);
    DigitsEndHere(text, 0, whole);
    AtInside(text, 0, whole);
  }

  lemma {:induction false} FractionEndsAt(text: seq<Byte>, n: nat, fraction: seq<Byte>)
    requires AllDigits(fraction) && n <= |text|
    requires At(text, n, Middle(fraction)) && !IsDigit(Peek(text, n + |Middle(fraction)|))
    requires fraction == [] ==> Peek(text, n) != DOT
    ensures FracEnd(text, n) == Ok((), n + |Middle(fraction)|)
  {
    hide At;
    if fraction != [] {
      CharThen(text, n, DOT, fraction);
      AtPeek(text, n + 1, fraction, 0);
      DigitsEndHere(text, n + 1, fraction);
    }
  }

  lemma {:induction false} ExponentEndsAt(text: seq<Byte>, f: nat, exponent: int, exponential: bool)
    requires At(text, f, Last(exponent, exponential)) && |text| == f + |Last(exponent, exponential)|
    ensures ExpEnd(text, f) == Ok((), |text|)
    ensures ExponentOf(SignedText(exponent)) == exponent
  {
    hide At, Text, NatOf;
    TextDenotes(if exponent < 0 then -exponent else exponent);
    if exponent < 0 {
      assert SignedText(exponent)[1..] == Text(-exponent);
    }
    if exponential {
      CharThen(text, f, LOWER_E, SignedText(exponent));
      SignedEndsAt(text, f + 1, exponent);
    }
  }

  lemma {:induction false} SignedEndsAt(text: seq<Byte>, p: nat, x: int)
    requires At(text, p, SignedText(x)) && |text| == p + |SignedText(x)|
    ensures var q := if Peek(text, p) == PLUS || Peek(text, p) == MINUS then p + 1 else p;
            IsDigit(Peek(text, q)) && q <= |text| && DigitsEnd(text, q) == |text|
  {
    hide At, Text, NatOf;
    AtPeek(text, p, SignedText(x), 0);
    if x < 0 {
      var digits := Text(-x);
      TextDenotes(-x);
      CharThen(text, p, MINUS, digits);
      AtPeek(text, p + 1, digits, 0);
      DigitsEndHere(text, p + 1, digits);
    } else {
      TextDenotes(x);
      DigitsEndHere(text, p, Text(x));
    }
  }

  //////////////////////////////////////////////////////////////////////////////
  // The layout Prettify chooses
  //////////////////////////////////////////////////////////////////////////////

  function ZeroDigits(n: nat): (s: seq<Byte>)
    ensures |s| == n && AllDigits(s)
  {
    seq(n, i => ZERO)
  }

  /** Without trailing zeros, but for one if nothing else is left. */
  function Trim(fraction: seq<Byte>): (r: seq<Byte>)
    requires fraction != []
    ensures r != [] && |r| <= |fraction| && r == fraction[..|r|]
  {
    if |fraction| > 1 && fraction[|fraction| - 1] == ZERO then Trim(fraction[..|fraction| - 1]) else fraction
  }

  /** The digits after the point, cut to a number of places. */
  function Places(fraction: seq<Byte>, places: nat): (r: seq<Byte>)
    requires places >= 1 && fraction != []
    ensures r != []
  {
    if |fraction| > places then Trim(fraction[..places]) else fraction
  }

  /** Whether a number with its point after `kk` digits is written with an exponent. */
  predicate Exponential(kk: int, maxPlaces: nat) {
    kk > 21 || (kk <= -6 && kk + maxPlaces >= 0)
  }

  /** The parts of the text for digits * 10^k. */
  function Layout(digits: seq<Byte>, k: int, maxPlaces: nat): Parts
    requires digits != [] && maxPlaces >= 1
  {
    var kk := |digits| + k;
    if Exponential(kk, maxPlaces) then Parts(digits[..1], digits[1..], kk - 1)
    else if k >= 0 then Parts(digits + ZeroDigits(k), [ZERO], 0)
    else if kk > 0 then Parts(digits[..kk], Places(digits[kk..], maxPlaces), 0)
    else if kk > -6 then Parts([ZERO], Places(ZeroDigits(-kk) + digits, maxPlaces), 0)
    else Parts([ZERO], [ZERO], 0)
  }

  function Pretty(digits: seq<Byte>, k: int, maxPlaces: nat): seq<Byte>
    requires digits != [] && maxPlaces >= 1
  {
    Compose(Layout(digits, k, maxPlaces), Exponential(|digits| + k, maxPlaces))
  }

  //////////////////////////////////////////////////////////////////////////////
  // Its value
  //////////////////////////////////////////////////////////////////////////////

  lemma {:induction false} PowerOfTenIs(n: nat)
    ensures Power(10.0, n) == Pow10(n) as real
  {
    if n > 0 { PowerOfTenIs(n - 1); }
  }

  /** Taking n places from an exponent into a number. */
  lemma PowerShift(e: int, n: nat)
    ensures Power(10.0, e) == Pow10(n) as real * Power(10.0, e - n)
  {
    hide Power;
    PowerAdd(10.0, n, e - n);
    PowerOfTenIs(n);
  }

  lemma {:induction false} ZerosDenote(n: nat)
    ensures NatOf(ZeroDigits(n)) == 0
  {
    if n > 0 {
      ZerosDenote(n - 1);
      assert ZeroDigits(n)[..n - 1] == ZeroDigits(n - 1);
    }
  }

  lemma TrailingZeros(s: seq<Byte>, n: nat, e: int)
    requires AllDigits(s)
    ensures AllDigits(s + ZeroDigits(n))
    ensures NatOf(s + ZeroDigits(n)) as real * Power(10.0, e - n) == NatOf(s) as real * Power(10.0, e)
  {
    hide Power, NatOf, ZeroDigits;
    NatOfAppend(s, ZeroDigits(n));
    ZerosDenote(n);
    PowerShift(e, n);
    Group(NatOf(s), Pow10(n), Power(10.0, e - n));
  }

  lemma Group(a: int, b: int, x: real)
    ensures (a * b) as real * x == a as real * (b as real * x)
  {
    assert (a * b) as real == a as real * b as real;
  }

  lemma {:induction false} TrimDenotes(whole: seq<Byte>, fraction: seq<Byte>)
    requires AllDigits(whole) && AllDigits(fraction) && fraction != []
    ensures AllDigits(Trim(fraction)) && AllDigits(whole + Trim(fraction)) && AllDigits(whole + fraction)
    ensures ValueOf(Parts(whole, Trim(fraction), 0)) == ValueOf(Parts(whole, fraction, 0))
    decreases |fraction|
  {
    hide Power, NatOf;
    var n := |fraction| - 1;
    assert AllDigits(whole + fraction);
    if n >= 1 && fraction[n] == ZERO {
      var front := fraction[..n];
      TrimDenotes(whole, front);
      assert whole + fraction == whole + front + ZeroDigits(1);
      TrailingZeros(whole + front, 1, -n);
    }
  }

  /** Cutting digits off makes a number smaller, by less than one in the last place that is left. */
  lemma CutDenotes(whole: seq<Byte>, fraction: seq<Byte>, m: nat)
    requires AllDigits(whole) && AllDigits(fraction) && m <= |fraction|
    ensures AllDigits(whole + fraction[..m]) && AllDigits(whole + fraction)
    ensures var cut, all := ValueOf(Parts(whole, fraction[..m], 0)), ValueOf(Parts(whole, fraction, 0));
            cut <= all < cut + Power(10.0, -(m as int))
  {
    hide Power, NatOf;
    var t := |fraction| - m;
    assert AllDigits(whole + fraction[..m]) && AllDigits(fraction[m..]);
    assert whole + fraction == (whole + fraction[..m]) + fraction[m..];
    NatOfAppend(whole + fraction[..m], fraction[m..]);
    NatOfBound(fraction[m..]);
    PowerShift(-(m as int), t);
    assert -(m as int) - t == 0 - |fraction| && -(m as int) == 0 - |fraction[..m]|;
    hide AllDigits, Pow10;
    var a, r, p, x := NatOf(whole + fraction[..m]), NatOf(fraction[m..]), Pow10(t), Power(10.0, 0 - |fraction|);
    CutBetween(ValueOf(Parts(whole, fraction[..m], 0)), ValueOf(Parts(whole, fraction, 0)),
               Power(10.0, -(m as int)), a, r, p, x);
  }

  lemma CutBetween(cut: real, all: real, unit: real, a: nat, r: nat, p: nat, x: real)
    requires r < p && x > 0.0 && unit == p as real * x
    requires cut == a as real * unit && all == (a * p + r) as real * x
    ensures cut <= all < cut + unit
  {
    CutArithmetic(a, r, p, x);
  }

  lemma CutArithmetic(a: nat, r: nat, p: nat, x: real)
    requires r < p && x > 0.0
    ensures var cut, all := a as real * (p as real * x), (a * p + r) as real * x; cut <= all < cut + p as real * x
  {
    Group(a, p, x);
    assert (a * p + r) as real * x == (a * p) as real * x + r as real * x;
    assert (p - r) as real * x > 0.0;
    assert (p - r) as real * x == p as real * x - r as real * x;
    assert r as real * x >= 0.0;
  }

  /** The exact number. */
  function Exact(digits: seq<Byte>, k: int): real
    requires AllDigits(digits)
  {
    NatOf(digits) as real * Power(10.0, k)
  }

  /** Whether Prettify drops digits: more places than allowed, where it writes no exponent. */
  predicate Truncates(digits: seq<Byte>, k: int, maxPlaces: nat) {
    -k > maxPlaces && !Exponential(|digits| + k, maxPlaces)
  }

  /** The layout is a number of the grammar, and it is digits * 10^k cut to the places allowed. */
  ghost predicate Right(p: Parts, exact: real, truncates: bool, maxPlaces: nat) {
    && IsWhole(p.whole) && AllDigits(p.fraction) && AllDigits(p.whole + p.fraction)
    && (if truncates then ValueOf(p) <= exact < ValueOf(p) + Power(10.0, -(maxPlaces as int)) else ValueOf(p) == exact)
  }

  lemma PlacesRight(whole: seq<Byte>, fraction: seq<Byte>, maxPlaces: nat, exact: real)
    requires IsWhole(whole) && AllDigits(fraction) && fraction != [] && maxPlaces >= 1
    requires AllDigits(whole + fraction) && ValueOf(Parts(whole, fraction, 0)) == exact
    ensures Right(Parts(whole, Places(fraction, maxPlaces), 0), exact, |fraction| > maxPlaces, maxPlaces)
  {
    hide Power, ValueOf, Trim;
    if |fraction| > maxPlaces {
      CutDenotes(whole, fraction, maxPlaces);
      TrimDenotes(whole, fraction[..maxPlaces]);
    }
  }

  lemma LeadingZeros(n: nat, s: seq<Byte>)
    requires AllDigits(s)
    ensures AllDigits([ZERO] + (ZeroDigits(n) + s)) && NatOf([ZERO] + (ZeroDigits(n) + s)) == NatOf(s)
  {
    hide NatOf;
    assert [ZERO] + (ZeroDigits(n) + s) == ZeroDigits(n + 1) + s;
    NatOfAppend(ZeroDigits(n + 1), s);
    ZerosDenote(n + 1);
    assert 0 * Pow10(|s|) == 0;
  }

  lemma {:induction false} PowerGrows(e: int, f: int)
    requires e <= f
    ensures Power(10.0, e) <= Power(10.0, f)
    decreases f - e
  {
    hide Power;
    if e < f {
      PowerGrows(e, f - 1);
      PowerStep(10.0, f - 1);
    }
  }

  /** A number with all its digits behind the places allowed is less than one in the last of them. */
  lemma TooSmall(digits: seq<Byte>, k: int, maxPlaces: nat)
    requires AllDigits(digits) && |digits| + k < -(maxPlaces as int)
    ensures 0.0 <= Exact(digits, k) < Power(10.0, -(maxPlaces as int))
  {
    hide Power, NatOf, Pow10;
    var n := |digits|;
    NatOfBound(digits);
    PowerShift(n + k, n);
    PowerGrows(n + k, -(maxPlaces as int));
    CutArithmetic(0, NatOf(digits), Pow10(n), Power(10.0, k));
  }

  lemma LayoutRight(digits: seq<Byte>, k: int, maxPlaces: nat)
    requires IsNumeral(digits) && maxPlaces >= 1
    ensures Right(Layout(digits, k, maxPlaces), Exact(digits, k), Truncates(digits, k, maxPlaces), maxPlaces)
  {
    hide Power, NatOf, ZeroDigits, Places;
    var kk := |digits| + k;
    if Exponential(kk, maxPlaces) {
      assert digits[..1] + digits[1..] == digits;
    } else if k >= 0 {
      assert digits + ZeroDigits(k) + [ZERO] == digits + ZeroDigits(k + 1) by { ZerosMore(k); Append3(digits, ZeroDigits(k), [ZERO]); }
      TrailingZeros(digits, k + 1, k);
    } else if kk > 0 {
      assert digits[..kk] + digits[kk..] == digits;
      PlacesRight(digits[..kk], digits[kk..], maxPlaces, Exact(digits, k));
    } else if kk > -6 {
      LeadingZeros(-kk, digits);
      PlacesRight([ZERO], ZeroDigits(-kk) + digits, maxPlaces, Exact(digits, k));
    } else {
      TooSmall(digits, k, maxPlaces);
      NoDigit();
    }
  }

  lemma ZerosMore(n: nat)
    ensures ZeroDigits(n + 1) == ZeroDigits(n) + [ZERO]
  {
  }

  lemma Append3(a: seq<Byte>, b: seq<Byte>, c: seq<Byte>)
    ensures a + b + c == a + (b + c)
  {
  }

  lemma NoDigit()
    ensures NatOf([ZERO] + [ZERO]) == 0
  {
    assert [ZERO] + [ZERO] == ZeroDigits(2);
    ZerosDenote(2);
  }

  /** Prettify's text: the reader takes it for one number, which is digits * 10^k, cut to the places
      allowed if it has more and no exponent is written. */
  lemma PrettyDenotes(digits: seq<Byte>, k: int, maxPlaces: nat)
    requires IsNumeral(digits) && maxPlaces >= 1
    ensures var r := Split(Pretty(digits, k, maxPlaces));
            r.Some? && Right(r.value, Exact(digits, k), Truncates(digits, k, maxPlaces), maxPlaces)
  {
    hide Right, Split, Compose, AllDigits;
    LayoutRight(digits, k, maxPlaces);
    var p := Layout(digits, k, maxPlaces);
    assert IsWhole(p.whole) && AllDigits(p.fraction) by { RightIs(p, Exact(digits, k), Truncates(digits, k, maxPlaces), maxPlaces); }
    SplitsComposed(p, Exponential(|digits| + k, maxPlaces));
  }

  lemma RightIs(p: Parts, exact: real, truncates: bool, maxPlaces: nat)
    requires Right(p, exact, truncates, maxPlaces)
    ensures IsWhole(p.whole) && AllDigits(p.fraction)
  {
  }

  /** With the default of 324 places the number is exact, and with a sign it fits 25 bytes. */
  lemma PrettyIsExact(digits: seq<Byte>, k: int)
    requires IsNumeral(digits) && |digits| <= 17 && |digits| + k >= -324 && |digits| + k <= 1000
    ensures var r := Split(Pretty(digits, k, 324));
            r.Some? && AllDigits(r.value.whole + r.value.fraction) && ValueOf(r.value) == Exact(digits, k)
    ensures 1 + |Pretty(digits, k, 324)| <= 25
  {
    hide Split, ValueOf, Compose, Layout;
    PrettyDenotes(digits, k, 324);
    PrettyFits(digits, k, 324);
  }

  lemma PrettyFits(digits: seq<Byte>, k: int, maxPlaces: nat)
    requires IsNumeral(digits) && |digits| <= 17 && -324 <= |digits| + k <= 1000 && maxPlaces >= 1
    ensures |Pretty(digits, k, maxPlaces)| <= 24
  {
    hide SignedText, Trim;
    var kk := |digits| + k;
    if Exponential(kk, maxPlaces) {
      ExponentFits(kk - 1);
    }
  }

  lemma ExponentFits(x: int)
    requires -1000 < x < 1000
    ensures |SignedText(x)| <= 4 && (x >= 0 ==> |SignedText(x)| <= 3)
  {
    var n := if x < 0 then -x else x;
    assert |Text(n / 100)| == 1;
    if n >= 100 { assert |Text(n / 10)| == 2; } else if n >= 10 { assert |Text(n / 10)| == 1; }
  }

  //////////////////////////////////////////////////////////////////////////////
  // The text in the reader
  //////////////////////////////////////////////////////////////////////////////

  function SignOf(x: int): seq<Byte> {
    if x < 0 then [MINUS] else []
  }

  /** The parts laid out, as a number literal. */
  function NumeralOf(minus: bool, p: Parts, exponential: bool): Literals.Numeral {
    Literals.Numeral(minus, p.whole, p.fraction,
                     if exponential then Literals.Exponent(LOWER_E, SignOf(p.exponent), Text(if p.exponent < 0 then -p.exponent else p.exponent))
                     else Literals.NoExponent)
  }

  lemma NumeralIsComposed(minus: bool, p: Parts, exponential: bool)
    requires IsWhole(p.whole) && AllDigits(p.fraction)
    ensures var n := NumeralOf(minus, p, exponential);
            Literals.GoodNumeral(n) && Literals.NumeralText(n) == (if minus then [MINUS] else []) + Compose(p, exponential)
  {
    hide Text, AllDigits;
    var n := NumeralOf(minus, p, exponential);
    TextDenotes(if p.exponent < 0 then -p.exponent else p.exponent);
    assert SignedText(p.exponent) == SignOf(p.exponent) + Text(if p.exponent < 0 then -p.exponent else p.exponent);
    assert Literals.ExpText(n.exp) == Last(p.exponent, exponential);
    assert Literals.FracText(n.frac) == Middle(p.fraction);
    hide SignedText, Middle, Last, Literals.ExpText, Literals.FracText;
    var sign := if minus then [MINUS] else [];
    Append3(sign + p.whole, Middle(p.fraction), Last(p.exponent, exponential));
    Append3(sign, p.whole, Middle(p.fraction));
    Append3(sign, p.whole + Middle(p.fraction), Last(p.exponent, exponential));
  }

  /** What dtoa writes is read as one double event that carries the text, or is too big. */
  lemma PrettyReads(src: seq<Byte>, p: nat, minus: bool, digits: seq<Byte>, k: int, maxPlaces: nat, cfg: Config)
    requires IsNumeral(digits) && maxPlaces >= 1
    requires var text := (if minus then [MINUS] else []) + Pretty(digits, k, maxPlaces);
             At(src, p, text) && RoundTrip.Ends(Peek(src, p + |text|))
    ensures var text := (if minus then [MINUS] else []) + Pretty(digits, k, maxPlaces);
            && p < |src|
            && Scanner.Number(src, p, cfg) == if cfg.tooBig(text) then Err(NumberTooBig, p) else Ok(Double(text), p + |text|)
  {
    hide Compose, At, Scanner.Number, Right, AllDigits, IsWhole;
    var parts, exponential := Layout(digits, k, maxPlaces), Exponential(|digits| + k, maxPlaces);
    LayoutRight(digits, k, maxPlaces);
    RightIs(parts, Exact(digits, k), Truncates(digits, k, maxPlaces), maxPlaces);
    NumeralIsComposed(minus, parts, exponential);
    assert exponential || parts.fraction != [];
    Literals.NumeralReads(src, p, NumeralOf(minus, parts, exponential), cfg);
  }

  //////////////////////////////////////////////////////////////////////////////
  // When an exponent is written
  //////////////////////////////////////////////////////////////////////////////

  lemma {:induction false} NumeralAtLeast(s: seq<Byte>)
    requires IsNumeral(s)
    ensures Pow10(|s| - 1) <= NatOf(s) < Pow10(|s|)
  {
    NatOfBound(s);
    if |s| > 1 {
      NumeralAtLeast(s[..|s| - 1]);
    }
  }

  /** A numeral of n digits, times 10^k, lies between 10^(n + k - 1) and 10^(n + k). */
  lemma ExactBounds(digits: seq<Byte>, k: int)
    requires IsNumeral(digits)
    ensures Power(10.0, |digits| + k - 1) <= Exact(digits, k) < Power(10.0, |digits| + k)
  {
    hide Power, NatOf, Pow10;
    var n := |digits|;
    NumeralAtLeast(digits);
    PowerShift(n + k, n);
    PowerShift(n + k - 1, n - 1);
    assert n + k - n == k && n + k - 1 - (n - 1) == k;
    Grow(Power(10.0, n + k - 1), Exact(digits, k), Power(10.0, n + k), Pow10(n - 1), NatOf(digits), Pow10(n), Power(10.0, k));
  }

  lemma Grow(low: real, value: real, high: real, a: int, b: int, c: int, x: real)
    requires a <= b < c && x > 0.0 && low == a as real * x && value == b as real * x && high == c as real * x
    ensures low <= value < high
  {
    assert (b - a) as real * x >= 0.0 && (c - b) as real * x > 0.0;
    assert (b - a) as real * x == b as real * x - a as real * x;
    assert (c - b) as real * x == c as real * x - b as real * x;
  }

  /** With the default of 324 places an exponent is written exactly for numbers from 10^21 on and below
      10^-6. */
  lemma ExponentWhen(digits: seq<Byte>, k: int)
    requires IsNumeral(digits) && |digits| + k >= -324
    ensures LOWER_E in Pretty(digits, k, 324) <==> Exact(digits, k) >= Power(10.0, 21) || Exact(digits, k) < Power(10.0, -6)
  {
    hide Power, NatOf, Compose, Layout, Right, AllDigits, Exact;
    var kk := |digits| + k;
    ExactBounds(digits, k);
    if kk <= 21 { PowerGrows(kk, 21); } else { PowerGrows(21, kk - 1); }
    if kk <= -6 { PowerGrows(kk, -6); } else { PowerGrows(-6, kk - 1); }
    if kk > 21 { PowerGrows(-6, 21); }
    LayoutRight(digits, k, 324);
    RightIs(Layout(digits, k, 324), Exact(digits, k), Truncates(digits, k, 324), 324);
    ExponentIn(Layout(digits, k, 324), Exponential(kk, 324));
  }

  lemma ExponentIn(p: Parts, exponential: bool)
    requires IsWhole(p.whole) && AllDigits(p.fraction)
    ensures LOWER_E in Compose(p, exponential) <==> exponential
  {
    hide SignedText;
    if exponential {
      assert Last(p.exponent, exponential)[0] == LOWER_E;
      assert LOWER_E in Last(p.exponent, exponential);
    }
  }

  //////////////////////////////////////////////////////////////////////////////
  // The code
  //////////////////////////////////////////////////////////////////////////////

  lemma {:induction false} SmallTexts(n: nat)
    requires n < 1000
    ensures n < 10 ==> Text(n) == [ZERO + n]
    ensures 10 <= n < 100 ==> Text(n) == Itoa.Pair(n)
    ensures n >= 100 ==> Text(n) == [ZERO + n / 100] + Itoa.Pair(n % 100)
  {
    Itoa.PairIsFixed(n % 100);
    Itoa.Powers();
    hide Itoa.Pair;
    if n >= 100 {
      TextSplits(n, 2);
      assert Text(n / 100) == [ZERO + n / 100];
    } else if n >= 10 {
      FixedIsText(n, 2);
    }
  }

  /** WriteExponent at `p`, for exponents of up to three digits. */
  method WriteExponent(K: int, buffer: array<Byte>, p: nat) returns (end: nat)
    requires -1000 < K < 1000 && p + 4 <= buffer.Length
    modifies buffer
    ensures buffer[..p] == old(buffer[..p])
    ensures p <= end <= p + 4 && buffer[p..end] == SignedText(K)
  {
    hide Text, Itoa.Lut;
    var K := K;
    end := p;
    if K < 0 {
      buffer[end] := MINUS;
      end, K := end + 1, -K;
    }
    ghost var start, n := end, K;
    SmallTexts(K);
    if K >= 100 {
      buffer[end] := ZERO + K / 100;
      end, K := end + 1, K % 100;
      var d := Itoa.Pair(K);
      buffer[end], buffer[end + 1] := d[0], d[1];
      end := end + 2;
    } else if K >= 10 {
      var d := Itoa.Pair(K);
      buffer[end], buffer[end + 1] := d[0], d[1];
      end := end + 2;
    } else {
      buffer[end] := ZERO + K;
      end := end + 1;
    }
    assert buffer[start..end] == Text(n);
    assert buffer[p..end] == buffer[p..start] + buffer[start..end];
  }

  /** The trailing zeros from `last` down to the place after the point are left out, but for one digit. */
  method TrimPlaces(buffer: array<Byte>, point: nat, last: nat) returns (end: nat)
    requires point < last < buffer.Length
    ensures point + 1 < end <= last + 1 && buffer[point + 1..end] == Trim(buffer[point + 1..last + 1])
  {
    var i := last;
    while i > point + 1
      invariant point + 1 <= i <= last && Trim(buffer[point + 1..i + 1]) == Trim(buffer[point + 1..last + 1])
    {
      if buffer[i] != ZERO {
        return i + 1;
      }
      assert buffer[point + 1..i + 1][..i - point - 1] == buffer[point + 1..i];
      i := i - 1;
    }
    return point + 2;
  }

  /** 1234e7 -> 12340000000.0 */
  method PadZeros(buffer: array<Byte>, length: nat, kk: nat) returns (end: nat)
    requires length <= kk && kk + 2 <= buffer.Length
    modifies buffer
    ensures end == kk + 2 && buffer[..end] == old(buffer[..length]) + ZeroDigits(kk - length) + [DOT, ZERO]
  {
    for i := length to kk
      invariant buffer[..i] == old(buffer[..length]) + ZeroDigits(i - length)
    {
      ZerosMore(i - length);
      buffer[i] := ZERO;
      assert buffer[..i + 1] == buffer[..i] + [ZERO];
    }
    buffer[kk], buffer[kk + 1] := DOT, ZERO;
    end := kk + 2;
    assert buffer[..end] == buffer[..kk] + [DOT, ZERO];
  }

  /** One place from `kk` on makes room for the point. */
  method InsertPoint(buffer: array<Byte>, length: nat, kk: nat)
    requires kk <= length < buffer.Length
    modifies buffer
    ensures buffer[..length + 1] == old(buffer[..kk]) + [DOT] + old(buffer[kk..length])
  {
    forall i | kk <= i < length { buffer[i + 1] := buffer[i]; }
    buffer[kk] := DOT;
  }

  /** memmove of the digits by `offset`. */
  method MoveDigits(buffer: array<Byte>, length: nat, offset: nat)
    requires length + offset <= buffer.Length
    modifies buffer
    ensures buffer[offset..offset + length] == old(buffer[..length])
  {
    forall i | 0 <= i < length { buffer[i + offset] := buffer[i]; }
  }

  method FillZeros(buffer: array<Byte>, from: nat, to: nat)
    requires from <= to <= buffer.Length
    modifies buffer
    ensures buffer[..from] == old(buffer[..from]) && buffer[to..] == old(buffer[to..])
    ensures buffer[from..to] == ZeroDigits(to - from)
  {
    forall i | from <= i < to { buffer[i] := ZERO; }
  }

  /** The digits move behind "0." and zeros. */
  method ShiftBehindZeros(buffer: array<Byte>, length: nat, zeros: nat)
    requires length + 2 + zeros <= buffer.Length
    modifies buffer
    ensures buffer[..length + 2 + zeros] == [ZERO, DOT] + (ZeroDigits(zeros) + old(buffer[..length]))
  {
    hide ZeroDigits;
    ghost var digits, total := buffer[..length], length + 2 + zeros;
    var offset := 2 + zeros;
    MoveDigits(buffer, length, offset);
    ghost var moved := buffer[offset..];
    assert moved[..length] == buffer[offset..total] == digits;
    buffer[0], buffer[1] := ZERO, DOT;
    assert buffer[offset..] == moved && buffer[..2] == [ZERO, DOT];
    FillZeros(buffer, 2, offset);
    assert buffer[offset..total] == buffer[offset..][..length] == digits;
    assert buffer[..total] == buffer[..2] + (buffer[2..offset] + buffer[offset..total]);
  }

  /** The digits after the point are cut to the places allowed. */
  method CutPlaces(buffer: array<Byte>, point: nat, total: nat, maxPlaces: nat) returns (end: nat)
    requires point + 1 < total <= buffer.Length && maxPlaces >= 1
    ensures point < end <= total && buffer[..end] == buffer[..point + 1] + Places(buffer[point + 1..total], maxPlaces)
  {
    hide Trim;
    if total - (point + 1) > maxPlaces {
      end := TrimPlaces(buffer, point, point + maxPlaces);
      assert buffer[point + 1..total][..maxPlaces] == buffer[point + 1..point + maxPlaces + 1];
    } else {
      end := total;
    }
    assert buffer[..end] == buffer[..point + 1] + buffer[point + 1..end];
  }

  /** 1234e-2 -> 12.34 */
  method PointInside(buffer: array<Byte>, length: nat, kk: nat, maxPlaces: nat) returns (end: nat)
    requires 0 < kk < length < buffer.Length && maxPlaces >= 1
    modifies buffer
    ensures end <= buffer.Length
    ensures buffer[..end] == old(buffer[..kk]) + [DOT] + Places(old(buffer[kk..length]), maxPlaces)
  {
    hide Places;
    ghost var whole, fraction := buffer[..kk], buffer[kk..length];
    InsertPoint(buffer, length, kk);
    WholeAndFraction(buffer[..length + 1], whole, fraction);
    assert buffer[..kk + 1] == whole + [DOT] && buffer[kk + 1..length + 1] == fraction;
    end := CutPlaces(buffer, kk, length + 1, maxPlaces);
  }

  /** 1234e-6 -> 0.001234 */
  method PointBefore(buffer: array<Byte>, length: nat, zeros: nat, maxPlaces: nat) returns (end: nat)
    requires 0 < length && length + 2 + zeros <= buffer.Length && maxPlaces >= 1
    modifies buffer
    ensures end <= buffer.Length
    ensures buffer[..end] == [ZERO] + [DOT] + Places(ZeroDigits(zeros) + old(buffer[..length]), maxPlaces)
  {
    hide Places;
    var total := length + 2 + zeros;
    ghost var fraction := ZeroDigits(zeros) + buffer[..length];
    ShiftBehindZeros(buffer, length, zeros);
    assert [ZERO, DOT] == [ZERO] + [DOT];
    WholeAndFraction(buffer[..total], [ZERO], fraction);
    assert buffer[..2] == [ZERO] + [DOT] && buffer[2..total] == fraction;
    end := CutPlaces(buffer, 1, total, maxPlaces);
  }

  /** 1234e30 -> 1.234e33 */
  method Scientific(buffer: array<Byte>, length: nat, kk: int) returns (end: nat)
    requires 1 <= length && length + 6 <= buffer.Length && -1000 < kk - 1 < 1000
    modifies buffer
    ensures end <= buffer.Length
    ensures var digits := old(buffer[..length]);
            buffer[..end] == Compose(Parts(digits[..1], digits[1..], kk - 1), true)
  {
    hide SignedText;
    ghost var digits := buffer[..length];
    var e;
    if length == 1 {
      e := 1;
    } else {
      InsertPoint(buffer, length, 1);
      e := length + 1;
    }
    assert buffer[..e] == digits[..1] + Middle(digits[1..]);
    buffer[e] := LOWER_E;
    ghost var head := buffer[..e + 1];
    assert head == digits[..1] + Middle(digits[1..]) + [LOWER_E];
    end := WriteExponent(kk - 1, buffer, e + 1);
    assert buffer[..end] == buffer[..e + 1] + buffer[e + 1..end];
    hide Middle, Last;
    ComposeExponent(digits[..1], digits[1..], kk - 1);
  }

  lemma ComposeExponent(whole: seq<Byte>, fraction: seq<Byte>, exponent: int)
    ensures Compose(Parts(whole, fraction, exponent), true) == whole + Middle(fraction) + [LOWER_E] + SignedText(exponent)
  {
    hide SignedText, Middle;
  }

  method Prettify(buffer: array<Byte>, length: nat, k: int, maxPlaces: nat) returns (end: nat)
    requires 1 <= length <= 17 && -1000 < length + k - 1 < 1000 && maxPlaces >= 1 && buffer.Length >= 24
    modifies buffer
    ensures end <= buffer.Length && buffer[..end] == Pretty(old(buffer[..length]), k, maxPlaces)
  {
    hide SignedText, Places, ZeroDigits, Compose;
    ghost var digits := buffer[..length];
    var kk := length + k;
    if 0 <= k && kk <= 21 {
      end := PadZeros(buffer, length, kk);
      ComposePoint(digits + ZeroDigits(k), [ZERO]);
      assert digits + ZeroDigits(k) + [DOT, ZERO] == digits + ZeroDigits(k) + [DOT] + [ZERO];
    } else if 0 < kk && kk <= 21 {
      assert digits[..kk] == buffer[..kk] && digits[kk..] == buffer[kk..length];
      end := PointInside(buffer, length, kk, maxPlaces);
      ComposePoint(digits[..kk], Places(digits[kk..], maxPlaces));
    } else if -6 < kk && kk <= 0 {
      end := PointBefore(buffer, length, -kk, maxPlaces);
      ComposePoint([ZERO], Places(ZeroDigits(-kk) + digits, maxPlaces));
    } else if kk + maxPlaces < 0 {
      buffer[0], buffer[1], buffer[2] := ZERO, DOT, ZERO;
      end := 3;
      ComposePoint([ZERO], [ZERO]);
    } else {
      end := Scientific(buffer, length, kk);
    }
  }

  lemma ComposePoint(whole: seq<Byte>, fraction: seq<Byte>)
    requires fraction != []
    ensures Compose(Parts(whole, fraction, 0), false) == whole + [DOT] + fraction
  {
  }

  lemma WholeAndFraction(text: seq<Byte>, whole: seq<Byte>, fraction: seq<Byte>)
    requires text == whole + [DOT] + fraction
    ensures text[..|whole| + 1] == whole + [DOT] && text[|whole| + 1..] == fraction
  {
  }
}
