/**
 CheckWithinHalfULP of strtod.h: three reals, a decimal d * 10^dExp, a double b and half a unit in
 the last place of b, are compared as integers by scaling all three with one common positive factor.
 */
module HalfUlp {
  import opened Limbs
  import opened BigIntegers
  import Decimal
  import opened Powers

  //////////////////////////////////////////////////////////////////////////////
  // Powers of two, five and ten
  //////////////////////////////////////////////////////////////////////////////

  lemma {:induction false} PowerOfTwo(n: nat)
    ensures Power(2.0, n) == Pow2(n) as real
  {
    if n > 0 { PowerOfTwo(n - 1); }
  }

  lemma {:induction false} PowerOfFive(n: nat)
    ensures Power(5.0, n) == Pow5(n) as real
  {
    if n > 0 { PowerOfFive(n - 1); }
  }

  lemma {:induction false} PowerOfTen(e: int)
    ensures Power(10.0, e) == Power(5.0, e) * Power(2.0, e)
    decreases if e < 0 then -e else e
  {
    if e > 0 {
      PowerOfTen(e - 1);
      TenSplits(Power(5.0, e - 1), Power(2.0, e - 1));
    } else if e < 0 {
      PowerOfTen(e + 1);
      TenSplits(Power(5.0, e), Power(2.0, e));
      PowerStep(10.0, e);
      PowerStep(5.0, e);
      PowerStep(2.0, e);
    }
  }

  lemma TenSplits(y: real, z: real)
    ensures 5.0 * y * (2.0 * z) == 10.0 * (y * z)
  {
    assert 5.0 * y * (2.0 * z) == (5.0 * y) * 2.0 * z;
  }

  //////////////////////////////////////////////////////////////////////////////
  // Doubles
  //////////////////////////////////////////////////////////////////////////////

  const TWO52: int := 0x10_0000_0000_0000

  function Significand(u: Limb): int {
    u % TWO52
  }

  function BiasedExponent(u: Limb): int {
    u / TWO52 % 2048
  }

  predicate IsNormal(u: Limb) {
    BiasedExponent(u) != 0 || Significand(u) == 0
  }

  function IntegerSignificand(u: Limb): Limb {
    if IsNormal(u) then Significand(u) + TWO52 else Significand(u)
  }

  function IntegerExponent(u: Limb): int {
    (if IsNormal(u) then BiasedExponent(u) - 0x3FF else 1 - 0x3FF) - 52
  }

  /** A positive finite double. */
  predicate IsPositive(u: Limb) {
    0 < u < 0x7FF0_0000_0000_0000
  }

  /** The number its bits encode. */
  function DoubleValue(u: Limb): real
    requires IsPositive(u)
  {
    if BiasedExponent(u) == 0 then Significand(u) as real / TWO52 as real * Power(2.0, -1022)
    else (1.0 + Significand(u) as real / TWO52 as real) * Power(2.0, BiasedExponent(u) - 1023)
  }

  /** Half the distance to the next larger double of the same exponent. */
  function HalfUnit(u: Limb): real
    requires IsPositive(u)
  {
    Power(2.0, (if BiasedExponent(u) == 0 then 1 else BiasedExponent(u)) - 1076)
  }

  lemma Pow2Is52()
    ensures Pow2(52) == TWO52
  {
    assert Pow2(4) == 0x10;
    hide Pow2;
    Pow2Is(4, 0x10, 4, 0x10);
    Pow2Is(8, 0x100, 8, 0x100);
    Pow2Is(16, 0x1_0000, 16, 0x1_0000);
    Pow2Is(32, 0x1_0000_0000, 16, 0x1_0000);
    Pow2Is(48, 0x1_0000_0000_0000, 4, 0x10);
  }

  lemma PowerMinus52()
    ensures Power(2.0, -52) == 1.0 / TWO52 as real
  {
    hide Power, Pow2;
    Pow2Is52();
    PowerOfTwo(52);
    PowerAdd(2.0, 52, -52);
    PowerZero(2.0);
  }

  lemma ValueIsInteger(u: Limb)
    requires IsPositive(u)
    ensures DoubleValue(u) == IntegerSignificand(u) as real * Power(2.0, IntegerExponent(u))
    ensures HalfUnit(u) == Power(2.0, IntegerExponent(u) - 1)
    ensures IntegerSignificand(u) > 0
  {
    hide Power;
    var e := IntegerExponent(u) + 52;
    PowerMinus52();
    PowerAdd(2.0, e, -52);
    Rescale(IntegerSignificand(u) as real, Power(2.0, e), TWO52 as real);
  }

  lemma Rescale(x: real, p: real, d: real)
    requires d > 0.0
    ensures x / d * p == x * (p * (1.0 / d))
  {
  }

  //////////////////////////////////////////////////////////////////////////////
  // Scaling
  //////////////////////////////////////////////////////////////////////////////

  /** The exponents by which the decimal, the double and the half unit are scaled. */
  datatype Scale = Scale(d2: int, d5: int, b2: int, b5: int, h2: int, h5: int)

  function Min3(a: int, b: int, c: int): int {
    var m := if a > b then b else a;
    if m > c then c else m
  }

  lemma MinShifts(a: int, b: int, c: int, x: int)
    ensures Min3(a + x, b + x, c + x) == Min3(a, b, c) + x
  {
  }

  /** The exponents, with a factor 5^k 2^m common to all three numbers. */
  ghost predicate IsScale(s: Scale, bExp: int, dExp: int, k: int, m: int) {
    && s.d5 == dExp + k && s.b5 == k && s.h5 == k
    && s.d2 == dExp + m && s.b2 == bExp + m && s.h2 == bExp - 1 + m
    && s.d5 >= 0 && s.b5 >= 0 && s.h5 >= 0 && s.d2 >= 0 && s.b2 >= 0 && s.h2 >= 0
  }

  /** The adjustment of the exponents, step by step as strtod.h makes it. */
  method Adjust(bExp: int, dExp: int) returns (s: Scale)
    ensures s == ScaleOf(bExp, dExp)
  {
    var hExp := bExp - 1;
    var d2, d5, b2, b5, h2, h5 := 0, 0, 0, 0, 0, 0;
    if dExp >= 0 {
      d2, d5 := d2 + dExp, d5 + dExp;
    } else {
      b2, b5, h2, h5 := b2 - dExp, b5 - dExp, h2 - dExp, h5 - dExp;
    }
    if bExp >= 0 {
      b2 := b2 + bExp;
    } else {
      d2, h2 := d2 - bExp, h2 - bExp;
    }
    if hExp >= 0 {
      h2 := h2 + hExp;
    } else {
      d2, b2 := d2 - hExp, b2 - hExp;
    }
    assert b2 == d2 + (bExp - dExp) && h2 == d2 + (hExp - dExp);
    MinShifts(dExp, bExp, hExp, d2 - dExp);
    var common := Min3(d2, b2, h2);
    hide Min3;
    d2, b2, h2 := d2 - common, b2 - common, h2 - common;
    s := Scale(d2, d5, b2, b5, h2, h5);
  }

  /** The smallest exponents that make all three numbers integers and share no power of two beyond
      what the half unit and the decimal exponent force. */
  function ScaleOf(bExp: int, dExp: int): Scale {
    var k := if dExp >= 0 then 0 else -dExp;
    var m := -Min3(dExp, bExp, bExp - 1);
    Scale(dExp + m, dExp + k, bExp + m, k, bExp - 1 + m, k)
  }

  lemma ScaleHolds(bExp: int, dExp: int)
    ensures exists k, m :: IsScale(ScaleOf(bExp, dExp), bExp, dExp, k, m)
  {
    var k := if dExp >= 0 then 0 else -dExp;
    var m := -Min3(dExp, bExp, bExp - 1);
    assert IsScale(ScaleOf(bExp, dExp), bExp, dExp, k, m);
  }

  /** n * 5^e5 * 2^e2. */
  function Scaled(n: nat, e5: nat, e2: nat): nat {
    Product(n * Pow5(e5), Pow2(e2))
  }

  function Product(a: int, b: int): (r: nat)
    requires a >= 0 && b >= 0
  {
    Decimal.MulMonotone(0, a, b);
    a * b
  }

  /** Scaling by 5^k 2^m. */
  function Factor(k: int, m: int): (r: real)
    ensures r > 0.0
  {
    Times(Power(5.0, k), Power(2.0, m))
  }

  lemma ScaledIsMultiple(n: nat, e5: nat, e2: nat, x5: int, x2: int, k: int, m: int)
    requires e5 == x5 + k && e2 == x2 + m
    ensures Scaled(n, e5, e2) as real == n as real * (Power(5.0, x5) * Power(2.0, x2)) * Factor(k, m)
  {
    hide Power, Pow2, Pow5;
    PowerOfTwo(e2);
    PowerOfFive(e5);
    PowerAdd(5.0, x5, k);
    PowerAdd(2.0, x2, m);
    Four(n as real, Power(5.0, x5), Power(5.0, k), Power(2.0, x2), Power(2.0, m));
  }

  lemma Four(n: real, a: real, b: real, c: real, d: real)
    ensures n * (a * b) * (c * d) == n * (a * c) * (b * d)
  {
    assert (a * b) * (c * d) == (a * c) * (b * d);
    assert n * (a * b) * (c * d) == n * ((a * b) * (c * d));
    assert n * (a * c) * (b * d) == n * ((a * c) * (b * d));
  }

  //////////////////////////////////////////////////////////////////////////////
  // The comparison
  //////////////////////////////////////////////////////////////////////////////

  function DecimalValue(d: nat, dExp: int): real {
    d as real * Power(10.0, dExp)
  }

  function RealDistance(x: real, y: real): real {
    if x < y then y - x else x - y
  }

  function RealSign(x: real): int {
    if x < 0.0 then -1 else if x > 0.0 then 1 else 0
  }

  /** The three scaled integers. */
  function ScaledDecimal(b: Limb, d: nat, dExp: int): nat {
    var s := Exponents(b, dExp);
    Scaled(d, s.d5, s.d2)
  }

  function ScaledDouble(b: Limb, dExp: int): nat {
    var s := Exponents(b, dExp);
    Scaled(IntegerSignificand(b), s.b5, s.b2)
  }

  function ScaledHalf(b: Limb, dExp: int): nat {
    var s := Exponents(b, dExp);
    Scaled(1, s.h5, s.h2)
  }

  function Exponents(b: Limb, dExp: int): (s: Scale)
    ensures s.d5 >= 0 && s.b5 >= 0 && s.h5 >= 0 && s.d2 >= 0 && s.b2 >= 0 && s.h2 >= 0
  {
    ScaleOf(IntegerExponent(b), dExp)
  }

  /** One positive factor takes the three reals to the three integers. */
  lemma CommonFactor(b: Limb, d: nat, dExp: int) returns (f: real)
    requires IsPositive(b)
    ensures f > 0.0
    ensures ScaledDecimal(b, d, dExp) as real == DecimalValue(d, dExp) * f
    ensures ScaledDouble(b, dExp) as real == DoubleValue(b) * f
    ensures ScaledHalf(b, dExp) as real == HalfUnit(b) * f
  {
    hide Power, Scaled, DoubleValue, HalfUnit;
    var bExp, s := IntegerExponent(b), Exponents(b, dExp);
    ScaleHolds(bExp, dExp);
    var k, m :| IsScale(s, bExp, dExp, k, m);
    f := Factor(k, m);
    ValueIsInteger(b);
    PowerOfTen(dExp);
    PowerZero(5.0);
    ScaledIsMultiple(d, s.d5, s.d2, dExp, dExp, k, m);
    ScaledIsMultiple(IntegerSignificand(b), s.b5, s.b2, 0, bExp, k, m);
    ScaledIsMultiple(1, s.h5, s.h2, 0, bExp - 1, k, m);
  }

  lemma SignScales(x: int, y: int, z: int, p: real, q: real, r: real, f: real)
    requires f > 0.0 && x as real == p * f && y as real == q * f && z as real == r * f
    ensures Sign(Distance(x, y) - z) == RealSign(RealDistance(p, q) - r)
    ensures x == y <==> p == q
  {
    var t := RealDistance(p, q) - r;
    DistanceScales(p, q, f);
    assert t * f == RealDistance(p, q) * f - r * f;
    assert (Distance(x, y) - z) as real == t * f;
    if t > 0.0 { assert t * f > 0.0; } else if t < 0.0 { assert (-t) * f > 0.0; }
  }

  lemma DistanceScales(p: real, q: real, f: real)
    requires f > 0.0
    ensures RealDistance(p * f, q * f) == RealDistance(p, q) * f
    ensures p * f == q * f <==> p == q
  {
    if p < q { assert (q - p) * f > 0.0; } else if q < p { assert (p - q) * f > 0.0; }
  }

  /** Comparing the scaled integers is comparing the reals. */
  lemma SameSign(b: Limb, d: nat, dExp: int)
    requires IsPositive(b)
    ensures Sign(Distance(ScaledDecimal(b, d, dExp), ScaledDouble(b, dExp)) - ScaledHalf(b, dExp))
         == RealSign(RealDistance(DecimalValue(d, dExp), DoubleValue(b)) - HalfUnit(b))
    ensures ScaledDecimal(b, d, dExp) == ScaledDouble(b, dExp) <==> DecimalValue(d, dExp) == DoubleValue(b)
  {
    hide ScaledDecimal, ScaledDouble, ScaledHalf, DecimalValue, DoubleValue, HalfUnit;
    var f := CommonFactor(b, d, dExp);
    SignScales(ScaledDecimal(b, d, dExp), ScaledDouble(b, dExp), ScaledHalf(b, dExp),
               DecimalValue(d, dExp), DoubleValue(b), HalfUnit(b), f);
  }

  /** All three scaled integers fit, with the one spare limb a shift may need. */
  predicate Fits(b: Limb, d: nat, dExp: int) {
    ScaledDecimal(b, d, dExp) < Pow(CAPACITY - 1) && ScaledDouble(b, dExp) < Pow(CAPACITY - 1)
    && ScaledHalf(b, dExp) < Pow(CAPACITY - 1)
  }

  /** What the lost borrows of Difference add to the distance compared. */
  function Overshoot(b: Limb, d: nat, dExp: int): nat {
    Excess(ScaledDecimal(b, d, dExp), ScaledDouble(b, dExp))
  }

  lemma Room(s: seq<Limb>, shift: nat)
    requires Normal(s) && Num(s) * Pow2(shift) < Pow(CAPACITY - 1)
    ensures (|s| == 1 && s[0] == 0) || |s| + shift / 64 < CAPACITY
  {
    hide Num, Pow2, Pow;
    if !(|s| == 1 && s[0] == 0) {
      Positive(s);
      var n, k := |s| - 1, shift / 64;
      Pow2Limbs(k);
      Pow2Add(64 * k, shift % 64);
      PowAdd(n, k);
      ProductGrows(Pow(n), Num(s), Pow(k), Pow2(shift), Pow2(shift % 64));
      if n + k >= CAPACITY - 1 { PowMonotone(CAPACITY - 1, n + k); }
    }
  }

  lemma ProductGrows(a: nat, x: nat, b: nat, y: nat, c: nat)
    requires a <= x && y == b * c && c >= 1
    ensures a * b <= x * y
  {
    Decimal.MulMonotone(1, c, b);
    Decimal.MulMonotone(a, x, b);
    Decimal.MulMonotone(b, y, x);
  }

  lemma {:induction false} PowAdd(m: nat, n: nat)
    ensures Pow(m + n) == Pow(m) * Pow(n)
  {
    if m > 0 {
      PowAdd(m - 1, n);
      Regroup(BASE, Pow(m - 1), Pow(n));
    }
  }

  /** MultiplyPow5, then <<=. */
  method ScaleUp(x: BigInteger, e5: nat, e2: nat)
    requires x.Valid() && Scaled(x.Value(), e5, e2) < Pow(CAPACITY - 1)
    modifies x, x.digits
    ensures x.Valid() && x.Value() == Scaled(old(x.Value()), e5, e2)
  {
    hide Num, Pow, Pow2, Pow5, Normal;
    ghost var v := x.Value() * Pow5(e5);
    Decimal.MulMonotone(0, x.Value(), Pow5(e5));
    Decimal.MulMonotone(1, Pow2(e2), v);
    PowMonotone(CAPACITY - 1, CAPACITY);
    x.MultiplyPow5(e5);
    Room(x.digits[..x.count], e2);
    x.ShiftLeft(e2);
  }

  method MakeScaled(n: Limb, e5: nat, e2: nat) returns (x: BigInteger)
    requires Scaled(n, e5, e2) < Pow(CAPACITY - 1)
    ensures x.Valid() && x.Value() == Scaled(n, e5, e2) && fresh(x) && fresh(x.digits)
  {
    hide Scaled, Pow, Num, Normal;
    x := new BigInteger(n);
    ScaleUp(x, e5, e2);
  }

  /** The distance Difference makes of the scaled decimal and double. */
  function MeasuredDistance(b: Limb, d: nat, dExp: int): nat {
    Distance(ScaledDecimal(b, d, dExp), ScaledDouble(b, dExp)) + Overshoot(b, d, dExp)
  }

  /** The exact verdict: -1, 0 or 1 as the decimal is within, at or beyond half a unit. */
  function Verdict(b: Limb, d: nat, dExp: int): int
    requires IsPositive(b)
  {
    RealSign(RealDistance(DecimalValue(d, dExp), DoubleValue(b)) - HalfUnit(b))
  }

  /** The larger and the smaller of the scaled decimal and double. */
  function Larger(b: Limb, d: nat, dExp: int): nat {
    var x, y := ScaledDecimal(b, d, dExp), ScaledDouble(b, dExp);
    if x < y then y else x
  }

  function Smaller(b: Limb, d: nat, dExp: int): (r: nat)
    ensures r <= Larger(b, d, dExp)
  {
    var x, y := ScaledDecimal(b, d, dExp), ScaledDouble(b, dExp);
    if x < y then x else y
  }

  /** The inputs that get a wrong verdict: a limb 2^64 - 1 of the smaller number has to borrow, the two
      numbers are within half a unit, and the borrows lost make up the rest of half a unit. */
  ghost predicate Misjudged(b: Limb, d: nat, dExp: int)
    requires ScaledDecimal(b, d, dExp) != ScaledDouble(b, dExp)
  {
    var hi, lo, h := Larger(b, d, dExp), Smaller(b, d, dExp), ScaledHalf(b, dExp);
    ExcessIs(hi, lo);
    && Loses(LimbsOf(hi), LimbsOf(lo))
    && hi - lo <= h <= hi - lo + LostUpTo(LimbsOf(hi), LimbsOf(lo), |LimbsOf(lo)|)
  }

  /** The answer is the exact verdict if and only if the input is not one of those. */
  lemma VerdictExactly(b: Limb, d: nat, dExp: int)
    requires IsPositive(b) && DecimalValue(d, dExp) != DoubleValue(b)
    ensures ScaledDecimal(b, d, dExp) != ScaledDouble(b, dExp)
    ensures Sign(MeasuredDistance(b, d, dExp) - ScaledHalf(b, dExp)) == Verdict(b, d, dExp) <==> !Misjudged(b, d, dExp)
  {
    hide ScaledDecimal, ScaledDouble, ScaledHalf, DecimalValue, DoubleValue, HalfUnit, Excess, IsPositive, Loses, LimbsOf, LostUpTo;
    SameSign(b, d, dExp);
    var hi, lo := Larger(b, d, dExp), Smaller(b, d, dExp);
    ExcessWhere(hi, lo);
    ExcessIs(hi, lo);
  }

  /** The double 2^128 and the decimal 2^128 - 2^64 + 1. */
  const MISJUDGED_DOUBLE: Limb := 0x47F0_0000_0000_0000
  const MISJUDGED_DECIMAL: nat := BASE * BASE - BASE + 1

  lemma MisjudgedScale()
    ensures ScaledDecimal(MISJUDGED_DOUBLE, MISJUDGED_DECIMAL, 0) == MISJUDGED_DECIMAL
    ensures ScaledDouble(MISJUDGED_DOUBLE, 0) == BASE * BASE
    ensures ScaledHalf(MISJUDGED_DOUBLE, 0) == 2048 * BASE
  {
    hide Pow2, Pow5, IntegerSignificand, IntegerExponent;
    PowerDouble(MISJUDGED_DOUBLE, 0x47F);
    assert ScaleOf(76, 0) == Scale(0, 0, 76, 0, 75, 0);
    MisjudgedPowers();
    Scaled1(MISJUDGED_DECIMAL, 0);
    Scaled1(TWO52, 76);
    Scaled1(1, 75);
  }

  lemma Scaled1(n: nat, e2: nat)
    ensures Scaled(n, 0, e2) == n * Pow2(e2)
  {
    assert Pow5(0) == 1;
    hide Pow5, Pow2;
    assert n * Pow5(0) == n;
  }

  /** A double that is a power of two. */
  lemma PowerDouble(u: Limb, biased: int)
    requires 1 <= biased < 2047 && u == biased * TWO52
    ensures IntegerSignificand(u) == TWO52 && IntegerExponent(u) == biased - 1075
  {
    Decimal.DivUnique(u, TWO52, biased, 0);
    Decimal.DivUnique(biased, 2048, 0, biased);
    assert BiasedExponent(u) == biased && Significand(u) == 0;
    hide BiasedExponent, Significand;
  }

  lemma MisjudgedPowers()
    ensures MISJUDGED_DECIMAL * Pow2(0) == MISJUDGED_DECIMAL
    ensures TWO52 * Pow2(76) == BASE * BASE && 1 * Pow2(75) == 2048 * BASE
  {
    assert Pow2(0) == 1 && Pow2(1) == 2 && Pow2(3) == 8;
    hide Pow2;
    Pow2Limb();
    Pow2Is52();
    Pow2Is(3, 8, 1, 2);
    Pow2Is(4, 16, 4, 16);
    Pow2Is(8, 256, 3, 8);
    Pow2Is(11, 2048, 64, BASE);
    Pow2Is(75, 2048 * BASE, 1, 2);
  }

  /** They are 2^64 - 1 apart, well within half a unit of 2^75, and judged to be beyond it. */
  lemma VerdictMayFail()
    ensures IsPositive(MISJUDGED_DOUBLE) && Fits(MISJUDGED_DOUBLE, MISJUDGED_DECIMAL, 0)
    ensures DecimalValue(MISJUDGED_DECIMAL, 0) != DoubleValue(MISJUDGED_DOUBLE)
    ensures Verdict(MISJUDGED_DOUBLE, MISJUDGED_DECIMAL, 0) == -1
    ensures Sign(MeasuredDistance(MISJUDGED_DOUBLE, MISJUDGED_DECIMAL, 0) - ScaledHalf(MISJUDGED_DOUBLE, 0)) == 1
  {
    var b, d := MISJUDGED_DOUBLE, MISJUDGED_DECIMAL;
    hide ScaledDecimal, ScaledDouble, ScaledHalf, DecimalValue, DoubleValue, HalfUnit, Fits, Excess;
    MisjudgedFits();
    MisjudgedScale();
    SameSign(b, d, 0);
    MisjudgedExcess();
  }

  lemma MisjudgedFits()
    ensures Fits(MISJUDGED_DOUBLE, MISJUDGED_DECIMAL, 0)
  {
    MisjudgedScale();
    hide ScaledDecimal, ScaledDouble, ScaledHalf;
    assert Pow(1) == BASE && Pow(2) == BASE * Pow(1) && Pow(3) == BASE * Pow(2);
    hide Pow;
    PowMonotone(3, CAPACITY - 1);
  }

  lemma {:induction false} MisjudgedExcess()
    ensures Excess(MISJUDGED_DECIMAL, BASE * BASE) == BASE * BASE
  {
    var x: seq<Limb>, y: seq<Limb> := [0, 0, 1], [1, BASE - 1];
    DifferenceMayFail();
    NormalIsLimbsOf(x);
    NormalIsLimbsOf(y);
    MisjudgedLimbs();
    DifferenceDenotes(x, y);
    hide Num, Sub, Lost, LimbsOf;
  }

  lemma {:induction false} MisjudgedLimbs()
    ensures Num([0, 0, 1]) == BASE * BASE && Num([1, BASE - 1]) == MISJUDGED_DECIMAL
  {
    Low(1, []);
    Low(0, [1]);
    Low(0, [0, 1]);
    Low(BASE - 1, []);
    Low(1, [BASE - 1]);
    assert [1] + [] == [1] && [0] + [1] == [0, 1] && [0] + [0, 1] == [0, 0, 1];
    assert [BASE - 1] + [] == [BASE - 1] && [1] + [BASE - 1] == [1, BASE - 1];
    Empty([]);
  }

  method CheckWithinHalfULP(b: Limb, d: BigInteger, dExp: int) returns (c: int)
    requires IsPositive(b) && d.Valid() && Fits(b, d.Value(), dExp)
    requires DecimalValue(d.Value(), dExp) != DoubleValue(b)
    ensures d.Valid() && d.Value() == old(d.Value())
    ensures Overshoot(b, d.Value(), dExp) == 0 ==> c == Verdict(b, d.Value(), dExp)
    ensures c == Sign(MeasuredDistance(b, d.Value(), dExp) - ScaledHalf(b, dExp))
    ensures ScaledDecimal(b, d.Value(), dExp) != ScaledDouble(b, dExp)
    ensures c == Verdict(b, d.Value(), dExp) <==> !Misjudged(b, d.Value(), dExp)
  {
    hide DoubleValue, DecimalValue, IsPositive, Verdict, Misjudged, Fits, ScaledDecimal, ScaledDouble, ScaledHalf, Excess;
    VerdictExactly(b, d.Value(), dExp);
    if Overshoot(b, d.Value(), dExp) == 0 { NothingLostNothingMissed(b, d.Value(), dExp); }
    c := ScaleAndCompare(b, d, dExp);
  }

  lemma NothingLostNothingMissed(b: Limb, d: nat, dExp: int)
    requires ScaledDecimal(b, d, dExp) != ScaledDouble(b, dExp) && Overshoot(b, d, dExp) == 0
    ensures !Misjudged(b, d, dExp)
  {
    hide ScaledDecimal, ScaledDouble, ScaledHalf, Excess, Loses, LimbsOf, LostUpTo;
    ExcessWhere(Larger(b, d, dExp), Smaller(b, d, dExp));
  }

  /** ... the three BigIntegers, their difference and the comparison. */
  method ScaleAndCompare(b: Limb, d: BigInteger, dExp: int) returns (c: int)
    requires d.Valid() && Fits(b, d.Value(), dExp) && ScaledDecimal(b, d.Value(), dExp) != ScaledDouble(b, dExp)
    ensures d.Valid() && d.Value() == old(d.Value())
    ensures c == Sign(MeasuredDistance(b, d.Value(), dExp) - ScaledHalf(b, dExp))
  {
    hide Num, Scaled, Excess, Normal, Pow, Distance;
    var s := Adjust(IntegerExponent(b), dExp);
    hide ScaleOf, IntegerSignificand, IntegerExponent;
    var dS := new BigInteger.Copy(d);
    ScaleUp(dS, s.d5, s.d2);
    var bS := MakeScaled(IntegerSignificand(b), s.b5, s.b2);
    var hS := MakeScaled(1, s.h5, s.h2);
    var delta := new BigInteger(0);
    var ret := dS.Difference(bS, delta);
    c := delta.Compare(hS);
  }
}
