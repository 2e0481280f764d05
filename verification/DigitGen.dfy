/**
 Grisu2 digit generation of dtoa.h, on integers: digits of Mp are produced until what is left of Mp
 is no more than delta, then the last digit is lowered as far as that brings the decimal closer to W.
 */
module DigitGeneration {
  import opened Ascii
  import opened Decimal
  import opened Limbs
  import BigIntegers

  //////////////////////////////////////////////////////////////////////////////
  // GrisuRound
  //////////////////////////////////////////////////////////////////////////////

  function Apart(x: int, y: int): nat {
    if x < y then y - x else x - y
  }

  /** What is left of Mp after the last digit has been lowered `i` times. */
  function Candidate(rest: int, ten: int, i: int): int {
    rest + i * ten
  }

  lemma CandidateStep(rest: int, ten: int, i: int)
    ensures Candidate(rest, ten, i + 1) == Candidate(rest, ten, i) + ten
  {
  }

  lemma CandidateOrder(rest: int, ten: int, i: int, j: int)
    requires ten >= 0 && i <= j
    ensures Candidate(rest, ten, i) <= Candidate(rest, ten, j)
  {
    MulMonotone(i, j, ten);
  }

  /** Of all candidates up to `delta`, the one left is closest to W. */
  ghost predicate Closest(rest: int, ten: int, delta: int, gap: int, chosen: int) {
    forall i | 0 <= i && Candidate(rest, ten, i) <= delta :: Apart(chosen, gap) <= Apart(Candidate(rest, ten, i), gap)
  }

  method GrisuRound(buffer: array<Byte>, len: nat, delta: Limb, rest: Limb, ten: Limb, gap: Limb) returns (ghost left: int)
    requires 1 <= len <= buffer.Length && IsDigit(buffer[len - 1]) && ten >= 1 && rest <= delta
    requires delta <= Candidate(rest, ten, buffer[len - 1] - ZERO)
    modifies buffer
    ensures forall i | 0 <= i < buffer.Length && i != len - 1 :: buffer[i] == old(buffer[i])
    ensures ZERO <= buffer[len - 1] <= old(buffer[len - 1])
    ensures left == Candidate(rest, ten, old(buffer[len - 1]) - buffer[len - 1]) <= delta
    ensures Closest(rest, ten, delta, gap, left)
  {
    hide Candidate;
    var now: int := rest;
    ghost var j := 0;
    assert now == Candidate(rest, ten, 0) by { CandidateZero(rest, ten); }
    while now < gap && delta - now >= ten && (now + ten < gap || gap - now > now + ten - gap)
      invariant 0 <= j <= old(buffer[len - 1]) - ZERO && buffer[len - 1] == old(buffer[len - 1]) - j
      invariant forall i | 0 <= i < buffer.Length && i != len - 1 :: buffer[i] == old(buffer[i])
      invariant now == Candidate(rest, ten, j) <= delta
      invariant forall i | 0 <= i <= j :: Apart(now, gap) <= Apart(Candidate(rest, ten, i), gap)
      decreases delta - now
    {
      CandidateStep(rest, ten, j);
      assert j < old(buffer[len - 1]) - ZERO;
      buffer[len - 1] := buffer[len - 1] - 1;
      now := now + ten;
      j := j + 1;
    }
    left := now;
    forall i | 0 <= i && Candidate(rest, ten, i) <= delta
      ensures Apart(left, gap) <= Apart(Candidate(rest, ten, i), gap)
    {
      if i > j {
        CandidateStep(rest, ten, j);
        CandidateOrder(rest, ten, j + 1, i);
      }
    }
  }

  lemma CandidateZero(rest: int, ten: int)
    ensures Candidate(rest, ten, 0) == rest
  {
  }

  //////////////////////////////////////////////////////////////////////////////
  // Digits
  //////////////////////////////////////////////////////////////////////////////

  const TENS: seq<Limb> := [1, 10, 100, 1000, 10_000, 100_000, 1_000_000, 10_000_000, 100_000_000, 1_000_000_000]

  lemma TensArePowers(i: nat)
    requires i < |TENS|
    ensures TENS[i] == Pow10(i)
  {
    assert Pow10(2) == 100 && Pow10(4) == 10_000 && Pow10(6) == 1_000_000 && Pow10(8) == 100_000_000;
  }

  function CountDecimalDigit32(n: nat): nat {
    if n < 10 then 1
    else if n < 100 then 2
    else if n < 1000 then 3
    else if n < 10_000 then 4
    else if n < 100_000 then 5
    else if n < 1_000_000 then 6
    else if n < 10_000_000 then 7
    else if n < 100_000_000 then 8
    else 9
  }

  lemma CountsDigits(n: nat)
    requires 1 <= n < 1_000_000_000
    ensures var k := CountDecimalDigit32(n); 1 <= k <= 9 && TENS[k - 1] <= n < TENS[k]
  {
  }

  /** A decimal text without leading zeros of a number other than zero. */
  predicate IsNumeral(s: seq<Byte>) {
    s != [] && AllDigits(s) && s[0] != ZERO
  }

  lemma {:induction false} NumeralPositive(s: seq<Byte>)
    requires IsNumeral(s)
    ensures NatOf(s) >= 1
  {
    if |s| > 1 {
      NumeralPositive(s[..|s| - 1]);
    }
  }

  lemma {:induction false} NatOfMore(s: seq<Byte>, c: Byte)
    requires AllDigits(s) && IsDigit(c)
    ensures AllDigits(s + [c]) && NatOf(s + [c]) == NatOf(s) * 10 + (c - ZERO)
  {
    assert (s + [c])[..|s|] == s;
  }

  /** Lowering the last digit lowers the number. */
  lemma {:induction false} NatOfLowered(s: seq<Byte>, c: Byte)
    requires s != [] && AllDigits(s) && IsDigit(c)
    ensures var t := s[..|s| - 1] + [c]; AllDigits(t) && NatOf(t) == NatOf(s) - (s[|s| - 1] - c)
  {
    var t := s[..|s| - 1] + [c];
    assert AllDigits(t) && t[..|t| - 1] == s[..|s| - 1];
  }

  /** One in the last place of a decimal n * 10^k; integers stand for multiples of 1 / (one * Blow(k)). */
  function Unit(k: int, one: nat): (r: int)
    ensures one >= 1 ==> r >= 1
  {
    if k >= 0 then
      MulMonotone(1, Pow10(k), one);
      Pow10(k) * one
    else one
  }

  function Blow(k: int): (r: nat)
    ensures r >= 1
  {
    if k >= 0 then 1 else Pow10(-k)
  }

  /** The decimal n * 10^k lies in [m - delta, m] / one. */
  predicate Within(n: nat, k: int, m: int, delta: int, one: nat) {
    (m - delta) * Blow(k) <= n * Unit(k, one) <= m * Blow(k)
  }

  /** Of all decimals with exponent k in that interval, n * 10^k is closest to a target. */
  ghost predicate Nearest(n: nat, k: int, m: int, delta: int, one: nat, target: int) {
    forall c: nat | Within(c, k, m, delta, one) ::
      Apart(n * Unit(k, one), target) <= Apart(c * Unit(k, one), target)
  }

  /** What is left after rounding says where the decimal is. */
  lemma RoundedWithin(n: nat, k: int, m: int, delta: int, one: nat, rest: int, j: nat, left: int)
    requires n * Unit(k, one) + rest == m * Blow(k) && 0 <= rest && j <= n
    requires left == Candidate(rest, Unit(k, one), j) <= delta * Blow(k)
    ensures Within(n - j, k, m, delta, one) && left == m * Blow(k) - (n - j) * Unit(k, one)
  {
    hide Unit, Blow;
    assert (n - j) * Unit(k, one) == n * Unit(k, one) - j * Unit(k, one);
    assert (m - delta) * Blow(k) == m * Blow(k) - delta * Blow(k);
    UnitPositive(k, one);
    MulMonotone(0, j, Unit(k, one));
  }

  lemma UnitPositive(k: int, one: nat)
    ensures Unit(k, one) >= 0
  {
    if k >= 0 { MulMonotone(0, Pow10(k), one); }
  }

  lemma RoundedNearest(n: nat, k: int, m: int, delta: int, one: nat, rest: int, j: nat, left: int, gap: int)
    requires n * Unit(k, one) + rest == m * Blow(k) && 0 <= rest < Unit(k, one) && j <= n
    requires left == Candidate(rest, Unit(k, one), j) <= delta * Blow(k)
    requires Closest(rest, Unit(k, one), delta * Blow(k), gap, left)
    ensures Nearest(n - j, k, m, delta, one, m * Blow(k) - gap)
  {
    hide Unit, Blow;
    RoundedWithin(n, k, m, delta, one, rest, j, left);
    var u, v := Unit(k, one), Blow(k);
    forall c: nat | Within(c, k, m, delta, one) ensures Apart((n - j) * u, m * v - gap) <= Apart(c * u, m * v - gap) {
      Lower(n, c, u, rest, m * v);
      assert (m - delta) * v == m * v - delta * v;
      assert Candidate(rest, u, n - c) == m * v - c * u;
    }
  }

  lemma Lower(n: nat, c: nat, u: int, rest: int, top: int)
    requires n * u + rest == top && 0 <= rest < u && c * u <= top
    ensures c <= n && Candidate(rest, u, n - c) == top - c * u
  {
    if c > n { MulMonotone(n + 1, c, u); }
    assert (n - c) * u == n * u - c * u;
  }

  //////////////////////////////////////////////////////////////////////////////
  // The digits before the point
  //////////////////////////////////////////////////////////////////////////////

  /** What is left of Mp. */
  function Remaining(p1: nat, p2: nat, one: int): int {
    p1 * one + p2
  }

  /** `n` are the digits of the integer part so far, `p1` the part of it below 10^k. */
  predicate Whole(n: nat, k: nat, p1: nat, p2: nat, m: int, one: int) {
    p1 < Pow10(k) && p2 < one && n * Pow10(k) * one + Remaining(p1, p2, one) == m
  }

  lemma WholeStep(n: nat, k: nat, p1: nat, p2: nat, m: int, one: int)
    requires k >= 1 && Whole(n, k, p1, p2, m, one)
    ensures var p := Pow10(k - 1); var d := p1 / p;
            && 0 <= d < 10 && (p1 >= p ==> d >= 1) && 0 <= p1 % p
            && Whole(n * 10 + d, k - 1, p1 % p, p2, m, one)
            && Remaining(p1, p2, one) == Candidate(Remaining(p1 % p, p2, one), p * one, d)
  {
    var p := Pow10(k - 1);
    var d, r := p1 / p, p1 % p;
    assert p1 == d * p + r;
    assert 0 <= d by { DivNonnegative(p1, p); }
    if d >= 10 { MulMonotone(10, d, p); }
    if d <= 0 && p1 >= p { MulMonotone(d, 0, p); }
    WholeArithmetic(n, p, d, r, one);
  }

  lemma WholeArithmetic(n: int, p: int, d: int, r: int, one: int)
    ensures n * (10 * p) * one + (d * p + r) * one == (n * 10 + d) * p * one + r * one
    ensures (d * p + r) * one == r * one + d * (p * one)
  {
    assert n * (10 * p) == n * 10 * p;
    assert (n * 10 + d) * p == n * 10 * p + d * p;
    assert (n * 10 * p + d * p) * one == n * 10 * p * one + d * p * one;
    assert (d * p + r) * one == d * p * one + r * one;
    assert d * p * one == d * (p * one);
  }

  /** Nothing overflows: the unit of the last digit and what is left are parts of Mp. */
  lemma WholeBounds(n: nat, k: nat, p1: nat, p2: nat, m: int, one: int)
    requires Whole(n, k, p1, p2, m, one) && n >= 1
    ensures 0 < Pow10(k) * one <= m && 0 <= Remaining(p1, p2, one) <= m
  {
    MulMonotone(0, p1, one);
    MulMonotone(1, n, Pow10(k));
    MulMonotone(Pow10(k), n * Pow10(k), one);
    MulMonotone(1, Pow10(k), one);
  }

  /** What is left of Mp, in the terms of rounding. */
  lemma WholeLeft(n: nat, k: nat, p1: nat, p2: nat, m: int, one: int)
    requires Whole(n, k, p1, p2, m, one)
    ensures n * Unit(k, one) + Remaining(p1, p2, one) == m * Blow(k) && 0 <= Remaining(p1, p2, one) < Unit(k, one)
  {
    MulMonotone(0, p1, one);
    MulMonotone(p1 + 1, Pow10(k), one);
    assert n * Pow10(k) * one == n * (Pow10(k) * one);
    assert (p1 + 1) * one == p1 * one + one;
  }

  //////////////////////////////////////////////////////////////////////////////
  // The digits after the point
  //////////////////////////////////////////////////////////////////////////////

  /** `n` are the digits so far, `i` of them after the point, and `p2` is what is left of Mp. */
  predicate Fraction(n: nat, i: nat, p2: nat, delta: nat, m: int, delta0: int, one: int) {
    n * one + p2 == m * Pow10(i) && delta == delta0 * Pow10(i) && p2 < one
  }

  lemma FractionStep(n: nat, i: nat, p2: nat, delta: nat, m: int, delta0: int, one: int)
    requires Fraction(n, i, p2, delta, m, delta0, one)
    ensures var d := p2 * 10 / one;
            && 0 <= d < 10 && 0 <= p2 * 10 % one
            && Fraction(n * 10 + d, i + 1, p2 * 10 % one, delta * 10, m, delta0, one)
            && p2 * 10 == Candidate(p2 * 10 % one, one, d)
  {
    var d, r := p2 * 10 / one, p2 * 10 % one;
    assert p2 * 10 == d * one + r;
    DivNonnegative(p2 * 10, one);
    if d >= 10 { MulMonotone(10, d, one); }
    assert (n * 10 + d) * one == n * one * 10 + d * one;
    assert m * (10 * Pow10(i)) == m * Pow10(i) * 10;
    assert delta0 * (10 * Pow10(i)) == delta0 * Pow10(i) * 10;
  }

  /** A digit is only added after the point while that many places are worth less than one unit. */
  lemma PlacesBounded(i: nat, delta: nat, p2: nat, delta0: int, one: int)
    requires delta0 >= 1 && delta == delta0 * Pow10(i) && delta <= p2 < one <= 0x1000_0000_0000_0000
    ensures i <= 18
  {
    MulMonotone(1, delta0, Pow10(i));
    if i >= 19 {
      Pow10Monotone(19, i);
      Pow10Nineteen();
    }
  }

  //////////////////////////////////////////////////////////////////////////////
  // DigitGen
  //////////////////////////////////////////////////////////////////////////////

  /** The digits in a buffer. */
  ghost predicate Holds(buffer: array<Byte>, len: nat, n: nat)
    reads buffer
  {
    len <= buffer.Length && IsNumeral(buffer[..len]) && NatOf(buffer[..len]) == n
  }

  /** One more digit. */
  method Append(buffer: array<Byte>, len: nat, d: int, ghost n: nat)
    requires len < buffer.Length && 0 <= d < 10
    requires if len == 0 then d >= 1 && n == 0 else Holds(buffer, len, n)
    modifies buffer
    ensures Holds(buffer, len + 1, n * 10 + d) && buffer[len] == ZERO + d
  {
    ghost var s := buffer[..len];
    NatOfMore(s, ZERO + d);
    buffer[len] := ZERO + d;
    assert buffer[..len + 1] == s + [ZERO + d];
  }

  /** GrisuRound on digits: the number is lowered, all digits stay digits. */
  method Round(buffer: array<Byte>, len: nat, delta: Limb, rest: Limb, ten: Limb, gap: Limb, ghost n: nat)
      returns (ghost j: nat, ghost left: int)
    requires Holds(buffer, len, n) && ten >= 1 && rest <= delta
    requires delta <= Candidate(rest, ten, buffer[len - 1] - ZERO)
    requires len == 1 ==> delta < Candidate(rest, ten, buffer[len - 1] - ZERO)
    modifies buffer
    ensures j <= n && Holds(buffer, len, n - j) && left == Candidate(rest, ten, j) <= delta
    ensures Closest(rest, ten, delta, gap, left)
  {
    hide Candidate;
    ghost var s := buffer[..len];
    left := GrisuRound(buffer, len, delta, rest, ten, gap);
    j := s[len - 1] - buffer[len - 1];
    assert buffer[..len] == s[..len - 1] + [buffer[len - 1]];
    NatOfLowered(s, buffer[len - 1]);
  }

  /** The gap between Mp and W that GrisuRound is given: behind the point it is scaled with a table of
      nine powers, in 64 bits. */
  function GapAt(k: int, m: Limb, w: Limb): Limb {
    var gap := BigIntegers.Wrap(m - w);
    if k >= 0 then gap else BigIntegers.Wrap(gap * if -k < 9 then TENS[-k] else 0)
  }

  /** What the digits are rounded towards. */
  function Target(k: int, m: Limb, w: Limb): int {
    m * Blow(k) - GapAt(k, m, w)
  }

  /** What is promised of the digits and the exponent. */
  ghost predicate Good(n: nat, k: int, m: Limb, delta: int, one: nat, w: Limb) {
    Within(n, k, m, delta, one) && Nearest(n, k, m, delta, one, Target(k, m, w))
  }

  /** The target is W as long as the table reaches so far and 64 bits hold the scaled gap. */
  predicate Measured(k: int, gap: int) {
    -k < 9 && 0 <= gap && gap * Blow(k) < BASE
  }

  lemma TargetIsW(k: int, m: Limb, w: Limb)
    requires Measured(k, m - w)
    ensures Target(k, m, w) == w * Blow(k)
  {
    BigIntegers.Wraps(m - w, 0);
    if k < 0 {
      TensArePowers(-k);
      MulMonotone(0, m - w, Pow10(-k));
      BigIntegers.Wraps((m - w) * Pow10(-k), 0);
    }
    assert (m - w) * Blow(k) == m * Blow(k) - w * Blow(k);
  }

  /** From nine places behind the point on the target is Mp itself: the digits are Mp, truncated. */
  lemma FarPlacesTruncate(n: nat, k: int, m: Limb, delta: int, one: nat, w: Limb)
    requires k <= -9 && one >= 1 && Good(n, k, m, delta, one, w)
    ensures Target(k, m, w) == m * Blow(k)
    ensures n * Unit(k, one) <= m * Blow(k) < (n + 1) * Unit(k, one)
  {
    BigIntegers.Wraps(0, 0);
    assert BigIntegers.Wrap(m - w) * 0 == 0;
    var u, top := Unit(k, one), m * Blow(k);
    var f := top / u;
    assert top == f * u + top % u;
    assert (f + 1) * u == f * u + u;
    MulMonotone(0, m, Blow(k));
    DivNonnegative(top, u);
    if n < f {
      MulMonotone(n + 1, f, u);
      assert (n + 1) * u == n * u + u;
      assert Within(f, k, m, delta, one);
    } else if n > f {
      MulMonotone(f + 1, n, u);
    }
  }

  /** The digits before the point: done, or all of them are there and more is left than delta. */
  method WholeDigits(w: Limb, m: Limb, one: Limb, delta: Limb, buffer: array<Byte>) returns (len: nat, kappa: int, done: bool, ghost n: nat)
    requires 1 <= one && 1 <= m / one < 1_000_000_000 && delta < m && buffer.Length >= 9
    modifies buffer
    ensures 0 <= kappa && 1 <= len <= 9 && Holds(buffer, len, n)
    ensures done ==> Good(n, kappa, m, delta, one, w)
    ensures !done ==> kappa == 0 && Whole(n, 0, 0, m % one, m, one) && delta < m % one
  {
    hide Candidate, Pow10, Whole, Good, Holds, Remaining;
    var gap := BigIntegers.Wrap(m - w);
    var p1: nat, p2: nat := m / one, m % one;
    kappa := CountDecimalDigit32(p1);
    CountsDigits(p1);
    WholeBegins(kappa, p1, p2, m, one);
    len, n := 0, 0;
    ghost var digits := kappa;
    while kappa > 0
      invariant 0 <= kappa <= digits <= 9 && len + kappa == digits
      invariant Whole(n, kappa, p1, p2, m, one) && delta < Remaining(p1, p2, one)
      invariant if len == 0 then n == 0 && kappa >= 1 && p1 >= TENS[kappa - 1] else Holds(buffer, len, n)
    {
      TensArePowers(kappa - 1);
      WholeStep(n, kappa, p1, p2, m, one);
      var d := p1 / TENS[kappa - 1];
      p1 := p1 % TENS[kappa - 1];
      Append(buffer, len, d, n);
      len, n, kappa := len + 1, n * 10 + d, kappa - 1;
      HoldsPositive(buffer, len, n);
      WholeBounds(n, kappa, p1, p2, m, one);
      WholeLeft(n, kappa, p1, p2, m, one);
      var rest := Remaining(p1, p2, one);
      if rest <= delta {
        var ten := TENS[kappa] * one;
        assert ten == Unit(kappa, one);
        ghost var j, left;
        j, left := Round(buffer, len, delta, rest, ten, gap, n);
        WholeGood(n, kappa, m, delta, one, w, rest, j, left, gap);
        n := n - j;
        done := true;
        return;
      }
    }
    WholeEnds(n, p1, p2, m, one);
    done := false;
  }

  lemma WholeBegins(k: nat, p1: nat, p2: nat, m: nat, one: nat)
    requires one >= 1 && p1 == m / one && p2 == m % one && k < |TENS| && p1 < TENS[k]
    ensures Whole(0, k, p1, p2, m, one) && Remaining(p1, p2, one) == m
  {
    TensArePowers(k);
  }

  lemma WholeEnds(n: nat, p1: nat, p2: nat, m: int, one: int)
    requires Whole(n, 0, p1, p2, m, one)
    ensures p1 == 0 && Remaining(p1, p2, one) == p2
  {
  }

  lemma HoldsPositive(buffer: array<Byte>, len: nat, n: nat)
    requires Holds(buffer, len, n)
    ensures n >= 1
  {
    NumeralPositive(buffer[..len]);
  }

  lemma WholeGood(n: nat, k: int, m: Limb, delta: int, one: nat, w: Limb, rest: int, j: nat, left: int, gap: int)
    requires k >= 0 && gap == BigIntegers.Wrap(m - w)
    requires n * Unit(k, one) + rest == m * Blow(k) && 0 <= rest < Unit(k, one) && j <= n
    requires left == Candidate(rest, Unit(k, one), j) <= delta
    requires Closest(rest, Unit(k, one), delta, gap, left)
    ensures Good(n - j, k, m, delta, one, w)
  {
    hide Candidate, Within, Nearest, Unit, Closest;
    assert delta * Blow(k) == delta;
    RoundedWithin(n, k, m, delta, one, rest, j, left);
    RoundedNearest(n, k, m, delta, one, rest, j, left, gap);
  }

  lemma FractionGood(n: nat, i: nat, p2: nat, delta: nat, m: Limb, delta0: int, one: nat, w: Limb, j: nat, left: int, gap: int)
    requires i >= 1 && Fraction(n, i, p2, delta, m, delta0, one) && j <= n
    requires left == Candidate(p2, one, j) <= delta && Closest(p2, one, delta, gap, left)
    requires gap == GapAt(-(i as int), m, w)
    ensures Good(n - j, -(i as int), m, delta0, one, w)
  {
    hide Candidate, Within, Nearest, Closest, GapAt, Pow10;
    var k := -(i as int);
    RoundedWithin(n, k, m, delta0, one, p2, j, left);
    RoundedNearest(n, k, m, delta0, one, p2, j, left, gap);
  }

  lemma FractionBegins(n: nat, p2: nat, m: int, delta: nat, one: int)
    requires Whole(n, 0, 0, p2, m, one)
    ensures Fraction(n, 0, p2, delta, m, delta, one)
  {
  }

  /** The digits after the point, until what is left is less than delta at their scale. */
  method FractionDigits(w: Limb, m: Limb, one: Limb, delta: Limb, buffer: array<Byte>, len: nat, ghost n: nat)
      returns (newLen: nat, kappa: int, ghost newN: nat)
    requires 1 <= one <= 0x1000_0000_0000_0000 && 1 <= delta < m % one
    requires Whole(n, 0, 0, m % one, m, one) && 1 <= len && len + 19 <= buffer.Length && Holds(buffer, len, n)
    modifies buffer
    ensures len < newLen <= len + 19 && Holds(buffer, newLen, newN) && Good(newN, kappa, m, delta, one, w)
  {
    hide Candidate, Pow10, Good, Holds, Fraction, Closest, GapAt;
    var p2: nat, delta: Limb := m % one, delta;
    ghost var delta0 := delta;
    FractionBegins(n, p2, m, delta, one);
    kappa, newLen, newN := 0, len, n;
    while true
      invariant kappa <= 0 && newLen == len - kappa && Holds(buffer, newLen, newN)
      invariant Fraction(newN, -kappa, p2, delta, m, delta0, one) && 1 <= delta <= p2 < one
      decreases one - delta
    {
      FractionPlaces(newN, -kappa, p2, delta, m, delta0, one);
      FractionStep(newN, -kappa, p2, delta, m, delta0, one);
      p2, delta := p2 * 10, delta * 10;
      var d := p2 / one;
      Append(buffer, newLen, d, newN);
      newLen, newN := newLen + 1, newN * 10 + d;
      p2 := p2 % one;
      kappa := kappa - 1;
      if p2 < delta {
        var index := -kappa;
        ghost var j, left;
        var gap := GapAt(kappa, m, w);
        j, left := Round(buffer, newLen, delta, p2, one, gap, newN);
        FractionGood(newN, index, p2, delta, m, delta0, one, w, j, left, gap);
        newN := newN - j;
        return;
      }
    }
  }

  lemma FractionPlaces(n: nat, i: nat, p2: nat, delta: nat, m: int, delta0: int, one: int)
    requires Fraction(n, i, p2, delta, m, delta0, one) && delta0 >= 1 && delta <= p2 && one <= 0x1000_0000_0000_0000
    ensures i <= 18
  {
    PlacesBounded(i, delta, p2, delta0, one);
  }

  /** DigitGen: a numeral of at most 28 digits whose decimal lies in [Mp.f - delta, Mp.f], and which is
      the closest to the target of all decimals of that exponent there. */
  method DigitGen(w: Limb, m: Limb, e: int, delta: Limb, buffer: array<Byte>, k: int) returns (len: nat, newK: int)
    requires -60 <= e <= -32 && 1 <= m / Pow2(-e) < 1_000_000_000 && 1 <= delta < m && buffer.Length >= 28
    modifies buffer
    ensures 1 <= len <= 28 && IsNumeral(buffer[..len])
    ensures Good(NatOf(buffer[..len]), newK - k, m, delta, Pow2(-e), w)
  {
    hide Pow2, Good, IsNumeral, NatOf;
    OneBound(-e);
    var one := Pow2(-e);
    var kappa, done;
    ghost var n;
    len, kappa, done, n := WholeDigits(w, m, one, delta, buffer);
    if !done {
      len, kappa, n := FractionDigits(w, m, one, delta, buffer, len, n);
    }
    newK := k + kappa;
  }

  lemma OneBound(n: nat)
    requires n <= 60
    ensures Pow2(n) <= 0x1000_0000_0000_0000
  {
    assert Pow2(4) == 16;
    hide Pow2;
    Pow2Limb();
    Pow2Add(n, 60 - n);
    Pow2Add(4, 60);
    MulMonotone(1, Pow2(60 - n), Pow2(n));
  }
}
