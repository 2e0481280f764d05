/**
 The integer printers of src/itoa_jeaiii.cpp: one multiplication by a rounded reciprocal of a power of
 ten puts the leading digits above bit 32, and the digits after them come out by multiplying what is
 below bit 32 by ten or a hundred.
 */
module Jeaiii {
  import opened Ascii
  import opened Decimal
  import opened Limbs
  import Itoa

  const HALF: int := 0x1_0000_0000

  //////////////////////////////////////////////////////////////////////////////
  // Fixed-point approximation
  //////////////////////////////////////////////////////////////////////////////

  /** t / 2^32 is v / p, less than one unit of v too large. */
  predicate Approximates(t: nat, v: nat, p: nat) {
    v * HALF <= t * p < (v + 1) * HALF
  }

  /** The bits above 32 are the leading digits, the bits below approximate the rest. */
  lemma Extract(t: nat, v: nat, p: nat)
    requires p >= 1 && Approximates(t, v, p)
    ensures t / HALF == v / p && v / p >= 0 && v % p >= 0 && Approximates(t % HALF, v % p, p)
  {
    var q, w := v / p, v % p;
    assert v == q * p + w;
    DivNonnegative(v, p);
    Between(t, q, w, p);
    DivUnique(t, HALF, q, t - q * HALF);
    assert (t - q * HALF) * p == t * p - q * p * HALF;
  }

  lemma Between(t: int, q: int, w: int, p: int)
    requires p >= 1 && 0 <= w < p && (q * p + w) * HALF <= t * p < (q * p + w + 1) * HALF
    ensures q * HALF <= t < (q + 1) * HALF
  {
    assert (q * HALF - 1) * p == q * p * HALF - p;
    assert (q + 1) * HALF * p == q * p * HALF + p * HALF;
    if t < q * HALF {
      MulMonotone(t, q * HALF - 1, p);
    } else if t >= (q + 1) * HALF {
      MulMonotone((q + 1) * HALF, t, p);
    }
  }

  /** Multiplying what is below bit 32 by `d` moves the point by `d`. */
  lemma MovePoint(f: nat, v: nat, p: nat, d: nat)
    requires Approximates(f, v, d * p)
    ensures Approximates(d * f, v, p)
  {
    assert f * (d * p) == d * f * p;
  }

  lemma CancelLess(x: int, y: int, s: int)
    requires s >= 1 && x * s < y * s
    ensures x < y
  {
    if x >= y { MulMonotone(y, x, s); }
  }

  /** A rounded-up reciprocal c of ten / (2^32 s), with an error e small enough for every u up to a bound. */
  lemma Reciprocal(u: nat, c: nat, ten: nat, s: nat, add: nat, e: nat)
    requires ten >= 1 && s >= 1 && c * ten == HALF * s + e && (s == 1 || add >= 1)
    requires u * e + add * (ten * s) < HALF * s
    ensures c * u / s >= 0 && Approximates(c * u / s + add, u, ten)
  {
    var q, r := c * u / s, c * u % s;
    Products(u, c, ten, s, e, q, r);
    Small(r, ten, s, add);
    Scaled((q + add) * ten, q, r, ten, s, add);
    DivNonnegative(Nonnegative(c, u), s);
    Conclude((q + add) * ten, s, u * HALF, Nonnegative(u, e), r * ten, add * (ten * s));
  }

  lemma Conclude(t: int, s: int, uh: int, ue: int, low: int, more: int)
    requires s >= 1 && t * s == uh * s + ue - low + more
    requires 0 <= low < s + more && 0 <= ue && ue + more < HALF * s
    ensures uh <= t < uh + HALF
  {
    assert (uh - 1) * s == uh * s - s && (uh + HALF) * s == uh * s + HALF * s;
    CancelLess(uh - 1, t, s);
    CancelLess(t, uh + HALF, s);
  }

  function Nonnegative(a: nat, b: nat): (r: nat)
    ensures r == a * b
  {
    MulMonotone(0, a, b);
    a * b
  }

  lemma Products(u: int, c: int, ten: int, s: int, e: int, q: int, r: int)
    requires s >= 1 && c * ten == HALF * s + e && q == c * u / s && r == c * u % s
    ensures (q * s + r) * ten == u * HALF * s + u * e
  {
    assert q * s + r == c * u;
    assert c * u * ten == u * (c * ten);
    assert u * (HALF * s + e) == u * HALF * s + u * e;
  }

  lemma Small(r: int, ten: int, s: int, add: int)
    requires 0 <= r < s && ten >= 1 && (s == 1 || add >= 1) && add >= 0
    ensures 0 <= r * ten < s + add * (ten * s)
  {
    MulMonotone(0, r, ten);
    MulMonotone(r, s, ten);
    MulMonotone(0, ten, s);
    if s == 1 {
      MulMonotone(0, add, ten * s);
    } else {
      MulMonotone(1, add, ten * s);
    }
  }

  lemma Scaled(t: int, q: int, r: int, ten: int, s: int, add: int)
    requires t == (q + add) * ten
    ensures t * s == (q * s + r) * ten - r * ten + add * (ten * s)
  {
    assert (q + add) * ten * s == q * ten * s + add * ten * s;
    assert (q * s + r) * ten == q * s * ten + r * ten;
    assert q * ten * s == q * s * ten && add * ten * s == add * (ten * s);
  }

  //////////////////////////////////////////////////////////////////////////////
  // The constants
  //////////////////////////////////////////////////////////////////////////////

  function ShiftOf(n: nat): nat {
    n / 5 * n * 53 / 16
  }

  /** The factor of A(n). */
  function Magic(n: nat): (r: nat) {
    DivNonnegative(Pow2(32 + ShiftOf(n)), Pow10(n));
    Pow2(32 + ShiftOf(n)) / Pow10(n) + 1
  }

  /** What A(n) makes of u. */
  function Start(n: nat, u: nat): (t: nat) {
    DivNonnegative(Nonnegative(Magic(n), u), Pow2(ShiftOf(n)));
    Magic(n) * u / Pow2(ShiftOf(n)) + n / 5 * 4
  }

  /** The powers of two that occur. */
  lemma Pow2Values()
    ensures Pow2(0) == 1 && Pow2(16) == 0x1_0000 && Pow2(19) == 0x8_0000 && Pow2(23) == 0x80_0000 && Pow2(26) == 0x400_0000
    ensures Pow2(32) == HALF && Pow2(48) == 0x1_0000_0000_0000 && Pow2(51) == 0x8_0000_0000_0000
    ensures Pow2(55) == 0x80_0000_0000_0000 && Pow2(58) == 0x400_0000_0000_0000
  {
    assert Pow2(0) == 1 && Pow2(3) == 8 && Pow2(4) == 16;
    hide Pow2;
    Pow2Is(4, 16, 4, 16);
    Pow2Is(8, 0x100, 8, 0x100);
    Pow2Is(16, 0x1_0000, 3, 8);
    Pow2Is(19, 0x8_0000, 4, 16);
    Pow2Is(23, 0x80_0000, 3, 8);
    Pow2Is(16, 0x1_0000, 16, 0x1_0000);
    Pow2Is(32, HALF, 16, 0x1_0000);
    Pow2Is(32, HALF, 19, 0x8_0000);
    Pow2Is(32, HALF, 23, 0x80_0000);
    Pow2Is(32, HALF, 26, 0x400_0000);
  }

  /** One case of A(n): the factor c has an error e, and stays small enough for 64 bits. */
  lemma StartCase(n: nat, u: nat, c: nat, e: nat, s: nat, bound: nat)
    requires Pow2(ShiftOf(n)) == s && Pow2(32 + ShiftOf(n)) == HALF * s
    requires 1 <= e <= Pow10(n) && c * Pow10(n) == HALF * s + e && u < bound <= HALF && c < HALF
    requires n / 5 * 4 >= 0 && (s == 1 || n / 5 * 4 >= 1) && bound * e + n / 5 * 4 * (Pow10(n) * s) <= HALF * s
    ensures Magic(n) * u < BASE && Approximates(Start(n, u), u, Pow10(n))
  {
    hide Pow2, Pow10, ShiftOf;
    assert (c - 1) * Pow10(n) == c * Pow10(n) - Pow10(n);
    DivUnique(HALF * s, Pow10(n), c - 1, Pow10(n) - e);
    MulMonotone(u + 1, bound, e);
    assert (u + 1) * e == u * e + e;
    Reciprocal(u, c, Pow10(n), s, n / 5 * 4, e);
    MulMonotone(u, HALF, c);
    assert u * c == c * u;
  }

  /** Every case of A(n): exact leading digits, no overflow. */
  lemma StartApproximates(n: nat, u: nat)
    requires 1 <= n <= 8 && u < HALF && u < Pow10(n + 2)
    ensures Magic(n) * u < BASE && Approximates(Start(n, u), u, Pow10(n))
  {
    hide Pow2, Pow10, Magic, Start, Approximates;
    Pow2Values();
    Itoa.Powers();
    Itoa.BigPowers();
    if n == 1 { StartCase(1, u, 429496730, 4, 1, 1000); }
    else if n == 2 { StartCase(2, u, 42949673, 4, 1, 10_000); }
    else if n == 3 { StartCase(3, u, 4294968, 704, 1, 100_000); }
    else if n == 4 { StartCase(4, u, 429497, 2704, 1, 1_000_000); }
    else if n == 5 { StartCase(5, u, 2814749768, 89344, 0x1_0000, 10_000_000); }
    else if n == 6 { StartCase(6, u, 2251799814, 314752, 0x8_0000, 100_000_000); }
    else if n == 7 { StartCase(7, u, 3602879702, 1036032, 0x80_0000, 1_000_000_000); }
    else { StartCase(8, u, 2882303762, 48288256, 0x400_0000, HALF); }
  }

  //////////////////////////////////////////////////////////////////////////////
  // The digits
  //////////////////////////////////////////////////////////////////////////////

  lemma Pow10Two(k: nat)
    ensures Pow10(k + 2) == 100 * Pow10(k)
  {
    assert Pow10(k + 1) == 10 * Pow10(k);
  }

  /** E and D: two more digits of v, with `k` to come after them. */
  lemma TwoMore(f: nat, v: nat, k: nat)
    requires v < 100 * Pow10(k) && Approximates(f, v, Pow10(k + 2))
    ensures Fixed(v, k + 2) == Itoa.Pair(Leading(v, k)) + Fixed(Decimal.Low(v, k), k)
    ensures 100 * f / HALF == Leading(v, k) && Approximates(100 * f % HALF, Decimal.Low(v, k), Pow10(k))
  {
    hide Pow10, Fixed, Approximates, Itoa.Pair;
    Pow10Two(k);
    MovePoint(f, v, Pow10(k), 100);
    TwoDigits(100 * f, v, k);
  }

  /** The digits of a number in front of the last `k`, if these are two. */
  function Leading(v: nat, k: nat): (h: int)
    requires v < 100 * Pow10(k)
    ensures 0 <= h < 100
  {
    LeadingBound(v, k);
    v / Pow10(k)
  }

  lemma LeadingBound(v: nat, k: nat)
    requires v < 100 * Pow10(k)
    ensures 0 <= v / Pow10(k) < 100
  {
    var p := Pow10(k);
    DivNonnegative(v, p);
    assert v == v / p * p + v % p;
    if v / p >= 100 {
      MulMonotone(100, v / p, p);
    }
  }

  lemma TwoDigits(t: nat, v: nat, k: nat)
    requires v < 100 * Pow10(k) && Approximates(t, v, Pow10(k))
    ensures Fixed(v, k + 2) == Itoa.Pair(Leading(v, k)) + Fixed(Decimal.Low(v, k), k)
    ensures t / HALF == Leading(v, k) && Approximates(t % HALF, Decimal.Low(v, k), Pow10(k))
  {
    hide Pow10, Fixed, Approximates, Itoa.Pair;
    Extract(t, v, Pow10(k));
    FixedSplits(v, 2, k);
    Itoa.PairIsFixed(Leading(v, k));
  }

  /** Q: the one digit left. */
  lemma OneMore(f: nat, v: nat)
    requires v < 10 && Approximates(f, v, Pow10(1))
    ensures Fixed(v, 1) == [ZERO + v] && 10 * f / HALF == v
  {
    MovePoint(f, v, 1, 10);
    hide Approximates;
    Extract(10 * f, v, 1);
    DivUnique(v, 1, v, 0);
    DivUnique(v, 10, 0, v);
  }

  //////////////////////////////////////////////////////////////////////////////
  // The code
  //////////////////////////////////////////////////////////////////////////////

  /** W: the two digits of `i` at `p`. */
  method WritePair(b: array<Byte>, p: nat, i: int)
    requires p + 2 <= b.Length && 0 <= i < 100
    modifies b
    ensures b[..p + 2] == old(b[..p]) + Itoa.Pair(i)
  {
    hide Itoa.Lut;
    b[p], b[p + 1] := Itoa.Pair(i)[0], Itoa.Pair(i)[1];
  }

  /** E and D at `p`: `v` is the number still to be written, in k + 2 digits. */
  method PutTwo(f: nat, b: array<Byte>, p: nat, ghost v: nat, ghost k: nat) returns (t: nat, ghost low: nat)
    requires p + 2 <= b.Length && v < Pow10(k + 2) && Approximates(f, v, Pow10(k + 2))
    modifies b
    ensures b[..p + 2] + Fixed(low, k) == old(b[..p]) + Fixed(v, k + 2)
    ensures low < Pow10(k) && Approximates(t % HALF, low, Pow10(k))
  {
    hide Fixed, Itoa.Pair, Pow10, Approximates, Leading;
    Pow10Two(k);
    TwoMore(f, v, k);
    low := Decimal.Low(v, k);
    Join(b[..p], Itoa.Pair(Leading(v, k)), Fixed(low, k));
    t := 100 * f;
    WritePair(b, p, t / HALF);
  }

  /** A and D at `p`. */
  method PutFirstTwo(n: nat, u: nat, b: array<Byte>, p: nat) returns (t: nat, ghost low: nat)
    requires 1 <= n <= 8 && p + 2 <= b.Length && u < HALF && u < Pow10(n + 2)
    modifies b
    ensures b[..p + 2] + Fixed(low, n) == old(b[..p]) + Fixed(u, n + 2)
    ensures low < Pow10(n) && Approximates(t % HALF, low, Pow10(n))
  {
    hide Fixed, Itoa.Pair, Pow10, Approximates, Leading, Start, Magic;
    StartApproximates(n, u);
    Pow10Two(n);
    TwoDigits(Start(n, u), u, n);
    low := Decimal.Low(u, n);
    Join(b[..p], Itoa.Pair(Leading(u, n)), Fixed(low, n));
    t := Start(n, u);
    WritePair(b, p, t / HALF);
  }

  /** L2 to L9: the n + 1 digits of u at `p`. */
  method WriteDigits(n: nat, u: nat, b: array<Byte>, p: nat)
    requires 2 <= n <= 9 && u < HALF && u < Pow10(n + 1) && p + n + 1 <= b.Length
    modifies b
    ensures b[..p + n + 1] == old(b[..p]) + Fixed(u, n + 1)
  {
    hide Fixed, Pow10, Approximates;
    ghost var goal := b[..p] + Fixed(u, n + 1);
    var t;
    ghost var v: nat;
    t, v := PutFirstTwo(n - 1, u, b, p);
    var i := 2;
    while i < n
      invariant 2 <= i <= n + 1 && v < Pow10(n + 1 - i)
      invariant b[..p + i] + Fixed(v, n + 1 - i) == goal && Approximates(t % HALF, v, Pow10(n + 1 - i))
    {
      t, v := PutTwo(t % HALF, b, p + i, v, n - 1 - i);
      i := i + 2;
    }
    if i == n {
      Itoa.Powers();
      OneMore(t % HALF, v);
      b[p + n] := ZERO + 10 * (t % HALF) / HALF;
      assert b[..p + n + 1] == b[..p + n] + [ZERO + v];
    } else {
      NoneLeft(v);
    }
  }

  lemma Join(a: seq<Byte>, b: seq<Byte>, c: seq<Byte>)
    ensures a + (b + c) == a + b + c
  {
  }

  lemma NoneLeft(v: nat)
    ensures Fixed(v, 0) == []
  {
  }

  /** LG: the case for the number of digits of u. */
  method WriteText(u: nat, b: array<Byte>, p: nat) returns (end: nat)
    requires u < HALF && p + 10 <= b.Length
    modifies b
    ensures p <= end <= (if u < 10_000 then p + 4 else p + 10) && b[..end] == old(b[..p]) + Text(u)
  {
    hide Text, Pow10, Fixed, Itoa.Pair;
    Itoa.Powers();
    Itoa.BigPowers();
    if u < 10 {
      OneDigit(u);
      b[p] := ZERO + u;
      return p + 1;
    }
    if u < 100 {
      FixedIsText(u, 2);
      Itoa.PairIsFixed(u);
      WritePair(b, p, u);
      return p + 2;
    }
    var n := if u < 1_000_000 then if u < 10_000 then if u < 1000 then 2 else 3 else if u < 100_000 then 4 else 5
             else if u < 100_000_000 then if u < 10_000_000 then 6 else 7 else if u < 1_000_000_000 then 8 else 9;
    FixedIsText(u, n + 1);
    WriteDigits(n, u, b, p);
    return p + n + 1;
  }

  lemma OneDigit(u: nat)
    requires u < 10
    ensures Text(u) == [ZERO + u]
  {
  }

  /** The text followed by the terminating NUL. */
  method U32toa(u: nat, b: array<Byte>, p: nat) returns (end: nat)
    requires u < HALF && p + 11 <= b.Length
    modifies b
    ensures p <= end <= p + 10 && b[..end + 1] == old(b[..p]) + Text(u) + [0]
  {
    end := WriteText(u, b, p);
    b[end] := 0;
    assert b[..end + 1] == b[..end] + [0];
  }

  method I32toa(i: int, b: array<Byte>) returns (end: nat)
    requires -0x8000_0000 <= i < 0x8000_0000 && b.Length >= 12
    modifies b
    ensures end <= 11 && b[..end + 1] == SignedText(i) + [0]
  {
    hide Text;
    if i < 0 {
      b[0] := MINUS;
      DivUnique(i, HALF, -1, i + HALF);
      DivUnique(0 - (i + HALF), HALF, -1, -i);
      end := U32toa((0 - i % HALF) % HALF, b, 1);
      assert b[..end + 1] == [MINUS] + Text(-i) + [0];
    } else {
      end := U32toa(i, b, 0);
      assert b[..end + 1] == [] + Text(i) + [0];
    }
  }

  /** Eight digits behind those already written. */
  method WriteEight(u: nat, b: array<Byte>, p: nat) returns (end: nat)
    requires u < 100_000_000 && p + 8 <= b.Length
    modifies b
    ensures end == p + 8 && b[..end] == old(b[..p]) + Fixed(u, 8)
  {
    Itoa.Powers();
    WriteDigits(7, u, b, p);
    end := p + 8;
  }

  method U64toa(n: nat, b: array<Byte>, p: nat) returns (end: nat)
    requires n < BASE && p + 21 <= b.Length
    modifies b
    ensures p <= end <= p + 20 && b[..end + 1] == old(b[..p]) + Text(n) + [0]
  {
    hide Text, Fixed;
    if n / HALF == 0 {
      end := U32toa(n, b, p);
      return;
    }
    Itoa.Powers();
    ghost var head := b[..p];
    var a := n / 100_000_000;
    TextSplits(n, 8);
    end := p;
    if a / HALF == 0 {
      end := WriteText(a, b, end);
    } else {
      TextSplits(a, 8);
      end := WriteText(a / 100_000_000, b, end);
      end := WriteEight(a % 100_000_000, b, end);
    }
    end := WriteEight(n % 100_000_000, b, end);
    b[end] := 0;
    assert b[..end + 1] == b[..end] + [0];
  }

  method I64toa(i: int, b: array<Byte>) returns (end: nat)
    requires -0x8000_0000_0000_0000 <= i < 0x8000_0000_0000_0000 && b.Length >= 22
    modifies b
    ensures end <= 21 && b[..end + 1] == SignedText(i) + [0]
  {
    hide Text;
    if i < 0 {
      b[0] := MINUS;
      DivUnique(i, BASE, -1, i + BASE);
      DivUnique(0 - (i + BASE), BASE, -1, -i);
      end := U64toa((0 - i % BASE) % BASE, b, 1);
      assert b[..end + 1] == [MINUS] + Text(-i) + [0];
    } else {
      end := U64toa(i, b, 0);
      assert b[..end + 1] == [] + Text(i) + [0];
    }
  }
}
