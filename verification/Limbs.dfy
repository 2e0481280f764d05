/**
 Natural numbers as sequences of 64-bit limbs, the low limb first, and what the limb-by-limb
 algorithms of biginteger.h make of them.
 */
module Limbs {
  import Decimal

  const BASE: int := 0x1_0000_0000_0000_0000

  type Limb = x: int | 0 <= x < 0x1_0000_0000_0000_0000

  /** The number a sequence of limbs denotes. */
  function Num(s: seq<Limb>): nat {
    if s == [] then 0 else s[0] + BASE * Num(s[1..])
  }

  function Pow(n: nat): (r: nat)
    ensures r >= 1
  {
    if n == 0 then 1 else BASE * Pow(n - 1)
  }

  /** At least one limb, and no zero limb on top of others. */
  predicate Normal(s: seq<Limb>) {
    |s| >= 1 && (|s| > 1 ==> s[|s| - 1] != 0)
  }

  /** The limbs of a number. */
  function LimbsOf(n: nat): (s: seq<Limb>)
    ensures |s| >= 1
  {
    if n < BASE then [n] else [n % BASE] + LimbsOf(n / BASE)
  }

  lemma {:induction false} Low(x: Limb, s: seq<Limb>)
    ensures Num([x] + s) == x + BASE * Num(s)
  {
    assert ([x] + s)[1..] == s;
  }

  lemma {:induction false} LimbsOfDenotes(n: nat)
    ensures Num(LimbsOf(n)) == n && Normal(LimbsOf(n))
    ensures n > 0 ==> LimbsOf(n)[|LimbsOf(n)| - 1] != 0
  {
    if n >= BASE {
      LimbsOfDenotes(n / BASE);
      Low(n % BASE, LimbsOf(n / BASE));
      assert n == n % BASE + BASE * (n / BASE);
    } else {
      Low(n, []);
    }
  }

  lemma {:induction false} NormalIsLimbsOf(s: seq<Limb>)
    requires Normal(s)
    ensures s == LimbsOf(Num(s))
  {
    assert s == [s[0]] + s[1..];
    if |s| > 1 {
      NormalIsLimbsOf(s[1..]);
      Positive(s[1..]);
      Decimal.DivUnique(Num(s), BASE, Num(s[1..]), s[0]);
    }
  }

  lemma {:induction false} Positive(s: seq<Limb>)
    requires |s| >= 1 && s[|s| - 1] != 0
    ensures Num(s) >= Pow(|s| - 1) && Num(s) > 0
  {
    if |s| > 1 {
      Positive(s[1..]);
    }
  }

  lemma {:induction false} NumBound(s: seq<Limb>)
    ensures Num(s) < Pow(|s|)
  {
    if s != [] {
      NumBound(s[1..]);
    }
  }

  lemma {:induction false} NumAppend(a: seq<Limb>, b: seq<Limb>)
    ensures Num(a + b) == Num(a) + Pow(|a|) * Num(b)
  {
    if a == [] {
      assert a + b == b;
    } else {
      NumAppend(a[1..], b);
      assert (a + b)[1..] == a[1..] + b;
      assert BASE * (Pow(|a[1..]|) * Num(b)) == BASE * Pow(|a[1..]|) * Num(b);
    }
  }

  /** Limbs that denote no more than the largest number of `n` limbs are at most `n`. */
  lemma {:induction false} FitsIn(s: seq<Limb>, n: nat)
    requires |s| >= 1 && (s[|s| - 1] != 0) && Num(s) < Pow(n)
    ensures |s| <= n
  {
    Positive(s);
    if |s| > n {
      PowMonotone(n, |s| - 1);
    }
  }

  lemma {:induction false} PowMonotone(m: nat, n: nat)
    requires m <= n
    ensures Pow(m) <= Pow(n)
  {
    if m < n {
      PowMonotone(m, n - 1);
    }
  }

  //////////////////////////////////////////////////////////////////////////////
  // Addition and multiplication by one limb
  //////////////////////////////////////////////////////////////////////////////

  /** What is left of a carry when the limbs are used up. */
  function Carry(k: Limb): seq<Limb> {
    if k > 0 then [k] else []
  }

  function Add(s: seq<Limb>, u: Limb): seq<Limb> {
    if s == [] then Carry(u)
    else if s[0] + u < BASE then [s[0] + u] + s[1..]
    else [s[0] + u - BASE] + Add(s[1..], 1)
  }

  lemma {:induction false} AddDenotes(s: seq<Limb>, u: Limb)
    ensures Num(Add(s, u)) == Num(s) + u && |s| <= |Add(s, u)| <= |s| + 1
    ensures Normal(s) ==> Normal(Add(s, u))
    ensures |Add(s, u)| == |s| + 1 ==> Add(s, u)[|s|] != 0
  {
    if s == [] {
      assert Carry(u)[..] == Carry(u);
    } else if s[0] + u < BASE {
      assert Add(s, u)[1..] == s[1..];
    } else {
      AddDenotes(s[1..], 1);
      assert Add(s, u)[1..] == Add(s[1..], 1);
    }
  }

  /** Each limb times `u`, carrying `k` in. */
  function MulAdd(s: seq<Limb>, u: Limb, k: Limb): seq<Limb> {
    if s == [] then Carry(k)
    else
      ProductSplits(s[0], u, k);
      var t := s[0] * u + k;
      [t % BASE] + MulAdd(s[1..], u, t / BASE)
  }

  lemma {:induction false} ProductSplits(a: Limb, b: Limb, k: Limb)
    ensures 0 <= (a * b + k) / BASE < BASE
  {
    var t := a * b + k;
    assert t == a * b + k;
    Decimal.MulMonotone(a, BASE - 1, b);
    Decimal.MulMonotone(b, BASE - 1, BASE - 1);
    assert 0 <= a * b by { Decimal.MulMonotone(0, a, b); }
    assert t < BASE * BASE;
  }

  lemma {:induction false} Distribute(a: int, n: int, u: int)
    ensures (a + BASE * n) * u == a * u + BASE * (n * u)
  {
    assert (a + BASE * n) * u == a * u + BASE * n * u;
  }

  lemma {:induction false} MulAddDenotes(s: seq<Limb>, u: Limb, k: Limb)
    ensures Num(MulAdd(s, u, k)) == Num(s) * u + k && |s| <= |MulAdd(s, u, k)| <= |s| + 1
    ensures |MulAdd(s, u, k)| == |s| + 1 ==> MulAdd(s, u, k)[|s|] != 0
  {
    if s == [] {
      assert Num(s) * u == 0;
      if k > 0 { assert Carry(k)[1..] == []; }
    } else {
      ProductSplits(s[0], u, k);
      var t := s[0] * u + k;
      MulAddDenotes(s[1..], u, t / BASE);
      Low(t % BASE, MulAdd(s[1..], u, t / BASE));
      assert t == t % BASE + BASE * (t / BASE);
      hide MulAdd;
      Distribute(s[0], Num(s[1..]), u);
    }
  }

  /** A product by a limb other than zero has no zero limb on top. */
  lemma {:induction false} MulAddNormal(s: seq<Limb>, u: Limb, k: Limb)
    requires Normal(s) && u > 0
    ensures Normal(MulAdd(s, u, k))
  {
    ProductSplits(s[0], u, k);
    var t := s[0] * u + k;
    if |s| > 1 {
      MulAddNormal(s[1..], u, t / BASE);
      MulAddDenotes(s[1..], u, t / BASE);
      TopOfProduct(s[1..], u, t / BASE);
    } else {
      assert s[1..] == [];
    }
  }

  lemma {:induction false} TopOfProduct(s: seq<Limb>, u: Limb, k: Limb)
    requires |s| >= 1 && s[|s| - 1] != 0 && u > 0 && Normal(MulAdd(s, u, k))
    ensures var r := MulAdd(s, u, k); |r| >= 1 && r[|r| - 1] != 0
  {
    hide MulAdd;
    var r := MulAdd(s, u, k);
    MulAddDenotes(s, u, k);
    Positive(s);
    Decimal.MulMonotone(1, u, Num(s));
    if |r| == 1 {
      assert Num(r) == r[0] + BASE * Num(r[1..]);
      assert r[1..] == [];
    }
  }

  //////////////////////////////////////////////////////////////////////////////
  // Shifting to the left
  //////////////////////////////////////////////////////////////////////////////

  function Pow2(n: nat): (r: nat)
    ensures r >= 1
  {
    if n == 0 then 1 else 2 * Pow2(n - 1)
  }

  lemma {:induction false} Pow2Add(m: nat, n: nat)
    ensures Pow2(m + n) == Pow2(m) * Pow2(n)
  {
    if m > 0 {
      Pow2Add(m - 1, n);
      assert 2 * (Pow2(m - 1) * Pow2(n)) == 2 * Pow2(m - 1) * Pow2(n);
    }
  }

  lemma Pow2Is(m: nat, p: nat, n: nat, q: nat)
    requires Pow2(m) == p && Pow2(n) == q
    ensures Pow2(m + n) == p * q
  {
    Pow2Add(m, n);
  }

  lemma {:induction false} Pow2Limb()
    ensures Pow2(64) == BASE
  {
    assert Pow2(2) == 4;
    hide Pow2;
    Pow2Is(2, 4, 2, 4);
    Pow2Is(4, 0x10, 4, 0x10);
    Pow2Is(8, 0x100, 8, 0x100);
    Pow2Is(16, 0x1_0000, 16, 0x1_0000);
    Pow2Is(32, 0x1_0000_0000, 32, 0x1_0000_0000);
  }

  lemma {:induction false} Pow2Limbs(n: nat)
    ensures Pow2(64 * n) == Pow(n)
  {
    if n > 0 {
      Pow2Limbs(n - 1);
      Pow2Limb();
      Pow2Add(64, 64 * (n - 1));
    }
  }

  /** A limb shifted by `n`, without the bits that fall off. */
  function Shl(x: Limb, n: nat): Limb {
    x * Pow2(n) % BASE
  }

  /** The top `n` bits of a limb. */
  function TopBits(x: Limb, n: nat): (r: nat)
    requires n <= 64
  {
    Decimal.DivNonnegative(x, Pow2(64 - n));
    x / Pow2(64 - n)
  }

  lemma {:induction false} ShiftSplits(x: Limb, n: nat)
    requires n <= 64
    ensures x * Pow2(n) == Shl(x, n) + BASE * TopBits(x, n)
    ensures Shl(x, n) + Pow2(n) <= BASE
    ensures TopBits(x, n) < Pow2(n) <= BASE
  {
    hide Pow2;
    var p, q := Pow2(n), Pow2(64 - n);
    Pow2Add(n, 64 - n);
    Pow2Limb();
    var h, l := x / q, x % q;
    ShiftArithmetic(x, p, q, h, l);
    Decimal.DivUnique(x * p, BASE, h, l * p);
  }

  lemma {:induction false} ShiftArithmetic(x: int, p: int, q: int, h: int, l: int)
    requires p >= 1 && q >= 1 && p * q == BASE && 0 <= x < BASE && x == h * q + l && 0 <= l < q
    ensures x * p == h * BASE + l * p && 0 <= l * p && l * p + p <= BASE && h < p <= BASE
  {
    assert (h * q) * p == h * (p * q);
    assert x * p == (h * q) * p + l * p;
    Decimal.MulMonotone(l + 1, q, p);
    assert 0 <= l * p by { Decimal.MulMonotone(0, l, p); }
    if h >= p {
      Decimal.MulMonotone(p, h, q);
    }
    Decimal.MulMonotone(1, q, p);
  }

  /** All limbs shifted by less than a limb, the bits `c` coming in below, with one more limb on top. */
  function Shift(s: seq<Limb>, n: nat, c: nat): (r: seq<Limb>)
    requires n <= 64 && c < Pow2(n)
    ensures |r| == |s| + 1
  {
    Pow2Bound(n);
    if s == [] then [c]
    else
      ShiftSplits(s[0], n);
      [Shl(s[0], n) + c] + Shift(s[1..], n, TopBits(s[0], n))
  }

  lemma {:induction false} Pow2Bound(n: nat)
    requires n <= 64
    ensures Pow2(n) <= BASE
  {
    ShiftSplits(0, n);
  }

  lemma ShiftStep(x: int, rest: int, p: int, low: int, top: int)
    requires x * p == low + BASE * top
    ensures low + BASE * (rest * p + top) == (x + BASE * rest) * p
  {
    Distribute(x, rest, p);
  }

  lemma {:induction false} ShiftDenotes(s: seq<Limb>, n: nat, c: nat)
    requires n <= 64 && c < Pow2(n)
    ensures Num(Shift(s, n, c)) == Num(s) * Pow2(n) + c
  {
    hide Pow2, Shl, TopBits;
    Pow2Bound(n);
    if s == [] {
      assert Shift(s, n, c)[1..] == [];
    } else {
      ShiftSplits(s[0], n);
      var rest := Shift(s[1..], n, TopBits(s[0], n));
      assert Shift(s, n, c) == [Shl(s[0], n) + c] + rest;
      ShiftDenotes(s[1..], n, TopBits(s[0], n));
      hide Shift;
      Low(Shl(s[0], n) + c, rest);
      ShiftStep(s[0], Num(s[1..]), Pow2(n), Shl(s[0], n), TopBits(s[0], n));
    }
  }

  /** One limb of a shift: the low bits of its own limb and the top bits of the limb below. */
  lemma {:induction false} ShiftAt(s: seq<Limb>, n: nat, c: nat, i: nat)
    requires n <= 64 && c < Pow2(n) && i <= |s|
    ensures Shift(s, n, c)[i]
         == (if i < |s| then Shl(s[i], n) else 0) + (if i == 0 then c else TopBits(s[i - 1], n))
  {
    hide Pow2, Shl, TopBits;
    if s != [] {
      ShiftSplits(s[0], n);
      if i > 0 {
        ShiftAt(s[1..], n, TopBits(s[0], n), i - 1);
      }
    }
  }

  /** Limbs whose number needs the topmost of them. */
  lemma {:induction false} TopNeeded(s: seq<Limb>)
    requires |s| >= 1 && Num(s) >= Pow(|s| - 1)
    ensures s[|s| - 1] != 0
  {
    var n := |s| - 1;
    NumAppend(s[..n], [s[n]]);
    NumBound(s[..n]);
    Low(s[n], []);
    assert s == s[..n] + [s[n]] && [s[n]] + [] == [s[n]];
  }

  /** A zero limb on top adds nothing. */
  lemma {:induction false} DropZero(s: seq<Limb>)
    requires |s| >= 1 && s[|s| - 1] == 0
    ensures Num(s[..|s| - 1]) == Num(s)
  {
    var n := |s| - 1;
    NumAppend(s[..n], [s[n]]);
    Low(0, []);
    assert s == s[..n] + [s[n]] && [0] + [] == [s[n]];
  }

  function Zeros(n: nat): (s: seq<Limb>)
    ensures |s| == n
  {
    seq(n, i => 0)
  }

  lemma {:induction false} ZerosBelow(n: nat, s: seq<Limb>)
    ensures Num(Zeros(n) + s) == Num(s) * Pow(n)
  {
    if n == 0 {
      assert Zeros(n) + s == s;
    } else {
      ZerosBelow(n - 1, s);
      assert (Zeros(n) + s)[1..] == Zeros(n - 1) + s;
      hide Num;
      ScaleCommutes(Num(s), Pow(n - 1));
    }
  }

  lemma {:induction false} ScaleCommutes(x: int, p: int)
    ensures BASE * (x * p) == x * (BASE * p)
  {
  }

  //////////////////////////////////////////////////////////////////////////////
  // Order
  //////////////////////////////////////////////////////////////////////////////

  function Sign(x: int): int {
    if x < 0 then -1 else if x > 0 then 1 else 0
  }

  /** More limbs denote more. */
  lemma {:induction false} LongerIsGreater(s: seq<Limb>, t: seq<Limb>)
    requires Normal(s) && Normal(t) && |s| < |t|
    ensures Num(s) < Num(t)
  {
    NumBound(s);
    Positive(t);
    PowMonotone(|s|, |t| - 1);
  }

  /** The topmost limb that differs decides. */
  lemma {:induction false} TopmostDecides(s: seq<Limb>, t: seq<Limb>, i: nat)
    requires i < |s| == |t| && s[i + 1..] == t[i + 1..] && s[i] < t[i]
    ensures Num(s) < Num(t)
  {
    hide Num, Pow;
    SplitAt(s, i);
    SplitAt(t, i);
    NumBound(s[..i]);
    HighDecides(Num(s[..i]), Num(t[..i]), s[i] + BASE * Num(s[i + 1..]), t[i] + BASE * Num(t[i + 1..]), Pow(i));
  }

  lemma {:induction false} HighDecides(x: nat, y: nat, m: int, n: int, p: nat)
    requires x < p && m < n
    ensures x + p * m < y + p * n
  {
    Decimal.MulMonotone(m + 1, n, p);
    assert (m + 1) * p == p * m + p;
    assert n * p == p * n;
  }

  lemma {:induction false} SplitAt(s: seq<Limb>, i: nat)
    requires i < |s|
    ensures Num(s) == Num(s[..i]) + Pow(i) * (s[i] + BASE * Num(s[i + 1..]))
  {
    hide Num, Pow;
    var low, high := s[..i], s[i..];
    assert s == low + high;
    NumAppend(low, high);
    assert high == [s[i]] + s[i + 1..];
    Low(s[i], s[i + 1..]);
  }

  //////////////////////////////////////////////////////////////////////////////
  // Difference
  //////////////////////////////////////////////////////////////////////////////

  type Bit = x: int | 0 <= x < 2

  function Head(b: seq<Limb>): Limb {
    if b == [] then 0 else b[0]
  }

  function Tail(b: seq<Limb>): seq<Limb> {
    if b == [] then [] else b[1..]
  }

  /** One limb of Difference, in wrapping 64-bit arithmetic. */
  function SubLimb(x: Limb, y: Limb, borrow: Bit): Limb {
    (x - borrow - y) % BASE
  }

  /** The borrow Difference derives: the limb came out greater than it went in. */
  function Borrow(x: Limb, y: Limb, borrow: Bit): Bit {
    if SubLimb(x, y, borrow) > x then 1 else 0
  }

  /** The limbs Difference computes. */
  function Sub(a: seq<Limb>, b: seq<Limb>, borrow: Bit): (r: seq<Limb>)
    ensures |r| == |a|
  {
    if a == [] then []
    else [SubLimb(a[0], Head(b), borrow)] + Sub(a[1..], Tail(b), Borrow(a[0], Head(b), borrow))
  }

  /** A borrow meets a limb of 2^64 - 1 and is forgotten. */
  predicate Forgets(y: Limb, borrow: Bit) {
    borrow == 1 && y == BASE - 1
  }

  /** By how much the borrows that get lost make the result too large. */
  function Lost(a: seq<Limb>, b: seq<Limb>, borrow: Bit): nat {
    if a == [] then 0
    else (if Forgets(Head(b), borrow) then BASE else 0) + BASE * Lost(a[1..], Tail(b), Borrow(a[0], Head(b), borrow))
  }

  /** The borrow out of the last limb. */
  function Final(a: seq<Limb>, b: seq<Limb>, borrow: Bit): Bit {
    if a == [] then borrow else Final(a[1..], Tail(b), Borrow(a[0], Head(b), borrow))
  }

  lemma {:induction false} BorrowKept(x: Limb, y: Limb, borrow: Bit)
    ensures SubLimb(x, y, borrow) + y + borrow
         == x + BASE * Borrow(x, y, borrow) + (if Forgets(y, borrow) then BASE else 0)
    ensures !Forgets(y, borrow) ==> Borrow(x, y, borrow) == if x < y + borrow then 1 else 0
  {
    var t := x - borrow - y;
    if t >= 0 {
      Decimal.DivUnique(t, BASE, 0, t);
    } else if t >= -BASE {
      Decimal.DivUnique(t, BASE, -1, t + BASE);
    }
  }

  lemma {:induction false} SubDenotes(a: seq<Limb>, b: seq<Limb>, borrow: Bit)
    requires |b| <= |a|
    ensures Num(Sub(a, b, borrow)) + Num(b) + borrow == Num(a) + Lost(a, b, borrow) + Final(a, b, borrow) * Pow(|a|)
  {
    hide SubLimb, Borrow, Forgets;
    if a == [] {
      assert b == [];
    } else {
      var next := Borrow(a[0], Head(b), borrow);
      BorrowKept(a[0], Head(b), borrow);
      SubDenotes(a[1..], Tail(b), next);
      Low(SubLimb(a[0], Head(b), borrow), Sub(a[1..], Tail(b), next));
      assert Num(b) == Head(b) + BASE * Num(Tail(b));
      assert Num(a) == a[0] + BASE * Num(a[1..]);
      ScaleBit(Final(a[1..], Tail(b), next), Pow(|a| - 1));
      hide Num, Head, Tail;
    }
  }

  lemma {:induction false} ScaleBit(f: Bit, p: nat)
    ensures f * (BASE * p) == BASE * (f * p)
  {
    if f == 0 { assert f * (BASE * p) == 0 && f * p == 0; }
  }

  /** Some limb 2^64 - 1 of `b` stands where the limbs below it have to borrow. */
  ghost predicate Loses(a: seq<Limb>, b: seq<Limb>)
    requires |b| <= |a|
  {
    exists i | 0 <= i < |b| :: b[i] == BASE - 1 && Num(a[..i]) < Num(b[..i])
  }

  /** The limbs below `i + 1` borrow exactly if those below `i`, shifted, do after the first limb. */
  lemma {:induction false} BorrowBelow(a: seq<Limb>, b: seq<Limb>, borrow: Bit, i: nat)
    requires 0 < i < |b| <= |a| && !Forgets(b[0], borrow)
    ensures Num(a[..i]) < Num(b[..i]) + borrow
       <==> Num(a[1..][..i - 1]) < Num(b[1..][..i - 1]) + Borrow(a[0], b[0], borrow)
  {
    BorrowKept(a[0], b[0], borrow);
    Low(a[0], a[1..i]);
    Low(b[0], b[1..i]);
    assert a[..i] == [a[0]] + a[1..i] && a[1..][..i - 1] == a[1..i];
    assert b[..i] == [b[0]] + b[1..i] && b[1..][..i - 1] == b[1..i];
    hide Num, Borrow, SubLimb;
  }

  /** A limb of `b` at which a borrow gets lost, if `borrow` comes in. */
  predicate LosesAt(a: seq<Limb>, b: seq<Limb>, borrow: Bit, i: nat)
    requires i < |b| <= |a|
  {
    b[i] == BASE - 1 && Num(a[..i]) < Num(b[..i]) + borrow
  }

  lemma {:induction false} LostWhere(a: seq<Limb>, b: seq<Limb>, borrow: Bit)
    requires |b| <= |a|
    ensures Lost(a, b, borrow) == 0 <==> forall i | 0 <= i < |b| :: !LosesAt(a, b, borrow, i)
    decreases |a|
  {
    hide Num, Borrow, SubLimb;
    if b == [] {
      NothingLost(a, borrow);
    } else {
      assert LosesAt(a, b, borrow, 0) <==> Forgets(b[0], borrow) by { Empty(a[..0]); Empty(b[..0]); }
      if !Forgets(b[0], borrow) {
        var next := Borrow(a[0], b[0], borrow);
        LostWhere(a[1..], b[1..], next);
        forall i | 0 < i < |b| ensures LosesAt(a, b, borrow, i) <==> LosesAt(a[1..], b[1..], next, i - 1) {
          BorrowBelow(a, b, borrow, i);
        }
        if Lost(a[1..], b[1..], next) != 0 {
          var j :| 0 <= j < |b[1..]| && LosesAt(a[1..], b[1..], next, j);
          assert LosesAt(a, b, borrow, j + 1);
        }
      }
    }
  }

  lemma {:induction false} Empty(s: seq<Limb>)
    requires s == []
    ensures Num(s) == 0
  {
  }

  lemma {:induction false} NothingLost(a: seq<Limb>, borrow: Bit)
    ensures Lost(a, [], borrow) == 0
    decreases |a|
  {
    if a != [] {
      NothingLost(a[1..], Borrow(a[0], 0, borrow));
    }
  }

  /** The limbs from the `i`-th on. */
  function Drop(b: seq<Limb>, i: nat): seq<Limb> {
    if i <= |b| then b[i..] else []
  }

  function LimbAt(b: seq<Limb>, i: nat): Limb {
    if i < |b| then b[i] else 0
  }

  /** A borrow comes into limb `i`: the limb below is too small, and no borrow was lost there. */
  predicate BorrowsInto(a: seq<Limb>, b: seq<Limb>, i: nat)
    requires i <= |a|
    decreases i, 0
  {
    i > 0 && !LosesBorrow(a, b, i - 1) && a[i - 1] < LimbAt(b, i - 1) + if BorrowsInto(a, b, i - 1) then 1 else 0
  }

  /** Limb `i` of `b` is 2^64 - 1 and a borrow comes in, which is lost. */
  predicate LosesBorrow(a: seq<Limb>, b: seq<Limb>, i: nat)
    requires i < |a|
    decreases i, 1
  {
    LimbAt(b, i) == BASE - 1 && BorrowsInto(a, b, i)
  }

  /** BASE^(i + 1) for every limb i below `n` at which a borrow is lost. */
  function LostUpTo(a: seq<Limb>, b: seq<Limb>, n: nat): nat
    requires n <= |a|
  {
    if n == 0 then 0 else LostUpTo(a, b, n - 1) + if LosesBorrow(a, b, n - 1) then Pow(n) else 0
  }

  function BitOf(b: bool): Bit {
    if b then 1 else 0
  }

  lemma {:induction false} BorrowIs(x: Limb, y: Limb, borrow: Bit)
    ensures Borrow(x, y, borrow) == BitOf(!Forgets(y, borrow) && x < y + borrow)
  {
    BorrowKept(x, y, borrow);
    if Forgets(y, borrow) {
      Decimal.DivUnique(x - BASE, BASE, -1, x);
    }
  }

  /** What is lost is what was lost below limb `n` and what will be from there on. */
  lemma {:induction false} LostFrom(a: seq<Limb>, b: seq<Limb>, n: nat)
    requires n <= |a|
    ensures Lost(a, b, 0) == LostUpTo(a, b, n) + Pow(n) * Lost(a[n..], Drop(b, n), BitOf(BorrowsInto(a, b, n)))
    decreases n
  {
    hide Borrow;
    if n == 0 {
      assert a[0..] == a && Drop(b, 0) == b;
    } else {
      var i := n - 1;
      LostFrom(a, b, i);
      var x, y, borrow := a[i], LimbAt(b, i), BitOf(BorrowsInto(a, b, i));
      assert a[i..][0] == x && a[i..][1..] == a[n..];
      assert Head(Drop(b, i)) == y && Tail(Drop(b, i)) == Drop(b, n);
      BorrowIs(x, y, borrow);
      var next := BitOf(BorrowsInto(a, b, n));
      assert Borrow(x, y, borrow) == next;
      var lost, rest := (if LosesBorrow(a, b, i) then BASE else 0), Lost(a[n..], Drop(b, n), next);
      assert Lost(a[i..], Drop(b, i), borrow) == lost + BASE * rest;
      LostStep(Pow(i), lost, rest);
      hide Lost;
    }
  }

  lemma LostStep(p: nat, lost: nat, rest: nat)
    requires lost == 0 || lost == BASE
    ensures p * (lost + BASE * rest) == (if lost == 0 then 0 else BASE * p) + BASE * p * rest
  {
    assert p * (lost + BASE * rest) == p * lost + p * (BASE * rest);
    assert p * (BASE * rest) == BASE * p * rest;
    if lost == 0 { assert p * lost == 0; } else { assert p * lost == BASE * p; }
  }

  lemma {:induction false} LostIsSum(a: seq<Limb>, b: seq<Limb>)
    requires |b| <= |a|
    ensures Lost(a, b, 0) == LostUpTo(a, b, |b|)
  {
    hide Lost, LostUpTo;
    LostFrom(a, b, |b|);
    var borrow := BitOf(BorrowsInto(a, b, |b|));
    NothingLost(a[|b|..], borrow);
    assert Drop(b, |b|) == [];
    assert Pow(|b|) * Lost(a[|b|..], [], borrow) == 0;
  }

  /** With a > b the limbs denote a - b, too much by exactly the borrows lost on the way. */
  lemma {:induction false} DifferenceDenotes(a: seq<Limb>, b: seq<Limb>)
    requires |b| <= |a| && Num(a) > Num(b)
    ensures Num(Sub(a, b, 0)) == Num(a) - Num(b) + Lost(a, b, 0)
  {
    hide Num, Sub, Lost, Final;
    SubDenotes(a, b, 0);
    NumBound(Sub(a, b, 0));
    if Final(a, b, 0) == 0 {
      assert Final(a, b, 0) * Pow(|a|) == 0;
    }
  }

  /** Difference is exact if and only if no limb 2^64 - 1 of the smaller number is borrowed from. */
  lemma {:induction false} DifferenceExactly(a: seq<Limb>, b: seq<Limb>)
    requires |b| <= |a| && Num(a) > Num(b)
    ensures Num(Sub(a, b, 0)) == Num(a) - Num(b) <==> !Loses(a, b)
  {
    hide Num, Sub, Lost;
    DifferenceDenotes(a, b);
    LostWhere(a, b, 0);
    if !Loses(a, b) {
      forall i | 0 <= i < |b| ensures !LosesAt(a, b, 0, i) { }
    } else {
      var i :| 0 <= i < |b| && b[i] == BASE - 1 && Num(a[..i]) < Num(b[..i]);
      assert LosesAt(a, b, 0, i);
    }
  }

  /** A difference that comes out wrong: 2^128 - (2^128 - 2^64 + 1). */
  lemma {:induction false} DifferenceMayFail()
    ensures var a, b := [0, 0, 1], [1, BASE - 1];
            Num(a) - Num(b) == BASE - 1 && Num(Sub(a, b, 0)) == BASE * BASE + BASE - 1
  {
    var a: seq<Limb>, b: seq<Limb> := [0, 0, 1], [1, BASE - 1];
    assert a[1..] == [0, 1] && [0, 1][1..] == [1] && [1][1..] == [];
    assert b[1..] == [BASE - 1] && [BASE - 1][1..] == [];
    BorrowKept(0, 1, 0);
    BorrowKept(0, BASE - 1, 1);
    BorrowKept(1, 0, 0);
    hide SubLimb;
    assert Sub([], [], 0) == [];
    assert Sub([1], [], 0) == [1] + [];
    assert Sub([0, 1], [BASE - 1], 1) == [0] + [1];
    assert Sub(a, b, 0) == [BASE - 1] + [0, 1];
    Low(BASE - 1, [0, 1]);
  }
}
