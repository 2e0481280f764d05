/** Decimal texts of natural numbers: the reference every number printer and scanner is held to. */
module Decimal {
  import opened Ascii

  function Pow10(n: nat): (r: nat)
    ensures r >= 1
  {
    if n == 0 then 1 else 10 * Pow10(n - 1)
  }

  predicate AllDigits(s: seq<Byte>) {
    forall i :: 0 <= i < |s| ==> IsDigit(s[i])
  }

  /** The number a digit string denotes. */
  function NatOf(s: seq<Byte>): nat
    requires AllDigits(s)
  {
    if s == [] then 0 else NatOf(s[..|s| - 1]) * 10 + (s[|s| - 1] - ZERO)
  }

  /** The canonical decimal text: no leading zero but in "0" itself. */
  function Text(n: nat): (s: seq<Byte>)
    ensures |s| >= 1
  {
    if n < 10 then [ZERO + n] else Text(n / 10) + [ZERO + n % 10]
  }

  /** The decimal text of `n` in exactly `w` digits, zero-padded. */
  function Fixed(n: nat, w: nat): (s: seq<Byte>)
    ensures |s| == w
  {
    if w == 0 then [] else Fixed(n / 10, w - 1) + [ZERO + n % 10]
  }

  /** The canonical text with its sign. */
  function SignedText(x: int): seq<Byte> {
    if x < 0 then [MINUS] + Text(-x) else Text(x)
  }

  /** Reading a canonical text back. */
  lemma {:induction false} TextDenotes(n: nat)
    ensures AllDigits(Text(n)) && NatOf(Text(n)) == n
    ensures Text(n)[0] == ZERO <==> n == 0
    ensures n == 0 ==> Text(n) == [ZERO]
  {
    if n >= 10 {
      TextDenotes(n / 10);
      assert Text(n)[..|Text(n)| - 1] == Text(n / 10);
    }
  }

  /** A digit string without a superfluous leading zero is the canonical text of its number. */
  lemma {:induction false} CanonicalIsText(s: seq<Byte>)
    requires s != [] && AllDigits(s) && (s[0] == ZERO ==> |s| == 1)
    ensures s == Text(NatOf(s))
    ensures s[0] != ZERO ==> NatOf(s) >= 1
  {
    var front := s[..|s| - 1];
    if front != [] {
      CanonicalIsText(front);
      assert s == front + [s[|s| - 1]];
    }
  }

  lemma {:induction false} FixedDenotes(n: nat, w: nat)
    ensures AllDigits(Fixed(n, w))
    ensures n < Pow10(w) ==> NatOf(Fixed(n, w)) == n
  {
    if w > 0 {
      FixedDenotes(n / 10, w - 1);
      assert Fixed(n, w)[..w - 1] == Fixed(n / 10, w - 1);
    }
  }

  /** A number with exactly `w` digits prints the same with and without padding. */
  lemma {:induction false} FixedIsText(n: nat, w: nat)
    requires w >= 1 && n < Pow10(w) && (w == 1 || n >= Pow10(w - 1))
    ensures Fixed(n, w) == Text(n)
  {
    if w > 1 {
      FixedIsText(n / 10, w - 1);
    } else {
      assert Fixed(n / 10, 0) == [];
    }
  }

  /** All but the last `k` digits of a number. */
  function High(n: nat, k: nat): nat {
    DivNonnegative(n, Pow10(k));
    n / Pow10(k)
  }

  lemma DivNonnegative(n: nat, d: nat)
    requires d >= 1
    ensures n / d >= 0
  {
  }

  /** The number the last `k` digits make. */
  function Low(n: nat, k: nat): (r: nat)
    ensures r < Pow10(k)
  {
    n % Pow10(k)
  }

  /** A text splits into the text of the leading part and a padded trailing part. */
  lemma {:induction false} TextSplits(n: nat, k: nat)
    requires n >= Pow10(k)
    ensures Text(n) == Text(High(n, k)) + Fixed(Low(n, k), k)
  {
    if k > 0 {
      TextSplits(n / 10, k - 1);
      HighLowStep(n, k);
      assert Text(n) == Text(n / 10) + [ZERO + n % 10];
    } else {
      DivUnique(n, 1, n, 0);
    }
  }

  /** A padded text splits likewise. */
  lemma {:induction false} FixedSplits(n: nat, j: nat, k: nat)
    ensures Fixed(n, j + k) == Fixed(High(n, k), j) + Fixed(Low(n, k), k)
  {
    if k > 0 {
      FixedSplits(n / 10, j, k - 1);
      HighLowStep(n, k);
      assert Fixed(n, j + k) == Fixed(n / 10, j + k - 1) + [ZERO + n % 10];
    } else {
      DivUnique(n, 1, n, 0);
    }
  }

  lemma HighLowStep(n: nat, k: nat)
    requires k >= 1
    ensures High(n / 10, k - 1) == High(n, k)
    ensures Low(n, k) / 10 == Low(n / 10, k - 1) && Low(n, k) % 10 == n % 10
  {
    var p := Pow10(k - 1);
    var q, r := n / 10 / p, n / 10 % p;
    var low := r * 10 + n % 10;
    assert n / 10 == q * p + r;
    assert n == q * (10 * p) + low by {
      assert q * (10 * p) == 10 * (q * p);
    }
    DivUnique(n, 10 * p, q, low);
  }

  lemma DivUnique(n: int, d: int, q: int, r: int)
    requires d > 0 && n == q * d + r && 0 <= r < d
    ensures n / d == q && n % d == r
  {
    var q', r' := n / d, n % d;
    assert n == q' * d + r';
    if q > q' {
      MulMonotone(q' + 1, q, d);
    } else if q < q' {
      MulMonotone(q + 1, q', d);
    }
  }

  lemma MulMonotone(a: int, b: int, d: int)
    requires a <= b && d >= 0
    ensures a * d <= b * d
  {
  }

  lemma TenTimes(x: int, p: int)
    ensures x * (10 * p) == x * p * 10
  {
  }

  lemma {:induction false} NatOfAppend(a: seq<Byte>, b: seq<Byte>)
    requires AllDigits(a) && AllDigits(b)
    ensures AllDigits(a + b) && NatOf(a + b) == NatOf(a) * Pow10(|b|) + NatOf(b)
    decreases |b|
  {
    assert AllDigits(a + b);
    if b == [] {
      assert a + b == a;
    } else {
      var front := b[..|b| - 1];
      NatOfAppend(a, front);
      assert (a + b)[..|a + b| - 1] == a + front;
      TenTimes(NatOf(a), Pow10(|front|));
    }
  }

  lemma {:induction false} NatOfBound(s: seq<Byte>)
    requires AllDigits(s)
    ensures NatOf(s) < Pow10(|s|)
  {
    if s != [] { NatOfBound(s[..|s| - 1]); }
  }

  lemma {:induction false} Pow10Monotone(m: nat, n: nat)
    requires m <= n
    ensures Pow10(m) <= Pow10(n)
  {
    if m < n { Pow10Monotone(m, n - 1); }
  }

  lemma Pow10Nineteen()
    ensures Pow10(19) == 10_000_000_000_000_000_000
  {
    assert Pow10(4) == 10_000;
    assert Pow10(8) == 100_000_000;
    assert Pow10(12) == 1_000_000_000_000;
    assert Pow10(16) == 10_000_000_000_000_000;
  }
}
