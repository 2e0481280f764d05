/** BigInteger of biginteger.h: an array of limbs changed in place, denoting a natural number. */
module BigIntegers {
  import opened Ascii
  import opened L = Limbs
  import Decimal

  /** kBitCount / sizeof(Type). */
  const CAPACITY: nat := 416

  const HALF: int := 0x1_0000_0000

  /** 64-bit arithmetic wraps around. */
  function Wrap(x: int): Limb {
    x % BASE
  }

  function Pow5(n: nat): (r: nat)
    ensures r >= 1
  {
    if n == 0 then 1 else 5 * Pow5(n - 1)
  }

  //////////////////////////////////////////////////////////////////////////////
  // MulAdd64
  //////////////////////////////////////////////////////////////////////////////

  lemma ProductBound(a: int, b: int, n: int)
    requires 0 <= a <= n && 0 <= b <= n
    ensures 0 <= a * b <= n * n
  {
    Decimal.MulMonotone(a, n, b);
    Decimal.MulMonotone(b, n, n);
    Decimal.MulMonotone(0, a, b);
  }

  lemma Quadrants(a0: int, a1: int, b0: int, b1: int)
    ensures (a0 + HALF * a1) * (b0 + HALF * b1)
         == a0 * b0 + HALF * (a0 * b1) + HALF * (a1 * b0) + HALF * HALF * (a1 * b1)
  {
    assert (a0 + HALF * a1) * (b0 + HALF * b1) == a0 * (b0 + HALF * b1) + HALF * (a1 * (b0 + HALF * b1));
    assert a0 * (b0 + HALF * b1) == a0 * b0 + HALF * (a0 * b1);
    assert a1 * (b0 + HALF * b1) == a1 * b0 + HALF * (a1 * b1);
  }

  lemma Wraps(x: int, q: int)
    requires q * BASE <= x < (q + 1) * BASE
    ensures Wrap(x) == x - q * BASE
  {
    Decimal.DivUnique(x, BASE, q, x - q * BASE);
  }

  /** A 64-bit sum is smaller than an addend exactly if it wrapped around. */
  method AddCarry(x: Limb, y: Limb) returns (sum: Limb, carry: bool)
    ensures sum + (if carry then BASE else 0) == x + y
  {
    sum := Wrap(x + y);
    carry := sum < y;
    if x + y < BASE { Wraps(x + y, 0); } else { Wraps(x + y, 1); }
  }

  /** Two limbs that make a * b + k. */
  predicate IsMulAdd(lo: Limb, hi: Limb, a: int, b: int, k: int) {
    lo + BASE * hi == a * b + k
  }

  /** The portable MulAdd64: four 32-bit products, in arithmetic that wraps at 64 bits. */
  method MulAdd64(a: Limb, b: Limb, k: Limb) returns (lo: Limb, hi: Limb)
    ensures IsMulAdd(lo, hi, a, b, k)
  {
    hide Wrap;
    var a0, a1, b0, b1 := a % HALF, a / HALF, b % HALF, b / HALF;
    ProductBound(a0, b0, HALF - 1);
    ProductBound(a0, b1, HALF - 1);
    ProductBound(a1, b0, HALF - 1);
    ProductBound(a1, b1, HALF - 1);
    ProductBound(a, b, BASE - 1);
    Quadrants(a0, a1, b0, b1);
    var x0: Limb, x1: Limb, x2: Limb, x3: Limb := a0 * b0, a0 * b1, a1 * b0, a1 * b1;
    lo, hi := Combine(x0, x1, x2, x3, k, a * b);
  }

  /** ... the sum of the four products and `k`. */
  method Combine(x0: Limb, p1: Limb, x2: Limb, p3: Limb, k: Limb, ghost product: int) returns (lo: Limb, hi: Limb)
    requires p1 <= (HALF - 1) * (HALF - 1)
    requires product == x0 + HALF * p1 + HALF * x2 + BASE * p3 && product <= (BASE - 1) * (BASE - 1)
    ensures lo + BASE * hi == product + k
  {
    hide Wrap;
    Wraps(p1 + x0 / HALF, 0);
    var x1 := Wrap(p1 + x0 / HALF);
    var carry;
    x1, carry := AddCarry(x1, x2);
    ghost var high := p3 + x1 / HALF + if carry then HALF else 0;
    assert product == x0 % HALF + HALF * (x1 % HALF) + BASE * high;
    Wraps(p3 + if carry then HALF else 0, 0);
    var x3 := if carry then Wrap(p3 + HALF) else p3;
    Wraps(x1 * HALF, x1 / HALF);
    Wraps(HALF * (x1 % HALF) + x0 % HALF, 0);
    Wraps(high, 0);
    lo, hi := Wrap(Wrap(x1 * HALF) + x0 % HALF), Wrap(x3 + x1 / HALF);
    lo, carry := AddCarry(lo, k);
    if carry {
      Wraps(hi + 1, 0);
      hi := Wrap(hi + 1);
    }
  }

  //////////////////////////////////////////////////////////////////////////////
  // Steps of the carry loops
  //////////////////////////////////////////////////////////////////////////////

  lemma {:induction false} AddUnfolds(s: seq<Limb>, u: Limb, x: int)
    requires s != [] && x == s[0]
    ensures L.Add(s, u) == [Wrap(x + u)] + Rest(s[1..], Wrap(x + u) < x)
  {
    Wraps(x + u, if x + u < BASE then 0 else 1);
    hide Wrap;
  }

  /** The sum of the limbs still to be visited and the carry. */
  function Rest(s: seq<Limb>, carry: bool): seq<Limb> {
    if carry then L.Add(s, 1) else s
  }

  lemma {:induction false} AddStep(s: seq<Limb>, i: nat, done: seq<Limb>, x: int)
    requires i < |s| && x == s[i]
    ensures done + L.Add(s[i..], 1) == done + [Wrap(x + 1)] + Rest(s[i + 1..], Wrap(x + 1) < x)
  {
    assert s[i..][1..] == s[i + 1..];
    AddUnfolds(s[i..], 1, x);
    hide Wrap, L.Add, Rest;
    assert done + ([Wrap(x + 1)] + Rest(s[i + 1..], Wrap(x + 1) < x))
        == done + [Wrap(x + 1)] + Rest(s[i + 1..], Wrap(x + 1) < x);
  }

  /** Writing the limb after those that are done. */
  lemma Replace(done: seq<Limb>, s: seq<Limb>, x: Limb)
    requires |done| < |s|
    ensures (done + s[|done|..])[|done| := x] == done + [x] + s[|done| + 1..]
    ensures (done + s[|done|..])[|done|] == s[|done|]
  {
  }

  lemma {:induction false} AddEnds(s: seq<Limb>, carry: bool)
    requires s == []
    ensures Rest(s, carry) == if carry then [1] else []
  {
  }

  lemma {:induction false} MulStep(s: seq<Limb>, i: nat, u: Limb, k: Limb, done: seq<Limb>, lo: Limb, hi: Limb)
    requires i < |s| && IsMulAdd(lo, hi, s[i], u, k)
    ensures done + MulAdd(s[i..], u, k) == done + [lo] + MulAdd(s[i + 1..], u, hi)
  {
    Decimal.DivUnique(s[i] * u + k, BASE, hi, lo);
    assert s[i..][1..] == s[i + 1..];
  }

  lemma {:induction false} AllMultiplied(s: seq<Limb>, u: Limb, k: Limb, done: seq<Limb>)
    requires s == []
    ensures done + MulAdd(s, u, k) == done + Carry(k)
  {
  }

  /** One 64-bit limb times a 32-bit number, with a 32-bit carry. */
  method MulAdd32(x: Limb, u: int, k: int) returns (lo: Limb, hi: Limb)
    requires 0 <= u < HALF && 0 <= k < HALF
    ensures IsMulAdd(lo, hi, x, u, k) && hi < HALF
  {
    hide Wrap;
    var c, d := x / HALF, x % HALF;
    ProductBound(u, c, HALF - 1);
    ProductBound(u, d, HALF - 1);
    HalvesTimes(c, d, u);
    Wraps(u * c, 0);
    Wraps(u * d, 0);
    var uc, ud := Wrap(u * c), Wrap(u * d);
    Wraps(ud + k, 0);
    var p0 := Wrap(ud + k);
    Wraps(uc + p0 / HALF, 0);
    var p1 := Wrap(uc + p0 / HALF);
    Wraps(p1 * HALF, p1 / HALF);
    lo, hi := p0 % HALF + Wrap(p1 * HALF), p1 / HALF;
  }

  lemma HalvesTimes(c: int, d: int, u: int)
    ensures (HALF * c + d) * u == HALF * (u * c) + u * d
  {
  }

  //////////////////////////////////////////////////////////////////////////////
  // The class
  //////////////////////////////////////////////////////////////////////////////

  class BigInteger {
    const digits: array<Limb>
    var count: nat

    predicate Valid()
      reads this, digits
    {
      digits.Length == CAPACITY && 1 <= count <= CAPACITY && Normal(digits[..count])
    }

    /** The number denoted. */
    function Value(): nat
      requires Valid()
      reads this, digits
    {
      Num(digits[..count])
    }

    constructor (u: Limb)
      ensures Valid() && Value() == u && fresh(digits)
    {
      digits := new Limb[CAPACITY](i => 0);
      count := 1;
      new;
      digits[0] := u;
      One(digits[..1], u);
    }

    constructor Copy(rhs: BigInteger)
      requires rhs.Valid()
      ensures Valid() && Value() == rhs.Value() && fresh(digits)
    {
      digits := new Limb[CAPACITY](i reads rhs, rhs.digits requires rhs.Valid() => if 0 <= i < rhs.count then rhs.digits[i] else 0);
      count := rhs.count;
      new;
      assert digits[..count] == rhs.digits[..count];
    }

    method Assign(u: Limb)
      requires Valid()
      modifies this, digits
      ensures Valid() && Value() == u
    {
      digits[0] := u;
      count := 1;
      One(digits[..1], u);
    }

    predicate IsZero()
      requires Valid()
      reads this, digits
    {
      count == 1 && digits[0] == 0
    }

    method PushBack(digit: Limb)
      requires digits.Length == CAPACITY && count < CAPACITY
      modifies this, digits
      ensures count == old(count) + 1 && digits[..count] == old(digits[..count]) + [digit]
    {
      digits[count] := digit;
      count := count + 1;
    }

    /** operator+=. */
    method Add(u: Limb)
      requires Valid() && Value() + u < Pow(CAPACITY)
      modifies this, digits
      ensures Valid() && Value() == old(Value()) + u
    {
      hide Num, Pow, L.Add, Normal;
      L.AddDenotes(digits[..count], u);
      ghost var sum := L.Add(digits[..count], u);
      if |sum| == count + 1 { FitsIn(sum, CAPACITY); }
      AddLimbs(u);
    }

    /** ... its carry loop. */
    method AddLimbs(u: Limb)
      requires digits.Length == CAPACITY && 1 <= count <= CAPACITY
      requires |L.Add(digits[..count], u)| <= CAPACITY
      modifies this, digits
      ensures count <= CAPACITY && digits[..count] == L.Add(old(digits[..count]), u)
    {
      hide Wrap, L.Add, Rest;
      ghost var s := digits[..count];
      AddUnfolds(s, u, s[0]);
      Replace([], s, Wrap(s[0] + u));
      var backup: int := digits[0];
      digits[0] := Wrap(backup + u);
      ghost var done := [Wrap(backup + u)];
      var i := 0;
      while i < count - 1
        invariant 0 <= i <= count - 1 && count == old(count)
        invariant |done| == i + 1 && done[i] == digits[i]
        invariant digits[..count] == done + s[i + 1..]
        invariant L.Add(s, u) == done + Rest(s[i + 1..], digits[i] < backup)
      {
        if digits[i] >= backup {
          NoCarry(s[i + 1..]);
          return;
        }
        Carried(s[i + 1..]);
        AddStep(s, i + 1, done, s[i + 1]);
        backup := digits[i + 1];
        Replace(done, s, Wrap(backup + 1));
        digits[i + 1] := Wrap(backup + 1);
        done := done + [Wrap(backup + 1)];
        i := i + 1;
      }
      AddEnds(s[i + 1..], digits[count - 1] < backup);
      if digits[count - 1] < backup {
        PushBack(1);
      }
    }

    /** operator*= by a 64-bit number. */
    method Multiply(u: Limb)
      requires Valid() && Value() * u < Pow(CAPACITY)
      modifies this, digits
      ensures Valid() && Value() == old(Value()) * u
    {
      hide Num, Wrap, Pow, L.MulAdd, Normal;
      if u == 0 {
        Assign(0);
      } else if u == 1 {
      } else if count == 1 && digits[0] == 1 {
        One(digits[..count], 1);
        Assign(u);
      } else {
        ProductFits(digits[..count], u);
        MultiplyLimbs(u);
      }
    }

    /** ... its carry loop. */
    method MultiplyLimbs(u: Limb)
      requires digits.Length == CAPACITY && count <= CAPACITY
      requires |MulAdd(digits[..count], u, 0)| <= CAPACITY
      modifies this, digits
      ensures count <= CAPACITY && digits[..count] == MulAdd(old(digits[..count]), u, 0)
    {
      hide Wrap, L.MulAdd, IsMulAdd;
      ghost var s, done := digits[..count], [];
      assert s[0..] == s && [] + MulAdd(s, u, 0) == MulAdd(s, u, 0);
      var k: Limb := 0;
      for i := 0 to count
        invariant count == old(count) && |done| == i && digits[..count] == done + s[i..]
        invariant MulAdd(s, u, 0) == done + MulAdd(s[i..], u, k)
      {
        Replace(done, s, 0);
        var lo, hi := MulAdd64(digits[i], u, k);
        MulStep(s, i, u, k, done, lo, hi);
        Replace(done, s, lo);
        digits[i], k, done := lo, hi, done + [lo];
      }
      AllMultiplied(s[count..], u, k, done);
      if k > 0 {
        PushBack(k);
      }
    }

    /** operator*= by a 32-bit number. */
    method Multiply32(u: Limb)
      requires u < HALF && Valid() && Value() * u < Pow(CAPACITY)
      modifies this, digits
      ensures Valid() && Value() == old(Value()) * u
    {
      hide Num, Wrap, Pow, L.MulAdd, Normal;
      if u == 0 {
        Assign(0);
      } else if u == 1 {
      } else if count == 1 && digits[0] == 1 {
        One(digits[..count], 1);
        Assign(u);
      } else {
        ProductFits(digits[..count], u);
        MultiplyLimbs32(u);
      }
    }

    /** ... its carry loop. */
    method MultiplyLimbs32(u: Limb)
      requires u < HALF && digits.Length == CAPACITY && count <= CAPACITY
      requires |MulAdd(digits[..count], u, 0)| <= CAPACITY
      modifies this, digits
      ensures count <= CAPACITY && digits[..count] == MulAdd(old(digits[..count]), u, 0)
    {
      hide Wrap, L.MulAdd, IsMulAdd;
      ghost var s, done := digits[..count], [];
      assert s[0..] == s && [] + MulAdd(s, u, 0) == MulAdd(s, u, 0);
      var k: Limb := 0;
      for i := 0 to count
        invariant count == old(count) && |done| == i && digits[..count] == done + s[i..]
        invariant MulAdd(s, u, 0) == done + MulAdd(s[i..], u, k) && k < HALF
      {
        Replace(done, s, 0);
        var lo, hi := MulAdd32(digits[i], u, k);
        MulStep(s, i, u, k, done, lo, hi);
        Replace(done, s, lo);
        digits[i], k, done := lo, hi, done + [lo];
      }
      AllMultiplied(s[count..], u, k, done);
      if k > 0 {
        PushBack(k);
      }
    }

    /** operator<<=. A shift by whole limbs needs room for the limbs it adds, any other shift for one
        limb more. */
    method ShiftLeft(shift: nat)
      requires Valid()
      requires IsZero() || count + shift / 64 < CAPACITY || (shift % 64 == 0 && count + shift / 64 == CAPACITY)
      modifies this, digits
      ensures Valid() && Value() == old(Value()) * Pow2(shift)
    {
      hide Num, Pow2, Normal;
      if IsZero() {
        One(digits[..count], 0);
        return;
      }
      if shift == 0 {
        NoShift(Value());
        return;
      }
      var offset, interShift := shift / 64, shift % 64;
      ghost var s := digits[..count];
      NotZero(s);
      if interShift == 0 {
        ShiftsWhole(s, offset);
        MoveUp(offset);
      } else {
        ShiftsBits(s, offset, interShift);
        ShiftBits(offset, interShift);
      }
    }

    /** ... memmove and memset. */
    method MoveUp(offset: nat)
      requires digits.Length == CAPACITY && count + offset <= CAPACITY
      modifies this, digits
      ensures count == old(count) + offset && digits[..count] == Zeros(offset) + old(digits[..count])
    {
      forall i | 0 <= i < count { digits[i + offset] := digits[i]; }
      count := count + offset;
      forall i | 0 <= i < offset { digits[i] := 0; }
    }

    /** ... the shift by less than a limb, moved up as well. */
    method ShiftBits(offset: nat, interShift: nat)
      requires digits.Length == CAPACITY && count >= 1 && count + offset < CAPACITY && 0 < interShift < 64
      modifies this, digits
      ensures count <= CAPACITY
      ensures digits[..count] == Zeros(offset) + WithoutTopZero(Shift(old(digits[..count]), interShift, 0))
    {
      hide Pow2, Shift;
      ghost var shifted := Shift(digits[..count], interShift, 0);
      ShiftLimbs(offset, interShift);
      count := count + offset;
      assert digits[count] == shifted[|shifted| - 1];
      assert digits[offset..count] == shifted[..|shifted| - 1];
      if digits[count] != 0 {
        count := count + 1;
      }
      ghost var top := digits[offset..count];
      assert top == WithoutTopZero(shifted);
      forall j | 0 <= j < offset { digits[j] := 0; }
      assert digits[offset..count] == top;
      assert digits[..offset] == Zeros(offset);
    }

    /** ... its loop from the top limb down. */
    method ShiftLimbs(offset: nat, interShift: nat)
      requires digits.Length == CAPACITY && count >= 1 && count + offset < CAPACITY && 0 < interShift < 64
      modifies digits
      ensures digits[offset..offset + count + 1] == Shift(old(digits[..count]), interShift, 0)
    {
      hide Pow2, Shl, TopBits, Shift;
      ghost var s := digits[..count];
      ghost var shifted := Shift(s, interShift, 0);
      digits[count] := 0;
      var i := count;
      ShiftOfZero(interShift);
      while i > 0
        invariant 0 <= i <= count
        invariant digits[..i] == s[..i] && digits[i] == (if i < count then s[i] else 0)
        invariant digits[offset + i + 1..offset + count + 1] == shifted[i + 1..]
      {
        ShiftAt(s, interShift, 0, i);
        assert digits[i - 1] == digits[..i][i - 1] == s[i - 1];
        digits[i + offset] := Shl(digits[i], interShift) + TopBits(digits[i - 1], interShift);
        i := i - 1;
      }
      ShiftAt(s, interShift, 0, 0);
      digits[offset] := Shl(digits[0], interShift);
      assert digits[offset + 1..offset + count + 1] == shifted[1..] && digits[offset] == shifted[0];
      assert digits[offset..offset + count + 1] == [digits[offset]] + digits[offset + 1..offset + count + 1];
      assert shifted == [shifted[0]] + shifted[1..];
    }

    method MultiplyPow5(exp: nat)
      requires Valid() && Value() * Pow5(exp) < Pow(CAPACITY)
      modifies this, digits
      ensures Valid() && Value() == old(Value()) * Pow5(exp)
    {
      hide Num, Pow, Pow5, Normal;
      var exp := exp;
      ghost var goal := Value() * Pow5(exp);
      while exp >= 27
        invariant Valid() && exp >= 0 && Value() * Pow5(exp) == goal
      {
        Pow5Step(Value(), 27, exp - 27, FIVE27);
        Multiply(FIVE27);
        exp := exp - 27;
      }
      while exp >= 13
        invariant Valid() && exp >= 0 && Value() * Pow5(exp) == goal
        invariant exp < 27
      {
        Pow5Step(Value(), 13, exp - 13, FIVE13);
        Multiply32(FIVE13);
        exp := exp - 13;
      }
      Pow5Table(exp);
      if exp > 0 {
        Multiply32(FIVES[exp - 1]);
      }
    }

    /** The number of a decimal text, 19 digits at a time. */
    constructor FromDecimals(decimals: seq<Byte>)
      requires decimals != [] && Decimal.AllDigits(decimals) && HasRoom(decimals)
      ensures Valid() && Value() == Decimal.NatOf(decimals) && fresh(digits)
    {
      digits := new Limb[CAPACITY](i => 0);
      count := 1;
      new;
      One(digits[..1], 0);
      AppendDecimals(decimals);
    }

    /** ... its loop. */
    method AppendDecimals(decimals: seq<Byte>)
      requires Valid() && Value() == 0
      requires decimals != [] && Decimal.AllDigits(decimals) && HasRoom(decimals)
      modifies this, digits
      ensures Valid() && Value() == Decimal.NatOf(decimals)
    {
      hide Num, Pow, Normal, Decimal.NatOf, Decimal.Pow10, Pow5, HasRoom;
      var length, i := |decimals|, 0;
      NoDigits(decimals[..0]);
      while length >= 19
        invariant 0 <= i && 0 <= length && i + length == |decimals| && i % 19 == 0
        invariant Valid() && Value() == Decimal.NatOf(decimals[..i])
      {
        ChunkFits(decimals, i, 19);
        AppendDecimal64(decimals[i..i + 19]);
        length := length - 19;
        i := i + 19;
      }
      assert decimals[..|decimals|] == decimals;
      if length > 0 {
        ChunkFits(decimals, i, length);
        AppendDecimal64(decimals[i..i + length]);
      }
    }

    method AppendDecimal64(text: seq<Byte>)
      requires 1 <= |text| <= 19 && Decimal.AllDigits(text)
      requires Valid() && Value() * Pow5(|text|) < Pow(CAPACITY - 1)
      requires Value() * Decimal.Pow10(|text|) + Decimal.NatOf(text) < Pow(CAPACITY)
      modifies this, digits
      ensures Valid() && Value() == old(Value()) * Decimal.Pow10(|text|) + Decimal.NatOf(text)
    {
      hide Num, Pow, Normal, Pow5, Pow2, Decimal.Pow10, Decimal.NatOf;
      var u := ParseUint64(text);
      if IsZero() {
        One(digits[..count], 0);
        assert Value() * Decimal.Pow10(|text|) == 0;
        Assign(u);
      } else {
        var exp := |text|;
        TenIsTwoFives(Value(), exp);
        PowMonotone(CAPACITY - 1, CAPACITY);
        MultiplyPow5(exp);
        RoomForShift(digits[..count]);
        ShiftLeft(exp);
        Add(u);
      }
    }

    /** The numeric order. */
    method Compare(rhs: BigInteger) returns (c: int)
      requires Valid() && rhs.Valid()
      ensures c == Sign(Value() - rhs.Value())
    {
      hide Num, Normal;
      if count != rhs.count {
        if count < rhs.count {
          LongerIsGreater(digits[..count], rhs.digits[..rhs.count]);
        } else {
          LongerIsGreater(rhs.digits[..rhs.count], digits[..count]);
        }
        return if count < rhs.count then -1 else 1;
      }
      ghost var s, t := digits[..count], rhs.digits[..count];
      var i := count;
      while i > 0
        invariant 0 <= i <= count && s[i..] == t[i..]
      {
        i := i - 1;
        if digits[i] != rhs.digits[i] {
          if digits[i] < rhs.digits[i] { TopmostDecides(s, t, i); } else { TopmostDecides(t, s, i); }
          return if digits[i] < rhs.digits[i] then -1 else 1;
        }
        assert s[i..] == [s[i]] + s[i + 1..] && t[i..] == [t[i]] + t[i + 1..];
      }
      assert s == s[0..] == t[0..] == t;
      return 0;
    }

    /** The absolute difference, and whether `this` is the smaller number: too much by the borrows
        that get lost, and exact if and only if none does. */
    method Difference(rhs: BigInteger, out: BigInteger) returns (ret: bool)
      requires Valid() && rhs.Valid() && out.Valid() && Value() != rhs.Value()
      requires out != this && out != rhs && out.digits != digits && out.digits != rhs.digits
      modifies out, out.digits
      ensures Valid() && rhs.Valid() && out.Valid()
      ensures Value() == old(Value()) && rhs.Value() == old(rhs.Value())
      ensures ret == (Value() < rhs.Value())
      ensures out.Value() == Distance(Value(), rhs.Value()) + Excess(Value(), rhs.Value())
    {
      hide Num, Normal, Sub, Excess, Distance;
      var cmp := Compare(rhs);
      var a, b: BigInteger;
      if cmp < 0 {
        a, b, ret := rhs, this, true;
      } else {
        a, b, ret := this, rhs, false;
      }
      Ordered(digits[..count], rhs.digits[..rhs.count]);
      DifferenceOf(a.digits[..a.count], b.digits[..b.count]);
      out.Subtract(a, b);
    }

    /** ... its loop, for a > b. */
    method Subtract(a: BigInteger, b: BigInteger)
      requires Valid() && a.Valid() && b.Valid() && b.count <= a.count
      requires this != a && this != b && digits != a.digits && digits != b.digits
      requires Num(Sub(a.digits[..a.count], b.digits[..b.count], 0)) > 0
      modifies this, digits
      ensures Valid() && Value() == Num(Sub(a.digits[..a.count], b.digits[..b.count], 0))
    {
      hide Num, Normal, Sub, SubLimb, Borrow;
      ghost var s, t, done := a.digits[..a.count], b.digits[..b.count], [];
      var borrow: Bit := 0;
      SubBegins(s, t);
      for i := 0 to a.count
        invariant |done| == i && digits[..i] == done && 1 <= count <= CAPACITY
        invariant Sub(s, t, 0) == done + Sub(s[i..], Drop(t, i), borrow)
        invariant IsTop(done, count) || forall j :: 0 <= j < |done| ==> done[j] == 0
      {
        var y := if i < b.count then b.digits[i] else 0;
        var d := SubLimb(a.digits[i], y, borrow);
        SubStep(s, t, i, borrow, done);
        borrow := Borrow(a.digits[i], y, borrow);
        digits[i] := d;
        if d != 0 {
          count := i + 1;
        }
        done := done + [d];
        assert digits[..i + 1] == done;
      }
      SubEnds(s, t, borrow, done, count);
      assert digits[..count] == done[..count];
    }
  }

  function Distance(x: int, y: int): nat {
    if x < y then y - x else x - y
  }

  /** By how much Difference exceeds the distance of two numbers. */
  function Excess(x: nat, y: nat): nat {
    if x < y then Lost(LimbsOf(y), LimbsOf(x), 0) else Lost(LimbsOf(x), LimbsOf(y), 0)
  }

  lemma Ordered(s: seq<Limb>, t: seq<Limb>)
    requires Normal(s) && Normal(t)
    ensures Num(s) < Num(t) ==> |s| <= |t|
    ensures Num(t) < Num(s) ==> |t| <= |s|
  {
    hide Num;
    if |s| < |t| { LongerIsGreater(s, t); }
    if |t| < |s| { LongerIsGreater(t, s); }
  }

  lemma {:induction false} DifferenceOf(a: seq<Limb>, b: seq<Limb>)
    requires Normal(a) && Normal(b) && |b| <= |a| && Num(a) > Num(b)
    ensures Num(Sub(a, b, 0)) > 0
    ensures Num(Sub(a, b, 0)) == Distance(Num(a), Num(b)) + Excess(Num(a), Num(b))
    ensures Num(Sub(a, b, 0)) == Distance(Num(b), Num(a)) + Excess(Num(b), Num(a))
  {
    hide Num, Sub, Lost, Normal, LimbsOf;
    NormalIsLimbsOf(a);
    NormalIsLimbsOf(b);
    DifferenceDenotes(a, b);
  }

  /** Difference is exact if and only if no limb 2^64 - 1 of the smaller number has to borrow for the
      limbs below it. */
  lemma {:induction false} ExcessWhere(x: nat, y: nat)
    requires x > y
    ensures |LimbsOf(y)| <= |LimbsOf(x)|
    ensures Excess(x, y) == Excess(y, x)
    ensures Excess(x, y) == 0 <==> !Loses(LimbsOf(x), LimbsOf(y))
  {
    hide Num, Sub, Lost, Normal, LimbsOf;
    LimbsOfDenotes(x);
    LimbsOfDenotes(y);
    Ordered(LimbsOf(x), LimbsOf(y));
    DifferenceDenotes(LimbsOf(x), LimbsOf(y));
    DifferenceExactly(LimbsOf(x), LimbsOf(y));
  }

  /** What Difference adds to a distance: BASE^(i + 1) for every limb i at which a borrow is lost. */
  lemma {:induction false} ExcessIs(x: nat, y: nat)
    requires x > y
    ensures |LimbsOf(y)| <= |LimbsOf(x)|
    ensures Excess(x, y) == LostUpTo(LimbsOf(x), LimbsOf(y), |LimbsOf(y)|)
  {
    hide Lost, LostUpTo, LimbsOf;
    ExcessWhere(x, y);
    LostIsSum(LimbsOf(x), LimbsOf(y));
  }

  lemma {:induction false} SubBegins(s: seq<Limb>, t: seq<Limb>)
    ensures Sub(s, t, 0) == [] + Sub(s[0..], Drop(t, 0), 0)
  {
    hide Sub;
    assert s[0..] == s && t[0..] == t;
  }

  lemma {:induction false} SubStep(s: seq<Limb>, t: seq<Limb>, i: nat, borrow: Bit, done: seq<Limb>)
    requires i < |s|
    ensures var y := if i < |t| then t[i] else 0;
            done + Sub(s[i..], Drop(t, i), borrow)
            == done + [SubLimb(s[i], y, borrow)] + Sub(s[i + 1..], Drop(t, i + 1), Borrow(s[i], y, borrow))
  {
    hide SubLimb, Borrow;
    assert s[i..][1..] == s[i + 1..];
    assert Tail(Drop(t, i)) == Drop(t, i + 1);
  }

  /** The topmost limb other than zero is the one below `n`. */
  predicate IsTop(s: seq<Limb>, n: nat) {
    1 <= n <= |s| && s[n - 1] != 0 && forall j :: n <= j < |s| ==> s[j] == 0
  }

  lemma {:induction false} SubEnds(s: seq<Limb>, t: seq<Limb>, borrow: Bit, done: seq<Limb>, n: nat)
    requires Sub(s, t, 0) == done + Sub(s[|s|..], Drop(t, |s|), borrow) && Num(Sub(s, t, 0)) > 0
    requires IsTop(done, n) || forall j :: 0 <= j < |done| ==> done[j] == 0
    ensures n <= |done| && Normal(done[..n]) && n >= 1 && Num(done[..n]) == Num(Sub(s, t, 0))
  {
    hide Num, IsTop;
    assert Sub(s[|s|..], Drop(t, |s|), borrow) == [] && Sub(s, t, 0) == done;
    hide Sub;
    TopDecides(done, n);
  }

  lemma {:induction false} TopDecides(s: seq<Limb>, n: nat)
    requires Num(s) > 0 && (IsTop(s, n) || forall j :: 0 <= j < |s| ==> s[j] == 0)
    ensures IsTop(s, n) && Num(s[..n]) == Num(s)
  {
    if IsTop(s, n) {
      ZerosAbove(s, n);
    } else {
      ZerosAbove(s, 0);
    }
  }

  lemma {:induction false} ZerosAbove(s: seq<Limb>, n: nat)
    requires n <= |s| && forall j :: n <= j < |s| ==> s[j] == 0
    ensures Num(s[..n]) == Num(s)
    decreases |s|
  {
    if n == |s| {
      assert s[..n] == s;
    } else {
      hide Num;
      var front := s[..|s| - 1];
      DropZero(s);
      ZerosAbove(front, n);
      assert front[..n] == s[..n];
    }
  }

  const FIVE27: Limb := 0x6765_C793_FA10_079D
  const FIVE13: Limb := 1220703125
  const FIVES: seq<Limb> := [5, 25, 125, 625, 3125, 15625, 78125, 390625, 1953125, 9765625, 48828125, 244140625]

  lemma {:induction false} Pow5Add(m: nat, n: nat)
    ensures Pow5(m + n) == Pow5(m) * Pow5(n)
  {
    if m > 0 {
      Pow5Add(m - 1, n);
      Regroup(5, Pow5(m - 1), Pow5(n));
    }
  }

  lemma Pow5Values()
    ensures Pow5(13) == FIVE13 && Pow5(27) == FIVE27
  {
    assert Pow5(1) == 5 && Pow5(3) == 125;
    hide Pow5;
    Pow5Is(3, 125, 3, 125);
    Pow5Is(6, 15625, 6, 15625);
    Pow5Is(12, 244140625, 1, 5);
    Pow5Is(13, FIVE13, 13, FIVE13);
    Pow5Is(26, 1490116119384765625, 1, 5);
  }

  lemma Pow5Is(m: nat, p: nat, n: nat, q: nat)
    requires Pow5(m) == p && Pow5(n) == q
    ensures Pow5(m + n) == p * q
  {
    Pow5Add(m, n);
  }

  /** Taking the factor 5^m out of 5^(m + n). */
  lemma Pow5Step(x: nat, m: nat, n: nat, p: nat)
    requires (m == 27 && p == FIVE27) || (m == 13 && p == FIVE13)
    ensures x * p * Pow5(n) == x * Pow5(m + n) && x * p <= x * Pow5(m + n)
  {
    hide Pow5;
    Pow5Values();
    Pow5Add(m, n);
    Regroup(x, p, Pow5(n));
    Decimal.MulMonotone(0, x, p);
    Decimal.MulMonotone(1, Pow5(n), x * p);
  }

  lemma Pow5Table(n: nat)
    requires n < 13
    ensures n > 0 ==> Pow5(n) == FIVES[n - 1]
    ensures n == 0 ==> Pow5(n) == 1
  {
    assert Pow5(2) == 25 && Pow5(4) == 625;
    assert Pow5(6) == 15625 && Pow5(8) == 390625;
    assert Pow5(10) == 9765625;
  }

  lemma NoDigits(s: seq<Byte>)
    requires s == []
    ensures Decimal.NatOf(s) == 0
  {
  }

  /** The number of digits appended last. */
  function LastChunk(n: nat): (r: nat)
    requires n >= 1
    ensures 1 <= r <= 19 && r <= n
  {
    if n % 19 == 0 then 19 else n % 19
  }

  /** A decimal text whose number fits, and of which the last digits can be appended: the shift by which
      they are appended writes to the limb behind the number. */
  predicate HasRoom(decimals: seq<Byte>)
    requires decimals != [] && Decimal.AllDigits(decimals)
  {
    var e := LastChunk(|decimals|);
    && Decimal.NatOf(decimals) < Pow(CAPACITY)
    && Decimal.NatOf(decimals[..|decimals| - e]) * Pow5(e) < Pow(CAPACITY - 1)
  }

  /** Anything below the capacity less one limb does. */
  lemma SmallHasRoom(decimals: seq<Byte>)
    requires decimals != [] && Decimal.AllDigits(decimals) && Decimal.NatOf(decimals) < Pow(CAPACITY - 1)
    ensures HasRoom(decimals)
  {
    hide Decimal.NatOf, Pow, Pow5, Decimal.Pow10, Pow2;
    var e := LastChunk(|decimals|);
    var i := |decimals| - e;
    PowMonotone(CAPACITY - 1, CAPACITY);
    Prefix(decimals, i, |decimals|);
    assert decimals[..|decimals|] == decimals && |decimals[i..|decimals|]| == e;
    TenIsTwoFives(Decimal.NatOf(decimals[..i]), e);
  }

  lemma ChunkEnds(length: nat, i: nat, n: nat)
    requires i % 19 == 0 && 1 <= n <= 19 && i + n <= length && (n == 19 || i + n == length)
    ensures i + n == length ==> n == LastChunk(length)
    ensures i + n < length ==> n == 19 && i + 19 <= length - LastChunk(length)
  {
    var k := i / 19;
    assert i == 19 * k;
    if i + n == length && n < 19 {
      Decimal.DivUnique(length, 19, k, n);
    }
  }

  /** With room for the last digits there is room for those before them. */
  lemma ChunkFits(s: seq<Byte>, i: nat, n: nat)
    requires s != [] && Decimal.AllDigits(s) && HasRoom(s)
    requires i % 19 == 0 && 1 <= n <= 19 && i + n <= |s| && (n == 19 || i + n == |s|)
    ensures Decimal.NatOf(s[..i + n]) == Decimal.NatOf(s[..i]) * Decimal.Pow10(|s[i..i + n]|) + Decimal.NatOf(s[i..i + n])
    ensures Decimal.NatOf(s[..i]) * Pow5(|s[i..i + n]|) < Pow(CAPACITY - 1)
    ensures Decimal.NatOf(s[..i + n]) < Pow(CAPACITY)
  {
    hide Decimal.NatOf, Pow, Pow5, Decimal.Pow10, Pow2;
    assert |s[i..i + n]| == n;
    Prefix(s, i, i + n);
    var e := LastChunk(|s|);
    ChunkEnds(|s|, i, n);
    hide LastChunk;
    if i + n != |s| {
      var front := s[..|s| - e];
      assert front[..i + 19] == s[..i + 19];
      Prefix(front, i + 19, i + 19);
      Decimal.MulMonotone(1, Pow5(e), Decimal.NatOf(front));
      TenIsTwoFives(Decimal.NatOf(s[..i]), 19);
    }
  }

  /** Reading more of a decimal text; what has been read is no more than the whole. */
  lemma {:induction false} Prefix(s: seq<Byte>, i: nat, j: nat)
    requires i <= j <= |s| && Decimal.AllDigits(s)
    ensures Decimal.NatOf(s[..j]) == Decimal.NatOf(s[..i]) * Decimal.Pow10(|s[i..j]|) + Decimal.NatOf(s[i..j])
    ensures Decimal.NatOf(s[..j]) <= Decimal.NatOf(s)
  {
    hide Decimal.NatOf, Decimal.Pow10;
    Decimal.NatOfAppend(s[..i], s[i..j]);
    assert s[..j] == s[..i] + s[i..j];
    Decimal.NatOfAppend(s[..j], s[j..]);
    assert s == s[..j] + s[j..];
    Decimal.MulMonotone(1, Decimal.Pow10(|s[j..]|), Decimal.NatOf(s[..j]));
  }

  /** At most 19 digits: no wrap-around. */
  method ParseUint64(text: seq<Byte>) returns (r: Limb)
    requires |text| <= 19 && Decimal.AllDigits(text)
    ensures r == Decimal.NatOf(text)
  {
    hide Decimal.Pow10;
    r := 0;
    Decimal.Pow10Nineteen();
    for i := 0 to |text|
      invariant r == Decimal.NatOf(text[..i])
    {
      Decimal.NatOfBound(text[..i + 1]);
      Decimal.Pow10Monotone(i + 1, 19);
      assert text[..i + 1][..i] == text[..i];
      Wraps(r * 10 + (text[i] - ZERO), 0);
      r := Wrap(r * 10 + (text[i] - ZERO));
    }
    assert text[..|text|] == text;
  }

  lemma {:induction false} TenIsTwoFives(x: nat, n: nat)
    ensures x * Decimal.Pow10(n) == x * Pow5(n) * Pow2(n)
    ensures x * Pow5(n) <= x * Decimal.Pow10(n)
  {
    TenPower(n);
    Regroup(x, Pow5(n), Pow2(n));
    Decimal.MulMonotone(0, x, Pow5(n));
    Decimal.MulMonotone(1, Pow2(n), x * Pow5(n));
  }

  lemma {:induction false} TenPower(n: nat)
    ensures Decimal.Pow10(n) == Pow5(n) * Pow2(n)
  {
    if n > 0 {
      TenPower(n - 1);
      assert 5 * Pow5(n - 1) * (2 * Pow2(n - 1)) == 10 * (Pow5(n - 1) * Pow2(n - 1));
    }
  }

  /** A number below the capacity less one limb leaves one limb free. */
  lemma RoomForShift(s: seq<Limb>)
    requires Normal(s) && Num(s) < Pow(CAPACITY - 1)
    ensures |s| < CAPACITY
  {
    hide Num, Pow;
    if |s| > 1 { FitsIn(s, CAPACITY - 1); }
  }

  lemma ShiftOfZero(n: nat)
    ensures Shl(0, n) == 0
  {
  }

  lemma NoShift(x: nat)
    ensures x * Pow2(0) == x
  {
  }

  lemma NotZero(s: seq<Limb>)
    requires Normal(s) && !(|s| == 1 && s[0] == 0)
    ensures s[|s| - 1] != 0
  {
  }

  function WithoutTopZero(s: seq<Limb>): seq<Limb> {
    if s != [] && s[|s| - 1] == 0 then s[..|s| - 1] else s
  }

  lemma {:induction false} ShiftsWhole(s: seq<Limb>, offset: nat)
    requires |s| >= 1 && s[|s| - 1] != 0
    ensures Normal(Zeros(offset) + s) && Num(Zeros(offset) + s) == Num(s) * Pow2(64 * offset)
  {
    hide Num, Pow2;
    ZerosBelow(offset, s);
    Pow2Limbs(offset);
  }

  lemma {:induction false} ShiftsBits(s: seq<Limb>, offset: nat, n: nat)
    requires |s| >= 1 && s[|s| - 1] != 0 && n < 64
    ensures var r := Zeros(offset) + WithoutTopZero(Shift(s, n, 0)); Normal(r) && Num(r) == Num(s) * Pow2(64 * offset + n)
  {
    hide Num, Pow2, Shift, Pow;
    var t := Shift(s, n, 0);
    ShiftDenotes(s, n, 0);
    Positive(s);
    Decimal.MulMonotone(1, Pow2(n), Num(s));
    var r := WithoutTopZero(t);
    if t[|t| - 1] == 0 {
      DropZero(t);
      TopNeeded(r);
    }
    ShiftsWhole(r, offset);
    Pow2Add(n, 64 * offset);
    Regroup(Num(s), Pow2(n), Pow2(64 * offset));
  }

  lemma Regroup(a: int, b: int, c: int)
    ensures a * b * c == a * (b * c)
  {
  }

  lemma {:induction false} ProductFits(s: seq<Limb>, u: Limb)
    requires Normal(s) && u > 0 && Num(s) * u < Pow(CAPACITY)
    ensures Normal(MulAdd(s, u, 0)) && Num(MulAdd(s, u, 0)) == Num(s) * u
    ensures |MulAdd(s, u, 0)| == |s| || (|s| < CAPACITY && |MulAdd(s, u, 0)| == |s| + 1)
  {
    hide MulAdd, Num, Pow;
    MulAddDenotes(s, u, 0);
    MulAddNormal(s, u, 0);
    if |MulAdd(s, u, 0)| == |s| + 1 { FitsIn(MulAdd(s, u, 0), CAPACITY); }
  }

  lemma {:induction false} NoCarry(s: seq<Limb>)
    ensures Rest(s, false) == s
  {
  }

  lemma {:induction false} Carried(s: seq<Limb>)
    ensures Rest(s, true) == L.Add(s, 1)
  {
  }

  lemma One(s: seq<Limb>, u: Limb)
    requires s == [u]
    ensures Num(s) == u
  {
    assert s[1..] == [];
  }
}
