/** The integer printers of internal/itoa.h: digits taken in pairs from a table. */
module Itoa {
  import opened Ascii
  import opened Decimal

  /** GetDigitsLut: the digits of 00, 01, ..., 99 in a row. */
  function Lut(i: int): Byte
    requires 0 <= i < 200
  {
    if i % 2 == 0 then ZERO + i / 2 / 10 else ZERO + i / 2 % 10
  }

  /** Two digits through the table. */
  function Pair(n: int): seq<Byte>
    requires 0 <= n < 100
  {
    [Lut(n * 2), Lut(n * 2 + 1)]
  }

  function Digits4(n: int): (s: seq<Byte>)
    requires 0 <= n < 10000
    ensures |s| == 4
  {
    Pair(n / 100) + Pair(n % 100)
  }

  function Digits8(n: int): (s: seq<Byte>)
    requires 0 <= n < 100000000
    ensures |s| == 8
  {
    Digits4(n / 10000) + Digits4(n % 10000)
  }

  lemma Powers()
    ensures Pow10(1) == 10 && Pow10(2) == 100 && Pow10(3) == 1000 && Pow10(4) == 10000
    ensures Pow10(5) == 100000 && Pow10(6) == 1000000 && Pow10(7) == 10000000 && Pow10(8) == 100000000
  {
    assert Pow10(2) == 100;
    assert Pow10(4) == 10000;
    assert Pow10(6) == 1000000;
  }

  lemma BigPowers()
    ensures Pow10(9) == 1000000000 && Pow10(10) == 10000000000 && Pow10(11) == 100000000000
    ensures Pow10(12) == 1000000000000 && Pow10(13) == 10000000000000 && Pow10(14) == 100000000000000
    ensures Pow10(15) == 1000000000000000 && Pow10(16) == 10000000000000000
  {
    Powers();
    assert Pow10(10) == 10000000000;
    assert Pow10(12) == 1000000000000;
    assert Pow10(14) == 100000000000000;
  }

  lemma PairIsFixed(n: nat)
    requires n < 100
    ensures Pair(n) == Fixed(n, 2)
  {
    assert Fixed(n, 2) == Fixed(n / 10, 1) + [ZERO + n % 10];
    assert Fixed(n / 10, 1) == [ZERO + n / 10];
  }

  lemma Digits4IsFixed(n: nat)
    requires n < 10000
    ensures Digits4(n) == Fixed(n, 4)
  {
    Powers();
    PairIsFixed(n / 100);
    PairIsFixed(n % 100);
    FixedSplits(n, 2, 2);
  }

  lemma Digits8IsFixed(n: nat)
    requires n < 100000000
    ensures Digits8(n) == Fixed(n, 8)
  {
    hide Digits4;
    Powers();
    Digits4IsFixed(n / 10000);
    Digits4IsFixed(n % 10000);
    FixedSplits(n, 4, 4);
  }

  /** The last `k` digits are the whole text of a number with `k` digits. */
  lemma TextIsSuffix(n: nat, w: nat, k: nat)
    requires 1 <= k <= w && n < Pow10(k) && (k == 1 || n >= Pow10(k - 1))
    ensures Text(n) == Fixed(n, w)[w - k..]
  {
    DivUnique(n, Pow10(k), 0, n);
    FixedSplits(n, w - k, k);
    FixedIsText(n, k);
  }

  /** The number of digits of a number. */
  function Count(n: nat): (k: nat)
    ensures k >= 1 && n < Pow10(k) && (k == 1 || n >= Pow10(k - 1))
  {
    if n < 10 then 1 else 1 + Count(n / 10)
  }

  lemma CountIsMonotone(n: nat, k: nat)
    requires k >= 1
    ensures Count(n) > k <==> n >= Pow10(k)
  {
  }

  /** The digits written once those before place `i` of `digits` are done, `lead` zeros being left out. */
  ghost function Written(digits: seq<Byte>, lead: nat, i: nat): seq<Byte>
    requires i <= |digits|
  {
    if lead < i then digits[lead..i] else []
  }

  /** `if (value >= 10^place) *buffer++ = digit`. */
  method PutFrom(buffer: seq<Byte>, value: nat, place: nat, power: nat, digit: Byte, ghost digits: seq<Byte>) returns (b: seq<Byte>)
    requires place < |digits| && power == Pow10(place) && Count(value) <= |digits| && 1 <= place
    requires var i := |digits| - 1 - place;
             digit == digits[i] && buffer == Written(digits, |digits| - Count(value), i)
    ensures b == Written(digits, |digits| - Count(value), |digits| - place)
  {
    CountIsMonotone(value, place);
    b := if value >= power then buffer + [digit] else buffer;
  }

  lemma CountBound(value: nat, w: nat)
    requires w >= 1 && value < Pow10(w)
    ensures Count(value) <= w
  {
    CountIsMonotone(value, w);
  }

  method Small4(value: int) returns (buffer: seq<Byte>)
    requires 0 <= value < 10000
    ensures buffer == Text(value)
  {
    hide Digits4, Fixed, Text, Count;
    Powers();
    CountBound(value, 4);
    Digits4IsFixed(value);
    var d := Digits4(value);
    buffer := PutFrom([], value, 3, 1000, d[0], d);
    buffer := PutFrom(buffer, value, 2, 100, d[1], d);
    buffer := PutFrom(buffer, value, 1, 10, d[2], d);
    buffer := buffer + [d[3]];
    TextIsSuffix(value, 4, Count(value));
  }

  method Small8(value: int) returns (buffer: seq<Byte>)
    requires 10000 <= value < 100000000
    ensures buffer == Text(value)
  {
    hide Digits8, Fixed, Text, Count;
    Powers();
    CountBound(value, 8);
    CountIsMonotone(value, 4);
    Digits8IsFixed(value);
    var d := Digits8(value);
    buffer := PutFrom([], value, 7, 10000000, d[0], d);
    buffer := PutFrom(buffer, value, 6, 1000000, d[1], d);
    buffer := PutFrom(buffer, value, 5, 100000, d[2], d);
    buffer := buffer + d[3..];
    TextIsSuffix(value, 8, Count(value));
  }

  /** u32toa. */
  method U32toa(value: int) returns (buffer: seq<Byte>)
    requires 0 <= value < 0x1_0000_0000
    ensures buffer == Text(value)
  {
    if value < 10000 {
      buffer := Small4(value);
    } else if value < 100000000 {
      buffer := Small8(value);
    } else {
      hide Digits8, Fixed, Pair;
      Powers();
      TextSplits(value, 8);
      Digits8IsFixed(value % 100000000);
      var a := value / 100000000;
      buffer := Leading(a);
      buffer := buffer + Digits8(value % 100000000);
    }
  }

  /** The digits in front of the last eight or sixteen. */
  method Leading(a: int) returns (buffer: seq<Byte>)
    requires 1 <= a < 10000
    ensures buffer == Text(a)
  {
    hide Pair, Digits4;
    Powers();
    if a < 10 {
      buffer := [ZERO + a];
    } else if a < 100 {
      PairIsFixed(a);
      FixedIsText(a, 2);
      buffer := Pair(a);
    } else if a < 1000 {
      PairIsFixed(a % 100);
      TextSplits(a, 2);
      buffer := [ZERO + a / 100] + Pair(a % 100);
    } else {
      PairIsFixed(a / 100);
      PairIsFixed(a % 100);
      FixedSplits(a, 2, 2);
      FixedIsText(a, 4);
      buffer := Pair(a / 100) + Pair(a % 100);
    }
  }

  /** i32toa: the magnitude of the most negative number is computed in 32 bits. */
  method I32toa(value: int) returns (buffer: seq<Byte>)
    requires -0x8000_0000 <= value < 0x8000_0000
    ensures buffer == SignedText(value)
  {
    hide Text;
    var u := value % 0x1_0000_0000;
    if value < 0 {
      u := (0xFFFF_FFFF - u + 1) % 0x1_0000_0000;
      buffer := U32toa(u);
      buffer := [MINUS] + buffer;
    } else {
      buffer := U32toa(u);
    }
  }

  method Middle16(value: int) returns (buffer: seq<Byte>)
    requires 100000000 <= value < 10000000000000000
    ensures buffer == Text(value)
  {
    hide Digits8, Fixed, Text, Count;
    Powers();
    BigPowers();
    CountBound(value, 16);
    CountIsMonotone(value, 8);
    FixedSplits(value, 8, 8);
    Digits8IsFixed(value / 100000000);
    Digits8IsFixed(value % 100000000);
    var d := Digits8(value / 100000000) + Digits8(value % 100000000);
    buffer := PutFrom([], value, 15, 1000000000000000, d[0], d);
    buffer := PutFrom(buffer, value, 14, 100000000000000, d[1], d);
    buffer := PutFrom(buffer, value, 13, 10000000000000, d[2], d);
    buffer := PutFrom(buffer, value, 12, 1000000000000, d[3], d);
    buffer := PutFrom(buffer, value, 11, 100000000000, d[4], d);
    buffer := PutFrom(buffer, value, 10, 10000000000, d[5], d);
    buffer := PutFrom(buffer, value, 9, 1000000000, d[6], d);
    buffer := buffer + d[7..];
    TextIsSuffix(value, 16, Count(value));
  }

  /** u64toa. */
  method U64toa(value: int) returns (buffer: seq<Byte>)
    requires 0 <= value < 0x1_0000_0000_0000_0000
    ensures buffer == Text(value)
  {
    if value < 10000 {
      buffer := Small4(value);
    } else if value < 100000000 {
      buffer := Small8(value);
    } else if value < 10000000000000000 {
      buffer := Middle16(value);
    } else {
      hide Digits8, Fixed, Text;
      Powers();
      BigPowers();
      TextSplits(value, 16);
      var rest := value % 10000000000000000;
      FixedSplits(rest, 8, 8);
      Digits8IsFixed(rest / 100000000);
      Digits8IsFixed(rest % 100000000);
      buffer := Leading(value / 10000000000000000);
      buffer := buffer + Digits8(rest / 100000000) + Digits8(rest % 100000000);
    }
  }

  /** i64toa. */
  method I64toa(value: int) returns (buffer: seq<Byte>)
    requires -0x8000_0000_0000_0000 <= value < 0x8000_0000_0000_0000
    ensures buffer == SignedText(value)
  {
    hide Text;
    var u := value % 0x1_0000_0000_0000_0000;
    if value < 0 {
      u := (0xFFFF_FFFF_FFFF_FFFF - u + 1) % 0x1_0000_0000_0000_0000;
      buffer := U64toa(u);
      buffer := [MINUS] + buffer;
    } else {
      buffer := U64toa(u);
    }
  }
}
