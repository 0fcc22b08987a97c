/**
 * When a number with a fraction or an exponent comes out right. The parser reads the digits before the point, those
 * after it and the exponent into a long each, which wraps around.
 */
module JsonDoubles {
  import opened BStrings
  import opened JsonDecimals
  import opened JsonGrammar
  import opened JsonNumbers

  ghost predicate IsLong(x: int) { LONG_MIN <= x <= LONG_MAX }

  /** The value of a number: all its digits as one integer, times ten to the exponent less the number of digits
      after the point. */
  ghost function DoubleValue(n: NumberText): real {
    WithSign(n.neg, Scaled(Decimal(n.digits + n.fraction), Power(n.exponent) - |n.fraction|))
  }

  /** Each of the three parts is a long; the exponent of zero may be any. */
  ghost predicate DoubleExact(n: NumberText) {
    IsLong(Decimal(n.digits)) && IsLong(Decimal(n.fraction))
    && (IsLong(Power(n.exponent)) || Decimal(n.digits + n.fraction) == 0)
  }

  // ---------------------------------------------------------------- wrapping around

  lemma Wrapped(x: nat) returns (k: nat)
    ensures x == Int64(x) + k * TWO64 && (Int64(x) == x <==> IsLong(x)) && Int64(x) <= x
  {
    k := (x - Int64(x)) / TWO64;
    assert x - Int64(x) == TWO64 * k;
  }

  lemma WrapsToZero(x: int, k: int)
    requires x == k * TWO64
    ensures Int64(x) == 0
  {
    Int64Same(0, k);
  }

  const FIVES: nat := 0x18_4F03_E93F_F9F4_DAA7_97ED_6E38_ED64_BF6A_1F01

  /** Ten to the power of 64 or more is a multiple of two to the power of 64. */
  lemma TenMultiple(m: nat) returns (z: nat)
    requires m >= 64
    ensures TenTo(m) == z * TWO64
  {
    TenToSum(64, m - 64);
    TenTo64();
    z := FIVES * TenTo(m - 64);
    Swap(FIVES, TWO64, TenTo(m - 64));
  }

  lemma TenTo64()
    ensures TenTo(64) == FIVES * TWO64
  {
    assert TenTo(8) == 1_0000_0000;
    hide TenTo;
    TenToSum(8, 8);
    assert TenTo(16) == 1_0000_0000_0000_0000;
    TenToSum(16, 16);
    assert TenTo(32) == 1_0000_0000_0000_0000_0000_0000_0000_0000;
    TenToSum(32, 32);
  }

  lemma Swap(a: int, b: int, c: int)
    ensures a * b * c == a * c * b
  {
  }

  // ---------------------------------------------------------------- two numbers in powers of ten

  /** A multiple of `t` that is less than it. */
  lemma SmallMultiple(f: nat, t: nat, k: int)
    requires f == t * k && f < t
    ensures f == 0 && k == 0
  {
    AtLeast(t, k);
  }

  lemma AtLeast(t: nat, k: int)
    ensures (k > 0 ==> t * k >= t) && (k < 0 ==> t * k + t <= 0) && (k == 0 ==> t * k == 0)
  {
  }

  lemma TakeOut(y: int, r: int, t: int, i: int, f: int)
    requires y * (r * t) == i * t + f
    ensures f == t * (y * r - i)
  {
    assert y * (r * t) == t * (y * r);
  }

  lemma TakeOutPower(y: int, p: int, i: int, q: int, f: int)
    requires y * p == i * (q * p) + f
    ensures f == (y - i * q) * p
  {
    assert i * (q * p) == i * q * p;
  }

  lemma Multiple(x: int, z: int) returns (k: int)
    ensures x * (z * TWO64) == k * TWO64
  {
    k := x * z;
  }

  /** Digits and their fraction, as read and as they are, differ by no power of ten from 10^64 on, unless all are 0. */
  lemma NoLargePower(i: nat, f: nat, d: nat, m: nat)
    requires f < TenTo(d) && m >= 64
    requires Joined(Int64(i), d, Int64(f)) * TenTo(m) == Joined(i, d, f)
    ensures i == 0 && f == 0
  {
    FractionIsZero(i, f, d, m);
    hide Int64, TenTo;
    WithoutFraction(Int64(i), TenTo(d), TenTo(m), i, f);
    IntegerIsZero(i, m);
  }

  lemma WithoutFraction(y: int, t: nat, p: nat, i: nat, f: nat)
    requires y * t * p == i * t + f && f < t
    ensures f == 0 && i == y * p
  {
    assert y * t * p == y * (p * t);
    TakeOut(y, p, t, i, f);
    SmallMultiple(f, t, y * p - i);
  }

  lemma IntegerIsZero(i: nat, m: nat)
    requires m >= 64 && i == Int64(i) * TenTo(m)
    ensures i == 0
  {
    hide Int64, TenTo;
    var z := TenMultiple(m);
    var k := Multiple(Int64(i), z);
    WrapsToZero(i, k);
  }

  lemma FractionIsZero(i: nat, f: nat, d: nat, m: nat)
    requires f < TenTo(d) && m >= 64
    requires Joined(Int64(i), d, Int64(f)) * TenTo(m) == Joined(i, d, f)
    ensures Int64(f) == 0
  {
    hide Int64, TenTo;
    var y := Int64(i) * TenTo(d) + Int64(f);
    if m <= d {
      TenToSum(d - m, m);
      LongFraction(y, m, i, TenTo(d - m), f);
    } else {
      TenToSum(m - d, d);
      ShortFraction(y, TenTo(m - d), TenTo(d), i, f);
    }
  }

  lemma LongFraction(y: int, m: nat, i: int, q: int, f: int)
    requires m >= 64 && y * TenTo(m) == i * (q * TenTo(m)) + f
    ensures Int64(f) == 0
  {
    hide Int64, TenTo;
    TakeOutPower(y, TenTo(m), i, q, f);
    var z := TenMultiple(m);
    var k := Multiple(y - i * q, z);
    WrapsToZero(f, k);
  }

  lemma ShortFraction(y: int, r: int, t: nat, i: int, f: nat)
    requires f < t && y * (r * t) == i * t + f
    ensures Int64(f) == 0
  {
    hide Int64;
    TakeOut(y, r, t, i, f);
    SmallMultiple(f, t, y * r - i);
    WrapsToZero(f, 0);
  }

  /** The digits as read are no power of ten more than the digits as they are, unless all are 0. */
  lemma NoPowerUp(i: nat, f: nat, d: nat, n: nat)
    requires n > 0 && Joined(Int64(i), d, Int64(f)) == Joined(i, d, f) * TenTo(n)
    ensures i == 0 && f == 0
  {
    TenAtLeast(n);
    var a := Wrapped(i);
    var b := Wrapped(f);
    hide Int64, TenTo;
    TimesTen(Int64(i), i, TenTo(d), Int64(f), f, TenTo(n));
  }

  lemma TenAtLeast(n: nat)
    requires n > 0
    ensures TenTo(n) >= 10
  {
  }

  lemma TimesTen(y: int, i: nat, t: nat, g: int, f: nat, p: nat)
    requires y <= i && g <= f && p >= 10 && t > 0 && y * t + g == (i * t + f) * p
    ensures i == 0 && f == 0
  {
    var x := i * t + f;
    assert x * p >= x * 10 by { Grows(x, 10, p); }
    Grows(t, y, i);
    assert i > 0 ==> i * t >= t by { Grows(t, 1, i); }
  }

  lemma Grows(x: nat, a: int, b: int)
    ensures a <= b ==> a * x <= b * x
    ensures a < b && x > 0 ==> a * x < b * x
  {
  }

  lemma SameDigits(i: nat, f: nat, d: nat)
    ensures Joined(Int64(i), d, Int64(f)) == Joined(i, d, f) <==> IsLong(i) && IsLong(f)
  {
    var a := Wrapped(i);
    var b := Wrapped(f);
    hide Int64, TenTo;
    Grows(TenTo(d), Int64(i), i);
  }

  // ---------------------------------------------------------------- what the parser stores

  lemma {:induction false} DecimalSum(a: seq<Byte>, b: seq<Byte>)
    ensures Decimal(a + b) == Joined(Decimal(a), |b|, Decimal(b))
    decreases |b|
  {
    if b == [] {
      NoPrefix(a);
    } else {
      var k := |b| - 1;
      assert (a + b)[..|a + b| - 1] == a + b[..k];
      DecimalSum(a, b[..k]);
      LastDigit(Decimal(a), TenTo(k), Decimal(b[..k]), b[k]);
    }
  }

  lemma LastDigit(x: int, t: int, y: int, c: int)
    ensures (x * t + y) * 10 + (c - 48) == x * (10 * t) + (y * 10 + (c - 48))
  {
  }

  lemma {:induction false} DecimalBound(d: seq<Byte>)
    requires Digits(d)
    ensures 0 <= Decimal(d) < TenTo(|d|)
  {
    if d != [] { DecimalBound(d[..|d| - 1]); }
  }

  lemma StoredScaled(n: NumberText)
    ensures ExponentStored(MantissaStored(n.digits, n.fraction), n.exponent) ==
      Scaled(Joined(Int64(Decimal(n.digits)), |n.fraction|, Int64(Decimal(n.fraction))),
        Int64(Power(n.exponent)) - |n.fraction|)
  {
    StoredView(n);
    hide Int64, Decimal, Power, Scale, AddFraction, Scaled, Joined, MantissaStored, ExponentStored;
    FractionScaled(Int64(Decimal(n.digits)), Int64(Decimal(n.fraction)), |n.fraction|, Int64(Power(n.exponent)));
  }

  lemma StoredView(n: NumberText)
    ensures ExponentStored(MantissaStored(n.digits, n.fraction), n.exponent) ==
      Scale(AddFraction(Int64(Decimal(n.digits)) as real, Int64(Decimal(n.fraction)), |n.fraction|),
        Int64(Power(n.exponent)))
  {
    hide Int64, Decimal, TenTo, Pow10, AddFraction, Scale;
    NoFraction(Int64(Decimal(n.digits)) as real);
    NoScale(MantissaStored(n.digits, n.fraction));
  }

  lemma NoFraction(x: real)
    ensures Int64(Decimal([])) == 0 && AddFraction(x, 0, 0) == x
  {
  }

  lemma NoScale(x: real)
    ensures Int64(0) == 0 && Scale(x, 0) == x
  {
    assert Pow10(0) == 1.0;
  }

  lemma SameSize(neg: bool, x: real, y: real)
    ensures WithSign(neg, x) == WithSign(neg, y) <==> x == y
  {
  }

  /** The parser stores the value of a number exactly when its three parts are longs. */
  lemma DoubleStoredExact(n: NumberText)
    requires Digits(n.digits) && Digits(n.fraction) && !Whole(n)
    ensures NumberStored(n) == Double(DoubleValue(n)) <==> DoubleExact(n)
  {
    hide Digits, Decimal, Int64, MantissaStored, ExponentStored, WithSign, IsLong, Power, Scaled, Joined;
    var i, f, d, p := Decimal(n.digits), Decimal(n.fraction), |n.fraction|, Power(n.exponent);
    StoredScaled(n);
    DecimalSum(n.digits, n.fraction);
    DecimalBound(n.digits);
    DecimalBound(n.fraction);
    SameSize(n.neg, Scaled(Joined(Int64(i), d, Int64(f)), Int64(p) - d), Scaled(Joined(i, d, f), p - d));
    PartsExact(i, f, d, p);
  }

  lemma PartsExact(i: nat, f: nat, d: nat, p: int)
    requires f < TenTo(d)
    ensures Scaled(Joined(Int64(i), d, Int64(f)), Int64(p) - d) == Scaled(Joined(i, d, f), p - d)
      <==> IsLong(i) && IsLong(f) && (IsLong(p) || Joined(i, d, f) == 0)
  {
    var k := PowerWrapped(p);
    hide Int64, TenTo, Scaled, Joined, IsLong;
    var x, y, a, b := Joined(Int64(i), d, Int64(f)), Joined(i, d, f), Int64(p) - d, p - d;
    if y == 0 {
      AllZero(i, f, d);
      NothingScaled(a, b);
    } else if k == 0 {
      SamePower(x, y, a);
      SameDigits(i, f, d);
    } else if k > 0 {
      ScaledEqual(x, a, y, b - a);
      if x == y * TenTo(b - a) { NoPowerUp(i, f, d, b - a); }
      NotNothing(i, f, d);
    } else {
      ScaledEqual(y, b, x, a - b);
      if x * TenTo(a - b) == y { NoLargePower(i, f, d, a - b); }
      NotNothing(i, f, d);
    }
  }

  lemma NothingScaled(a: int, b: int)
    ensures Scaled(0, a) == Scaled(0, b)
  {
  }

  lemma NotNothing(i: nat, f: nat, d: nat)
    requires Joined(i, d, f) != 0
    ensures i != 0 || f != 0
  {
  }

  lemma PowerWrapped(p: int) returns (k: int)
    ensures p == Int64(p) + k * TWO64 && (k == 0 <==> IsLong(p))
  {
    k := (p - Int64(p)) / TWO64;
    assert p - Int64(p) == TWO64 * k;
  }

  lemma SamePower(x: int, y: int, a: int)
    ensures Scaled(x, a) == Scaled(y, a) <==> x == y
  {
    Cancel(Pow10(a), x, y);
  }

  lemma AllZero(i: nat, f: nat, d: nat)
    requires Joined(i, d, f) == 0
    ensures i == 0 && f == 0 && IsLong(i) && IsLong(f) && Joined(Int64(i), d, Int64(f)) == 0
  {
    Grows(TenTo(d), 0, i);
  }
}
