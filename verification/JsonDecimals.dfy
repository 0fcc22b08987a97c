/** The arithmetic by which a number with a fraction or an exponent is computed, over the reals. */
module JsonDecimals {
  /** Ten to the power of `k`, which may be negative. */
  function Pow10(k: int): (r: real)
    ensures r > 0.0
    decreases if k < 0 then -k else k
  {
    if k == 0 then 1.0 else if k > 0 then 10.0 * Pow10(k - 1) else Pow10(k + 1) / 10.0
  }

  /** A fraction of so many digits is added (src/json.c:635). */
  function AddFraction(x: real, fraction: int, digits: int): real { x + fraction as real / Pow10(digits) }

  /** An exponent is applied (src/json.c:661). */
  function Scale(x: real, k: int): real { x * Pow10(k) }

  /** The powers of ten that are integers. */
  function TenTo(n: nat): (r: nat)
    ensures r > 0
  {
    if n == 0 then 1 else 10 * TenTo(n - 1)
  }

  lemma {:induction false} TenToSum(a: nat, b: nat)
    ensures TenTo(a + b) == TenTo(a) * TenTo(b)
  {
    if a > 0 {
      TenToSum(a - 1, b);
      assert 10 * TenTo(a - 1) * TenTo(b) == 10 * (TenTo(a - 1) * TenTo(b));
    }
  }

  lemma PowStep(k: int)
    ensures Pow10(k + 1) == 10.0 * Pow10(k)
  {
  }

  lemma {:induction false} PowSum(k: int, n: nat)
    ensures Pow10(k + n) == Pow10(k) * TenTo(n) as real
  {
    hide Pow10;
    if n > 0 {
      PowSum(k, n - 1);
      PowStep(k + (n - 1));
      Regroup(Pow10(k), TenTo(n - 1));
    }
  }

  lemma Regroup(p: real, t: nat)
    ensures 10.0 * (p * t as real) == p * (10 * t) as real
  {
    assert (10 * t) as real == 10.0 * t as real;
  }

  lemma Cancel(p: real, x: int, y: int)
    requires p > 0.0
    ensures x as real * p == y as real * p <==> x == y
  {
    if x as real * p == y as real * p {
      assert (x as real - y as real) * p == 0.0;
    }
  }

  /** The integer `x` times ten to the power of `k`. */
  function Scaled(x: int, k: int): real { x as real * Pow10(k) }

  /** The digits of an integer, and `d` more behind. */
  function Joined(x: int, d: nat, f: int): int { x * TenTo(d) + f }

  /** When two numbers in powers of ten are equal. */
  lemma ScaledEqual(x: int, a: int, y: int, n: nat)
    ensures Scaled(x, a) == Scaled(y, a + n) <==> x == y * TenTo(n)
  {
    hide Pow10, TenTo;
    PowSum(a, n);
    var t, p := TenTo(n), Pow10(a);
    assert y as real * (p * t as real) == (y * t) as real * p by {
      assert (y * t) as real == y as real * t as real;
    }
    Cancel(p, x, y * t);
  }

  /** A fraction added, and the whole scaled. */
  lemma FractionScaled(x: int, f: int, d: nat, k: int)
    ensures Scale(AddFraction(x as real, f, d), k) == Scaled(Joined(x, d, f), k - d)
  {
    PowersOf(d, k);
    hide Pow10, TenTo;
    ScaledSum(x, f, TenTo(d), Pow10(k - d));
  }

  lemma PowersOf(d: nat, k: int)
    ensures Pow10(d) == TenTo(d) as real && Pow10(k) == Pow10(k - d) * TenTo(d) as real
  {
    PowSum(0, d);
    PowSum(k - d, d);
    assert Pow10(0) == 1.0 && 0 + d == d && k - d + d == k;
    hide Pow10, TenTo;
  }

  lemma ScaledSum(x: int, f: int, t: nat, p: real)
    requires t > 0
    ensures (x as real + f as real / t as real) * (p * t as real) == (x * t + f) as real * p
  {
    var q := f as real / t as real;
    assert q * t as real == f as real;
    assert (x * t) as real == x as real * t as real;
    assert (x as real + q) * t as real == (x * t + f) as real;
    assert (x as real + q) * (p * t as real) == ((x as real + q) * t as real) * p;
  }
}
