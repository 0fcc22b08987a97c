/** Unsigned words as numbers, on which the shifts and the bitwise or go bit by bit. */
module WordBits {
  function Pow2(k: nat): (r: nat)
    ensures r > 0
  {
    if k == 0 then 1 else 2 * Pow2(k - 1)
  }

  /** x >> k */
  function Shr(x: nat, k: nat): (r: nat)
    ensures r <= x
  {
    if k == 0 then x else Shr(x / 2, k - 1)
  }

  /** x | y */
  function Or(x: nat, y: nat): nat {
    if x == 0 && y == 0 then 0 else (if x % 2 == 1 || y % 2 == 1 then 1 else 0) + 2 * Or(x / 2, y / 2)
  }

  /** The shifts that set every bit below the highest one (src/bstring/bstrlib.c:78-87). */
  function Smear(x: nat): nat {
    var a := Or(x, Shr(x, 1));
    var b := Or(a, Shr(a, 2));
    var c := Or(b, Shr(b, 4));
    var d := Or(c, Shr(c, 8));
    Or(d, Shr(d, 16))
  }

  /** How many bits it takes to write `x`. */
  ghost function Length(x: nat): nat { if x == 0 then 0 else 1 + Length(x / 2) }

  ghost predicate AllOnes(x: nat) { x == 0 || (x % 2 == 1 && AllOnes(x / 2)) }

  /** The `m` highest bits are set, or all bits when there are no more than that. */
  ghost predicate TopOnes(x: nat, m: nat) { if Length(x) <= m then AllOnes(x) else TopOnes(x / 2, m) }

  lemma {:induction false} LengthBounds(x: nat)
    ensures x < Pow2(Length(x)) && (x > 0 ==> Length(x) > 0 && Pow2(Length(x) - 1) <= x)
  {
    if x > 0 { LengthBounds(x / 2); }
  }

  lemma {:induction false} LengthWithin(x: nat, k: nat)
    requires x < Pow2(k)
    ensures Length(x) <= k
  {
    if x > 0 { LengthWithin(x / 2, k - 1); }
  }

  lemma {:induction false} AllOnesIs(x: nat)
    requires AllOnes(x)
    ensures x + 1 == Pow2(Length(x))
  {
    if x > 0 { AllOnesIs(x / 2); }
  }

  lemma {:induction false} ShrHalf(x: nat, m: nat)
    ensures Shr(x, m) / 2 == Shr(x / 2, m)
  {
    if m > 0 { ShrHalf(x / 2, m - 1); }
  }

  lemma {:induction false} ShrLength(x: nat, m: nat)
    ensures Length(Shr(x, m)) == if Length(x) <= m then 0 else Length(x) - m
  {
    if m > 0 { ShrLength(x / 2, m - 1); }
  }

  lemma {:induction false} ShrAllOnes(x: nat, m: nat)
    requires AllOnes(x)
    ensures AllOnes(Shr(x, m))
  {
    if m > 0 { ShrAllOnes(x / 2, m - 1); }
  }

  lemma {:induction false} OrLength(x: nat, y: nat)
    requires y <= x
    ensures Length(Or(x, y)) == Length(x)
  {
    if x > 0 { OrLength(x / 2, y / 2); }
  }

  lemma {:induction false} OrNothing(x: nat)
    ensures Or(x, 0) == x
  {
    if x > 0 { OrNothing(x / 2); }
  }

  lemma {:induction false} UpperOnes(x: nat, m: nat, s: nat)
    requires TopOnes(x, m) && Length(x) <= m + s
    ensures AllOnes(Shr(x, s))
  {
    if Length(x) <= m { ShrAllOnes(x, s); } else { UpperOnes(x / 2, m, s - 1); }
  }

  /** A word or-ed with itself `m` bits lower has twice as many bits set at its top. */
  lemma {:induction false} OrDoubles(x: nat, m: nat)
    requires TopOnes(x, m)
    ensures TopOnes(Or(x, Shr(x, m)), 2 * m) && Length(Or(x, Shr(x, m))) == Length(x)
  {
    OrLength(x, Shr(x, m));
    ShrLength(x, m);
    if Length(x) <= m {
      OrNothing(x);
    } else {
      OrDoubles(x / 2, m);
      ShrHalf(x, m);
      if Length(x) <= 2 * m { UpperOnes(x, m, m); }
    }
  }

  lemma {:induction false} HighestSet(x: nat)
    ensures TopOnes(x, 1)
  {
    if x > 1 { HighestSet(x / 2); }
  }

  lemma {:induction false} PowersTimes(j: nat, k: nat)
    ensures Pow2(j + k) == Pow2(j) * Pow2(k)
  {
    if j > 0 {
      PowersTimes(j - 1, k);
      assert 2 * Pow2(j - 1) * Pow2(k) == 2 * (Pow2(j - 1) * Pow2(k));
    }
  }

  lemma Pow2Values()
    ensures Pow2(30) == 0x4000_0000 && Pow2(32) == 0x1_0000_0000
  {
    assert Pow2(8) == 0x100 && Pow2(6) == 0x40;
    PowersTimes(8, 8);
    PowersTimes(8, 16);
    PowersTimes(6, 24);
    PowersTimes(8, 24);
  }

  /** The smeared word is one less than the least power of two above `x`. */
  lemma SmearPowerOfTwo(x: nat)
    requires x < 0x1_0000_0000
    ensures Smear(x) + 1 == Pow2(Length(x)) && x <= Smear(x) && (x > 0 ==> (Smear(x) + 1) / 2 <= x)
  {
    hide Or, Shr, Length, TopOnes, AllOnes;
    HighestSet(x);
    OrDoubles(x, 1);
    var a := Or(x, Shr(x, 1));
    OrDoubles(a, 2);
    var b := Or(a, Shr(a, 2));
    OrDoubles(b, 4);
    var c := Or(b, Shr(b, 4));
    OrDoubles(c, 8);
    var d := Or(c, Shr(c, 8));
    OrDoubles(d, 16);
    WordLength(x);
    AllSet(Smear(x));
    LengthBounds(x);
  }

  lemma WordLength(x: nat)
    requires x < 0x1_0000_0000
    ensures Length(x) <= 32
  {
    Pow2Values();
    LengthWithin(x, 32);
  }

  lemma AllSet(x: nat)
    requires TopOnes(x, 32) && Length(x) <= 32
    ensures x + 1 == Pow2(Length(x))
  {
    AllOnesIs(x);
  }

  /** No power of two lies between. */
  lemma {:induction false} PowersApart(k: nat, j: nat)
    requires k > 0 && Pow2(k - 1) < Pow2(j)
    ensures Pow2(k) <= Pow2(j)
  {
    if j < k { PowersGrow(j, k - 1); } else { PowersGrow(k, j); }
  }

  lemma {:induction false} PowersGrow(j: nat, k: nat)
    requires j <= k
    ensures Pow2(j) <= Pow2(k)
  {
    if j < k { PowersGrow(j, k - 1); }
  }
}
