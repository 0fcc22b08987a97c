/** Three bytes as four six-bit numbers and back, by the masks and shifts of src/bstring/bstraux.c. */
module SextetBits {
  // bBase64Encode, lines 322-327: only the low byte matters under the masks.
  function E0(a: bv8): bv8 { a >> 2 }
  function E1(a: bv8, b: bv8): bv8 { ((a << 4) | (b >> 4)) & 0x3F }
  function E2(b: bv8, c: bv8): bv8 { ((b << 2) | (c >> 6)) & 0x3F }
  function E3(c: bv8): bv8 { c & 0x3F }

  // bBase64DecodeEx and bUuDecLine, lines 416-481 and 537-561.
  function D0(v: bv8, w: bv8): bv8 { (v << 2) | (w >> 4) }
  function D1(v: bv8, w: bv8): bv8 { (v << 4) | (w >> 2) }
  function D2(v: bv8, w: bv8): bv8 { (v << 6) | w }

  lemma E0Sum(a: bv8)
    ensures E0(a) as int == a as int / 4
  {
  }

  lemma E1Bits(a: bv8, b: bv8)
    ensures E1(a, b) as int == (a % 4) as int * 16 + (b / 16) as int
  {
  }

  lemma E2Bits(b: bv8, c: bv8)
    ensures E2(b, c) as int == (b % 16) as int * 4 + (c / 64) as int
  {
  }

  lemma E3Bits(c: bv8)
    ensures E3(c) as int == (c % 64) as int
  {
  }

  lemma D0Bits(v: bv8, w: bv8)
    requires v < 64 && w < 64
    ensures D0(v, w) as int == v as int * 4 + (w / 16) as int
  {
  }

  lemma D1Bits(v: bv8, w: bv8)
    requires w < 64
    ensures D1(v, w) as int == (v % 16) as int * 16 + (w / 4) as int
  {
  }

  lemma D2Bits(v: bv8, w: bv8)
    requires w < 64
    ensures D2(v, w) as int == (v % 4) as int * 64 + w as int
  {
  }

  lemma Low2(x: bv8)
    ensures (x % 4) as int == x as int % 4
  {
  }

  lemma Low4(x: bv8)
    ensures (x % 16) as int == x as int % 16
  {
  }

  lemma Low6(x: bv8)
    ensures (x % 64) as int == x as int % 64
  {
  }

  lemma High2(x: bv8)
    ensures (x / 64) as int == x as int / 64
  {
  }

  lemma High4(x: bv8)
    ensures (x / 16) as int == x as int / 16
  {
  }

  lemma High6(x: bv8)
    ensures (x / 4) as int == x as int / 4
  {
  }

  lemma SameByte(b: int)
    requires 0 <= b < 256
    ensures b as bv8 as int == b
  {
    assert b % 256 == b;
  }

  lemma SmallByte(b: int)
    requires 0 <= b < 64
    ensures b as bv8 < 64
  {
  }

  /** Four six-bit numbers. */
  datatype Sextets = Sextets(s0: int, s1: int, s2: int, s3: int)

  /** The number that three bytes or four sextets make up. */
  function Number24(a: int, b: int, c: int): int { a * 65536 + b * 256 + c }
  function Number(s: Sextets): int { s.s0 * 262144 + s.s1 * 4096 + s.s2 * 64 + s.s3 }

  predicate Sixes(s: Sextets) { 0 <= s.s0 < 64 && 0 <= s.s1 < 64 && 0 <= s.s2 < 64 && 0 <= s.s3 < 64 }

  /** The sextets of three bytes. */
  function Split(a: int, b: int, c: int): (s: Sextets)
    requires 0 <= a < 256 && 0 <= b < 256 && 0 <= c < 256
    ensures s == Sextets(a / 4, a % 4 * 16 + b / 16, b % 16 * 4 + c / 64, c % 64)
  {
    SplitSums(a, b, c);
    Sextets(E0(a as bv8) as int, E1(a as bv8, b as bv8) as int, E2(b as bv8, c as bv8) as int, E3(c as bv8) as int)
  }

  /** Encoding writes the same 24 bits in groups of six. */
  lemma SplitNumber(a: int, b: int, c: int)
    requires 0 <= a < 256 && 0 <= b < 256 && 0 <= c < 256
    ensures Sixes(Split(a, b, c)) && Number(Split(a, b, c)) == Number24(a, b, c)
  {
    hide Split;
  }

  lemma SplitSums(a: int, b: int, c: int)
    requires 0 <= a < 256 && 0 <= b < 256 && 0 <= c < 256
    ensures E0(a as bv8) as int == a / 4 && E1(a as bv8, b as bv8) as int == a % 4 * 16 + b / 16
    ensures E2(b as bv8, c as bv8) as int == b % 16 * 4 + c / 64 && E3(c as bv8) as int == c % 64
  {
    hide E0, E1, E2, E3;
    SameByte(a);
    SameByte(b);
    SameByte(c);
    var x, y, z := a as bv8, b as bv8, c as bv8;
    E0Sum(x);
    E1Bits(x, y);
    Low2(x);
    High4(y);
    E2Bits(y, z);
    Low4(y);
    High2(z);
    E3Bits(z);
    Low6(z);
  }

  datatype Octets = Octets(o0: int, o1: int, o2: int)

  /** The bytes of four sextets. */
  function Join(s: Sextets): (o: Octets)
    requires Sixes(s)
    ensures o == Octets(s.s0 * 4 + s.s1 / 16, s.s1 % 16 * 16 + s.s2 / 4, s.s2 % 4 * 64 + s.s3)
  {
    JoinSums(s);
    var v0, v1, v2, v3 := s.s0 as bv8, s.s1 as bv8, s.s2 as bv8, s.s3 as bv8;
    Octets(D0(v0, v1) as int, D1(v1, v2) as int, D2(v2, v3) as int)
  }

  /** Decoding reads the same 24 bits in groups of eight. */
  lemma JoinNumber(s: Sextets)
    requires Sixes(s)
    ensures var o := Join(s);
      0 <= o.o0 < 256 && 0 <= o.o1 < 256 && 0 <= o.o2 < 256 && Number24(o.o0, o.o1, o.o2) == Number(s)
  {
    hide Join;
  }

  lemma JoinSums(s: Sextets)
    requires Sixes(s)
    ensures D0(s.s0 as bv8, s.s1 as bv8) as int == s.s0 * 4 + s.s1 / 16
    ensures D1(s.s1 as bv8, s.s2 as bv8) as int == s.s1 % 16 * 16 + s.s2 / 4
    ensures D2(s.s2 as bv8, s.s3 as bv8) as int == s.s2 % 4 * 64 + s.s3
  {
    hide D0, D1, D2;
    SameByte(s.s0);
    SameByte(s.s1);
    SameByte(s.s2);
    SameByte(s.s3);
    SmallByte(s.s0);
    SmallByte(s.s1);
    SmallByte(s.s2);
    SmallByte(s.s3);
    D0Bits(s.s0 as bv8, s.s1 as bv8);
    High4(s.s1 as bv8);
    D1Bits(s.s1 as bv8, s.s2 as bv8);
    Low4(s.s1 as bv8);
    High6(s.s2 as bv8);
    D2Bits(s.s2 as bv8, s.s3 as bv8);
    Low2(s.s2 as bv8);
  }

  /** Three bytes are determined by the number that they make up. */
  lemma NumberUnique(a: int, b: int, c: int, o: Octets)
    requires 0 <= a < 256 && 0 <= b < 256 && 0 <= c < 256
    requires 0 <= o.o0 < 256 && 0 <= o.o1 < 256 && 0 <= o.o2 < 256 && Number24(o.o0, o.o1, o.o2) == Number24(a, b, c)
    ensures o == Octets(a, b, c)
  {
  }

  /** What was split is joined again. */
  lemma JoinSplit(a: int, b: int, c: int)
    requires 0 <= a < 256 && 0 <= b < 256 && 0 <= c < 256
    ensures Sixes(Split(a, b, c)) && Join(Split(a, b, c)) == Octets(a, b, c)
  {
    hide Split, Join;
    SplitNumber(a, b, c);
    JoinNumber(Split(a, b, c));
    NumberUnique(a, b, c, Join(Split(a, b, c)));
  }

  /** The padded group of two bytes or of one gives these bytes back, whatever its other sextets are. */
  lemma JoinPadded(a: int, b: int, s: Sextets)
    requires 0 <= a < 256 && 0 <= b < 256 && Sixes(s)
    requires s.s0 == Split(a, b, 0).s0 && s.s1 == Split(a, b, 0).s1
    ensures Join(s).o0 == a && (s.s2 == Split(a, b, 0).s2 ==> Join(s).o1 == b)
  {
    hide Split, Join;
  }
}
