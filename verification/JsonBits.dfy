/** The masks and shifts that turn the two bytes of a code into UTF-8 (src/json.c:293-294, 303-305). */
module JsonBits {
  function Lead2(b1: bv8, b2: bv8): bv8 { 0xC0 | ((b2 & 0xC0) >> 6) | ((b1 & 0x7) << 2) }
  function Lead3(b1: bv8): bv8 { 0xE0 | ((b1 & 0xF0) >> 4) }
  function Middle(b1: bv8, b2: bv8): bv8 { 0x80 | ((b1 & 0xF) << 2) | ((b2 & 0xC0) >> 6) }
  function Tail(b2: bv8): bv8 { 0x80 | (b2 & 0x3F) }

  lemma TailSum(y: bv8)
    ensures Tail(y) as int == 0x80 + y as int % 64
  {
  }

  lemma Lead2Sum(x: bv8, y: bv8)
    requires x < 8
    ensures Lead2(x, y) as int == 0xC0 + y as int / 64 + x as int % 8 * 4
  {
  }

  lemma Lead3Sum(x: bv8)
    ensures Lead3(x) as int == 0xE0 + x as int / 16
  {
  }

  lemma MiddleBits(x: bv8, y: bv8)
    ensures Middle(x, y) as int == 0x80 + (y / 64) as int + (x % 16) as int * 4
  {
  }

  lemma Low4(x: bv8)
    ensures (x % 16) as int == x as int % 16
  {
  }

  lemma High2(x: bv8)
    ensures (x / 64) as int == x as int / 64
  {
  }

  lemma SameByte(b: int)
    requires 0 <= b < 256
    ensures b as bv8 as int == b
  {
    assert b % 256 == b;
  }

  lemma SmallByte(b: int)
    requires 0 <= b < 8
    ensures b as bv8 < 8
  {
  }

  /** Masking and shifting the two bytes of a code, as sums. */
  lemma EncodedBits(b1: int, b2: int)
    requires 0 <= b1 < 256 && 0 <= b2 < 256
    ensures b1 < 8 ==> Lead2(b1 as bv8, b2 as bv8) as int == 0xC0 + b2 / 64 + b1 % 8 * 4
    ensures Lead3(b1 as bv8) as int == 0xE0 + b1 / 16 && Tail(b2 as bv8) as int == 0x80 + b2 % 64
    ensures Middle(b1 as bv8, b2 as bv8) as int == 0x80 + b1 % 16 * 4 + b2 / 64
  {
    hide Lead2, Lead3, Middle, Tail;
    SameByte(b1);
    SameByte(b2);
    var x, y := b1 as bv8, b2 as bv8;
    TailSum(y);
    Lead3Sum(x);
    if b1 < 8 {
      SmallByte(b1);
      Lead2Sum(x, y);
    }
    MiddleBits(x, y);
    Low4(x);
    High2(y);
  }

  // As above, as bytes.
  function Encoded2(b1: int, b2: int): (r: (int, int))
    requires 0 <= b1 < 8 && 0 <= b2 < 256
    ensures r == (0xC0 + b2 / 64 + b1 % 8 * 4, 0x80 + b2 % 64)
  {
    EncodedBits(b1, b2);
    (Lead2(b1 as bv8, b2 as bv8) as int, Tail(b2 as bv8) as int)
  }

  function Encoded3(b1: int, b2: int): (r: (int, int, int))
    requires 0 <= b1 < 256 && 0 <= b2 < 256
    ensures r == (0xE0 + b1 / 16, 0x80 + b1 % 16 * 4 + b2 / 64, 0x80 + b2 % 64)
  {
    EncodedBits(b1, b2);
    (Lead3(b1 as bv8) as int, Middle(b1 as bv8, b2 as bv8) as int, Tail(b2 as bv8) as int)
  }
}
