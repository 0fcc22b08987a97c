/**
 * The texts that json_parse_ex accepts with default settings (src/json.c:193-738), as a recursive
 * grammar: besides JSON it takes a comma before a closing bracket, any escaped byte, and `-` alone.
 */
module JsonGrammar {
  import opened BStrings
  import opened JsonDecimals

  /** A value. A container also stands for one that is still open: then it may have a key too many. */
  datatype Json =
    | Null
    | Bool(b: bool)
    | Int(n: int)
    | Double(value: real)
    | Str(s: seq<Byte>)
    | Box(obj: bool, keys: seq<seq<Byte>>, items: seq<Json>)

  datatype Result<T> = Ok(value: T, next: int) | Fail

  type Text = seq<Byte>

  const QUOTE: Byte := 34
  const COMMA: Byte := 44
  const MINUS: Byte := 45
  const COLON: Byte := 58
  const BACKSLASH: Byte := 92

  // Lengths above this are refused (state.uint_max).
  const UINT_MAX := 0xFFFF_FFFF - 8

  const LONG_MAX := 0x7FFF_FFFF_FFFF_FFFF
  const LONG_MIN := -0x8000_0000_0000_0000
  const TWO64 := 0x1_0000_0000_0000_0000

  /** The value of a 64-bit long after wrap-around. */
  function Int64(x: int): (r: int)
    ensures LONG_MIN <= r <= LONG_MAX && (r == x <==> LONG_MIN <= x <= LONG_MAX) && (x - r) % TWO64 == 0
  {
    (x - LONG_MIN) % TWO64 + LONG_MIN
  }

  lemma Int64Same(x: int, k: int)
    ensures Int64(x + k * TWO64) == Int64(x)
  {
    var q := (x - LONG_MIN) / TWO64;
    assert x - LONG_MIN == q * TWO64 + (x - LONG_MIN) % TWO64;
    assert x + k * TWO64 - LONG_MIN == (q + k) * TWO64 + (x - LONG_MIN) % TWO64;
  }

  /** Wrapping around in between makes no difference. */
  lemma Int64Digit(x: int, d: int)
    ensures Int64(Int64(x) * 10 + d) == Int64(x * 10 + d)
  {
    var q := (x - LONG_MIN) / TWO64;
    assert x == Int64(x) + q * TWO64;
    Int64Same(Int64(x) * 10 + d, 10 * q);
  }

  lemma Int64Minus(x: int)
    ensures Int64(-Int64(x)) == Int64(-x)
  {
    var q := (x - LONG_MIN) / TWO64;
    assert x == Int64(x) + q * TWO64;
    Int64Same(-Int64(x), -q);
  }

  predicate IsSpace(b: Byte) { b == 10 || b == 32 || b == 9 || b == 13 }
  predicate IsDigit(b: Byte) { 48 <= b <= 57 }

  /** A C string: the terminator is the last byte and there is no other. */
  ghost predicate Terminated(t: Text) {
    t != [] && forall k :: 0 <= k < |t| ==> (t[k] == 0 <==> k == |t| - 1)
  }

  // The first byte that is not white space, from `i` on, is a closing bracket.
  ghost predicate Bracketed(t: Text, i: int)
    requires 0 <= i
    decreases |t| - i
  {
    i < |t| && (t[i] == 93 || (IsSpace(t[i]) && Bracketed(t, i + 1)))
  }

  /** hex_value, src/json.c:53-65. */
  function HexValue(c: Byte): (r: int)
    ensures 0 <= r < 16 || r == 0xFF
  {
    if 65 <= c <= 70 then c - 65 + 10
    else if 97 <= c <= 102 then c - 97 + 10
    else if 48 <= c <= 57 then c - 48
    else 0xFF
  }

  /** Four hexadecimal digits, or Fail. */
  function HexWord(t: Text, i: int): (r: Result<int>)
    requires 0 <= i
    ensures r.Ok? ==> 0 <= r.value < 0x1_0000 && r.next == i + 4 <= |t|
  {
    if i + 4 > |t| then Fail else
      var a, b, c, d := HexValue(t[i]), HexValue(t[i + 1]), HexValue(t[i + 2]), HexValue(t[i + 3]);
      if a == 0xFF || b == 0xFF || c == 0xFF || d == 0xFF then Fail else Ok(((a * 16 + b) * 16 + c) * 16 + d, i + 4)
  }

  /** The UTF-8 bytes of a 16-bit code; surrogates are not paired. */
  function Utf8(u: int): (r: seq<Byte>)
    requires 0 <= u < 0x1_0000
    ensures 1 <= |r| <= 3
  {
    if u <= 0x7F then [u]
    else if u <= 0x7FF then [0xC0 + u / 64, 0x80 + u % 64]
    else [0xE0 + u / 4096, 0x80 + u / 64 % 64, 0x80 + u % 64]
  }

  function Escape(b: Byte): Byte {
    if b == 98 then 8 else if b == 102 then 12 else if b == 110 then 10 else if b == 114 then 13 else if b == 116 then 9
      else b
  }

  /** The rest of a string, of which `acc` was read; `esc` after a backslash. */
  function StringFrom(t: Text, i: int, acc: seq<Byte>, esc: bool): (r: Result<seq<Byte>>)
    requires 0 <= i
    ensures r.Ok? ==> i < r.next <= |t| && acc <= r.value
    decreases |t| - i
  {
    if i >= |t| || t[i] == 0 || |acc| > UINT_MAX then Fail
    else if esc && t[i] == 117 then
      var u := HexWord(t, i + 1);
      if u.Fail? then Fail else StringFrom(t, i + 5, acc + Utf8(u.value), false)
    else if esc then StringFrom(t, i + 1, acc + [Escape(t[i])], false)
    else if t[i] == BACKSLASH then StringFrom(t, i + 1, acc, true)
    else if t[i] == QUOTE then Ok(acc, i + 1)
    else StringFrom(t, i + 1, acc + [t[i]], false)
  }

  /** What was read of a number: the value so far as an integer and as a double, the locals num_digits, num_fraction
      and num_e, and the flags flag_num_negative, _zero, _e, _e_got_sign and _e_negative. */
  datatype Number = Number(neg: bool, mag: int, value: real, digits: nat, fraction: int, power: int, zero: bool,
                           double: bool, e: bool, sign: bool, down: bool)

  function WithSign(neg: bool, x: real): real { if neg then -x else x }

  /** The exponent that was read. */
  function PowerOf(n: Number): int { if n.down then Int64(-n.power) else n.power }

  /** The value up to the exponent. */
  function ValueSoFar(n: Number): real {
    if n.double then AddFraction(n.value, n.fraction, n.digits) else n.mag as real
  }

  datatype NumStep = More(n: Number) | End(v: Json) | Bad

  function NumValue(n: Number): Json {
    if n.double then Double(WithSign(n.neg, if n.e then Scale(n.value, PowerOf(n)) else ValueSoFar(n)))
    else Int(if n.neg then Int64(-n.mag) else n.mag)
  }

  /** One byte of a number (src/json.c:566-673). */
  function NumNext(n: Number, b: Byte): NumStep {
    if IsDigit(b) then
      var m := n.(digits := n.digits + 1);
      if n.e then More(m.(sign := true, power := Int64(n.power * 10 + (b - 48))))
      else if n.double then More(m.(fraction := Int64(n.fraction * 10 + (b - 48))))
      else if n.zero then Bad
      else More(m.(zero := m.digits == 1 && b == 48, mag := Int64(n.mag * 10 + (b - 48))))
    else if (b == 43 || b == MINUS) && n.e && !n.sign then More(n.(sign := true, down := b == MINUS))
    else if b == 46 && !n.double then
      if n.digits == 0 then Bad else More(n.(double := true, digits := 0, value := n.mag as real))
    else if !n.e && n.double && n.digits == 0 then Bad
    else if !n.e && (b == 101 || b == 69) then
      More(n.(e := true, double := true, digits := 0, zero := false, value := ValueSoFar(n)))
    else if n.e && n.digits == 0 then Bad
    else End(NumValue(n))
  }

  predicate NumByte(b: Byte) {
    IsDigit(b) || b == 43 || b == MINUS || b == 101 || b == 69 || b == 46
  }

  function NumberFrom(t: Text, i: int, n: Number): (r: Result<Json>)
    requires 0 <= i
    ensures r.Ok? ==> i <= r.next < |t|
    decreases |t| - i
  {
    if i >= |t| then Fail else
      match NumNext(n, t[i])
      case Bad => Fail
      case End(v) => Ok(v, i)
      case More(m) => NumberFrom(t, i + 1, m)
  }

  const START := Number(false, 0, 0.0, 0, 0, 0, false, false, false, false, false)

  function StartsWith(t: Text, i: int, w: seq<Byte>): bool
    requires 0 <= i
  {
    i + |w| <= |t| && t[i..i + |w|] == w
  }

  const TRUE: seq<Byte> := [116, 114, 117, 101]
  const FALSE: seq<Byte> := [102, 97, 108, 115, 101]
  const NULL: seq<Byte> := [110, 117, 108, 108]

  /** A value, after white space. */
  function Value(t: Text, i: int): (r: Result<Json>)
    requires 0 <= i
    ensures r.Ok? ==> i < r.next <= |t|
    decreases |t| - i, 1
  {
    if i >= |t| then Fail
    else if IsSpace(t[i]) then Value(t, i + 1)
    else if t[i] == 123 then Members(t, i + 1, [], [], false)
    else if t[i] == 91 then Elements(t, i + 1, [], false)
    else if t[i] == QUOTE then
      var s := StringFrom(t, i + 1, [], false);
      if s.Fail? then Fail else Ok(Str(s.value), s.next)
    else if t[i] == 116 then (if StartsWith(t, i, TRUE) then Ok(Bool(true), i + 4) else Fail)
    else if t[i] == 102 then (if StartsWith(t, i, FALSE) then Ok(Bool(false), i + 5) else Fail)
    else if t[i] == 110 then (if StartsWith(t, i, NULL) then Ok(Null, i + 4) else Fail)
    else if t[i] == MINUS then NumberFrom(t, i + 1, START.(neg := true))
    else if IsDigit(t[i]) then
      (match NumNext(START, t[i]) case More(m) => NumberFrom(t, i + 1, m) case _ => Fail)
    else Fail
  }

  /** The rest of an array that holds `items`; `comma` after an element. */
  function Elements(t: Text, i: int, items: seq<Json>, comma: bool): (r: Result<Json>)
    requires 0 <= i
    ensures r.Ok? ==> i < r.next <= |t| && r.value.Box? && !r.value.obj && r.value.keys == [] && items <= r.value.items
    decreases |t| - i, 2
  {
    if i >= |t| then Fail
    else if IsSpace(t[i]) then Elements(t, i + 1, items, comma)
    else if t[i] == 93 then Ok(Box(false, [], items), i + 1)
    else if comma then (if t[i] == COMMA then Elements(t, i + 1, items, false) else Fail)
    else
      var v := Value(t, i);
      if v.Fail? || |items| + 1 > UINT_MAX then Fail else Elements(t, v.next, items + [v.value], true)
  }

  /** The rest of an object. */
  function Members(t: Text, i: int, keys: seq<seq<Byte>>, items: seq<Json>, comma: bool): (r: Result<Json>)
    requires 0 <= i && |keys| == |items|
    ensures r.Ok? ==> i < r.next <= |t| && r.value.Box? && r.value.obj && |r.value.keys| == |r.value.items|
    ensures r.Ok? ==> keys <= r.value.keys && items <= r.value.items
    decreases |t| - i, 2
  {
    if i >= |t| then Fail
    else if IsSpace(t[i]) then Members(t, i + 1, keys, items, comma)
    else if t[i] == 125 then Ok(Box(true, keys, items), i + 1)
    else if t[i] == COMMA && comma then Members(t, i + 1, keys, items, false)
    else if t[i] == QUOTE && !comma then
      var s := StringFrom(t, i + 1, [], false);
      if s.Fail? then Fail else
        var v := ColonValue(t, s.next, true);
        if v.Fail? || |items| + 1 > UINT_MAX then Fail
          else Members(t, v.next, keys + [s.value], items + [v.value], true)
    else Fail
  }

  /** A value after its colon. */
  function ColonValue(t: Text, i: int, colon: bool): (r: Result<Json>)
    requires 0 <= i
    ensures r.Ok? ==> i < r.next <= |t|
    decreases |t| - i, 2
  {
    if i >= |t| then Fail
    else if IsSpace(t[i]) then ColonValue(t, i + 1, colon)
    else if colon then (if t[i] == COLON then ColonValue(t, i + 1, false) else Fail)
    else Value(t, i)
  }

  /** Only white space may follow the value. */
  function Trailing(t: Text, i: int, v: Json): (r: Result<Json>)
    requires 0 <= i
    ensures r.Ok? ==> r.value == v
    decreases |t| - i
  {
    if i >= |t| then Fail
    else if t[i] == 0 then Ok(v, i)
    else if IsSpace(t[i]) then Trailing(t, i + 1, v)
    else Fail
  }

  /** The value that a text denotes. */
  function Document(t: Text): Result<Json> {
    var v := Value(t, 0);
    if v.Fail? then Fail else Trailing(t, v.next, v.value)
  }
}
