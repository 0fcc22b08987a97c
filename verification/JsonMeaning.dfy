/**
 * What a JSON text denotes (sections 5 to 7 of RFC 8259, with the UTF-8 of section 3 of RFC 3629), and
 * exactly when that is the value the parser makes of it.
 */
module JsonMeaning {
  import opened BStrings
  import opened JsonGrammar
  import opened JsonNumbers
  import opened JsonDecimals
  import opened JsonDoubles
  import opened JsonText

  // ---------------------------------------------------------------- UTF-8

  predicate IsPoint(u: int) { 0 <= u < 0x11_0000 }

  function Encode(u: int): (r: seq<Byte>)
    requires IsPoint(u)
    ensures 1 <= |r| <= 4
  {
    if u < 0x80 then [u]
    else if u < 0x800 then [0xC0 + u / 0x40, 0x80 + u % 0x40]
    else if u < 0x1_0000 then [0xE0 + u / 0x1000, 0x80 + u / 0x40 % 0x40, 0x80 + u % 0x40]
    else [0xF0 + u / 0x4_0000, 0x80 + u / 0x1000 % 0x40, 0x80 + u / 0x40 % 0x40, 0x80 + u % 0x40]
  }

  /** The number of bytes that a leading byte announces, or none. */
  function Announced(b: Byte): (n: nat)
    ensures n <= 4
  {
    if b < 0x80 then 1 else if b < 0xC0 then 0 else if b < 0xE0 then 2 else if b < 0xF0 then 3 else if b < 0xF8 then 4
    else 0
  }

  predicate Continues(b: Byte) { 0x80 <= b < 0xC0 }

  function Shift(u: int, b: int): int { u * 0x40 + (b - 0x80) }

  /** The code point at the start of `s`; the shortest form is required. */
  function DecodeFirst(s: seq<Byte>): (r: Result<int>)
    ensures r.Ok? ==> IsPoint(r.value) && 1 <= r.next <= |s|
  {
    if s == [] then Fail else
      var n := Announced(s[0]);
      if n == 0 || n > |s| || !(forall k :: 1 <= k < n ==> Continues(s[k])) then Fail
      else if n == 1 then Ok(s[0], 1)
      else
        var u :=
          if n == 2 then Shift(s[0] - 0xC0, s[1])
          else if n == 3 then Shift(Shift(s[0] - 0xE0, s[1]), s[2])
          else Shift(Shift(Shift(s[0] - 0xF0, s[1]), s[2]), s[3]);
        if IsPoint(u) && u >= Least(n) then Ok(u, n) else Fail
  }

  /** The least code point that needs `n` bytes. */
  function Least(n: nat): int { if n <= 1 then 0 else if n == 2 then 0x80 else if n == 3 then 0x800 else 0x1_0000 }

  /** Decoding undoes encoding, whatever follows. */
  lemma DecodeEncode(u: int, rest: seq<Byte>)
    requires IsPoint(u)
    ensures DecodeFirst(Encode(u) + rest) == Ok(u, |Encode(u)|)
  {
    var s := Encode(u) + rest;
    assert forall k :: 0 <= k < |Encode(u)| ==> s[k] == Encode(u)[k];
    if u >= 0x80 { Digits64(u); }
  }

  lemma Digits64(u: int)
    requires 0 <= u
    ensures u == u / 0x40 * 0x40 + u % 0x40 && u / 0x40 == u / 0x1000 * 0x40 + u / 0x40 % 0x40
    ensures u / 0x1000 == u / 0x4_0000 * 0x40 + u / 0x1000 % 0x40
  {
  }

  function EncodeAll(us: seq<int>): seq<Byte>
    requires forall k :: 0 <= k < |us| ==> IsPoint(us[k])
  {
    if us == [] then [] else Encode(us[0]) + EncodeAll(us[1..])
  }

  function DecodeAll(s: seq<Byte>): Result<seq<int>>
    decreases |s|
  {
    if s == [] then Ok([], 0) else
      var u := DecodeFirst(s);
      if u.Fail? then Fail else
        var r := DecodeAll(s[u.next..]);
        if r.Fail? then Fail else Ok([u.value] + r.value, 0)
  }

  lemma {:induction false} DecodeEncodeAll(us: seq<int>)
    requires forall k :: 0 <= k < |us| ==> IsPoint(us[k])
    ensures DecodeAll(EncodeAll(us)) == Ok(us, 0)
  {
    if us != [] {
      var a, rest := Encode(us[0]), EncodeAll(us[1..]);
      DecodeEncode(us[0], rest);
      DecodeEncodeAll(us[1..]);
      assert (a + rest)[|a|..] == rest;
      assert us == [us[0]] + us[1..];
    }
  }

  // ---------------------------------------------------------------- strings

  const LOWER_HEX: seq<Byte> := [48, 49, 50, 51, 52, 53, 54, 55, 56, 57, 97, 98, 99, 100, 101, 102]
  const UPPER_HEX: seq<Byte> := [48, 49, 50, 51, 52, 53, 54, 55, 56, 57, 65, 66, 67, 68, 69, 70]

  ghost predicate HexDigit(c: Byte, n: int) { 0 <= n < 16 && (c == LOWER_HEX[n] || c == UPPER_HEX[n]) }

  /** Four hexadecimal digits write the number `u`. */
  ghost predicate IsUnit(h: seq<Byte>, u: int) {
    |h| == 4 && exists a, b, c, d ::
      HexDigit(h[0], a) && HexDigit(h[1], b) && HexDigit(h[2], c) && HexDigit(h[3], d)
      && u == a * 4096 + b * 256 + c * 16 + d
  }

  lemma HexDigitRead(c: Byte, n: int)
    ensures HexDigit(c, n) <==> HexValue(c) == n != 0xFF
  {
  }

  lemma UnitRead(h: seq<Byte>, u: int)
    ensures IsUnit(h, u) <==> |h| == 4 && HexWord(h, 0) == Ok(u, 4)
  {
    if |h| == 4 {
      forall k, n | 0 <= k < 4
        ensures HexDigit(h[k], n) <==> HexValue(h[k]) == n != 0xFF
      {
        HexDigitRead(h[k], n);
      }
      hide HexDigit, HexValue;
      if HexWord(h, 0).Ok? {
        var a, b, c, d := HexValue(h[0]), HexValue(h[1]), HexValue(h[2]), HexValue(h[3]);
        assert HexDigit(h[0], a) && HexDigit(h[1], b) && HexDigit(h[2], c) && HexDigit(h[3], d);
      }
    }
  }

  ghost function Unit(h: seq<Byte>): int {
    if exists u :: IsUnit(h, u) then
      var u :| IsUnit(h, u);
      u
    else 0
  }

  lemma UnitIs(h: seq<Byte>)
    requires |h| == 4 && HexWord(h, 0).Ok?
    ensures Unit(h) == HexWord(h, 0).value && 0 <= Unit(h) < 0x1_0000
  {
    var u := HexWord(h, 0).value;
    UnitRead(h, u);
    UnitRead(h, Unit(h));
  }

  const SHORT: map<Byte, Byte> :=
    map[34 := 34, 92 := 92, 47 := 47, 98 := 8, 102 := 12, 110 := 10, 114 := 13, 116 := 9]

  /** The hexadecimal digits, and what the short escapes stand for. */
  lemma EscapeLiterals()
    ensures |LOWER_HEX| == |UPPER_HEX| == 16
    ensures forall k :: 0 <= k < 16 ==> LOWER_HEX[k] as char == "0123456789abcdef"[k]
    ensures forall k :: 0 <= k < 16 ==> UPPER_HEX[k] as char == "0123456789ABCDEF"[k]
    ensures forall c: Byte :: c in SHORT <==> c as char in {'\"', '\\', '/', 'b', 'f', 'n', 'r', 't'}
    ensures SHORT['\"' as int] as char == '\"' && SHORT['\\' as int] as char == '\\' && SHORT['/' as int] as char == '/'
    ensures SHORT['b' as int] == 8 && SHORT['f' as int] == 12 && SHORT['n' as int] as char == '\n'
    ensures SHORT['r' as int] as char == '\r' && SHORT['t' as int] as char == '\t'
  {
  }

  predicate High(u: int) { 0xD800 <= u < 0xDC00 }
  predicate Low(u: int) { 0xDC00 <= u < 0xE000 }

  /** A character beyond the basic plane is written as two escapes. */
  ghost predicate PairFirst(cs: seq<CharText>) {
    |cs| >= 2 && cs[0].Code? && cs[1].Code? && High(Unit(cs[0].h)) && Low(Unit(cs[1].h))
  }

  ghost predicate HasPair(cs: seq<CharText>) { exists k :: 0 <= k < |cs| && PairFirst(cs[k..]) }

  /** The code point of a pair. */
  ghost function PairPoint(cs: seq<CharText>): (u: int)
    requires PairFirst(cs)
    ensures 0x1_0000 <= u < 0x11_0000
  {
    0x1_0000 + (Unit(cs[0].h) - 0xD800) * 0x400 + (Unit(cs[1].h) - 0xDC00)
  }

  ghost function CharMeans(c: CharText): seq<Byte> {
    match c
    case Raw(b) => [b]
    case Short(c) => if c in SHORT then [SHORT[c]] else []
    case Code(h) => if IsPoint(Unit(h)) then Encode(Unit(h)) else []
  }

  /** The UTF-8 bytes of a string's characters. */
  ghost function CharsValue(cs: seq<CharText>): seq<Byte>
    decreases |cs|
  {
    if cs == [] then []
    else if PairFirst(cs) then Encode(PairPoint(cs)) + CharsValue(cs[2..])
    else CharMeans(cs[0]) + CharsValue(cs[1..])
  }

  ghost function CharPoint(c: CharText): (us: seq<int>)
    ensures forall k :: 0 <= k < |us| ==> IsPoint(us[k])
  {
    match c
    case Raw(b) => [b]
    case Short(c) => if c in SHORT then [SHORT[c] as int] else []
    case Code(h) => if IsPoint(Unit(h)) then [Unit(h)] else []
  }

  /** The code points of a string, where no byte stands for a part of one. */
  ghost function Points(cs: seq<CharText>): (us: seq<int>)
    ensures forall k :: 0 <= k < |us| ==> IsPoint(us[k])
    decreases |cs|
  {
    if cs == [] then []
    else if PairFirst(cs) then [PairPoint(cs)] + Points(cs[2..])
    else CharPoint(cs[0]) + Points(cs[1..])
  }

  /** The bytes of a string decode to its code points. */
  lemma ValueDecodes(cs: seq<CharText>)
    requires AsciiRaw(cs)
    ensures DecodeAll(CharsValue(cs)) == Ok(Points(cs), 0)
  {
    ValueEncodes(cs);
    DecodeEncodeAll(Points(cs));
  }

  ghost predicate AsciiRaw(cs: seq<CharText>) { forall k :: 0 <= k < |cs| && cs[k].Raw? ==> cs[k].b < 0x80 }

  lemma {:induction false} ValueEncodes(cs: seq<CharText>)
    requires AsciiRaw(cs)
    ensures CharsValue(cs) == EncodeAll(Points(cs))
    decreases |cs|
  {
    hide EncodeAll, Encode, Unit, PairFirst, PairPoint, CharMeans, CharPoint;
    EncodeNone();
    if cs != [] {
      PairSize(cs);
      var n := if PairFirst(cs) then 2 else 1;
      assert AsciiRaw(cs[n..]);
      ValueEncodes(cs[n..]);
      if PairFirst(cs) {
        EncodeAppend([PairPoint(cs)], Points(cs[2..]));
        EncodeOne(PairPoint(cs));
      } else {
        EncodeAppend(CharPoint(cs[0]), Points(cs[1..]));
        CharEncodes(cs[0]);
      }
    }
  }

  lemma EncodeNone()
    ensures EncodeAll([]) == []
  {
  }

  lemma EncodeOne(u: int)
    requires IsPoint(u)
    ensures EncodeAll([u]) == Encode(u)
  {
    EncodeNone();
    assert EncodeAll([u]) == Encode(u) + EncodeAll([]);
  }

  lemma CharEncodes(c: CharText)
    requires c.Raw? ==> c.b < 0x80
    ensures EncodeAll(CharPoint(c)) == CharMeans(c)
  {
    EncodeNone();
    match c
    case Raw(b) => EncodeOne(b);
    case Short(c) => if c in SHORT { EncodeOne(SHORT[c]); }
    case Code(h) => if IsPoint(Unit(h)) { EncodeOne(Unit(h)); }
  }

  lemma {:induction false} EncodeAppend(us: seq<int>, vs: seq<int>)
    requires (forall k :: 0 <= k < |us| ==> IsPoint(us[k])) && forall k :: 0 <= k < |vs| ==> IsPoint(vs[k])
    ensures EncodeAll(us + vs) == EncodeAll(us) + EncodeAll(vs)
  {
    hide Encode;
    if us == [] {
      assert us + vs == vs;
    } else {
      assert (us + vs)[1..] == us[1..] + vs;
      EncodeAppend(us[1..], vs);
      assert EncodeAll(us + vs) == Encode(us[0]) + EncodeAll(us[1..] + vs);
      assert EncodeAll(us) == Encode(us[0]) + EncodeAll(us[1..]);
    }
  }

  lemma PairSize(cs: seq<CharText>)
    ensures PairFirst(cs) ==> |cs| >= 2
  {
  }

  /** How many characters are written as two escapes. */
  ghost function Pairs(cs: seq<CharText>): nat {
    if cs == [] then 0 else (if PairFirst(cs) then 1 else 0) + Pairs(cs[1..])
  }

  lemma {:induction false} PairsCount(cs: seq<CharText>)
    ensures Pairs(cs) > 0 <==> HasPair(cs)
  {
    hide PairFirst;
    if cs != [] {
      PairsCount(cs[1..]);
      assert cs[0..] == cs;
      if HasPair(cs[1..]) {
        var k :| 0 <= k < |cs[1..]| && PairFirst(cs[1..][k..]);
        assert cs[1..][k..] == cs[k + 1..];
      }
      if HasPair(cs) && !PairFirst(cs) {
        var k :| 0 <= k < |cs| && PairFirst(cs[k..]);
        assert cs[1..][k - 1..] == cs[k..];
      }
    }
  }

  lemma CharStoredMeans(c: CharText)
    requires CharOk(c)
    ensures CharStored(c) == CharMeans(c)
    ensures c.Code? ==> 0 <= Unit(c.h) < 0x1_0000 && (High(Unit(c.h)) || Low(Unit(c.h)) ==> |CharStored(c)| == 3)
  {
    if c.Code? { UnitIs(c.h); }
  }

  /** Each pair that the parser does not combine takes six bytes in place of four. */
  lemma {:induction false} StoredLength(cs: seq<CharText>)
    requires forall k :: 0 <= k < |cs| ==> CharOk(cs[k])
    ensures |CharsStored(cs)| == |CharsValue(cs)| + 2 * Pairs(cs)
    ensures Pairs(cs) == 0 ==> CharsStored(cs) == CharsValue(cs)
    decreases |cs|
  {
    hide CharOk, CharMeans, CharStored, Unit;
    if cs != [] {
      CharStoredMeans(cs[0]);
      if PairFirst(cs) {
        CharStoredMeans(cs[1]);
        assert cs[1..][0] == cs[1] && cs[1..][1..] == cs[2..];
        assert !PairFirst(cs[1..]);
        StoredLength(cs[2..]);
      } else {
        StoredLength(cs[1..]);
      }
    }
  }

  /** The parser stores a string's bytes exactly when no character is written as a surrogate pair. */
  lemma CharsExact(cs: seq<CharText>)
    requires forall k :: 0 <= k < |cs| ==> CharOk(cs[k])
    ensures CharsStored(cs) == CharsValue(cs) <==> !HasPair(cs)
  {
    StoredLength(cs);
    PairsCount(cs);
  }

  lemma PairStored(h: seq<Byte>, l: seq<Byte>, cs: seq<CharText>)
    requires cs == [Code(h), Code(l)] && CharOk(cs[0]) && CharOk(cs[1]) && PairFirst(cs)
    ensures CharsValue(cs) == Encode(PairPoint(cs))
    ensures CharsStored(cs) == CharStored(cs[0]) + CharStored(cs[1])
  {
    hide CharStored, Encode, CharOk, PairFirst;
    assert cs[2..] == [] && CharsValue([]) == [] && CharsStored([]) == [];
    assert cs[1..] == [cs[1]] && cs[1..][1..] == [];
    assert CharsStored(cs[1..]) == CharStored(cs[1]) + [];
  }

  lemma HighExample(h: seq<Byte>)
    requires h == [68, 56, 51, 68]
    ensures CharOk(Code(h)) && Unit(h) == 0xD83D && CharStored(Code(h)) == [0xED, 0xA0, 0xBD]
  {
    hide Unit;
    assert HexWord(h, 0) == Ok(0xD83D, 4);
    UnitIs(h);
  }

  lemma LowExample(h: seq<Byte>)
    requires h == [68, 69, 48, 48]
    ensures CharOk(Code(h)) && Unit(h) == 0xDE00 && CharStored(Code(h)) == [0xED, 0xB8, 0x80]
  {
    hide Unit;
    assert HexWord(h, 0) == Ok(0xDE00, 4);
    UnitIs(h);
  }

  /** U+1F600, written as a pair of escapes, is stored as two three-byte groups. */
  lemma SurrogatePair(h: seq<Byte>, l: seq<Byte>, cs: seq<CharText>)
    requires h == [68, 56, 51, 68] && l == [68, 69, 48, 48] && cs == [Code(h), Code(l)]
    ensures CharOk(cs[0]) && CharOk(cs[1])
    ensures CharsValue(cs) == [0xF0, 0x9F, 0x98, 0x80] && CharsStored(cs) == [0xED, 0xA0, 0xBD, 0xED, 0xB8, 0x80]
  {
    hide Unit, CharsValue, CharsStored, HexWord, CharStored, CharOk;
    HighExample(h);
    LowExample(l);
    PairStored(h, l, cs);
  }

  // ---------------------------------------------------------------- values

  /** The value of a text. A number with a fraction or an exponent is a double, which stands for a real number. */
  ghost function Denotes(v: ValueText): Json
    decreases v, 1
  {
    match v
    case NullText => Null
    case BoolText(b) => Bool(b)
    case NumText(n) => if Whole(n) then Int(Integer(n)) else Double(DoubleValue(n))
    case StringText(cs) => Str(CharsValue(cs))
    case ArrayText(_, items) => Box(false, [], ItemsDenote(items))
    case ObjectText(_, members) => Box(true, MemberKeys(members), MemberValues(members))
  }

  ghost function ItemsDenote(items: ItemsText): seq<Json>
    decreases items, 0
  {
    match items
    case Item(_, v, _, rest) => [Denotes(v)] + ItemsDenote(rest)
    case _ => []
  }

  ghost function MemberKeys(members: MembersText): seq<seq<Byte>>
    decreases members, 0
  {
    match members
    case Member(_, key, _, _, _, _, rest) => [CharsValue(key)] + MemberKeys(rest)
    case _ => []
  }

  ghost function MemberValues(members: MembersText): seq<Json>
    decreases members, 0
  {
    match members
    case Member(_, _, _, _, v, _, rest) => [Denotes(v)] + MemberValues(rest)
    case _ => []
  }

  /** Every integer of the text, and each part of every double, is a long, and no string or key has a surrogate pair. */
  ghost predicate Exact(v: ValueText)
    decreases v, 1
  {
    match v
    case NumText(n) => if Whole(n) then IsLong(Integer(n)) else DoubleExact(n)
    case StringText(cs) => !HasPair(cs)
    case ArrayText(_, items) => ItemsExact(items)
    case ObjectText(_, members) => MembersExact(members)
    case _ => true
  }

  ghost predicate ItemsExact(items: ItemsText)
    decreases items, 0
  {
    items.Item? ==> Exact(items.v) && ItemsExact(items.rest)
  }

  ghost predicate MembersExact(members: MembersText)
    decreases members, 0
  {
    members.Member? ==> !HasPair(members.key) && Exact(members.v) && MembersExact(members.rest)
  }

  lemma ConsEqual<T>(a: T, b: T, s: seq<T>, t: seq<T>)
    ensures [a] + s == [b] + t <==> a == b && s == t
  {
    if [a] + s == [b] + t {
      assert ([a] + s)[0] == a && ([b] + t)[0] == b && ([a] + s)[1..] == s && ([b] + t)[1..] == t;
    }
  }

  /** The parser makes the right value of a text exactly when every part of it is exact. */
  lemma {:induction false} StoredExact(v: ValueText)
    requires ValueOk(v)
    ensures Stored(v) == Denotes(v) <==> Exact(v)
    decreases v, 1
  {
    hide HasPair, CharsValue, CharsStored, Decimal, Int64, DoubleExact, DoubleValue, DoubleStored, IsLong;
    match v
    case NumText(n) => NumberStoredExact(n);
    case StringText(cs) => CharsExact(cs);
    case ArrayText(_, items) => ItemsStoredExact(items);
    case ObjectText(_, members) => MembersStoredExact(members);
    case _ =>
  }

  lemma NumberStoredExact(n: NumberText)
    requires NumberOk(n)
    ensures NumberStored(n) == (if Whole(n) then Int(Integer(n)) else Double(DoubleValue(n))) <==>
      if Whole(n) then IsLong(Integer(n)) else DoubleExact(n)
  {
    if !Whole(n) { DoubleStoredExact(n); }
  }

  lemma {:induction false} ItemsStoredExact(items: ItemsText)
    requires ItemsOk(items)
    ensures ItemsStored(items) == ItemsDenote(items) <==> ItemsExact(items)
    decreases items, 0
  {
    hide ValueOk, Stored, Denotes, Exact;
    if items.Item? {
      StoredExact(items.v);
      ItemsStoredExact(items.rest);
      ConsEqual(Stored(items.v), Denotes(items.v), ItemsStored(items.rest), ItemsDenote(items.rest));
    }
  }

  lemma {:induction false} MembersStoredExact(members: MembersText)
    requires MembersOk(members)
    ensures KeysStored(members) == MemberKeys(members) && ValuesStored(members) == MemberValues(members) <==>
      MembersExact(members)
    decreases members, 0
  {
    hide ValueOk, Stored, Denotes, Exact, HasPair, CharsStored, CharsValue;
    if members.Member? {
      var m := members;
      StoredExact(m.v);
      MembersStoredExact(m.rest);
      CharsExact(m.key);
      ConsEqual(CharsStored(m.key), CharsValue(m.key), KeysStored(m.rest), MemberKeys(m.rest));
      ConsEqual(Stored(m.v), Denotes(m.v), ValuesStored(m.rest), MemberValues(m.rest));
    }
  }

  /** Parsing a JSON text succeeds, and gives back its value exactly when it is exact. */
  lemma RoundTripExact(before: seq<Byte>, v: ValueText, after: seq<Byte>)
    requires ValueOk(v) && Spaces(before) && Spaces(after)
    ensures var d := Document(before + (Render(v) + (after + [0]))); d.Ok? && (d.value == Denotes(v) <==> Exact(v))
  {
    hide Render, Stored, Denotes, ValueOk, Document, Exact;
    OkAccepted(v);
    RoundTrip(before, v, after);
    StoredExact(v);
  }

  /** Twenty nines are JSON, and come out as another number. */
  lemma WideInteger()
    ensures var v := NumText(NumberText(false, Nines(20), [], NoExponent));
      ValueOk(v) && Stored(v) == Int(7766279631452241919) && Denotes(v) == Int(99999999999999999999) && !Exact(v)
  {
    TwentyNines();
  }

  /** So are twenty nines after the point: what is denoted is just below 1, and what comes out just below 0.08. */
  lemma WideFraction()
    ensures var v := NumText(NumberText(false, ['0' as int], Nines(20), NoExponent));
      && ValueOk(v) && !Exact(v) && Denotes(v) == Double(99999999999999999999.0 / Pow10(20))
      && Stored(v) == Double(7766279631452241919.0 / Pow10(20))
  {
    ZeroPoint(Nines(20));
    TwentyNines();
    hide Decimal, Pow10, Int64, Nines;
    assert Int64(99999999999999999999) == 7766279631452241919 by { NinesWrapped(); }
  }

  // Nothing but zero before the point.
  lemma ZeroPoint(f: seq<Byte>)
    requires f != [] && Digits(f)
    ensures var n := NumberText(false, ['0' as int], f, NoExponent);
      && NumberOk(n) && !Whole(n) && NumberStored(n) == Double(Int64(Decimal(f)) as real / Pow10(|f|))
      && DoubleValue(n) == Decimal(f) as real / Pow10(|f|) && (DoubleExact(n) ==> IsLong(Decimal(f)))
  {
    ZeroStored(f);
    ZeroDenoted(f);
    hide NumberStored, DoubleValue, Decimal, Int64, IsLong, Pow10;
  }

  lemma ZeroStored(f: seq<Byte>)
    requires f != []
    ensures NumberStored(NumberText(false, ['0' as int], f, NoExponent)) ==
      Double(Int64(Decimal(f)) as real / Pow10(|f|))
  {
    assert Decimal(['0' as int]) == 0;
    NinesWrapped();
    hide Decimal, Pow10, Int64;
    NoSum(Int64(Decimal(f)) as real / Pow10(|f|));
  }

  lemma ZeroDenoted(f: seq<Byte>)
    ensures DoubleValue(NumberText(false, ['0' as int], f, NoExponent)) == Decimal(f) as real / Pow10(|f|)
  {
    ZeroView(f);
    ZeroBefore(f);
    hide Decimal, Pow10, Scaled, DoubleValue;
    DownAgain(|f|, Decimal(f));
  }

  lemma ZeroView(f: seq<Byte>)
    ensures DoubleValue(NumberText(false, ['0' as int], f, NoExponent)) == Scaled(Decimal(['0' as int] + f), 0 - |f|)
  {
    hide Decimal, Scaled;
  }

  lemma ZeroBefore(f: seq<Byte>)
    ensures Decimal(['0' as int] + f) == Decimal(f)
  {
    assert Decimal(['0' as int]) == 0;
    DecimalSum(['0' as int], f);
    hide Decimal, TenTo;
  }

  lemma DownAgain(d: nat, x: int)
    ensures Scaled(x, 0 - d) == x as real / Pow10(d)
  {
    PowZero();
    PowersOf(d, 0);
    hide Pow10, TenTo;
    Inverse(x as real, Pow10(0 - d), Pow10(d));
  }

  lemma Inverse(x: real, p: real, q: real)
    requires q > 0.0 && p * q == 1.0
    ensures x * p == x / q
  {
    assert x * p * q == x;
  }

  lemma NoSum(x: real)
    ensures 0.0 + x == x
  {
  }

  lemma NinesWrapped()
    ensures Int64(99999999999999999999) == 7766279631452241919 && Int64(0) == 0 && IsLong(0)
  {
  }

  lemma PowZero()
    ensures Pow10(0) == 1.0
  {
  }

  function Nines(n: nat): (r: seq<Byte>)
    ensures |r| == n && forall k :: 0 <= k < n ==> r[k] as char == '9'
  {
    seq(n, _ => '9' as Byte)
  }

  lemma TwentyNines()
    ensures Decimal(Nines(20)) == 99999999999999999999
  {
    NinesDecimal(20);
    assert TenTo(8) == 1_0000_0000;
    hide TenTo, Decimal;
    TenToSum(8, 8);
    TenToSum(4, 16);
    assert TenTo(4) == 1_0000 by { FourZeros(); }
  }

  lemma FourZeros()
    ensures TenTo(4) == 1_0000
  {
  }

  lemma {:induction false} NinesDecimal(n: nat)
    ensures Decimal(Nines(n)) == TenTo(n) - 1
  {
    if n > 0 {
      NinesDecimal(n - 1);
      assert Nines(n)[..n - 1] == Nines(n - 1);
    }
  }
}
