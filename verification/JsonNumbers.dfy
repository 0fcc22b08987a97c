/** The numbers of a JSON text as they are written (section 6 of RFC 8259), and which ones the parser takes. */
module JsonNumbers {
  import opened BStrings
  import opened JsonDecimals
  import opened JsonGrammar

  // ---------------------------------------------------------------- parts of a text

  /** `w` stands at position `i`. */
  ghost predicate At(t: Text, i: int, w: seq<Byte>) {
    0 <= i && i + |w| <= |t| && t[i..i + |w|] == w
  }

  lemma AtSplit(t: Text, i: int, a: seq<Byte>, b: seq<Byte>)
    requires At(t, i, a + b)
    ensures At(t, i, a) && At(t, i + |a|, b) && 0 <= i && i + |a| + |b| <= |t|
    ensures a != [] ==> i < |t| && t[i] == a[0]
  {
    var w := t[i..i + |a + b|];
    assert t[i..i + |a|] == w[..|a|] && t[i + |a|..i + |a| + |b|] == w[|a|..];
    if a != [] { assert w[0] == t[i]; }
  }

  lemma AtJoin(t: Text, i: int, a: seq<Byte>, b: seq<Byte>)
    requires At(t, i, a) && At(t, i + |a|, b)
    ensures At(t, i, a + b) && |a + b| == |a| + |b|
  {
    assert t[i..i + |a| + |b|] == t[i..i + |a|] + t[i + |a|..i + |a| + |b|];
  }

  lemma AtOne(t: Text, i: int)
    requires 0 <= i < |t|
    ensures At(t, i, [t[i]]) && At(t, i, [])
  {
  }

  lemma AtHead(t: Text, i: int, w: seq<Byte>)
    requires At(t, i, w)
    ensures 0 <= i && i + |w| <= |t| && (w != [] ==> i < |t| && t[i] == w[0])
  {
    if w != [] { assert t[i..i + |w|][0] == t[i]; }
  }

  lemma NoPrefix<T>(a: seq<T>)
    ensures [] + a == a && a + [] == a
  {
  }

  // What follows a value in a JSON text.
  ghost predicate Ends(t: Text, j: int) {
    0 <= j < |t| && !NumByte(t[j])
  }

  // ---------------------------------------------------------------- numbers

  datatype Exponent = NoExponent | Exponent(letter: Byte, sign: seq<Byte>, digits: seq<Byte>)

  /** No fraction is an empty one. */
  datatype NumberText = NumberText(neg: bool, digits: seq<Byte>, fraction: seq<Byte>, exponent: Exponent)

  ghost predicate Digits(s: seq<Byte>) { forall k :: 0 <= k < |s| ==> IsDigit(s[k]) }

  /** Zero is followed by no other digit. */
  ghost predicate Leading(s: seq<Byte>) { |s| > 1 ==> s[0] as char != '0' }

  ghost predicate ExponentOk(e: Exponent) {
    e.Exponent? ==>
      && (e.letter as char == 'e' || e.letter as char == 'E') && e.digits != [] && Digits(e.digits)
      && (e.sign == [] || e.sign == ['+' as int] || e.sign == ['-' as int])
  }

  /** A number of section 6. */
  ghost predicate NumberOk(n: NumberText) {
    n.digits != [] && Digits(n.digits) && Leading(n.digits) && Digits(n.fraction) && ExponentOk(n.exponent)
  }

  /** A number that the parser takes: after a minus sign it needs no digits before the end or the exponent. */
  ghost predicate NumberAccepted(n: NumberText) {
    && Digits(n.digits) && Leading(n.digits) && Digits(n.fraction) && ExponentOk(n.exponent)
    && (n.digits == [] ==> n.neg && n.fraction == [])
  }

  function FractionRender(f: seq<Byte>): seq<Byte> { if f == [] then [] else ['.' as int] + f }

  function ExponentRender(e: Exponent): seq<Byte> {
    match e
    case NoExponent => []
    case Exponent(letter, sign, digits) => [letter] + (sign + digits)
  }

  function NumberRender(n: NumberText): seq<Byte> {
    (if n.neg then ['-' as int] else []) + (n.digits + (FractionRender(n.fraction) + ExponentRender(n.exponent)))
  }

  ghost predicate Whole(n: NumberText) { n.fraction == [] && n.exponent.NoExponent? }

  function Decimal(digits: seq<Byte>): int {
    if digits == [] then 0 else Decimal(digits[..|digits| - 1]) * 10 + (digits[|digits| - 1] - '0' as int)
  }

  ghost function Integer(n: NumberText): int { if n.neg then -Decimal(n.digits) else Decimal(n.digits) }

  /** The number after the letter. */
  ghost function Power(e: Exponent): int {
    if e.NoExponent? then 0 else if e.sign == ['-' as int] then -Decimal(e.digits) else Decimal(e.digits)
  }

  ghost function MantissaStored(digits: seq<Byte>, f: seq<Byte>): real {
    var x := Int64(Decimal(digits)) as real;
    if f == [] then x else AddFraction(x, Int64(Decimal(f)), |f|)
  }

  ghost function ExponentStored(x: real, e: Exponent): real {
    if e.NoExponent? then x else Scale(x, Int64(Power(e)))
  }

  ghost function DoubleStored(neg: bool, x: real, e: Exponent): Json { Double(WithSign(neg, ExponentStored(x, e))) }

  /** What the parser makes of a number: the digits before and after the point, and those of the exponent, are
      each read into a long. */
  ghost function NumberStored(n: NumberText): Json {
    if Whole(n) then Int(Int64(Integer(n))) else DoubleStored(n.neg, MantissaStored(n.digits, n.fraction), n.exponent)
  }

  // The digits `d` are read into a long after `x`.
  ghost function Folded(x: int, d: seq<Byte>): int
    decreases |d|
  {
    if d == [] then x else Folded(Int64(x * 10 + (d[0] as int - 48)), d[1..])
  }

  lemma {:induction false} FoldedIs(done: seq<Byte>, d: seq<Byte>)
    ensures Folded(Int64(Decimal(done)), d) == Int64(Decimal(done + d))
    decreases |d|
  {
    hide Int64;
    if d == [] {
      NoPrefix(done);
    } else {
      assert d == [d[0]] + d[1..] && (done + [d[0]])[..|done|] == done;
      Associates(done, [d[0]], d[1..]);
      Int64Digit(Decimal(done), d[0] as int - 48);
      FoldedIs(done + [d[0]], d[1..]);
    }
  }

  lemma FoldedAll(d: seq<Byte>)
    ensures Folded(0, d) == Int64(Decimal(d))
  {
    NoPrefix(d);
    FoldedIs([], d);
    hide Folded;
  }

  // The digits `done`, without a leading zero, were read as `n`.
  ghost predicate ReadAs(n: Number, done: seq<Byte>) {
    !n.e && !n.double && !n.sign && n.mag == Int64(Decimal(done)) && n.digits == |done|
    && (n.zero <==> done == [48]) && Leading(done) && n.fraction == n.power == 0 && !n.down
  }

  lemma StartReadAs(neg: bool)
    ensures ReadAs(START.(neg := neg), [])
  {
  }

  lemma DigitNext(n: Number, done: seq<Byte>, b: Byte)
    requires ReadAs(n, done) && IsDigit(b) && done != [48]
    ensures NumNext(n, b).More? && ReadAs(NumNext(n, b).n, done + [b]) && NumNext(n, b).n.neg == n.neg
  {
    assert (done + [b])[..|done|] == done;
    Int64Digit(Decimal(done), b - 48);
  }

  lemma NumberStep(t: Text, i: int, n: Number)
    requires 0 <= i < |t| && NumNext(n, t[i]).More?
    ensures NumberFrom(t, i, n) == NumberFrom(t, i + 1, NumNext(n, t[i]).n)
  {
  }

  // ---------------------------------------------------------------- reading

  lemma {:induction false} DigitsOn(t: Text, i: int, n: Number, done: seq<Byte>, more: seq<Byte>)
    returns (n': Number)
    requires At(t, i, more) && ReadAs(n, done) && Digits(more) && Leading(done + more)
    ensures ReadAs(n', done + more) && n'.neg == n.neg && NumberFrom(t, i, n) == NumberFrom(t, i + |more|, n') && 0 <= i
    decreases |more|
  {
    hide At, Decimal, Int64, NumNext, ReadAs, NumberFrom;
    AtHead(t, i, more);
    if more == [] {
      NoPrefix(done);
      n' := n;
    } else {
      var b, rest := more[0], more[1..];
      assert more == [b] + rest;
      AtSplit(t, i, [b], rest);
      Associates(done, [b], rest);
      assert done != [] ==> (done + more)[0] == done[0];
      DigitNext(n, done, b);
      NumberStep(t, i, n);
      n' := DigitsOn(t, i + 1, NumNext(n, b).n, done + [b], rest);
    }
  }

  ghost function MoreRead(n: Number, more: seq<Byte>): Number {
    if n.e then n.(digits := n.digits + |more|, sign := n.sign || more != [], power := Folded(n.power, more))
    else n.(digits := n.digits + |more|, fraction := Folded(n.fraction, more))
  }

  // Digits after the point, or of the exponent.
  lemma {:induction false} MoreDigits(t: Text, i: int, n: Number, more: seq<Byte>)
    requires At(t, i, more) && Digits(more) && (n.e || n.double)
    ensures NumberFrom(t, i, n) == NumberFrom(t, i + |more|, MoreRead(n, more))
    ensures 0 <= i
    decreases |more|
  {
    hide At, NumberFrom, Int64;
    AtHead(t, i, more);
    if more != [] {
      var b, rest := more[0], more[1..];
      assert more == [b] + rest;
      AtSplit(t, i, [b], rest);
      NumberStep(t, i, n);
      MoreDigits(t, i + 1, NumNext(n, b).n, rest);
    }
  }

  lemma NumberStops(t: Text, i: int, n: Number)
    requires Ends(t, i) && (n.e || n.double ==> n.digits > 0)
    ensures NumberFrom(t, i, n) == Ok(NumValue(n), i)
  {
  }

  lemma FractionRead(t: Text, i: int, n: Number, done: seq<Byte>, f: seq<Byte>) returns (n': Number)
    requires ReadAs(n, done) && At(t, i, FractionRender(f)) && Digits(f) && (f != [] ==> n.digits > 0)
    ensures 0 <= i && NumberFrom(t, i, n) == NumberFrom(t, i + |FractionRender(f)|, n')
    ensures !n'.e && !n'.sign && (n'.double <==> f != []) && (n'.double ==> n'.digits > 0) && (f == [] ==> n' == n)
    ensures n'.neg == n.neg && n'.power == 0 && !n'.down && ValueSoFar(n') == MantissaStored(done, f)
  {
    hide At, NumberFrom, Decimal, Int64, AddFraction;
    AtHead(t, i, FractionRender(f));
    n' := n;
    if f != [] {
      AtSplit(t, i, ['.' as int], f);
      NumberStep(t, i, n);
      n' := NumNext(n, t[i]).n;
      MoreDigits(t, i + 1, n', f);
      FoldedAll(f);
      n' := MoreRead(n', f);
    }
  }

  lemma PowerRead(e: Exponent)
    requires e.Exponent?
    ensures var p := Folded(0, e.digits); Int64(Power(e)) == if e.sign == ['-' as int] then Int64(-p) else p
  {
    FoldedAll(e.digits);
    Int64Minus(Decimal(e.digits));
    hide Decimal, Int64, Folded;
  }

  lemma ExponentRead(t: Text, i: int, n: Number, e: Exponent) returns (n': Number)
    requires !n.e && !n.sign && (n.double ==> n.digits > 0) && At(t, i, ExponentRender(e)) && ExponentOk(e)
    requires n.power == 0 && !n.down
    ensures 0 <= i && NumberFrom(t, i, n) == NumberFrom(t, i + |ExponentRender(e)|, n')
    ensures (n'.e || n'.double ==> n'.digits > 0) && (e.NoExponent? ==> n' == n)
    ensures e.Exponent? || n.double ==> NumValue(n') == DoubleStored(n.neg, ValueSoFar(n), e)
  {
    hide At, NumberFrom, Decimal, Int64, AddFraction, Scale;
    AtHead(t, i, ExponentRender(e));
    n' := n;
    if e.Exponent? {
      AtSplit(t, i, [e.letter], e.sign + e.digits);
      AtSplit(t, i + 1, e.sign, e.digits);
      AtHead(t, i + 1, e.sign);
      NumberStep(t, i, n);
      n' := NumNext(n, t[i]).n;
      if e.sign != [] {
        NumberStep(t, i + 1, n');
        n' := NumNext(n', t[i + 1]).n;
      }
      MoreDigits(t, i + 1 + |e.sign|, n', e.digits);
      PowerRead(e);
      n' := MoreRead(n', e.digits);
    }
  }

  // All but the sign.
  lemma UnsignedRead(n: NumberText, t: Text, i: int)
    requires NumberAccepted(n) && Ends(t, i + |n.digits| + |FractionRender(n.fraction)| + |ExponentRender(n.exponent)|)
    requires At(t, i, n.digits + (FractionRender(n.fraction) + ExponentRender(n.exponent)))
    ensures 0 <= i && NumberFrom(t, i, START.(neg := n.neg)) ==
      Ok(NumberStored(n), i + |n.digits| + |FractionRender(n.fraction)| + |ExponentRender(n.exponent)|)
  {
    hide At, NumberFrom, NumNext, FractionRender, ExponentRender, Decimal, Int64, ReadAs, NumberStored, NumValue, Ends;
    var f, e := FractionRender(n.fraction), ExponentRender(n.exponent);
    AtSplit(t, i, n.digits, f + e);
    AtSplit(t, i + |n.digits|, f, e);
    StartReadAs(n.neg);
    NoPrefix(n.digits);
    var m := DigitsOn(t, i, START.(neg := n.neg), [], n.digits);
    ReadAsView(m, n.digits);
    var m' := FractionRead(t, i + |n.digits|, m, n.digits, n.fraction);
    var m'' := ExponentRead(t, i + |n.digits| + |f|, m', n.exponent);
    NumberStops(t, i + |n.digits| + |f| + |e|, m'');
    NumberStoredIs(n, m, m'');
  }

  /** Where a number stands before something that is not part of one, the grammar reads it to its end. */
  lemma NumberRead(n: NumberText, t: Text, i: int)
    requires NumberAccepted(n) && At(t, i, NumberRender(n)) && Ends(t, i + |NumberRender(n)|)
    ensures Value(t, i) == Ok(NumberStored(n), i + |NumberRender(n)|)
    ensures 0 <= i < |t| && (t[i] as char == '-' || IsDigit(t[i]))
  {
    hide At, Value, NumberFrom, FractionRender, ExponentRender, NumberStored, Ends;
    var r := n.digits + (FractionRender(n.fraction) + ExponentRender(n.exponent));
    if n.neg {
      AtSplit(t, i, ['-' as int], r);
      UnsignedRead(n, t, i + 1);
      ValueStarts(t, i);
    } else {
      NoPrefix(r);
      UnsignedRead(n, t, i);
      AtSplit(t, i, n.digits, FractionRender(n.fraction) + ExponentRender(n.exponent));
      ValueStarts(t, i);
    }
  }

  lemma NumberStoredIs(n: NumberText, m: Number, m'': Number)
    requires ReadAs(m, n.digits) && m.neg == n.neg && (Whole(n) ==> m'' == m)
    requires !Whole(n) ==> NumValue(m'') == DoubleStored(n.neg, MantissaStored(n.digits, n.fraction), n.exponent)
    ensures NumValue(m'') == NumberStored(n)
  {
    Int64Minus(Decimal(n.digits));
    hide Decimal, Int64;
  }

  lemma ReadAsView(m: Number, done: seq<Byte>)
    requires ReadAs(m, done)
    ensures !m.e && !m.double && !m.sign && m.digits == |done| && m.power == 0 && !m.down
    ensures ValueSoFar(m) == MantissaStored(done, [])
  {
    hide Decimal, Int64;
  }

  // A minus sign or a digit begins a number.
  lemma ValueStarts(t: Text, i: int)
    requires 0 <= i < |t|
    ensures t[i] as char == '-' ==> Value(t, i) == NumberFrom(t, i + 1, START.(neg := true))
    ensures IsDigit(t[i]) ==> Value(t, i) == NumberFrom(t, i, START)
  {
    if IsDigit(t[i]) { assert NumNext(START, t[i]).More?; }
    hide Members, Elements, StringFrom, StartsWith;
  }

  // ---------------------------------------------------------------- what was read

  // The digits of an exponent.
  lemma {:induction false} PowerParsed(t: Text, i: int, n: Number) returns (d: seq<Byte>)
    requires 0 <= i && n.e && n.sign && n.double && NumberFrom(t, i, n).Ok?
    ensures Digits(d) && n.digits + |d| > 0 && At(t, i, d)
    ensures NumberFrom(t, i, n) == Ok(NumValue(n.(power := Folded(n.power, d))), i + |d|)
    decreases |t| - i
  {
    hide At, Int64, Scale, AddFraction;
    AtOne(t, i);
    if IsDigit(t[i]) {
      d := PowerParsed(t, i + 1, NumNext(n, t[i]).n);
      AtJoin(t, i, [t[i]], d);
      d := [t[i]] + d;
    } else {
      d := [];
    }
  }

  lemma ExponentParsed(t: Text, i: int, n: Number) returns (sign: seq<Byte>, d: seq<Byte>)
    requires 0 <= i && n.e && !n.sign && n.double && n.digits == 0 && NumberFrom(t, i, n).Ok?
    requires n.power == 0 && !n.down
    ensures (sign == [] || sign == ['+' as int] || sign == ['-' as int]) && d != [] && Digits(d)
    ensures At(t, i, sign + d)
    ensures NumberFrom(t, i, n) ==
      Ok(NumValue(n.(power := Folded(0, d), down := sign == ['-' as int])), i + |sign + d|)
  {
    hide At, Int64, Scale, AddFraction;
    AtOne(t, i);
    if t[i] as char == '+' || t[i] as char == '-' {
      sign := [t[i]];
      assert sign == ['+' as int] || sign == ['-' as int];
      d := PowerParsed(t, i + 1, NumNext(n, t[i]).n);
      AtJoin(t, i, sign, d);
    } else {
      assert IsDigit(t[i]);
      sign := [];
      d := PowerParsed(t, i + 1, NumNext(n, t[i]).n);
      AtJoin(t, i, [t[i]], d);
      d := [t[i]] + d;
      NoPrefix(d);
    }
  }

  // From the letter on.
  lemma LetterParsed(t: Text, i: int, n: Number) returns (e: Exponent)
    requires 0 <= i < |t| && !n.e && !n.sign && (n.double ==> n.digits > 0) && NumberFrom(t, i, n).Ok?
    requires t[i] as char == 'e' || t[i] as char == 'E'
    requires n.power == 0 && !n.down
    ensures e.Exponent? && ExponentOk(e) && At(t, i, ExponentRender(e))
    ensures NumberFrom(t, i, n) == Ok(DoubleStored(n.neg, ValueSoFar(n), e), i + |ExponentRender(e)|)
  {
    hide At, Int64, Scale, AddFraction, Decimal, Folded;
    NumberStep(t, i, n);
    var sign, d := ExponentParsed(t, i + 1, NumNext(n, t[i]).n);
    e := Exponent(t[i], sign, d);
    PowerRead(e);
    AtOne(t, i);
    AtJoin(t, i, [t[i]], sign + d);
  }

  // The digits of a fraction, and the exponent.
  lemma {:induction false} FractionParsed(t: Text, i: int, n: Number) returns (f: seq<Byte>, e: Exponent)
    requires 0 <= i && !n.e && !n.sign && n.double && NumberFrom(t, i, n).Ok?
    requires n.power == 0 && !n.down
    ensures Digits(f) && n.digits + |f| > 0 && ExponentOk(e) && At(t, i, f + ExponentRender(e))
    ensures NumberFrom(t, i, n) ==
      Ok(DoubleStored(n.neg, ValueSoFar(MoreRead(n, f)), e), i + |f + ExponentRender(e)|)
    decreases |t| - i
  {
    hide At, ExponentRender, ExponentOk, Int64, AddFraction, Scale, Decimal;
    AtOne(t, i);
    if IsDigit(t[i]) {
      f, e := FractionParsed(t, i + 1, NumNext(n, t[i]).n);
      AtJoin(t, i, [t[i]], f + ExponentRender(e));
      Associates([t[i]], f, ExponentRender(e));
      f := [t[i]] + f;
    } else if t[i] as char == 'e' || t[i] as char == 'E' {
      f := [];
      e := LetterParsed(t, i, n);
      NoPrefix(ExponentRender(e));
    } else {
      f, e := [], NoExponent;
      NoExponentIs();
      assert f + ExponentRender(e) == [];
    }
  }

  lemma NoExponentIs()
    ensures ExponentRender(NoExponent) == [] && ExponentOk(NoExponent) && FractionRender([]) == []
  {
  }

  // The rest of a number of which the digits `done` were read.
  ghost predicate RestIs(t: Text, i: int, n: Number, done: seq<Byte>, m: NumberText) {
    && NumberAccepted(m.(digits := done + m.digits)) && m.neg == n.neg
    && At(t, i, m.digits + (FractionRender(m.fraction) + ExponentRender(m.exponent)))
    && NumberFrom(t, i, n) == Ok(NumberStored(m.(digits := done + m.digits)),
        i + |m.digits + (FractionRender(m.fraction) + ExponentRender(m.exponent))|)
  }

  lemma {:induction false} DigitsParsed(t: Text, i: int, n: Number, done: seq<Byte>) returns (m: NumberText)
    requires 0 <= i && ReadAs(n, done) && Digits(done) && (done == [] ==> n.neg) && NumberFrom(t, i, n).Ok?
    ensures RestIs(t, i, n, done, m)
    decreases |t| - i
  {
    hide ReadAs, RestIs, NumNext, NumberFrom, At, ExponentRender, ExponentOk, FractionRender;
    NumberInText(t, i, n);
    AtOne(t, i);
    if IsDigit(t[i]) {
      NoLeading(t, i, n, done);
      DigitNext(n, done, t[i]);
      NumberStep(t, i, n);
      m := DigitsParsed(t, i + 1, NumNext(n, t[i]).n, done + [t[i]]);
      RestLonger(t, i, n, done, m);
      m := m.(digits := [t[i]] + m.digits);
    } else {
      m := WholeParsed(t, i, n, done);
    }
  }

  lemma NumberInText(t: Text, i: int, n: Number)
    requires 0 <= i && NumberFrom(t, i, n).Ok?
    ensures i < |t|
  {
  }

  lemma NoLeading(t: Text, i: int, n: Number, done: seq<Byte>)
    requires 0 <= i < |t| && ReadAs(n, done) && IsDigit(t[i]) && NumberFrom(t, i, n).Ok?
    ensures done != [48]
  {
    hide Decimal, Int64;
  }

  lemma RestLonger(t: Text, i: int, n: Number, done: seq<Byte>, m: NumberText)
    requires 0 <= i < |t| && NumNext(n, t[i]).More? && NumNext(n, t[i]).n.neg == n.neg
    requires RestIs(t, i + 1, NumNext(n, t[i]).n, done + [t[i]], m)
    ensures RestIs(t, i, n, done, m.(digits := [t[i]] + m.digits))
  {
    hide NumNext, NumberFrom, At, ExponentRender, ExponentOk, FractionRender, Decimal, Int64;
    var r := FractionRender(m.fraction) + ExponentRender(m.exponent);
    NumberStep(t, i, n);
    Associates(done, [t[i]], m.digits);
    Associates([t[i]], m.digits, r);
    AtOne(t, i);
    AtJoin(t, i, [t[i]], m.digits + r);
  }

  // What is read after the digits.
  lemma RestAfter(t: Text, i: int, n: Number, done: seq<Byte>, f: seq<Byte>, e: Exponent)
    requires Digits(done) && Leading(done) && Digits(f) && ExponentOk(e) && (done == [] ==> n.neg && f == [])
    requires At(t, i, FractionRender(f) + ExponentRender(e))
    requires NumberFrom(t, i, n) ==
      Ok(NumberStored(NumberText(n.neg, done, f, e)), i + |FractionRender(f) + ExponentRender(e)|)
    ensures RestIs(t, i, n, done, NumberText(n.neg, [], f, e))
  {
    hide At, ExponentRender, ExponentOk, FractionRender, NumberStored, NumberFrom, Digits, Leading;
    NoPrefix(done);
    NoPrefix(FractionRender(f) + ExponentRender(e));
  }

  lemma ReadAsLeading(n: Number, done: seq<Byte>)
    requires ReadAs(n, done)
    ensures Leading(done)
  {
    hide Decimal, Int64;
  }

  // No digit comes next.
  lemma WholeParsed(t: Text, i: int, n: Number, done: seq<Byte>) returns (m: NumberText)
    requires 0 <= i < |t| && ReadAs(n, done) && Digits(done) && (done == [] ==> n.neg) && NumberFrom(t, i, n).Ok?
    requires !IsDigit(t[i])
    ensures RestIs(t, i, n, done, m)
  {
    hide RestIs, At, ReadAs, NumberFrom, ExponentRender, ExponentOk, FractionRender, Decimal, Int64;
    ReadAsView(n, done);
    ReadAsLeading(n, done);
    NoExponentIs();
    AtOne(t, i);
    if t[i] as char == '.' {
      var f, e := PointParsed(t, i, n, done);
      RestAfter(t, i, n, done, f, e);
      m := NumberText(n.neg, [], f, e);
    } else if t[i] as char == 'e' || t[i] as char == 'E' {
      var e := LetterParsed(t, i, n);
      NoPrefix(ExponentRender(e));
      RestAfter(t, i, n, done, [], e);
      m := NumberText(n.neg, [], [], e);
    } else {
      NoPrefix<Byte>([]);
      m := NumberText(n.neg, [], [], NoExponent);
      EndParsed(t, i, n);
      NumberStoredIs(m.(digits := done), n, n);
      RestAfter(t, i, n, done, [], NoExponent);
    }
  }

  lemma EndParsed(t: Text, i: int, n: Number)
    requires 0 <= i < |t| && !n.e && !n.double && !IsDigit(t[i])
    requires t[i] as char != '.' && t[i] as char != 'e' && t[i] as char != 'E'
    ensures NumberFrom(t, i, n) == Ok(NumValue(n), i)
  {
  }

  lemma PointParsed(t: Text, i: int, n: Number, done: seq<Byte>) returns (f: seq<Byte>, e: Exponent)
    requires 0 <= i < |t| && ReadAs(n, done) && t[i] as char == '.' && NumberFrom(t, i, n).Ok?
    ensures n.digits > 0 && f != [] && Digits(f) && ExponentOk(e) && At(t, i, FractionRender(f) + ExponentRender(e))
    ensures NumberFrom(t, i, n) ==
      Ok(DoubleStored(n.neg, MantissaStored(done, f), e), i + |FractionRender(f) + ExponentRender(e)|)
  {
    hide At, ExponentRender, ExponentOk, Int64, AddFraction, Decimal, DoubleStored;
    assert NumNext(n, t[i]).More?;
    NumberStep(t, i, n);
    f, e := FractionParsed(t, i + 1, NumNext(n, t[i]).n);
    AtOne(t, i);
    FoldedAll(f);
    AtJoin(t, i, [t[i]], f + ExponentRender(e));
    Associates([t[i]], f, ExponentRender(e));
  }

  /** What the grammar reads where a number begins is a number that the parser takes, up to its end. */
  lemma NumberParsed(t: Text, i: int) returns (n: NumberText)
    requires 0 <= i < |t| && (t[i] as char == '-' || IsDigit(t[i])) && Value(t, i).Ok?
    ensures NumberAccepted(n) && At(t, i, NumberRender(n))
    ensures Value(t, i) == Ok(NumberStored(n), i + |NumberRender(n)|)
  {
    hide ReadAs, NumNext, NumberFrom, Value, At, ExponentRender, ExponentOk, FractionRender, Decimal, Int64;
    ValueStarts(t, i);
    StartReadAs(true);
    StartReadAs(false);
    AtOne(t, i);
    if t[i] as char == '-' {
      n := DigitsParsed(t, i + 1, START.(neg := true), []);
      NoPrefix(n.digits);
      AtJoin(t, i, [t[i]], n.digits + (FractionRender(n.fraction) + ExponentRender(n.exponent)));
    } else {
      n := PositiveParsed(t, i);
    }
  }

  lemma PositiveParsed(t: Text, i: int) returns (n: NumberText)
    requires 0 <= i < |t| && IsDigit(t[i]) && NumberFrom(t, i, START).Ok?
    ensures NumberAccepted(n) && At(t, i, NumberRender(n))
    ensures NumberFrom(t, i, START) == Ok(NumberStored(n), i + |NumberRender(n)|)
  {
    hide ReadAs, NumNext, NumberFrom, At, ExponentRender, ExponentOk, FractionRender, Decimal, Int64;
    StartReadAs(false);
    DigitNext(START, [], t[i]);
    NumberStep(t, i, START);
    NoPrefix([t[i]]);
    var m := DigitsParsed(t, i + 1, NumNext(START, t[i]).n, [t[i]]);
    RestLonger(t, i, START, [], m);
    n := m.(digits := [t[i]] + m.digits);
    NoPrefix(n.digits);
    NoPrefix(n.digits + (FractionRender(n.fraction) + ExponentRender(n.exponent)));
  }
}
