/**
 * What base64 text is (section 5.2 of RFC 1341), character by character and apart from the functions that the
 * codec is proved against: the alphabet as a literal, the place of each letter and line break in an
 * encoding, and for any text at all the bytes that its letters stand for.
 */
module Base64Law {
  import opened BStrings
  import opened SextetBits
  import opened Base64

  const CAPITALS: string := "ABCDEFGHIJKLMNOPQRSTUVWXYZ"
  const SMALLS: string := "abcdefghijklmnopqrstuvwxyz"
  const DIGITS: string := "0123456789"
  const ALPHABET: string := CAPITALS + SMALLS + DIGITS + "+/"

  function Sign(v: int): char
    requires 0 <= v < 64
  {
    assert |ALPHABET| == 64;
    ALPHABET[v]
  }

  /** The letter of each sextet. */
  lemma LetterInAlphabet(v: int)
    requires 0 <= v < 64
    ensures |ALPHABET| == 64 && Letter(v) as char == ALPHABET[v] == Sign(v)
  {
    if v < 26 {
      CapitalAt(v);
    } else if v < 52 {
      SmallAt(v - 26);
    } else if v < 62 {
      DigitAt(v - 52);
    }
  }

  lemma CapitalAt(v: int)
    requires 0 <= v < 26
    ensures |CAPITALS| == 26 && CAPITALS[v] as int == 65 + v
  {
    if v < 7 {
      assert v == 0 || v == 1 || v == 2 || v == 3 || v == 4 || v == 5 || v == 6;
    } else if v < 14 {
      assert v == 7 || v == 8 || v == 9 || v == 10 || v == 11 || v == 12 || v == 13;
    } else if v < 21 {
      assert v == 14 || v == 15 || v == 16 || v == 17 || v == 18 || v == 19 || v == 20;
    } else {
      assert v == 21 || v == 22 || v == 23 || v == 24 || v == 25;
    }
  }

  lemma SmallAt(v: int)
    requires 0 <= v < 26
    ensures |SMALLS| == 26 && SMALLS[v] as int == 97 + v
  {
    if v < 7 {
      assert v == 0 || v == 1 || v == 2 || v == 3 || v == 4 || v == 5 || v == 6;
    } else if v < 14 {
      assert v == 7 || v == 8 || v == 9 || v == 10 || v == 11 || v == 12 || v == 13;
    } else if v < 21 {
      assert v == 14 || v == 15 || v == 16 || v == 17 || v == 18 || v == 19 || v == 20;
    } else {
      assert v == 21 || v == 22 || v == 23 || v == 24 || v == 25;
    }
  }

  lemma DigitAt(v: int)
    requires 0 <= v < 10
    ensures |DIGITS| == 10 && DIGITS[v] as int == 48 + v
  {
    if v < 5 {
      assert v == 0 || v == 1 || v == 2 || v == 3 || v == 4;
    } else {
      assert v == 5 || v == 6 || v == 7 || v == 8 || v == 9;
    }
  }

  /** The sextet of each character; '=' is padding, and all others stand for nothing. */
  lemma SymbolInAlphabet(c: Byte)
    ensures forall v :: 0 <= v < 64 ==> (ALPHABET[v] == c as char <==> DecodeSymbol(c) == v)
    ensures c as char == '=' <==> c == PAD
    ensures DecodeSymbol(c) < 64 && (DecodeSymbol(c) == B64_PAD <==> c == PAD)
  {
    forall v | 0 <= v < 64
      ensures ALPHABET[v] == c as char <==> DecodeSymbol(c) == v
    {
      LetterInAlphabet(v);
      LetterDecodes(v);
    }
  }

  // ---------------------------------------------------------------- encoding

  /** One to three bytes as four characters. */
  ghost function Quad(u: seq<Byte>): (r: string)
    requires 1 <= |u| <= 3
    ensures |r| == 4
  {
    var n := Number24(u[0], if |u| > 1 then u[1] else 0, if |u| > 2 then u[2] else 0);
    [Sign(n / 0x4_0000 % 64), Sign(n / 0x1000 % 64), if |u| > 1 then Sign(n / 64 % 64) else '=',
     if |u| > 2 then Sign(n % 64) else '=']
  }

  /** The characters of some bytes. */
  ghost function Shown(s: seq<Byte>): (r: string)
    ensures |r| == |s| && forall k :: 0 <= k < |s| ==> r[k] == s[k] as char
  {
    seq(|s|, k requires 0 <= k < |s| => s[k] as char)
  }

  /** Where the group of position i + 3 * g begins, in the encoding of the bytes from position i on. */
  ghost function GroupStart(i: nat, g: nat): int { 4 * g + 2 * ((i + 3 * g) / 57 - Breaks(i)) }

  lemma SextetsOf(n: int, s: Sextets)
    requires Sixes(s) && Number(s) == n
    ensures n / 0x4_0000 % 64 == s.s0 && n / 0x1000 % 64 == s.s1 && n / 64 % 64 == s.s2 && n % 64 == s.s3
  {
    assert n / 64 == s.s0 * 4096 + s.s1 * 64 + s.s2;
    assert n / 0x1000 == s.s0 * 64 + s.s1;
  }

  lemma GroupShown(a: Byte, b: Byte, c: Byte)
    ensures Shown(Group(a, b, c)) == Quad([a, b, c])
  {
    GroupIs(a, b, c);
    hide Group, Split, Letter, Sign, Number24, Number;
    SextetsOf(Number24(a, b, c), Split(a, b, c));
    QuadLetters(Split(a, b, c));
  }

  lemma GroupIs(a: Byte, b: Byte, c: Byte)
    ensures Sixes(Split(a, b, c)) && Number(Split(a, b, c)) == Number24(a, b, c)
    ensures Group(a, b, c) == Letters(Split(a, b, c))
  {
    hide Split, Letters;
    SplitNumber(a, b, c);
  }

  lemma QuadLetters(s: Sextets)
    requires Sixes(s)
    ensures Letter(s.s0) as char == Sign(s.s0) && Letter(s.s1) as char == Sign(s.s1)
    ensures Letter(s.s2) as char == Sign(s.s2) && Letter(s.s3) as char == Sign(s.s3)
  {
    LetterInAlphabet(s.s0);
    LetterInAlphabet(s.s1);
    LetterInAlphabet(s.s2);
    LetterInAlphabet(s.s3);
  }

  lemma RestShown(s: seq<Byte>)
    requires 1 <= |s| < 3
    ensures Shown(Rest(s)) == Quad(s)
  {
    var b := if |s| > 1 then s[1] else 0;
    RestIs(s, b);
    hide Rest, Split, Letter, Sign, Number24, Number;
    SextetsOf(Number24(s[0], b, 0), Split(s[0], b, 0));
    QuadLetters(Split(s[0], b, 0));
  }

  lemma RestIs(s: seq<Byte>, b: Byte)
    requires 1 <= |s| < 3 && b == if |s| > 1 then s[1] else 0
    ensures Sixes(Split(s[0], b, 0)) && Number(Split(s[0], b, 0)) == Number24(s[0], b, 0)
    ensures var q := Split(s[0], b, 0);
      Rest(s) == [Letter(q.s0), Letter(q.s1), if |s| > 1 then Letter(q.s2) else PAD, PAD]
  {
    hide Split, Letter;
    SplitNumber(s[0], b, 0);
  }

  lemma StartHere(i: nat)
    requires i % 3 == 0
    ensures GroupStart(i, 0) == |Line(i)|
  {
    if i > 0 {
      var q, r := i / 57, i % 57;
      assert i == 57 * q + r && (i - 1) / 57 == if r == 0 then q - 1 else q;
    }
  }

  lemma StartStep(i: nat, g: nat)
    requires i % 3 == 0 && 0 < g
    ensures GroupStart(i, g) == |Line(i)| + 4 + GroupStart(i + 3, g - 1)
  {
    StartHere(i);
    BreaksNext(i);
    hide Line, Breaks;
    assert i + 3 + 3 * (g - 1) == i + 3 * g;
  }

  lemma BreaksNext(i: nat)
    requires i % 3 == 0
    ensures Breaks(i + 3) == i / 57
  {
    var q, r := i / 57, i % 57;
    assert i == 57 * q + r && r % 3 == 0 && (i + 2) / 57 == q;
  }

  lemma TakeThree(s: seq<Byte>, g: nat)
    requires 0 < g && 3 * g < |s|
    ensures Part(s, g) == Part(s[3..], g - 1)
  {
    var e := if 3 * g + 3 <= |s| then 3 * g + 3 else |s|;
    assert s[3..][3 * (g - 1)..e - 3] == s[3 * g..e];
  }

  /** The bytes of the group `g`: three, or what is left. */
  ghost function Part(s: seq<Byte>, g: nat): (r: seq<Byte>)
    requires 3 * g < |s|
    ensures 1 <= |r| <= 3
  {
    s[3 * g..if 3 * g + 3 <= |s| then 3 * g + 3 else |s|]
  }

  lemma EncodedParts(s: seq<Byte>, i: nat)
    ensures Encoded(s, i) == Line(i) + if |s| < 3 then Rest(s)
      else Group(s[0], s[1], s[2]) + Encoded(s[3..], i + 3)
    ensures |s| >= 3 ==> |Group(s[0], s[1], s[2])| == 4
  {
    if |s| >= 3 { GroupLength(s[0], s[1], s[2]); }
  }

  /** `r` stands at `at`. */
  ghost predicate Stands(t: seq<Byte>, at: int, r: string) {
    0 <= at && at + |r| <= |t| && Shown(t[at..at + |r|]) == r
  }

  lemma StandsAfter(x: seq<Byte>, t: seq<Byte>, at: int, r: string)
    requires Stands(t, at, r)
    ensures Stands(x + t, |x| + at, r)
  {
    assert (x + t)[|x| + at..|x| + at + |r|] == t[at..at + |r|];
  }

  lemma StandsFirst(x: seq<Byte>, t: seq<Byte>, r: string)
    requires Shown(x) == r
    ensures Stands(x + t, 0, r)
  {
    assert (x + t)[0..|r|] == x;
  }

  /** Each group of three bytes, and the one or two last bytes, stands as its four characters. */
  lemma {:induction false} GroupAt(s: seq<Byte>, i: nat, g: nat)
    requires i % 3 == 0 && 3 * g < |s|
    ensures Stands(Encoded(s, i), GroupStart(i, g), Quad(Part(s, g)))
    decreases |s|
  {
    hide Encoded, Group, Rest, Quad, Stands, GroupStart, Shown;
    EncodedParts(s, i);
    if g == 0 {
      StartHere(i);
      if |s| < 3 {
        RestShown(s);
        assert Part(s, 0) == s && Rest(s) + [] == Rest(s);
        StandsFirst(Rest(s), [], Quad(s));
        StandsAfter(Line(i), Rest(s), 0, Quad(s));
      } else {
        GroupShown(s[0], s[1], s[2]);
        assert Part(s, 0) == [s[0], s[1], s[2]];
        var t := Group(s[0], s[1], s[2]) + Encoded(s[3..], i + 3);
        StandsFirst(Group(s[0], s[1], s[2]), Encoded(s[3..], i + 3), Quad(Part(s, 0)));
        StandsAfter(Line(i), t, 0, Quad(Part(s, 0)));
      }
    } else {
      GroupAt(s[3..], i + 3, g - 1);
      StartStep(i, g);
      TakeThree(s, g);
      var a, t := Group(s[0], s[1], s[2]), Encoded(s[3..], i + 3);
      StandsAfter(a, t, GroupStart(i + 3, g - 1), Quad(Part(s, g)));
      StandsAfter(Line(i), a + t, 4 + GroupStart(i + 3, g - 1), Quad(Part(s, g)));
    }
  }

  lemma LineShown(i: nat)
    requires i > 0 && i % 57 == 0
    ensures |Line(i)| == 2 && Shown(Line(i)) == "\r\n"
  {
  }

  lemma GroupsTo(m: nat, i: nat)
    requires i % 3 == 0 && i < 57 * m
    ensures 0 < (57 * m - i) / 3 && 3 <= 57 * m - i && (57 * m - (i + 3)) / 3 == (57 * m - i) / 3 - 1
  {
    var d := 19 * m - i / 3;
    assert 57 * m - i == 3 * d;
  }

  /** A line break stands before the group at each multiple of 57, also when no byte is left for it. */
  lemma {:induction false} BreakAt(s: seq<Byte>, i: nat, m: nat)
    requires i % 3 == 0 && 0 < m && i <= 57 * m <= i + |s|
    ensures Stands(Encoded(s, i), GroupStart(i, (57 * m - i) / 3) - 2, "\r\n")
    decreases |s|
  {
    hide Encoded, Group, Rest, Stands, GroupStart, Shown, Line;
    EncodedParts(s, i);
    if 57 * m == i {
      StartHere(i);
      LineShown(i);
      StandsFirst(Line(i), if |s| < 3 then Rest(s) else Group(s[0], s[1], s[2]) + Encoded(s[3..], i + 3), "\r\n");
    } else {
      var g := (57 * m - i) / 3;
      GroupsTo(m, i);
      BreakAt(s[3..], i + 3, m);
      StartStep(i, g);
      var a, t := Group(s[0], s[1], s[2]), Encoded(s[3..], i + 3);
      StandsAfter(a, t, GroupStart(i + 3, g - 1) - 2, "\r\n");
      StandsAfter(Line(i), a + t, 4 + GroupStart(i + 3, g - 1) - 2, "\r\n");
    }
  }

  // ---------------------------------------------------------------- decoding

  ghost predicate IsPad(b: Byte) { b as char == '=' }

  /** The sextets of a text, up to the first padding. */
  ghost function Values(t: seq<Byte>): (r: seq<int>)
    ensures forall k :: 0 <= k < |r| ==> 0 <= r[k] < 64
  {
    if t == [] || IsPad(t[0]) then []
    else if DecodeSymbol(t[0]) >= 0 then [DecodeSymbol(t[0])] + Values(t[1..])
    else Values(t[1..])
  }

  /** The text from the first padding on. */
  ghost function Padding(t: seq<Byte>): seq<Byte> {
    if t == [] || IsPad(t[0]) then t else Padding(t[1..])
  }

  /** The whole bytes that some sextets begin with. */
  ghost function BytesOf(v: seq<int>): seq<Byte>
    requires forall k :: 0 <= k < |v| ==> 0 <= v[k] < 64
  {
    if |v| < 2 then [] else
      [v[0] * 4 + v[1] / 16] + (if |v| < 3 then [] else
      [v[1] % 16 * 16 + v[2] / 4] + (if |v| < 4 then [] else
      [v[2] % 4 * 64 + v[3]] + BytesOf(v[4..])))
  }

  /** The text ends with a group: of four letters, of three with padding, or of two with a pair of paddings. */
  ghost predicate Complete(t: seq<Byte>) {
    var n, p := |Values(t)| % 4, Padding(t);
    if n == 0 then p == [] else if n == 3 then p != [] else n == 2 && |p| > 1 && IsPad(p[1])
  }

  ghost function WholeGroups(v: seq<int>): (r: seq<int>)
    ensures |r| <= |v| && r == v[..|r|]
  {
    v[..|v| / 4 * 4]
  }

  /** What a text decodes to: the bytes of all its letters, or, when the text ends within a group, of the
      groups before that one. */
  ghost function Denoted(t: seq<Byte>): Decoded {
    if Complete(t) then Decoded(BytesOf(Values(t)), false) else Decoded(BytesOf(WholeGroups(Values(t))), true)
  }

  lemma {:induction false} SkipKeeps(t: seq<Byte>)
    ensures Values(Skip(t)) == Values(t) && Padding(Skip(t)) == Padding(t)
    ensures Skip(t) == [] ==> Values(t) == [] && Padding(t) == []
    ensures Skip(t) != [] && Skip(t)[0] == PAD ==> Values(t) == [] && Padding(t) == Skip(t)
    ensures Skip(t) != [] && Skip(t)[0] != PAD ==>
      var u := Skip(t)[1..];
      DecodeSymbol(Skip(t)[0]) >= 0 && Values(t) == [DecodeSymbol(Skip(t)[0])] + Values(u) && Padding(t) == Padding(u)
  {
    hide DecodeSymbol;
    PadSymbol();
    if !(t == [] || t[0] == PAD || DecodeSymbol(t[0]) >= 0) {
      SkipKeeps(t[1..]);
    }
  }

  lemma PadSymbol()
    ensures DecodeSymbol(PAD) == B64_PAD && forall b: Byte :: IsPad(b) <==> b == PAD
  {
  }

  ghost function Before(acc: seq<Byte>, d: Decoded): Decoded { Decoded(acc + d.bytes, d.truncated) }

  /** The codec decodes every text to what it denotes. */
  lemma {:induction false} DecodeDenoted(t: seq<Byte>, acc: seq<Byte>)
    ensures Decode(t, acc) == Before(acc, Denoted(t))
    decreases |t|
  {
    hide Skip, DecodeSymbol, Bytes, Values, Padding, BytesOf, DecodeThird, Denoted;
    SkipKeeps(t);
    var a := Skip(t);
    if a == [] || a[0] == PAD {
      NothingDenoted(t, acc);
    } else {
      SkipKeeps(a[1..]);
      var b := Skip(a[1..]);
      if b == [] || b[0] == PAD {
        OneDenoted(t, acc);
      } else {
        ThirdDenoted(t, DecodeSymbol(a[0]), DecodeSymbol(b[0]), b[1..], acc);
      }
    }
  }

  lemma NothingDenoted(t: seq<Byte>, acc: seq<Byte>)
    requires Values(t) == []
    ensures Before(acc, Denoted(t)) == Decoded(acc, Padding(t) != [])
  {
    assert acc + [] == acc;
  }

  lemma OneDenoted(t: seq<Byte>, acc: seq<Byte>)
    requires |Values(t)| == 1
    ensures Before(acc, Denoted(t)) == Decoded(acc, true)
  {
    assert acc + [] == acc;
  }

  lemma {:induction false} ThirdDenoted(t: seq<Byte>, v0: int, v1: int, u: seq<Byte>, acc: seq<Byte>)
    requires 0 <= v0 < 64 && 0 <= v1 < 64 && Values(t) == [v0, v1] + Values(u) && Padding(t) == Padding(u)
    ensures DecodeThird(v0, v1, u, acc) == Before(acc, Denoted(t))
    decreases |u|
  {
    hide Skip, DecodeSymbol, Bytes, Values, Padding, BytesOf, Denoted, Decode;
    SkipKeeps(u);
    var c := Skip(u);
    if c == [] || c[0] == PAD {
      PadSymbol();
      TwoDenoted(t, v0, v1, acc);
    } else {
      SkipKeeps(c[1..]);
      var d, v2 := Skip(c[1..]), DecodeSymbol(c[0]);
      if d == [] || d[0] == PAD {
        assert Values(t) == [v0, v1, v2];
        ThreeDenoted(t, v0, v1, v2, acc);
      } else {
        var v3, p := DecodeSymbol(d[0]), Bytes(v0, v1, v2, DecodeSymbol(d[0]));
        assert Values(t) == [v0, v1, v2, v3] + Values(d[1..]);
        DecodeDenoted(d[1..], acc + [p.0, p.1, p.2]);
        FourDenoted(t, v0, v1, v2, v3, d[1..], acc);
      }
    }
  }

  lemma BytesAre(v0: int, v1: int, v2: int, v3: int)
    requires 0 <= v0 < 64 && 0 <= v1 < 64 && 0 <= v2 < 64 && 0 <= v3 < 64
    ensures Bytes(v0, v1, v2, v3) == (v0 * 4 + v1 / 16, v1 % 16 * 16 + v2 / 4, v2 % 4 * 64 + v3)
  {
  }

  lemma TwoDenoted(t: seq<Byte>, v0: int, v1: int, acc: seq<Byte>)
    requires Values(t) == [v0, v1]
    ensures 0 <= v0 < 64 && 0 <= v1 < 64
    ensures Before(acc, Denoted(t)) == if |Padding(t)| > 1 && IsPad(Padding(t)[1])
        then Decoded(acc + [Bytes(v0, v1, 0, 0).0], false) else Decoded(acc, true)
  {
    assert Values(t)[0] == v0 && Values(t)[1] == v1;
    hide Values, Padding, Bytes;
    BytesAre(v0, v1, 0, 0);
    assert acc + [] == acc;
  }

  lemma ThreeDenoted(t: seq<Byte>, v0: int, v1: int, v2: int, acc: seq<Byte>)
    requires Values(t) == [v0, v1, v2]
    ensures 0 <= v0 < 64 && 0 <= v1 < 64 && 0 <= v2 < 64
    ensures Before(acc, Denoted(t)) == if Padding(t) != []
        then Decoded(acc + [Bytes(v0, v1, v2, 0).0, Bytes(v0, v1, v2, 0).1], false) else Decoded(acc, true)
  {
    var v := Values(t);
    assert v[0] == v0 && v[1] == v1 && v[2] == v2;
    hide Values, Padding, Bytes, BytesOf;
    BytesAre(v0, v1, v2, 0);
    BytesOfThree(v);
    assert acc + [] == acc;
  }

  lemma BytesOfThree(v: seq<int>)
    requires |v| == 3 && forall k :: 0 <= k < |v| ==> 0 <= v[k] < 64
    ensures BytesOf(v) == [v[0] * 4 + v[1] / 16, v[1] % 16 * 16 + v[2] / 4] && BytesOf(WholeGroups(v)) == []
  {
  }

  lemma FourDenoted(t: seq<Byte>, v0: int, v1: int, v2: int, v3: int, u: seq<Byte>, acc: seq<Byte>)
    requires Values(t) == [v0, v1, v2, v3] + Values(u) && Padding(t) == Padding(u)
    ensures 0 <= v0 < 64 && 0 <= v1 < 64 && 0 <= v2 < 64 && 0 <= v3 < 64
    ensures var p := Bytes(v0, v1, v2, v3); Before(acc, Denoted(t)) == Before(acc + [p.0, p.1, p.2], Denoted(u))
  {
    hide Values, Padding, Bytes, BytesOf, Complete, WholeGroups;
    var v, w := Values(t), Values(u);
    assert v[0] == v0 && v[1] == v1 && v[2] == v2 && v[3] == v3 && v[4..] == w;
    BytesAre(v0, v1, v2, v3);
    var p := Bytes(v0, v1, v2, v3);
    GroupsAfter(v, w);
    CompleteAfter(t, u);
    var x, y := if Complete(t) then v else WholeGroups(v), if Complete(u) then w else WholeGroups(w);
    BytesAfter(x, y);
    Associates(acc, [p.0, p.1, p.2], BytesOf(y));
  }

  lemma CompleteAfter(t: seq<Byte>, u: seq<Byte>)
    requires |Values(t)| % 4 == |Values(u)| % 4 && Padding(t) == Padding(u)
    ensures Complete(t) == Complete(u)
  {
    hide Values, Padding;
  }

  lemma GroupsAfter(v: seq<int>, w: seq<int>)
    requires |v| >= 4 && v[4..] == w
    ensures |v| % 4 == |w| % 4 && |WholeGroups(v)| >= 4 && WholeGroups(v)[4..] == WholeGroups(w)
    ensures forall k :: 0 <= k < 4 ==> WholeGroups(v)[k] == v[k]
  {
    assert |v| / 4 * 4 == 4 + |w| / 4 * 4;
  }

  lemma BytesAfter(v: seq<int>, w: seq<int>)
    requires |v| >= 4 && v[4..] == w && forall k :: 0 <= k < |v| ==> 0 <= v[k] < 64
    ensures forall k :: 0 <= k < |w| ==> 0 <= w[k] < 64
    ensures BytesOf(v) == [v[0] * 4 + v[1] / 16, v[1] % 16 * 16 + v[2] / 4, v[2] % 4 * 64 + v[3]] + BytesOf(w)
  {
    ThreeFirst(v[0] * 4 + v[1] / 16, v[1] % 16 * 16 + v[2] / 4, v[2] % 4 * 64 + v[3], BytesOf(w));
  }

  lemma ThreeFirst<T>(a: T, b: T, c: T, r: seq<T>)
    ensures [a] + ([b] + ([c] + r)) == [a, b, c] + r
  {
  }
}
