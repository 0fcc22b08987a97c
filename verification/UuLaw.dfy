/**
 * What UU text is, character by character and apart from the functions that the codec is proved against: the
 * place of each character of an encoding, and for any line at all the bytes that it stands for.
 */
module UuLaw {
  import opened BStrings
  import opened SextetBits
  import opened Base64
  import opened Base64Law
  import opened UuCodec

  // ---------------------------------------------------------------- encoding

  /** The character of a sextet. */
  ghost function UuSign(v: int): char
    requires 0 <= v < 64
  {
    if v == 0 then '`' else (' ' as int + v) as char
  }

  ghost function UuQuad(a: Byte, b: Byte, c: Byte): (r: string)
    ensures |r| == 4
  {
    var n := Number24(a, b, c);
    [UuSign(n / 0x4_0000 % 64), UuSign(n / 0x1000 % 64), UuSign(n / 64 % 64), UuSign(n % 64)]
  }

  lemma ByteShown(v: int)
    requires 0 <= v < 64
    ensures UuByte(v) as char == UuSign(v)
  {
  }

  lemma UuGroupShown(u: seq<Byte>)
    ensures Shown(UuGroup(u)) == UuQuad(At0(u, 0), At0(u, 1), At0(u, 2))
  {
    var a, b, c := At0(u, 0), At0(u, 1), At0(u, 2);
    SplitNumber(a, b, c);
    UuGroupIs(u);
    hide UuGroup, Split, UuByte, UuSign, UuQuad, Number24, Number, At0;
    var q := Split(a, b, c);
    QuadIs(a, b, c, q);
    ByteShown(q.s0);
    ByteShown(q.s1);
    ByteShown(q.s2);
    ByteShown(q.s3);
  }

  lemma QuadIs(a: Byte, b: Byte, c: Byte, q: Sextets)
    requires Sixes(q) && Number(q) == Number24(a, b, c)
    ensures UuQuad(a, b, c) == [UuSign(q.s0), UuSign(q.s1), UuSign(q.s2), UuSign(q.s3)]
  {
    hide UuSign, Number, Number24;
    SextetsOf(Number24(a, b, c), q);
  }

  lemma UuGroupIs(u: seq<Byte>)
    ensures var q := Split(At0(u, 0), At0(u, 1), At0(u, 2));
      Sixes(q) && UuGroup(u) == [UuByte(q.s0), UuByte(q.s1), UuByte(q.s2), UuByte(q.s3)]
  {
    hide Split, UuByte;
    SplitNumber(At0(u, 0), At0(u, 1), At0(u, 2));
  }

  /** Each three bytes stand as four characters; what is missing counts as zero. */
  lemma {:induction false} UuGroupsAt(u: seq<Byte>, g: nat)
    requires 3 * g < |u|
    ensures Stands(UuGroups(u), 4 * g, UuQuad(At0(u, 3 * g), At0(u, 3 * g + 1), At0(u, 3 * g + 2)))
    decreases |u|
  {
    hide UuGroups, UuGroup, UuQuad, Stands, Shown;
    GroupsSplit(u);
    var rest := if |u| <= 3 then [] else u[3..];
    if g == 0 {
      UuGroupShown(u);
      StandsFirst(UuGroup(u), UuGroups(rest), UuQuad(At0(u, 0), At0(u, 1), At0(u, 2)));
    } else {
      UuGroupsAt(rest, g - 1);
      assert forall k :: 0 <= k ==> At0(rest, k) == At0(u, k + 3);
      StandsAfter(UuGroup(u), UuGroups(rest), 4 * (g - 1), UuQuad(At0(u, 3 * g), At0(u, 3 * g + 1), At0(u, 3 * g + 2)));
    }
  }

  lemma {:induction false} UuGroupsSize(u: seq<Byte>)
    ensures |UuGroups(u)| == 4 * ((|u| + 2) / 3)
    decreases |u|
  {
    hide UuGroup;
    if |u| > 3 { UuGroupsSize(u[3..]); }
  }

  lemma LineSize(c: seq<Byte>)
    requires |c| <= UU_MAX_LINELEN
    ensures |UuLine(c)| == 1 + 4 * ((|c| + 2) / 3) && UuLine(c) == [UuByte(|c|)] + UuGroups(c)
  {
    UuGroupsSize(c);
  }

  /** The bytes of line `m`. */
  ghost function LineOfBytes(s: seq<Byte>, m: nat): (c: seq<Byte>)
    requires 45 * m < |s|
    ensures 1 <= |c| <= 45
  {
    s[45 * m..if 45 * m + 45 <= |s| then 45 * m + 45 else |s|]
  }

  lemma EncodedLine(s: seq<Byte>)
    requires s != []
    ensures UuEncoded(s) == UuLine(LineOfBytes(s, 0)) + (CRLF + UuEncoded(s[|LineOfBytes(s, 0)|..]))
  {
    assert Chunk(s) == LineOfBytes(s, 0);
  }

  /** The lines before line `m` take 63 bytes each. */
  lemma {:induction false} LinesBefore(s: seq<Byte>, m: nat) returns (x: seq<Byte>)
    requires 45 * m < |s|
    ensures var c := LineOfBytes(s, m);
      |x| == 63 * m && UuEncoded(s) == x + (UuLine(c) + (CRLF + UuEncoded(s[45 * m + |c|..])))
    decreases m
  {
    hide UuLine, UuEncoded;
    EncodedLine(s);
    if m == 0 {
      x := [];
      assert forall t: seq<Byte> :: [] + t == t;
    } else {
      var c, u := LineOfBytes(s, 0), s[45..];
      LineSize(c);
      var y := LinesBefore(u, m - 1);
      assert LineOfBytes(u, m - 1) == LineOfBytes(s, m);
      x := UuLine(c) + CRLF + y;
      var t := UuLine(LineOfBytes(s, m)) + (CRLF + UuEncoded(s[45 * m + |LineOfBytes(s, m)|..]));
      assert u[45 * (m - 1) + |LineOfBytes(s, m)|..] == s[45 * m + |LineOfBytes(s, m)|..];
      assert UuLine(c) + (CRLF + (y + t)) == x + t;
    }
  }

  /** Line `m` begins at 63 * m with its length, ends with CR LF, and holds its bytes in between. */
  lemma UuLineAt(s: seq<Byte>, m: nat, g: nat)
    requires 45 * m + 3 * g < |s| && g < 15
    ensures var c, e := LineOfBytes(s, m), UuEncoded(s);
      && Stands(e, 63 * m, [UuSign(|c|)])
      && Stands(e, 63 * m + 1 + 4 * g, UuQuad(s[45 * m + 3 * g], At0(c, 3 * g + 1), At0(c, 3 * g + 2)))
      && Stands(e, 63 * m + 1 + 4 * ((|c| + 2) / 3), "\r\n")
  {
    hide UuEncoded, UuLine, UuGroups, UuQuad, Stands, UuSign, UuByte;
    var c := LineOfBytes(s, m);
    var x := LinesBefore(s, m);
    LineSize(c);
    UuGroupsAt(c, g);
    LineParts(c, CRLF + UuEncoded(s[45 * m + |c|..]), g);
    BreakShown(UuEncoded(s[45 * m + |c|..]));
    var rest := CRLF + UuEncoded(s[45 * m + |c|..]);
    StandsAfter(UuLine(c), rest, 0, "\r\n");
    StandsAfter(x, UuLine(c) + rest, |UuLine(c)|, "\r\n");
    StandsAfter(x, UuLine(c) + rest, 0, [UuSign(|c|)]);
    StandsAfter(x, UuLine(c) + rest, 1 + 4 * g, UuQuad(s[45 * m + 3 * g], At0(c, 3 * g + 1), At0(c, 3 * g + 2)));
  }

  lemma BreakShown(t: seq<Byte>)
    ensures Stands(CRLF + t, 0, "\r\n")
  {
    assert (CRLF + t)[0..2] == CRLF;
  }

  lemma LineParts(c: seq<Byte>, rest: seq<Byte>, g: nat)
    requires 3 * g < |c| <= UU_MAX_LINELEN
    ensures Stands(UuLine(c) + rest, 0, [UuSign(|c|)])
    ensures Stands(UuLine(c) + rest, 1 + 4 * g, UuQuad(At0(c, 3 * g), At0(c, 3 * g + 1), At0(c, 3 * g + 2)))
  {
    hide UuGroups, UuQuad, Stands, UuLine, UuByte, UuSign, Shown;
    LineSize(c);
    ByteShown(|c|);
    UuGroupsAt(c, g);
    var q := UuQuad(At0(c, 3 * g), At0(c, 3 * g + 1), At0(c, 3 * g + 2));
    StandsBefore(UuGroups(c), rest, 4 * g, q);
    StandsAfter([UuByte(|c|)], UuGroups(c) + rest, 4 * g, q);
    OneShown(UuByte(|c|), UuSign(|c|));
    StandsFirst([UuByte(|c|)], UuGroups(c) + rest, [UuSign(|c|)]);
    Associates([UuByte(|c|)], UuGroups(c), rest);
  }

  lemma OneShown(b: Byte, c: char)
    requires b as char == c
    ensures Shown([b]) == [c]
  {
  }

  lemma StandsBefore(t: seq<Byte>, y: seq<Byte>, at: int, r: string)
    requires Stands(t, at, r)
    ensures Stands(t + y, at, r)
  {
    assert (t + y)[at..at + |r|] == t[at..at + |r|];
  }

  ghost function UuSize(n: nat): int { 63 * (n / 45) + if n % 45 == 0 then 0 else 3 + 4 * ((n % 45 + 2) / 3) }

  lemma SizeStep(n: nat)
    ensures n > 45 ==> UuSize(n) == 63 + UuSize(n - 45)
    ensures 0 < n <= 45 ==> UuSize(n) == 3 + 4 * ((n + 2) / 3)
  {
    if n > 45 {
      var q, r := n / 45, n % 45;
      assert n - 45 == 45 * (q - 1) + r && (n - 45) / 45 == q - 1 && (n - 45) % 45 == r;
    }
  }

  /** The length of an encoding: 63 for each full line, and three more than the groups for the last one. */
  lemma {:induction false} UuLength(s: seq<Byte>)
    ensures |UuEncoded(s)| == UuSize(|s|)
    decreases |s|
  {
    if s != [] {
      hide UuEncoded, UuLine, UuSize;
      EncodedLine(s);
      var c := LineOfBytes(s, 0);
      LineSize(c);
      SizeStep(|s|);
      UuLength(s[|c|..]);
      if |s| <= 45 { NoLines(); }
    }
  }

  lemma NoLines()
    ensures UuSize(0) == 0
  {
  }

  // ---------------------------------------------------------------- decoding

  /** A character that stands for a sextet. */
  ghost predicate InRange(d: int) { ' ' as int <= d <= '`' as int }

  ghost function SextetOf(d: int): (v: int)
    requires InRange(d)
    ensures 0 <= v < 64
  {
    if d == '`' as int then 0 else d - ' ' as int
  }

  /** White space, and the end of the text, may stand in the place of a character. */
  ghost predicate Tolerated(d: int) {
    InRange(d) || d == ' ' as int - 1 || '\t' as int <= d <= '\r' as int
  }

  /** How many characters `n` bytes are read from. */
  ghost function Used(n: nat): nat { 4 * (n / 3) + if n % 3 == 0 then 0 else n % 3 + 1 }

  /** The sextet of the character `k`: zero if it stands for none. The first two characters of a group count
      as zero together. */
  ghost function Counted(s: seq<Byte>, p: int, k: nat): (v: int)
    ensures 0 <= v < 64
  {
    var d := CharAt(s, p + k);
    var other := if k % 4 == 0 then CharAt(s, p + k + 1) else if k % 4 == 1 then CharAt(s, p + k - 1) else d;
    if InRange(d) && InRange(other) then SextetOf(d) else 0
  }

  /** The byte `j`, from the sextets of its group. */
  ghost function ByteAt(s: seq<Byte>, p: int, j: nat): Byte {
    var k := 4 * (j / 3);
    if j % 3 == 0 then Counted(s, p, k) * 4 + Counted(s, p, k + 1) / 16
    else if j % 3 == 1 then Counted(s, p, k + 1) % 16 * 16 + Counted(s, p, k + 2) / 4
    else Counted(s, p, k + 2) % 4 * 64 + Counted(s, p, k + 3)
  }

  ghost function BytesAt(s: seq<Byte>, p: int, n: nat): (r: seq<Byte>)
    ensures |r| == n && forall j :: 0 <= j < n ==> r[j] == ByteAt(s, p, j)
  {
    seq(n, j requires 0 <= j < n => ByteAt(s, p, j))
  }

  /** The characters that `n` bytes are read from. */
  ghost function Read(s: seq<Byte>, p: int, n: nat): (r: seq<int>)
    ensures |r| == Used(n) && forall k :: 0 <= k < |r| ==> r[k] == CharAt(s, p + k)
  {
    seq(Used(n), k requires 0 <= k < Used(n) => CharAt(s, p + k))
  }

  /** A character that is read cannot stand in a line. */
  ghost predicate Spoilt(s: seq<Byte>, p: int, n: nat) { exists d :: d in Read(s, p, n) && !Tolerated(d) }

  /** A character that is read stands for no sextet. */
  ghost predicate Doubtful(s: seq<Byte>, p: int, n: nat) { exists d :: d in Read(s, p, n) && !InRange(d) }

  /** The text ends before the last group of `n` bytes begins. */
  ghost predicate Short(s: seq<Byte>, i: int, n: nat) { n > 0 && |s| <= i + 4 * ((n - 1) / 3) }

  /** What a line after `t` stands for. */
  ghost function LineDenoted(s: seq<Byte>, ofs: int, t: seq<Byte>): Outcome
    requires 0 <= ofs < |s|
  {
    if !InRange(s[ofs]) || SextetOf(s[ofs]) > 45 then Outcome(t, true)
    else
      var n := SextetOf(s[ofs]);
      if Short(s, 1, n) || Spoilt(s, 1 + ofs, n) then Outcome(t, true)
      else Outcome(t + BytesAt(s, 1 + ofs, n), Doubtful(s, 1 + ofs, n))
  }

  lemma SextetIs(d: int)
    ensures InRange(d) <==> !Outside(UuValue(d))
    ensures InRange(d) ==> UuValue(d) == SextetOf(d)
    ensures !Tolerated(d) <==> Wrong(d)
    ensures Wrong(d) ==> !InRange(d)
  {
  }

  // The characters of the first group, and those of the others.
  lemma ReadStep(s: seq<Byte>, p: int, n: nat)
    requires n > 0
    ensures var d0, d1, d2, d3 := CharAt(s, p), CharAt(s, p + 1), CharAt(s, p + 2), CharAt(s, p + 3);
      Read(s, p, n) == if n == 1 then [d0, d1] else if n == 2 then [d0, d1, d2]
        else [d0, d1, d2, d3] + Read(s, p + 4, n - 3)
    ensures Read(s, p, 0) == []
  {
    hide CharAt;
  }

  lemma SpoiltStep(s: seq<Byte>, p: int, n: nat)
    requires n > 0
    ensures Spoilt(s, p, n) == (Wrong(CharAt(s, p)) || Wrong(CharAt(s, p + 1))
      || (n > 1 && Wrong(CharAt(s, p + 2))) || (n > 2 && (Wrong(CharAt(s, p + 3)) || Spoilt(s, p + 4, n - 3))))
  {
    hide CharAt, Tolerated, Wrong, Read;
    ReadStep(s, p, n);
    forall d: int ensures !Tolerated(d) <==> Wrong(d) { SextetIs(d); }
    assert n > 2 ==> forall d :: d in Read(s, p + 4, n - 3) ==> d in Read(s, p, n);
    assert CharAt(s, p) in Read(s, p, n) && CharAt(s, p + 1) in Read(s, p, n);
    assert n > 1 ==> CharAt(s, p + 2) in Read(s, p, n);
    assert n > 2 ==> CharAt(s, p + 3) in Read(s, p, n);
  }

  lemma DoubtfulStep(s: seq<Byte>, p: int, n: nat)
    requires n > 0
    ensures Doubtful(s, p, n) == (!InRange(CharAt(s, p)) || !InRange(CharAt(s, p + 1))
      || (n > 1 && !InRange(CharAt(s, p + 2))) || (n > 2 && (!InRange(CharAt(s, p + 3)) || Doubtful(s, p + 4, n - 3))))
  {
    hide CharAt, InRange, Read;
    ReadStep(s, p, n);
    assert n > 2 ==> forall d :: d in Read(s, p + 4, n - 3) ==> d in Read(s, p, n);
    assert CharAt(s, p) in Read(s, p, n) && CharAt(s, p + 1) in Read(s, p, n);
    assert n > 1 ==> CharAt(s, p + 2) in Read(s, p, n);
    assert n > 2 ==> CharAt(s, p + 3) in Read(s, p, n);
  }

  /** The sextets of a group of four characters. */
  ghost function GroupSextets(s: seq<Byte>, p: int): (q: Sextets)
    ensures Sixes(q)
  {
    var d0, d1, d2, d3 := CharAt(s, p), CharAt(s, p + 1), CharAt(s, p + 2), CharAt(s, p + 3);
    var both := InRange(d0) && InRange(d1);
    Sextets(if both then SextetOf(d0) else 0, if both then SextetOf(d1) else 0,
      if InRange(d2) then SextetOf(d2) else 0, if InRange(d3) then SextetOf(d3) else 0)
  }

  /** The three bytes of four sextets. */
  ghost function Three(q: Sextets): (r: seq<Byte>)
    requires Sixes(q)
    ensures |r| == 3
  {
    [q.s0 * 4 + q.s1 / 16, q.s1 % 16 * 16 + q.s2 / 4, q.s2 % 4 * 64 + q.s3]
  }

  // The bytes of the first group, and those of the others.
  lemma BytesStep(s: seq<Byte>, p: int, n: nat)
    requires n > 0
    ensures var b := Three(GroupSextets(s, p));
      BytesAt(s, p, n) == if n <= 2 then b[..n] else b + BytesAt(s, p + 4, n - 3)
  {
    hide CharAt, InRange, SextetOf, Counted, ByteAt, Three, GroupSextets;
    FirstBytes(s, p);
    forall j: nat | 3 <= j < n
      ensures BytesAt(s, p, n)[j] == BytesAt(s, p + 4, n - 3)[j - 3]
    {
      ByteOn(s, p, j - 3);
    }
  }

  lemma FirstBytes(s: seq<Byte>, p: int)
    ensures Three(GroupSextets(s, p)) == [ByteAt(s, p, 0), ByteAt(s, p, 1), ByteAt(s, p, 2)]
  {
    hide CharAt, InRange, SextetOf, Counted, GroupSextets;
    FirstCounted(s, p);
  }

  lemma FirstCounted(s: seq<Byte>, p: int)
    ensures GroupSextets(s, p) == Sextets(Counted(s, p, 0), Counted(s, p, 1), Counted(s, p, 2), Counted(s, p, 3))
  {
    hide CharAt, InRange, SextetOf;
  }

  lemma ByteOn(s: seq<Byte>, p: int, j: nat)
    ensures ByteAt(s, p, j + 3) == ByteAt(s, p + 4, j)
  {
    hide CharAt, InRange, SextetOf;
    var k := 4 * (j / 3);
    assert 4 * ((j + 3) / 3) == k + 4 && (j + 3) % 3 == j % 3;
    CountedOn(s, p, k);
    CountedOn(s, p, k + 1);
    CountedOn(s, p, k + 2);
    CountedOn(s, p, k + 3);
  }

  lemma CountedOn(s: seq<Byte>, p: int, k: nat)
    ensures Counted(s, p, k + 4) == Counted(s, p + 4, k)
  {
    hide CharAt, InRange, SextetOf;
    assert (k + 4) % 4 == k % 4;
  }

  // The rest of a line, from the group at `i` on: `n` bytes are missing.
  ghost function RestDenoted(s: seq<Byte>, ofs: int, i: int, t: seq<Byte>, n: nat, bad: bool, start: seq<Byte>):
    Outcome
  {
    if Short(s, i, n) || Spoilt(s, i + ofs, n) then Outcome(start, true)
    else Outcome(t + BytesAt(s, i + ofs, n), bad || Doubtful(s, i + ofs, n))
  }

  lemma {:induction false} BodyDenoted(s: seq<Byte>, ofs: int, i: int, t: seq<Byte>, n: nat, bad: bool,
          start: seq<Byte>)
    ensures UuBody(s, ofs, i, t, |t| + n, bad, start) == RestDenoted(s, ofs, i, t, n, bad, start)
    decreases n
  {
    hide UuBody, Spoilt, Doubtful, BytesAt, CharAt, InRange, SextetOf, UuValue, Wrong, Outside, Three, GroupSextets;
    if n == 0 {
      NothingRead(s, ofs, i, t, bad, start);
    } else if i >= |s| {
      BodyEnds(s, ofs, i, t, |t| + n, bad, start);
    } else {
      SpoiltStep(s, i + ofs, n);
      DoubtfulStep(s, i + ofs, n);
      BytesStep(s, i + ofs, n);
      GroupDenoted(s, ofs, i, t, n, bad, start);
      if n > 2 {
        var b := Three(GroupSextets(s, i + ofs));
        Associates(t, b, BytesAt(s, i + ofs + 4, n - 3));
        BodyDenoted(s, ofs, i + 4, t + b, n - 3, bad || DoubtfulGroup(s, i + ofs), start);
        assert i + 4 + ofs == i + ofs + 4;
        ShortStep(s, i, n);
      }
    }
  }

  lemma ShortStep(s: seq<Byte>, i: int, n: nat)
    requires i < |s| && n > 2
    ensures Short(s, i, n) == Short(s, i + 4, n - 3)
  {
    if n > 3 { assert (n - 3 - 1) / 3 == (n - 1) / 3 - 1; }
  }

  lemma NothingRead(s: seq<Byte>, ofs: int, i: int, t: seq<Byte>, bad: bool, start: seq<Byte>)
    ensures UuBody(s, ofs, i, t, |t|, bad, start) == RestDenoted(s, ofs, i, t, 0, bad, start)
  {
    assert Read(s, i + ofs, 0) == [] && t + [] == t;
  }

  ghost predicate DoubtfulGroup(s: seq<Byte>, p: int) {
    !InRange(CharAt(s, p)) || !InRange(CharAt(s, p + 1)) || !InRange(CharAt(s, p + 2)) || !InRange(CharAt(s, p + 3))
  }

  // One group of a line.
  lemma GroupDenoted(s: seq<Byte>, ofs: int, i: int, t: seq<Byte>, n: nat, bad: bool, start: seq<Byte>)
    requires n > 0 && i < |s|
    ensures var p := i + ofs;
      var d0, d1, d2, d3 := CharAt(s, p), CharAt(s, p + 1), CharAt(s, p + 2), CharAt(s, p + 3);
      var b := BytesAt(s, p, n);
      UuBody(s, ofs, i, t, |t| + n, bad, start) ==
      if Wrong(d0) || Wrong(d1) || (n > 1 && Wrong(d2)) || (n > 2 && Wrong(d3)) then Outcome(start, true)
      else if n == 1 then Outcome(t + b, bad || !InRange(d0) || !InRange(d1))
      else if n == 2 then Outcome(t + b, bad || !InRange(d0) || !InRange(d1) || !InRange(d2))
      else UuBody(s, ofs, i + 4, t + Three(GroupSextets(s, p)), |t| + n, bad || DoubtfulGroup(s, p), start)
  {
    hide CharAt, InRange, SextetOf, UuValue, Wrong, Outside, BytesAt, UuBody, Three, GroupSextets;
    BytesStep(s, i + ofs, n);
    GroupBody(s, ofs, i, t, |t| + n, bad, start);
  }

  lemma GroupBody(s: seq<Byte>, ofs: int, i: int, t: seq<Byte>, goal: int, bad: bool, start: seq<Byte>)
    requires i < |s| && |t| < goal
    ensures var p, n, b := i + ofs, goal - |t|, Three(GroupSextets(s, i + ofs));
      var d0, d1, d2, d3 := CharAt(s, p), CharAt(s, p + 1), CharAt(s, p + 2), CharAt(s, p + 3);
      UuBody(s, ofs, i, t, goal, bad, start) ==
      if Wrong(d0) || Wrong(d1) || (n > 1 && Wrong(d2)) || (n > 2 && Wrong(d3)) then Outcome(start, true)
      else if n == 1 then Outcome(t + b[..1], bad || !InRange(d0) || !InRange(d1))
      else if n == 2 then Outcome(t + b[..2], bad || !InRange(d0) || !InRange(d1) || !InRange(d2))
      else UuBody(s, ofs, i + 4, t + b, goal, bad || DoubtfulGroup(s, p), start)
  {
    hide CharAt, InRange, SextetOf, UuValue, Wrong, Outside, Bytes, Three;
    var p, q := i + ofs, GroupSextets(s, i + ofs);
    SextetIs(CharAt(s, p));
    SextetIs(CharAt(s, p + 1));
    SextetIs(CharAt(s, p + 2));
    SextetIs(CharAt(s, p + 3));
    ThreeAre(q);
  }

  lemma ThreeAre(q: Sextets)
    requires Sixes(q)
    ensures Three(q)[..1] == [Bytes(q.s0, q.s1, 0, 0).0]
    ensures Three(q)[..2] == [Bytes(q.s0, q.s1, q.s2, 0).0, Bytes(q.s0, q.s1, q.s2, 0).1]
    ensures var b := Bytes(q.s0, q.s1, q.s2, q.s3); Three(q) == [b.0, b.1, b.2]
  {
    hide Bytes;
    BytesAre(q.s0, q.s1, 0, 0);
    BytesAre(q.s0, q.s1, q.s2, 0);
    BytesAre(q.s0, q.s1, q.s2, q.s3);
    assert 0 / 4 == 0;
  }

  /** The decoder makes of every line what it stands for. */
  lemma UuDecodedDenoted(s: seq<Byte>, ofs: int, t: seq<Byte>)
    requires 0 <= ofs < |s|
    ensures UuDecoded(s, ofs, t) == LineDenoted(s, ofs, t)
  {
    hide UuBody, Spoilt, Doubtful, BytesAt;
    SextetIs(s[ofs]);
    if InRange(s[ofs]) {
      BodyDenoted(s, ofs, 1, t, SextetOf(s[ofs]), false, t);
    }
  }
}
