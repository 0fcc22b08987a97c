/** The UU encoding of src/bstring/bstraux.c:495-573 and 715-753. */
module UuCodec {
  import opened BStrings
  import opened SextetBits
  import opened Base64

  const UU_MAX_LINELEN: nat := 45

  /** UU_ENCODE_BYTE, line 715. */
  function UuByte(v: int): (c: Byte)
    requires 0 <= v < 64
    ensures 32 < c <= 96
  {
    if v == 0 then 96 else v + 32
  }

  /** UU_DECODE_BYTE, line 495. */
  function UuValue(c: int): int { if c == 96 then 0 else c - 32 }

  lemma UuByteValue(v: int)
    requires 0 <= v < 64
    ensures UuValue(UuByte(v)) == v
  {
  }

  function At0(s: seq<Byte>, k: nat): Byte { if k < |s| then s[k] else 0 }

  /** Three bytes as four characters; missing bytes count as zero. */
  function UuGroup(s: seq<Byte>): (r: seq<Byte>)
    ensures |r| == 4 && forall k :: 0 <= k < 4 ==> 32 < r[k] <= 96
  {
    SplitNumber(At0(s, 0), At0(s, 1), At0(s, 2));
    var q := Split(At0(s, 0), At0(s, 1), At0(s, 2));
    [UuByte(q.s0), UuByte(q.s1), UuByte(q.s2), UuByte(q.s3)]
  }

  function UuGroups(s: seq<Byte>): (r: seq<Byte>)
    ensures forall k :: 0 <= k < |r| ==> 32 < r[k] <= 96
    decreases |s|
  {
    if s == [] then [] else UuGroup(s) + (if |s| <= 3 then [] else UuGroups(s[3..]))
  }

  /** A line for at most 45 bytes, without its end. */
  function UuLine(s: seq<Byte>): (r: seq<Byte>)
    requires |s| <= UU_MAX_LINELEN
    ensures r != [] && forall k :: 0 <= k < |r| ==> 32 < r[k] <= 96
  {
    [UuByte(|s|)] + UuGroups(s)
  }

  function Chunk(s: seq<Byte>): (r: seq<Byte>)
    ensures |r| <= UU_MAX_LINELEN && |r| <= |s| && r == s[..|r|] && (s != [] ==> r != [])
  {
    if |s| > UU_MAX_LINELEN then s[..UU_MAX_LINELEN] else s
  }

  function UuEncoded(s: seq<Byte>): seq<Byte>
    decreases |s|
  {
    if s == [] then [] else UuLine(Chunk(s)) + (CRLF + UuEncoded(s[|Chunk(s)|..]))
  }

  // ---------------------------------------------------------------- decoding

  /** A line adds bytes to the text, or is bad and adds none, or is bad and adds what could be read. */
  datatype Outcome = Outcome(text: seq<Byte>, bad: bool)

  // bchare with ' ' - 1 for what lies past the end.
  function CharAt(s: seq<Byte>, k: int): int { if 0 <= k < |s| then s[k] else 31 }

  predicate IsSpace(c: int) { 9 <= c <= 13 || c == 32 }

  /** A character that cannot stand in a line at all. */
  predicate Wrong(d: int) { d > 0x60 || (d < 31 && !IsSpace(d)) }

  /** Not the value of a sextet: as an unsigned number it is at least 0x40. */
  predicate Outside(c: int) { c < 0 || c >= 0x40 }

  function Valued(c: int): (v: int)
    ensures 0 <= v < 64
  {
    if Outside(c) then 0 else c
  }

  /** The groups of a line from `i` on, until `goal` bytes are there (lines 522-566). */
  function UuBody(s: seq<Byte>, ofs: int, i: int, t: seq<Byte>, goal: int, bad: bool, start: seq<Byte>): Outcome
    decreases |s| - i
  {
    if i >= |s| || |t| >= goal then
      if |t| < goal then Outcome(start, true) else Outcome(t, bad)
    else
      var d0, d1 := CharAt(s, i + ofs), CharAt(s, i + ofs + 1);
      var d2, d3 := CharAt(s, i + ofs + 2), CharAt(s, i + ofs + 3);
      var low := Outside(UuValue(d0)) || Outside(UuValue(d1));
      if low && (Wrong(d0) || Wrong(d1)) then Outcome(start, true)
      else
        var c0, c1 := if low then 0 else UuValue(d0), if low then 0 else UuValue(d1);
        if |t| + 1 >= goal then Outcome(t + [Bytes(c0, c1, 0, 0).0], bad || low)
        else if Outside(UuValue(d2)) && Wrong(d2) then Outcome(start, true)
        else
          var bad2 := bad || low || Outside(UuValue(d2));
          var p := Bytes(c0, c1, Valued(UuValue(d2)), 0);
          if |t| + 2 >= goal then Outcome(t + [p.0, p.1], bad2)
          else if Outside(UuValue(d3)) && Wrong(d3) then Outcome(start, true)
          else
            var q := Bytes(c0, c1, Valued(UuValue(d2)), Valued(UuValue(d3)));
            UuBody(s, ofs, i + 4, t + [q.0, q.1, q.2], goal, bad2 || Outside(UuValue(d3)), start)
  }

  /** The line of `s` at `ofs`, after the text `t`. */
  function UuDecoded(s: seq<Byte>, ofs: int, t: seq<Byte>): Outcome
    requires 0 <= ofs < |s|
  {
    var l := UuValue(s[ofs]);
    if l < 0 || l > UU_MAX_LINELEN then Outcome(t, true) else UuBody(s, ofs, 1, t, l + |t|, false, t)
  }

  lemma GroupsSplit(s: seq<Byte>)
    requires s != []
    ensures UuGroups(s) == UuGroup(s) + UuGroups(if |s| <= 3 then [] else s[3..])
  {
  }

  lemma PartAt(s: seq<Byte>, i: int, g: seq<Byte>, rest: seq<Byte>)
    requires 0 <= i <= |s| && s[i..] == g + rest
    ensures i + |g| <= |s| && s[i + |g|..] == rest && forall k :: 0 <= k < |g| ==> CharAt(s, i + k) == g[k]
  {
    assert |s[i..]| == |g| + |rest|;
    forall k | 0 <= k < |g|
      ensures s[i + k] == g[k]
    {
      assert s[i..][k] == (g + rest)[k];
    }
    assert s[i + |g|..] == s[i..][|g|..] == rest;
  }

  // The four characters of a group, where they stand.
  lemma GroupAt(s: seq<Byte>, i: int, u: seq<Byte>, rest: seq<Byte>)
    requires 0 <= i <= |s| && s[i..] == UuGroup(u) + rest
    ensures i + 4 <= |s| && s[i + 4..] == rest
    ensures Shows(s, i, Split(At0(u, 0), At0(u, 1), At0(u, 2)))
  {
    GroupValues(u);
    var g := UuGroup(u);
    hide UuGroup, Split, UuValue, CharAt;
    PartAt(s, i, g, rest);
    assert CharAt(s, i + 0) == g[0] && CharAt(s, i + 1) == g[1] && CharAt(s, i + 2) == g[2] && CharAt(s, i + 3) == g[3];
  }

  lemma GroupValues(u: seq<Byte>)
    ensures var q, g := Split(At0(u, 0), At0(u, 1), At0(u, 2)), UuGroup(u);
      Sixes(q) && UuValue(g[0]) == q.s0 && UuValue(g[1]) == q.s1 && UuValue(g[2]) == q.s2 && UuValue(g[3]) == q.s3
  {
    SplitNumber(At0(u, 0), At0(u, 1), At0(u, 2));
    var q := Split(At0(u, 0), At0(u, 1), At0(u, 2));
    hide Split, UuByte, UuValue;
    UuByteValue(q.s0);
    UuByteValue(q.s1);
    UuByteValue(q.s2);
    UuByteValue(q.s3);
  }

  // The sextets of a group, and the bytes that they give.
  ghost predicate Gives(q: Sextets, a: Byte, b: Byte, c: Byte) {
    && Sixes(q) && Bytes(q.s0, q.s1, 0, 0).0 == a
    && Bytes(q.s0, q.s1, q.s2, 0).0 == a && Bytes(q.s0, q.s1, q.s2, 0).1 == b
    && Bytes(q.s0, q.s1, q.s2, q.s3).0 == a && Bytes(q.s0, q.s1, q.s2, q.s3).1 == b
    && Bytes(q.s0, q.s1, q.s2, q.s3).2 == c
  }

  // The four characters at `i` have these values.
  ghost predicate Shows(s: seq<Byte>, i: int, q: Sextets) {
    && UuValue(CharAt(s, i)) == q.s0 && UuValue(CharAt(s, i + 1)) == q.s1
    && UuValue(CharAt(s, i + 2)) == q.s2 && UuValue(CharAt(s, i + 3)) == q.s3
  }

  // A group whose four characters all have values.
  lemma BodyStep(s: seq<Byte>, i: int, t: seq<Byte>, goal: int, start: seq<Byte>, q: Sextets, a: Byte, b: Byte, c: Byte)
    requires 0 <= i < |s| && |t| < goal && Shows(s, i, q) && Gives(q, a, b, c)
    ensures UuBody(s, 0, i, t, goal, false, start) ==
      if |t| + 1 >= goal then Outcome(t + [a], false)
      else if |t| + 2 >= goal then Outcome(t + [a, b], false)
      else UuBody(s, 0, i + 4, t + [a, b, c], goal, false, start)
  {
    hide Bytes, CharAt, UuValue, Wrong;
  }

  // The bytes that a group gives back.
  lemma GroupBytes(u: seq<Byte>)
    requires u != []
    ensures var q := Split(At0(u, 0), At0(u, 1), At0(u, 2));
      Gives(q, At0(u, 0), At0(u, 1), At0(u, 2))
  {
    var a, b, c := At0(u, 0), At0(u, 1), At0(u, 2);
    JoinSplit(a, b, c);
    PartialGroup(a, b, c);
    hide Split, Join;
  }

  // The first bytes do not depend on the sextets that are left out.
  lemma PartialGroup(a: Byte, b: Byte, c: Byte)
    ensures var q := Split(a, b, c);
      Sixes(q) && Bytes(q.s0, q.s1, 0, 0).0 ==
        a && Bytes(q.s0, q.s1, q.s2, 0).0 == a && Bytes(q.s0, q.s1, q.s2, 0).1 == b
  {
    SplitNumber(a, b, c);
    hide Split, Join;
  }

  lemma UptoThree(t: seq<Byte>, u: seq<Byte>)
    requires u != []
    ensures |u| == 1 ==> t + [At0(u, 0)] == t + u
    ensures |u| == 2 ==> t + [At0(u, 0), At0(u, 1)] == t + u
    ensures |u| > 2 ==> t + [At0(u, 0), At0(u, 1), At0(u, 2)] + (if |u| <= 3 then [] else u[3..]) == t + u
  {
    var v := if |u| == 1 then [At0(u, 0)] else if |u| == 2 then [At0(u, 0), At0(u, 1)]
      else [At0(u, 0), At0(u, 1), At0(u, 2)] + (if |u| <= 3 then [] else u[3..]);
    assert u == v;
    if |u| > 2 { Associates(t, [At0(u, 0), At0(u, 1), At0(u, 2)], if |u| <= 3 then [] else u[3..]); }
  }

  lemma NoGroupsLeft(s: seq<Byte>, i: int, t: seq<Byte>, start: seq<Byte>)
    requires 0 <= i <= |s|
    ensures UuBody(s, 0, i, t, |t|, false, start) == Outcome(t, false)
  {
  }

  /** A line gives back the bytes that it was made of. */
  lemma {:induction false} BodyDecodes(s: seq<Byte>, i: int, u: seq<Byte>, t: seq<Byte>, start: seq<Byte>)
    requires 0 <= i <= |s| && s[i..] == UuGroups(u)
    ensures UuBody(s, 0, i, t, |t| + |u|, false, start) == Outcome(t + u, false)
    decreases |u|
  {
    hide UuGroups, UuGroup, UuBody, Shows, Split, Gives;
    if u == [] {
      assert t + u == t;
      NoGroupsLeft(s, i, t, start);
    } else {
      var rest := if |u| <= 3 then [] else u[3..];
      GroupsSplit(u);
      GroupAt(s, i, u, UuGroups(rest));
      GroupBytes(u);
      BodyStep(s, i, t, |t| + |u|, start, Split(At0(u, 0), At0(u, 1), At0(u, 2)), At0(u, 0), At0(u, 1), At0(u, 2));
      UptoThree(t, u);
      if |u| > 2 {
        BodyDecodes(s, i + 4, rest, t + [At0(u, 0), At0(u, 1), At0(u, 2)], start);
      }
    }
  }

  lemma LineDecodes(u: seq<Byte>, t: seq<Byte>)
    requires |u| <= UU_MAX_LINELEN
    ensures UuDecoded(UuLine(u), 0, t) == Outcome(t + u, false)
  {
    hide UuBody, UuGroups, UuByte, UuValue;
    UuByteValue(|u|);
    assert UuLine(u)[1..] == UuGroups(u);
    BodyDecodes(UuLine(u), 1, u, t, t);
  }

  // ---------------------------------------------------------------- all lines

  predicate IsEnd(c: Byte) { c == 13 || c == 10 }

  /** The text up to the next end of a line. */
  function Upto(t: seq<Byte>): (n: nat)
    ensures n <= |t| && (n < |t| ==> IsEnd(t[n])) && forall k :: 0 <= k < n ==> !IsEnd(t[k])
  {
    if t == [] || IsEnd(t[0]) then 0 else 1 + Upto(t[1..])
  }

  /** All lines of a text, decoded one after the other; empty ones are left out (lines 633-652, 661). */
  function DecodeLines(t: seq<Byte>, acc: seq<Byte>): seq<Byte>
    decreases |t|
  {
    if t == [] then acc
    else
      var n := Upto(t);
      var acc' := if n == 0 then acc else UuDecoded(t[..n], 0, acc).text;
      if n == |t| then acc' else DecodeLines(t[n + 1..], acc')
  }

  lemma {:induction false} UptoIs(t: seq<Byte>, n: nat)
    requires n < |t| && IsEnd(t[n]) && forall k :: 0 <= k < n ==> !IsEnd(t[k])
    ensures Upto(t) == n
  {
    if n > 0 { UptoIs(t[1..], n - 1); }
  }

  lemma LineStep(l: seq<Byte>, rest: seq<Byte>, acc: seq<Byte>)
    requires l != [] && forall k :: 0 <= k < |l| ==> !IsEnd(l[k])
    ensures DecodeLines(l + (CRLF + rest), acc) == DecodeLines(rest, UuDecoded(l, 0, acc).text)
  {
    hide UuDecoded;
    var t := l + (CRLF + rest);
    assert t[|l|] == 13;
    assert forall k :: 0 <= k < |l| ==> t[k] == l[k];
    UptoIs(t, |l|);
    assert t[..|l|] == l && t[|l| + 1..] == [10] + rest;
    UptoIs([10] + rest, 0);
    assert ([10] + rest)[1..] == rest;
  }

  /** Decoding the lines of an encoding rebuilds the bytes. */
  lemma {:induction false} UuRoundTrip(s: seq<Byte>, acc: seq<Byte>)
    ensures DecodeLines(UuEncoded(s), acc) == acc + s
    decreases |s|
  {
    if s == [] {
      assert acc + s == acc;
    } else {
      var c := Chunk(s);
      ChunkSplit(s);
      hide UuLine, DecodeLines, UuDecoded, Chunk;
      LineStep(UuLine(c), UuEncoded(s[|c|..]), acc);
      LineDecodes(c, acc);
      UuRoundTrip(s[|c|..], acc + c);
      Associates(acc, c, s[|c|..]);
    }
  }

  lemma ChunkSplit(s: seq<Byte>)
    ensures s == Chunk(s) + s[|Chunk(s)|..]
  {
  }

  // ---------------------------------------------------------------- the loops

  // The groups of a line from position `j` on.
  function GroupsFrom(s: seq<Byte>, j: nat, jm: nat): seq<Byte> {
    if j < jm <= |s| then UuGroups(s[j..jm]) else []
  }

  lemma GroupOf(s: seq<Byte>, j: nat, jm: nat)
    requires j < jm <= |s| && (jm == |s| || (jm - j) % 3 == 0)
    ensures GroupsFrom(s, j, jm) == UuGroup([s[j], At0(s, j + 1), At0(s, j + 2)]) + GroupsFrom(s, j + 3, jm)
    ensures GroupsFrom(s, j, jm) == UuGroups(s[j..jm])
  {
    var u, v := s[j..jm], [s[j], At0(s, j + 1), At0(s, j + 2)];
    assert forall k: nat :: k < 3 ==> At0(u, k) == At0(v, k);
    assert jm - j > 3 ==> u[3..] == s[j + 3..jm];
    hide Split;
  }

  lemma LineOf(s: seq<Byte>, i: nat)
    requires i < |s|
    ensures var jm := if i + UU_MAX_LINELEN > |s| then |s| else i + UU_MAX_LINELEN;
      UuEncoded(s[i..]) == [UuByte(jm - i)] + (UuGroups(s[i..jm]) + (CRLF + UuEncoded(s[jm..])))
  {
    var jm := if i + UU_MAX_LINELEN > |s| then |s| else i + UU_MAX_LINELEN;
    var u, c := s[i..], Chunk(s[i..]);
    assert c == s[i..jm] && u[|c|..] == s[jm..];
    Associates([UuByte(|c|)], UuGroups(c), CRLF + UuEncoded(s[jm..]));
  }

  /** bUuEncode, src/bstring/bstraux.c:722-753. It fails just for a text that is too long. */
  method UuEncode(src: BString) returns (out: BString?)
    requires src.Sound()
    ensures out == null <==> src.slen < 0 || |UuEncoded(src.Text())| >= INT_MAX
    ensures out != null ==> fresh(out) && out.Sound() && out.Terminated() && out.Text() == UuEncoded(src.Text())
  {
    if src.slen < 0 {
      return null;
    }
    var o := new BString.Empty();
    var ok := UuEncodeText(src.data[..src.slen], o);
    out := if ok then o else null;
  }

  method UuEncodeText(s: seq<Byte>, o: BString) returns (ok: bool)
    requires o.Sound() && o.Writable() && o.Terminated() && o.Text() == []
    modifies o, o.data
    ensures ok <==> |UuEncoded(s)| < INT_MAX
    ensures o.Sound() && o.Terminated() && (ok ==> o.Text() == UuEncoded(s))
  {
    hide UuEncoded, UuGroups, UuByte;
    var i := 0;
    ok := true;
    assert s[0..] == s && [] + UuEncoded(s) == UuEncoded(s);
    EndOfText(s, 0, []);
    while i < |s|
      invariant 0 <= i && o.Sound() && o.Writable() && o.slen < INT_MAX && (o.data == old(o.data) || fresh(o.data))
      invariant o.Terminated()
      invariant ok && (i <= |s| ==> o.Text() + UuEncoded(s[i..]) == UuEncoded(s))
      invariant i >= |s| ==> o.Text() == UuEncoded(s)
    {
      var jm := i + UU_MAX_LINELEN;
      if jm > |s| {
        jm := |s|;
      }
      ok := EncodeLine(s, i, jm, o);
      if !ok {
        return;
      }
      i := i + UU_MAX_LINELEN;
      EndOfText(s, jm, o.Text());
    }
    EndOfText(s, |s|, o.Text());
  }

  lemma EndOfText(s: seq<Byte>, jm: int, t: seq<Byte>)
    requires 0 <= jm <= |s|
    ensures jm == |s| ==> UuEncoded(s[jm..]) == [] && t + UuEncoded(s[jm..]) == t
  {
  }

  // One line, with its length first.
  method EncodeLine(s: seq<Byte>, i: int, jm: int, o: BString) returns (ok: bool)
    requires 0 <= i < |s| && jm == (if i + UU_MAX_LINELEN > |s| then |s| else i + UU_MAX_LINELEN)
    requires o.Sound() && o.Writable() && o.slen < INT_MAX && o.Text() + UuEncoded(s[i..]) == UuEncoded(s)
    modifies o, o.data
    ensures o.Sound() && o.Writable() && (o.data == old(o.data) || fresh(o.data))
    ensures old(o.Terminated()) ==> o.Terminated()
    ensures !ok ==> |UuEncoded(s)| >= INT_MAX
    ensures ok ==> o.slen < INT_MAX && o.Text() + UuEncoded(s[jm..]) == UuEncoded(s)
  {
    LineOf(s, i);
    hide UuEncoded, UuGroups, UuByte, UuGroup;
    ghost var whole, after := UuEncoded(s), CRLF + UuEncoded(s[jm..]);
    ok := PutPart(o, [UuByte(jm - i)], UuGroups(s[i..jm]) + after, whole);
    if !ok {
      return;
    }
    ok := EncodeGroups(s, i, jm, o, after, whole);
    if !ok {
      return;
    }
    ok := PutPart(o, CRLF, UuEncoded(s[jm..]), whole);
  }

  // The groups of a line (lines 734-745).
  method EncodeGroups(s: seq<Byte>, i: int, jm: int, o: BString, ghost after: seq<Byte>, ghost whole: seq<Byte>)
    returns (ok: bool)
    requires 0 <= i < jm <= |s| && (jm == |s| || (jm - i) % 3 == 0)
    requires o.Sound() && o.Writable() && o.slen < INT_MAX && o.Text() + (UuGroups(s[i..jm]) + after) == whole
    modifies o, o.data
    ensures o.Sound() && o.Writable() && (o.data == old(o.data) || fresh(o.data))
    ensures old(o.Terminated()) ==> o.Terminated()
    ensures !ok ==> |whole| >= INT_MAX
    ensures ok ==> o.slen < INT_MAX && o.Text() + after == whole
  {
    hide UuGroups, UuGroup, GroupsFrom;
    GroupOf(s, i, jm);
    ok := true;
    var j := i;
    while j < jm
      invariant i <= j && (jm == |s| || (jm - j) % 3 == 0) && o.Sound() && o.Writable() && o.slen < INT_MAX && ok
      invariant (o.data == old(o.data) || fresh(o.data)) && (old(o.Terminated()) ==> o.Terminated())
      invariant o.Text() + (GroupsFrom(s, j, jm) + after) == whole
    {
      GroupOf(s, j, jm);
      var g := UuGroup([s[j], At0(s, j + 1), At0(s, j + 2)]);
      Associates(g, GroupsFrom(s, j + 3, jm), after);
      ok := PutPart(o, g, GroupsFrom(s, j + 3, jm) + after, whole);
      if !ok {
        return;
      }
      j := j + 3;
    }
    NoGroups(s, j, jm, after);
  }

  lemma NoGroups(s: seq<Byte>, j: nat, jm: nat, t: seq<Byte>)
    requires j >= jm
    ensures GroupsFrom(s, j, jm) + t == t
  {
  }

  datatype Flow = More | Stop | Bad

  // One group of a line (lines 524-562).
  method DecGroup(s: seq<Byte>, ofs: int, i: int, t: BString, goal: int, bad: bool, ghost start: seq<Byte>)
    returns (flow: Flow, bad': bool)
    requires 0 <= i < |s| && t.Sound() && t.Writable() && t.slen < goal <= INT_MAX - 2
    modifies t, t.data
    ensures t.Sound() && t.Writable() && (t.data == old(t.data) || fresh(t.data))
    ensures t.slen <= goal && old(t.Text()) <= t.Text()
    ensures flow.More? ==>
      UuBody(s, ofs, i, old(t.Text()), goal, bad, start) == UuBody(s, ofs, i + 4, t.Text(), goal, bad', start)
    ensures flow.Stop? ==> UuBody(s, ofs, i, old(t.Text()), goal, bad, start) == Outcome(t.Text(), bad')
    ensures flow.Bad? ==> UuBody(s, ofs, i, old(t.Text()), goal, bad, start) == Outcome(start, true) && bad'
  {
    hide Bytes, CharAt, UuValue, Wrong;
    var d0, d1 := CharAt(s, i + ofs), CharAt(s, i + ofs + 1);
    var d2, d3 := CharAt(s, i + ofs + 2), CharAt(s, i + ofs + 3);
    var c0, c1, c2, c3 := UuValue(d0), UuValue(d1), UuValue(d2), UuValue(d3);
    bad' := bad;
    if Outside(c0) || Outside(c1) {
      bad' := true;
      if Wrong(d0) || Wrong(d1) {
        return Bad, true;
      }
      c0, c1 := 0, 0;
    }
    if t.slen + 1 >= goal {
      var ret := t.ConChar(Bytes(c0, c1, 0, 0).0);
      return Stop, bad';
    }
    if Outside(c2) {
      bad' := true;
      if Wrong(d2) {
        return Bad, true;
      }
      c2 := 0;
    }
    var p := Bytes(c0, c1, c2, 0);
    if t.slen + 2 >= goal {
      var ret := t.CatBlk([p.0, p.1]);
      return Stop, bad';
    }
    if Outside(c3) {
      bad' := true;
      if Wrong(d3) {
        return Bad, true;
      }
      c3 := 0;
    }
    var q := Bytes(c0, c1, c2, c3);
    var ret := t.CatBlk([q.0, q.1, q.2]);
    flow := More;
  }

  /** bUuDecLine, src/bstring/bstraux.c:504-573, where the text does not get too long. With `count` a bad
      line is counted and no error is returned. */
  method UuDecLine(src: BString, t: BString, ofs: int, len: int, count: bool) returns (bad: bool, error: bool)
    requires src.Sound() && t.Sound() && t.Writable() && src != t && src.data != t.data
    requires len != 0 ==> 0 <= ofs < src.slen
    modifies t, t.data
    ensures t.Sound() && t.Writable() && (t.data == old(t.data) || fresh(t.data))
    ensures len == 0 ==> t.Text() == old(t.Text()) && !bad
    ensures len != 0 && old(t.slen) + UU_MAX_LINELEN + 2 <= INT_MAX ==>
      Outcome(t.Text(), bad) == UuDecoded(src.Text(), ofs, old(t.Text()))
    ensures error <==> bad && !count
  {
    hide UuBody, UuValue;
    if len == 0 {
      return false, false;
    }
    var s := src.data[..src.slen];
    var llen := UuValue(s[ofs]);
    if llen < 0 || llen > UU_MAX_LINELEN {
      return true, !count;
    }
    if t.slen + UU_MAX_LINELEN + 2 > INT_MAX {
      return true, !count;
    }
    bad := DecBody(s, ofs, t, llen + t.slen);
    error := bad && !count;
  }

  // The loop of a line (lines 522-566).
  method DecBody(s: seq<Byte>, ofs: int, t: BString, goal: int) returns (bad: bool)
    requires s != [] && t.Sound() && t.Writable() && t.slen <= goal <= INT_MAX - 2
    modifies t, t.data
    ensures t.Sound() && t.Writable() && (t.data == old(t.data) || fresh(t.data))
    ensures Outcome(t.Text(), bad) == UuBody(s, ofs, 1, old(t.Text()), goal, false, old(t.Text()))
  {
    hide UuBody;
    var i, otlen, flow := 1, t.slen, More;
    bad := false;
    ghost var start, all := t.Text(), UuBody(s, ofs, 1, t.Text(), goal, false, t.Text());
    while flow == More && i < |s| && t.slen < goal
      invariant i >= 1 && t.Sound() && t.Writable() && (t.data == old(t.data) || fresh(t.data))
      invariant t.slen <= goal && start <= t.Text()
      invariant flow.More? ==> all == UuBody(s, ofs, i, t.Text(), goal, bad, start)
      invariant flow.Stop? ==> all == Outcome(t.Text(), bad)
      invariant flow.Bad? ==> all == Outcome(start, true) && bad
      decreases if flow == More then 1 + |s| - i else 0
    {
      flow, bad := DecGroup(s, ofs, i, t, goal, bad, start);
      i := i + 4;
    }
    if flow == More {
      BodyEnds(s, ofs, i, t.Text(), goal, bad, start);
    }
    if flow == Bad || (flow == More && t.slen < goal) {
      bad := true;
      t.slen := otlen;
      assert t.Text() == start;
    }
  }

  lemma BodyEnds(s: seq<Byte>, ofs: int, i: int, t: seq<Byte>, goal: int, bad: bool, start: seq<Byte>)
    requires i >= |s| || |t| >= goal
    ensures UuBody(s, ofs, i, t, goal, bad, start) == if |t| < goal then Outcome(start, true) else Outcome(t, bad)
  {
  }
}
