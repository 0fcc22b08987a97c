/** The base64 encoding (section 5.2 of RFC 1341) of src/bstring/bstraux.c:302-493. */
module Base64 {
  import opened BStrings
  import opened SextetBits

  const PAD: Byte := 61
  const CRLF: seq<Byte> := [13, 10]

  // "ABCDEFGHIJKLMNOPQRSTUVWXYZabcdefghijklmnopqrstuvwxyz0123456789+/"
  function Letter(v: int): (c: Byte)
    requires 0 <= v < 64
    ensures c != PAD && c != 13 && c != 10
  {
    if v < 26 then 65 + v else if v < 52 then 97 + (v - 26) else if v < 62 then 48 + (v - 52)
    else if v == 62 then 43 else 47
  }

  const B64_PAD := -2
  const B64_ERR := -1

  /** base64DecodeSymbol, src/bstring/bstraux.c:376-386. */
  function DecodeSymbol(c: Byte): (v: int)
    ensures v < 64 && (v >= 0 ==> Letter(v) == c)
  {
    if 65 <= c <= 90 then c - 65
    else if 97 <= c <= 122 then 26 + (c - 97)
    else if 48 <= c <= 57 then 52 + (c - 48)
    else if c == 43 then 62
    else if c == 47 then 63
    else if c == PAD then B64_PAD
    else B64_ERR
  }

  lemma LetterDecodes(v: int)
    requires 0 <= v < 64
    ensures DecodeSymbol(Letter(v)) == v
  {
  }

  function Letters(s: Sextets): seq<Byte>
    requires Sixes(s)
  {
    [Letter(s.s0), Letter(s.s1), Letter(s.s2), Letter(s.s3)]
  }

  /** Three bytes as four letters. */
  function Group(a: Byte, b: Byte, c: Byte): seq<Byte> {
    SplitNumber(a, b, c);
    Letters(Split(a, b, c))
  }

  /** The last one or two bytes, padded. */
  function Rest(s: seq<Byte>): seq<Byte>
    requires |s| < 3
  {
    if |s| == 0 then []
    else if |s| == 1 then
      SplitNumber(s[0], 0, 0);
      Letters(Split(s[0], 0, 0))[..2] + [PAD, PAD]
    else
      SplitNumber(s[0], s[1], 0);
      Letters(Split(s[0], s[1], 0))[..3] + [PAD]
  }

  /** The encoding of `s`, the bytes from position `i` on; a line holds 57 bytes. */
  function Encoded(s: seq<Byte>, i: nat): seq<Byte>
    decreases |s|
  {
    (if i > 0 && i % 57 == 0 then CRLF else []) +
      if |s| < 3 then Rest(s) else Group(s[0], s[1], s[2]) + Encoded(s[3..], i + 3)
  }

  datatype Decoded = Decoded(bytes: seq<Byte>, truncated: bool)

  /** Characters that are neither letters nor padding are passed over. */
  function Skip(t: seq<Byte>): (r: seq<Byte>)
    ensures |r| <= |t| && (r != [] ==> r[0] == PAD || DecodeSymbol(r[0]) >= 0)
  {
    if t == [] || t[0] == PAD || DecodeSymbol(t[0]) >= 0 then t else Skip(t[1..])
  }

  /** The bytes that a text decodes to, after those in `acc`; it is truncated if it ends within a group. */
  function Decode(t: seq<Byte>, acc: seq<Byte>): Decoded
    decreases |t|
  {
    var a := Skip(t);
    if a == [] then Decoded(acc, false)
    else if a[0] == PAD then Decoded(acc, true)
    else
      var b := Skip(a[1..]);
      if b == [] || b[0] == PAD then Decoded(acc, true)
      else DecodeThird(DecodeSymbol(a[0]), DecodeSymbol(b[0]), b[1..], acc)
  }

  function DecodeThird(v0: int, v1: int, t: seq<Byte>, acc: seq<Byte>): Decoded
    requires 0 <= v0 < 64 && 0 <= v1 < 64
    decreases |t|
  {
    var c := Skip(t);
    var o := Bytes(v0, v1, 0, 0);
    if c == [] then Decoded(acc, true)
    else if c[0] == PAD then
      if |c| > 1 && c[1] == PAD then Decoded(acc + [o.0], false) else Decoded(acc, true)
    else
      var d, v2 := Skip(c[1..]), DecodeSymbol(c[0]);
      if d == [] then Decoded(acc, true)
      else if d[0] == PAD then Decoded(acc + [Bytes(v0, v1, v2, 0).0, Bytes(v0, v1, v2, 0).1], false)
      else
        var p := Bytes(v0, v1, v2, DecodeSymbol(d[0]));
        Decode(d[1..], acc + [p.0, p.1, p.2])
  }

  /** The bytes of four sextets. */
  function Bytes(v0: int, v1: int, v2: int, v3: int): (o: (Byte, Byte, Byte))
    requires 0 <= v0 < 64 && 0 <= v1 < 64 && 0 <= v2 < 64 && 0 <= v3 < 64
  {
    var s := Sextets(v0, v1, v2, v3);
    JoinNumber(s);
    (Join(s).o0, Join(s).o1, Join(s).o2)
  }

  lemma SkipLetter(v: int, t: seq<Byte>)
    requires 0 <= v < 64
    ensures Skip([Letter(v)] + t) == [Letter(v)] + t && ([Letter(v)] + t)[1..] == t
  {
    LetterDecodes(v);
  }

  lemma SkipBreak(t: seq<Byte>)
    ensures Skip(CRLF + t) == Skip(t) && Skip([] + t) == Skip(t)
  {
    assert (CRLF + t)[1..] == [10] + t && ([10] + t)[1..] == t;
    assert [] + t == t;
  }

  // Four letters decode to three bytes, before anything.
  lemma GroupDecodes(a: Byte, b: Byte, c: Byte, t: seq<Byte>, acc: seq<Byte>)
    ensures Decode(Group(a, b, c) + t, acc) == Decode(t, acc + [a, b, c])
  {
    SplitNumber(a, b, c);
    JoinSplit(a, b, c);
    var s := Split(a, b, c);
    hide Split, Join, Letter, Skip, DecodeSymbol;
    FourLetters(s, t);
    var l0, l1, l2, l3: seq<Byte> := [Letter(s.s0)], [Letter(s.s1)], [Letter(s.s2)], [Letter(s.s3)];
    assert Group(a, b, c) + t == l0 + (l1 + (l2 + (l3 + t)));
  }

  lemma FourLetters(s: Sextets, t: seq<Byte>)
    requires Sixes(s)
    ensures DecodeSymbol(Letter(s.s0)) == s.s0 && DecodeSymbol(Letter(s.s1)) == s.s1
    ensures DecodeSymbol(Letter(s.s2)) == s.s2 && DecodeSymbol(Letter(s.s3)) == s.s3
    ensures var t3 := [Letter(s.s3)] + t;
      var t2 := [Letter(s.s2)] + t3;
      var t1 := [Letter(s.s1)] + t2;
      var t0 := [Letter(s.s0)] + t1;
      && Skip(t0) == t0 && t0[1..] == t1 && Skip(t1) == t1 && t1[1..] == t2
      && Skip(t2) == t2 && t2[1..] == t3 && Skip(t3) == t3 && t3[1..] == t
  {
    hide Letter, Skip, DecodeSymbol;
    LetterDecodes(s.s0);
    LetterDecodes(s.s1);
    LetterDecodes(s.s2);
    LetterDecodes(s.s3);
    SkipLetter(s.s3, t);
    SkipLetter(s.s2, [Letter(s.s3)] + t);
    SkipLetter(s.s1, [Letter(s.s2)] + ([Letter(s.s3)] + t));
    SkipLetter(s.s0, [Letter(s.s1)] + ([Letter(s.s2)] + ([Letter(s.s3)] + t)));
  }

  // Two letters lead on to what comes third.
  lemma TwoLetters(q: Sextets, t: seq<Byte>, acc: seq<Byte>)
    requires Sixes(q)
    ensures Decode([Letter(q.s0)] + ([Letter(q.s1)] + t), acc) == DecodeThird(q.s0, q.s1, t, acc)
  {
    PadTail(q, t);
    hide Letter, Skip, DecodeSymbol, DecodeThird;
  }

  lemma OneDecodes(a: Byte, acc: seq<Byte>)
    ensures Decode(Rest([a]), acc) == Decoded(acc + [a], false)
  {
    SplitNumber(a, 0, 0);
    var q := Split(a, 0, 0);
    hide Split, Join, Letter, Skip, DecodeSymbol, Decode;
    JoinPadded(a, 0, Sextets(q.s0, q.s1, 0, 0));
    PadTail(q, [PAD, PAD]);
    TwoLetters(q, [PAD, PAD], acc);
    assert Rest([a]) == [Letter(q.s0)] + ([Letter(q.s1)] + [PAD, PAD]);
  }

  lemma TwoDecode(a: Byte, b: Byte, acc: seq<Byte>)
    ensures Decode(Rest([a, b]), acc) == Decoded(acc + [a, b], false)
  {
    SplitNumber(a, b, 0);
    var q := Split(a, b, 0);
    hide Split, Join, Letter, Skip, DecodeSymbol, Decode;
    JoinPadded(a, b, Sextets(q.s0, q.s1, q.s2, 0));
    PadTail(q, [Letter(q.s2)] + [PAD]);
    PadLast(q);
    TwoLetters(q, [Letter(q.s2)] + [PAD], acc);
    assert Rest([a, b]) == [Letter(q.s0)] + ([Letter(q.s1)] + ([Letter(q.s2)] + [PAD]));
  }

  // The padded end decodes to its bytes.
  lemma RestDecodes(s: seq<Byte>, acc: seq<Byte>)
    requires |s| < 3
    ensures Decode(Rest(s), acc) == Decoded(acc + s, false)
  {
    if |s| == 0 {
      assert acc + s == acc;
    } else {
      hide Decode, Rest;
      if |s| == 1 {
        OneDecodes(s[0], acc);
        assert s == [s[0]];
      } else {
        TwoDecode(s[0], s[1], acc);
        assert s == [s[0], s[1]];
      }
    }
  }

  lemma PadTail(q: Sextets, t: seq<Byte>)
    requires Sixes(q)
    ensures DecodeSymbol(Letter(q.s0)) == q.s0 && DecodeSymbol(Letter(q.s1)) == q.s1
    ensures var t1 := [Letter(q.s1)] + t;
      var t0 := [Letter(q.s0)] + t1;
      Skip(t0) == t0 && t0[1..] == t1 && Skip(t1) == t1 && t1[1..] == t
    ensures Skip([PAD, PAD]) == [PAD, PAD] && Skip([PAD]) == [PAD]
  {
    LetterDecodes(q.s0);
    LetterDecodes(q.s1);
    SkipLetter(q.s1, t);
    SkipLetter(q.s0, [Letter(q.s1)] + t);
  }

  lemma PadLast(q: Sextets)
    requires Sixes(q)
    ensures DecodeSymbol(Letter(q.s2)) == q.s2
    ensures var t2 := [Letter(q.s2)] + [PAD]; Skip(t2) == t2 && t2[1..] == [PAD]
  {
    LetterDecodes(q.s2);
    SkipLetter(q.s2, [PAD]);
  }

  lemma DecodeBreak(t: seq<Byte>, acc: seq<Byte>)
    ensures Decode(CRLF + t, acc) == Decode(t, acc) && Decode([] + t, acc) == Decode(t, acc)
  {
    SkipBreak(t);
  }

  /** Decoding the encoding gives the bytes back, wherever the encoding is broken into lines. */
  lemma {:induction false} RoundTrip(s: seq<Byte>, i: nat, acc: seq<Byte>)
    ensures Decode(Encoded(s, i), acc) == Decoded(acc + s, false)
    decreases |s|
  {
    hide Decode, Group, Rest;
    if |s| < 3 {
      DecodeBreak(Rest(s), acc);
      RestDecodes(s, acc);
    } else {
      DecodeBreak(Group(s[0], s[1], s[2]) + Encoded(s[3..], i + 3), acc);
      GroupDecodes(s[0], s[1], s[2], Encoded(s[3..], i + 3), acc);
      RoundTrip(s[3..], i + 3, acc + [s[0], s[1], s[2]]);
      assert acc + [s[0], s[1], s[2]] + s[3..] == acc + s;
    }
  }

  // A row of bconchar calls, up to the first that fails.
  method Put(out: BString, s: seq<Byte>) returns (ok: bool)
    requires out.Sound() && out.Writable() && out.slen < INT_MAX
    modifies out, out.data
    ensures out.Sound() && out.Writable() && (out.data == old(out.data) || fresh(out.data))
    ensures old(out.Terminated()) ==> out.Terminated()
    ensures ok <==> old(out.slen) + |s| < INT_MAX
    ensures ok ==> out.Text() == old(out.Text()) + s && out.slen < INT_MAX
  {
    var k := 0;
    ghost var t := out.Text();
    assert t + s[..0] == t;
    while k < |s|
      invariant 0 <= k <= |s| && out.Sound() && out.Writable() && (out.data == old(out.data) || fresh(out.data))
      invariant out.Text() == t + s[..k] && out.slen == |t| + k < INT_MAX
      invariant old(out.Terminated()) ==> out.Terminated()
    {
      var ret := out.ConChar(s[k]);
      if ret != BSTR_OK {
        return false;
      }
      assert s[..k + 1] == s[..k] + [s[k]];
      k := k + 1;
    }
    assert s[..k] == s;
    ok := true;
  }

  // The next part of a whole text.
  method PutPart(out: BString, s: seq<Byte>, ghost rest: seq<Byte>, ghost whole: seq<Byte>) returns (ok: bool)
    requires out.Sound() && out.Writable() && out.slen < INT_MAX && out.Text() + (s + rest) == whole
    modifies out, out.data
    ensures out.Sound() && out.Writable() && (out.data == old(out.data) || fresh(out.data))
    ensures old(out.Terminated()) ==> out.Terminated()
    ensures ok ==> out.slen < INT_MAX && out.Text() + rest == whole
    ensures !ok ==> |whole| >= INT_MAX
  {
    Associates(out.Text(), s, rest);
    ok := Put(out, s);
  }

  function Line(i: nat): seq<Byte> { if i > 0 && i % 57 == 0 then CRLF else [] }

  lemma EncodedStep(s: seq<Byte>, i: nat)
    requires i + 2 < |s|
    ensures Encoded(s[i..], i) == Line(i) + (Group(s[i], s[i + 1], s[i + 2]) + Encoded(s[i + 3..], i + 3))
  {
    assert s[i..][3..] == s[i + 3..];
  }

  /** bBase64Encode, src/bstring/bstraux.c:308-371. It fails just for a text that is too long. */
  method Encode(b: BString) returns (out: BString?)
    requires b.Sound()
    ensures out == null <==> b.slen < 0 || |Encoded(b.Text(), 0)| >= INT_MAX
    ensures out != null ==> fresh(out) && out.Sound() && out.Terminated() && out.Text() == Encoded(b.Text(), 0)
  {
    if b.slen < 0 {
      return null;
    }
    var o := new BString.Empty();
    var ok := EncodeText(b.data[..b.slen], o);
    out := if ok then o else null;
  }

  // src/bstring/bstraux.c:314-370.
  method EncodeText(s: seq<Byte>, o: BString) returns (ok: bool)
    requires o.Sound() && o.Writable() && o.Terminated() && o.Text() == []
    modifies o, o.data
    ensures ok <==> |Encoded(s, 0)| < INT_MAX
    ensures o.Sound() && o.Terminated() && (ok ==> o.Text() == Encoded(s, 0))
  {
    hide Encoded, Group, Rest;
    var i := 0;
    assert s[0..] == s && [] + Encoded(s, 0) == Encoded(s, 0);
    while i + 2 < |s|
      invariant 0 <= i <= |s| && o.Sound() && o.Writable() && o.slen < INT_MAX
      invariant (o.data == old(o.data) || fresh(o.data)) && o.Terminated()
      invariant o.Text() + Encoded(s[i..], i) == Encoded(s, 0)
    {
      EncodedStep(s, i);
      var line := Line(i) + Group(s[i], s[i + 1], s[i + 2]);
      Associates(Line(i), Group(s[i], s[i + 1], s[i + 2]), Encoded(s[i + 3..], i + 3));
      ok := PutPart(o, line, Encoded(s[i + 3..], i + 3), Encoded(s, 0));
      if !ok {
        return;
      }
      i := i + 3;
    }
    EncodedEnd(s, i);
    ok := Put(o, Line(i) + Rest(s[i..]));
  }

  lemma EncodedEnd(s: seq<Byte>, i: nat)
    requires |s| < i + 3 && i <= |s|
    ensures Encoded(s[i..], i) == Line(i) + Rest(s[i..])
  {
  }

  // One of the do-while loops: on to the next letter or padding.
  method Seek(s: seq<Byte>, from: int) returns (i: int)
    requires 0 <= from <= |s|
    ensures from <= i <= |s| && s[i..] == Skip(s[from..])
    ensures i < |s| ==> s[i] == PAD || DecodeSymbol(s[i]) >= 0
  {
    i := from;
    while i < |s| && s[i] != PAD && DecodeSymbol(s[i]) < 0
      invariant from <= i <= |s| && Skip(s[i..]) == Skip(s[from..])
    {
      assert s[i..][1..] == s[i + 1..];
      i := i + 1;
    }
  }

  /** bBase64DecodeEx, src/bstring/bstraux.c:393-493; `ex` says that the caller wants to know of truncation. */
  method DecodeEx(b: BString, ex: bool) returns (out: BString?, truncated: bool)
    requires b.Sound()
    ensures b.slen < 0 ==> out == null
    ensures b.slen >= 0 ==> var d := Decode(b.Text(), []);
      && truncated == d.truncated && (out == null <==> d.truncated && !ex)
      && (out != null ==> fresh(out) && out.Sound() && out.Terminated() && out.Text() == d.bytes)
  {
    if b.slen < 0 {
      return null, false;
    }
    var o := new BString.Empty();
    truncated := DecodeText(b.data[..b.slen], o);
    out := if truncated && !ex then null else o;
  }

  // src/bstring/bstraux.c:402-492.
  method DecodeText(s: seq<Byte>, o: BString) returns (truncated: bool)
    requires |s| <= INT_MAX && o.Sound() && o.Writable() && o.Terminated() && o.Text() == []
    modifies o, o.data
    ensures o.Sound() && o.Terminated() && Decode(s, []) == Decoded(o.Text(), truncated)
  {
    hide Decode, DecodeThird, Bytes, Skip, DecodeSymbol;
    var i, done := 0, false;
    truncated := false;
    assert s[0..] == s;
    while !done
      invariant 0 <= i <= |s| && o.Sound() && o.Writable() && o.slen <= i && (o.data == old(o.data) || fresh(o.data))
      invariant o.Terminated()
      invariant !done ==> Decode(s[i..], o.Text()) == Decode(s, [])
      invariant done ==> Decode(s, []) == Decoded(o.Text(), truncated)
      decreases if done then 0 else 1 + |s| - i
    {
      i, done, truncated := DecodeOne(s, i, o);
    }
  }

  // One round of the outer loop: the first two letters of a group, and the rest.
  method DecodeOne(s: seq<Byte>, from: int, o: BString) returns (i: int, done: bool, truncated: bool)
    requires 0 <= from <= |s| <= INT_MAX && o.Sound() && o.Writable() && o.slen <= from
    modifies o, o.data
    ensures o.Sound() && o.Writable() && (o.data == old(o.data) || fresh(o.data))
    ensures old(o.Terminated()) ==> o.Terminated()
    ensures 0 <= i <= |s| && o.slen <= i && (!done ==> from < i)
    ensures !done ==> Decode(s[from..], old(o.Text())) == Decode(s[i..], o.Text())
    ensures done ==> Decode(s[from..], old(o.Text())) == Decoded(o.Text(), truncated)
  {
    hide Skip, Bytes, DecodeSymbol, DecodeThird;
    i := Seek(s, from);
    if i >= |s| {
      return i, true, false;
    }
    if s[i] == PAD {
      return i, true, true;
    }
    var v0 := DecodeSymbol(s[i]);
    assert s[i..][1..] == s[i + 1..];
    i := Seek(s, i + 1);
    if i >= |s| || s[i] == PAD {
      return i, true, true;
    }
    var v1 := DecodeSymbol(s[i]);
    assert s[i..][1..] == s[i + 1..];
    hide Decode;
    i, done, truncated := DecodeTail(s, i + 1, o, v0, v1);
  }

  // The third and fourth letters.
  method DecodeTail(s: seq<Byte>, from: int, o: BString, v0: int, v1: int)
    returns (i: int, done: bool, truncated: bool)
    requires 0 <= from <= |s| <= INT_MAX && o.Sound() && o.Writable() && o.slen + 2 <= from
    requires 0 <= v0 < 64 && 0 <= v1 < 64
    modifies o, o.data
    ensures o.Sound() && o.Writable() && (o.data == old(o.data) || fresh(o.data))
    ensures old(o.Terminated()) ==> o.Terminated()
    ensures 0 <= i <= |s| && o.slen <= i && (!done ==> from < i)
    ensures !done ==> DecodeThird(v0, v1, s[from..], old(o.Text())) == Decode(s[i..], o.Text())
    ensures done ==> DecodeThird(v0, v1, s[from..], old(o.Text())) == Decoded(o.Text(), truncated)
  {
    var more: seq<Byte>;
    i, more, done, truncated := ThirdLetters(s, from, v0, v1, o.Text());
    hide DecodeThird, Decode;
    var ok := Put(o, more);
  }

  // What the third and fourth letters add to the text.
  method ThirdLetters(s: seq<Byte>, from: int, v0: int, v1: int, ghost acc: seq<Byte>)
    returns (i: int, more: seq<Byte>, done: bool, truncated: bool)
    requires 0 <= from <= |s| && 0 <= v0 < 64 && 0 <= v1 < 64
    ensures from <= i <= |s| && |more| <= 2 + i - from && |more| <= 3 && (!done ==> from < i)
    ensures !done ==> DecodeThird(v0, v1, s[from..], acc) == Decode(s[i..], acc + more)
    ensures done ==> DecodeThird(v0, v1, s[from..], acc) == Decoded(acc + more, truncated)
  {
    hide Skip, Bytes, DecodeSymbol, Decode;
    assert acc + [] == acc;
    i := Seek(s, from);
    if i >= |s| {
      return i, [], true, true;
    }
    if s[i] == PAD {
      i := i + 1;
      if i >= |s| || s[i] != PAD {
        return i, [], true, true;
      }
      return i, [Bytes(v0, v1, 0, 0).0], true, false;
    }
    var v2 := DecodeSymbol(s[i]);
    assert s[i..][1..] == s[i + 1..];
    i := Seek(s, i + 1);
    if i >= |s| {
      return i, [], true, true;
    }
    if s[i] == PAD {
      var p := Bytes(v0, v1, v2, 0);
      return i, [p.0, p.1], true, false;
    }
    var q := Bytes(v0, v1, v2, DecodeSymbol(s[i]));
    assert s[i..][1..] == s[i + 1..];
    return i + 1, [q.0, q.1, q.2], false, false;
  }

  /** Decoding what was encoded gives the text back; only a text that is too long to be encoded fails. */
  method EncodeAndDecode(b: BString) returns (out: BString?)
    requires b.Sound() && b.slen >= 0
    ensures out == null <==> |Encoded(b.Text(), 0)| >= INT_MAX
    ensures out != null ==> out.Sound() && out.Terminated() && out.Text() == b.Text()
  {
    hide Encoded, Decode;
    var e := Encode(b);
    if e == null {
      return null;
    }
    RoundTrip(b.Text(), 0, []);
    assert [] + b.Text() == b.Text();
    var truncated;
    out, truncated := DecodeEx(e, false);
  }

  function LengthFrom(n: nat, i: nat): int { 4 * ((n + 2) / 3) + 2 * ((i + n) / 57 - Breaks(i)) }

  // How many line breaks stand before position `i`.
  function Breaks(i: nat): int { if i == 0 then 0 else (i - 1) / 57 }

  /** The encoding has four letters for three bytes, and a line break for every 57 bytes. */
  lemma {:induction false} EncodedLength(s: seq<Byte>, i: nat)
    requires i % 3 == 0
    ensures |Encoded(s, i)| == LengthFrom(|s|, i)
    decreases |s|
  {
    hide Group, Rest, LengthFrom;
    LengthStep(|s|, i);
    if |s| < 3 {
      RestLength(s);
    } else {
      EncodedLength(s[3..], i + 3);
      GroupLength(s[0], s[1], s[2]);
    }
  }

  lemma LengthStep(n: nat, i: nat)
    requires i % 3 == 0
    ensures var l := if i > 0 && i % 57 == 0 then 2 else 0;
      LengthFrom(n, i) == l + if n >= 3 then 4 + LengthFrom(n - 3, i + 3) else if n == 0 then 0 else 4
  {
    var q, r := i / 57, i % 57;
    assert i == 57 * q + r && r % 3 == 0;
    assert Breaks(i + 3) == q;
    assert i > 0 ==> Breaks(i) == if r == 0 then q - 1 else q;
    assert n < 3 ==> (i + n) / 57 == q;
  }

  lemma RestLength(s: seq<Byte>)
    requires |s| < 3
    ensures |Rest(s)| == if s == [] then 0 else 4
  {
  }

  lemma GroupLength(a: Byte, b: Byte, c: Byte)
    ensures |Group(a, b, c)| == 4
  {
  }
}
