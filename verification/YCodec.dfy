/** The yEnc encoding of src/bstring/bstraux.c:755-839. */
module YCodec {
  import opened BStrings
  import opened Base64

  const ESCAPE: Byte := 61
  const MAX_OB_LEN := 64

  /** A cast to unsigned char. */
  function U8(x: int): Byte { x % 256 }

  predicate Critical(c: Byte) { c == ESCAPE || c == 0 || c == 13 || c == 10 }

  /** One byte: shifted by 42, and escaped where it would not get through. */
  function YChar(b: Byte): seq<Byte> {
    var c := U8(b as int + 42);
    if Critical(c) then [ESCAPE, U8(c as int + 64)] else [c]
  }

  function YEncoded(s: seq<Byte>): seq<Byte> {
    if s == [] then [] else YChar(s[0]) + YEncoded(s[1..])
  }

  datatype Read = Bytes(s: seq<Byte>) | Broken

  /** Line ends are passed over; a NUL byte, or an escape with nothing after it, breaks the text. */
  function YDecoded(t: seq<Byte>): Read
    decreases |t|
  {
    if t == [] then Bytes([])
    else if t[0] == ESCAPE then
      if |t| < 2 then Broken else Then(U8(U8(t[1] as int - 64) as int - 42), YDecoded(t[2..]))
    else if t[0] == 0 then Broken
    else if t[0] == 13 || t[0] == 10 then YDecoded(t[1..])
    else Then(U8(t[0] as int - 42), YDecoded(t[1..]))
  }

  function Then(b: Byte, r: Read): Read { if r.Broken? then Broken else Bytes([b] + r.s) }

  lemma CharDecodes(b: Byte, t: seq<Byte>)
    ensures YDecoded(YChar(b) + t) == Then(b, YDecoded(t))
  {
    var u, c := YChar(b) + t, U8(b as int + 42);
    DecodedNext(u, 0);
    Shifted(b);
    hide YDecoded, U8;
    assert u[0..] == u && u[|YChar(b)|..] == t;
  }

  // The shifts are undone.
  lemma Shifted(b: Byte)
    ensures var c := U8(b as int + 42);
      U8(c as int - 42) == b && U8(U8(U8(c as int + 64) as int - 64) as int - 42) == b
  {
  }

  /** Decoding the encoding gives the bytes back. */
  lemma {:induction false} YRoundTrip(s: seq<Byte>)
    ensures YDecoded(YEncoded(s)) == Bytes(s)
  {
    hide YChar;
    if s != [] {
      CharDecodes(s[0], YEncoded(s[1..]));
      hide YDecoded;
      YRoundTrip(s[1..]);
    }
  }

  lemma EncodedNext(s: seq<Byte>, i: nat)
    requires i < |s|
    ensures YEncoded(s[i..]) == YChar(s[i]) + YEncoded(s[i + 1..])
  {
    assert s[i..][1..] == s[i + 1..];
  }

  /** bYEncode, src/bstring/bstraux.c:761-783. It fails just for a text that is too long. */
  method YEncode(src: BString) returns (out: BString?)
    requires src.Sound()
    ensures out == null <==> src.slen < 0 || |YEncoded(src.Text())| >= INT_MAX
    ensures out != null ==> fresh(out) && out.Sound() && out.Terminated() && out.Text() == YEncoded(src.Text())
  {
    if src.slen < 0 {
      return null;
    }
    var o := new BString.Empty();
    var ok := YEncodeText(src.data[..src.slen], o);
    out := if ok then o else null;
  }

  method YEncodeText(s: seq<Byte>, o: BString) returns (ok: bool)
    requires o.Sound() && o.Writable() && o.Terminated() && o.Text() == []
    modifies o, o.data
    ensures ok <==> |YEncoded(s)| < INT_MAX
    ensures o.Sound() && o.Terminated() && (ok ==> o.Text() == YEncoded(s))
  {
    hide YEncoded;
    var i := 0;
    assert s[0..] == s && [] + YEncoded(s) == YEncoded(s);
    while i < |s|
      invariant 0 <= i <= |s| && o.Sound() && o.Writable() && o.slen < INT_MAX
      invariant (o.data == old(o.data) || fresh(o.data)) && o.Terminated()
      invariant o.Text() + YEncoded(s[i..]) == YEncoded(s)
    {
      EncodedNext(s, i);
      var c := U8(s[i] as int + 42);
      var part := [c];
      if Critical(c) {
        part := [ESCAPE, U8(c as int + 64)];
      }
      ok := PutPart(o, part, YEncoded(s[i + 1..]), YEncoded(s));
      if !ok {
        return;
      }
      i := i + 1;
    }
    NothingEncoded(s, o.Text());
    ok := true;
  }

  lemma NothingEncoded(s: seq<Byte>, t: seq<Byte>)
    ensures YEncoded(s[|s|..]) == [] && t + YEncoded(s[|s|..]) == t
  {
  }

  /** `u` before what a text decodes to. */
  function After(u: seq<Byte>, r: Read): Read { if r.Broken? then Broken else Bytes(u + r.s) }

  lemma AfterThen(u: seq<Byte>, b: Byte, r: Read)
    ensures After(u, Then(b, r)) == After(u + [b], r)
  {
    if r.Bytes? { assert u + ([b] + r.s) == u + [b] + r.s; }
  }

  lemma DecodedNext(t: seq<Byte>, i: nat)
    requires i < |t|
    ensures YDecoded(t[i..]) ==
      if t[i] == ESCAPE then
        (if i + 1 >= |t| then Broken else Then(U8(U8(t[i + 1] as int - 64) as int - 42), YDecoded(t[i + 2..])))
      else if t[i] == 0 then Broken
      else if t[i] == 13 || t[i] == 10 then YDecoded(t[i + 1..])
      else Then(U8(t[i] as int - 42), YDecoded(t[i + 1..]))
  {
    assert t[i..][1..] == t[i + 1..];
    if i + 1 < |t| { assert t[i..][2..] == t[i + 2..]; }
  }

  /** bYDecode, src/bstring/bstraux.c:792-839, through a buffer of 64 bytes. It fails for a broken text, and
      for one that is too long. */
  method YDecode(src: BString) returns (out: BString?)
    requires src.Sound()
    ensures out == null <==>
      src.slen < 0 || YDecoded(src.Text()).Broken? || |YDecoded(src.Text()).s| >= INT_MAX
    ensures out != null ==> fresh(out) && out.Sound() && out.Terminated() && Bytes(out.Text()) == YDecoded(src.Text())
  {
    if src.slen < 0 {
      return null;
    }
    var o := new BString.Empty();
    var ok := YDecodeText(src.data[..src.slen], o);
    out := if ok then o else null;
  }

  method YDecodeText(t: seq<Byte>, o: BString) returns (ok: bool)
    requires o.Sound() && o.Writable() && o.Terminated() && o.Text() == []
    modifies o, o.data
    ensures ok <==> YDecoded(t).Bytes? && |YDecoded(t).s| < INT_MAX
    ensures o.Sound() && o.Terminated() && (ok ==> Bytes(o.Text()) == YDecoded(t))
  {
    hide YDecoded, After;
    var i: nat, buff: seq<Byte> := 0, [];
    assert t[0..] == t && After([] + [], YDecoded(t)) == YDecoded(t) by { AfterNothing(YDecoded(t)); }
    while i < |t|
      invariant 0 <= i <= |t| && |buff| < MAX_OB_LEN && o.Sound() && o.Writable() && o.slen < INT_MAX
      invariant (o.data == old(o.data) || fresh(o.data)) && o.Terminated()
      invariant After(o.Text() + buff, YDecoded(t[i..])) == YDecoded(t)
    {
      var ok', c;
      i, ok', c := ReadByte(t, i, o.Text() + buff);
      if !ok' {
        return false;
      }
      Associates(o.Text(), buff, c);
      buff := buff + c;
      if |buff| >= MAX_OB_LEN {
        ok := Flush(o, buff, YDecoded(t[i..]));
        if !ok {
          return;
        }
        buff := [];
      }
    }
    AllDecoded(t, o.Text() + buff);
    ok := Flush(o, buff, Bytes([]));
  }

  // The next character, or an escaped pair (lines 805-822): no byte for the end of a line, or one.
  method ReadByte(t: seq<Byte>, from: nat, ghost u: seq<Byte>) returns (i: nat, ok: bool, c: seq<Byte>)
    requires from < |t|
    ensures from < i <= |t| && |c| <= 1
    ensures !ok ==> After(u, YDecoded(t[from..])).Broken?
    ensures ok ==> After(u + c, YDecoded(t[i..])) == After(u, YDecoded(t[from..]))
  {
    hide YDecoded;
    DecodedNext(t, from);
    i := from + 1;
    var d: Byte := t[from];
    if d == ESCAPE {
      if i >= |t| {
        return i, false, [];
      }
      d := U8(t[i] as int - 64);
      i := i + 1;
    } else {
      if d == 0 {
        return i, false, [];
      }
      if d == 13 || d == 10 {
        assert u + [] == u;
        return i, true, [];
      }
    }
    c, ok := [U8(d as int - 42)], true;
    AfterThen(u, c[0], YDecoded(t[i..]));
  }

  // bcatblk of the buffer.
  method Flush(o: BString, buff: seq<Byte>, ghost r: Read) returns (ok: bool)
    requires o.Sound() && o.Writable() && o.slen < INT_MAX && |buff| <= MAX_OB_LEN
    modifies o, o.data
    ensures o.Sound() && o.Writable() && (o.data == old(o.data) || fresh(o.data))
    ensures old(o.Terminated()) ==> o.Terminated()
    ensures ok ==> o.slen < INT_MAX && o.Text() == old(o.Text()) + buff && o.Text() + [] == o.Text()
    ensures !ok ==> After(old(o.Text()) + buff, r).Bytes? ==> |After(old(o.Text()) + buff, r).s| >= INT_MAX
  {
    var ret := o.CatBlk(buff);
    ok := ret == BSTR_OK;
    assert o.Text() + [] == o.Text();
  }

  lemma AfterNothing(r: Read)
    ensures After([] + [], r) == r
  {
    if r.Bytes? { assert [] + [] + r.s == r.s; }
  }

  lemma AllDecoded(t: seq<Byte>, u: seq<Byte>)
    ensures YDecoded(t[|t|..]) == Bytes([]) && After(u, YDecoded(t[|t|..])) == Bytes(u)
  {
    assert u + [] == u;
  }
}
