/**
 * Length-prefixed byte strings (src/bstring/bstrlib.c): a buffer `data` of which `slen` bytes are
 * text and `mlen` bytes may be written. Allocation always succeeds, and every pointer is non-null.
 */
module BStrings {
  import opened WordBits

  type Byte = n: int | 0 <= n < 256

  const BSTR_OK := 0
  const BSTR_ERR := -1
  const INT_MAX := 0x7FFF_FFFF
  const INT_MIN := -0x8000_0000

  /** The value of a 32-bit int after wrap-around. */
  function Int32(x: int): (r: int)
    ensures -0x8000_0000 <= r <= INT_MAX && (-0x8000_0000 <= x <= INT_MAX ==> r == x)
    ensures INT_MAX < x <= 2 * INT_MAX + 1 ==> r < 0
    ensures (x - r) % 0x1_0000_0000 == 0
  {
    (x + 0x8000_0000) % 0x1_0000_0000 - 0x8000_0000
  }

  /** src/bstring/bstrlib.c:71-93. */
  function SnapUpSize(i: int): (r: int)
    requires i <= INT_MAX
    ensures i <= r && 8 <= r <= INT_MAX
  {
    if i < 8 then 8 else
      var j := Int32(Smear(i) + 1);
      if j >= i then j else i
  }

  /** The least power of two above `i` and not below 8, unless it is not an int: then `i` itself. */
  lemma SnapUpPower(i: int)
    requires i <= INT_MAX
    ensures i < 0x4000_0000 ==>
      exists k: nat :: SnapUpSize(i) == Pow2(k) && (i < 8 ==> k == 3) && (8 <= i ==> Pow2(k) / 2 <= i < Pow2(k))
    ensures 0x4000_0000 <= i ==> SnapUpSize(i) == i
  {
    hide Smear;
    if i < 8 {
      assert SnapUpSize(i) == Pow2(3);
    } else {
      SmearPowerOfTwo(i);
      if i < 0x4000_0000 {
        assert SnapUpSize(i) == Pow2(Length(i));
      } else {
        Pow2Values();
        PowersApart(31, Length(i));
      }
    }
  }

  /** memmove within one buffer: the ranges may overlap. */
  method MemMove(a: array<Byte>, dst: int, src: int, len: int)
    requires 0 <= len && 0 <= dst && dst + len <= a.Length && 0 <= src && src + len <= a.Length
    modifies a
    ensures forall k :: dst <= k < dst + len ==> a[k] == old(a[k - dst + src])
    ensures forall k :: 0 <= k < dst || dst + len <= k < a.Length ==> a[k] == old(a[k])
  {
    forall k | dst <= k < dst + len {
      a[k] := a[k - dst + src];
    }
  }

  /** memcpy of `len` bytes from one buffer to another. */
  method MemCopy(a: array<Byte>, dst: int, from: array<Byte>, src: int, len: int)
    requires a != from && 0 <= len && 0 <= dst && dst + len <= a.Length && 0 <= src && src + len <= from.Length
    modifies a
    ensures forall k :: dst <= k < dst + len ==> a[k] == from[k - dst + src]
    ensures forall k :: 0 <= k < dst || dst + len <= k < a.Length ==> a[k] == old(a[k])
  {
    forall k | dst <= k < dst + len {
      a[k] := from[k - dst + src];
    }
  }

  class BString {
    var data: array<Byte>
    var slen: int
    var mlen: int

    /** Neither length lies about the buffer; a negative length marks a string that may not be used. */
    ghost predicate Sound()
      reads this
    {
      slen <= data.Length && mlen <= data.Length && slen <= INT_MAX && mlen <= INT_MAX
    }

    /** The string may be written: the test that the library's functions begin with. */
    predicate Writable()
      reads this
    {
      0 <= slen <= mlen && 0 < mlen
    }

    ghost function Text(): seq<Byte>
      reads this, data
      requires Sound()
    {
      if slen < 0 then [] else data[..slen]
    }

    /** The text is followed by a NUL byte, so that it can be handed to C string functions. */
    ghost predicate Terminated()
      reads this, data
    {
      0 <= slen < data.Length && data[slen] == 0
    }

    /** bfromcstr (""), src/bstring/bstrlib.c:187-207. */
    constructor Empty()
      ensures Sound() && Writable() && Terminated() && Text() == [] && mlen == 8 && fresh(data)
    {
      slen, mlen := 0, SnapUpSize(2);
      data := new Byte[SnapUpSize(2)];
      new;
      data[0] := 0;
    }

    /** balloc, src/bstring/bstrlib.c:99-153: at least `olen` bytes may be written; the text stays. */
    method Alloc(olen: int) returns (ret: int)
      requires Sound() && olen <= INT_MAX
      modifies this`data, this`mlen
      ensures ret == if old(Writable()) && olen > 0 then BSTR_OK else BSTR_ERR
      ensures Sound() && Text() == old(Text()) && (data == old(data) || (fresh(data) && Terminated()))
      ensures ret == BSTR_OK ==> Writable() && olen <= mlen && old(mlen) <= mlen
      ensures ret == BSTR_OK ==>
        mlen == if old(mlen) <= olen && old(mlen) < SnapUpSize(olen) then SnapUpSize(olen) else old(mlen)
      ensures ret == BSTR_ERR ==> data == old(data) && mlen == old(mlen)
      ensures old(Terminated()) ==> Terminated()
    {
      if !Writable() || olen <= 0 {
        return BSTR_ERR;
      }
      if olen >= mlen {
        var len := SnapUpSize(olen);
        if len <= mlen {
          return BSTR_OK;
        }
        var x := new Byte[len];
        MemCopy(x, 0, data, 0, slen);
        data, mlen := x, len;
        data[slen] := 0;
      }
      return BSTR_OK;
    }

    /** bconcat, src/bstring/bstrlib.c:318-344, for a string in another buffer. A text of INT_MAX bytes
        passes the size test by wrap-around, and is written past the end of the buffer: `overrun` says
        that the original gets there, and the model stops. */
    method Concat(from: array<Byte>, len: int) returns (ret: int, overrun: bool)
      requires Sound() && from != data && len <= from.Length && len <= INT_MAX
      modifies this, data
      ensures overrun <==> old(Writable()) && 0 <= len && old(slen) + len == INT_MAX
      ensures ret == if old(Writable()) && 0 <= len && old(slen) + len < INT_MAX then BSTR_OK else BSTR_ERR
      ensures Sound() && (data == old(data) || fresh(data))
      ensures ret == BSTR_OK ==> Writable() && Terminated() && Text() == old(Text()) + from[..len]
      ensures ret == BSTR_ERR ==> Text() == old(Text()) && slen == old(slen) && mlen == old(mlen)
      ensures old(Terminated()) ==> Terminated()
    {
      var d := slen;
      overrun := false;
      if d < 0 || mlen <= 0 || mlen - d < 0 || len < 0 || Int32(d + len) < 0 {
        return BSTR_ERR, false;
      }
      if mlen <= Int32(d + len + 1) {
        ret := Alloc(Int32(d + len + 1));
        if ret != BSTR_OK {
          return BSTR_ERR, false;
        }
      } else if d + len == INT_MAX {
        return BSTR_ERR, true;
      }
      PutEnd(from, len);
      return BSTR_OK, false;
    }

    // src/bstring/bstrlib.c:339-341.
    method PutEnd(from: array<Byte>, len: int)
      requires Sound() && from != data && 0 <= len <= from.Length && 0 <= slen && slen + len < data.Length
      requires slen + len < INT_MAX
      modifies this`slen, data
      ensures slen == old(slen) + len && Sound() && Terminated() && Text() == old(Text()) + from[..len]
    {
      ghost var s := Text();
      var d := slen;
      if len > 0 {
        MemCopy(data, d, from, 0, len);
      }
      data[d + len] := 0;
      slen := d + len;
      AppendedText(data[..slen], s, from[..len]);
    }

    /** bconchar, src/bstring/bstrlib.c:350-360. */
    method ConChar(c: Byte) returns (ret: int)
      requires Sound()
      modifies this, data
      ensures ret == if old(Writable()) && old(slen) + 2 <= INT_MAX then BSTR_OK else BSTR_ERR
      ensures Sound() && (data == old(data) || fresh(data)) && (old(Writable()) ==> Writable())
      ensures Text() == if ret == BSTR_OK then old(Text()) + [c] else old(Text())
      ensures ret == BSTR_OK || old(Terminated()) ==> Terminated()
      ensures ret == BSTR_ERR ==> slen == old(slen) && mlen == old(mlen)
    {
      hide SnapUpSize;
      var d := slen;
      if d < 0 || mlen - d < 0 {
        return BSTR_ERR;
      }
      ret := Alloc(Int32(d + 2));
      if ret == BSTR_OK {
        ghost var s := Text();
        data[d] := c;
        data[d + 1] := 0;
        slen := slen + 1;
        assert data[..slen] == s + [c];
      }
    }

    /** bcatblk, src/bstring/bstrlib.c:392-405. */
    method CatBlk(s: seq<Byte>) returns (ret: int)
      requires Sound() && |s| <= INT_MAX
      modifies this, data
      ensures ret == if old(Writable()) && old(slen) + |s| < INT_MAX then BSTR_OK else BSTR_ERR
      ensures Sound() && (data == old(data) || fresh(data)) && (old(Writable()) ==> Writable())
      ensures Text() == if ret == BSTR_OK then old(Text()) + s else old(Text())
      ensures ret == BSTR_OK || old(Terminated()) ==> Terminated()
      ensures ret == BSTR_ERR ==> slen == old(slen) && mlen == old(mlen)
    {
      hide SnapUpSize;
      if !Writable() {
        return BSTR_ERR;
      }
      var nl := Int32(slen + |s|);
      if nl < 0 {
        return BSTR_ERR;
      }
      if mlen <= nl {
        ret := Alloc(Int32(nl + 1));
        if ret != BSTR_OK {
          return BSTR_ERR;
        }
      }
      ghost var t := Text();
      var at := slen;
      forall k | at <= k < nl {
        data[k] := s[k - at];
      }
      slen := nl;
      data[nl] := 0;
      AppendedText(data[..slen], t, s);
      return BSTR_OK;
    }

    /** bdelete, src/bstring/bstrlib.c:965-987: a range that sticks out of the text is clamped, as long
        as its end is an int (DeleteFits). `overrun` says that the original then writes its NUL byte
        outside of the buffer; the model leaves the byte out. */
    method Delete(pos: int, len: int) returns (ret: int, overrun: bool)
      requires Sound() && INT_MIN <= pos <= INT_MAX && INT_MIN <= len <= INT_MAX
      modifies this`slen, data
      ensures ret == if old(Writable()) && 0 <= DeleteCount(pos, len) then BSTR_OK else BSTR_ERR
      ensures slen == if ret == BSTR_ERR then old(slen) else LengthDeleted(old(slen), pos, len)
      ensures Sound() && slen <= old(slen)
      ensures overrun <==> old(Writable()) && slen < 0
      ensures !overrun ==> (old(Writable()) ==> Writable()) && (old(Terminated()) ==> Terminated())
      ensures ret == BSTR_ERR ==> Text() == old(Text())
      ensures ret == BSTR_OK && DeleteFits(old(slen), pos, len) ==> !overrun && Text() == Deleted(old(Text()), pos, len)
    {
      hide Deleted;
      var p, n := pos, len;
      if p < 0 {
        n := Int32(n + p);
        p := 0;
      }
      if n < 0 || slen < 0 || mlen < slen || mlen <= 0 {
        return BSTR_ERR, false;
      }
      if n > 0 && p < slen {
        ghost var s := Text();
        overrun := CloseGap(p, n);
        DeletedGap(s, pos, len, p, n, data[..], slen);
        return BSTR_OK, overrun;
      }
      DeletedNothing(Text(), pos, len);
      return BSTR_OK, false;
    }

    // src/bstring/bstrlib.c:975-985. Where p + n wraps around, so does the length of the block to be
    // moved, which is negative again: nothing is moved.
    method CloseGap(p: int, n: int) returns (overrun: bool)
      requires Sound() && 0 < n <= INT_MAX && 0 <= p < slen
      modifies this`slen, data
      ensures slen == (if old(slen) <= Int32(p + n) then p else old(slen) - n) && slen < old(slen) && Sound()
      ensures overrun <==> slen < 0
      ensures !overrun ==> Terminated()
      ensures p + n <= INT_MAX ==> forall k :: 0 <= k < p ==> data[k] == old(data[k])
      ensures p + n <= INT_MAX ==> forall k :: p <= k < slen ==> data[k] == old(data[k + n])
    {
      if Int32(p + n) >= slen {
        slen := p;
      } else {
        var l := Int32(slen - Int32(p + n));
        if l > 0 {
          MemMove(data, p, p + n, l);
        }
        slen := slen - n;
      }
      overrun := slen < 0;
      if !overrun {
        data[slen] := 0;
      }
    }

    /** binsert, src/bstring/bstrlib.c:1455-1494, for a string in another buffer. */
    method Insert(pos: int, b2: BString, fill: Byte) returns (ret: int)
      requires Sound() && b2.Sound() && b2.data != data && b2 != this && pos <= INT_MAX
      modifies this, data
      ensures ret == if old(Writable()) && 0 <= pos && 0 <= b2.slen
        && (if pos < old(slen) then old(slen) else pos) + b2.slen < INT_MAX
        then BSTR_OK else BSTR_ERR
      ensures Sound() && (data == old(data) || fresh(data)) && (old(Writable()) ==> Writable())
      ensures ret == BSTR_OK ==> Terminated() && slen < mlen && Text() == Inserted(old(Text()), pos, b2.Text(), fill)
      ensures ret == BSTR_ERR ==> Text() == old(Text()) && slen == old(slen) && mlen == old(mlen)
      ensures old(Terminated()) ==> Terminated()
    {
      hide SnapUpSize, Inserted;
      if pos < 0 || slen < 0 || b2.slen < 0 || mlen < slen || mlen <= 0 {
        return BSTR_ERR;
      }
      var d, l := Int32(slen + b2.slen), Int32(pos + b2.slen);
      if d < 0 || l < 0 {
        return BSTR_ERR;
      }
      ret := Alloc(Int32((if l > d then l else d) + 1));
      if ret != BSTR_OK {
        return BSTR_ERR;
      }
      Place(pos, b2, fill, d, l);
    }

    // `d` and `l` are where the text may end (src/bstring/bstrlib.c:1468-1491).
    method Place(pos: int, b2: BString, fill: Byte, d: int, l: int)
      requires Sound() && b2.Sound() && b2.data != data && b2 != this && 0 <= pos && 0 <= slen && 0 <= b2.slen
      requires d == slen + b2.slen <= INT_MAX && l == pos + b2.slen <= INT_MAX && d < data.Length && l < data.Length
      modifies this`slen, data
      ensures Sound() && Terminated() && slen == if l > d then l else d
      ensures Text() == Inserted(old(Text()), pos, b2.Text(), fill)
    {
      ghost var s := Text();
      if l > d {
        MemSet(data, slen, fill, pos - slen);
        slen := l;
      } else {
        MemMove(data, l, pos, d - l);
        slen := d;
      }
      MemCopy(data, pos, b2.data, 0, b2.slen);
      data[slen] := 0;
      InsertedText(data[..slen], s, pos, b2.data[..b2.slen], fill);
    }
  }

  method MemSet(a: array<Byte>, dst: int, fill: Byte, len: int)
    requires 0 <= dst && 0 <= len && dst + len <= a.Length
    modifies a
    ensures forall k :: 0 <= k < a.Length ==> a[k] == if dst <= k < dst + len then fill else old(a[k])
  {
    forall k | dst <= k < dst + len {
      a[k] := fill;
    }
  }

  function Clamp(x: int, n: nat): (r: int)
    ensures 0 <= r <= n && (0 <= x <= n ==> r == x)
  {
    if x < 0 then 0 else if x > n then n else x
  }

  /** How many bytes from the start of the text on a negative position leaves to delete. */
  function DeleteCount(pos: int, len: int): int { if pos < 0 then Int32(len + pos) else len }

  /** No sum that bdelete forms overflows. */
  predicate DeleteFits(slen: int, pos: int, len: int) {
    if pos < 0 then INT_MIN <= len + pos else pos < slen && 0 < len ==> pos + len <= INT_MAX
  }

  /** The length of the text after bdelete, which may be negative. */
  function LengthDeleted(slen: int, pos: int, len: int): int {
    var p, n := if pos < 0 then 0 else pos, DeleteCount(pos, len);
    if n <= 0 || p >= slen then slen else if Int32(p + n) >= slen then p else slen - n
  }

  /** bdelete succeeds for a range that is not empty, and leaves a text of the right length, exactly
      when its sums are ints. */
  lemma DeleteExact(s: seq<Byte>, pos: int, len: int)
    requires |s| <= INT_MAX && INT_MIN <= pos <= INT_MAX && INT_MIN <= len <= INT_MAX
    ensures DeleteFits(|s|, pos, len) <==>
      (0 <= DeleteCount(pos, len) <==> 0 <= (if pos < 0 then len + pos else len))
      && (0 <= DeleteCount(pos, len) ==> LengthDeleted(|s|, pos, len) == |Deleted(s, pos, len)|)
  {
  }

  /** Deleting all from the second of five bytes on, asked for as INT_MAX bytes, makes the length negative. */
  lemma DeleteOverflows()
    ensures !DeleteFits(5, 1, INT_MAX) && LengthDeleted(5, 1, INT_MAX) == 5 - INT_MAX < 0
    ensures forall s: seq<Byte> :: |s| == 5 ==> Deleted(s, 1, INT_MAX) == s[..1]
  {
  }

  /** `s` without the bytes at positions pos .. pos + len - 1. */
  function Deleted(s: seq<Byte>, pos: int, len: int): seq<Byte> {
    if len <= 0 then s else s[..Clamp(pos, |s|)] + s[Clamp(pos + len, |s|)..]
  }

  /** `t` put at `pos`, after as many fill bytes as are missing up to there. */
  function Inserted(s: seq<Byte>, pos: int, t: seq<Byte>, fill: Byte): seq<Byte>
    requires 0 <= pos
  {
    if pos > |s| then s + seq(pos - |s|, _ => fill) + t else s[..pos] + t + s[pos..]
  }

  lemma Associates<T>(a: seq<T>, b: seq<T>, c: seq<T>)
    ensures a + (b + c) == a + b + c
  {
  }

  lemma AppendedText(x: seq<Byte>, s: seq<Byte>, t: seq<Byte>)
    requires |x| == |s| + |t|
    requires (forall k :: 0 <= k < |s| ==> x[k] == s[k]) && (forall k :: |s| <= k < |x| ==> x[k] == t[k - |s|])
    ensures x == s + t
  {
  }

  lemma DeletedText(x: seq<Byte>, s: seq<Byte>, pos: int, len: int)
    requires var p, n := if pos < 0 then 0 else pos, if pos < 0 then len + pos else len;
      && 0 < n && p < |s| && |x| == (if p + n >= |s| then p else |s| - n)
      && (forall k :: 0 <= k < p ==> x[k] == s[k])
      && (forall k :: p <= k < |x| ==> x[k] == s[k + n])
    ensures x == Deleted(s, pos, len)
  {
  }

  lemma DeletedNothing(s: seq<Byte>, pos: int, len: int)
    requires DeleteCount(pos, len) == 0 || |s| <= if pos < 0 then 0 else pos
    requires INT_MIN <= pos <= INT_MAX && INT_MIN <= len <= INT_MAX
    ensures DeleteFits(|s|, pos, len) ==> Deleted(s, pos, len) == s
  {
  }

  lemma DeletedGap(s: seq<Byte>, pos: int, len: int, p: int, n: int, x: seq<Byte>, l: int)
    requires |s| <= INT_MAX && |s| <= |x| && p == (if pos < 0 then 0 else pos) && n == DeleteCount(pos, len)
    requires 0 < n <= INT_MAX && p < |s| && l == if |s| <= Int32(p + n) then p else |s| - n
    requires p + n <= INT_MAX ==> forall k :: 0 <= k < p ==> x[k] == s[k]
    requires p + n <= INT_MAX ==> forall k :: p <= k < l ==> x[k] == s[k + n]
    ensures INT_MIN <= pos <= INT_MAX && INT_MIN <= len <= INT_MAX && DeleteFits(|s|, pos, len) ==>
      0 <= l && x[..l] == Deleted(s, pos, len)
  {
    hide Deleted;
    if INT_MIN <= pos <= INT_MAX && INT_MIN <= len <= INT_MAX && DeleteFits(|s|, pos, len) {
      DeletedText(x[..l], s, pos, len);
    }
  }

  lemma InsertedText(x: seq<Byte>, s: seq<Byte>, pos: int, t: seq<Byte>, fill: Byte)
    requires 0 <= pos && |x| == (if pos > |s| then pos else |s|) + |t|
    requires forall k :: 0 <= k < pos ==> x[k] == if k < |s| then s[k] else fill
    requires forall k :: 0 <= k < |t| ==> x[pos + k] == t[k]
    requires forall k :: pos <= k < |s| ==> x[k + |t|] == s[k]
    ensures x == Inserted(s, pos, t, fill)
  {
    assert x[pos..pos + |t|] == t;
    if pos > |s| {
      assert x[..pos] == s + seq(pos - |s|, _ => fill);
      assert x == x[..pos] + x[pos..pos + |t|];
    } else {
      assert x[..pos] == s[..pos];
      forall k | 0 <= k < |s| - pos
        ensures x[pos + |t|..][k] == s[pos..][k]
      {
        assert x[pos + k + |t|] == s[pos + k];
      }
      assert x[pos + |t|..] == s[pos..];
      assert x == x[..pos] + x[pos..pos + |t|] + x[pos + |t|..];
    }
  }

  /** Deleting what was inserted gives the text back, up to the fill bytes. */
  lemma DeletedInserted(s: seq<Byte>, pos: int, t: seq<Byte>, fill: Byte)
    requires 0 <= pos
    ensures Deleted(Inserted(s, pos, t, fill), pos, |t|) == if pos > |s| then s + seq(pos - |s|, _ => fill) else s
  {
    assert t == [] ==> Inserted(s, pos, t, fill) == if pos > |s| then s + seq(pos - |s|, _ => fill) else s;
  }
}
