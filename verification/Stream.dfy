/**
 * Buffered reading with over-reads and un-reads (struct bStream, src/bstring/bstrlib.c:1912-2232).
 * The source may return any number of the bytes asked for, and may end at any time.
 */
module Streams {
  import opened BStrings

  /** What happened on a stream, oldest first. */
  datatype Event = Delivered(bytes: seq<Byte>) | Unread(bytes: seq<Byte>)

  /** `pending` is what `start` has left after `log`: reads take from the front, un-reads put in front. */
  ghost predicate Replays(start: seq<Byte>, log: seq<Event>, pending: seq<Byte>)
    decreases |log|
  {
    if log == [] then pending == start
    else match log[|log| - 1]
      case Delivered(d) => Replays(start, log[..|log| - 1], d + pending)
      case Unread(u) => u <= pending && Replays(start, log[..|log| - 1], pending[|u|..])
  }

  ghost function AllDelivered(log: seq<Event>): seq<Byte>
    requires forall e :: e in log ==> e.Delivered?
  {
    if log == [] then [] else AllDelivered(log[..|log| - 1]) + log[|log| - 1].bytes
  }

  /** Without un-reads the delivered bytes and the pending ones make up the source, in order. */
  lemma {:induction false} ReadsConserve(start: seq<Byte>, log: seq<Event>, pending: seq<Byte>)
    requires Replays(start, log, pending) && forall e :: e in log ==> e.Delivered?
    ensures AllDelivered(log) + pending == start
    decreases |log|
  {
    if log != [] {
      var d := log[|log| - 1].bytes;
      ReadsConserve(start, log[..|log| - 1], d + pending);
      assert AllDelivered(log[..|log| - 1]) + (d + pending) == AllDelivered(log) + pending;
    }
  }

  /** The events and the source determine what is pending. */
  lemma {:induction false} ReplayUnique(start: seq<Byte>, log: seq<Event>, p: seq<Byte>, q: seq<Byte>)
    requires Replays(start, log, p) && Replays(start, log, q)
    ensures p == q
    decreases |log|
  {
    if log != [] {
      var rest := log[..|log| - 1];
      match log[|log| - 1]
      case Delivered(d) =>
        ReplayUnique(start, rest, d + p, d + q);
        assert p == (d + p)[|d|..] && q == (d + q)[|d|..];
      case Unread(u) =>
        ReplayUnique(start, rest, p[|u|..], q[|u|..]);
        assert p == u + p[|u|..] && q == u + q[|u|..];
    }
  }

  /** Putting back what was just delivered undoes the read. */
  lemma UnreadUndoes(start: seq<Byte>, log: seq<Event>, d: seq<Byte>, pending: seq<Byte>)
    requires Replays(start, log + [Delivered(d)] + [Unread(d)], pending)
    ensures Replays(start, log, pending)
  {
    var l1 := log + [Delivered(d)];
    assert (l1 + [Unread(d)])[..|l1|] == l1 && l1[..|log|] == log;
    assert d + pending[|d|..] == pending;
  }

  lemma ReplayDelivered(start: seq<Byte>, log: seq<Event>, d: seq<Byte>, pending: seq<Byte>)
    requires Replays(start, log, d + pending)
    ensures Replays(start, log + [Delivered(d)], pending)
  {
    assert (log + [Delivered(d)])[..|log|] == log;
  }

  lemma ReplayUnread(start: seq<Byte>, log: seq<Event>, u: seq<Byte>, pending: seq<Byte>)
    requires Replays(start, log, pending)
    ensures Replays(start, log + [Unread(u)], u + pending)
  {
    assert (log + [Unread(u)])[..|log|] == log && (u + pending)[|u|..] == pending;
  }

  /** `d` runs up to and including the first terminator. */
  ghost predicate IsLine(d: seq<Byte>, terms: set<Byte>) {
    d != [] && d[|d| - 1] in terms && forall k :: 0 <= k < |d| - 1 ==> d[k] !in terms
  }

  ghost predicate NoTerminator(d: seq<Byte>, terms: set<Byte>) {
    forall k :: 0 <= k < |d| ==> d[k] !in terms
  }

  lemma DeletedFront(s: seq<Byte>, n: int)
    requires 0 < n <= |s|
    ensures s[..n] + Deleted(s, 0, n) == s
  {
  }

  lemma NotBoth(d: seq<Byte>, terms: set<Byte>)
    requires NoTerminator(d, terms)
    ensures !IsLine(d, terms)
  {
  }

  /** A line is determined by the bytes it is read from. */
  lemma LineUnique(d: seq<Byte>, rest: seq<Byte>, d': seq<Byte>, rest': seq<Byte>, terms: set<Byte>)
    requires d + rest == d' + rest' && IsLine(d, terms) && IsLine(d', terms)
    ensures d == d' && rest == rest'
  {
    var p := d + rest;
    assert p[|d| - 1] == d[|d| - 1] && p[|d'| - 1] == d'[|d'| - 1];
    assert forall k :: 0 <= k < |d| ==> p[k] == d[k];
    assert forall k :: 0 <= k < |d'| ==> p[k] == d'[k];
    assert |d| == |d'|;
    assert d == p[..|d|] && d' == p[..|d'|] && rest == p[|d|..] && rest' == p[|d'|..];
  }

  /** The number of bytes up to and including the first terminator, or of all bytes. */
  ghost function LineLength(s: seq<Byte>, terms: set<Byte>): (n: nat)
    ensures n <= |s|
  {
    if s == [] then 0 else if s[0] in terms then 1 else 1 + LineLength(s[1..], terms)
  }

  /** It is the length of the line. */
  lemma {:induction false} LineLengthOfLine(d: seq<Byte>, rest: seq<Byte>, terms: set<Byte>)
    requires IsLine(d, terms)
    ensures LineLength(d + rest, terms) == |d|
  {
    assert (d + rest)[0] == d[0];
    if |d| > 1 {
      assert (d + rest)[1..] == d[1..] + rest;
      LineLengthOfLine(d[1..], rest, terms);
    }
  }

  lemma {:induction false} LineLengthSkips(d: seq<Byte>, rest: seq<Byte>, terms: set<Byte>)
    requires NoTerminator(d, terms)
    ensures LineLength(d + rest, terms) == |d| + LineLength(rest, terms)
  {
    if d == [] {
      assert d + rest == rest;
    } else {
      assert (d + rest)[0] == d[0] && (d + rest)[1..] == d[1..] + rest;
      LineLengthSkips(d[1..], rest, terms);
    }
  }

  /** How many of `n` bytes a read gives when `avail` are left: as scripted, or all that it can. */
  function Given(sizes: seq<int>, n: nat, avail: nat): (l: int)
    ensures l <= n && l <= avail
  {
    var most := if n < avail then n else avail;
    if sizes == [] || sizes[0] > most then most else sizes[0]
  }

  function OneRead(sizes: seq<int>, n: nat, avail: nat): (l: nat)
    ensures l <= n && l <= avail
  {
    if Given(sizes, n, avail) < 0 then 0 else Given(sizes, n, avail)
  }

  // The stream that is wrapped (bNread): it hands out its bytes in order, in chunks whose sizes are
  // scripted by `sizes`, which may be anything; a size below one ends it.
  class Source {
    var rest: seq<Byte>
    var sizes: seq<int>

    method Read(a: array<Byte>, at: int, n: int) returns (l: int)
      requires 0 <= at && 0 <= n && at + n <= a.Length
      modifies this, a
      ensures l == Given(old(sizes), n, |old(rest)|) && rest == if l <= 0 then old(rest) else old(rest)[l..]
      ensures forall k :: 0 <= k < l ==> a[at + k] == old(rest)[k]
      ensures forall k :: 0 <= k < a.Length && !(at <= k < at + l) ==> a[k] == old(a[k])
    {
      l := Given(sizes, n, |rest|);
      if l > 0 {
        forall k | at <= k < at + l {
          a[k] := rest[k - at];
        }
        rest := rest[l..];
      }
      if sizes != [] {
        sizes := sizes[1..];
      }
    }
  }

  // The index of the first terminator among the first `l` bytes, or `l`; a sentinel is left at `l`.
  method Scan(a: array<Byte>, at: int, l: int, terms: set<Byte>, sentinel: Byte) returns (i: int)
    requires 0 <= at && 0 <= l && at + l < a.Length && sentinel in terms
    modifies a
    ensures 0 <= i <= l && (forall k :: at <= k < at + i ==> a[k] !in terms) && a[at + i] in terms
    ensures forall k :: 0 <= k < a.Length && k != at + l ==> a[k] == old(a[k])
  {
    a[at + l] := sentinel;
    i := 0;
    while a[at + i] !in terms
      invariant 0 <= i <= l && forall k :: at <= k < at + i ==> a[k] !in terms
      decreases l - i
    {
      i := i + 1;
    }
  }

  lemma NothingTerminates(terms: set<Byte>)
    ensures NoTerminator([], terms)
  {
  }

  lemma LineNonEmpty(d: seq<Byte>, terms: set<Byte>)
    requires IsLine(d, terms)
    ensures d != []
  {
  }

  method ReadAndScan(src: Source, a: array<Byte>, at: int, n: int, terms: set<Byte>, sentinel: Byte)
    returns (l: int, i: int)
    requires 0 <= at && 0 <= n && at + n < a.Length && sentinel in terms
    modifies src, a
    ensures l <= n && l <= |old(src.rest)| && forall k :: 0 <= k < at ==> a[k] == old(a[k])
    ensures l <= 0 ==> src.rest == old(src.rest)
    ensures 0 < l ==> 0 <= i <= l && old(src.rest) == a[at..at + l] + src.rest
    ensures 0 < l ==> (forall k :: at <= k < at + i ==> a[k] !in terms) && (i < l ==> a[at + i] in terms)
  {
    hide Given;
    ghost var rest := src.rest;
    i := 0;
    l := src.Read(a, at, n);
    if l > 0 {
      i := Scan(a, at, l, terms, sentinel);
      assert a[at..at + l] == rest[..l];
    }
  }

  // The bytes `s` after `d0` hold a terminator, the first one at `i`.
  lemma LineFound(d0: seq<Byte>, s: seq<Byte>, i: int, terms: set<Byte>)
    requires NoTerminator(d0, terms) && 0 <= i < |s| && s[i] in terms && NoTerminator(s[..i], terms)
    ensures IsLine(d0 + s[..i + 1], terms) && Deleted(s, 0, i + 1) == s[i + 1..] && s == s[..i + 1] + s[i + 1..]
  {
    var d := d0 + s[..i + 1];
    assert d[|d| - 1] == s[i];
    forall k | 0 <= k < |d| - 1
      ensures d[k] !in terms
    {
      assert d[k] == if k < |d0| then d0[k] else s[..i][k - |d0|];
    }
  }

  lemma LineAt(s: seq<Byte>, i: int, rest: seq<Byte>, terms: set<Byte>)
    requires 0 <= i < |s| && NoTerminator(s[..i], terms) && s[i] in terms
    ensures LineLength(s + rest, terms) == i + 1
  {
    assert [] + s[..i + 1] == s[..i + 1];
    LineFound([], s, i, terms);
    LineInBuffer(s, i, rest, terms);
  }

  lemma LineInBuffer(s: seq<Byte>, i: int, rest: seq<Byte>, terms: set<Byte>)
    requires 0 <= i < |s| && IsLine(s[..i + 1], terms)
    ensures LineLength(s + rest, terms) == i + 1
  {
    assert s + rest == s[..i + 1] + (s[i + 1..] + rest);
    LineLengthOfLine(s[..i + 1], s[i + 1..] + rest, terms);
  }

  lemma LineParts(r0: seq<Byte>, d0: seq<Byte>, s: seq<Byte>, i: int, rest: seq<Byte>)
    requires 0 <= i < |s|
    ensures r0 + (d0 + s[..i + 1]) == r0 + d0 + s[..i + 1]
    ensures d0 + (s + rest) == d0 + s[..i + 1] + (s[i + 1..] + rest)
  {
    Associates(r0, d0, s[..i + 1]);
    Associates(s[..i + 1], s[i + 1..], rest);
    Associates(d0, s[..i + 1], s[i + 1..] + rest);
    assert s == s[..i + 1] + s[i + 1..];
  }

  lemma BlockParts(r0: seq<Byte>, d0: seq<Byte>, s: seq<Byte>, x: int, rest: seq<Byte>)
    requires 0 < x <= |s|
    ensures r0 + (d0 + s[..x]) == r0 + d0 + s[..x] && Deleted(s, 0, x) == s[x..]
    ensures d0 + (s + rest) == d0 + s[..x] + (s[x..] + rest)
  {
    LineParts(r0, d0, s, x - 1, rest);
  }

  // buildCharField, src/bstring/bstrlib.c:1296-1304.
  method BuildCharField(term: BString) returns (cf: set<Byte>)
    requires term.Sound() && 0 < term.slen
    ensures cf == Chars(term.Text()) && term.data[0] in cf
  {
    cf := {};
    var i := 0;
    while i < term.slen
      invariant 0 <= i <= term.slen && cf == Chars(term.data[..i])
    {
      CharsAppend(term.data[..i], term.data[i]);
      assert term.data[..i + 1] == term.data[..i] + [term.data[i]];
      cf := cf + {term.data[i]};
      i := i + 1;
    }
    assert term.Text()[0] in cf;
  }

  class BStream {
    var buff: BString
    var parm: Source
    var isEOF: bool
    var maxBuffSz: int
    ghost var start: seq<Byte>
    ghost var log: seq<Event>

    ghost function Pending(): seq<Byte>
      reads this, buff, buff.data, parm
      requires buff.Sound()
    {
      buff.Text() + parm.rest
    }

    ghost predicate Valid()
      reads this, buff, buff.data, parm
    {
      && buff.Sound() && 0 <= buff.slen < buff.mlen && 0 < maxBuffSz < INT_MAX
      && Replays(start, log, Pending())
    }

    /** bsopen, src/bstring/bstrlib.c:1926-1938. */
    constructor (readPtr: Source, size: int)
      requires 0 < size < INT_MAX
      ensures Valid() && parm == readPtr && start == readPtr.rest && log == [] && !isEOF && fresh(buff)
      ensures fresh(buff.data) && maxBuffSz == size
    {
      buff := new BString.Empty();
      parm, isEOF, maxBuffSz := readPtr, false, size;
      start, log := readPtr.rest, [];
    }

    // The destination is apart from the stream.
    ghost predicate Apart(r: BString)
      reads this, buff, r
    {
      && buff.Sound() && 0 <= buff.slen < buff.mlen && 0 < maxBuffSz < INT_MAX
      && r != buff && r.data != buff.data && r.Sound()
    }

    // The line fits into the destination, and with it a chunk if the source must be read.
    ghost predicate Fits(r: BString, terms: set<Byte>)
      reads this, buff, buff.data, parm, r
    {
      && Apart(r)
      && r.slen + LineLength(Pending(), terms) + (if NoTerminator(buff.Text(), terms) then maxBuffSz else 0) < INT_MAX
    }

    /** bsreadlnsa, src/bstring/bstrlib.c:2047-2108, and bsreadlna, 1983-2038, which differs in the test alone. */
    method ReadLine(r: BString, terms: set<Byte>, sentinel: Byte) returns (ret: int, ghost d: seq<Byte>)
      requires Valid() && Fits(r, terms) && sentinel in terms
      modifies this`isEOF, this`log, buff, buff.data, parm, r, r.data
      ensures Valid() && (r.data == old(r.data) || fresh(r.data)) && (buff.data == old(buff.data) || fresh(buff.data))
      ensures r.Sound() && r.Text() == old(r.Text()) + d && old(Pending()) == d + Pending()
      ensures log == if old(r.Writable()) then old(log) + [Delivered(d)] else old(log)
      ensures ret == BSTR_OK <==> d != []
      ensures old(r.Writable()) ==> IsLine(d, terms) || (NoTerminator(d, terms) && isEOF && buff.Text() == [])
      ensures IsLine(d, terms) ==> isEOF == old(isEOF)
      ensures old(r.Writable()) ==> r.Writable() && r.Terminated()
      ensures !old(r.Writable()) ==> d == [] && isEOF == old(isEOF)
      ensures buff.slen < maxBuffSz || buff.slen <= old(buff.slen)
    {
      if !r.Writable() {
        return BSTR_ERR, [];
      }
      hide Replays, IsLine, NoTerminator;
      ret, d := GetLine(r, terms, sentinel);
      ReplayDelivered(start, log, d, Pending());
      log := log + [Delivered(d)];
    }

    method GetLine(r: BString, terms: set<Byte>, sentinel: Byte) returns (ret: int, ghost d: seq<Byte>)
      requires Fits(r, terms) && r.Writable() && sentinel in terms
      modifies this`isEOF, buff, buff.data, parm, r, r.data
      ensures buff.Sound() && 0 <= buff.slen < buff.mlen
      ensures (r.data == old(r.data) || fresh(r.data)) && (buff.data == old(buff.data) || fresh(buff.data))
      ensures r.Sound() && r.Text() == old(r.Text()) + d && old(Pending()) == d + Pending()
      ensures ret == BSTR_OK <==> d != []
      ensures IsLine(d, terms) || (NoTerminator(d, terms) && isEOF && buff.Text() == [])
      ensures IsLine(d, terms) ==> isEOF == old(isEOF)
      ensures r.Writable() && r.Terminated() && (buff.slen < maxBuffSz || buff.slen <= old(buff.slen))
    {
      hide IsLine, NoTerminator;
      var rlo := r.slen;
      ghost var text := r.Text();
      var found;
      found, d := FromBuffer(r, terms, sentinel);
      if found {
        Associates(d, buff.Text(), parm.rest);
        assert d != [] by { LineNonEmpty(d, terms); }
        ret := BSTR_OK;
      } else {
        ret, d := FromSource(r, rlo, terms, sentinel, text, d);
      }
    }

    // Up to and including the first terminator in the buffer, or all of it (src/bstring/bstrlib.c:1990-2010).
    method FromBuffer(r: BString, terms: set<Byte>, sentinel: Byte) returns (found: bool, ghost d: seq<Byte>)
      requires Fits(r, terms) && r.Writable() && sentinel in terms
      modifies buff, buff.data, r, r.data
      ensures Apart(r) && (r.data == old(r.data) || fresh(r.data)) && (buff.data == old(buff.data) || fresh(buff.data))
      ensures r.Writable() && r.Text() == old(r.Text()) + d
      ensures r.Terminated() && buff.slen <= old(buff.slen)
      ensures found ==> IsLine(d, terms) && old(buff.Text()) == d + buff.Text()
      ensures !found ==> NoTerminator(d, terms) && old(buff.Text()) == d && maxBuffSz < buff.mlen && Fits'(r, terms)
    {
      hide Deleted, IsLine, NoTerminator;
      ghost var s := buff.Text();
      var i := ScanBuffer(terms, sentinel);
      if i < buff.slen {
        LineAt(s, i, parm.rest, terms);
        d := DeliverLine(r, i, terms);
        return true, d;
      }
      assert s[..i] == s;
      LineLengthSkips(s, parm.rest, terms);
      DeliverAll(r);
      return false, s;
    }

    // The line ends with the buffered byte `i`.
    method DeliverLine(r: BString, i: int, terms: set<Byte>) returns (ghost d: seq<Byte>)
      requires buff.Sound() && 0 <= i < buff.slen < buff.mlen && r != buff && r.data != buff.data
      requires r.Sound() && r.Writable() && r.slen + i + 1 < INT_MAX
      requires NoTerminator(buff.Text()[..i], terms) && buff.Text()[i] in terms
      modifies buff`slen, buff.data, r, r.data
      ensures buff.Sound() && 0 <= buff.slen < buff.mlen && r.Sound() && r.Writable() && r.Terminated()
      ensures (r.data == old(r.data) || fresh(r.data)) && buff.data == old(buff.data) && buff.slen <= old(buff.slen)
      ensures r.Text() == old(r.Text()) + d && IsLine(d, terms) && old(buff.Text()) == d + buff.Text()
    {
      hide IsLine, NoTerminator, Deleted;
      ghost var s := buff.Text();
      NothingTerminates(terms);
      LineFound([], s, i, terms);
      d := s[..i + 1];
      assert [] + d == d;
      DeletedFront(s, i + 1);
      Deliver(r, i + 1);
    }

    method DeliverAll(r: BString)
      requires buff.Sound() && 0 <= buff.slen < buff.mlen && r != buff && r.data != buff.data
      requires r.Sound() && r.Writable() && r.slen + buff.slen < INT_MAX
      modifies r, r.data
      ensures r.Sound() && r.Writable() && r.slen == old(r.slen) + buff.slen && (r.data == old(r.data) || fresh(r.data))
      ensures r.Text() == old(r.Text()) + buff.Text() && r.Terminated()
    {
      var ret, overrun := r.Concat(buff.data, buff.slen);
    }

    method ScanBuffer(terms: set<Byte>, sentinel: Byte) returns (i: int)
      requires buff.Sound() && 0 <= buff.slen < buff.mlen && 0 < maxBuffSz < INT_MAX && sentinel in terms
      modifies buff`data, buff`mlen, buff.data
      ensures buff.Sound() && buff.slen < buff.mlen && maxBuffSz < buff.mlen
      ensures (buff.data == old(buff.data) || fresh(buff.data))
      ensures buff.Text() == old(buff.Text()) && 0 <= i <= buff.slen
      ensures NoTerminator(buff.Text()[..i], terms) && (i < buff.slen ==> buff.Text()[i] in terms)
    {
      ghost var s := buff.Text();
      var l := buff.slen;
      var ret := buff.Alloc(maxBuffSz + 1);
      i := Scan(buff.data, 0, l, terms, sentinel);
      assert buff.data[..l] == s;
    }

    // The first `n` buffered bytes go to the destination.
    method Deliver(r: BString, n: int)
      requires buff.Sound() && 0 <= buff.slen < buff.mlen && 0 < n <= buff.slen
      requires r != buff && r.data != buff.data && r.Sound() && r.Writable() && r.slen + n < INT_MAX
      modifies buff`slen, buff.data, r, r.data
      ensures buff.Sound() && 0 <= buff.slen < buff.mlen && r.Sound() && r.Writable() && buff.data == old(buff.data)
      ensures r.slen == old(r.slen) + n && (r.data == old(r.data) || fresh(r.data))
      ensures r.Terminated() && buff.slen <= old(buff.slen)
      ensures r.Text() == old(r.Text()) + old(buff.Text())[..n] && buff.Text() == Deleted(old(buff.Text()), 0, n)
    {
      hide Deleted;
      assert buff.data[..n] == buff.Text()[..n];
      var ret, overrun := r.Concat(buff.data, n);
      ret, overrun := buff.Delete(0, n);
    }

    // What is left of the conditions once the buffer was used.
    ghost predicate Fits'(r: BString, terms: set<Byte>)
      reads this, buff, parm, r
    {
      Apart(r) && r.slen + LineLength(parm.rest, terms) + maxBuffSz < INT_MAX
    }

    // Reads go straight into the destination (src/bstring/bstrlib.c:2012-2037).
    method FromSource(r: BString, rlo: int, terms: set<Byte>, sentinel: Byte, ghost r0: seq<Byte>, ghost d0: seq<Byte>)
      returns (ret: int, ghost d: seq<Byte>)
      requires Fits'(r, terms) && r.Writable() && maxBuffSz < buff.mlen && sentinel in terms
      requires NoTerminator(d0, terms) && rlo == |r0| && r.Text() == r0 + d0
      modifies this`isEOF, buff, buff.data, parm, r, r.data
      ensures buff.Sound() && 0 <= buff.slen < buff.mlen && (r.data == old(r.data) || fresh(r.data))
      ensures buff.data == old(buff.data)
      ensures r.Sound() && r.Text() == r0 + d && d0 + old(parm.rest) == d + Pending()
      ensures ret == BSTR_OK <==> d != []
      ensures IsLine(d, terms) || (NoTerminator(d, terms) && isEOF && buff.Text() == [])
      ensures IsLine(d, terms) ==> isEOF == old(isEOF)
      ensures r.Writable() && r.Terminated() && buff.slen < maxBuffSz
    {
      hide IsLine, NoTerminator;
      ghost var rest;
      var l, i;
      l, i, d, rest := Gather(r, terms, sentinel, r0, d0);
      if l <= 0 {
        AtEnd(r);
        NotBoth(d, terms);
        return if r.slen == rlo then BSTR_ERR else BSTR_OK, d;
      }
      d := TakeLine(r, l, i, r0, d, rest, terms);
      LineNonEmpty(d, terms);
      ret := BSTR_OK;
    }

    // src/bstring/bstrlib.c:2018-2024.
    method AtEnd(r: BString)
      requires buff.Sound() && 0 <= buff.slen < buff.mlen && r != buff && r.data != buff.data && r.Sound()
      requires 0 <= r.slen < r.mlen
      modifies this`isEOF, buff`slen, r.data
      ensures buff.Sound() && buff.slen == 0 && isEOF && buff.Text() == [] && r.Sound() && r.Text() == old(r.Text())
      ensures r.Writable() && r.Terminated()
    {
      r.data[r.slen] := 0;
      buff.slen := 0;
      isEOF := true;
    }

    // The loop: chunks are kept until one holds a terminator, at `i` of `l` bytes, or none comes.
    method Gather(r: BString, terms: set<Byte>, sentinel: Byte, ghost r0: seq<Byte>, ghost d0: seq<Byte>)
      returns (l: int, i: int, ghost d: seq<Byte>, ghost rest: seq<Byte>)
      requires Fits'(r, terms) && r.Writable() && sentinel in terms && r.Text() == r0 + d0 && NoTerminator(d0, terms)
      modifies parm, r, r.data
      ensures Apart(r) && r.Writable() && (r.data == old(r.data) || fresh(r.data)) && r.slen + maxBuffSz < r.mlen
      ensures r.Text() == r0 + d && NoTerminator(d, terms) && d0 + old(parm.rest) == d + rest
      ensures l <= 0 ==> parm.rest == rest
      ensures 0 < l ==> 0 <= i < l <= maxBuffSz && rest == r.data[r.slen..r.slen + l] + parm.rest
      ensures 0 < l ==> r.data[r.slen + i] in terms && forall k :: r.slen <= k < r.slen + i ==> r.data[k] !in terms
    {
      hide NoTerminator;
      d, rest := d0, parm.rest;
      while true
        invariant Fits'(r, terms) && r.Writable() && rest == parm.rest && (r.data == old(r.data) || fresh(r.data))
        invariant r.Text() == r0 + d && NoTerminator(d, terms) && d0 + old(parm.rest) == d + rest
        decreases |rest|
      {
        l, i := ReadChunk(r, terms, sentinel);
        if l <= 0 || i < l {
          break;
        }
        d := KeepChunk(r, l, r0, d, rest, terms);
        rest := parm.rest;
      }
    }

    method KeepChunk(r: BString, l: int, ghost r0: seq<Byte>, ghost d0: seq<Byte>, ghost rest: seq<Byte>,
            terms: set<Byte>) returns (ghost d: seq<Byte>)
      requires r.Sound() && r.Writable() && 0 < l <= |rest| && r.slen + l < r.mlen && r.Text() == r0 + d0
      requires rest == r.data[r.slen..r.slen + l] + parm.rest && NoTerminator(d0, terms)
      requires forall k :: r.slen <= k < r.slen + l ==> r.data[k] !in terms
      modifies r`slen
      ensures r.Sound() && r.slen == old(r.slen) + l && r.Writable() && r.Text() == r0 + d && NoTerminator(d, terms)
      ensures d0 + rest == d + parm.rest && LineLength(rest, terms) == l + LineLength(parm.rest, terms)
    {
      ghost var s := r.data[r.slen..r.slen + l];
      d := d0 + s;
      LineLengthSkips(s, parm.rest, terms);
      r.slen := r.slen + l;
      assert r.Text() == r0 + d0 + s;
      Associates(r0, d0, s);
      Associates(d0, s, parm.rest);
    }

    // The line ends `i` bytes into the chunk of `l`; the rest of the chunk goes back to the buffer
    // (src/bstring/bstrlib.c:2031-2037).
    method TakeLine(r: BString, l: int, i: int, ghost r0: seq<Byte>, ghost d0: seq<Byte>, ghost rest: seq<Byte>,
            terms: set<Byte>)
      returns (ghost d: seq<Byte>)
      requires r.Sound() && r.Writable() && buff.Sound() && r != buff && r.data != buff.data && r.Text() == r0 + d0
      requires 0 <= i < l <= maxBuffSz < buff.mlen && r.slen + l < r.mlen && 0 <= buff.slen && NoTerminator(d0, terms)
      requires r.data[r.slen + i] in terms && forall k :: r.slen <= k < r.slen + i ==> r.data[k] !in terms
      requires rest == r.data[r.slen..r.slen + l] + parm.rest
      modifies buff`slen, buff.data, r`slen, r.data
      ensures buff.Sound() && 0 <= buff.slen < buff.mlen && r.Sound() && IsLine(d, terms)
      ensures r.Writable() && r.Terminated() && buff.slen < maxBuffSz
      ensures r.Text() == r0 + d && d0 + rest == d + Pending()
    {
      hide Deleted, IsLine;
      ghost var s, text := r.data[r.slen..r.slen + l], r.Text();
      assert forall k :: 0 <= k < i ==> s[..i][k] == r.data[r.slen + k];
      LineFound(d0, s, i, terms);
      d := d0 + s[..i + 1];
      r.slen := r.slen + i + 1;
      assert r.data[..r.slen] == text + s[..i + 1];
      OverRead(r, l - (i + 1));
      assert buff.Text() == s[i + 1..];
      r.data[r.slen] := 0;
      LineParts(r0, d0, s, i, parm.rest);
    }

    // The bytes after the line become the buffered ones.
    method OverRead(r: BString, n: int)
      requires buff.Sound() && r.data != buff.data && 0 <= r.slen && 0 <= n < buff.mlen && r.slen + n <= r.data.Length
      modifies buff`slen, buff.data
      ensures buff.Sound() && buff.slen == n && buff.Text() == r.data[r.slen..r.slen + n]
    {
      buff.slen := n;
      MemCopy(buff.data, 0, r.data, r.slen, n);
    }

    method ReadChunk(r: BString, terms: set<Byte>, sentinel: Byte) returns (l: int, i: int)
      requires Fits'(r, terms) && r.Writable() && sentinel in terms
      modifies parm, r`data, r`mlen, r.data
      ensures Apart(r) && r.Writable() && (r.data == old(r.data) || fresh(r.data)) && r.Text() == old(r.Text())
      ensures l <= maxBuffSz && l <= |old(parm.rest)| && r.slen + maxBuffSz < r.mlen
      ensures parm.rest == if l <= 0 then old(parm.rest) else old(parm.rest)[l..]
      ensures l > 0 ==> 0 <= i <= l && old(parm.rest) == r.data[r.slen..r.slen + l] + parm.rest
      ensures l > 0 ==>
        (forall k :: r.slen <= k < r.slen + i ==> r.data[k] !in terms) && (i < l ==> r.data[r.slen + i] in terms)
    {
      ghost var s := r.Text();
      var ret := r.Alloc(r.slen + maxBuffSz + 1);
      l, i := ReadAndScan(parm, r.data, r.slen, maxBuffSz, terms, sentinel);
      assert r.Text() == s;
    }

    // With an empty buffer and room in the destination the bytes come from one read of the source,
    // which may give fewer than there are (src/bstring/bstrlib.c:2133-2145).
    ghost predicate Direct(r: BString, n: int)
      reads this, buff, r
    {
      buff.slen == 0 && !isEOF && r.slen + n < r.mlen
    }

    /** bsreada, src/bstring/bstrlib.c:2118-2173. It promises `n` bytes, or all that come before the end of
        the source. A caller that sees !Direct (bytes are buffered, or the destination has no room beyond
        `n`) can rely on that; a direct read hands out just what one read gives. */
    method ReadBlock(r: BString, n: int) returns (ret: int, ghost d: seq<Byte>)
      requires Valid() && Apart(r) && n <= INT_MAX && r.slen + n != INT_MAX
      modifies this`isEOF, this`log, buff, buff.data, parm, r, r.data
      ensures Valid() && r.Sound() && r.Text() == old(r.Text()) + d && old(Pending()) == d + Pending()
      ensures ret == BSTR_OK <==> d != []
      ensures log == old(log) + [Delivered(d)]
      ensures var valid := old(r.Writable()) && 0 < n && old(r.slen) + n <= INT_MAX;
        (!valid ==> d == [] && isEOF == old(isEOF))
        && (valid ==> |d| <= n && (|d| < n && !old(Direct(r, n)) ==> isEOF))
        && (valid && old(Direct(r, n)) ==> |d| == OneRead(old(parm.sizes), n, |old(parm.rest)|))
        && (valid ==> (|d| < n && !isEOF <==>
              old(Direct(r, n)) && 0 < OneRead(old(parm.sizes), n, |old(parm.rest)|) < n))
      ensures |d| < |old(buff.Text())| ==> buff.Text() == old(buff.Text())[|d|..]
      ensures |old(buff.Text())| <= |d| ==> buff.Text() == []
      ensures |d| == n ==> isEOF == old(isEOF)
      ensures (r.data == old(r.data) || fresh(r.data)) && (buff.data == old(buff.data) || fresh(buff.data))
      ensures (old(r.Writable()) ==> r.Writable()) && (d != [] || old(r.Terminated()) ==> r.Terminated())
    {
      hide Replays, Given, OneRead;
      assert r.Text() == r.Text() + [] && Pending() == [] + Pending();
      ret, d := BSTR_ERR, [];
      if r.Writable() && 0 < n {
        var m := Int32(n + r.slen);
        if 0 < m {
          ret, d := GetBlock(r, m);
        }
      }
      ReplayDelivered(start, log, d, Pending());
      log := log + [Delivered(d)];
    }

    // `m` is the length that the destination is to have (src/bstring/bstrlib.c:2129-2172).
    method GetBlock(r: BString, m: int) returns (ret: int, ghost d: seq<Byte>)
      requires Apart(r) && r.Writable() && r.slen < m < INT_MAX
      modifies this`isEOF, buff, buff.data, parm, r, r.data
      ensures buff.Sound() && 0 <= buff.slen < buff.mlen
      ensures r.Sound() && r.Text() == old(r.Text()) + d && old(Pending()) == d + Pending()
      ensures ret == BSTR_OK <==> d != []
      ensures |d| <= m - old(r.slen) && (|d| < m - old(r.slen) && !old(Direct(r, m - r.slen)) ==> isEOF)
      ensures old(Direct(r, m - r.slen)) ==>
        |d| == OneRead(old(parm.sizes), m - old(r.slen), |old(parm.rest)|) && (isEOF <==> d == [])
      ensures |d| < |old(buff.Text())| ==> buff.Text() == old(buff.Text())[|d|..]
      ensures |old(buff.Text())| <= |d| ==> buff.Text() == []
      ensures |d| == m - old(r.slen) ==> isEOF == old(isEOF)
      ensures (r.data == old(r.data) || fresh(r.data)) && (buff.data == old(buff.data) || fresh(buff.data))
      ensures r.Writable() && (d != [] || old(r.Terminated()) ==> r.Terminated())
    {
      hide OneRead;
      if 0 == buff.slen {
        if isEOF {
          assert r.Text() == r.Text() + [] && Pending() == [] + Pending();
          return BSTR_ERR, [];
        }
        if r.mlen > m {
          ret, d := ReadDirect(r, m);
          assert buff.Text() == [];
          return;
        }
      }
      ret, d := GetBuffered(r, m);
    }

    // The buffer is made large enough and the bytes go through it.
    method GetBuffered(r: BString, m: int) returns (ret: int, ghost d: seq<Byte>)
      requires Apart(r) && r.Writable() && r.slen < m < INT_MAX
      modifies this`isEOF, buff, buff.data, parm, r, r.data
      ensures buff.Sound() && 0 <= buff.slen < buff.mlen
      ensures r.Sound() && r.Text() == old(r.Text()) + d && old(Pending()) == d + Pending()
      ensures ret == BSTR_OK <==> d != []
      ensures |d| <= m - old(r.slen) && (if |d| < m - old(r.slen) then isEOF else isEOF == old(isEOF))
      ensures |d| < |old(buff.Text())| ==> buff.Text() == old(buff.Text())[|d|..]
      ensures |old(buff.Text())| <= |d| ==> buff.Text() == []
      ensures (r.data == old(r.data) || fresh(r.data)) && (buff.data == old(buff.data) || fresh(buff.data))
      ensures r.Writable() && r.Terminated()
    {
      ghost var s := buff.Text();
      var l := buff.slen;
      var ok := buff.Alloc(maxBuffSz + 1);
      assert buff.data[..l] == s;
      ret, d := FillUp(r, m, l, s);
    }

    method ReadDirect(r: BString, m: int) returns (ret: int, ghost d: seq<Byte>)
      requires Apart(r) && r.Writable() && r.slen < m < r.mlen && buff.slen == 0
      modifies this`isEOF, parm, r`slen, r.data
      ensures r.Sound() && r.Text() == old(r.Text()) + d && old(Pending()) == d + Pending()
      ensures |d| == OneRead(old(parm.sizes), m - old(r.slen), |old(parm.rest)|)
      ensures isEOF <==> old(isEOF) || d == []
      ensures ret == BSTR_OK <==> d != []
      ensures r.Writable() && (d != [] || old(r.Terminated()) ==> r.Terminated())
    {
      ghost var rest, text := parm.rest, r.Text();
      var l := parm.Read(r.data, r.slen, m - r.slen);
      if 0 >= l || l > m - r.slen {
        isEOF := true;
        d := [];
        assert r.Text() == text + [];
        return BSTR_ERR, d;
      }
      d := rest[..l];
      r.slen := r.slen + l;
      assert r.data[..r.slen] == text + d;
      r.data[r.slen] := 0;
      return BSTR_OK, d;
    }

    // The loop through the buffer, of which `l` bytes are in use (src/bstring/bstrlib.c:2151-2172).
    method FillUp(r: BString, m: int, l0: int, ghost s: seq<Byte>) returns (ret: int, ghost d: seq<Byte>)
      requires Apart(r) && r.Writable() && 0 <= l0 < buff.mlen && maxBuffSz < buff.mlen && r.slen < m < INT_MAX
      requires buff.data[..l0] == s
      modifies this`isEOF, buff`slen, buff.data, parm, r, r.data
      ensures buff.Sound() && 0 <= buff.slen < buff.mlen
      ensures r.Sound() && r.Text() == old(r.Text()) + d && s + old(parm.rest) == d + Pending()
      ensures ret == BSTR_OK <==> d != []
      ensures |d| <= m - old(r.slen) && (|d| < m - old(r.slen) ==> isEOF)
      ensures |d| < |s| ==> buff.Text() == s[|d|..]
      ensures |s| <= |d| ==> buff.Text() == []
      ensures |d| == m - old(r.slen) ==> isEOF == old(isEOF)
      ensures (r.data == old(r.data) || fresh(r.data)) && buff.data == old(buff.data) && r.Writable() && r.Terminated()
    {
      ghost var r0, all := r.Text(), s + parm.rest;
      var orslen := r.slen;
      var l;
      ghost var chunk;
      l, d, chunk := FillRounds(r, m, l0, s);
      if l <= 0 {
        Drain();
        ret := if r.slen == orslen then BSTR_ERR else BSTR_OK;
      } else {
        d := FinishBlock(r, m - r.slen, l, r0, d, chunk, all);
        ret := BSTR_OK;
      }
    }

    // Up to the round in which the buffer holds all that is missing, or a read gives nothing.
    method FillRounds(r: BString, m: int, l0: int, ghost s: seq<Byte>)
      returns (l: int, ghost d: seq<Byte>, ghost chunk: seq<Byte>)
      requires Apart(r) && r.Writable() && 0 <= l0 < buff.mlen && maxBuffSz < buff.mlen && r.slen < m < INT_MAX
      requires buff.data[..l0] == s
      modifies buff.data, parm, r, r.data
      ensures r != buff && r.data != buff.data && r.Sound() && r.Writable() && (r.data == old(r.data) || fresh(r.data))
      ensures r.Text() == old(r.Text()) + d && r.slen < m && l < buff.mlen
      ensures l <= 0 ==> s + old(parm.rest) == d + parm.rest && |s| <= |d| && r.Terminated()
      ensures 0 < l ==> m <= r.slen + l && chunk == buff.data[..l] && s + old(parm.rest) == d + (chunk + parm.rest)
      ensures 0 < l ==> (d == [] && chunk == s) || (|s| <= |d| && r.slen + l == m)
    {
      ghost var r0, all := r.Text(), s + parm.rest;
      l, d, chunk := l0, [], s;
      assert r.Text() == r0 + d && d + (s + parm.rest) == all;
      while l + r.slen < m
        invariant r != buff && r.data != buff.data && r.Sound() && r.Writable()
        invariant (r.data == old(r.data) || fresh(r.data))
        invariant 0 <= l < buff.mlen && maxBuffSz < buff.mlen
        invariant r.Text() == r0 + d && chunk == buff.data[..l] && all == d + (chunk + parm.rest) && r.slen < m
        invariant (d == [] && chunk == s) || (|s| <= |d| && r.slen + l <= m)
        decreases |parm.rest|
      {
        Associates(r0, d, chunk);
        Associates(d, chunk, parm.rest);
        d := d + chunk;
        l, chunk := Refill(r, m, l);
        if l <= 0 {
          return;
        }
      }
    }

    method Drain()
      requires buff.Sound()
      modifies this`isEOF, buff`slen
      ensures buff.Sound() && buff.slen == 0 && isEOF && buff.Text() == [] && Pending() == parm.rest
    {
      buff.slen := 0;
      isEOF := true;
      assert [] + parm.rest == parm.rest;
    }

    // The buffered bytes are delivered and the buffer is filled again, by no more than is missing.
    method Refill(r: BString, m: int, l0: int) returns (l: int, ghost chunk: seq<Byte>)
      requires r != buff && r.data != buff.data && r.Sound() && r.Writable() && buff.Sound()
      requires 0 <= l0 && r.slen + l0 < m < INT_MAX && l0 < buff.mlen && 0 < maxBuffSz < buff.mlen
      modifies buff.data, parm, r, r.data
      ensures r != buff && r.data != buff.data && r.Sound() && r.Writable() && (r.data == old(r.data) || fresh(r.data))
      ensures r.slen == old(r.slen) + l0 && r.Text() == old(r.Text()) + old(buff.data[..l0]) && r.Terminated()
      ensures l <= maxBuffSz && r.slen + l <= m && l <= |old(parm.rest)|
      ensures l <= 0 ==> parm.rest == old(parm.rest)
      ensures 0 < l ==> chunk == buff.data[..l] && old(parm.rest) == chunk + parm.rest
    {
      hide Given;
      var ok, overrun := r.Concat(buff.data, l0);
      l := m - r.slen;
      if l > maxBuffSz {
        l := maxBuffSz;
      }
      l, chunk := ReadChunkOf(l);
    }

    // At most `x` bytes come into the buffer.
    method ReadChunkOf(x: int) returns (l: int, ghost chunk: seq<Byte>)
      requires 0 <= x <= buff.data.Length
      modifies buff.data, parm
      ensures l <= x && l <= |old(parm.rest)|
      ensures l <= 0 ==> parm.rest == old(parm.rest)
      ensures 0 < l ==> chunk == buff.data[..l] && old(parm.rest) == chunk + parm.rest
    {
      hide Given;
      ghost var rest := parm.rest;
      chunk := [];
      l := parm.Read(buff.data, 0, x);
      if 0 < l {
        chunk := rest[..l];
        assert chunk == buff.data[..l];
      }
    }

    // The last `x` bytes that were asked for (src/bstring/bstrlib.c:2152-2158).
    method FinishBlock(r: BString, x: int, l: int, ghost r0: seq<Byte>, ghost d0: seq<Byte>, ghost chunk: seq<Byte>,
            ghost all: seq<Byte>)
      returns (ghost d: seq<Byte>)
      requires r != buff && r.data != buff.data && r.Sound() && r.Writable() && buff.Sound() && 0 < x <= l < buff.mlen
      requires r.Text() == r0 + d0 && chunk == buff.data[..l] && all == d0 + (chunk + parm.rest) && r.slen + x < INT_MAX
      modifies buff`slen, buff.data, r, r.data
      ensures buff.Sound() && 0 <= buff.slen < buff.mlen && r.Sound() && r.Writable() && r.Terminated()
      ensures (r.data == old(r.data) || fresh(r.data)) && buff.data == old(buff.data)
      ensures d == d0 + chunk[..x] && buff.Text() == chunk[x..] && r.Text() == r0 + d && all == d + Pending()
    {
      hide Deleted;
      buff.slen := l;
      assert buff.Text() == chunk;
      Deliver(r, x);
      d := d0 + chunk[..x];
      BlockParts(r0, d0, chunk, x, parm.rest);
    }

    /** bsunread, src/bstring/bstrlib.c:2229-2232. */
    method Unread(b: BString) returns (ret: int)
      requires Valid() && b.Sound() && b != buff && b.data != buff.data
      modifies this`log, buff, buff.data
      ensures Valid() && (buff.data == old(buff.data) || fresh(buff.data))
      ensures ret == if 0 <= b.slen && old(buff.slen) + b.slen < INT_MAX then BSTR_OK else BSTR_ERR
      ensures ret == BSTR_OK ==> Pending() == b.Text() + old(Pending()) && log == old(log) + [Event.Unread(b.Text())]
      ensures ret == BSTR_ERR ==> Pending() == old(Pending()) && log == old(log)
    {
      hide Replays;
      ghost var pending, s := Pending(), buff.Text();
      ret := buff.Insert(0, b, 63);
      if ret == BSTR_OK {
        assert buff.Text() == b.Text() + s;
        Associates(b.Text(), s, parm.rest);
        ReplayUnread(start, log, b.Text(), pending);
        log := log + [Event.Unread(b.Text())];
      }
    }
  }

  ghost function Chars(s: seq<Byte>): set<Byte> { set c | c in s }

  lemma CharsAppend(s: seq<Byte>, c: Byte)
    ensures Chars(s + [c]) == Chars(s) + {c}
  {
  }

  /** A source that gives two bytes one by one: the block read of three bytes stops after the first. */
  method ShortDirectRead() returns (got: seq<Byte>, left: seq<Byte>, eof: bool)
    ensures got == [1] && left == [2] && !eof
  {
    var src := new Source;
    src.rest, src.sizes := [1, 2], [1];
    var s := new BStream(src, 1024);
    var r := new BString.Empty();
    ghost var p := s.Pending();
    assert p == [1, 2];
    var ret, d := s.ReadBlock(r, 3);
    assert s.Pending() == s.parm.rest && d == p[..1] && r.Text() == d;
    return r.data[..r.slen], s.parm.rest, s.isEOF;
  }
}
