/**
 * Find and replace (findreplaceengine, src/bstring/bstrlib.c:1554-1692): three strategies that work
 * in place on the buffer, all equal to one specification on sequences.
 */
module FindReplace {
  import opened BStrings
  import opened StringSearch
  import opened Search

  // Whether a window of the text counts as the pattern: equality, or equality up to case.
  type Match = (seq<Byte>, seq<Byte>) -> bool
  type Searcher = (seq<Byte>, int, seq<Byte>) -> int

  predicate Equal(w: seq<Byte>, f: seq<Byte>) { w == f }

  predicate MatchAt(s: seq<Byte>, p: int, f: seq<Byte>, same: Match) {
    0 <= p && p + |f| <= |s| && same(s[p..p + |f|], f)
  }

  /** The first match from `pos` on, or -1. */
  function Next(s: seq<Byte>, pos: int, f: seq<Byte>, same: Match): (r: int)
    requires 0 <= pos
    ensures FirstMatch(s, pos, f, same, r) && -1 <= r
    decreases |s| - pos
  {
    if pos + |f| > |s| || pos >= |s| + 1 then -1
    else if MatchAt(s, pos, f, same) then pos
    else Next(s, pos + 1, f, same)
  }

  ghost predicate FirstMatch(s: seq<Byte>, pos: int, f: seq<Byte>, same: Match, r: int) {
    && (r < 0 || (pos <= r && MatchAt(s, r, f, same)))
    && (forall p :: pos <= p && (r < 0 || p < r) ==> !MatchAt(s, p, f, same))
  }

  /** `instr` returns the first match in any text, from any position; a negative value when there is none. */
  ghost predicate Correct(instr: Searcher, f: seq<Byte>, same: Match) {
    forall s, pos :: 0 <= pos <= |s| ==> FirstMatch(s, pos, f, same, instr(s, pos, f))
  }

  /** The matches to be replaced: leftmost first, none overlapping the one before. */
  ghost function Cuts(s: seq<Byte>, pos: int, f: seq<Byte>, same: Match): seq<int>
    requires 0 <= pos && f != []
    decreases |s| - pos
  {
    var p := Next(s, pos, f, same);
    if p < 0 then [] else [p] + Cuts(s, p + |f|, f, same)
  }

  // The text from `pos` on, with `n` bytes at each cut replaced by `r`.
  ghost function Fill(s: seq<Byte>, pos: int, cuts: seq<int>, n: nat, r: seq<Byte>): seq<Byte>
    requires 0 <= pos
    decreases |cuts|
  {
    if pos > |s| then []
    else if cuts == [] then s[pos..]
    else if !(pos <= cuts[0] <= |s|) then []
    else s[pos..cuts[0]] + r + Fill(s, cuts[0] + n, cuts[1..], n, r)
  }

  ghost function Tail(s: seq<Byte>, pos: int, f: seq<Byte>, r: seq<Byte>, same: Match): seq<Byte>
    requires 0 <= pos && f != []
  {
    Fill(s, pos, Cuts(s, pos, f, same), |f|, r)
  }

  /** The result of replacing from `pos` on. */
  ghost function Replaced(s: seq<Byte>, pos: int, f: seq<Byte>, r: seq<Byte>, same: Match): seq<Byte>
    requires 0 <= pos && f != []
  {
    if pos > |s| then s else s[..pos] + Tail(s, pos, f, r, same)
  }

  // The cuts are matches from `pos` on, apart by the pattern's length, that miss no match.
  ghost predicate LeftmostCuts(s: seq<Byte>, pos: int, f: seq<Byte>, same: Match, cuts: seq<int>) {
    && (forall c :: c in cuts ==> pos <= c && MatchAt(s, c, f, same))
    && Apart(cuts, |f|)
    && (forall p :: pos <= p && MatchAt(s, p, f, same) ==> Covered(cuts, p, |f|))
  }

  ghost predicate Apart(cuts: seq<int>, n: nat) {
    forall k, l :: 0 <= k < l < |cuts| ==> cuts[k] + n <= cuts[l]
  }

  ghost predicate Covered(cuts: seq<int>, p: int, n: nat) {
    exists c :: c in cuts && c <= p < c + n
  }

  lemma CutsStep(s: seq<Byte>, pos: int, f: seq<Byte>, same: Match)
    requires 0 <= pos && f != []
    ensures var p := Next(s, pos, f, same);
      && FirstMatch(s, pos, f, same, p) && (p >= 0 ==> p + |f| <= |s|)
      && Cuts(s, pos, f, same) == if p < 0 then [] else [p] + Cuts(s, p + |f|, f, same)
  {
  }

  /** Every match from `pos` on begins within a replaced one that does not begin later. */
  lemma {:induction false} CutsLeftmost(s: seq<Byte>, pos: int, f: seq<Byte>, same: Match)
    requires 0 <= pos && f != []
    ensures LeftmostCuts(s, pos, f, same, Cuts(s, pos, f, same))
    decreases |s| - pos
  {
    hide Cuts, Next, MatchAt, FirstMatch, LeftmostCuts;
    CutsStep(s, pos, f, same);
    var p := Next(s, pos, f, same);
    if p < 0 {
      NothingToCut(s, pos, f, same, p);
    } else {
      CutsLeftmost(s, p + |f|, f, same);
      LeftmostCons(s, pos, f, same, p, Cuts(s, p + |f|, f, same));
    }
  }

  lemma NothingToCut(s: seq<Byte>, pos: int, f: seq<Byte>, same: Match, p: int)
    requires FirstMatch(s, pos, f, same, p) && p < 0
    ensures LeftmostCuts(s, pos, f, same, [])
  {
    hide MatchAt;
  }

  lemma LeftmostCons(s: seq<Byte>, pos: int, f: seq<Byte>, same: Match, p: int, rest: seq<int>)
    requires p >= 0 && FirstMatch(s, pos, f, same, p) && LeftmostCuts(s, p + |f|, f, same, rest) && f != []
    ensures LeftmostCuts(s, pos, f, same, [p] + rest)
  {
    hide MatchAt;
    var cuts := [p] + rest;
    forall q | pos <= q && MatchAt(s, q, f, same)
      ensures Covered(cuts, q, |f|)
    {
      if q < p + |f| {
        assert p in cuts;
      } else {
        var c :| c in rest && c <= q < c + |f|;
        assert c in cuts;
      }
    }
    forall l | 0 < l < |cuts|
      ensures cuts[0] + |f| <= cuts[l]
    {
      assert cuts[l] == rest[l - 1] && rest[l - 1] in rest;
    }
  }

  /** Those properties leave no choice. */
  lemma {:induction false} CutsUnique(s: seq<Byte>, pos: int, f: seq<Byte>, same: Match, cuts: seq<int>)
    requires 0 <= pos && f != [] && LeftmostCuts(s, pos, f, same, cuts)
    ensures cuts == Cuts(s, pos, f, same)
    decreases |cuts|
  {
    hide Cuts, Next, MatchAt;
    CutsStep(s, pos, f, same);
    if cuts != [] {
      LeftmostRest(s, pos, f, same, cuts);
      CutsUnique(s, cuts[0] + |f|, f, same, cuts[1..]);
    } else {
      assert !Covered(cuts, Next(s, pos, f, same), |f|);
    }
  }

  lemma ApartRest(cuts: seq<int>, n: nat)
    requires Apart(cuts, n) && cuts != []
    ensures Apart(cuts[1..], n) && cuts == [cuts[0]] + cuts[1..]
    ensures forall c :: c in cuts[1..] ==> c in cuts && cuts[0] + n <= c
  {
    forall c | c in cuts[1..]
      ensures c in cuts && cuts[0] + n <= c
    {
      var l :| 0 <= l < |cuts| - 1 && cuts[1..][l] == c;
      assert cuts[l + 1] == c;
    }
  }

  lemma FirstCut(s: seq<Byte>, pos: int, f: seq<Byte>, same: Match, cuts: seq<int>)
    requires 0 <= pos && f != [] && LeftmostCuts(s, pos, f, same, cuts) && cuts != []
    ensures pos <= cuts[0] == Next(s, pos, f, same)
  {
    hide Cuts, Next, MatchAt, Apart;
    ApartRest(cuts, |f|);
    CutsStep(s, pos, f, same);
    var p, c := Next(s, pos, f, same), cuts[0];
    assert c in cuts && pos <= c && MatchAt(s, c, f, same);
    assert 0 <= p <= c;
    assert Covered(cuts, p, |f|);
    var d :| d in cuts && d <= p < d + |f|;
    assert d == c || d in cuts[1..] by { assert cuts == [c] + cuts[1..]; }
    assert d == c;
  }

  lemma LeftmostRest(s: seq<Byte>, pos: int, f: seq<Byte>, same: Match, cuts: seq<int>)
    requires 0 <= pos && f != [] && LeftmostCuts(s, pos, f, same, cuts) && cuts != []
    ensures pos <= cuts[0] == Next(s, pos, f, same) && cuts == [cuts[0]] + cuts[1..]
    ensures LeftmostCuts(s, cuts[0] + |f|, f, same, cuts[1..])
  {
    hide Cuts, Next, MatchAt, Apart;
    ApartRest(cuts, |f|);
    FirstCut(s, pos, f, same, cuts);
    var p, rest := cuts[0], cuts[1..];
    forall q | p + |f| <= q && MatchAt(s, q, f, same)
      ensures Covered(rest, q, |f|)
    {
      assert Covered(cuts, q, |f|);
      var c :| c in cuts && c <= q < c + |f|;
      assert c != p;
    }
  }

  /** Each match changes the length by the difference of the two strings. */
  lemma {:induction false} TailLength(s: seq<Byte>, pos: int, f: seq<Byte>, r: seq<Byte>, same: Match)
    requires 0 <= pos <= |s| && f != []
    ensures |Tail(s, pos, f, r, same)| == |s| - pos + Grown(|Cuts(s, pos, f, same)|, |r| - |f|)
    decreases |s| - pos
  {
    hide Cuts, Next, MatchAt, Tail;
    CutsStep(s, pos, f, same);
    TailStep(s, pos, f, r, same);
    var p := Next(s, pos, f, same);
    if p >= 0 {
      TailLength(s, p + |f|, f, r, same);
    }
  }

  lemma TailStep(s: seq<Byte>, pos: int, f: seq<Byte>, r: seq<Byte>, same: Match)
    requires 0 <= pos <= |s| && f != []
    ensures var p := Next(s, pos, f, same);
      Tail(s, pos, f, r, same) == if p < 0 then s[pos..] else s[pos..p] + r + Tail(s, p + |f|, f, r, same)
  {
  }

  // A search reads nothing before its starting position.
  lemma {:induction false} NextSuffix(s: seq<Byte>, t: seq<Byte>, pos: int, f: seq<Byte>, same: Match)
    requires 0 <= pos <= |s| == |t| && s[pos..] == t[pos..]
    ensures Next(s, pos, f, same) == Next(t, pos, f, same)
    decreases |s| - pos
  {
    if pos + |f| <= |s| {
      assert forall k :: pos <= k < |s| ==> s[k] == s[pos..][k - pos] == t[k];
      assert s[pos..pos + |f|] == t[pos..pos + |f|];
      if !MatchAt(s, pos, f, same) && pos < |s| {
        assert s[pos + 1..] == t[pos + 1..];
        NextSuffix(s, t, pos + 1, f, same);
      }
    }
  }

  // What a correct searcher finds in a buffer whose text from `pos` on is that of `s`.
  lemma SearchSuffix(instr: Searcher, b: seq<Byte>, s: seq<Byte>, pos: int, f: seq<Byte>, same: Match)
    requires Correct(instr, f, same) && 0 <= pos <= |s| == |b| && b[pos..] == s[pos..]
    ensures var i := instr(b, pos, f); (i < 0 && Next(s, pos, f, same) < 0) || i == Next(s, pos, f, same)
  {
    NextSuffix(b, s, pos, f, same);
    assert FirstMatch(b, pos, f, same, instr(b, pos, f)) && FirstMatch(b, pos, f, same, Next(b, pos, f, same));
  }

  // The finished text ends at `pos - acc`; from `pos` on the buffer is as it was.
  ghost predicate Compacting(b: seq<Byte>, s: seq<Byte>, pos: int, acc: int, f: seq<Byte>, r: seq<Byte>, same: Match,
          whole: seq<Byte>) {
    && 0 <= acc <= pos <= |s| == |b| && f != [] && b[pos..] == s[pos..]
    && b[..pos - acc] + Tail(s, pos, f, r, same) == whole
  }

  // One match at `p`: the text before it is moved down, and the replacement written after that.
  lemma CompactStep(b: seq<Byte>, b': seq<Byte>, s: seq<Byte>, pos: int, acc: int, p: int, f: seq<Byte>, r: seq<Byte>,
          same: Match, whole: seq<Byte>)
    requires Compacting(b, s, pos, acc, f, r, same, whole) && p == Next(s, pos, f, same) >= 0 && |r| <= |f|
    requires |b'| == |b|
    requires b'[..p - acc + |r|] == b[..pos - acc] + b[pos..p] + r && b'[p + |f|..] == b[p + |f|..]
    ensures Compacting(b', s, p + |f|, acc + |f| - |r|, f, r, same, whole)
  {
    hide Tail, Next, MatchAt, FirstMatch;
    TailStep(s, pos, f, r, same);
    NextBounds(s, pos, f, same);
    assert b[pos..p] == b[pos..][..p - pos] == s[pos..p];
    assert b[p + |f|..] == b[pos..][p + |f| - pos..] == s[p + |f|..];
    var t := Tail(s, p + |f|, f, r, same);
    Associates(b[..pos - acc], s[pos..p] + r, t);
    Associates(b[..pos - acc], s[pos..p], r);
  }

  lemma CompactBounds(b: seq<Byte>, s: seq<Byte>, pos: int, acc: int, f: seq<Byte>, r: seq<Byte>, same: Match,
          whole: seq<Byte>)
    requires Compacting(b, s, pos, acc, f, r, same, whole)
    ensures 0 <= acc <= pos <= |s| == |b| && f != [] && b[pos..] == s[pos..]
  {
  }

  // No match is left: the rest is moved down.
  lemma CompactDone(b: seq<Byte>, b': seq<Byte>, s: seq<Byte>, pos: int, acc: int, f: seq<Byte>, r: seq<Byte>,
          same: Match, whole: seq<Byte>)
    requires Compacting(b, s, pos, acc, f, r, same, whole) && Next(s, pos, f, same) < 0 && |b'| == |b|
    requires b'[..|b| - acc] == b[..pos - acc] + b[pos..]
    ensures b'[..|b| - acc] == whole
  {
    TailStep(s, pos, f, r, same);
  }

  /** In place, for a replacement as long as the pattern (src/bstring/bstrlib.c:1585-1595). */
  method ReplaceEqual(b: BString, find: BString, repl: BString, start: int, instr: Searcher, ghost same: Match)
    requires b.Sound() && find.Sound() && repl.Sound() && b.data != repl.data && b.data != find.data && b != find
    requires b != repl
    requires 0 < find.slen == repl.slen && 0 <= start <= b.slen && Correct(instr, find.Text(), same)
    modifies b.data
    ensures b.Text() == Replaced(old(b.Text()), start, find.Text(), repl.Text(), same)
    ensures old(b.Terminated()) ==> b.Terminated()
  {
    hide Correct, Replaced, Tail, FirstMatch, Next, Compacting;
    ghost var s, f, r := b.Text(), find.Text(), repl.Text();
    ghost var whole := Replaced(s, start, f, r, same);
    CompactStart(s, start, f, r, same);
    var pos := start;
    while true
      invariant Compacting(b.data[..b.slen], s, pos, 0, f, r, same, whole)
      invariant old(b.Terminated()) ==> b.Terminated()
      decreases |s| - pos
    {
      ghost var b0 := b.Text();
      CompactBounds(b0, s, pos, 0, f, r, same, whole);
      SearchSuffix(instr, b0, s, pos, f, same);
      var p := instr(b.data[..b.slen], pos, find.data[..find.slen]);
      if p < 0 {
        assert b0[..|b0|] == b0 == b0[..pos] + b0[pos..];
        CompactDone(b0, b0, s, pos, 0, f, r, same, whole);
        break;
      }
      NextBounds(s, pos, f, same);
      EqualOne(b, pos, p, find, repl, s, same, whole);
      pos := p + find.slen;
    }
  }

  lemma CompactStart(s: seq<Byte>, start: int, f: seq<Byte>, r: seq<Byte>, same: Match)
    requires 0 <= start <= |s| && f != []
    ensures Compacting(s, s, start, 0, f, r, same, Replaced(s, start, f, r, same))
  {
    hide Replaced, Tail;
    ReplacedTail(s, start, f, r, same);
  }

  // A match is overwritten by a replacement of its length.
  method EqualOne(b: BString, pos: int, p: int, find: BString, repl: BString, ghost s: seq<Byte>, ghost same: Match,
          ghost whole: seq<Byte>)
    requires b.Sound() && find.Sound() && repl.Sound() && b.data != repl.data && b.data != find.data
    requires 0 < repl.slen == find.slen && 0 <= b.slen == |s|
    requires Compacting(b.Text(), s, pos, 0, find.Text(), repl.Text(), same, whole)
    requires p == Next(s, pos, find.Text(), same) >= 0
    modifies b.data
    ensures Compacting(b.Text(), s, p + find.slen, 0, find.Text(), repl.Text(), same, whole) && p + find.slen <= b.slen
    ensures b.slen < b.data.Length ==> b.data[b.slen] == old(b.data[b.slen])
  {
    hide Tail, Next, FirstMatch, Compacting;
    ghost var b0 := b.Text();
    CompactBounds(b0, s, pos, 0, find.Text(), repl.Text(), same, whole);
    NextBounds(s, pos, find.Text(), same);
    MemCopy(b.data, p, repl.data, 0, repl.slen);
    ghost var b1 := b.data[..b.slen];
    assert b1[..p + repl.slen] == b0[..pos] + b0[pos..p] + repl.Text();
    assert b1[p + find.slen..] == b0[p + find.slen..];
    CompactStep(b0, b1, s, pos, 0, p, find.Text(), repl.Text(), same, whole);
  }

  lemma ReplacedTail(s: seq<Byte>, start: int, f: seq<Byte>, r: seq<Byte>, same: Match)
    requires 0 <= start <= |s| && f != []
    ensures Replaced(s, start, f, r, same) == s[..start] + Tail(s, start, f, r, same)
  {
  }

  lemma NextBounds(s: seq<Byte>, pos: int, f: seq<Byte>, same: Match)
    requires 0 <= pos && Next(s, pos, f, same) >= 0
    ensures pos <= Next(s, pos, f, same) <= |s| - |f|
  {
    assert FirstMatch(s, pos, f, same, Next(s, pos, f, same));
  }

  // The gap before the match at `i` is closed and the replacement written (src/bstring/bstrlib.c:1602-1605).
  method CompactMatch(a: array<Byte>, pos: int, acc: int, i: int, n: int, repl: BString)
    requires a != repl.data && repl.Sound() && 0 <= repl.slen <= n && 0 <= acc <= pos <= i && i + n <= a.Length
    modifies a
    ensures a[..i - acc + repl.slen] == old(a[..pos - acc]) + old(a[pos..i]) + repl.Text()
    ensures forall k :: i + n <= k < a.Length ==> a[k] == old(a[k])
  {
    if acc != 0 && i > pos {
      MemMove(a, pos - acc, pos, i - pos);
    }
    assert a[..i - acc] == old(a[..pos - acc]) + old(a[pos..i]);
    ghost var moved := a[..i - acc];
    if repl.slen != 0 {
      MemCopy(a, i - acc, repl.data, 0, repl.slen);
    }
    assert a[..i - acc] == moved && a[i - acc..i - acc + repl.slen] == repl.Text();
  }

  method CompactOne(b: BString, pos: int, acc: int, i: int, find: BString, repl: BString, ghost s: seq<Byte>,
          ghost same: Match, ghost whole: seq<Byte>)
    requires b.Sound() && find.Sound() && repl.Sound() && b.data != repl.data && b.data != find.data
    requires 0 <= repl.slen < find.slen
    requires b.slen == |s| && Compacting(b.Text(), s, pos, acc, find.Text(), repl.Text(), same, whole)
    requires i == Next(s, pos, find.Text(), same) >= 0
    modifies b.data
    ensures Compacting(b.Text(), s, i + find.slen, acc + find.slen - repl.slen, find.Text(), repl.Text(), same, whole)
    ensures b.slen < b.data.Length ==> b.data[b.slen] == old(b.data[b.slen])
  {
    hide Tail, Next, FirstMatch, Compacting;
    ghost var b0 := b.Text();
    CompactBounds(b0, s, pos, acc, find.Text(), repl.Text(), same, whole);
    NextBounds(s, pos, find.Text(), same);
    assert b.data[..b.slen] == b0 && 0 <= acc <= pos <= i <= b.slen;
    assert b.data[..pos - acc] == b0[..pos - acc];
    assert b.data[pos..i] == b0[pos..i];
    CompactMatch(b.data, pos, acc, i, find.slen, repl);
    ghost var b1 := b.data[..b.slen];
    assert b1[..i - acc + repl.slen] == b.data[..i - acc + repl.slen];
    assert b1[i + find.slen..] == b0[i + find.slen..];
    CompactStep(b0, b1, s, pos, acc, i, find.Text(), repl.Text(), same, whole);
  }

  /** In place, for a replacement shorter than the pattern (src/bstring/bstrlib.c:1597-1621). */
  method ReplaceShrink(b: BString, find: BString, repl: BString, start: int, instr: Searcher, ghost same: Match)
    requires b.Sound() && find.Sound() && repl.Sound() && b.data != repl.data && b.data != find.data && b != find
    requires b != repl
    requires 0 <= repl.slen < find.slen && 0 <= start <= b.slen && Correct(instr, find.Text(), same)
    modifies b`slen, b.data
    ensures b.Sound() && b.Text() == Replaced(old(b.Text()), start, find.Text(), repl.Text(), same)
    ensures 0 <= b.slen <= old(b.slen) && (old(b.Terminated()) ==> b.Terminated())
  {
    hide Correct, Replaced, Tail, FirstMatch, Next, Compacting;
    ghost var s, f, r := b.Text(), find.Text(), repl.Text();
    ghost var whole := Replaced(s, start, f, r, same);
    CompactStart(s, start, f, r, same);
    var pos, acc := start, 0;
    var i: int;
    while true
      invariant b.slen == |s| <= b.data.Length && Compacting(b.data[..b.slen], s, pos, acc, f, r, same, whole)
      invariant old(b.Terminated()) ==> b.Terminated()
      decreases |s| - pos
    {
      ghost var b0 := b.Text();
      CompactBounds(b0, s, pos, acc, f, r, same, whole);
      SearchSuffix(instr, b0, s, pos, f, same);
      i := instr(b.data[..b.slen], pos, find.data[..find.slen]);
      if i < 0 {
        break;
      }
      NextBounds(s, pos, f, same);
      CompactOne(b, pos, acc, i, find, repl, s, same, whole);
      acc := acc + (find.slen - repl.slen);
      pos := i + find.slen;
    }
    CompactRest(b, pos, acc, s, f, r, same, whole);
  }

  // The text after the last match (src/bstring/bstrlib.c:1610-1616).
  method CompactRest(b: BString, pos: int, acc: int, ghost s: seq<Byte>, ghost f: seq<Byte>, ghost r: seq<Byte>,
          ghost same: Match, ghost whole: seq<Byte>)
    requires b.slen == |s| <= b.data.Length && b.Sound()
    requires Compacting(b.data[..b.slen], s, pos, acc, f, r, same, whole) && Next(s, pos, f, same) < 0
    modifies b`slen, b.data
    ensures b.Sound() && 0 <= b.slen <= old(b.slen) && b.Text() == whole && (old(b.Terminated()) ==> b.Terminated())
  {
    hide Tail, Next, Compacting;
    ghost var b0 := b.Text();
    CompactBounds(b0, s, pos, acc, f, r, same, whole);
    if acc != 0 {
      var i := b.slen;
      if i > pos {
        MemMove(b.data, pos - acc, pos, i - pos);
      }
      assert b.data[..i - acc] == b0[..pos - acc] + b0[pos..];
      CompactDone(b0, b.data[..b.slen], s, pos, acc, f, r, same, whole);
      b.slen := b.slen - acc;
      b.data[b.slen] := 0;
    } else {
      assert b0[..|b0|] == b0 == b0[..pos] + b0[pos..];
      CompactDone(b0, b0, s, pos, acc, f, r, same, whole);
    }
  }

  /** The room for match positions may double as long as it is below this (src/bstring/bstrlib.c:1642-1654). */
  const CUTS_MAX := 0x800_0000
  const INITIAL_STATIC_FIND_INDEX_COUNT := 32

  // `left` more doublings reach that bound.
  ghost predicate CutsRoom(mlen: int, left: nat) {
    0 < mlen && mlen * Pow2(left) == CUTS_MAX
  }

  lemma CutsRoomStart()
    ensures CutsRoom(INITIAL_STATIC_FIND_INDEX_COUNT, 22)
  {
    PowSum(11, 11);
    assert Pow2(11) == 2048;
  }

  lemma CutsRoomDoubled(mlen: int, left: nat)
    requires CutsRoom(mlen, left)
    ensures 0 < mlen <= CUTS_MAX && (mlen == CUTS_MAX <==> left == 0)
    ensures left > 0 ==> CutsRoom(2 * mlen, left - 1) && 2 * mlen <= CUTS_MAX
  {
    var p := Pow2(left);
    assert p >= 1;
    assert mlen * p >= mlen;
    if left > 0 {
      var q := Pow2(left - 1);
      assert mlen * (2 * q) == (2 * mlen) * q && q >= 1;
      assert (2 * mlen) * q >= 2 * mlen;
    }
  }

  // The growable array of match positions (src/bstring/bstrlib.c:1642-1656).
  method StoreCut(d: array<int>, n: int, mlen: int, p: int, ghost left: nat)
    returns (ok: bool, d': array<int>, mlen': int, ghost left': nat)
    requires CutsRoom(mlen, left) && 0 <= n < mlen <= d.Length
    modifies d
    ensures ok <==> n + 1 < CUTS_MAX
    ensures ok ==>
      (d' == d || fresh(d')) && n + 1 < mlen' <= d'.Length && d'[..n + 1] == old(d[..n]) + [p] && CutsRoom(mlen', left')
  {
    CutsRoomDoubled(mlen, left);
    d', mlen', left' := d, mlen, left;
    if n >= mlen - 1 {
      mlen' := Int32(mlen + mlen);
      var sl := Int32(8 * mlen');
      if mlen' <= 0 || sl < mlen' {
        return false, d', mlen', left';
      }
      d' := new int[mlen'];
      forall i | 0 <= i < n {
        d'[i] := d[i];
      }
      left' := left - 1;
    }
    d'[n] := p;
    ok := true;
  }

  /** All matches, unless they are too many or the result too long (src/bstring/bstrlib.c:1637-1663). */
  method FindAll(b: BString, find: BString, grow: int, start: int, instr: Searcher, ghost same: Match)
    returns (ok: bool, d: array<int>, n: int, acc: int)
    requires b.Sound() && find.Sound() && 0 < find.slen && 0 <= start <= b.slen && 0 < grow <= INT_MAX
    requires Correct(instr, find.Text(), same)
    ensures var cuts := Cuts(b.Text(), start, find.Text(), same);
      && (ok <==> |cuts| < CUTS_MAX && Grown(|cuts|, grow) <= INT_MAX)
      && (ok ==> fresh(d) && n == |cuts| < d.Length && d[..n] == cuts && acc == Grown(n, grow))
  {
    hide Cuts, Next, Correct, FirstMatch, CutsRoom, Pow2, Grown;
    ghost var s, f := b.Text(), find.Text();
    ghost var cuts, left: nat := Cuts(s, start, f, same), 22;
    var pos, mlen := start, INITIAL_STATIC_FIND_INDEX_COUNT;
    d, n, acc := new int[INITIAL_STATIC_FIND_INDEX_COUNT + 1], 0, 0;
    CutsRoomStart();
    GrownZero(grow);
    while true
      invariant fresh(d) && 0 <= n < CUTS_MAX && n < mlen <= d.Length && CutsRoom(mlen, left)
      invariant 0 <= pos <= |s| && d[..n] + Cuts(s, pos, f, same) == cuts && acc == Grown(n, grow) <= INT_MAX
      decreases |s| - pos
    {
      SearchSuffix(instr, s, s, pos, f, same);
      CutsStep(s, pos, f, same);
      var p := instr(b.data[..b.slen], pos, find.data[..find.slen]);
      if p < 0 {
        return true, d, n, acc;
      }
      GrownMonotone(n + 1, |cuts|, grow);
      GrownMonotone(n, n, grow);
      Associates(d[..n], [p], Cuts(s, p + |f|, f, same));
      ok, d, mlen, left := StoreCut(d, n, mlen, p, left);
      if !ok {
        return false, d, n, acc;
      }
      n := n + 1;
      acc := acc + grow;
      pos := p + find.slen;
      if Int32(acc) < 0 {
        return false, d, n, acc;
      }
    }
  }

  // `n` replacements, each longer by `g`.
  ghost function Grown(n: nat, g: int): int { if n == 0 then 0 else Grown(n - 1, g) + g }

  lemma {:induction false} GrownMonotone(n: nat, m: nat, g: int)
    requires 0 < g && n <= m
    ensures 0 <= Grown(n, g) <= Grown(m, g) && Grown(n + 1, g) == Grown(n, g) + g
  {
    if n < m {
      GrownMonotone(n, m - 1, g);
    } else if n > 0 {
      GrownMonotone(n - 1, n - 1, g);
    }
  }

  // Where the `k`th match begins; the end of the text counts as one.
  ghost function CutAt(s: seq<Byte>, cuts: seq<int>, k: nat): int { if k < |cuts| then cuts[k] else |s| }

  // From the `k`th match on the result is in place, `acc` bytes further up; before it nothing changed.
  ghost predicate Expanded(b: seq<Byte>, s: seq<Byte>, cuts: seq<int>, k: nat, acc: int, n: nat, r: seq<Byte>) {
    && k <= |cuts| && 0 <= acc && 0 <= CutAt(s, cuts, k) <= |s| && |s| <= |b| && CutAt(s, cuts, k) + acc <= |b|
    && b[..CutAt(s, cuts, k)] == s[..CutAt(s, cuts, k)]
    && b[CutAt(s, cuts, k) + acc..] == Fill(s, CutAt(s, cuts, k), cuts[k..], n, r)
  }

  // The matches lie in the text and do not overlap.
  ghost predicate Spaced(s: seq<Byte>, cuts: seq<int>, n: nat) {
    forall k: nat :: k < |cuts| ==> 0 <= cuts[k] && cuts[k] + n <= CutAt(s, cuts, k + 1) <= |s|
  }

  lemma {:induction false} FillSplit(s: seq<Byte>, pos: int, m: int, cuts: seq<int>, n: nat, r: seq<Byte>)
    requires 0 <= pos <= m <= |s| && (cuts != [] ==> m <= cuts[0] <= |s|)
    ensures Fill(s, pos, cuts, n, r) == s[pos..m] + Fill(s, m, cuts, n, r)
  {
    if cuts != [] {
      var t := Fill(s, cuts[0] + n, cuts[1..], n, r);
      assert s[pos..cuts[0]] + r + t == s[pos..m] + (s[m..cuts[0]] + r + t);
    }
  }

  lemma FillCut(s: seq<Byte>, cuts: seq<int>, k: nat, n: nat, r: seq<Byte>)
    requires k < |cuts| && Spaced(s, cuts, n)
    ensures var p, next := cuts[k], CutAt(s, cuts, k + 1);
      Fill(s, p, cuts[k..], n, r) == r + s[p + n..next] + Fill(s, next, cuts[k + 1..], n, r)
  {
    var p, next := cuts[k], CutAt(s, cuts, k + 1);
    assert cuts[k..][1..] == cuts[k + 1..];
    assert next <= |s| && (k + 1 < |cuts| ==> cuts[k + 1] + n <= |s|);
    FillSplit(s, p + n, next, cuts[k + 1..], n, r);
    assert s[p..p] + r == r;
    var t := Fill(s, next, cuts[k + 1..], n, r);
    assert r + (s[p + n..next] + t) == r + s[p + n..next] + t;
  }

  lemma ExpandStep(b: seq<Byte>, b': seq<Byte>, s: seq<Byte>, cuts: seq<int>, k: nat, acc: int, n: nat, r: seq<Byte>)
    requires k < |cuts| && Spaced(s, cuts, n) && Expanded(b, s, cuts, k + 1, acc, n, r) && |b'| == |b|
    requires 0 <= acc - (|r| - n) && n < |r|
    requires var p, next := cuts[k], CutAt(s, cuts, k + 1);
      && 0 <= p && p + n <= next && b'[..p] == b[..p]
      && b'[p + acc - (|r| - n)..] == r + b[p + n..next] + b[next + acc..]
    ensures Expanded(b', s, cuts, k, acc - (|r| - n), n, r)
  {
    var p, next := cuts[k], CutAt(s, cuts, k + 1);
    FillCut(s, cuts, k, n, r);
    assert b[p + n..next] == b[..next][p + n..] == s[p + n..next];
    assert b[..p] == b[..next][..p] == s[..p];
  }

  // One match (src/bstring/bstrlib.c:1672-1681): the text after it is moved up by `acc` and the
  // replacement written before that.
  method SpreadOne(a: array<Byte>, p: int, next: int, acc: int, flen: int, repl: BString)
    requires repl.Sound() && a != repl.data && 0 <= flen < repl.slen && 0 <= p && p + flen <= next
    requires 0 <= acc - (repl.slen - flen) && next + acc <= a.Length
    modifies a
    ensures forall k :: 0 <= k < p || next + acc <= k < a.Length ==> a[k] == old(a[k])
    ensures forall k :: p + flen + acc <= k < next + acc ==> a[k] == old(a[k - acc])
    ensures forall k :: p + flen + acc - repl.slen <= k < p + flen + acc ==>
      a[k] == repl.data[k - (p + flen + acc - repl.slen)]
  {
    var at := p + flen;
    var l := next - at;
    if l != 0 {
      MemMove(a, at + acc, at, l);
    }
    if repl.slen != 0 {
      MemCopy(a, at + acc - repl.slen, repl.data, 0, repl.slen);
    }
  }

  lemma SpreadText(b: seq<Byte>, b': seq<Byte>, p: int, next: int, acc: int, n: int, r: seq<Byte>)
    requires |b'| == |b| && 0 <= n < |r| && 0 <= p && p + n <= next && 0 <= acc - (|r| - n) && next + acc <= |b|
    requires forall k :: 0 <= k < p || next + acc <= k < |b| ==> b'[k] == b[k]
    requires forall k :: p + n + acc <= k < next + acc ==> b'[k] == b[k - acc]
    requires forall k :: p + n + acc - |r| <= k < p + n + acc ==> b'[k] == r[k - (p + n + acc - |r|)]
    ensures b'[..p] == b[..p] && b'[p + acc - (|r| - n)..] == r + b[p + n..next] + b[next + acc..]
  {
    SpreadParts(b, b', p, next, acc, n, r);
    SplitAt(b', p + n + acc - |r|, p + n + acc);
    SplitAt(b', p + n + acc, next + acc);
    var t := b'[next + acc..];
    Associates(r, b[p + n..next], t);
  }

  lemma SpreadParts(b: seq<Byte>, b': seq<Byte>, p: int, next: int, acc: int, n: int, r: seq<Byte>)
    requires |b'| == |b| && 0 <= n < |r| && 0 <= p && p + n <= next && 0 <= acc - (|r| - n) && next + acc <= |b|
    requires forall k :: 0 <= k < p || next + acc <= k < |b| ==> b'[k] == b[k]
    requires forall k :: p + n + acc <= k < next + acc ==> b'[k] == b[k - acc]
    requires forall k :: p + n + acc - |r| <= k < p + n + acc ==> b'[k] == r[k - (p + n + acc - |r|)]
    ensures b'[..p] == b[..p] && b'[p + n + acc - |r|..p + n + acc] == r
    ensures b'[p + n + acc..next + acc] == b[p + n..next] && b'[next + acc..] == b[next + acc..]
  {
  }

  lemma SplitAt(b: seq<Byte>, x: int, y: int)
    requires 0 <= x <= y <= |b|
    ensures b[x..] == b[x..y] + b[y..]
  {
  }

  lemma ExpandMatch(b: seq<Byte>, b': seq<Byte>, s: seq<Byte>, cuts: seq<int>, k: nat, acc: int, n: nat, r: seq<Byte>)
    requires k < |cuts| && Spaced(s, cuts, n) && Expanded(b, s, cuts, k + 1, acc, n, r) && |b'| == |b|
    requires n < |r| && 0 <= acc - (|r| - n)
    requires var p, next := cuts[k], CutAt(s, cuts, k + 1);
      && (forall i :: 0 <= i < p || next + acc <= i < |b| ==> b'[i] == b[i])
      && (forall i :: p + n + acc <= i < next + acc ==> 0 <= i - acc < |b| && 0 <= i < |b| && b'[i] == b[i - acc])
      && (forall i :: p + n + acc - |r| <= i < p + n + acc ==> 0 <= i < |b| && b'[i] == r[i - (p + n + acc - |r|)])
    ensures Expanded(b', s, cuts, k, acc - (|r| - n), n, r)
  {
    assert 0 <= cuts[k] && cuts[k] + n <= CutAt(s, cuts, k + 1) && CutAt(s, cuts, k + 1) + acc <= |b|;
    hide Expanded, Spaced;
    SpreadText(b, b', cuts[k], CutAt(s, cuts, k + 1), acc, n, r);
    ExpandStep(b, b', s, cuts, k, acc, n, r);
  }

  method SpreadMatch(b: BString, p: int, next: int, acc: int, flen: int, repl: BString, ghost s: seq<Byte>,
          ghost cuts: seq<int>, ghost k: nat)
    requires b.Sound() && repl.Sound() && b.data != repl.data && 0 <= flen < repl.slen && 0 <= b.slen
    requires k < |cuts| && Spaced(s, cuts, flen) && p == cuts[k] && next == CutAt(s, cuts, k + 1)
    requires Expanded(b.Text(), s, cuts, k + 1, acc, flen, repl.Text()) && 0 <= acc - (repl.slen - flen)
    modifies b.data
    ensures Expanded(b.Text(), s, cuts, k, acc - (repl.slen - flen), flen, repl.Text())
    ensures b.slen < b.data.Length ==> b.data[b.slen] == old(b.data[b.slen])
  {
    hide Fill;
    ghost var b0 := b.Text();
    assert p + flen <= next && next + acc <= |b0|;
    hide Expanded, Spaced;
    SpreadOne(b.data, p, next, acc, flen, repl);
    ExpandMatch(b0, b.data[..b.slen], s, cuts, k, acc, flen, repl.data[..repl.slen]);
  }

  /** The segments are moved up and the replacements written from the last match to the first. */
  method SpreadOut(b: BString, d: array<int>, n: int, total: int, flen: int, repl: BString, ghost s: seq<Byte>)
    requires b.Sound() && repl.Sound() && b.data != repl.data && 0 <= flen < repl.slen && 0 <= b.slen
    requires d as object != b.data && 0 <= n < d.Length && d[n] == |s| && total == Grown(n, repl.slen - flen)
    requires Spaced(s, d[..n], flen) && Expanded(b.Text(), s, d[..n], n, total, flen, repl.Text())
    modifies b.data
    ensures Expanded(b.Text(), s, d[..n], 0, 0, flen, repl.Text())
    ensures b.slen < b.data.Length ==> b.data[b.slen] == old(b.data[b.slen])
  {
    hide Grown, Expanded, Spaced;
    ghost var r, cuts := repl.Text(), d[..n];
    var i, acc := n - 1, total;
    while i >= 0
      invariant -1 <= i < n && acc == Grown(i + 1, repl.slen - flen)
      invariant Expanded(b.Text(), s, cuts, i + 1, acc, flen, r)
      invariant b.slen < b.data.Length ==> b.data[b.slen] == old(b.data[b.slen])
    {
      GrownMonotone(i, i, repl.slen - flen);
      SpreadMatch(b, d[i], d[i + 1], acc, flen, repl, s, cuts, i);
      acc := acc - (repl.slen - flen);
      i := i - 1;
    }
    assert Grown(0, repl.slen - flen) == 0 by { GrownZero(repl.slen - flen); }
  }

  lemma GrownZero(g: int)
    ensures Grown(0, g) == 0
  {
  }

  /** In a new buffer when needed, for a replacement longer than the pattern (src/bstring/bstrlib.c:1637-1691). */
  method ReplaceExpand(b: BString, find: BString, repl: BString, start: int, instr: Searcher, ghost same: Match)
    returns (ret: int)
    requires b.Sound() && find.Sound() && repl.Sound() && b.data != repl.data && b.data != find.data && b != find
    requires b != repl
    requires b.Writable() && 0 < find.slen < repl.slen && 0 <= start <= b.slen && Correct(instr, find.Text(), same)
    modifies b, b.data
    ensures b.Sound() && b.Writable() && (b.data == old(b.data) || fresh(b.data))
    ensures ret == if old(TooLong(b.Text(), start, find.Text(), repl.Text(), same)) then BSTR_ERR else BSTR_OK
    ensures ret == BSTR_OK ==> b.Text() == Replaced(old(b.Text()), start, find.Text(), repl.Text(), same)
    ensures ret == BSTR_ERR ==> b.Text() == old(b.Text()) && b.slen == old(b.slen) && b.mlen == old(b.mlen)
    ensures old(b.Terminated()) ==> b.Terminated()
  {
    hide Correct, Cuts, Fill, TooLong, Replaced, Grown, Next;
    ghost var s, f, r, grow := b.Text(), find.Text(), repl.Text(), repl.slen - find.slen;
    ghost var cuts := Cuts(s, start, f, same);
    TooLongIff(s, start, f, r, same);
    GrownMonotone(|cuts|, |cuts|, grow);
    var ok, d, n, acc := FindAll(b, find, repl.slen - find.slen, start, instr, same);
    if !ok {
      return BSTR_ERR;
    }
    ret := b.Alloc(Int32(b.slen + acc + 1));
    if ret == BSTR_OK {
      SpreadAll(b, d, n, acc, find.slen, repl, s, start, f, same);
    }
  }

  // There is room for the result (src/bstring/bstrlib.c:1666-1684).
  method SpreadAll(b: BString, d: array<int>, n: int, acc: int, flen: int, repl: BString, ghost s: seq<Byte>,
          ghost start: int, ghost f: seq<Byte>, ghost same: Match)
    requires b.Sound() && repl.Sound() && b != repl && b.data != repl.data && 0 < flen == |f| < repl.slen
    requires d as object != b.data && 0 <= start <= |s| == b.slen && b.data[..b.slen] == s
    requires 0 <= n < d.Length && d[..n] == Cuts(s, start, f, same) && acc == Grown(n, repl.slen - flen)
    requires b.slen + acc < b.data.Length && b.slen + acc < b.mlen
    modifies b`slen, b.data, d
    ensures b.Sound() && b.Terminated() && b.Text() == Replaced(s, start, f, repl.Text(), same)
    ensures 0 <= b.slen < b.mlen
  {
    hide Cuts, Fill, Replaced, Grown, Spaced, Expanded, Next;
    ghost var cuts := Cuts(s, start, f, same);
    CutsSpaced(s, start, f, same);
    GrownMonotone(n, n, repl.slen - flen);
    d[n] := b.slen;
    assert d[..n] == cuts;
    b.slen := b.slen + acc;
    ExpandStart(s, b.data[..b.slen], cuts, acc, flen, repl.Text());
    SpreadOut(b, d, n, acc, flen, repl, s);
    ExpandDone(b.Text(), s, start, cuts, f, repl.Text(), same);
    b.data[b.slen] := 0;
  }

  /** More matches than can be stored, or no room for the result and its terminator in an int. */
  ghost predicate TooLong(s: seq<Byte>, start: int, f: seq<Byte>, r: seq<Byte>, same: Match)
    requires 0 <= start && f != []
  {
    |Cuts(s, start, f, same)| >= CUTS_MAX || |Replaced(s, start, f, r, same)| >= INT_MAX
  }

  lemma TooLongIff(s: seq<Byte>, start: int, f: seq<Byte>, r: seq<Byte>, same: Match)
    requires 0 <= start <= |s| && f != []
    ensures var n := |Cuts(s, start, f, same)|;
      TooLong(s, start, f, r, same) <==> n >= CUTS_MAX || |s| + Grown(n, |r| - |f|) >= INT_MAX
  {
    hide Cuts, Tail, Grown;
    TailLength(s, start, f, r, same);
  }

  lemma {:induction false} CutsSpaced(s: seq<Byte>, pos: int, f: seq<Byte>, same: Match)
    requires 0 <= pos <= |s| && f != []
    ensures var cuts := Cuts(s, pos, f, same); Spaced(s, cuts, |f|) && pos <= CutAt(s, cuts, 0) <= |s|
    decreases |s| - pos
  {
    hide Cuts, Next, MatchAt;
    CutsStep(s, pos, f, same);
    var p, cuts := Next(s, pos, f, same), Cuts(s, pos, f, same);
    if p >= 0 {
      CutsSpaced(s, p + |f|, f, same);
      SpacedCons(s, p, Cuts(s, p + |f|, f, same), |f|);
    }
  }

  lemma SpacedCons(s: seq<Byte>, p: int, rest: seq<int>, n: nat)
    requires Spaced(s, rest, n) && 0 <= p && p + n <= CutAt(s, rest, 0) <= |s|
    ensures Spaced(s, [p] + rest, n)
  {
    var cuts := [p] + rest;
    forall k: nat | k < |cuts|
      ensures 0 <= cuts[k] && cuts[k] + n <= CutAt(s, cuts, k + 1) <= |s|
    {
      if k > 0 {
        assert rest[k - 1] + n <= CutAt(s, rest, k - 1 + 1);
      }
    }
  }

  lemma SpacedRest(s: seq<Byte>, cuts: seq<int>, n: nat)
    requires Spaced(s, cuts, n) && cuts != []
    ensures Spaced(s, cuts[1..], n) && 0 <= cuts[0] && cuts[0] + n <= CutAt(s, cuts[1..], 0) <= |s|
  {
    forall k: nat | k < |cuts| - 1
      ensures 0 <= cuts[1..][k] && cuts[1..][k] + n <= CutAt(s, cuts[1..], k + 1) <= |s|
    {
      assert cuts[k + 1] + n <= CutAt(s, cuts, k + 2) <= |s|;
    }
    assert cuts[0] + n <= CutAt(s, cuts, 1) <= |s|;
  }

  /** `r` stands at `at`. */
  ghost predicate PartIs(t: seq<Byte>, at: int, r: seq<Byte>) {
    0 <= at && at + |r| <= |t| && t[at..at + |r|] == r
  }

  // The parts of a text with its cuts filled: the `k`th replacement, and a byte after `k` cuts.
  lemma {:induction false} FillAt(s: seq<Byte>, pos: int, cuts: seq<int>, n: nat, r: seq<Byte>, k: nat)
    requires Spaced(s, cuts, n) && 0 <= pos <= CutAt(s, cuts, 0) <= |s| && k < |cuts|
    ensures PartIs(Fill(s, pos, cuts, n, r), cuts[k] - pos + Grown(k, |r| - n), r)
    decreases k
  {
    hide Spaced, Fill, Grown;
    SpacedRest(s, cuts, n);
    FillStep(s, pos, cuts, n, r);
    var x, u := s[pos..cuts[0]] + r, Fill(s, cuts[0] + n, cuts[1..], n, r);
    GrownStep(k, |r| - n);
    if k == 0 {
      assert (x + u)[cuts[0] - pos..|x|] == r;
    } else {
      FillAt(s, cuts[0] + n, cuts[1..], n, r, k - 1);
      var at := cuts[k] - (cuts[0] + n) + Grown(k - 1, |r| - n);
      SliceOn(x, u, at, at + |r|);
    }
  }

  lemma SliceOn(x: seq<Byte>, u: seq<Byte>, i: int, j: int)
    requires 0 <= i <= j <= |u|
    ensures (x + u)[|x| + i..|x| + j] == u[i..j]
  {
  }

  lemma GrownStep(k: nat, g: int)
    ensures Grown(k, g) == if k == 0 then 0 else Grown(k - 1, g) + g
  {
  }

  lemma FillStep(s: seq<Byte>, pos: int, cuts: seq<int>, n: nat, r: seq<Byte>)
    requires cuts != [] && 0 <= pos <= cuts[0] <= |s|
    ensures Fill(s, pos, cuts, n, r) == s[pos..cuts[0]] + r + Fill(s, cuts[0] + n, cuts[1..], n, r)
  {
  }

  lemma {:induction false} FillGap(s: seq<Byte>, pos: int, cuts: seq<int>, n: nat, r: seq<Byte>, k: nat, p: int)
    requires Spaced(s, cuts, n) && 0 <= pos <= CutAt(s, cuts, 0) <= |s| && k <= |cuts|
    requires (if k == 0 then pos else cuts[k - 1] + n) <= p < CutAt(s, cuts, k)
    ensures var t, at := Fill(s, pos, cuts, n, r), p - pos + Grown(k, |r| - n);
      0 <= at < |t| && t[at] == s[p]
    decreases k
  {
    hide Spaced, Fill, Grown;
    GrownStep(k, |r| - n);
    if cuts == [] {
      FillNothing(s, pos, n, r);
    } else {
      SpacedRest(s, cuts, n);
      FillStep(s, pos, cuts, n, r);
      var x, u := s[pos..cuts[0]] + r, Fill(s, cuts[0] + n, cuts[1..], n, r);
      if k > 0 {
        FillGap(s, cuts[0] + n, cuts[1..], n, r, k - 1, p);
        var at := p - (cuts[0] + n) + Grown(k - 1, |r| - n);
        assert (x + u)[|x| + at] == u[at];
      } else {
        assert (x + u)[p - pos] == s[p];
      }
    }
  }

  lemma FillNothing(s: seq<Byte>, pos: int, n: nat, r: seq<Byte>)
    requires 0 <= pos <= |s|
    ensures Fill(s, pos, [], n, r) == s[pos..]
  {
  }

  lemma PartAfter(x: seq<Byte>, u: seq<Byte>, at: int, r: seq<Byte>)
    requires PartIs(u, at - |x|, r)
    ensures PartIs(x + u, at, r)
  {
    SliceOn(x, u, at - |x|, at - |x| + |r|);
  }

  /** At each match stands the replacement, moved by what the matches before it have grown. */
  lemma ReplacedAt(s: seq<Byte>, pos: int, f: seq<Byte>, r: seq<Byte>, same: Match, k: nat)
    requires 0 <= pos <= |s| && f != [] && k < |Cuts(s, pos, f, same)|
    ensures PartIs(Replaced(s, pos, f, r, same), Cuts(s, pos, f, same)[k] + Grown(k, |r| - |f|), r)
  {
    hide PartIs, Cuts, Fill, Next, Spaced, Grown, Replaced, Tail;
    var cuts, moved := Cuts(s, pos, f, same), Grown(k, |r| - |f|);
    ReplacedTail(s, pos, f, r, same);
    TailIs(s, pos, f, r, same);
    CutsSpaced(s, pos, f, same);
    FillAt(s, pos, cuts, |f|, r, k);
    var u, at := Fill(s, pos, cuts, |f|, r), cuts[k] + moved;
    assert at - |s[..pos]| == cuts[k] - pos + moved;
    PartAfter(s[..pos], u, at, r);
  }

  /** Any other byte of the text, with `k` matches before it, is there, moved in the same way. */
  lemma ReplacedElsewhere(s: seq<Byte>, pos: int, f: seq<Byte>, r: seq<Byte>, same: Match, k: nat, p: int)
    requires 0 <= pos <= |s| && f != [] && k <= |Cuts(s, pos, f, same)| && 0 <= p < CutAt(s, Cuts(s, pos, f, same), k)
    requires k > 0 ==> Cuts(s, pos, f, same)[k - 1] + |f| <= p
    ensures var t, at := Replaced(s, pos, f, r, same), p + Grown(k, |r| - |f|);
      p < |s| && 0 <= at < |t| && t[at] == s[p]
  {
    hide Cuts, Fill, Next, Spaced, Grown, Replaced, Tail;
    var cuts, moved := Cuts(s, pos, f, same), Grown(k, |r| - |f|);
    ReplacedTail(s, pos, f, r, same);
    TailIs(s, pos, f, r, same);
    CutsSpaced(s, pos, f, same);
    CutsFrom(s, pos, f, same);
    GrownStep(k, |r| - |f|);
    CutWithin(s, cuts, |f|, k);
    var u := Fill(s, pos, cuts, |f|, r);
    if k > 0 || pos <= p {
      assert k > 0 ==> cuts[k - 1] in cuts;
      FillGap(s, pos, cuts, |f|, r, k, p);
      assert (s[..pos] + u)[pos + (p - pos + moved)] == u[p - pos + moved];
    }
  }

  lemma CutWithin(s: seq<Byte>, cuts: seq<int>, n: nat, k: nat)
    requires Spaced(s, cuts, n) && k <= |cuts|
    ensures CutAt(s, cuts, k) <= |s|
  {
    if k < |cuts| { assert cuts[k] + n <= CutAt(s, cuts, k + 1) <= |s|; }
  }

  lemma TailIs(s: seq<Byte>, pos: int, f: seq<Byte>, r: seq<Byte>, same: Match)
    requires 0 <= pos && f != []
    ensures Tail(s, pos, f, r, same) == Fill(s, pos, Cuts(s, pos, f, same), |f|, r)
  {
  }

  lemma CutsFrom(s: seq<Byte>, pos: int, f: seq<Byte>, same: Match)
    requires 0 <= pos && f != []
    ensures forall c :: c in Cuts(s, pos, f, same) ==> pos <= c
  {
    hide Cuts;
    CutsLeftmost(s, pos, f, same);
  }

  lemma ExpandStart(s: seq<Byte>, b: seq<Byte>, cuts: seq<int>, acc: int, n: nat, r: seq<Byte>)
    requires |b| == |s| + acc && 0 <= acc && b[..|s|] == s
    ensures Expanded(b, s, cuts, |cuts|, acc, n, r)
  {
    assert s[..|s|] == s && s[|s|..] == [] && cuts[|cuts|..] == [];
  }

  lemma ExpandDone(b: seq<Byte>, s: seq<Byte>, start: int, cuts: seq<int>, f: seq<Byte>, r: seq<Byte>, same: Match)
    requires 0 <= start <= |s| && f != [] && cuts == Cuts(s, start, f, same) && start <= CutAt(s, cuts, 0)
    requires Expanded(b, s, cuts, 0, 0, |f|, r)
    ensures b == Replaced(s, start, f, r, same)
  {
    hide Fill, Cuts;
    var at := CutAt(s, cuts, 0);
    FillSplit(s, start, at, cuts, |f|, r);
    assert cuts[0..] == cuts;
    var t := Fill(s, at, cuts, |f|, r);
    assert b == s[..at] + t by { assert b == b[..at] + b[at..]; }
    assert s[..start] + (s[start..at] + t) == s[..at] + t;
  }

  /** findreplaceengine, src/bstring/bstrlib.c:1554-1692, for any correct searcher. */
  method FindReplaceEngine(b: BString, find: BString, repl: BString, pos: int, instr: Searcher, ghost same: Match)
    returns (ret: int)
    requires b.Sound() && find.Sound() && repl.Sound() && b.data != repl.data && b.data != find.data && b != find
    requires b != repl
    requires Correct(instr, find.Text(), same)
    modifies b, b.data
    ensures b.Sound() && (old(b.Terminated()) ==> b.Terminated()) && (old(b.Writable()) ==> b.Writable())
    ensures b.data == old(b.data) || fresh(b.data)
    ensures var valid := old(b.Writable()) && 0 <= pos && 0 < find.slen && 0 <= repl.slen;
      ret == if !valid || (find.slen < repl.slen && pos <= old(b.slen) - find.slen
        && old(TooLong(b.Text(), pos, find.Text(), repl.Text(), same))) then BSTR_ERR else BSTR_OK
    ensures ret == BSTR_OK ==> b.Text() == Replaced(old(b.Text()), pos, find.Text(), repl.Text(), same)
    ensures ret == BSTR_ERR ==> b.Text() == old(b.Text()) && b.slen == old(b.slen) && b.mlen == old(b.mlen)
  {
    hide Replaced, TooLong, Correct;
    if pos < 0 || find.slen <= 0 || b.mlen < 0 || b.slen > b.mlen || b.mlen <= 0 || b.slen < 0 || repl.slen < 0 {
      return BSTR_ERR;
    }
    if pos > b.slen - find.slen {
      NothingReplaced(b.Text(), pos, find.Text(), repl.Text(), same);
      return BSTR_OK;
    }
    var delta := find.slen - repl.slen;
    if delta == 0 {
      ReplaceEqual(b, find, repl, pos, instr, same);
      return BSTR_OK;
    }
    if delta > 0 {
      ReplaceShrink(b, find, repl, pos, instr, same);
      return BSTR_OK;
    }
    ret := ReplaceExpand(b, find, repl, pos, instr, same);
  }

  lemma NothingReplaced(s: seq<Byte>, pos: int, f: seq<Byte>, r: seq<Byte>, same: Match)
    requires 0 <= pos && f != [] && pos > |s| - |f|
    ensures Replaced(s, pos, f, r, same) == s
  {
  }

  /** bfindreplace, src/bstring/bstrlib.c:1700-1702: the searcher is binstr. */
  method FindReplace(b: BString, find: BString, repl: BString, pos: int) returns (ret: int)
    requires b.Sound() && find.Sound() && repl.Sound() && b.data != repl.data && b.data != find.data && b != find
    requires b != repl
    modifies b, b.data
    ensures b.Sound() && (old(b.Terminated()) ==> b.Terminated()) && (old(b.Writable()) ==> b.Writable())
    ensures b.data == old(b.data) || fresh(b.data)
    ensures var valid := old(b.Writable()) && 0 <= pos && 0 < find.slen && 0 <= repl.slen;
      ret == if !valid || (find.slen < repl.slen && pos <= old(b.slen) - find.slen
        && old(TooLong(b.Text(), pos, find.Text(), repl.Text(), Equal))) then BSTR_ERR else BSTR_OK
    ensures ret == BSTR_OK ==> b.Text() == Replaced(old(b.Text()), pos, find.Text(), repl.Text(), Equal)
    ensures ret == BSTR_ERR ==> b.Text() == old(b.Text()) && b.slen == old(b.slen) && b.mlen == old(b.mlen)
  {
    hide Next, Replaced, TooLong;
    ghost var same: Match := Equal;
    var instr: Searcher := (s, p, f) => if p < 0 then BSTR_ERR else Next(s, p, f, Equal);
    assert Correct(instr, find.Text(), same);
    ret := FindReplaceEngine(b, find, repl, pos, instr, same);
  }

  /** What binstr finds is the first match by equality. */
  lemma BinstrIsNext(s: seq<Byte>, pos: int, f: seq<Byte>, r: int)
    requires 0 <= pos <= |s| && FirstOccurrence(s, pos, f, r)
    ensures r == Next(s, pos, f, Equal)
  {
    var same: Match := Equal;
    assert FirstMatch(s, pos, f, same, Next(s, pos, f, same));
    assert forall p :: OccursAt(s, p, f) <==> MatchAt(s, p, f, same);
  }
}
