/** Substring search by a greedy subsequence embedding (binstr, src/bstring/bstrlib.c:1023-1099). */
module StringSearch {
  import opened BStrings

  predicate OccursAt(s: seq<Byte>, p: int, f: seq<Byte>) {
    0 <= p && p + |f| <= |s| && s[p..p + |f|] == f
  }

  /** `r` is the least position from `pos` on where `f` occurs, or BSTR_ERR when there is none. */
  ghost predicate FirstOccurrence(s: seq<Byte>, pos: int, f: seq<Byte>, r: int) {
    && (r == BSTR_ERR || (pos <= r && OccursAt(s, r, f)))
    && (forall p :: pos <= p && (r == BSTR_ERR || p < r) ==> !OccursAt(s, p, f))
  }

  // `at` lists increasing positions from `ii` to below `i` that spell the first bytes of `f`.
  ghost predicate Embeds(s: seq<Byte>, f: seq<Byte>, at: seq<int>, ii: int, i: int) {
    && |at| <= |f| && 0 <= i <= |s|
    && (forall k :: 0 <= k < |at| ==> 0 <= at[k] < i && s[at[k]] == f[k])
    && (forall k, l :: 0 <= k < l < |at| ==> at[k] < at[l])
    && (at != [] ==> at[0] == ii)
  }

  lemma {:induction false} EmbeddingSpan(s: seq<Byte>, f: seq<Byte>, at: seq<int>, ii: int, i: int, k: nat)
    requires Embeds(s, f, at, ii, i) && k < |at|
    ensures ii + k <= at[k] <= i - (|at| - k)
    decreases |at| - k
  {
    EmbeddingBelow(s, f, at, ii, i, k);
    if k + 1 < |at| {
      EmbeddingSpan(s, f, at, ii, i, k + 1);
    }
  }

  lemma {:induction false} EmbeddingBelow(s: seq<Byte>, f: seq<Byte>, at: seq<int>, ii: int, i: int, k: nat)
    requires Embeds(s, f, at, ii, i) && k < |at|
    ensures ii + k <= at[k]
  {
    if k > 0 {
      EmbeddingBelow(s, f, at, ii, i, k - 1);
    }
  }

  /** An embedding as short as the pattern has no gaps: it is a contiguous occurrence. */
  lemma GaplessOccurs(s: seq<Byte>, f: seq<Byte>, at: seq<int>, ii: int, i: int)
    requires Embeds(s, f, at, ii, i) && at != [] && i == ii + |at|
    ensures 0 <= ii && ii + |at| <= |s| && s[ii..ii + |at|] == f[..|at|]
  {
    forall k | 0 <= k < |at|
      ensures at[k] == ii + k
    {
      EmbeddingSpan(s, f, at, ii, i, k);
    }
  }

  // No occurrence ends before the greedy embedding does.
  ghost predicate AheadOf(s: seq<Byte>, pos: int, f: seq<Byte>, i: int, j: int) {
    forall p :: pos <= p && OccursAt(s, p, f) ==> i <= p + j
  }

  // A byte that does not continue the pattern may be skipped.
  lemma SkipByte(s: seq<Byte>, pos: int, f: seq<Byte>, i: int, j: int)
    requires AheadOf(s, pos, f, i, j) && 0 <= i < |s| && 0 <= j < |f| && s[i] != f[j]
    ensures AheadOf(s, pos, f, i + 1, j)
  {
    forall p | pos <= p && OccursAt(s, p, f)
      ensures i + 1 <= p + j
    {
      assert s[p + j] == s[p..p + |f|][j];
    }
  }

  // Nothing can be found once fewer bytes are left than are still missing.
  lemma NothingLeft(s: seq<Byte>, pos: int, f: seq<Byte>, i: int, j: int)
    requires AheadOf(s, pos, f, i, j) && 0 <= j < |f| && |s| - 1 <= i && 0 <= i
    requires i == |s| - 1 && j + 1 == |f| ==> f[j] != s[i]
    ensures FirstOccurrence(s, pos, f, BSTR_ERR)
  {
    forall p | pos <= p
      ensures !OccursAt(s, p, f)
    {
      if 0 <= p && p + |f| <= |s| && i <= p + j {
        assert s[p + j] == s[p..p + |f|][j];
      }
    }
  }

  // A gapless embedding of the whole pattern, or of all but a last byte that is next, is a match.
  lemma Found(s: seq<Byte>, pos: int, f: seq<Byte>, at: seq<int>, ii: int, i: int)
    requires Embeds(s, f, at, ii, i) && at != [] && i == ii + |at| && pos <= ii && AheadOf(s, pos, f, i, |at|)
    requires |at| == |f| || (|at| + 1 == |f| && i < |s| && s[i] == f[|at|])
    ensures FirstOccurrence(s, pos, f, ii) && 0 <= ii
  {
    GaplessOccurs(s, f, at, ii, i);
    assert s[ii..ii + |f|] == s[ii..i] + (if |at| == |f| then [] else [s[i]]);
    assert f == f[..|at|] + (if |at| == |f| then [] else [f[|at|]]);
  }

  lemma EmbedMore(s: seq<Byte>, f: seq<Byte>, at: seq<int>, ii: int, i: int)
    requires Embeds(s, f, at, ii, i) && |at| < |f| && i < |s| && s[i] == f[|at|]
    ensures Embeds(s, f, at + [i], if at == [] then i else ii, i + 1)
  {
  }

  /** binstr, src/bstring/bstrlib.c:1023-1099; the one-byte pattern is FindByte. */
  method Binstr(b1: BString, pos: int, b2: BString) returns (r: int)
    requires b1.Sound() && b2.Sound()
    ensures b1.slen < 0 || b2.slen < 0 || pos < 0 || b1.slen < pos ==> r == BSTR_ERR
    ensures 0 <= b2.slen && 0 <= pos <= b1.slen ==> FirstOccurrence(b1.Text(), pos, b2.Text(), r)
  {
    ghost var s, f := b1.Text(), b2.Text();
    if b1.slen < 0 || b2.slen < 0 {
      return BSTR_ERR;
    }
    if b1.slen == pos {
      return if b2.slen == 0 then pos else BSTR_ERR;
    }
    if b1.slen < pos || pos < 0 {
      return BSTR_ERR;
    }
    if b2.slen == 0 {
      return pos;
    }
    var lf := b1.slen - b2.slen + 1;
    if lf <= pos {
      return BSTR_ERR;
    }
    if b1.data == b2.data && pos == 0 {
      assert s[..b2.slen] == f;
      return 0;
    }
    if b2.slen == 1 {
      r := FindByte(b1, pos, b2.data[0]);
      assert f == [b2.data[0]];
    } else {
      r := FindLong(b1, pos, b2);
    }
  }

  lemma OccursByte(s: seq<Byte>, p: int, c: Byte)
    ensures OccursAt(s, p, [c]) <==> 0 <= p < |s| && s[p] == c
  {
    if 0 <= p < |s| {
      assert s[p..p + 1] == [s[p]];
    }
  }

  // src/bstring/bstrlib.c:1049-1054.
  method FindByte(b1: BString, pos: int, c0: Byte) returns (r: int)
    requires b1.Sound() && 0 <= pos <= b1.slen
    ensures FirstOccurrence(b1.Text(), pos, [c0], r)
  {
    hide OccursAt;
    ghost var s := b1.Text();
    forall p
      ensures OccursAt(s, p, [c0]) <==> 0 <= p < |s| && s[p] == c0
    {
      OccursByte(s, p, c0);
    }
    var i := pos;
    while i < b1.slen
      invariant pos <= i <= b1.slen
      invariant forall p :: pos <= p < i ==> s[p] != c0
    {
      if c0 == b1.data[i] {
        return i;
      }
      i := i + 1;
    }
    return BSTR_ERR;
  }

  // The unrolled scan (src/bstring/bstrlib.c:1056-1098). `lf` is the last position, `j` bytes of the
  // pattern are embedded, and a gap in a full embedding sends the scan back by `j`.
  method FindLong(b1: BString, pos: int, b2: BString) returns (r: int)
    requires b1.Sound() && b2.Sound() && 2 <= b2.slen && 0 <= pos && pos + b2.slen <= b1.slen
    ensures FirstOccurrence(b1.Text(), pos, b2.Text(), r)
  {
    hide FirstOccurrence, OccursAt;
    ghost var s, f := b1.Text(), b2.Text();
    ghost var at, base: int := [], pos;
    var d0, d1, ll := b2.data, b1.data, b2.slen;
    var i, j, ii, lf, c1 := pos, 0, -1, b1.slen - 1, d0[0];
    while true
      invariant Embeds(s, f, at, ii, i) && |at| == j < ll && c1 == f[j]
      invariant AheadOf(s, pos, f, i, j)
      invariant pos <= base <= i && (j > 0 ==> base <= ii)
      decreases |s| - base, |s| - i
    {
      if i < lf {
        if c1 != d1[i] {
          SkipByte(s, pos, f, i, j);
          if c1 != d1[1 + i] {
            SkipByte(s, pos, f, i + 1, j);
            i := i + 2;
            continue;
          }
          i := i + 1;
        }
        if 0 == j {
          ii := i;
        }
        EmbedMore(s, f, at, ii, i);
        at := at + [i];
        j := j + 1;
        i := i + 1;
        if j < ll {
          c1 := d0[j];
          continue;
        }
      } else if !(i == lf && ll == j + 1 && c1 == d1[i]) {
        NothingLeft(s, pos, f, i, j);
        return BSTR_ERR;
      }
      EmbeddingSpan(s, f, at, ii, i, 0);
      if i == ii + j {
        Found(s, pos, f, at, ii, i);
        return ii;
      }
      i := i - j;
      j, at, base := 0, [], i;
      c1 := d0[0];
    }
  }
}
