/** What merging and sorting lists of nodes yields (src/adt/list.c:485-544). */
module ListOrder {
  import opened ListRing

  type Compare = (int, int) -> int

  /** What list_sort demands of the user's comparison function. */
  ghost predicate TotalPreorder(compare: Compare) {
    && (forall a, b :: compare(a, b) < 0 <==> compare(b, a) > 0)
    && (forall a, b, c :: compare(a, b) <= 0 && compare(b, c) <= 0 ==> compare(a, c) <= 0)
  }

  lemma Transitive(compare: Compare, a: int, b: int, c: int)
    requires TotalPreorder(compare) && compare(a, b) <= 0 && compare(b, c) <= 0
    ensures compare(a, c) <= 0 && (compare(a, b) < 0 || compare(b, c) < 0 ==> compare(a, c) < 0)
  {
    if compare(a, c) == 0 { assert compare(c, a) <= 0; }
  }

  ghost predicate Sorted(s: seq<LNode>, compare: Compare) {
    forall i, j :: 0 <= i < j < |s| ==> compare(s[i].data, s[j].data) <= 0
  }

  /** `x` stands before `y` in `s`. */
  ghost predicate Earlier(s: seq<LNode>, x: LNode, y: LNode) {
    exists i, j :: 0 <= i < j < |s| && s[i] == x && s[j] == y
  }

  /** Smaller data first; of equal ones, the later node of `s` first. */
  ghost predicate Before(s: seq<LNode>, compare: Compare, x: LNode, y: LNode) {
    compare(x.data, y.data) < 0 || (compare(x.data, y.data) == 0 && Earlier(s, y, x))
  }

  /** `r` is `s` sorted, with equal nodes in reversed order. */
  ghost predicate ReverseSorted(r: seq<LNode>, s: seq<LNode>, compare: Compare) {
    NoRepeat(r) && Members(r) == Members(s) && |r| == |s| && forall i, j :: 0 <= i < j < |r| ==>
      Before(s, compare, r[i], r[j])
  }

  /** The interleaving made by list_merge: the second list's node goes first on ties. */
  function Merged(d: seq<LNode>, s: seq<LNode>, compare: Compare): seq<LNode>
    decreases |d| + |s|
  {
    if d == [] then s
    else if s == [] then d
    else if compare(d[0].data, s[0].data) >= 0 then [s[0]] + Merged(d, s[1..], compare)
    else [d[0]] + Merged(d[1..], s, compare)
  }

  lemma {:induction false} MergedMembers(d: seq<LNode>, s: seq<LNode>, compare: Compare)
    ensures Members(Merged(d, s, compare)) == Members(d) + Members(s) && |Merged(d, s, compare)| == |d| + |s|
    decreases |d| + |s|
  {
    if d != [] && s != [] {
      if compare(d[0].data, s[0].data) >= 0 {
        MergedMembers(d, s[1..], compare);
        assert Members(s) == {s[0]} + Members(s[1..]);
        assert Members(Merged(d, s, compare)) == {s[0]} + Members(Merged(d, s[1..], compare));
      } else {
        MergedMembers(d[1..], s, compare);
        assert Members(d) == {d[0]} + Members(d[1..]);
        assert Members(Merged(d, s, compare)) == {d[0]} + Members(Merged(d[1..], s, compare));
      }
    }
  }

  /** What two nodes in this order say about the lists they come from. */
  ghost predicate InOrder(d: seq<LNode>, s: seq<LNode>, compare: Compare, x: LNode, y: LNode) {
    || Earlier(d, x, y)
    || Earlier(s, x, y)
    || (x in d && y in s && compare(x.data, y.data) < 0)
    || (x in s && y in d && compare(x.data, y.data) <= 0)
  }

  // A longer list keeps the order.
  lemma InOrderTails(d: seq<LNode>, s: seq<LNode>, a: nat, b: nat, compare: Compare, x: LNode, y: LNode)
    requires a <= |d| && b <= |s| && InOrder(d[a..], s[b..], compare, x, y)
    ensures InOrder(d, s, compare, x, y)
  {
    if Earlier(d[a..], x, y) {
      var i, j :| 0 <= i < j < |d[a..]| && d[a..][i] == x && d[a..][j] == y;
      assert d[a + i] == x && d[a + j] == y;
    } else if Earlier(s[b..], x, y) {
      var i, j :| 0 <= i < j < |s[b..]| && s[b..][i] == x && s[b..][j] == y;
      assert s[b + i] == x && s[b + j] == y;
    } else {
      assert x in d[a..] ==> x in d;
      assert y in d[a..] ==> y in d;
    }
  }

  function Taken(d: seq<LNode>, s: seq<LNode>, compare: Compare): bool
    requires d != [] && s != []
  {
    compare(d[0].data, s[0].data) >= 0
  }

  lemma MergedStep(d: seq<LNode>, s: seq<LNode>, compare: Compare)
    requires d != [] && s != []
    ensures Merged(d, s, compare) ==
      if Taken(d, s, compare) then [s[0]] + Merged(d[0..], s[1..], compare)
        else [d[0]] + Merged(d[1..], s[0..], compare)
  {
    assert d[0..] == d && s[0..] == s;
  }

  lemma SortedTails(d: seq<LNode>, a: nat, compare: Compare)
    requires Sorted(d, compare) && a <= |d|
    ensures Sorted(d[a..], compare)
  {
  }

  lemma InOnlyList(r: seq<LNode>, d: seq<LNode>, s: seq<LNode>, compare: Compare, i: int, j: int)
    requires (r == d || r == s) && 0 <= i < j < |r|
    ensures InOrder(d, s, compare, r[i], r[j])
  {
  }

  /** Merging sorted lists: both keep their order, and the second one's nodes come first on ties. */
  lemma {:induction false} MergedInOrder(d: seq<LNode>, s: seq<LNode>, compare: Compare, i: int, j: int)
    requires TotalPreorder(compare) && Sorted(d, compare) && Sorted(s, compare) && 0 <= i < j < |Merged(d, s, compare)|
    ensures InOrder(d, s, compare, Merged(d, s, compare)[i], Merged(d, s, compare)[j])
    decreases |d| + |s|
  {
    hide InOrder, TotalPreorder, Sorted;
    var r := Merged(d, s, compare);
    if d == [] || s == [] {
      InOnlyList(r, d, s, compare, i, j);
    } else {
      hide Merged;
      MergedStep(d, s, compare);
      var take := Taken(d, s, compare);
      var a, b := if take then 0 else 1, if take then 1 else 0;
      var rest := Merged(d[a..], s[b..], compare);
      SortedTails(d, a, compare);
      SortedTails(s, b, compare);
      if i > 0 {
        MergedInOrder(d[a..], s[b..], compare, i - 1, j - 1);
        InOrderTails(d, s, a, b, compare, rest[i - 1], rest[j - 1]);
      } else {
        MergedMembers(d[a..], s[b..], compare);
        assert r[j] == rest[j - 1] && r[j] in Members(rest);
        FirstInOrder(d, s, compare, take, r[j]);
      }
    }
  }

  // The first node taken, and a later one.
  lemma FirstInOrder(d: seq<LNode>, s: seq<LNode>, compare: Compare, take: bool, y: LNode)
    requires TotalPreorder(compare) && Sorted(d, compare) && Sorted(s, compare) && d != [] && s != []
    requires take == Taken(d, s, compare) && (y in (if take then d else d[1..]) || y in (if take then s[1..] else s))
    ensures InOrder(d, s, compare, if take then s[0] else d[0], y)
  {
    if take {
      assert compare(s[0].data, d[0].data) <= 0;
      if y in d {
        var k :| 0 <= k < |d| && d[k] == y;
        if k > 0 { Transitive(compare, s[0].data, d[0].data, y.data); }
      } else {
        var k :| 0 <= k < |s[1..]| && s[1..][k] == y;
        assert s[k + 1] == y;
      }
    } else {
      if y in s {
        var k :| 0 <= k < |s| && s[k] == y;
        if k > 0 { Transitive(compare, d[0].data, s[0].data, y.data); }
      } else {
        var k :| 0 <= k < |d[1..]| && d[1..][k] == y;
        assert d[k + 1] == y;
      }
    }
  }

  /** Merging keeps nodes distinct. */
  lemma {:induction false} MergedNoRepeat(d: seq<LNode>, s: seq<LNode>, compare: Compare)
    requires NoRepeat(d) && NoRepeat(s) && Members(d) !! Members(s)
    ensures NoRepeat(Merged(d, s, compare))
    decreases |d| + |s|
  {
    if d != [] && s != [] {
      if compare(d[0].data, s[0].data) >= 0 {
        MergedNoRepeat(d, s[1..], compare);
        MergedMembers(d, s[1..], compare);
        PutFirst(s[0], s[1..], d, Merged(d, s[1..], compare));
      } else {
        MergedNoRepeat(d[1..], s, compare);
        MergedMembers(d[1..], s, compare);
        PutFirst(d[0], d[1..], s, Merged(d[1..], s, compare));
      }
    }
  }

  lemma PutFirst(x: LNode, s: seq<LNode>, d: seq<LNode>, r: seq<LNode>)
    requires NoRepeat([x] + s) && x !in Members(d) && NoRepeat(r) && Members(r) == Members(d) + Members(s)
    ensures NoRepeat([x] + r)
  {
    assert forall k :: 0 <= k < |s| ==> s[k] == ([x] + s)[k + 1];
    assert ([x] + s)[0] == x && x !in Members(s);
    assert forall k :: 0 <= k < |r| ==> r[k] in Members(r);
  }

  /** Merging sorted lists sorts. */
  lemma MergedSorted(d: seq<LNode>, s: seq<LNode>, compare: Compare)
    requires TotalPreorder(compare) && Sorted(d, compare) && Sorted(s, compare)
    ensures Sorted(Merged(d, s, compare), compare)
  {
    var r := Merged(d, s, compare);
    forall i, j | 0 <= i < j < |r|
      ensures compare(r[i].data, r[j].data) <= 0
    {
      MergedInOrder(d, s, compare, i, j);
    }
  }

  /** Sorting both halves and merging them sorts the whole. */
  lemma SortHalves(a: seq<LNode>, b: seq<LNode>, ra: seq<LNode>, rb: seq<LNode>, compare: Compare)
    requires TotalPreorder(compare) && NoRepeat(a + b) && ReverseSorted(ra, a, compare) && ReverseSorted(rb, b, compare)
    ensures ReverseSorted(Merged(ra, rb, compare), a + b, compare)
  {
    hide Before, Earlier;
    var r := Merged(ra, rb, compare);
    Halves(a, b);
    SortedOf(ra, a, compare);
    SortedOf(rb, b, compare);
    MergedMembers(ra, rb, compare);
    MergedNoRepeat(ra, rb, compare);
    forall i, j | 0 <= i < j < |r|
      ensures Before(a + b, compare, r[i], r[j])
    {
      MergedInOrder(ra, rb, compare, i, j);
      HalvesBefore(a, b, ra, rb, compare, r[i], r[j]);
    }
  }

  lemma Halves(a: seq<LNode>, b: seq<LNode>)
    requires NoRepeat(a + b)
    ensures Members(a) !! Members(b) && Members(a + b) == Members(a) + Members(b)
  {
    var s := a + b;
    assert forall k :: 0 <= k < |a| ==> a[k] == s[k];
    assert forall k :: 0 <= k < |b| ==> b[k] == s[|a| + k];
  }

  lemma SortedOf(r: seq<LNode>, s: seq<LNode>, compare: Compare)
    requires ReverseSorted(r, s, compare)
    ensures Sorted(r, compare) && NoRepeat(r) && Members(r) == Members(s) && |r| == |s|
  {
  }

  lemma HalvesBefore(a: seq<LNode>, b: seq<LNode>, ra: seq<LNode>, rb: seq<LNode>, compare: Compare, x: LNode, y: LNode)
    requires ReverseSorted(ra, a, compare) && ReverseSorted(rb, b, compare) && InOrder(ra, rb, compare, x, y)
    ensures Before(a + b, compare, x, y)
  {
    if Earlier(ra, x, y) {
      assert Before(a, compare, x, y);
      if Earlier(a, y, x) { EarlierHalf(a, b, y, x); }
    } else if Earlier(rb, x, y) {
      assert Before(b, compare, x, y);
      if Earlier(b, y, x) { EarlierHalf(a, b, y, x); }
    } else if x in rb && y in ra && compare(x.data, y.data) == 0 {
      assert x in Members(rb) && y in Members(ra);
      assert x in b && y in a;
      var i, j :| 0 <= i < |a| && a[i] == y && 0 <= j < |b| && b[j] == x;
      assert (a + b)[i] == y && (a + b)[|a| + j] == x;
    }
  }

  lemma EarlierHalf(a: seq<LNode>, b: seq<LNode>, x: LNode, y: LNode)
    requires Earlier(a, x, y) || Earlier(b, x, y)
    ensures Earlier(a + b, x, y)
  {
    if Earlier(a, x, y) {
      var i, j :| 0 <= i < j < |a| && a[i] == x && a[j] == y;
      assert (a + b)[i] == x && (a + b)[j] == y;
    } else {
      var i, j :| 0 <= i < j < |b| && b[i] == x && b[j] == y;
      assert (a + b)[|a| + i] == x && (a + b)[|a| + j] == y;
    }
  }

  /** There is only one such order. */
  lemma {:induction false} SortedUnique(q: seq<LNode>, r: seq<LNode>, s: seq<LNode>, compare: Compare)
    requires TotalPreorder(compare) && NoRepeat(s) && NoRepeat(q) && NoRepeat(r) && Members(q) == Members(r)
    requires forall i, j :: 0 <= i < j < |q| ==> Before(s, compare, q[i], q[j])
    requires forall i, j :: 0 <= i < j < |r| ==> Before(s, compare, r[i], r[j])
    ensures q == r
  {
    NoMembers(q);
    NoMembers(r);
    if q != [] {
      assert q[0] in Members(r) && r[0] in Members(q);
      var i :| 0 <= i < |r| && r[i] == q[0];
      var j :| 0 <= j < |q| && q[j] == r[0];
      NotBoth(s, compare, q[0], r[0]);
      assert i == 0;
      assert Members(q[1..]) == Members(q) - {q[0]};
      assert Members(r[1..]) == Members(r) - {r[0]};
      SortedUnique(q[1..], r[1..], s, compare);
    }
  }

  lemma NoMembers(s: seq<LNode>)
    ensures s == [] <==> Members(s) == {}
  {
    if s != [] { assert s[0] in Members(s); }
  }

  lemma EarlierOnce(s: seq<LNode>, x: LNode, y: LNode)
    requires NoRepeat(s) && Earlier(s, x, y)
    ensures !Earlier(s, y, x)
  {
    var i, j :| 0 <= i < j < |s| && s[i] == x && s[j] == y;
  }

  lemma NotBoth(s: seq<LNode>, compare: Compare, x: LNode, y: LNode)
    requires TotalPreorder(compare) && NoRepeat(s)
    ensures !(Before(s, compare, x, y) && Before(s, compare, y, x))
  {
    hide Earlier;
    if Earlier(s, x, y) { EarlierOnce(s, x, y); }
  }
}
