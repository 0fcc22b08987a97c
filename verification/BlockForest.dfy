/**
 * The hierarchy of allocated blocks (src/mem/halloc.c, src/mem/hlist.h): which block lies under which, and
 * in what order. `rank` falls from a block to those below it, so that there is no cycle.
 */
module BlockForest {
  type Addr = int

  /** &hlist_null, the shared tail of all lists; also the null pointer. */
  const NIL: Addr := 0

  datatype Forest = Forest(kids: map<Addr, seq<Addr>>, parent: map<Addr, Addr>, rank: map<Addr, nat>)

  ghost predicate NoRepeat(s: seq<Addr>) { forall i, j :: 0 <= i < j < |s| ==> s[i] != s[j] }

  ghost function Members(s: seq<Addr>): set<Addr> { set x | x in s }

  ghost predicate KeysOk(f: Forest) { f.kids.Keys == f.parent.Keys == f.rank.Keys && NIL !in f.kids }

  ghost predicate KidsOf(f: Forest, a: Addr)
    requires KeysOk(f) && a in f.kids
  {
    NoRepeat(f.kids[a]) && forall i :: 0 <= i < |f.kids[a]| ==>
      f.kids[a][i] in f.kids && f.parent[f.kids[a][i]] == a && f.rank[f.kids[a][i]] < f.rank[a]
  }

  /** Each block is in the list of its parent, and in no other. */
  ghost predicate WellFormed(f: Forest) {
    && KeysOk(f)
    && (forall a :: a in f.kids ==> KidsOf(f, a))
    && forall x :: x in f.kids && f.parent[x] != NIL ==> f.parent[x] in f.kids && x in f.kids[f.parent[x]]
  }

  lemma KidIs(f: Forest, a: Addr, i: int)
    requires WellFormed(f) && a in f.kids && 0 <= i < |f.kids[a]|
    ensures f.kids[a][i] in f.kids && f.parent[f.kids[a][i]] == a && f.rank[f.kids[a][i]] < f.rank[a]
  {
    assert KidsOf(f, a);
  }

  /** The blocks below the first `n` children of `x` and these children, in the order in which
      _free_children (src/mem/halloc.c:235-253) releases them. */
  ghost function OrderUpTo(f: Forest, x: Addr, n: nat): seq<Addr>
    requires WellFormed(f) && x in f.kids && n <= |f.kids[x]|
    decreases f.rank[x], n
  {
    if n == 0 then [] else
      KidIs(f, x, n - 1);
      var k := f.kids[x][n - 1];
      OrderUpTo(f, x, n - 1) + Order(f, k) + [k]
  }

  ghost function Order(f: Forest, x: Addr): seq<Addr>
    requires WellFormed(f) && x in f.kids
    decreases f.rank[x], |f.kids[x]| + 1
  {
    OrderUpTo(f, x, |f.kids[x]|)
  }

  lemma OrderKid(f: Forest, x: Addr, n: nat)
    requires WellFormed(f) && x in f.kids && 0 < n <= |f.kids[x]|
    ensures var k := f.kids[x][n - 1];
      k in f.kids && f.rank[k] < f.rank[x] && OrderUpTo(f, x, n) == OrderUpTo(f, x, n - 1) + Order(f, k) + [k]
  {
    hide Order;
    KidIs(f, x, n - 1);
  }

  lemma OrderWhole(f: Forest, x: Addr)
    requires WellFormed(f) && x in f.kids
    ensures Order(f, x) == OrderUpTo(f, x, |f.kids[x]|)
  {
  }

  lemma OrderNothing(f: Forest, x: Addr)
    requires WellFormed(f) && x in f.kids
    ensures OrderUpTo(f, x, 0) == []
  {
  }

  /** A block and all that lie below it. */
  ghost function Subtree(f: Forest, x: Addr): set<Addr>
    requires WellFormed(f) && x in f.kids
  {
    Members(Order(f, x)) + {x}
  }

  lemma InSubtree(f: Forest, x: Addr)
    requires WellFormed(f) && x in f.kids
    ensures x in Subtree(f, x)
  {
  }

  lemma ForestKeys(f: Forest)
    requires WellFormed(f)
    ensures KeysOk(f)
  {
  }

  ghost predicate UnderKid(f: Forest, x: Addr, n: int, y: Addr)
    requires WellFormed(f) && x in f.kids && n <= |f.kids[x]|
  {
    exists i :: 0 <= i < n && f.kids[x][i] in f.kids && y in Subtree(f, f.kids[x][i])
  }

  /** What lies below a block is a child of it, or lies below one. */
  lemma {:induction false} OrderMembers(f: Forest, x: Addr, n: nat, y: Addr)
    requires WellFormed(f) && x in f.kids && n <= |f.kids[x]|
    ensures y in OrderUpTo(f, x, n) <==> UnderKid(f, x, n, y)
    decreases n
  {
    hide WellFormed, Order;
    if n > 0 {
      var k := f.kids[x][n - 1];
      KidIs(f, x, n - 1);
      OrderMembers(f, x, n - 1, y);
      OrderStep(f, x, n, y);
      if UnderKid(f, x, n - 1, y) {
        var i :| 0 <= i < n - 1 && f.kids[x][i] in f.kids && y in Subtree(f, f.kids[x][i]);
        assert UnderKid(f, x, n, y);
      }
    }
  }

  lemma OrderStep(f: Forest, x: Addr, n: nat, y: Addr)
    requires WellFormed(f) && x in f.kids && 0 < n <= |f.kids[x]|
    ensures f.kids[x][n - 1] in f.kids
    ensures y in OrderUpTo(f, x, n) <==> y in OrderUpTo(f, x, n - 1) || y in Subtree(f, f.kids[x][n - 1])
  {
    KidIs(f, x, n - 1);
  }

  /** Below a block the ranks are smaller, and parents lie in the same subtree. */
  lemma {:induction false} Below(f: Forest, x: Addr, y: Addr)
    requires WellFormed(f) && x in f.kids && y in Order(f, x)
    ensures y in f.kids && f.rank[y] < f.rank[x] && f.parent[y] != NIL && f.parent[y] in Subtree(f, x)
    decreases f.rank[x]
  {
    OrderMembers(f, x, |f.kids[x]|, y);
    hide WellFormed, Order;
    var i :| 0 <= i < |f.kids[x]| && f.kids[x][i] in f.kids && y in Subtree(f, f.kids[x][i]);
    var k := f.kids[x][i];
    KidIs(f, x, i);
    Member(f, x);
    if y != k {
      Below(f, k, y);
      Deeper(f, x, i, f.parent[y]);
    }
  }

  lemma Member(f: Forest, x: Addr)
    requires WellFormed(f) && x in f.kids
    ensures x != NIL && f.rank.Keys == f.kids.Keys == f.parent.Keys
  {
  }

  /** A child's subtree is part of its parent's. */
  lemma Deeper(f: Forest, x: Addr, i: int, y: Addr)
    requires WellFormed(f) && x in f.kids && 0 <= i < |f.kids[x]| && f.kids[x][i] in f.kids
    requires y in Subtree(f, f.kids[x][i])
    ensures y in Order(f, x) && y in Subtree(f, x)
  {
    OrderMembers(f, x, |f.kids[x]|, y);
    assert UnderKid(f, x, |f.kids[x]|, y);
  }

  /** A child of a block in a subtree lies in it. */
  lemma {:induction false} Closed(f: Forest, x: Addr, y: Addr, i: int)
    requires WellFormed(f) && x in f.kids && y in Subtree(f, x) && y in f.kids && 0 <= i < |f.kids[y]|
    ensures f.kids[y][i] in Subtree(f, x)
    decreases f.rank[x]
  {
    var c := f.kids[y][i];
    KidIs(f, y, i);
    if y == x {
      Deeper(f, x, i, c);
    } else {
      OrderMembers(f, x, |f.kids[x]|, y);
      var j :| 0 <= j < |f.kids[x]| && f.kids[x][j] in f.kids && y in Subtree(f, f.kids[x][j]);
      KidIs(f, x, j);
      Closed(f, f.kids[x][j], y, i);
      Deeper(f, x, j, c);
    }
  }

  /** Two subtrees with a block in common lie one in the other. */
  lemma {:induction false} Common(f: Forest, a: Addr, b: Addr, y: Addr)
    requires WellFormed(f) && a in f.kids && b in f.kids && y in Subtree(f, a) && y in Subtree(f, b)
    ensures a in Subtree(f, b) || b in Subtree(f, a)
    decreases f.rank[a] as int - (if y in f.rank then f.rank[y] else 0)
  {
    Member(f, a);
    hide WellFormed, Order;
    if y != a && y != b {
      Below(f, a, y);
      Below(f, b, y);
      var p := f.parent[y];
      ParentRank(f, y);
      if p != a { Below(f, a, p); }
      Common(f, a, b, p);
    }
  }

  lemma ParentRank(f: Forest, y: Addr)
    requires WellFormed(f) && y in f.kids && f.parent[y] != NIL
    ensures f.parent[y] in f.kids && f.rank[y] < f.rank[f.parent[y]] && y in f.kids[f.parent[y]]
  {
    var i :| 0 <= i < |f.kids[f.parent[y]]| && f.kids[f.parent[y]][i] == y;
    KidIs(f, f.parent[y], i);
  }

  /** Brothers have nothing below them in common. */
  lemma Brothers(f: Forest, x: Addr, i: int, j: int)
    requires WellFormed(f) && x in f.kids && 0 <= i < |f.kids[x]| && 0 <= j < |f.kids[x]| && i != j
    ensures f.kids[x][i] in f.kids && f.kids[x][j] in f.kids
    ensures Subtree(f, f.kids[x][i]) !! Subtree(f, f.kids[x][j])
  {
    var a, b := f.kids[x][i], f.kids[x][j];
    KidIs(f, x, i);
    KidIs(f, x, j);
    assert KidsOf(f, x) && a != b;
    hide WellFormed, Order;
    forall y | y in Subtree(f, a) && y in Subtree(f, b)
      ensures false
    {
      Common(f, a, b, y);
      if a in Subtree(f, b) {
        Below(f, b, a);
        if x != b { Below(f, b, x); }
      } else {
        Below(f, a, b);
        if x != a { Below(f, a, x); }
      }
    }
  }

  /** Each block below `x` is released once. */
  lemma {:induction false} OrderNoRepeat(f: Forest, x: Addr, n: nat)
    requires WellFormed(f) && x in f.kids && n <= |f.kids[x]|
    ensures NoRepeat(OrderUpTo(f, x, n))
    decreases f.rank[x], n
  {
    if n > 0 {
      var k := f.kids[x][n - 1];
      KidIs(f, x, n - 1);
      OrderNoRepeat(f, x, n - 1);
      OrderNoRepeat(f, k, |f.kids[k]|);
      var s, t := OrderUpTo(f, x, n - 1), Order(f, k);
      forall y | y in s
        ensures y !in t && y != k
      {
        OrderMembers(f, x, n - 1, y);
        var i :| 0 <= i < n - 1 && f.kids[x][i] in f.kids && y in Subtree(f, f.kids[x][i]);
        Brothers(f, x, i, n - 1);
      }
      if k in t { Below(f, k, k); }
      JoinNoRepeat(s, t, k);
    }
  }

  lemma JoinNoRepeat(s: seq<Addr>, t: seq<Addr>, k: Addr)
    requires NoRepeat(s) && NoRepeat(t) && k !in s && k !in t && forall y :: y in s ==> y !in t
    ensures NoRepeat(s + t + [k])
  {
    var r := s + t + [k];
    forall i, j | 0 <= i < j < |r|
      ensures r[i] != r[j]
    {
      assert i < |s| ==> r[i] in s;
      assert |s| <= j < |s| + |t| ==> r[j] in t;
      assert |s| <= i < |s| + |t| ==> r[i] in t;
    }
  }

  /** A block is released after all that lie below it. */
  lemma {:induction false} ChildFirst(f: Forest, x: Addr, n: nat, y: Addr, i: int) returns (p: int, q: int)
    requires WellFormed(f) && x in f.kids && n <= |f.kids[x]| && y in OrderUpTo(f, x, n)
    requires y in f.kids && 0 <= i < |f.kids[y]|
    ensures 0 <= p < q < |OrderUpTo(f, x, n)| && OrderUpTo(f, x, n)[p] == f.kids[y][i] && OrderUpTo(f, x, n)[q] == y
    decreases f.rank[x], n
  {
    hide OrderUpTo, Order, WellFormed;
    ForestKeys(f);
    if n > 0 {
      OrderKid(f, x, n);
      var k := f.kids[x][n - 1];
      OrderWhole(f, k);
      var s, t := OrderUpTo(f, x, n - 1), Order(f, k);
      if y in s {
        p, q := ChildFirst(f, x, n - 1, y, i);
      } else if y in t {
        p, q := ChildFirst(f, k, |f.kids[k]|, y, i);
        p, q := |s| + p, |s| + q;
      } else {
        Closed(f, k, k, i);
        KidIs(f, k, i);
        p :| 0 <= p < |t| && t[p] == f.kids[k][i];
        p, q := |s| + p, |s| + |t|;
      }
    } else {
      OrderNothing(f, x);
      p, q := 0, 0;
    }
  }

  /** What lies below a block depends on the lists there only. */
  lemma {:induction false} OrderAgrees(f: Forest, f': Forest, x: Addr, n: nat)
    requires WellFormed(f) && WellFormed(f') && x in f.kids && n <= |f.kids[x]|
    requires forall y :: y in Subtree(f, x) ==> y in f'.kids && y in f.kids && f'.kids[y] == f.kids[y]
    ensures x in f'.kids && f'.kids[x] == f.kids[x] && OrderUpTo(f', x, n) == OrderUpTo(f, x, n)
    decreases f.rank[x], n
  {
    hide OrderUpTo, Order, WellFormed;
    ForestKeys(f);
    ForestKeys(f');
    InSubtree(f, x);
    if n == 0 {
      OrderNothing(f, x);
      OrderNothing(f', x);
    } else {
      OrderKid(f, x, n);
      OrderAgrees(f, f', x, n - 1);
      OrderKid(f', x, n);
      var k := f.kids[x][n - 1];
      OrderWhole(f, k);
      forall y | y in Subtree(f, k)
        ensures y in f'.kids && y in f.kids && f'.kids[y] == f.kids[y]
      {
        Deeper(f, x, n - 1, y);
      }
      OrderAgrees(f, f', k, |f.kids[k]|);
      OrderWhole(f', k);
    }
  }
}
