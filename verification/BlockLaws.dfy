/** What lies below which block after a block was attached, detached or moved (src/mem/halloc.c:90-139). */
module BlockLaws {
  import opened BlockForest
  import opened BlockLinks
  import opened BlockMoves
  import opened BlockChanges

  lemma OrderIn(f: Forest, x: Addr)
    requires WellFormed(f) && x in f.kids
    ensures Order(f, x) == OrderUpTo(f, x, |f.kids[x]|) && Subtree(f, x) == Members(Order(f, x)) + {x}
    ensures forall y :: y in Subtree(f, x) ==> y in f.kids
  {
    forall y | y in Subtree(f, x)
      ensures y in f.kids
    {
      if y != x { Below(f, x, y); }
    }
  }

  /** A detached block lies below no other, and keeps what lies below it. */
  lemma DetachedBelow(f: Forest, b: Addr, x: Addr)
    requires WellFormed(f) && b in f.kids && x in f.kids
    ensures WellFormed(Detached(f, b)) && x in Detached(f, b).kids && b in Detached(f, b).kids
    ensures b !in Order(Detached(f, b), x) && Order(Detached(f, b), b) == Order(f, b)
  {
    var g := Detached(f, b);
    DetachedOk(f, b);
    if b in Order(g, x) { Below(g, x, b); }
    hide WellFormed, Order, Detached;
    OrderIn(f, b);
    OrderIn(g, b);
    forall y | y in Subtree(f, b)
      ensures y in g.kids && g.kids[y] == f.kids[y]
    {
      DetachedKept(f, b, y);
    }
    OrderAgrees(f, g, b, |f.kids[b]|);
  }

  lemma DetachedKept(f: Forest, b: Addr, y: Addr)
    requires WellFormed(f) && b in f.kids && y in Subtree(f, b)
    ensures y in f.kids && y in Detached(f, b).kids && Detached(f, b).kids[y] == f.kids[y]
  {
    hide Order;
    OrderIn(f, b);
    ParentView(f, b);
    var p := f.parent[b];
    if p != NIL {
      ListView(f, p);
      var i: nat :| i < |f.kids[p]| && f.kids[p][i] == b;
      if y == p {
        if p != b { Below(f, b, p); }
      }
    }
  }

  /** An attached block, with all that lies below it, lies below its parent, and below all that this lies below. */
  lemma AttachedBelow(f: Forest, p: Addr, b: Addr)
    requires WellFormed(f) && p in f.kids && b in f.kids && f.parent[b] == NIL && p !in Subtree(f, b)
    ensures var g := Attached(f, p, b);
      && WellFormed(g) && p in g.kids && b in g.kids && Order(g, b) == Order(f, b)
      && forall y :: y in Subtree(g, b) ==> y in Order(g, p)
  {
    var g := Attached(f, p, b);
    AttachedOk(f, p, b);
    AttachedView(f, p, b);
    hide WellFormed, Order, Attached;
    OrderIn(f, b);
    OrderAgrees(f, g, b, |f.kids[b]|);
    OrderIn(g, b);
    assert g.kids[p][0] == b;
    forall y | y in Subtree(g, b)
      ensures y in Order(g, p)
    {
      Deeper(g, p, 0, y);
    }
  }

  /** A moved block keeps what lies below it, and its place in its parent's list. */
  lemma RenamedBelow(f: Forest, b: Addr, to: Addr)
    requires WellFormed(f) && b in f.kids && f.parent[b] != NIL && (to == b || to !in f.kids) && to != NIL
    ensures var g, p := Renamed(f, b, to), f.parent[b];
      && WellFormed(g) && to in g.kids && Order(g, to) == Order(f, b)
      && p in f.kids && p in g.kids && |g.kids[p]| == |f.kids[p]|
      && forall i :: 0 <= i < |f.kids[p]| ==> g.kids[p][i] == if f.kids[p][i] == b then to else f.kids[p][i]
  {
    hide WellFormed, Order, Renamed;
    MovedView(f, b, to);
    RenamedView(f, b, to);
    ParentView(f, b);
    var g, p := Renamed(f, b, to), f.parent[b];
    ListView(f, p);
    OrderIn(f, b);
    OrderIn(g, to);
    MovedOrder(f, b, to, |f.kids[b]|);
  }

  lemma {:induction false} MovedOrder(f: Forest, b: Addr, to: Addr, n: nat)
    requires WellFormed(f) && b in f.kids && f.parent[b] != NIL && (to == b || to !in f.kids) && to != NIL
    requires n <= |f.kids[b]|
    ensures var g := Renamed(f, b, to);
      WellFormed(g) && to in g.kids && g.kids[to] == f.kids[b] && OrderUpTo(g, to, n) == OrderUpTo(f, b, n)
    decreases n
  {
    hide WellFormed, Order, OrderUpTo, Renamed;
    MovedView(f, b, to);
    ForestKeys(f);
    var g := Renamed(f, b, to);
    if n == 0 {
      OrderNothing(f, b);
      OrderNothing(g, to);
    } else {
      MovedOrder(f, b, to, n - 1);
      OrderKid(f, b, n);
      OrderKid(g, to, n);
      KidMoved(f, b, to, n - 1);
    }
  }

  lemma MovedView(f: Forest, b: Addr, to: Addr)
    requires WellFormed(f) && b in f.kids && f.parent[b] != NIL && (to == b || to !in f.kids) && to != NIL
    ensures var g := Renamed(f, b, to); WellFormed(g) && KeysOk(g) && to in g.kids && g.kids[to] == f.kids[b]
  {
    hide WellFormed, Renamed;
    RenamedOk(f, b, to);
    RenamedView(f, b, to);
  }

  // A child of the moved block.
  lemma KidMoved(f: Forest, b: Addr, to: Addr, i: nat)
    requires WellFormed(f) && b in f.kids && f.parent[b] != NIL && (to == b || to !in f.kids) && to != NIL
    requires i < |f.kids[b]|
    ensures var g, k := Renamed(f, b, to), f.kids[b][i];
      WellFormed(g) && k in f.kids && k in g.kids && Order(g, k) == Order(f, k)
  {
    var g, k := Renamed(f, b, to), f.kids[b][i];
    RenamedOk(f, b, to);
    RenamedView(f, b, to);
    KidIs(f, b, i);
    KidIs(g, to, i);
    OrderIn(f, k);
    OrderIn(g, k);
    hide WellFormed, Order, OrderUpTo, Renamed;
    forall y | y in Subtree(f, k)
      ensures y in g.kids && y in f.kids && g.kids[y] == f.kids[y]
    {
      NotAbove(f, b, i, y);
    }
    OrderAgrees(f, g, k, |f.kids[k]|);
  }

  // Neither the block nor its parent lies below a child of it.
  lemma NotAbove(f: Forest, b: Addr, i: nat, y: Addr)
    requires WellFormed(f) && b in f.kids && i < |f.kids[b]| && f.kids[b][i] in f.kids
    requires y in Subtree(f, f.kids[b][i])
    ensures y in f.kids && y != b && y != f.parent[b]
  {
    var k := f.kids[b][i];
    KidIs(f, b, i);
    if y != k { Below(f, k, y); }
    ParentView(f, b);
    var p := f.parent[b];
    if p != NIL {
      ListView(f, p);
      var j: nat :| j < |f.kids[p]| && f.kids[p][j] == b;
    }
  }
}
