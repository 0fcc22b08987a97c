/** Attaching, creating, releasing and moving blocks keeps the hierarchy and its links. */
module BlockChanges {
  import BStrings
  import opened BlockForest
  import opened BlockLinks
  import opened BlockMoves

  // ---------------------------------------------------------------- attaching

  /** The hierarchy once `b` is the first child of `p`; all blocks above get a rank above that of `b`. */
  ghost function Attached(f: Forest, p: Addr, b: Addr): Forest
    requires WellFormed(f) && p in f.kids && b in f.kids
  {
    Forest(f.kids[p := [b] + f.kids[p]], f.parent[b := p],
      map x | x in f.kids :: f.rank[x] + if p in Subtree(f, x) then f.rank[b] + 1 else 0)
  }

  lemma AttachedOk(f: Forest, p: Addr, b: Addr)
    requires WellFormed(f) && p in f.kids && b in f.kids && f.parent[b] == NIL && p !in Subtree(f, b)
    ensures WellFormed(Attached(f, p, b))
  {
    var g := Attached(f, p, b);
    ListView(f, b);
    hide Order;
    forall a | a in g.kids
      ensures KidsOf(g, a)
    {
      ListView(f, a);
      assert b !in f.kids[a];
      hide WellFormed;
      forall i | 0 <= i < |f.kids[a]|
        ensures g.rank[f.kids[a][i]] < g.rank[a]
      {
        var c := f.kids[a][i];
        if p in Subtree(f, c) { Deeper(f, a, i, p); }
      }
      AttachedKids(f, p, b, a);
    }
  }

  lemma AttachedKids(f: Forest, p: Addr, b: Addr, a: Addr)
    requires WellFormed(f) && p in f.kids && b in f.kids && a in f.kids && f.parent[b] == NIL && p !in Subtree(f, b)
    requires KidsOf(f, a) && b !in f.kids[a] && KeysOk(Attached(f, p, b))
    requires forall i :: 0 <= i < |f.kids[a]| ==>
      f.kids[a][i] in f.kids && Attached(f, p, b).rank[f.kids[a][i]] < Attached(f, p, b).rank[a]
    ensures KidsOf(Attached(f, p, b), a)
  {
    var g := Attached(f, p, b);
    hide WellFormed, Order;
    assert p in Subtree(f, p);
    forall i | 0 <= i < |g.kids[a]|
      ensures g.kids[a][i] in g.kids && g.parent[g.kids[a][i]] == a && g.rank[g.kids[a][i]] < g.rank[a]
    {
      if a == p && i == 0 {
        assert g.kids[a][i] == b;
      } else {
        var j := if a == p then i - 1 else i;
        assert g.kids[a][i] == f.kids[a][j] && f.kids[a][j] in f.kids[a];
      }
    }
  }

  /** hlist_add puts a block first among the children of another. */
  lemma AttachedLinked(h: Heap, f: Forest, p: Addr, b: Addr)
    requires WellFormed(f) && Linked(h, f) && p in f.kids && b in f.kids && f.parent[b] == NIL && p !in Subtree(f, b)
    ensures p in h && b in h && WellFormed(Attached(f, p, b)) && Linked(Added(h, p, b), Attached(f, p, b))
    ensures forall x :: x in h ==> Added(h, p, b)[x].data == h[x].data
  {
    hide WellFormed, Linked, Added, ListOf, Attached, Subtree, Order, NoRepeat, RootOk;
    AttachedOk(f, p, b);
    InSubtree(f, b);
    AttachedView(f, p, b);
    ListView(f, b);
    ListView(f, p);
    ListLinks(h, f, p);
    var g := Attached(f, p, b);
    assert b !in f.kids[p];
    FirstKid(h, p, f.kids[p]);
    AddedFields(h, p, b, b);
    forall a | a in f.kids
      ensures ListOf(Added(h, p, b), a, g.kids[a]) && (g.parent[a] == NIL ==> RootOk(Added(h, p, b), a))
      ensures Added(h, p, b)[a].data == h[a].data
    {
      ListLinks(h, f, a);
      ListView(f, a);
      AddedFields(h, p, b, a);
      if a == p {
        AddedFirst(h, p, b, f.kids[p]);
      } else {
        assert b !in f.kids[a];
        NotOther(f, p, a);
        AddedOther(h, p, b, a, f.kids[p], f.kids[a]);
      }
      if g.parent[a] == NIL { AddedRoot(h, p, b, a); }
    }
    LinkedFrom(Added(h, p, b), g);
  }

  lemma AttachedView(f: Forest, p: Addr, b: Addr)
    requires WellFormed(f) && p in f.kids && b in f.kids
    ensures var g := Attached(f, p, b);
      && KeysOk(g) && g.kids.Keys == f.kids.Keys && g.parent == f.parent[b := p] && g.kids[p] == [b] + f.kids[p]
      && forall a :: a in f.kids && a != p ==> g.kids[a] == f.kids[a]
  {
  }

  // Another block under no other.
  lemma AddedRoot(h: Heap, p: Addr, b: Addr, x: Addr)
    requires p in h && b in h && h[p].children != b && x in h && x != b && RootOk(h, x) && x != h[p].children
    ensures RootOk(Added(h, p, b), x)
  {
    hide Added;
    AddedFields(h, p, b, x);
  }

  lemma FirstKid(h: Heap, p: Addr, s: seq<Addr>)
    requires ListOf(h, p, s)
    ensures p in h && h[p].children == (if s == [] then NIL else s[0])
  {
  }

  lemma NotOther(f: Forest, p: Addr, a: Addr)
    requires WellFormed(f) && p in f.kids && a in f.kids && a != p
    ensures forall x :: x in f.kids[a] ==> x !in f.kids[p]
  {
    ListView(f, a);
    ListView(f, p);
  }

  lemma AddedFirst(h: Heap, p: Addr, b: Addr, s: seq<Addr>)
    requires ListOf(h, p, s) && b in h && b != p && b != NIL && b !in s && NoRepeat(s)
    ensures ListOf(Added(h, p, b), p, [b] + s)
  {
    var h', r := Added(h, p, b), [b] + s;
    hide Added;
    assert s != [] ==> s[0] in s;
    AddedFields(h, p, b, p);
    forall i | 0 <= i < |r|
      ensures r[i] in h' && h'[r[i]].next == After(r, i) && h'[r[i]].prev == SlotAt(p, r, i)
    {
      if i > 0 { assert r[i] == s[i - 1] && (i > 1 ==> s[i - 1] != s[0]); }
      AddedFields(h, p, b, r[i]);
    }
  }

  lemma AddedOther(h: Heap, p: Addr, b: Addr, a: Addr, s: seq<Addr>, t: seq<Addr>)
    requires ListOf(h, p, s) && ListOf(h, a, t) && b in h && a != p && b != NIL && b !in s && b !in t && NIL !in t
    requires forall x :: x in t ==> x !in s
    ensures ListOf(Added(h, p, b), a, t)
  {
    hide Added;
    assert s != [] ==> s[0] in s;
    AddedFields(h, p, b, a);
    forall i | 0 <= i < |t|
      ensures t[i] in h && Added(h, p, b)[t[i]].next == h[t[i]].next && Added(h, p, b)[t[i]].prev == h[t[i]].prev
    {
      assert t[i] in t;
      AddedFields(h, p, b, t[i]);
    }
  }

  // ---------------------------------------------------------------- creating

  /** The hierarchy with a block under no other. */
  ghost function Grown(f: Forest, a: Addr): Forest {
    Forest(f.kids[a := []], f.parent[a := NIL], f.rank[a := 0])
  }

  lemma GrownLinked(h: Heap, f: Forest, a: Addr, data: seq<BStrings.Byte>)
    requires WellFormed(f) && Linked(h, f) && a !in f.kids && a != NIL
    ensures WellFormed(Grown(f, a)) && Linked(h[a := Block(NIL, NextOf(a), NIL, data)], Grown(f, a))
  {
    hide WellFormed, Linked, ListOf;
    GrownOk(f, a);
    var g, h' := Grown(f, a), h[a := Block(NIL, NextOf(a), NIL, data)];
    forall c | c in g.kids
      ensures c in h' && ListOf(h', c, g.kids[c]) && (g.parent[c] == NIL ==> RootOk(h', c))
    {
      if c == a {
        NoKids(h', a);
      } else {
        ListView(f, c);
        ListLinks(h, f, c);
        ListSame(h, h', c, f.kids[c]);
      }
    }
    GrownKeys(h, f, a);
    LinkedFrom(h', g);
  }

  lemma GrownOk(f: Forest, a: Addr)
    requires WellFormed(f) && a !in f.kids && a != NIL
    ensures WellFormed(Grown(f, a)) && KeysOk(f) && KeysOk(Grown(f, a)) && forall c :: c in f.kids ==> a !in f.kids[c]
  {
    var g := Grown(f, a);
    forall c | c in f.kids
      ensures KidsOf(g, c) && a !in f.kids[c]
    {
      ListView(f, c);
    }
    assert KidsOf(g, a);
  }

  lemma NoKids(h: Heap, a: Addr)
    requires a in h && h[a].children == NIL
    ensures ListOf(h, a, [])
  {
  }

  lemma GrownKeys(h: Heap, f: Forest, a: Addr)
    requires WellFormed(f) && Linked(h, f)
    ensures h.Keys + {a} == Grown(f, a).kids.Keys
  {
  }

  // ---------------------------------------------------------------- releasing

  /** The hierarchy without the blocks of a set. */
  ghost function Without(f: Forest, s: set<Addr>): Forest {
    Forest(f.kids - s, f.parent - s, f.rank - s)
  }

  // No list outside a subtree leads into it, once its root lies under no block.
  lemma Severed(f: Forest, b: Addr, a: Addr)
    requires WellFormed(f) && b in f.kids && f.parent[b] == NIL && a in f.kids && a !in Subtree(f, b)
    ensures forall i :: 0 <= i < |f.kids[a]| ==> f.kids[a][i] !in Subtree(f, b)
    ensures f.parent[a] !in Subtree(f, b)
  {
    ListView(f, a);
    hide Order, WellFormed;
    forall i | 0 <= i < |f.kids[a]| && f.kids[a][i] in Subtree(f, b)
      ensures false
    {
      Below(f, b, f.kids[a][i]);
    }
    if f.parent[a] in Subtree(f, b) {
      ListView(f, b);
      if f.parent[a] != b { Below(f, b, f.parent[a]); }
      ParentRank(f, a);
      var i :| 0 <= i < |f.kids[f.parent[a]]| && f.kids[f.parent[a]][i] == a;
      Closed(f, b, f.parent[a], i);
    }
  }

  /** Releasing a whole subtree leaves the other blocks as they are. */
  lemma WithoutLinked(h: Heap, f: Forest, b: Addr)
    requires WellFormed(f) && Linked(h, f) && b in f.kids && f.parent[b] == NIL
    ensures var s := Subtree(f, b); WellFormed(Without(f, s)) && Linked(h - s, Without(f, s))
  {
    var s := Subtree(f, b);
    var g, h' := Without(f, s), h - s;
    ListView(f, b);
    ListLinks(h, f, b);
    forall a | a in g.kids
      ensures KidsOf(g, a) && ListOf(h', a, g.kids[a]) && (g.parent[a] == NIL ==> RootOk(h', a))
      ensures g.parent[a] != NIL ==> g.parent[a] in g.kids && a in g.kids[g.parent[a]]
    {
      Severed(f, b, a);
      ListView(f, a);
      ParentView(f, a);
      ListLinks(h, f, a);
      hide WellFormed, Linked, Subtree;
      ListSame(h, h', a, f.kids[a]);
    }
    LinkedFrom(h', g);
  }

  // ---------------------------------------------------------------- moving

  /** The hierarchy once the block `b` is at `to`. */
  ghost function Renamed(f: Forest, b: Addr, to: Addr): Forest
    requires WellFormed(f) && b in f.kids && f.parent[b] != NIL
  {
    var p := f.parent[b];
    var s := f.kids[p];
    Forest((f.kids - {b})[to := f.kids[b]][p := s[IndexOf(s, b) := to]],
      map x | x in f.kids.Keys - {b} + {to} :: if x == to then p else if f.parent[x] == b then to else f.parent[x],
      (f.rank - {b})[to := f.rank[b]])
  }

  /** A block's list under its new address. */
  ghost function NewList(f: Forest, b: Addr, to: Addr, a: Addr): seq<Addr>
    requires WellFormed(f) && b in f.kids && f.parent[b] != NIL && (a == to || a in f.kids)
  {
    if a == to then f.kids[b]
    else if a == f.parent[b] then f.kids[a][IndexOf(f.kids[a], b) := to]
    else f.kids[a]
  }

  lemma RenamedView(f: Forest, b: Addr, to: Addr)
    requires WellFormed(f) && b in f.kids && f.parent[b] != NIL && (to == b || to !in f.kids) && to != NIL
    ensures var g, p := Renamed(f, b, to), f.parent[b];
      && KeysOk(g) && g.kids.Keys == f.kids.Keys - {b} + {to} && p in f.kids && p != b && p != to
      && (forall a :: a in g.kids ==> (a == to || a in f.kids) && g.kids[a] == NewList(f, b, to, a))
      && (forall x :: x in g.kids ==>
            g.parent[x] == (if x == to then p else if f.parent[x] == b then to else f.parent[x])
            && g.rank[x] == f.rank[if x == to then b else x])
  {
    ListView(f, b);
    ParentView(f, b);
    ListView(f, f.parent[b]);
  }

  lemma RenamedOk(f: Forest, b: Addr, to: Addr)
    requires WellFormed(f) && b in f.kids && f.parent[b] != NIL && (to == b || to !in f.kids) && to != NIL
    ensures WellFormed(Renamed(f, b, to))
  {
    var g, p := Renamed(f, b, to), f.parent[b];
    RenamedView(f, b, to);
    hide WellFormed, Renamed;
    forall a | a in g.kids
      ensures KidsOf(g, a)
    {
      RenamedKids(f, b, to, a);
    }
    forall x | x in g.kids && g.parent[x] != NIL
      ensures g.parent[x] in g.kids && x in g.kids[g.parent[x]]
    {
      RenamedParent(f, b, to, x);
    }
    assert WellFormed(g) by { FormedFrom(g); }
  }

  lemma FormedFrom(f: Forest)
    requires KeysOk(f) && (forall a :: a in f.kids ==> KidsOf(f, a))
    requires forall x :: x in f.kids && f.parent[x] != NIL ==> f.parent[x] in f.kids && x in f.kids[f.parent[x]]
    ensures WellFormed(f)
  {
  }

  lemma RenamedKids(f: Forest, b: Addr, to: Addr, a: Addr)
    requires WellFormed(f) && b in f.kids && f.parent[b] != NIL && (to == b || to !in f.kids) && to != NIL
    requires a in Renamed(f, b, to).kids
    ensures KeysOk(Renamed(f, b, to)) && KidsOf(Renamed(f, b, to), a)
  {
    hide WellFormed, Renamed;
    Member(f, b);
    RenamedView(f, b, to);
    var g, p := Renamed(f, b, to), f.parent[b];
    var o := if a == to then b else a;
    ListView(f, o);
    ListView(f, p);
    var s, t := f.kids[o], g.kids[a];
    forall i | 0 <= i < |t|
      ensures t[i] in g.kids && g.parent[t[i]] == a && g.rank[t[i]] < g.rank[a]
    {
      assert s[i] == b ==> o == p;
      assert t[i] == if s[i] == b then to else s[i];
    }
    assert forall i :: 0 <= i < |t| ==> t[i] == if s[i] == b then to else s[i];
  }

  lemma RenamedParent(f: Forest, b: Addr, to: Addr, x: Addr)
    requires WellFormed(f) && b in f.kids && f.parent[b] != NIL && (to == b || to !in f.kids) && to != NIL
    requires x in Renamed(f, b, to).kids && KeysOk(Renamed(f, b, to)) && Renamed(f, b, to).parent[x] != NIL
    ensures Renamed(f, b, to).parent[x] in Renamed(f, b, to).kids
    ensures x in Renamed(f, b, to).kids[Renamed(f, b, to).parent[x]]
  {
    var g, p := Renamed(f, b, to), f.parent[b];
    RenamedView(f, b, to);
    ParentView(f, if x == to then b else x);
    hide WellFormed, Renamed;
    var s := f.kids[p];
    assert s[IndexOf(s, b) := to][IndexOf(s, b)] == to;
    if x != to && f.parent[x] == p {
      var i :| 0 <= i < |s| && s[i] == x;
      assert s[IndexOf(s, b) := to][i] == x;
    }
  }

  lemma MovedFields(h: Heap, b: Addr, to: Addr, data: seq<BStrings.Byte>, x: Addr)
    requires b in h && (to == b || to !in h) && to != NIL && h[b].prev.of in h && h[b].prev.of != b
    requires (x == to || (x in h && x != b)) && h[b].next != b && h[b].children != b && h[b].next != to
    requires h[b].children != to
    requires h[b].children in h ==> h[b].children != h[b].next
    ensures var h1, o := Copied(h, b, to, data), if x == to then b else x;
      && to in h1 && h1[to].prev.of in h1 && Relinked(h1, to).Keys == h.Keys - {b} + {to}
      && x in Relinked(h1, to) && o in h
      && var y := Relinked(h1, to)[x];
      && y.data == (if x == to then data else h[x].data)
      && y.next == (if h[b].prev == NextOf(x) then to else h[o].next)
      && y.prev == (if x == h[b].children then Head(to) else if x == h[b].next then NextOf(to) else h[o].prev)
      && y.children == if h[b].prev == Head(x) then to else h[o].children
  {
    RelinkedFields(Copied(h, b, to, data), to, x);
  }

  // The blocks next to one that moves are not the ones below it, and none of them is the new address.
  ghost predicate Movable(h: Heap, b: Addr, to: Addr) {
    && b in h && (to == b || to !in h) && to != NIL && NIL !in h && h[b].prev.of in h && h[b].prev.of != b
    && h[b].next != b && h[b].children != b && (h[b].next == NIL || h[b].next in h)
    && (h[b].children == NIL || (h[b].children in h && h[b].children != h[b].next))
  }

  lemma IsMovable(h: Heap, f: Forest, b: Addr, to: Addr)
    requires WellFormed(f) && Linked(h, f) && b in f.kids && f.parent[b] != NIL
    requires (to == b || to !in f.kids) && to != NIL
    ensures Movable(h, b, to)
  {
    var i := LinkView(h, f, b);
    ListView(f, b);
    ListView(f, f.parent[b]);
    ListLinks(h, f, b);
    FirstKid(h, b, f.kids[b]);
  }

  // A list in which the block does not stand, and not its own.
  lemma MovedOther(h: Heap, b: Addr, to: Addr, data: seq<BStrings.Byte>, p: Addr, i: int, s: seq<Addr>, q: seq<Addr>,
          a: Addr, t: seq<Addr>)
    requires Movable(h, b, to) && ListOf(h, p, s) && 0 <= i < |s| && s[i] == b && h[b].prev == SlotAt(p, s, i)
    requires ListOf(h, b, q) && h[b].next == After(s, i)
    requires a != p && a != b && ListOf(h, a, t) && b !in t && NIL !in t
    requires forall x :: x in t ==> x !in s && x !in q
    ensures to in Copied(h, b, to, data) && Copied(h, b, to, data)[to].prev.of in Copied(h, b, to, data)
    ensures ListOf(Relinked(Copied(h, b, to, data), to), a, t)
  {
    assert q != [] ==> q[0] in q;
    assert s[i] in s && (i > 0 ==> s[i - 1] in s) && (i + 1 < |s| ==> s[i + 1] in s);
    MovedFields(h, b, to, data, a);
    hide Relinked, Copied;
    var h' := Relinked(Copied(h, b, to, data), to);
    forall k | 0 <= k < |t|
      ensures t[k] in h && t[k] in h' && h'[t[k]].next == h[t[k]].next && h'[t[k]].prev == h[t[k]].prev
    {
      assert t[k] in t;
      MovedFields(h, b, to, data, t[k]);
    }
    ListSame(h, h', a, t);
  }

  // The block's own list.
  lemma MovedOwn(h: Heap, b: Addr, to: Addr, data: seq<BStrings.Byte>, p: Addr, i: int, s: seq<Addr>, q: seq<Addr>)
    requires Movable(h, b, to) && ListOf(h, p, s) && 0 <= i < |s| && s[i] == b && h[b].prev == SlotAt(p, s, i)
    requires ListOf(h, b, q) && h[b].next == After(s, i) && b !in q && p != b && NoRepeat(q)
    requires forall x :: x in q ==> x !in s
    ensures to in Copied(h, b, to, data) && Copied(h, b, to, data)[to].prev.of in Copied(h, b, to, data)
    ensures ListOf(Relinked(Copied(h, b, to, data), to), to, q)
  {
    assert q != [] ==> q[0] in q;
    assert s[i] in s && (i > 0 ==> s[i - 1] in s) && (i + 1 < |s| ==> s[i + 1] in s);
    MovedFields(h, b, to, data, to);
    hide Relinked, Copied;
    var h' := Relinked(Copied(h, b, to, data), to);
    forall k | 0 <= k < |q|
      ensures q[k] in h' && h'[q[k]].next == After(q, k) && h'[q[k]].prev == SlotAt(to, q, k)
    {
      assert q[k] in q && (k > 0 ==> q[k] != q[0]);
      MovedFields(h, b, to, data, q[k]);
    }
  }

  // The list in which the block stands.
  lemma MovedAmong(h: Heap, b: Addr, to: Addr, data: seq<BStrings.Byte>, p: Addr, i: int, s: seq<Addr>, q: seq<Addr>)
    requires Movable(h, b, to) && ListOf(h, p, s) && 0 <= i < |s| && s[i] == b && h[b].prev == SlotAt(p, s, i)
    requires ListOf(h, b, q) && h[b].next == After(s, i) && p != b && NoRepeat(s) && p !in s && NIL !in s
    requires forall x :: x in s ==> x !in q
    ensures to in Copied(h, b, to, data) && Copied(h, b, to, data)[to].prev.of in Copied(h, b, to, data)
    ensures ListOf(Relinked(Copied(h, b, to, data), to), p, s[i := to])
  {
    assert q != [] ==> q[0] in q;
    var h', r := Relinked(Copied(h, b, to, data), to), s[i := to];
    MovedFields(h, b, to, data, p);
    hide Relinked, Copied;
    forall k | 0 <= k < |r|
      ensures r[k] in h' && h'[r[k]].next == After(r, k) && h'[r[k]].prev == SlotAt(p, r, k)
    {
      MovedAt(h, b, to, data, p, i, s, q, k);
    }
  }

  lemma MovedAt(h: Heap, b: Addr, to: Addr, data: seq<BStrings.Byte>, p: Addr, i: int, s: seq<Addr>, q: seq<Addr>,
          k: int)
    requires Movable(h, b, to) && ListOf(h, p, s) && 0 <= i < |s| && s[i] == b && h[b].prev == SlotAt(p, s, i)
    requires ListOf(h, b, q) && h[b].next == After(s, i) && p != b && NoRepeat(s) && p !in s && NIL !in s
    requires (forall x :: x in s ==> x !in q) && 0 <= k < |s|
    ensures to in Copied(h, b, to, data) && Copied(h, b, to, data)[to].prev.of in Copied(h, b, to, data)
    ensures var r, h' := s[i := to], Relinked(Copied(h, b, to, data), to);
      r[k] in h' && h'[r[k]].next == After(r, k) && h'[r[k]].prev == SlotAt(p, r, k)
  {
    assert q != [] ==> q[0] in q;
    assert s[k] in s && s[k] in h && h[s[k]].next == After(s, k) && h[s[k]].prev == SlotAt(p, s, k);
    assert (k == i + 1 <==> s[k] == After(s, i)) && (i == k + 1 <==> SlotAt(p, s, i) == NextOf(s[k]));
    assert h[b].children !in s;
    MovedFields(h, b, to, data, if k == i then to else s[k]);
  }

  /** hlist_relink and hlist_relink_head make the links of a moved block right again. */
  lemma RenamedLinked(h: Heap, f: Forest, b: Addr, to: Addr, data: seq<BStrings.Byte>)
    requires WellFormed(f) && Linked(h, f) && b in f.kids && f.parent[b] != NIL
    requires (to == b || to !in f.kids) && to != NIL
    ensures b in h && to in Copied(h, b, to, data) && Copied(h, b, to, data)[to].prev.of in Copied(h, b, to, data)
    ensures var h' := Relinked(Copied(h, b, to, data), to);
      && WellFormed(Renamed(f, b, to)) && Linked(h', Renamed(f, b, to)) && h'.Keys == h.Keys - {b} + {to}
      && h'[to].data == data && forall x :: x in h && x != b ==> x in h' && h'[x].data == h[x].data
  {
    IsMovable(h, f, b, to);
    var g := Renamed(f, b, to);
    RenamedOk(f, b, to);
    RenamedView(f, b, to);
    MovedFields(h, b, to, data, to);
    var h' := Relinked(Copied(h, b, to, data), to);
    ListLinks(h, f, b);
    hide WellFormed, Linked, Renamed, Relinked, Copied, ListOf, Movable;
    forall a | a in g.kids
      ensures ListOf(h', a, g.kids[a]) && (g.parent[a] == NIL ==> RootOk(h', a))
      ensures a != to ==> a in h && h'[a].data == h[a].data
    {
      RenamedList(h, f, b, to, data, a);
      RenamedRoot(h, f, b, to, data, a);
    }
    LinkedFrom(h', g);
  }

  lemma RenamedList(h: Heap, f: Forest, b: Addr, to: Addr, data: seq<BStrings.Byte>, a: Addr)
    requires WellFormed(f) && Linked(h, f) && b in f.kids && f.parent[b] != NIL
    requires (to == b || to !in f.kids) && to != NIL && a in Renamed(f, b, to).kids
    ensures b in h && to in Copied(h, b, to, data) && Copied(h, b, to, data)[to].prev.of in Copied(h, b, to, data)
    ensures ListOf(Relinked(Copied(h, b, to, data), to), a, Renamed(f, b, to).kids[a])
  {
    IsMovable(h, f, b, to);
    RenamedView(f, b, to);
    var p := f.parent[b];
    var i := LinkView(h, f, b);
    ListLinks(h, f, b);
    ListView(f, b);
    ListView(f, p);
    NotOther(f, p, b);
    NotOther(f, b, p);
    var s, q := f.kids[p], f.kids[b];
    hide WellFormed, Linked, Renamed, Relinked, Copied, ListOf, Movable;
    if a == to {
      MovedOwn(h, b, to, data, p, i, s, q);
    } else if a == p {
      MovedAmong(h, b, to, data, p, i, s, q);
    } else {
      ListLinks(h, f, a);
      ListView(f, a);
      NotOther(f, p, a);
      NotOther(f, b, a);
      MovedOther(h, b, to, data, p, i, s, q, a, f.kids[a]);
    }
  }

  lemma RenamedRoot(h: Heap, f: Forest, b: Addr, to: Addr, data: seq<BStrings.Byte>, x: Addr)
    requires WellFormed(f) && Linked(h, f) && b in f.kids && f.parent[b] != NIL
    requires (to == b || to !in f.kids) && to != NIL && x in Renamed(f, b, to).kids
    ensures b in h && to in Copied(h, b, to, data) && Copied(h, b, to, data)[to].prev.of in Copied(h, b, to, data)
    ensures x in Renamed(f, b, to).parent
    ensures Renamed(f, b, to).parent[x] == NIL ==> RootOk(Relinked(Copied(h, b, to, data), to), x)
    ensures x in Relinked(Copied(h, b, to, data), to)
    ensures x != to ==> x in h && Relinked(Copied(h, b, to, data), to)[x].data == h[x].data
  {
    IsMovable(h, f, b, to);
    RenamedView(f, b, to);
    var p := f.parent[b];
    var i := LinkView(h, f, b);
    ListView(f, p);
    ListView(f, b);
    ListLinks(h, f, b);
    FirstKid(h, b, f.kids[b]);
    MovedFields(h, b, to, data, to);
    if x != to {
      ListLinks(h, f, x);
      hide WellFormed, Linked, Renamed, Relinked, Copied, ListOf;
      MovedFields(h, b, to, data, x);
    }
  }
}
