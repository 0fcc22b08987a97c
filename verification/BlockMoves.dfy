/** Attaching, detaching, moving and removing blocks keeps the hierarchy and its links. */
module BlockMoves {
  import opened BlockForest
  import opened BlockLinks

  ghost function IndexOf(s: seq<Addr>, x: Addr): (i: nat)
    requires x in s
    ensures i < |s| && s[i] == x
  {
    var i :| 0 <= i < |s| && s[i] == x;
    i
  }

  ghost function Cut(s: seq<Addr>, i: int): seq<Addr>
    requires 0 <= i < |s|
  {
    s[..i] + s[i + 1..]
  }

  // What is known of a well-formed hierarchy about one list.
  lemma ListView(f: Forest, a: Addr)
    requires WellFormed(f) && a in f.kids
    ensures KeysOk(f) && a != NIL && NoRepeat(f.kids[a]) && a !in f.kids[a]
    ensures forall i :: 0 <= i < |f.kids[a]| ==>
      f.kids[a][i] in f.kids && f.parent[f.kids[a][i]] == a && f.rank[f.kids[a][i]] < f.rank[a]
  {
    assert KidsOf(f, a);
  }

  lemma ParentView(f: Forest, x: Addr)
    requires WellFormed(f) && x in f.kids
    ensures KeysOk(f) && x != NIL && (f.parent[x] != NIL ==> f.parent[x] in f.kids && x in f.kids[f.parent[x]])
  {
  }

  // ---------------------------------------------------------------- detaching

  /** The hierarchy once `b` lies under no block. */
  ghost function Detached(f: Forest, b: Addr): Forest
    requires WellFormed(f) && b in f.kids
  {
    var p := f.parent[b];
    if p == NIL then f else
      f.(kids := f.kids[p := Cut(f.kids[p], IndexOf(f.kids[p], b))], parent := f.parent[b := NIL])
  }

  lemma CutView(s: seq<Addr>, i: int, x: Addr)
    requires NoRepeat(s) && 0 <= i < |s|
    ensures NoRepeat(Cut(s, i)) && (x in Cut(s, i) <==> x in s && x != s[i])
  {
    var r := Cut(s, i);
    assert forall k :: 0 <= k < |r| ==> r[k] == s[if k < i then k else k + 1];
    if x in s && x != s[i] {
      var k :| 0 <= k < |s| && s[k] == x;
      assert r[if k < i then k else k - 1] == x;
    }
  }

  lemma DetachedOk(f: Forest, b: Addr)
    requires WellFormed(f) && b in f.kids
    ensures var g := Detached(f, b);
      WellFormed(g) && g.kids.Keys == f.kids.Keys && g.parent == f.parent[b := NIL] && g.rank == f.rank
  {
    ParentView(f, b);
    var g, p := Detached(f, b), f.parent[b];
    if p != NIL {
      var s, i := f.kids[p], IndexOf(f.kids[p], b);
      ListView(f, p);
      forall x ensures NoRepeat(Cut(s, i)) && (x in Cut(s, i) <==> x in s && x != b) { CutView(s, i, x); }
      forall a | a in g.kids
        ensures KidsOf(g, a)
      {
        ListView(f, a);
        assert forall k :: 0 <= k < |g.kids[a]| ==> g.kids[a][k] in f.kids[a] && g.kids[a][k] != b;
      }
    } else {
      assert f.parent[b := NIL] == f.parent;
    }
  }

  // A list that `b` is not in.
  lemma OtherList(h: Heap, f: Forest, b: Addr, a: Addr)
    requires WellFormed(f) && Linked(h, f) && b in f.kids && f.parent[b] != NIL && a in f.kids && a != f.parent[b]
    ensures h[b].prev.of in h && ListOf(Deleted(h, b), a, f.kids[a])
  {
    var p := f.parent[b];
    var i := LinkView(h, f, b);
    ListView(f, a);
    ListView(f, p);
    assert ListOf(h, a, f.kids[a]);
    hide WellFormed, Linked, Deleted;
    DeletedFields(h, b, a);
    forall k | 0 <= k < |f.kids[a]|
      ensures var x := f.kids[a][k]; x in h && Deleted(h, b)[x].next == h[x].next && Deleted(h, b)[x].prev == h[x].prev
    {
      var x := f.kids[a][k];
      DeletedFields(h, b, x);
      assert x !in f.kids[p];
    }
  }

  // The links of a block in its parent's list.
  lemma LinkView(h: Heap, f: Forest, b: Addr) returns (i: nat)
    requires WellFormed(f) && Linked(h, f) && b in f.kids && f.parent[b] != NIL
    ensures f.parent[b] in f.kids && h.Keys == f.kids.Keys && i == IndexOf(f.kids[f.parent[b]], b)
    ensures i < |f.kids[f.parent[b]]| && ListOf(h, f.parent[b], f.kids[f.parent[b]])
    ensures h[b].prev == SlotAt(f.parent[b], f.kids[f.parent[b]], i) && h[b].next == After(f.kids[f.parent[b]], i)
    ensures h[b].prev.of in h && h[b].next != b && h[b].prev != NextOf(b) && h[b].prev != Head(b)
  {
    ParentView(f, b);
    var p := f.parent[b];
    ListView(f, p);
    i := IndexOf(f.kids[p], b);
    assert ListOf(h, p, f.kids[p]);
  }

  // What stands around a place in the list that is left.
  lemma CutAround(p: Addr, s: seq<Addr>, i: int, k: int)
    requires NoRepeat(s) && NIL !in s && 0 <= i < |s| && 0 <= k < |s| - 1
    ensures var r, m := Cut(s, i), if k < i then k else k + 1;
      && |r| == |s| - 1 && r[k] == s[m] && m != i
      && After(r, k) == (if After(s, m) == s[i] then After(s, i) else After(s, m))
      && SlotAt(p, r, k) == (if m == i + 1 then SlotAt(p, s, i) else SlotAt(p, s, m))
      && (After(s, m) == s[i] <==> SlotAt(p, s, i) == NextOf(s[m])) && (s[m] == After(s, i) <==> m == i + 1)
  {
  }

  lemma OwnAt(h: Heap, p: Addr, b: Addr, s: seq<Addr>, i: int, k: int)
    requires ListOf(h, p, s) && NoRepeat(s) && NIL !in s && p !in s && 0 <= i < |s| && s[i] == b && 0 <= k < |s| - 1
    requires b in h && h[b].prev == SlotAt(p, s, i) && h[b].next == After(s, i) && h[b].prev.of in h
    requires h[b].next != b && h[b].prev != NextOf(b)
    ensures var r, h' := Cut(s, i), Deleted(h, b);
      |r| == |s| - 1 && r[k] in h' && h'[r[k]].next == After(r, k) && h'[r[k]].prev == SlotAt(p, r, k)
  {
    CutAround(p, s, i, k);
    var m := if k < i then k else k + 1;
    assert s[m] in h && h[s[m]].next == After(s, m) && h[s[m]].prev == SlotAt(p, s, m);
    assert s[m] != b;
    hide ListOf, After, SlotAt, Deleted, NoRepeat, Cut;
    DeletedFields(h, b, s[m]);
  }

  lemma OwnList(h: Heap, f: Forest, b: Addr)
    requires WellFormed(f) && Linked(h, f) && b in f.kids && f.parent[b] != NIL
    ensures h[b].prev.of in h && ListOf(Deleted(h, b), f.parent[b], Detached(f, b).kids[f.parent[b]])
  {
    var p := f.parent[b];
    var i := LinkView(h, f, b);
    ListView(f, p);
    ListView(f, b);
    var s := f.kids[p];
    assert NIL !in s;
    DeletedFields(h, b, p);
    hide WellFormed, Linked, Deleted;
    forall k | 0 <= k < |Cut(s, i)|
      ensures var r, h' := Cut(s, i), Deleted(h, b);
        r[k] in h' && h'[r[k]].next == After(r, k) && h'[r[k]].prev == SlotAt(p, r, k)
    {
      OwnAt(h, p, b, s, i, k);
    }
  }

  lemma ListLinks(h: Heap, f: Forest, a: Addr)
    requires KeysOk(f) && Linked(h, f) && a in f.kids
    ensures h.Keys == f.kids.Keys && ListOf(h, a, f.kids[a]) && (f.parent[a] == NIL ==> RootOk(h, a))
  {
  }

  lemma ListSame(h: Heap, h': Heap, a: Addr, s: seq<Addr>)
    requires ListOf(h, a, s) && a in h' && h'[a].children == h[a].children
    requires forall k :: 0 <= k < |s| ==>
      s[k] in h && s[k] in h' && h'[s[k]].next == h[s[k]].next && h'[s[k]].prev == h[s[k]].prev
    ensures ListOf(h', a, s)
  {
  }

  lemma LinkedFrom(h: Heap, f: Forest)
    requires KeysOk(f) && h.Keys == f.kids.Keys
    requires forall a :: a in f.kids ==> ListOf(h, a, f.kids[a]) && (f.parent[a] == NIL ==> RootOk(h, a))
    ensures Linked(h, f)
  {
  }

  /** hlist_del takes a block out of its parent's list. */
  lemma DetachedLinked(h: Heap, f: Forest, b: Addr)
    requires WellFormed(f) && Linked(h, f) && b in f.kids
    ensures b in h && h[b].prev.of in h
    ensures KeysOk(Detached(f, b)) && Linked(Deleted(h, b), Detached(f, b))
    ensures Deleted(h, b).Keys == h.Keys && Deleted(h, b)[b].next == NIL
    ensures forall x :: x in h ==> Deleted(h, b)[x].data == h[x].data
  {
    DetachedOk(f, b);
    ListView(f, b);
    ListLinks(h, f, b);
    if f.parent[b] == NIL {
      DeletedRoot(h, b);
      RootDeleted(h, f, b);
    } else {
      KidDeleted(h, f, b);
    }
  }

  lemma DetachedOthers(f: Forest, b: Addr)
    requires WellFormed(f) && b in f.kids && f.parent[b] != NIL
    ensures f.parent[b] in f.kids && Detached(f, b).kids.Keys == f.kids.Keys
    ensures forall a :: a in f.kids && a != f.parent[b] ==> Detached(f, b).kids[a] == f.kids[a]
  {
    ParentView(f, b);
  }

  lemma KidDeleted(h: Heap, f: Forest, b: Addr)
    requires WellFormed(f) && Linked(h, f) && b in f.kids && f.parent[b] != NIL
    ensures b in h && h[b].prev.of in h && KeysOk(Detached(f, b)) && Linked(Deleted(h, b), Detached(f, b))
    ensures Deleted(h, b).Keys == h.Keys && Deleted(h, b)[b].next == NIL
    ensures forall x :: x in h ==> Deleted(h, b)[x].data == h[x].data
  {
    hide WellFormed, Linked, Deleted, Detached, ListOf, Cut;
    ParentView(f, b);
    var g, p := Detached(f, b), f.parent[b];
    DetachedOk(f, b);
    ParentView(g, b);
    var i := LinkView(h, f, b);
    DeletedFields(h, b, b);
    OwnList(h, f, b);
    DetachedOthers(f, b);
    forall a | a in f.kids
      ensures ListOf(Deleted(h, b), a, g.kids[a]) && Deleted(h, b)[a].data == h[a].data
      ensures g.parent[a] == NIL ==> RootOk(Deleted(h, b), a)
    {
      DeletedFields(h, b, a);
      if a != p { OtherList(h, f, b, a); }
      if f.parent[a] == NIL { OtherRoot(h, f, b, a); }
    }
    LinkedFrom(Deleted(h, b), g);
  }

  lemma OtherRoot(h: Heap, f: Forest, b: Addr, x: Addr)
    requires WellFormed(f) && Linked(h, f) && b in f.kids && f.parent[b] != NIL && x in f.kids && f.parent[x] == NIL
    ensures h[b].prev.of in h && RootOk(Deleted(h, b), x)
  {
    var i := LinkView(h, f, b);
    ListView(f, f.parent[b]);
    ListLinks(h, f, x);
    assert x !in f.kids[f.parent[b]];
    hide Deleted;
    DeletedFields(h, b, x);
  }

  lemma RootDeleted(h: Heap, f: Forest, b: Addr)
    requires WellFormed(f) && Linked(h, f) && b in f.kids && f.parent[b] == NIL
    ensures KeysOk(f) && b in h && Linked(h[b := h[b].(prev := NextOf(b), next := NIL)], f)
  {
    ListView(f, b);
    ListLinks(h, f, b);
    var h' := h[b := h[b].(prev := NextOf(b), next := NIL)];
    hide WellFormed, Linked, ListOf;
    forall a | a in f.kids
      ensures ListOf(h', a, f.kids[a]) && (f.parent[a] == NIL ==> RootOk(h', a))
    {
      ListView(f, a);
      ListLinks(h, f, a);
      ListSame(h, h', a, f.kids[a]);
    }
    LinkedFrom(h', f);
  }
}
