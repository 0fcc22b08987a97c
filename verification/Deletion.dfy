/**
  dict_delete of src/adt/dict.c on the linked nodes: taking a node out of the tree by identity,
  and one step of each branch of the adjustment loop. `d` is the side of the parent on which the
  loop's node is; the source spells out both sides.
 */
module Deletion {
  import opened RedBlackTree
  import opened Rebalance

  // ---------------------------------------------------------------- taking a node out

  ghost predicate AtMostOneChild(f: Tree) { f.Bin? && (f.l.Leaf? || f.r.Leaf?) }

  ghost function OnlyChild(f: Tree): Tree
    requires f.Bin?
  {
    if f.l.Bin? then f.l else f.r
  }

  // The links after the only child (or the sentinel) took the place of the root of `f`.
  ghost predicate SplicedOut(h: Heap, h': Heap, z: Ctx, f: Tree, nil: DNode)
    requires f.Bin?
  {
    var child, p := Root(OnlyChild(f), nil), Parent(z, nil);
    && p in h && p in h' && nil in h && nil in h' && child in h && child in h'
    && (z.Top? ==> h'[nil].left == child)
    && (z.In? ==> h'[p] == WithKid(h[p], z.side, child) && h'[nil].left == h[nil].left)
    && h'[nil].right == h[nil].right && h'[nil].color == h[nil].color
    && (OnlyChild(f).Bin? ==> h'[child] == h[child].(parent := p))
    && h'[child].parent == p
    && Agree(h, h', CtxNodes(z) + Nodes(OnlyChild(f)) - {p, child})
  }

  // What the links of the root of `f` lead to.
  lemma ChildrenAt(h: Heap, z: Ctx, f: Tree, nil: DNode)
    requires At(h, z, f, nil) && f.Bin?
    ensures var n := f.e.node;
      && n in h && n != nil && h[n] == Cell(Root(f.l, nil), Root(f.r, nil), Parent(z, nil), f.c, f.e.key)
      && Root(f.l, nil) in h && Root(f.r, nil) in h
      && n !in {Root(f.l, nil), Root(f.r, nil), Parent(z, nil)}
      && (f.l.Bin? ==> Root(f.l, nil) !in {Root(f.r, nil), Parent(z, nil), nil})
      && (f.r.Bin? ==> Root(f.r, nil) !in {Root(f.l, nil), Parent(z, nil), nil})
      && {n, Root(f.l, nil), Root(f.r, nil), Parent(z, nil)} <= Nodes(f) + CtxNodes(z) + {nil}
  {
    assert Linked(h, f.l, f.e.node, nil) && Linked(h, f.r, f.e.node, nil);
  }

  lemma ChildAt(h: Heap, z: Ctx, f: Tree, nil: DNode)
    requires At(h, z, f, nil) && AtMostOneChild(f)
    ensures var n, child := f.e.node, Root(OnlyChild(f), nil);
      n in h && child in h && n != nil && n != child && n != Parent(z, nil)
    ensures OnlyChild(f).Bin? ==> Root(OnlyChild(f), nil) !in {Parent(z, nil), nil}
  {
    ChildrenAt(h, z, f, nil);
  }

  lemma SpliceAt(h: Heap, h': Heap, z: Ctx, f: Tree, nil: DNode)
    requires At(h, z, f, nil) && AtMostOneChild(f) && SplicedOut(h, h', z, f, nil)
    ensures At(h', z, OnlyChild(f), nil) && h'[nil].color == h[nil].color
    ensures OnlyChild(f).Leaf? ==> h'[nil].parent == Parent(z, nil)
  {
    var g, p := OnlyChild(f), Parent(z, nil);
    if g.Bin? { Reroot(h, h', g, f.e.node, p, g.c, nil); }
    Rehang(h, h', z, f.e.node, Root(g, nil), nil);
  }

  // `r` with `g` in the place of its leftmost node.
  ghost function Regraft(r: Tree, g: Tree): Tree
    requires r.Bin?
  {
    if r.l.Leaf? then g else Bin(Regraft(r.l, g), r.c, r.e, r.r)
  }

  ghost function LeftmostTree(r: Tree): (f: Tree)
    requires r.Bin?
    ensures f.Bin? && f.l.Leaf?
  {
    if r.l.Leaf? then r else LeftmostTree(r.l)
  }

  ghost function LeftmostCtx(z: Ctx, r: Tree): Ctx
    requires r.Bin?
    decreases r
  {
    if r.l.Leaf? then z else LeftmostCtx(In(L, z, r.c, r.e, r.r), r.l)
  }

  lemma {:induction false} LeftmostAt(h: Heap, z: Ctx, r: Tree, g: Tree, nil: DNode)
    requires r.Bin?
    decreases r
    ensures At(h, LeftmostCtx(z, r), g, nil) <==> At(h, z, Regraft(r, g), nil)
  {
    if r.l.Bin? {
      LeftmostAt(h, In(L, z, r.c, r.e, r.r), r.l, g, nil);
      Ascend(h, In(L, z, r.c, r.e, r.r), Regraft(r.l, g), nil);
    }
  }

  lemma {:induction false} LeftmostPlug(z: Ctx, r: Tree, g: Tree)
    requires r.Bin?
    decreases r
    ensures Plug(LeftmostCtx(z, r), g) == Plug(z, Regraft(r, g))
  {
    if r.l.Bin? {
      LeftmostPlug(In(L, z, r.c, r.e, r.r), r.l, g);
    }
  }

  lemma {:induction false} RegraftSelf(r: Tree)
    requires r.Bin?
    ensures Regraft(r, LeftmostTree(r)) == r
    ensures InOrder(r) == [LeftmostTree(r).e] + InOrder(Regraft(r, LeftmostTree(r).r))
  {
    if r.l.Bin? {
      RegraftSelf(r.l);
    }
  }

  lemma {:induction false} LeftmostFrame(z: Ctx, z': Ctx, r: Tree, h: nat)
    requires r.Bin?
    requires forall k: nat :: CtxRedBlack(z, k) ==> CtxRedBlack(z', k)
    requires z.In? && z'.In? && BlackHole(z) == BlackHole(z') && RootColor(z) == RootColor(z')
    requires CtxRedBlack(LeftmostCtx(z, r), h)
    ensures CtxRedBlack(LeftmostCtx(z', r), h)
    ensures LeftmostCtx(z, r).In? && LeftmostCtx(z', r).In?
    ensures BlackHole(LeftmostCtx(z, r)) == BlackHole(LeftmostCtx(z', r))
    ensures RootColor(LeftmostCtx(z, r)) == RootColor(LeftmostCtx(z', r))
    decreases r
  {
    if r.l.Bin? {
      LeftmostFrame(In(L, z, r.c, r.e, r.r), In(L, z', r.c, r.e, r.r), r.l, h);
    }
  }

  // The links after the node of `e` took over the links, the colour and the place of the root.
  ghost predicate Replaced(h: Heap, h': Heap, z: Ctx, f: Tree, e: Entry, nil: DNode)
    requires f.Bin? && f.l.Bin?
  {
    var l, r, p := f.l.e.node, Root(f.r, nil), Parent(z, nil);
    && p in h && p in h' && nil in h && nil in h' && l in h && l in h' && r in h && r in h'
    && e.node in h' && h'[e.node] == Cell(l, r, p, f.c, e.key)
    && h'[l] == h[l].(parent := e.node)
    && (f.r.Bin? ==> h'[r] == h[r].(parent := e.node)) && h'[r].parent == e.node
    && (z.Top? ==> h'[nil].left == e.node)
    && (z.In? ==> h'[p] == WithKid(h[p], z.side, e.node) && h'[nil].left == h[nil].left)
    && h'[nil].right == h[nil].right && h'[nil].color == h[nil].color
    && Agree(h, h', CtxNodes(z) + Nodes(f) - {p, l, r, f.e.node})
  }

  lemma ReplaceAt(h: Heap, h': Heap, z: Ctx, f: Tree, e: Entry, nil: DNode)
    requires At(h, z, f, nil) && f.Bin? && f.l.Bin? && Replaced(h, h', z, f, e, nil)
    requires e.node !in Nodes(f) && e.node !in CtxNodes(z) && e.node != nil
    ensures At(h', z, f.(e := e), nil)
  {
    Reroot(h, h', f.l, f.e.node, e.node, f.l.c, nil);
    if f.r.Bin? { Reroot(h, h', f.r, f.e.node, e.node, f.r.c, nil); }
    Rehang(h, h', z, f.e.node, e.node, nil);
  }

  lemma {:induction false} LeftmostParent(z: Ctx, z': Ctx, r: Tree, nil: DNode)
    requires r.Bin? && r.l.Bin?
    ensures Parent(LeftmostCtx(z, r), nil) == Parent(LeftmostCtx(z', r), nil)
    decreases r
  {
    if r.l.l.Bin? {
      LeftmostParent(In(L, z, r.c, r.e, r.r), In(L, z', r.c, r.e, r.r), r.l, nil);
    }
  }

  // The tree after its node with colour `c` was taken out at the hole of `z`, before any adjustment.
  ghost predicate Removed(h: Heap, z: Ctx, g: Tree, c: Color, nil: DNode, entries: seq<Entry>)
  {
    && At(h, z, g, nil) && h[nil].color == Black && (g.Leaf? ==> h[nil].parent == Parent(z, nil))
    && InOrder(Plug(z, g)) == entries && (z.In? ==> RootColor(z) == Black)
    && RedBlack(g, 1) && CtxRedBlack(z, if c.Black? then 2 else 1)
    && (c.Red? ==> z.In? && IsBlack(g))
  }

  // A node with at most one child hung in the hole of `z`.
  lemma OneChildRedBlack(z: Ctx, f: Tree)
    requires ValidTree(Plug(z, f)) && AtMostOneChild(f)
    ensures var g := OnlyChild(f);
      && RedBlack(g, 1) && CtxRedBlack(z, if f.c.Black? then 2 else 1) && (z.In? ==> RootColor(z) == Black)
      && (f.c.Red? ==> z.In? && IsBlack(g))
  {
    UnplugValid(z, f);
    assert z.Top? ==> Plug(z, f) == f;
  }

  lemma CutMiddle<T>(b: seq<T>, l: seq<T>, e: T, r: seq<T>, a: seq<T>)
    ensures var s, k := b + (l + [e] + r) + a, |b| + |l|;
      s[k] == e && b + (l + r) + a == s[..k] + s[k + 1..]
  {
    var s, k := b + (l + [e] + r) + a, |b| + |l|;
    assert s[..k] == b + l;
    assert s[k + 1..] == r + a;
  }

  // The place of the root of `f` in the order.
  ghost function Index(z: Ctx, f: Tree): nat
    requires f.Bin?
  {
    |Before(z)| + |InOrder(f.l)|
  }

  // `g` holds what `f` holds except its root.
  lemma RemovedEntries(z: Ctx, f: Tree, g: Tree)
    requires f.Bin? && InOrder(g) == InOrder(f.l) + InOrder(f.r)
    ensures var s, k := InOrder(Plug(z, f)), Index(z, f);
      k < |s| && s[k] == f.e && InOrder(Plug(z, g)) == s[..k] + s[k + 1..]
  {
    hide Plug, Before, After;
    InOrderPlug(z, f);
    InOrderPlug(z, g);
    assert InOrder(f) == InOrder(f.l) + [f.e] + InOrder(f.r);
    hide InOrder;
    CutMiddle(Before(z), InOrder(f.l), f.e, InOrder(f.r), After(z));
  }

  // ---- a target with two children, and its successor: the leftmost node of its right subtree

  ghost predicate TwoChildren(f: Tree) { f.Bin? && f.l.Bin? && f.r.Bin? }

  ghost function Successor(f: Tree): Tree
    requires TwoChildren(f)
  {
    LeftmostTree(f.r)
  }

  // The place of the successor, below a root holding `e`.
  ghost function SuccessorCtx(z: Ctx, f: Tree, e: Entry): Ctx
    requires TwoChildren(f)
  {
    LeftmostCtx(In(R, z, f.c, e, f.l), f.r)
  }

  // `f` without its successor, and with `e` at the root.
  ghost function Without(f: Tree, e: Entry): Tree
    requires TwoChildren(f)
  {
    Bin(f.l, f.c, e, Regraft(f.r, Successor(f).r))
  }

  lemma SuccessorAt(h: Heap, z: Ctx, f: Tree, e: Entry, g: Tree, nil: DNode)
    requires TwoChildren(f)
    ensures At(h, SuccessorCtx(z, f, e), g, nil) <==> At(h, z, Bin(f.l, f.c, e, Regraft(f.r, g)), nil)
    ensures Plug(SuccessorCtx(z, f, e), g) == Plug(z, Bin(f.l, f.c, e, Regraft(f.r, g)))
  {
    LeftmostAt(h, In(R, z, f.c, e, f.l), f.r, g, nil);
    LeftmostPlug(In(R, z, f.c, e, f.l), f.r, g);
    Ascend(h, In(R, z, f.c, e, f.l), Regraft(f.r, g), nil);
  }

  // Before anything moves: where the successor is, and that dict_next finds it.
  lemma SuccessorBefore(h: Heap, z: Ctx, f: Tree, nil: DNode)
    requires At(h, z, f, nil) && TwoChildren(f)
    ensures At(h, SuccessorCtx(z, f, f.e), Successor(f), nil) && AtMostOneChild(Successor(f))
    ensures Plug(SuccessorCtx(z, f, f.e), Successor(f)) == Plug(z, f)
    ensures InOrder(f.r) != [] && InOrder(f.r)[0] == Successor(f).e
    ensures OnlyChild(Successor(f)) == Successor(f).r
    ensures Successor(f).e.node !in CtxNodes(SuccessorCtx(z, f, f.e)) + Nodes(Successor(f).r) + {nil}
  {
    SuccessorAt(h, z, f, f.e, Successor(f), nil);
    RegraftSelf(f.r);
  }

  // After the successor was spliced out: it is not among the nodes left.
  lemma SuccessorOut(h: Heap, z: Ctx, f: Tree, nil: DNode)
    requires TwoChildren(f) && At(h, SuccessorCtx(z, f, f.e), Successor(f).r, nil)
    ensures At(h, z, Without(f, f.e), nil)
    ensures CtxNodes(z) + Nodes(Without(f, f.e)) == CtxNodes(SuccessorCtx(z, f, f.e)) + Nodes(Successor(f).r)
  {
    SuccessorAt(h, z, f, f.e, Successor(f).r, nil);
    NodesPlug(SuccessorCtx(z, f, f.e), Successor(f).r);
    NodesPlug(z, Without(f, f.e));
  }

  // Where the sentinel's scratch parent link points when it stands for the successor's child.
  lemma SuccessorParents(z: Ctx, f: Tree, nil: DNode)
    requires TwoChildren(f)
    ensures Without(f, f.e).r.Leaf? ==> Parent(SuccessorCtx(z, f, Successor(f).e), nil) == Successor(f).e.node
    ensures Successor(f).r.Leaf? && Without(f, f.e).r.Bin? ==>
      Parent(SuccessorCtx(z, f, Successor(f).e), nil) == Parent(SuccessorCtx(z, f, f.e), nil)
  {
    if f.r.l.Bin? {
      LeftmostParent(In(R, z, f.c, f.e, f.l), In(R, z, f.c, Successor(f).e, f.l), f.r, nil);
    }
  }

  lemma SuccessorRedBlack(z: Ctx, f: Tree)
    requires TwoChildren(f) && ValidTree(Plug(z, f))
    ensures var n := Successor(f);
      var y := SuccessorCtx(z, f, n.e);
      && RedBlack(n.r, 1) && CtxRedBlack(y, if n.c.Black? then 2 else 1)
      && y.In? && RootColor(y) == Black && (n.c.Red? ==> IsBlack(n.r))
  {
    var n := Successor(f);
    LeftmostPlug(In(R, z, f.c, f.e, f.l), f.r, n);
    RegraftSelf(f.r);
    assert Whole(In(R, z, f.c, f.e, f.l), f.r) == f;
    OneChildRedBlack(SuccessorCtx(z, f, f.e), n);
    LeftmostFrame(In(R, z, f.c, f.e, f.l), In(R, z, f.c, n.e, f.l), f.r, if n.c.Black? then 2 else 1);
  }

  lemma SuccessorEntries(z: Ctx, f: Tree)
    requires TwoChildren(f)
    ensures var s, k := InOrder(Plug(z, f)), Index(z, f);
      k < |s| && s[k] == f.e && InOrder(Plug(z, Without(f, Successor(f).e))) == s[..k] + s[k + 1..]
  {
    var e, rest := Successor(f).e, InOrder(Regraft(f.r, Successor(f).r));
    RegraftSelf(f.r);
    assert InOrder(f.l) + [e] + rest == InOrder(f.l) + ([e] + rest);
    RemovedEntries(z, f, Without(f, e));
  }

  // After the successor was installed in place of the target.
  lemma SuccessorInstalled(h: Heap, z: Ctx, f: Tree, nil: DNode)
    requires TwoChildren(f) && ValidTree(Plug(z, f)) && At(h, z, Without(f, Successor(f).e), nil)
    requires h[nil].color == Black
    requires Successor(f).r.Leaf? ==> h[nil].parent == Parent(SuccessorCtx(z, f, Successor(f).e), nil)
    ensures var s, k := InOrder(Plug(z, f)), Index(z, f);
      && k < |s| && s[k] == f.e
      && Removed(h, SuccessorCtx(z, f, Successor(f).e), Successor(f).r, Successor(f).c, nil, s[..k] + s[k + 1..])
  {
    SuccessorAt(h, z, f, Successor(f).e, Successor(f).r, nil);
    SuccessorRedBlack(z, f);
    SuccessorEntries(z, f);
  }

  // ---- a target with at most one child

  lemma OneChildRemoved(h: Heap, z: Ctx, f: Tree, nil: DNode)
    requires AtMostOneChild(f) && ValidTree(Plug(z, f)) && At(h, z, OnlyChild(f), nil) && h[nil].color == Black
    requires OnlyChild(f).Leaf? ==> h[nil].parent == Parent(z, nil)
    ensures var s, k := InOrder(Plug(z, f)), Index(z, f);
      && k < |s| && s[k] == f.e
      && Removed(h, z, OnlyChild(f), f.c, nil, s[..k] + s[k + 1..])
  {
    OneChildRedBlack(z, f);
    assert InOrder(OnlyChild(f)) == InOrder(f.l) + InOrder(f.r);
    RemovedEntries(z, f, OnlyChild(f));
  }

  // The nodes left are all but the target.
  lemma OneChildNodes(h: Heap, z: Ctx, f: Tree, nil: DNode)
    requires At(h, z, f, nil) && AtMostOneChild(f)
    ensures CtxNodes(z) + Nodes(OnlyChild(f)) == CtxNodes(z) + Nodes(f) - {f.e.node}
  {
  }

  lemma {:induction false} RegraftNodes(r: Tree)
    requires r.Bin?
    ensures Nodes(r) == {LeftmostTree(r).e.node} + Nodes(Regraft(r, LeftmostTree(r).r))
  {
    if r.l.Bin? {
      RegraftNodes(r.l);
    }
  }

  lemma SuccessorNodes(h: Heap, z: Ctx, f: Tree, nil: DNode)
    requires At(h, z, f, nil) && TwoChildren(f)
    ensures var n := Successor(f);
      CtxNodes(SuccessorCtx(z, f, n.e)) + Nodes(n.r) == CtxNodes(z) + Nodes(f) - {f.e.node}
  {
    var n := Successor(f);
    RegraftNodes(f.r);
    LeftmostPlug(In(R, z, f.c, n.e, f.l), f.r, n.r);
    NodesPlug(SuccessorCtx(z, f, n.e), n.r);
    NodesPlug(z, Without(f, n.e));
    assert Whole(In(R, z, f.c, n.e, f.l), Regraft(f.r, n.r)) == Without(f, n.e);
  }

  // Without the target, the links are the same.
  lemma RemovedFrame(h: Heap, h': Heap, z: Ctx, g: Tree, c: Color, nil: DNode, entries: seq<Entry>)
    requires Removed(h, z, g, c, nil, entries)
    requires Agree(h, h', CtxNodes(z) + Nodes(g) + {nil})
    ensures Removed(h', z, g, c, nil, entries)
  {
    AtFrame(h, h', z, g, nil);
  }

  // ---------------------------------------------------------------- the adjustment loop

  // One black node is missing above `f`: repainting a red `f` black makes up for it.
  ghost predicate Deficient(f: Tree, bh: nat)
  {
    if IsBlack(f) then RedBlack(f, bh) else RedBlack(Blacken(f), bh + 1)
  }

  ghost function Depth(z: Ctx): nat { if z.Top? then 0 else Depth(z.up) + 1 }

  // What the loop of dict_delete keeps, seen from its node. The root is painted red, which stops
  // the loop there, unless the loop is about to stop at a red parent.
  ghost predicate Deleting(h: Heap, z: Ctx, f: Tree, bh: nat, nil: DNode, entries: seq<Entry>)
  {
    && At(h, z, f, nil) && (h[nil].color == Red <==> z.Top? && f.Leaf?)
    && Deficient(f, bh) && CtxRedBlack(z, bh + 1)
    && (IsBlack(f) ==> if z.Top? then f.Leaf? else z.c.Red? || RootColor(z) == Red)
    && InOrder(Plug(z, f)) == entries
  }

  lemma DeleteView(h: Heap, z: Ctx, f: Tree, bh: nat, nil: DNode, entries: seq<Entry>)
    requires Deleting(h, z, f, bh, nil, entries)
    ensures Parent(z, nil) in h && Root(f, nil) in h
    ensures h[Root(f, nil)].color == Black <==> IsBlack(f) && z.In?
    ensures f.Bin? ==> h[Root(f, nil)].parent == Parent(z, nil)
    ensures z.In? ==>
      && h[z.e.node].color == z.c && h[z.e.node].parent == Parent(z.up, nil) && z.e.node != nil
      && Kid(h[z.e.node], z.side) == Root(f, nil) && Kid(h[z.e.node], Opposite(z.side)) == Root(z.sib, nil)
    ensures z.In? && IsBlack(f) ==>
      && z.sib.Bin? && z.sib.e.node in h && z.sib.e.node != nil && h[z.sib.e.node].color == z.sib.c
      && Root(f, nil) != z.sib.e.node && Root(f, nil) != z.e.node
      && var d, k := z.side, h[z.sib.e.node];
      && Kid(k, d) == Root(Upper(d, z.sib), nil) && Kid(k, Opposite(d)) == Root(Lower(d, z.sib), nil)
      && k.left in h && k.right in h
      && (h[Kid(k, d)].color == Black <==> IsBlack(Upper(d, z.sib)))
      && (h[Kid(k, Opposite(d))].color == Black <==> IsBlack(Lower(d, z.sib)))
  {
    ParentAt(h, z, f, nil);
    if z.In? && IsBlack(f) {
      HeightUnique(f, bh);
      assert Linked(h, z.sib, z.e.node, nil);
      assert Linked(h, z.sib.l, z.sib.e.node, nil) && Linked(h, z.sib.r, z.sib.e.node, nil);
    }
  }

  lemma NephewAt(h: Heap, z: Ctx, f: Tree, d: Side, nil: DNode)
    requires At(h, z, f, nil) && z.In? && z.sib.Bin?
    ensures var s := z.sib; At(h, In(d, Across(z, f), s.c, s.e, Lower(d, s)), Upper(d, s), nil)
  {
    SidestepAt(h, z, f, nil);
    Ascend(h, In(d, Across(z, f), z.sib.c, z.sib.e, Lower(d, z.sib)), Upper(d, z.sib), nil);
  }

  // ---- the sister is red: it becomes the grandparent, and a black nephew the sister

  ghost function RedSister(z: Ctx): Ctx
    requires z.In? && z.sib.Bin?
  {
    In(z.side, In(z.side, z.up, Black, z.sib.e, Lower(z.side, z.sib)), Red, z.e, Upper(z.side, z.sib))
  }

  ghost function RedSisterPaint(h: Heap, z: Ctx): Heap
    requires z.In? && z.sib.Bin? && z.sib.e.node in h && z.e.node in h
  {
    Painted(Painted(h, z.sib.e.node, Black), z.e.node, Red)
  }

  lemma RedSisterPaintAt(h: Heap, z: Ctx, f: Tree, nil: DNode)
    requires At(h, z, f, nil) && z.In? && z.sib.Bin?
    ensures z.sib.e.node in h && z.e.node in h && z.sib.e.node != nil && z.e.node != nil
    ensures At(RedSisterPaint(h, z), z.up, Whole(z.(c := Red, sib := z.sib.(c := Black)), f), nil)
  {
    PaintSiblingAt(h, z, f, Black, nil);
    var h1, z1 := Painted(h, z.sib.e.node, Black), z.(sib := z.sib.(c := Black));
    PaintParentAt(h1, z1, f, Red, nil);
    Ascend(Painted(h1, z.e.node, Red), z1.(c := Red), f, nil);
    SidestepAt(h, z, f, nil);
  }

  lemma RedSisterCan(h: Heap, z: Ctx, f: Tree, bh: nat, nil: DNode, entries: seq<Entry>)
    requires Deleting(h, z, f, bh, nil, entries) && z.In? && z.sib.Bin?
    ensures z.sib.e.node in h && z.e.node in h
    ensures var h1 := RedSisterPaint(h, z);
      CanRotate(h1, z.side, z.e.node) && h1[h1[z.e.node].parent].left != h1[h1[z.e.node].parent].right
  {
    RedSisterPaintAt(h, z, f, nil);
    RotateReady(RedSisterPaint(h, z), z.side, z.up, Whole(z.(c := Red, sib := z.sib.(c := Black)), f), nil);
  }

  lemma RedSisterAt(h: Heap, h': Heap, z: Ctx, f: Tree, nil: DNode)
    requires At(h, z, f, nil) && z.In? && z.sib.Bin? && z.sib.e.node in h && z.e.node in h
    requires Rotation(RedSisterPaint(h, z), h', z.side, z.e.node)
    ensures At(h', RedSister(z), f, nil) && h'[nil].color == h[nil].color
  {
    var w := Whole(z.(c := Red, sib := z.sib.(c := Black)), f);
    RedSisterPaintAt(h, z, f, nil);
    RotateAt(RedSisterPaint(h, z), h', z.side, z.up, w, nil);
    assert Rotated(z.side, w) == Whole(RedSister(z).up, Whole(RedSister(z), f));
    Ascend(h', RedSister(z), f, nil);
    Ascend(h', RedSister(z).up, Whole(RedSister(z), f), nil);
  }

  lemma RedSisterInOrder(z: Ctx, f: Tree)
    requires z.In? && z.sib.Bin?
    ensures InOrder(Plug(RedSister(z), f)) == InOrder(Plug(z, f))
  {
    var w := Whole(z.(c := Red, sib := z.sib.(c := Black)), f);
    assert Rotated(z.side, w) == Whole(RedSister(z).up, Whole(RedSister(z), f));
    InOrderRotated(z.side, w);
    InOrderColor(z.sib, Black);
    InOrderPlug(z.up, Whole(z, f));
    InOrderPlug(z.up, Rotated(z.side, w));
  }

  lemma RedSisterRedBlack(z: Ctx, bh: nat)
    requires CtxRedBlack(z, bh + 1) && bh >= 1 && z.In? && z.sib.Bin? && z.sib.c.Red?
    ensures CtxRedBlack(RedSister(z), bh + 1)
    ensures RedSister(z).sib.Bin? && RedSister(z).sib.c.Black?
  {
    assert RedBlack(z.sib.l, bh + 1) && RedBlack(z.sib.r, bh + 1) && IsBlack(z.sib.l) && IsBlack(z.sib.r);
    assert CtxRedBlack(RedSister(z).up, bh + 1);
  }

  lemma RedSisterStep(h: Heap, h': Heap, z: Ctx, f: Tree, bh: nat, nil: DNode, entries: seq<Entry>)
    requires Deleting(h, z, f, bh, nil, entries) && IsBlack(f) && z.In? && z.sib.Bin? && z.sib.c.Red?
    requires z.sib.e.node in h && z.e.node in h && Rotation(RedSisterPaint(h, z), h', z.side, z.e.node)
    ensures Deleting(h', RedSister(z), f, bh, nil, entries)
    ensures RedSister(z).sib.Bin? && RedSister(z).sib.c.Black?
  {
    RedSisterAt(h, h', z, f, nil);
    RedSisterInOrder(z, f);
    HeightUnique(f, bh);
    RedSisterRedBlack(z, bh);
  }

  // ---- both nephews are black: the missing black moves up

  ghost function RedderSister(z: Ctx): Ctx
    requires z.In? && z.sib.Bin?
  {
    z.(sib := z.sib.(c := Red))
  }

  lemma BlackNephewsRedBlack(z: Ctx, f: Tree, bh: nat)
    requires RedBlack(f, bh) && IsBlack(f) && CtxRedBlack(z, bh + 1) && z.In? && z.sib.Bin? && z.sib.c.Black?
    requires IsBlack(z.sib.l) && IsBlack(z.sib.r)
    ensures var bh' := if z.c.Black? then bh + 1 else bh;
      Deficient(Whole(RedderSister(z), f), bh') && CtxRedBlack(z.up, bh' + 1)
  {
    assert RedBlack(RedderSister(z).sib, bh);
  }

  lemma BlackNephewsAt(h: Heap, z: Ctx, f: Tree, nil: DNode)
    requires At(h, z, f, nil) && z.In? && z.sib.Bin?
    ensures z.sib.e.node in h && z.sib.e.node != nil
    ensures At(Painted(h, z.sib.e.node, Red), z.up, Whole(RedderSister(z), f), nil)
    ensures InOrder(Plug(z.up, Whole(RedderSister(z), f))) == InOrder(Plug(z, f))
  {
    PaintSiblingAt(h, z, f, Red, nil);
    Ascend(Painted(h, z.sib.e.node, Red), RedderSister(z), f, nil);
    InOrderColor(z.sib, Red);
    InOrderPlug(z.up, Whole(z, f));
    InOrderPlug(z.up, Whole(RedderSister(z), f));
    SidestepAt(h, z, f, nil);
  }

  lemma BlackNephewsStep(h: Heap, z: Ctx, f: Tree, bh: nat, nil: DNode, entries: seq<Entry>)
    requires Deleting(h, z, f, bh, nil, entries) && IsBlack(f) && z.In? && z.sib.Bin? && z.sib.c.Black?
    requires IsBlack(z.sib.l) && IsBlack(z.sib.r)
    ensures z.sib.e.node in h
    ensures Deleting(Painted(h, z.sib.e.node, Red), z.up, Whole(RedderSister(z), f),
      if z.c.Black? then bh + 1 else bh, nil, entries)
  {
    BlackNephewsAt(h, z, f, nil);
    BlackNephewsRedBlack(z, f, bh);
  }

  // ---- the inner nephew is red, the outer one black: the inner one becomes the sister

  ghost function InnerNephew(z: Ctx): Ctx
    requires z.In? && z.sib.Bin? && Upper(z.side, z.sib).Bin?
  {
    var d, s, n := z.side, z.sib, Upper(z.side, z.sib);
    z.(sib := Mk(d, Upper(d, n), Black, n.e, Mk(d, Lower(d, n), Red, s.e, Lower(d, s))))
  }

  ghost function InnerNephewPaint(h: Heap, z: Ctx): Heap
    requires z.In? && z.sib.Bin? && Upper(z.side, z.sib).Bin?
    requires z.sib.e.node in h && Upper(z.side, z.sib).e.node in h
  {
    Painted(Painted(h, Upper(z.side, z.sib).e.node, Black), z.sib.e.node, Red)
  }

  ghost function InnerPainted(z: Ctx): Tree
    requires z.In? && z.sib.Bin? && Upper(z.side, z.sib).Bin?
  {
    Mk(z.side, Upper(z.side, z.sib).(c := Black), Red, z.sib.e, Lower(z.side, z.sib))
  }

  lemma InnerNephewPaintAt(h: Heap, z: Ctx, f: Tree, nil: DNode)
    requires At(h, z, f, nil) && z.In? && z.sib.Bin? && Upper(z.side, z.sib).Bin?
    ensures z.sib.e.node in h && Upper(z.side, z.sib).e.node in h
    ensures z.sib.e.node != nil && Upper(z.side, z.sib).e.node != nil
    ensures At(InnerNephewPaint(h, z), Across(z, f), InnerPainted(z), nil)
  {
    var d, s, n := z.side, z.sib, Upper(z.side, z.sib);
    NephewAt(h, z, f, d, nil);
    var y := In(d, Across(z, f), s.c, s.e, Lower(d, s));
    PaintAt(h, y, n, Black, nil);
    var h1 := Painted(h, n.e.node, Black);
    PaintParentAt(h1, y, n.(c := Black), Red, nil);
    Ascend(Painted(h1, s.e.node, Red), y.(c := Red), n.(c := Black), nil);
  }

  lemma InnerNephewCan(h: Heap, z: Ctx, f: Tree, bh: nat, nil: DNode, entries: seq<Entry>)
    requires Deleting(h, z, f, bh, nil, entries) && z.In? && z.sib.Bin? && Upper(z.side, z.sib).Bin?
    ensures z.sib.e.node in h && Upper(z.side, z.sib).e.node in h
    ensures var h1 := InnerNephewPaint(h, z);
      CanRotate(h1, Opposite(z.side), z.sib.e.node)
      && h1[h1[z.sib.e.node].parent].left != h1[h1[z.sib.e.node].parent].right
  {
    InnerNephewPaintAt(h, z, f, nil);
    RotateReady(InnerNephewPaint(h, z), Opposite(z.side), Across(z, f), InnerPainted(z), nil);
  }

  lemma InnerNephewRedBlack(z: Ctx, bh: nat)
    requires CtxRedBlack(z, bh + 1) && z.In? && z.sib.Bin? && z.sib.c.Black?
    requires var n := Upper(z.side, z.sib); n.Bin? && n.c.Red?
    requires IsBlack(Lower(z.side, z.sib))
    ensures CtxRedBlack(InnerNephew(z), bh + 1)
  {
    var d, n := z.side, Upper(z.side, z.sib);
    assert RedBlack(n, bh) && RedBlack(Lower(d, z.sib), bh);
    assert RedBlack(Mk(d, Lower(d, n), Red, z.sib.e, Lower(d, z.sib)), bh);
  }

  lemma InnerNephewAt(h: Heap, h': Heap, z: Ctx, f: Tree, nil: DNode)
    requires At(h, z, f, nil) && z.In? && z.sib.Bin?
    requires var n := Upper(z.side, z.sib); n.Bin? && n.e.node in h && z.sib.e.node in h
    requires Rotation(InnerNephewPaint(h, z), h', Opposite(z.side), z.sib.e.node)
    ensures At(h', InnerNephew(z), f, nil) && h'[nil].color == h[nil].color
    ensures InOrder(Plug(InnerNephew(z), f)) == InOrder(Plug(z, f))
  {
    var d := z.side;
    InnerNephewPaintAt(h, z, f, nil);
    RotateAt(InnerNephewPaint(h, z), h', Opposite(d), Across(z, f), InnerPainted(z), nil);
    assert Rotated(Opposite(d), InnerPainted(z)) == InnerNephew(z).sib;
    SidestepAt(h', InnerNephew(z), f, nil);
    InOrderRotated(Opposite(d), InnerPainted(z));
    InOrderColor(Upper(d, z.sib), Black);
    InOrderColor(z.sib, Red);
    InOrderPlug(z, f);
    InOrderPlug(InnerNephew(z), f);
  }

  lemma InnerNephewStep(h: Heap, h': Heap, z: Ctx, f: Tree, bh: nat, nil: DNode, entries: seq<Entry>)
    requires Deleting(h, z, f, bh, nil, entries) && IsBlack(f) && z.In? && z.sib.Bin? && z.sib.c.Black?
    requires var n := Upper(z.side, z.sib); n.Bin? && n.c.Red? && n.e.node in h && z.sib.e.node in h
    requires IsBlack(Lower(z.side, z.sib))
    requires Rotation(InnerNephewPaint(h, z), h', Opposite(z.side), z.sib.e.node)
    ensures Deleting(h', InnerNephew(z), f, bh, nil, entries)
  {
    InnerNephewAt(h, h', z, f, nil);
    InnerNephewRedBlack(z, bh);
  }

  // ---- the outer nephew is red: one rotation makes up for the missing black

  ghost function OuterNephew(z: Ctx, f: Tree): Tree
    requires z.In? && z.sib.Bin? && Lower(z.side, z.sib).Bin?
  {
    var d, s := z.side, z.sib;
    Mk(d, Mk(d, f, Black, z.e, Upper(d, s)), z.c, s.e, Lower(d, s).(c := Black))
  }

  ghost function OuterNephewPaint(h: Heap, z: Ctx): Heap
    requires z.In? && z.sib.Bin? && Lower(z.side, z.sib).Bin?
    requires z.sib.e.node in h && Lower(z.side, z.sib).e.node in h && z.e.node in h
  {
    Painted(Painted(Painted(h, z.sib.e.node, z.c), Lower(z.side, z.sib).e.node, Black), z.e.node, Black)
  }

  ghost function OuterPainted(z: Ctx): Ctx
    requires z.In? && z.sib.Bin? && Lower(z.side, z.sib).Bin?
  {
    z.(c := Black, sib := Mk(z.side, Upper(z.side, z.sib), z.c, z.sib.e, Lower(z.side, z.sib).(c := Black)))
  }

  lemma OuterNephewPaintAt(h: Heap, z: Ctx, f: Tree, nil: DNode)
    requires At(h, z, f, nil) && z.In? && z.sib.Bin? && Lower(z.side, z.sib).Bin?
    ensures z.sib.e.node in h && Lower(z.side, z.sib).e.node in h && z.e.node in h
    ensures nil !in {z.sib.e.node, Lower(z.side, z.sib).e.node, z.e.node}
    ensures At(OuterNephewPaint(h, z), z.up, Whole(OuterPainted(z), f), nil)
  {
    var d, s, w := z.side, z.sib, Lower(z.side, z.sib);
    PaintSiblingAt(h, z, f, z.c, nil);
    var h1, z1 := Painted(h, s.e.node, z.c), z.(sib := s.(c := z.c));
    NephewAt(h1, z1, f, Opposite(d), nil);
    var y := In(Opposite(d), Across(z1, f), z.c, s.e, Upper(d, s));
    PaintAt(h1, y, w, Black, nil);
    var h2 := Painted(h1, w.e.node, Black);
    Ascend(h2, y, w.(c := Black), nil);
    var z2 := z1.(sib := Whole(y, w.(c := Black)));
    SidestepAt(h2, z2, f, nil);
    PaintParentAt(h2, z2, f, Black, nil);
    Ascend(Painted(h2, z.e.node, Black), OuterPainted(z), f, nil);
  }

  lemma OuterNephewCan(h: Heap, z: Ctx, f: Tree, bh: nat, nil: DNode, entries: seq<Entry>)
    requires Deleting(h, z, f, bh, nil, entries) && z.In? && z.sib.Bin? && Lower(z.side, z.sib).Bin?
    ensures z.sib.e.node in h && Lower(z.side, z.sib).e.node in h && z.e.node in h
    ensures var h1 := OuterNephewPaint(h, z);
      CanRotate(h1, z.side, z.e.node) && h1[h1[z.e.node].parent].left != h1[h1[z.e.node].parent].right
  {
    OuterNephewPaintAt(h, z, f, nil);
    RotateReady(OuterNephewPaint(h, z), z.side, z.up, Whole(OuterPainted(z), f), nil);
  }

  lemma OuterNephewAt(h: Heap, h': Heap, z: Ctx, f: Tree, nil: DNode)
    requires At(h, z, f, nil) && z.In? && z.sib.Bin? && Lower(z.side, z.sib).Bin?
    requires z.sib.e.node in h && Lower(z.side, z.sib).e.node in h && z.e.node in h
    requires Rotation(OuterNephewPaint(h, z), h', z.side, z.e.node)
    ensures At(h', z.up, OuterNephew(z, f), nil) && h'[nil].color == h[nil].color
    ensures InOrder(Plug(z.up, OuterNephew(z, f))) == InOrder(Plug(z, f))
    ensures f.Bin? ==> f.e.node in h' && h'[f.e.node].color == f.c
  {
    var w := Whole(OuterPainted(z), f);
    OuterNephewPaintAt(h, z, f, nil);
    RotateAt(OuterNephewPaint(h, z), h', z.side, z.up, w, nil);
    assert Rotated(z.side, w) == OuterNephew(z, f);
    InOrderRotated(z.side, w);
    InOrderColor(Lower(z.side, z.sib), Black);
    InOrderPlug(z.up, Whole(z, f));
    InOrderPlug(z.up, OuterNephew(z, f));
    assert Linked(h', Mk(z.side, f, Black, z.e, Upper(z.side, z.sib)), z.sib.e.node, nil);
    assert Linked(h', f, z.e.node, nil);
  }

  lemma OuterNephewRedBlack(z: Ctx, f: Tree, bh: nat)
    requires RedBlack(f, bh) && IsBlack(f) && CtxRedBlack(z, bh + 1) && z.In? && z.sib.Bin? && z.sib.c.Black?
    requires var w := Lower(z.side, z.sib); w.Bin? && w.c.Red?
    ensures var bh' := if z.c.Black? then bh + 2 else bh + 1;
      CtxRedBlack(z.up, bh') && RedBlack(OuterNephew(z, f), bh')
    ensures BlackHole(z.up) ==> IsBlack(OuterNephew(z, f))
  {
    var d, w := z.side, Lower(z.side, z.sib);
    assert RedBlack(w, bh) && RedBlack(Upper(d, z.sib), bh);
    assert RedBlack(w.(c := Black), bh + 1) && RedBlack(Mk(d, f, Black, z.e, Upper(d, z.sib)), bh + 1);
  }

  lemma OuterNephewStep(h: Heap, h': Heap, z: Ctx, f: Tree, bh: nat, nil: DNode, entries: seq<Entry>)
    requires Deleting(h, z, f, bh, nil, entries) && IsBlack(f) && z.In? && z.sib.Bin? && z.sib.c.Black?
    requires var w := Lower(z.side, z.sib); w.Bin? && w.c.Red? && w.e.node in h && z.sib.e.node in h && z.e.node in h
    requires Rotation(OuterNephewPaint(h, z), h', z.side, z.e.node)
    ensures Rebalanced(h', Plug(z.up, OuterNephew(z, f)), nil, entries) && entries != []
    ensures Root(f, nil) in h' && h'[Root(f, nil)].color == Black
  {
    OuterNephewAt(h, h', z, f, nil);
    OuterNephewRedBlack(z, f, bh);
    InOrderPlug(z.up, OuterNephew(z, f));
    PlugValid(z.up, OuterNephew(z, f), if z.c.Black? then bh + 2 else bh + 1);
    PlugAt(h', z.up, OuterNephew(z, f), nil);
  }

  // ---- the node is red (or the tree is empty): it is painted black

  lemma DeleteDone(h: Heap, z: Ctx, f: Tree, bh: nat, nil: DNode, entries: seq<Entry>)
    requires Deleting(h, z, f, bh, nil, entries) && !(IsBlack(f) && z.In?)
    ensures Root(f, nil) in h
    ensures Rebalanced(Painted(h, Root(f, nil), Black), Plug(z, Blacken(f)), nil, entries)
    ensures entries == [] ==> z.Top? && f.Leaf?
  {
    InOrderPlug(z, f);
    var h' := Painted(h, Root(f, nil), Black);
    if f.Bin? {
      PaintAt(h, z, f, Black, nil);
      PlugValid(z, Blacken(f), bh + 1);
      PlugAt(h', z, Blacken(f), nil);
      InOrderColor(f, Black);
      InOrderPlug(z, Blacken(f));
    }
  }

  // ---------------------------------------------------------------- painting the root red

  ghost function RedRoot(z: Ctx): Ctx
    requires z.In?
  {
    if z.up.Top? then z.(c := Red) else z.(up := RedRoot(z.up))
  }

  lemma {:induction false} RedRootPlug(z: Ctx, g: Tree)
    requires z.In?
    ensures Plug(z, g).Bin? && Plug(RedRoot(z), g) == Plug(z, g).(c := Red)
    ensures RootColor(RedRoot(z)) == Red
  {
    if z.up.In? {
      RedRootPlug(z.up, Whole(z, g));
    }
  }

  lemma {:induction false} RedRootRedBlack(z: Ctx, h: nat)
    requires z.In? && CtxRedBlack(z, h)
    ensures CtxRedBlack(RedRoot(z), h)
    ensures z.up.In? ==> BlackHole(RedRoot(z)) == BlackHole(z)
  {
    if z.up.In? {
      RedRootRedBlack(z.up, if z.c.Black? then h + 1 else h);
    }
  }

  // A black node was taken out and the root painted red: the loop can start.
  ghost function StartCtx(z: Ctx): Ctx { if z.In? then RedRoot(z) else z }
  ghost function StartTree(z: Ctx, g: Tree): Tree { if z.Top? && g.Bin? then g.(c := Red) else g }

  lemma StartDeleting(h: Heap, z: Ctx, g: Tree, nil: DNode, entries: seq<Entry>)
    requires Removed(h, z, g, Black, nil, entries)
    ensures nil in h && h[nil].left in h && h[nil].left != null
    ensures Deleting(Painted(h, h[nil].left, Red), StartCtx(z), StartTree(z, g), 1, nil, entries)
    ensures Root(StartTree(z, g), nil) == Root(g, nil) && Root(g, nil) in h
    ensures StartTree(z, g).Leaf? ==> h[nil].parent == Parent(StartCtx(z), nil)
  {
    var t := Plug(z, g);
    if g.Bin? && g.c.Black? { HeightUnique(g.l, 0); }
    PlugAt(h, z, g, nil);
    ParentAt(h, z, g, nil);
    if t.Bin? {
      PaintAt(h, Top, t, Red, nil);
      InOrderColor(t, Red);
    }
    if z.In? {
      RedRootPlug(z, g);
      RedRootRedBlack(z, 2);
      PlugAt(Painted(h, t.e.node, Red), RedRoot(z), g, nil);
    }
  }

  // A red node was taken out: nothing to adjust.
  lemma RedRemoved(h: Heap, z: Ctx, g: Tree, nil: DNode, entries: seq<Entry>)
    requires Removed(h, z, g, Red, nil, entries)
    ensures Adjusted(h, Plug(z, g), nil, entries)
  {
    PlugAt(h, z, g, nil);
    PlugValid(z, g, 1);
    BlackRootPlug(z, g);
  }

  lemma {:induction false} BlackRootPlug(z: Ctx, g: Tree)
    requires z.In?
    ensures Plug(z, g).Bin? && Plug(z, g).c == RootColor(z)
  {
    if z.up.In? {
      BlackRootPlug(z.up, Whole(z, g));
    }
  }

  // What either way of adjusting ends with.
  ghost predicate Adjusted(h: Heap, t: Tree, nil: DNode, entries: seq<Entry>)
  {
    && At(h, Top, t, nil) && h[nil].color == Black && (t.Leaf? ==> h[nil].parent == nil)
    && ValidTree(t) && InOrder(t) == entries
  }

  lemma BlackRoot(h: Heap, t: Tree, nil: DNode, entries: seq<Entry>)
    requires Rebalanced(h, t, nil, entries) && (entries == [] ==> h[nil].parent == nil)
    ensures nil in h && h[nil].left in h && h[nil].left != null
    ensures Adjusted(Painted(h, h[nil].left, Black), Blacken(t), nil, entries)
  {
    if t.Bin? {
      PaintAt(h, Top, t, Black, nil);
    }
  }

  lemma SortedCut(s: seq<Entry>, k: int, cmp: Comparator, dupes: bool)
    requires Sorted(s, cmp, dupes) && 0 <= k < |s|
    ensures Sorted(s[..k] + s[k + 1..], cmp, dupes)
  {
  }

  lemma AdjustedInOrder(h: Heap, t: Tree, nil: DNode, entries: seq<Entry>)
    requires Adjusted(h, t, nil, entries)
    ensures InOrder(t) == entries
  {
  }

  lemma AdjustedNodes(h: Heap, z: Ctx, g: Tree, c: Color, nil: DNode, entries: seq<Entry>, t: Tree)
    requires Removed(h, z, g, c, nil, entries) && InOrder(t) == entries
    ensures Nodes(t) == CtxNodes(z) + Nodes(g)
  {
    NodesPlug(z, g);
    NodesInOrder(t);
    NodesInOrder(Plug(z, g));
  }
}
