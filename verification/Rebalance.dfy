/**
  One step of each rebalancing loop of src/adt/dict.c, on the linked nodes and on the red-black
  conditions. `d` is the side of the grandparent (insertion) or parent (deletion) on which the
  loop's node is; the source spells out both sides.
 */
module Rebalance {
  import opened RedBlackTree

  // The same owner, seen from its other child.
  ghost function Across(z: Ctx, f: Tree): Ctx
    requires z.In?
  {
    In(Opposite(z.side), z.up, z.c, z.e, f)
  }

  lemma SidestepAt(h: Heap, z: Ctx, f: Tree, nil: DNode)
    requires z.In?
    ensures At(h, z, f, nil) <==> At(h, Across(z, f), z.sib, nil)
  {
    Ascend(h, z, f, nil);
    Ascend(h, Across(z, f), z.sib, nil);
    assert Whole(z, f) == Whole(Across(z, f), z.sib);
  }

  // Painting the owner of the hole, and the other tree it owns.
  lemma PaintParentAt(h: Heap, z: Ctx, f: Tree, c: Color, nil: DNode)
    requires At(h, z, f, nil) && z.In?
    ensures At(Painted(h, z.e.node, c), z.(c := c), f, nil)
  {
    Ascend(h, z, f, nil);
    PaintAt(h, z.up, Whole(z, f), c, nil);
    Ascend(Painted(h, z.e.node, c), z.(c := c), f, nil);
  }

  lemma PaintSiblingAt(h: Heap, z: Ctx, f: Tree, c: Color, nil: DNode)
    requires At(h, z, f, nil) && z.In? && z.sib.Bin?
    ensures z.sib.e.node in h
    ensures At(Painted(h, z.sib.e.node, c), z.(sib := z.sib.(c := c)), f, nil)
  {
    SidestepAt(h, z, f, nil);
    PaintAt(h, Across(z, f), z.sib, c, nil);
    SidestepAt(Painted(h, z.sib.e.node, c), z.(sib := z.sib.(c := c)), f, nil);
  }

  // What the links around a position say about the owner of the hole,
  lemma ParentAt(h: Heap, z: Ctx, f: Tree, nil: DNode)
    requires At(h, z, f, nil)
    ensures Parent(z, nil) in h && Root(f, nil) in h
    ensures nil in h && h[nil].right == nil && (z.Top? ==> h[nil].left == Root(f, nil))
    ensures z.In? ==>
      && h[z.e.node].color == z.c && h[z.e.node].parent == Parent(z.up, nil)
      && Kid(h[z.e.node], z.side) == Root(f, nil) && Kid(h[z.e.node], Opposite(z.side)) == Root(z.sib, nil)
      && Root(z.sib, nil) in h && z.e.node != nil
      && (f.Bin? ==> Root(f, nil) != Root(z.sib, nil))
      && (z.sib.Bin? ==> h[z.sib.e.node].color == z.sib.c)
  {
    assert z.In? ==> Linked(h, z.sib, z.e.node, nil);
  }

  // ... and about its owner.
  lemma GrandparentAt(h: Heap, z: Ctx, f: Tree, nil: DNode)
    requires At(h, z, f, nil) && z.In? && z.up.In?
    ensures z.up.e.node in h && Root(z.up.sib, nil) in h
    ensures h[z.up.e.node].parent == Parent(z.up.up, nil) && Parent(z.up.up, nil) in h
    ensures h[z.up.e.node].left == z.e.node <==> z.up.side.L?
    ensures Kid(h[z.up.e.node], Opposite(z.up.side)) == Root(z.up.sib, nil)
    ensures z.up.sib.Bin? ==> h[z.up.sib.e.node].color == z.up.sib.c
  {
    Ascend(h, z, f, nil);
    ParentAt(h, z.up, Whole(z, f), nil);
    ParentAt(h, z, f, nil);
    if z.up.up.In? {
      Ascend(h, z.up, Whole(z, f), nil);
      ParentAt(h, z.up.up, Whole(z.up, Whole(z, f)), nil);
    }
  }

  // ---------------------------------------------------------------- insertion

  // Red parent, red uncle: where the recoloured tree hangs, and what it is.
  ghost function Recolored(z: Ctx, f: Tree): Tree
    requires z.In? && z.up.In? && z.up.sib.Bin?
  {
    Mk(z.up.side, Whole(z.(c := Black), f), Red, z.up.e, z.up.sib.(c := Black))
  }

  lemma RecolorAt(h: Heap, z: Ctx, f: Tree, nil: DNode)
    requires At(h, z, f, nil) && z.In? && z.up.In? && z.up.sib.Bin?
    ensures z.e.node in h && z.up.sib.e.node in h && z.up.e.node in h
    ensures var h' := Painted(Painted(Painted(h, z.e.node, Black), z.up.sib.e.node, Black), z.up.e.node, Red);
      At(h', z.up.up, Recolored(z, f), nil)
  {
    PaintParentAt(h, z, f, Black, nil);
    var h1, p := Painted(h, z.e.node, Black), Whole(z.(c := Black), f);
    Ascend(h1, z.(c := Black), f, nil);
    PaintSiblingAt(h1, z.up, p, Black, nil);
    var h2, z2 := Painted(h1, z.up.sib.e.node, Black), z.up.(sib := z.up.sib.(c := Black));
    PaintParentAt(h2, z2, p, Red, nil);
    Ascend(Painted(h2, z.up.e.node, Red), z2.(c := Red), p, nil);
  }

  lemma InOrderRecolored(z: Ctx, f: Tree)
    requires z.In? && z.up.In? && z.up.sib.Bin?
    ensures InOrder(Plug(z.up.up, Recolored(z, f))) == InOrder(Plug(z, f))
  {
    InOrderPlug(z.up.up, Recolored(z, f));
    InOrderPlug(z.up.up, Whole(z.up, Whole(z, f)));
    InOrderColor(z.up.sib, Black);
    InOrderColor(Whole(z, f), Black);
    InOrderColor(Recolored(z, f), z.up.c);
  }

  lemma InOrderColor(t: Tree, c: Color)
    requires t.Bin?
    ensures InOrder(t.(c := c)) == InOrder(t)
  {
  }

  lemma RecolorRedBlack(z: Ctx, f: Tree, h: nat)
    requires CtxRedBlack(z, h) && RedBlack(f, h) && z.In? && z.c.Red? && RootColor(z) == Black
    requires z.up.In? && z.up.sib.Bin? && z.up.sib.c.Red?
    ensures CtxRedBlack(z.up.up, h + 1) && RedBlack(Recolored(z, f), h + 1)
    ensures z.up.up.In? ==> RootColor(z.up.up) == Black
  {
    assert z.up.c.Black?;
    assert RedBlack(Whole(z.(c := Black), f), h + 1);
  }

  // The node is the inner grandchild: after rotating the parent, the parent is the outer one.
  ghost function InnerCtx(z: Ctx, f: Tree): Ctx
    requires z.In? && z.up.In? && f.Bin?
  {
    In(z.up.side, z.up, f.c, f.e, Lower(z.up.side, f))
  }

  ghost function InnerTree(z: Ctx, f: Tree): Tree
    requires z.In? && z.up.In? && f.Bin?
  {
    Mk(z.up.side, z.sib, z.c, z.e, Upper(z.up.side, f))
  }

  lemma InnerReady(h: Heap, z: Ctx, f: Tree, nil: DNode)
    requires At(h, z, f, nil) && z.In? && z.up.In? && f.Bin? && z.side != z.up.side
    ensures CanRotate(h, z.up.side, z.e.node)
    ensures h[z.up.e.node].left != h[z.up.e.node].right && h[z.e.node].parent == z.up.e.node
  {
    Ascend(h, z, f, nil);
    RotateReady(h, z.up.side, z.up, Whole(z, f), nil);
  }

  lemma InnerAt(h: Heap, h': Heap, z: Ctx, f: Tree, nil: DNode)
    requires At(h, z, f, nil) && z.In? && z.up.In? && f.Bin? && z.side != z.up.side
    requires Rotation(h, h', z.up.side, z.e.node)
    ensures At(h', InnerCtx(z, f), InnerTree(z, f), nil) && h'[nil].color == h[nil].color
    ensures InOrder(Plug(InnerCtx(z, f), InnerTree(z, f))) == InOrder(Plug(z, f))
  {
    var d := z.up.side;
    Ascend(h, z, f, nil);
    RotateAt(h, h', d, z.up, Whole(z, f), nil);
    InOrderRotated(d, Whole(z, f));
    assert Whole(InnerCtx(z, f), InnerTree(z, f)) == Rotated(d, Whole(z, f));
    InOrderPlug(z.up, Whole(z, f));
    InOrderPlug(z.up, Rotated(d, Whole(z, f)));
    Ascend(h', InnerCtx(z, f), InnerTree(z, f), nil);
  }

  lemma InnerRedBlack(z: Ctx, f: Tree, h: nat)
    requires CtxRedBlack(z, h) && RedBlack(f, h) && f.Bin? && f.c.Red?
    requires z.In? && z.c.Red? && z.up.In?
    ensures CtxRedBlack(InnerCtx(z, f), h) && RedBlack(InnerTree(z, f), h)
  {
  }

  // The node is the outer grandchild: parent painted black, grandparent red and rotated away.
  ghost function Outer(z: Ctx, f: Tree): Tree
    requires z.In? && z.up.In?
  {
    Mk(z.side, f, Black, z.e, Mk(z.side, z.sib, Red, z.up.e, z.up.sib))
  }

  ghost function OuterBefore(z: Ctx, f: Tree): Tree
    requires z.In? && z.up.In?
  {
    Whole(z.up.(c := Red), Whole(z.(c := Black), f))
  }

  lemma OuterPaintAt(h: Heap, z: Ctx, f: Tree, nil: DNode)
    requires At(h, z, f, nil) && z.In? && z.up.In?
    ensures z.e.node in h && z.up.e.node in h
    ensures At(Painted(Painted(h, z.e.node, Black), z.up.e.node, Red), z.up.up, OuterBefore(z, f), nil)
  {
    PaintParentAt(h, z, f, Black, nil);
    var h1, p := Painted(h, z.e.node, Black), Whole(z.(c := Black), f);
    Ascend(h1, z.(c := Black), f, nil);
    PaintParentAt(h1, z.up, p, Red, nil);
    Ascend(Painted(h1, z.up.e.node, Red), z.up.(c := Red), p, nil);
  }

  lemma OuterAt(h: Heap, h': Heap, z: Ctx, f: Tree, nil: DNode)
    requires z.In? && z.up.In? && z.side == z.up.side
    requires At(h, z.up.up, OuterBefore(z, f), nil)
    requires Rotation(h, h', Opposite(z.side), z.up.e.node)
    ensures At(h', z.up.up, Outer(z, f), nil) && h'[nil].color == h[nil].color
    ensures InOrder(Plug(z.up.up, Outer(z, f))) == InOrder(Plug(z, f))
  {
    RotateAt(h, h', Opposite(z.side), z.up.up, OuterBefore(z, f), nil);
    assert Rotated(Opposite(z.side), OuterBefore(z, f)) == Outer(z, f);
    InOrderRotated(Opposite(z.side), OuterBefore(z, f));
    InOrderPlug(z.up.up, Outer(z, f));
    InOrderPlug(z.up.up, Whole(z.up, Whole(z, f)));
  }

  lemma OuterRedBlack(z: Ctx, f: Tree, h: nat)
    requires CtxRedBlack(z, h) && RedBlack(f, h) && z.In? && z.c.Red? && RootColor(z) == Black
    requires z.up.In? && IsBlack(z.up.sib)
    ensures CtxRedBlack(z.up.up, h + 1) && RedBlack(Outer(z, f), h + 1)
  {
    assert z.up.c.Black?;
  }

  // What the loop of dict_insert keeps: the dictionary, seen from a red node, is in order and
  // red-black except that the node's parent may be red too.
  ghost predicate Inserting(h: Heap, z: Ctx, f: Tree, bh: nat, nil: DNode, entries: seq<Entry>)
  {
    && At(h, z, f, nil) && h[nil].color == Black
    && CtxRedBlack(z, bh) && RedBlack(f, bh) && f.Bin? && f.c.Red?
    && (z.In? ==> RootColor(z) == Black)
    && InOrder(Plug(z, f)) == entries
  }

  // What both rebalancing loops end with: only the root may still have the wrong colour.
  ghost predicate Rebalanced(h: Heap, t: Tree, nil: DNode, entries: seq<Entry>)
  {
    At(h, Top, t, nil) && h[nil].color == Black && ValidTree(Blacken(t)) && InOrder(t) == entries
  }

  lemma LinkAt(h: Heap, h': Heap, z: Ctx, e: Entry, nil: DNode)
    requires At(h, z, Leaf, nil)
    requires e.node !in CtxNodes(z) && e.node != nil && nil in h'
    requires e.node in h' && h'[e.node] == Cell(nil, nil, Parent(z, nil), Red, e.key)
    requires Parent(z, nil) in h && Parent(z, nil) in h'
    requires h'[Parent(z, nil)] == WithKid(h[Parent(z, nil)], if z.Top? then L else z.side, e.node)
    requires Agree(h, h', CtxNodes(z) + {nil} - {Parent(z, nil)})
    ensures At(h', z, Bin(Leaf, Red, e, Leaf), nil) && h'[nil].color == h[nil].color
  {
    var f := Bin(Leaf, Red, e, Leaf);
    Rehang(h, h', z, nil, e.node, nil);
    assert Nodes(f) == {e.node};
    assert Linked(h', f, Parent(z, nil), nil);
  }

  lemma LinkStep(h: Heap, z: Ctx, e: Entry, nil: DNode)
    requires At(h, z, Bin(Leaf, Red, e, Leaf), nil) && h[nil].color == Black && ValidTree(Plug(z, Leaf))
    ensures Inserting(h, z, Bin(Leaf, Red, e, Leaf), 1, nil, Before(z) + [e] + After(z))
  {
    UnplugValid(z, Leaf);
    InOrderPlug(z, Bin(Leaf, Red, e, Leaf));
  }

  // Blackening the root finishes both operations.
  lemma RootAt(h: Heap, t: Tree, nil: DNode, entries: seq<Entry>)
    requires Rebalanced(h, t, nil, entries) && entries != []
    ensures t.Bin? && h[nil].left == t.e.node && t.e.node in h && t.e.node != nil
    ensures At(Painted(h, t.e.node, Black), Top, Blacken(t), nil) && h[nil].color == Black
    ensures ValidTree(Blacken(t)) && InOrder(Blacken(t)) == entries
  {
    PaintAt(h, Top, t, Black, nil);
  }

  lemma InsertView(h: Heap, z: Ctx, f: Tree, bh: nat, nil: DNode, entries: seq<Entry>)
    requires Inserting(h, z, f, bh, nil, entries)
    ensures Parent(z, nil) in h && Root(f, nil) in h
    ensures h[Parent(z, nil)].color == Red <==> z.In? && z.c.Red?
    ensures z.In? && z.c.Red? ==>
      && z.up.In? && f.Bin?
      && h[z.e.node].parent == z.up.e.node && z.up.e.node in h && Parent(z.up.up, nil) in h
      && h[z.up.e.node].parent == Parent(z.up.up, nil)
      && (h[z.up.e.node].left == z.e.node <==> z.up.side.L?)
      && Kid(h[z.up.e.node], Opposite(z.up.side)) == Root(z.up.sib, nil) && Root(z.up.sib, nil) in h
      && (h[Root(z.up.sib, nil)].color == Red <==> z.up.sib.Bin? && z.up.sib.c.Red?)
      && (Kid(h[z.e.node], Opposite(z.up.side)) == f.e.node <==> z.side != z.up.side)
  {
    ParentAt(h, z, f, nil);
    if z.In? && z.c.Red? {
      assert z.up.In?;
      GrandparentAt(h, z, f, nil);
    }
  }

  lemma InsertDone(h: Heap, z: Ctx, f: Tree, bh: nat, nil: DNode, entries: seq<Entry>)
    requires Inserting(h, z, f, bh, nil, entries) && !(z.In? && z.c.Red?)
    ensures Rebalanced(h, Plug(z, f), nil, entries)
  {
    PlugValid(z, f, bh);
    PlugAt(h, z, f, nil);
  }

  lemma RecolorStep(h: Heap, z: Ctx, f: Tree, bh: nat, nil: DNode, entries: seq<Entry>)
    requires Inserting(h, z, f, bh, nil, entries) && z.In? && z.c.Red?
    requires z.up.In? && z.up.sib.Bin? && z.up.sib.c.Red?
    ensures z.e.node in h && z.up.sib.e.node in h && z.up.e.node in h
    ensures Inserting(Painted(Painted(Painted(h, z.e.node, Black), z.up.sib.e.node, Black), z.up.e.node, Red),
                      z.up.up, Recolored(z, f), bh + 1, nil, entries)
    ensures Root(Recolored(z, f), nil) == z.up.e.node
  {
    RecolorAt(h, z, f, nil);
    RecolorRedBlack(z, f, bh);
    InOrderRecolored(z, f);
  }

  lemma InnerCan(h: Heap, z: Ctx, f: Tree, bh: nat, nil: DNode, entries: seq<Entry>)
    requires Inserting(h, z, f, bh, nil, entries) && z.In? && z.up.In? && z.side != z.up.side
    ensures CanRotate(h, z.up.side, z.e.node) && h[z.up.e.node].left != h[z.up.e.node].right
  {
    InnerReady(h, z, f, nil);
  }

  lemma InnerStep(h: Heap, h': Heap, z: Ctx, f: Tree, bh: nat, nil: DNode, entries: seq<Entry>)
    requires Inserting(h, z, f, bh, nil, entries) && z.In? && z.c.Red? && z.up.In? && z.side != z.up.side
    requires Rotation(h, h', z.up.side, z.e.node)
    ensures f.Bin? && f.c.Red? && Inserting(h', InnerCtx(z, f), InnerTree(z, f), bh, nil, entries)
  {
    InnerAt(h, h', z, f, nil);
    InnerRedBlack(z, f, bh);
  }

  lemma OuterCan(h: Heap, z: Ctx, f: Tree, bh: nat, nil: DNode, entries: seq<Entry>)
    requires Inserting(h, z, f, bh, nil, entries) && z.In? && z.up.In? && z.side == z.up.side
    ensures z.e.node in h && z.up.e.node in h
    ensures var h1 := Painted(Painted(h, z.e.node, Black), z.up.e.node, Red);
      && CanRotate(h1, Opposite(z.side), z.up.e.node)
      && h1[h1[z.up.e.node].parent].left != h1[h1[z.up.e.node].parent].right
  {
    OuterPaintAt(h, z, f, nil);
    RotateReady(Painted(Painted(h, z.e.node, Black), z.up.e.node, Red), Opposite(z.side),
      z.up.up, OuterBefore(z, f), nil);
  }

  lemma OuterStep(h: Heap, h': Heap, z: Ctx, f: Tree, bh: nat, nil: DNode, entries: seq<Entry>)
    requires Inserting(h, z, f, bh, nil, entries) && z.In? && z.c.Red? && z.up.In? && z.side == z.up.side
    requires IsBlack(z.up.sib) && z.e.node in h && z.up.e.node in h
    requires Rotation(Painted(Painted(h, z.e.node, Black), z.up.e.node, Red), h', Opposite(z.side), z.up.e.node)
    ensures Rebalanced(h', Plug(z.up.up, Outer(z, f)), nil, entries)
  {
    OuterPaintAt(h, z, f, nil);
    OuterAt(Painted(Painted(h, z.e.node, Black), z.up.e.node, Red), h', z, f, nil);
    OuterRedBlack(z, f, bh);
    PlugValid(z.up.up, Outer(z, f), bh + 1);
    PlugAt(h', z.up.up, Outer(z, f), nil);
  }
}
