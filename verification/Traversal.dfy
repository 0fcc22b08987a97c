/**
  dict_first and dict_next of src/adt/dict.c. They follow only some links, so they are proved
  against a weaker condition than a whole dictionary: the left links of a set `vis` of visited
  nodes may hold anything, which is what dict_merge leaves behind while it walks.
 */
module Traversal {
  import opened RedBlackTree
  import opened Search

  // Right and parent links, everywhere.
  ghost predicate UpRight(h: Heap, t: Tree, p: DNode?, nil: DNode)
  {
    t.Leaf? ||
    (var n := t.e.node;
     && n in h && h[n].right == Root(t.r, nil) && h[n].parent == p
     && UpRight(h, t.l, n, nil) && UpRight(h, t.r, n, nil))
  }

  // Left links, except from `vis`.
  ghost predicate Lefts(h: Heap, t: Tree, vis: set<DNode>, nil: DNode)
  {
    t.Leaf? ||
    (&& t.e.node in h && (t.e.node in vis || h[t.e.node].left == Root(t.l, nil))
     && Lefts(h, t.l, vis, nil) && Lefts(h, t.r, vis, nil))
  }

  ghost predicate Walkable(h: Heap, t: Tree, vis: set<DNode>, nil: DNode)
  {
    Distinct(t) && nil !in Nodes(t) && UpRight(h, t, nil, nil) && Lefts(h, t, vis, nil)
  }

  lemma {:induction false} LinkedUpRight(h: Heap, t: Tree, p: DNode?, nil: DNode)
    requires Linked(h, t, p, nil)
    ensures UpRight(h, t, p, nil) && Lefts(h, t, {}, nil)
  {
    if t.Bin? {
      LinkedUpRight(h, t.l, t.e.node, nil);
      LinkedUpRight(h, t.r, t.e.node, nil);
    }
  }

  lemma AtWalkable(h: Heap, z: Ctx, f: Tree, nil: DNode)
    requires At(h, z, f, nil)
    ensures Walkable(h, Plug(z, f), {}, nil)
  {
    PlugAt(h, z, f, nil);
    LinkedUpRight(h, Plug(z, f), nil, nil);
  }

  // What a walkable tree says at a position.
  lemma {:induction false} WalkableAt(h: Heap, z: Ctx, f: Tree, vis: set<DNode>, nil: DNode)
    requires Walkable(h, Plug(z, f), vis, nil)
    ensures UpRight(h, f, Parent(z, nil), nil) && Lefts(h, f, vis, nil)
    ensures Distinct(f) && nil !in Nodes(f) && Nodes(f) <= Nodes(Plug(z, f))
    ensures z.In? ==>
      z.e.node in h && z.e.node != nil && z.e.node !in Nodes(f) && h[z.e.node].parent == Parent(z.up, nil)
    ensures z.In? ==> h[z.e.node].right == (if z.side.R? then Root(f, nil) else Root(z.sib, nil))
    ensures z.In? ==> Nodes(f) !! Nodes(z.sib)
  {
    if z.In? {
      WalkableAt(h, z.up, Whole(z, f), vis, nil);
    }
  }

  // The nodes that come after the root of `f`, in order.
  ghost function Following(z: Ctx, f: Tree): seq<Entry>
  {
    (if f.Bin? then InOrder(f.r) else []) + After(z)
  }

  // The leftmost node below a root: the inner loop of dict_first and dict_next.
  method Leftmost(top: DNode, nil: DNode, ghost s: set<DNode>, ghost f0: Tree, ghost p: DNode?, ghost vis: set<DNode>)
    returns (curr: DNode)
    requires f0.Bin? && top == f0.e.node && UpRight(Snapshot(s), f0, p, nil) && Lefts(Snapshot(s), f0, vis, nil)
    requires nil !in Nodes(f0) && Nodes(f0) !! vis
    ensures curr == InOrder(f0)[0].node && curr in Nodes(f0)
  {
    curr := top;
    ghost var f := f0;
    while curr.left != nil
      invariant f.Bin? && curr == f.e.node && Lefts(Snapshot(s), f, vis, nil) && Nodes(f) <= Nodes(f0)
      invariant InOrder(f)[0] == InOrder(f0)[0]
      decreases f
    {
      assert curr in Nodes(f);
      curr := curr.left;
      f := f.l;
    }
    assert f.e.node in Nodes(f);
  }

  // dict_next, by the position of the node.
  method NextFrom(start: DNode, nil: DNode, ghost s: set<DNode>, ghost z0: Ctx, ghost f0: Tree, ghost vis: set<DNode>)
    returns (next: DNode?)
    requires Walkable(Snapshot(s), Plug(z0, f0), vis, nil)
    requires f0.Bin? && start == f0.e.node
    requires forall e :: e in Following(z0, f0) ==> e.node !in vis
    ensures next == FirstOf(Following(z0, f0))
  {
    var curr := start;
    WalkableAt(Snapshot(s), z0, f0, vis, nil);
    if curr.right != nil {
      NodesInOrder(f0.r);
      next := Leftmost(curr.right, nil, s, f0.r, curr, vis);
      return;
    }
    ghost var z, f := z0, f0;
    var parent := curr.parent;
    assert After(z) == Following(z0, f0);
    while parent != nil && curr == parent.right
      invariant Plug(z, f) == Plug(z0, f0) && f.Bin? && curr == f.e.node && curr in Nodes(f)
      invariant parent == Parent(z, nil) && UpRight(Snapshot(s), f, parent, nil)
      invariant After(z) == Following(z0, f0)
      decreases z
    {
      WalkableAt(Snapshot(s), z, f, vis, nil);
      curr := parent;
      parent := curr.parent;
      z, f := z.up, Whole(z, f);
      WalkableAt(Snapshot(s), z, f, vis, nil);
    }
    WalkableAt(Snapshot(s), z, f, vis, nil);
    next := if parent == nil then null else parent;
  }

  // The position of the `i`-th node.
  lemma {:induction false} PositionAt(t: Tree, i: nat, up: Ctx) returns (z: Ctx, f: Tree)
    requires i < |InOrder(t)|
    ensures Plug(z, f) == Plug(up, t) && f.Bin? && f.e == InOrder(t)[i]
    ensures Following(z, f) == InOrder(t)[i + 1..] + After(up)
    decreases t
  {
    var n, s := |InOrder(t.l)|, InOrder(t);
    assert s == InOrder(t.l) + ([t.e] + InOrder(t.r));
    if i < n {
      z, f := PositionAt(t.l, i, In(L, up, t.c, t.e, t.r));
      assert s[i + 1..] == InOrder(t.l)[i + 1..] + ([t.e] + InOrder(t.r));
      assert InOrder(t.l)[i + 1..] + ([t.e] + InOrder(t.r) + After(up)) == s[i + 1..] + After(up);
    } else if i == n {
      z, f := up, t;
      assert s[i + 1..] == InOrder(t.r);
    } else {
      z, f := PositionAt(t.r, i - n - 1, In(R, up, t.c, t.e, t.l));
      assert s[i + 1..] == InOrder(t.r)[i - n..];
    }
  }

  // dict_next, by the index of the node.
  method NextAt(start: DNode, nil: DNode, ghost s: set<DNode>, ghost t: Tree, ghost i: nat, ghost vis: set<DNode>)
    returns (next: DNode?)
    requires Walkable(Snapshot(s), t, vis, nil)
    requires i < |InOrder(t)| && start == InOrder(t)[i].node
    requires forall j :: i < j < |InOrder(t)| ==> InOrder(t)[j].node !in vis
    ensures next == FirstOf(InOrder(t)[i + 1..])
  {
    hide Walkable, InOrder, Following;
    ghost var z, f := PositionAt(t, i, Top);
    assert InOrder(t)[i + 1..] + [] == InOrder(t)[i + 1..];
    next := NextFrom(start, nil, s, z, f, vis);
  }

  // dict_first, from the root.
  method FirstNode(root: DNode, nil: DNode, ghost s: set<DNode>, ghost t: Tree) returns (first: DNode?)
    requires Walkable(Snapshot(s), t, {}, nil) && root == Root(t, nil)
    ensures first == FirstOf(InOrder(t))
  {
    assert t.Bin? ==> t.e.node in Nodes(t);
    if root != nil {
      first := Leftmost(root, nil, s, t, nil, {});
      assert InOrder(t) != [];
    } else {
      first := null;
    }
  }

  lemma WalkFrame(h: Heap, h': Heap, t: Tree, vis: set<DNode>, vis': set<DNode>, nil: DNode)
    requires Walkable(h, t, vis, nil) && vis <= vis'
    requires forall n :: n in Nodes(t) && n in h ==> n in h' && h'[n].right == h[n].right && h'[n].parent == h[n].parent
    requires forall n :: n in Nodes(t) && n in h && n !in vis' ==> h'[n].left == h[n].left
    ensures Walkable(h', t, vis', nil)
  {
    UpRightFrame(h, h', t, nil, nil);
    LeftsFrame(h, h', t, vis, vis', nil);
  }

  lemma {:induction false} UpRightFrame(h: Heap, h': Heap, t: Tree, p: DNode?, nil: DNode)
    requires UpRight(h, t, p, nil)
    requires forall n :: n in Nodes(t) && n in h ==> n in h' && h'[n].right == h[n].right && h'[n].parent == h[n].parent
    ensures UpRight(h', t, p, nil)
  {
    if t.Bin? {
      UpRightFrame(h, h', t.l, t.e.node, nil);
      UpRightFrame(h, h', t.r, t.e.node, nil);
    }
  }

  lemma {:induction false} LeftsFrame(h: Heap, h': Heap, t: Tree, vis: set<DNode>, vis': set<DNode>, nil: DNode)
    requires Lefts(h, t, vis, nil) && vis <= vis'
    requires forall n :: n in Nodes(t) && n in h ==> n in h' && (n !in vis' ==> h'[n].left == h[n].left)
    ensures Lefts(h', t, vis', nil)
  {
    if t.Bin? {
      LeftsFrame(h, h', t.l, vis, vis', nil);
      LeftsFrame(h, h', t.r, vis, vis', nil);
    }
  }
}
