/**
  The dictionary of src/adt/dict.c: `dict_t` with its embedded sentinel, insertion, deletion,
  queries and traversal.
 */
module Dictionary {
  import opened RedBlackTree
  import opened Rebalance
  import opened Deletion
  import opened Traversal
  import opened Search

  const DICTCOUNT_T_MAX: nat := 0xFFFF_FFFF_FFFF_FFFF

  // dict_verify (src/adt/dict.c:413-436), with full order and exact links.
  ghost predicate WellFormed(h: Heap, t: Tree, nil: DNode, cmp: Comparator, dupes: bool, count: nat)
  {
    && At(h, Top, t, nil) && h[nil].color == Black && (t.Leaf? ==> h[nil].parent == nil)
    && ValidTree(t) && Sorted(InOrder(t), cmp, dupes) && count == |InOrder(t)|
  }

  // `p` is the place for a new key: just after the last entry that is not greater.
  ghost predicate InsertPoint(s: seq<Entry>, p: int, key: Key, cmp: Comparator)
  {
    && 0 <= p <= |s|
    && (forall i :: 0 <= i < p ==> cmp(key, s[i].key) >= 0)
    && (forall i :: p <= i < |s| ==> cmp(key, s[i].key) < 0)
  }

  class Dict {
    const nil: DNode
    const maxcount: nat
    const compare: Comparator
    var nodecount: nat
    var dupes: bool
    ghost var tree: Tree

    constructor (maxcount: nat, compare: Comparator)
      requires TotalPreorder(compare) && maxcount <= DICTCOUNT_T_MAX
      ensures Valid() && InOrder(tree) == [] && fresh(nil) && !dupes
      ensures this.maxcount == maxcount && this.compare == compare
    {
      nil := new DNode(0);
      this.maxcount, this.compare := maxcount, compare;
      nodecount, dupes, tree := 0, false, Leaf;
      new;
      nil.left, nil.right, nil.parent, nil.color := nil, nil, nil, Black;
    }

    ghost function Repr(): set<DNode>
      reads this
    {
      Nodes(tree) + {nil}
    }

    ghost predicate Valid()
      reads this, Nodes(tree), nil
    {
      && TotalPreorder(compare) && nodecount <= maxcount <= DICTCOUNT_T_MAX
      && WellFormed(Snapshot(Repr()), tree, nil, compare, dupes, nodecount)
    }

    // The nodes now stand for `t`.
    ghost method Become(t: Tree)
      requires TotalPreorder(compare) && nodecount <= maxcount <= DICTCOUNT_T_MAX
      requires WellFormed(Snapshot(Nodes(t) + {nil}), t, nil, compare, dupes, nodecount)
      modifies this`tree
      ensures Valid() && tree == t
    {
      hide WellFormed, Nodes;
      tree := t;
    }

    /** dict_clear, src/adt/dict.c:396-403: the nodes are forgotten, whatever their links. */
    method Clear()
      requires TotalPreorder(compare) && maxcount <= DICTCOUNT_T_MAX && nil.color == Black
      modifies this`nodecount, this`tree, nil`left, nil`right, nil`parent
      ensures Valid() && InOrder(tree) == [] && Repr() == {nil}
    {
      nodecount := 0;
      nil.left := nil;
      nil.right := nil;
      nil.parent := nil;
      tree := Leaf;
    }

    // ---------------------------------------------------------------- traversal

    /** dict_first, src/adt/dict.c:917-926. */
    method First() returns (first: DNode?)
      requires Valid()
      ensures first == FirstOf(InOrder(tree))
    {
      AtWalkable(Snapshot(Repr()), Top, tree, nil);
      first := FirstNode(nil.left, nil, Repr(), tree);
    }

    /** dict_next, src/adt/dict.c:951-970. */
    method Next(curr: DNode, ghost i: nat) returns (next: DNode?)
      requires Valid() && i < |InOrder(tree)| && curr == InOrder(tree)[i].node
      ensures next == if i + 1 < |InOrder(tree)| then InOrder(tree)[i + 1].node else null
    {
      AtWalkable(Snapshot(Repr()), Top, tree, nil);
      next := NextAt(curr, nil, Repr(), tree, i, {});
    }

    // ---------------------------------------------------------------- queries

    /** src/adt/dict.c:470-501. `cmps` counts the calls of the comparison function. */
    method Lookup(key: Key) returns (r: DNode?, ghost cmps: nat)
      requires Valid()
      ensures r == FirstWhere(InOrder(tree), Equal(compare, key))
      ensures Pow2(cmps) <= (nodecount + 1) * (nodecount + 1)
    {
      hide At, InOrder, Searching, ValidTree, Sorted, Height, Before, After, Pow2, UpClosed, FirstWhere, Plug;
      var root := nil.left;
      cmps := 0;
      ghost var p, q, z, f := AtLeast(compare, key), Above(compare, key), Top, tree;
      SearchStart(Snapshot(Repr()), tree, nil, key, compare, dupes);
      while root != nil
        invariant Valid() && Searching(Snapshot(Repr()), tree, z, f, nil, p)
        invariant Searching(Snapshot(Repr()), tree, z, f, nil, q)
        invariant root == Root(f, nil) && cmps + Height(f) <= Height(tree)
        decreases f
      {
        SearchStep(Snapshot(Repr()), tree, z, f, nil, p);
        SearchStep(Snapshot(Repr()), tree, z, f, nil, q);
        var result := compare(key, root.key);
        cmps := cmps + 1;
        if result < 0 {
          root := root.left;
          z, f := Down(z, f, L), f.l;
        } else if result > 0 {
          root := root.right;
          z, f := Down(z, f, R), f.r;
        } else if !dupes {
          MatchDone(Snapshot(Repr()), tree, z, f, nil, p, key, compare);
          CountBound(tree, cmps);
          r := root;
          return;
        } else {
          ghost var more;
          r, more := LookupLeftmost(key, root, z, f);
          cmps := cmps + more;
          CountBound(tree, cmps);
          return;
        }
      }
      CountBound(tree, cmps);
      SearchStep(Snapshot(Repr()), tree, z, f, nil, p);
      SearchView(Snapshot(Repr()), tree, z, f, nil, q);
      EqualDone(Snapshot(Repr()), tree, z, f, nil, key, compare);
      r := null;
    }

    // Among equal keys, the leftmost (src/adt/dict.c:489-495): the do-while loop.
    method LookupLeftmost(key: Key, match_: DNode, ghost z0: Ctx, ghost f0: Tree)
      returns (saved: DNode, ghost cmps: nat)
      requires Valid() && Searching(Snapshot(Repr()), tree, z0, f0, nil, AtLeast(compare, key))
      requires f0.Bin? && match_ == f0.e.node && compare(key, f0.e.key) == 0
      ensures saved == FirstWhere(InOrder(tree), Equal(compare, key)) && cmps < Height(f0)
    {
      hide At, InOrder, Searching, ValidTree, Sorted, Height, Before, After, Pow2, UpClosed;
      var root := match_;
      cmps := 0;
      ghost var p, z, f := AtLeast(compare, key), z0, f0;
      SearchStart(Snapshot(Repr()), tree, nil, key, compare, dupes);
      SearchView(Snapshot(Repr()), tree, Top, tree, nil, Above(compare, key));
      while true
        invariant Valid() && Searching(Snapshot(Repr()), tree, z, f, nil, p)
        invariant f.Bin? && root == f.e.node && compare(key, f.e.key) == 0 && cmps + Height(f) <= Height(f0)
        decreases f
      {
        SearchStep(Snapshot(Repr()), tree, z, f, nil, p);
        saved := root;
        root := root.left;
        z, f := Down(z, f, L), f.l;
        while root != nil && compare(key, root.key) != 0
          invariant Valid() && Searching(Snapshot(Repr()), tree, z, f, nil, p) && root == Root(f, nil)
          invariant FirstOf(After(z)) == saved && After(z) != [] && compare(key, After(z)[0].key) == 0
          invariant cmps + Height(f) < Height(f0)
          decreases f
        {
          SearchStep(Snapshot(Repr()), tree, z, f, nil, p);
          LeftOfMatch(Snapshot(Repr()), tree, z, f, nil, key, compare);
          root := root.right;
          z, f := Down(z, f, R), f.r;
          cmps := cmps + 1;
        }
        SearchStep(Snapshot(Repr()), tree, z, f, nil, p);
        if root == nil {
          EqualDone(Snapshot(Repr()), tree, z, f, nil, key, compare);
          return;
        }
        cmps := cmps + 1;
      }
    }

    /** src/adt/dict.c:508-533. `cmps` counts the calls of the comparison function. */
    method LowerBound(key: Key) returns (r: DNode?, ghost cmps: nat)
      requires Valid()
      ensures r == FirstWhere(InOrder(tree), AtLeast(compare, key))
      ensures Pow2(cmps) <= (nodecount + 1) * (nodecount + 1)
    {
      hide At, InOrder, Searching, ValidTree, Sorted, Height, Before, After, Pow2, UpClosed;
      var root := nil.left;
      r, cmps := null, 0;
      ghost var p, z, f := AtLeast(compare, key), Top, tree;
      SearchStart(Snapshot(Repr()), tree, nil, key, compare, dupes);
      while root != nil
        invariant Valid() && Searching(Snapshot(Repr()), tree, z, f, nil, p) && root == Root(f, nil)
        invariant r == FirstOf(After(z)) && cmps + Height(f) <= Height(tree)
        decreases f
      {
        SearchStep(Snapshot(Repr()), tree, z, f, nil, p);
        var result := compare(key, root.key);
        cmps := cmps + 1;
        if result > 0 {
          root := root.right;
          z, f := Down(z, f, R), f.r;
        } else if result < 0 {
          r, root := root, root.left;
          z, f := Down(z, f, L), f.l;
        } else if !dupes {
          MatchDone(Snapshot(Repr()), tree, z, f, nil, p, key, compare);
          CountBound(tree, cmps);
          r := root;
          return;
        } else {
          r, root := root, root.left;
          z, f := Down(z, f, L), f.l;
        }
      }
      CountBound(tree, cmps);
      SearchStep(Snapshot(Repr()), tree, z, f, nil, p);
      SearchDone(Snapshot(Repr()), tree, z, f, nil, p);
    }

    /** src/adt/dict.c:540-565. */
    method UpperBound(key: Key) returns (r: DNode?, ghost cmps: nat)
      requires Valid()
      ensures r == LastWhere(InOrder(tree), AtMost(compare, key))
      ensures Pow2(cmps) <= (nodecount + 1) * (nodecount + 1)
    {
      hide At, InOrder, Searching, ValidTree, Sorted, Height, Before, After, Pow2, UpClosed;
      var root := nil.left;
      r, cmps := null, 0;
      ghost var p, z, f := Above(compare, key), Top, tree;
      SearchStart(Snapshot(Repr()), tree, nil, key, compare, dupes);
      while root != nil
        invariant Valid() && Searching(Snapshot(Repr()), tree, z, f, nil, p) && root == Root(f, nil)
        invariant r == LastOf(Before(z)) && cmps + Height(f) <= Height(tree)
        decreases f
      {
        SearchStep(Snapshot(Repr()), tree, z, f, nil, p);
        var result := compare(key, root.key);
        cmps := cmps + 1;
        if result < 0 {
          root := root.left;
          z, f := Down(z, f, L), f.l;
        } else if result > 0 {
          r, root := root, root.right;
          z, f := Down(z, f, R), f.r;
        } else if !dupes {
          MatchDone(Snapshot(Repr()), tree, z, f, nil, p, key, compare);
          CountBound(tree, cmps);
          r := root;
          return;
        } else {
          r, root := root, root.right;
          z, f := Down(z, f, R), f.r;
        }
      }
      CountBound(tree, cmps);
      SearchStep(Snapshot(Repr()), tree, z, f, nil, p);
      SearchDone(Snapshot(Repr()), tree, z, f, nil, p);
      LastSame(InOrder(tree), k => !p(k), AtMost(compare, key));
    }

    /** src/adt/dict.c:571-589. */
    method StrictLowerBound(key: Key) returns (r: DNode?, ghost cmps: nat)
      requires Valid()
      ensures r == FirstWhere(InOrder(tree), Above(compare, key))
      ensures Pow2(cmps) <= (nodecount + 1) * (nodecount + 1)
    {
      hide At, InOrder, Searching, ValidTree, Sorted, Height, Before, After, Pow2, UpClosed;
      var root := nil.left;
      r, cmps := null, 0;
      ghost var p, z, f := Above(compare, key), Top, tree;
      SearchStart(Snapshot(Repr()), tree, nil, key, compare, dupes);
      while root != nil
        invariant Valid() && Searching(Snapshot(Repr()), tree, z, f, nil, p) && root == Root(f, nil)
        invariant r == FirstOf(After(z)) && cmps + Height(f) <= Height(tree)
        decreases f
      {
        SearchStep(Snapshot(Repr()), tree, z, f, nil, p);
        var result := compare(key, root.key);
        cmps := cmps + 1;
        if result >= 0 {
          root := root.right;
          z, f := Down(z, f, R), f.r;
        } else {
          r, root := root, root.left;
          z, f := Down(z, f, L), f.l;
        }
      }
      CountBound(tree, cmps);
      SearchStep(Snapshot(Repr()), tree, z, f, nil, p);
      SearchDone(Snapshot(Repr()), tree, z, f, nil, p);
    }

    /** src/adt/dict.c:595-613. */
    method StrictUpperBound(key: Key) returns (r: DNode?, ghost cmps: nat)
      requires Valid()
      ensures r == LastWhere(InOrder(tree), Below(compare, key))
      ensures Pow2(cmps) <= (nodecount + 1) * (nodecount + 1)
    {
      hide At, InOrder, Searching, ValidTree, Sorted, Height, Before, After, Pow2, UpClosed;
      var root := nil.left;
      r, cmps := null, 0;
      ghost var p, z, f := AtLeast(compare, key), Top, tree;
      SearchStart(Snapshot(Repr()), tree, nil, key, compare, dupes);
      while root != nil
        invariant Valid() && Searching(Snapshot(Repr()), tree, z, f, nil, p) && root == Root(f, nil)
        invariant r == LastOf(Before(z)) && cmps + Height(f) <= Height(tree)
        decreases f
      {
        SearchStep(Snapshot(Repr()), tree, z, f, nil, p);
        var result := compare(key, root.key);
        cmps := cmps + 1;
        if result <= 0 {
          root := root.left;
          z, f := Down(z, f, L), f.l;
        } else {
          r, root := root, root.right;
          z, f := Down(z, f, R), f.r;
        }
      }
      CountBound(tree, cmps);
      SearchStep(Snapshot(Repr()), tree, z, f, nil, p);
      SearchDone(Snapshot(Repr()), tree, z, f, nil, p);
      LastSame(InOrder(tree), k => !p(k), Below(compare, key));
    }

    // The descent of dict_insert (src/adt/dict.c:635-648): the empty place for a new key, from
    // its owner `parent`, `result` telling the side.
    method FindPlace(key: Key) returns (parent: DNode, result: int, ghost z: Ctx)
      requires Valid()
      requires !dupes ==> forall e :: e in InOrder(tree) ==> compare(key, e.key) != 0
      ensures Valid() && At(Snapshot(Repr()), z, Leaf, nil) && Plug(z, Leaf) == tree && CtxNodes(z) == Nodes(tree)
      ensures parent == Parent(z, nil) && (result < 0 <==> z.Top? || z.side.L?)
      ensures SplitsAt(InOrder(tree), Before(z), After(z), key, compare)
    {
      var where := nil.left;
      parent, result, z := nil, -1, Top;
      ghost var f := tree;
      SortedUpClosed(InOrder(tree), key, compare, dupes);
      while where != nil
        invariant Valid() && At(Snapshot(Repr()), z, f, nil) && Plug(z, f) == tree
        invariant where == Root(f, nil) && parent == Parent(z, nil)
        invariant Parted(z, Above(compare, key))
        invariant result < 0 <==> z.Top? || z.side.L?
        decreases f
      {
        DescendAt(Snapshot(Repr()), z, f, nil);
        DescendParted(z, f, Above(compare, key));
        parent := where;
        result := compare(key, where.key);
        assert dupes || result != 0;
        if result < 0 {
          where := where.left;
          z, f := Down(z, f, L), f.l;
        } else {
          where := where.right;
          z, f := Down(z, f, R), f.r;
        }
      }
      PlacePoint(z, key, compare);
      NodesPlug(z, Leaf);
    }

    /** src/adt/dict.c:623-712. */
    method Insert(node: DNode, key: Key) returns (ghost p: int)
      requires Valid() && nodecount != maxcount
      requires node !in Nodes(tree) && node != nil
      requires !dupes ==> forall e :: e in InOrder(tree) ==> compare(key, e.key) != 0
      modifies this`nodecount, this`tree
      modifies (Repr() + {node})`left, (Repr() + {node})`right, (Repr() + {node})`parent, (Repr() + {node})`color
      modifies node`key
      ensures Valid()
      ensures InsertPoint(old(InOrder(tree)), p, key, compare)
      ensures InOrder(tree) == old(InOrder(tree))[..p] + [Entry(node, key)] + old(InOrder(tree))[p..]
    {
      hide WellFormed, At, Plug, SplitsAt, Sorted, InOrder, ValidTree, Nodes, CtxNodes;
      ghost var s := Repr() + {node};
      node.key := key;
      var parent, result;
      ghost var z;
      parent, result, z := FindPlace(key);
      p := |Before(z)|;
      SplitPoint(InOrder(tree), Before(z), After(z), key, compare);
      assert s - {node} == Repr();
      ghost var t := InsertAt(node, parent, result, s, z);
      assert Nodes(t) + {nil} == s;
      Become(t);
    }

    // The rest of dict_insert (src/adt/dict.c:650-709), at the place found.
    method InsertAt(node: DNode, parent: DNode, result: int, ghost s: set<DNode>, ghost z: Ctx) returns (ghost t: Tree)
      requires TotalPreorder(compare) && At(Snapshot(s - {node}), z, Leaf, nil)
      requires WellFormed(Snapshot(s - {node}), Plug(z, Leaf), nil, compare, dupes, nodecount)
      requires node in s && node != nil && node !in CtxNodes(z)
      requires parent == Parent(z, nil) && (result < 0 <==> z.Top? || z.side.L?)
      requires SplitsAt(InOrder(Plug(z, Leaf)), Before(z), After(z), node.key, compare)
      requires !dupes ==> forall e :: e in InOrder(Plug(z, Leaf)) ==> compare(node.key, e.key) != 0
      modifies this`nodecount, s`left, s`right, s`parent, s`color
      ensures nodecount == old(nodecount) + 1
      ensures WellFormed(Snapshot(s), t, nil, compare, dupes, nodecount)
      ensures InOrder(t) == Before(z) + [Entry(node, node.key)] + After(z)
      ensures Nodes(t) == Nodes(Plug(z, Leaf)) + {node}
    {
      hide At, Inserting, Rebalanced, Plug, Sorted, InOrder, ValidTree, Nodes, CtxNodes, InsertPoint, SplitsAt;
      ghost var e := Entry(node, node.key);
      Link(node, parent, result, s, z);
      nodecount := nodecount + 1;
      ghost var u := InsertFixup(node, parent, s, z, Bin(Leaf, Red, e, Leaf), 1, Before(z) + [e] + After(z));
      SplitPoint(InOrder(Plug(z, Leaf)), Before(z), After(z), node.key, compare);
      InsertFinish(Snapshot(s), Plug(z, Leaf), u, nil, |Before(z)|, e, compare, dupes);
      Paint(nil.left, Black, s);
      t := Blacken(u);
    }

    // Hanging the node at its place, painted red (src/adt/dict.c:650-663).
    method Link(node: DNode, parent: DNode, result: int, ghost s: set<DNode>, ghost z: Ctx)
      requires At(Snapshot(s - {node}), z, Leaf, nil) && nil.color == Black && ValidTree(Plug(z, Leaf))
      requires node in s && node != nil && node !in CtxNodes(z)
      requires parent == Parent(z, nil) && (result < 0 <==> z.Top? || z.side.L?)
      modifies s`left, s`right, s`parent, s`color
      ensures Inserting(Snapshot(s), z, Bin(Leaf, Red, Entry(node, node.key), Leaf), 1, nil,
        Before(z) + [Entry(node, node.key)] + After(z))
    {
      hide Inserting, Plug, ValidTree;
      ghost var h := Snapshot(s - {node});
      ParentAt(h, z, Leaf, nil);
      if result < 0 {
        parent.left := node;
      } else {
        parent.right := node;
      }
      node.parent := parent;
      node.left := nil;
      node.right := nil;
      node.color := Red;
      LinkAt(h, Snapshot(s), z, Entry(node, node.key), nil);
      LinkStep(Snapshot(s), z, Entry(node, node.key), nil);
    }

    // The adjustments of dict_insert (src/adt/dict.c:665-707), up to the repainting of the root.
    method InsertFixup(n: DNode, p: DNode, ghost s: set<DNode>, ghost z0: Ctx, ghost f0: Tree, ghost bh0: nat,
            ghost entries: seq<Entry>)
      returns (ghost t: Tree)
      requires Inserting(Snapshot(s), z0, f0, bh0, nil, entries) && n == Root(f0, nil) && p == Parent(z0, nil)
      modifies s`left, s`right, s`parent, s`color
      ensures Rebalanced(Snapshot(s), t, nil, entries)
    {
      hide Inserting, Rebalanced, Plug, Recolored;
      var node, parent := n, p;
      ghost var z, f, bh := z0, f0, bh0;
      InsertView(Snapshot(s), z, f, bh, nil, entries);
      while parent.color == Red
        invariant Inserting(Snapshot(s), z, f, bh, nil, entries)
        invariant node == Root(f, nil) && parent == Parent(z, nil) && parent in s
        decreases z
      {
        ghost var h := Snapshot(s);
        InsertView(h, z, f, bh, nil, entries);
        var grandpa := parent.parent;
        var uncle := if parent == grandpa.left then grandpa.right else grandpa.left;
        if uncle.color == Red {
          Recolor(parent, uncle, grandpa, s);
          RecolorStep(h, z, f, bh, nil, entries);
          node := grandpa;
          parent := grandpa.parent;
          z, f, bh := z.up.up, Recolored(z, f), bh + 1;
        } else if parent == grandpa.left {
          t := InsertRotateLeft(node, parent, grandpa, s, z, f, bh, entries);
          return;
        } else {
          t := InsertRotateRight(node, parent, grandpa, s, z, f, bh, entries);
          return;
        }
      }
      InsertView(Snapshot(s), z, f, bh, nil, entries);
      InsertDone(Snapshot(s), z, f, bh, nil, entries);
      t := Plug(z, f);
    }

    // Red parent, red uncle (src/adt/dict.c:670-672).
    static method Recolor(parent: DNode, uncle: DNode, grandpa: DNode, ghost s: set<DNode>)
      requires parent in s && uncle in s && grandpa in s
      modifies s`color
      ensures Snapshot(s) == Painted(Painted(Painted(old(Snapshot(s)), parent, Black), uncle, Black), grandpa, Red)
    {
      Paint(parent, Black, s);
      Paint(uncle, Black, s);
      Paint(grandpa, Red, s);
    }

    // Red parent, black uncle, parent on the left (src/adt/dict.c:676-684).
    method InsertRotateLeft(node: DNode, p: DNode, grandpa: DNode, ghost s: set<DNode>, ghost z0: Ctx, ghost f0: Tree,
            ghost bh: nat, ghost entries: seq<Entry>)
      returns (ghost t: Tree)
      requires Inserting(Snapshot(s), z0, f0, bh, nil, entries) && z0.In? && z0.c.Red? && z0.up.In?
      requires node == Root(f0, nil) && p == z0.e.node && grandpa == z0.up.e.node && IsBlack(z0.up.sib)
      requires z0.up.side == L
      modifies s`left, s`right, s`parent, s`color
      ensures Rebalanced(Snapshot(s), t, nil, entries)
    {
      hide Inserting, Rebalanced, Rotation, CanRotate, Plug;
      var parent := p;
      ghost var z, f := z0, f0;
      ghost var h := Snapshot(s);
      InsertView(h, z, f, bh, nil, entries);
      if node == parent.right {
        InnerCan(h, z, f, bh, nil, entries);
        RotateLeft(parent, s);
        InnerStep(h, Snapshot(s), z, f, bh, nil, entries);
        z, f, h := InnerCtx(z, f), InnerTree(z, f), Snapshot(s);
        parent := node;
      }
      OuterCan(h, z, f, bh, nil, entries);
      Paint(parent, Black, s);
      Paint(grandpa, Red, s);
      RotateRight(grandpa, s);
      OuterStep(h, Snapshot(s), z, f, bh, nil, entries);
      t := Plug(z.up.up, Outer(z, f));
    }

    // The mirror image (src/adt/dict.c:696-703).
    method InsertRotateRight(node: DNode, p: DNode, grandpa: DNode, ghost s: set<DNode>, ghost z0: Ctx, ghost f0: Tree,
            ghost bh: nat, ghost entries: seq<Entry>)
      returns (ghost t: Tree)
      requires Inserting(Snapshot(s), z0, f0, bh, nil, entries) && z0.In? && z0.c.Red? && z0.up.In?
      requires node == Root(f0, nil) && p == z0.e.node && grandpa == z0.up.e.node && IsBlack(z0.up.sib)
      requires z0.up.side == R
      modifies s`left, s`right, s`parent, s`color
      ensures Rebalanced(Snapshot(s), t, nil, entries)
    {
      hide Inserting, Rebalanced, Rotation, CanRotate, Plug;
      var parent := p;
      ghost var z, f := z0, f0;
      ghost var h := Snapshot(s);
      InsertView(h, z, f, bh, nil, entries);
      if node == parent.left {
        InnerCan(h, z, f, bh, nil, entries);
        RotateRight(parent, s);
        InnerStep(h, Snapshot(s), z, f, bh, nil, entries);
        z, f, h := InnerCtx(z, f), InnerTree(z, f), Snapshot(s);
        parent := node;
      }
      OuterCan(h, z, f, bh, nil, entries);
      Paint(parent, Black, s);
      Paint(grandpa, Red, s);
      RotateLeft(grandpa, s);
      OuterStep(h, Snapshot(s), z, f, bh, nil, entries);
      t := Plug(z.up.up, Outer(z, f));
    }

    /** src/adt/dict.c:720-887. */
    method Delete(target: DNode) returns (deleted: DNode, ghost k: nat)
      requires Valid() && target in Nodes(tree)
      modifies this`nodecount, this`tree
      modifies Repr()`left, Repr()`right, Repr()`parent, Repr()`color
      ensures Valid() && deleted == target
      ensures k < |old(InOrder(tree))| && old(InOrder(tree))[k].node == target
      ensures InOrder(tree) == old(InOrder(tree))[..k] + old(InOrder(tree))[k + 1..]
      ensures Nodes(tree) == old(Nodes(tree)) - {target}
      ensures target.left == target.right == target.parent == null
    {
      hide WellFormed, At, Removed, Adjusted, InOrder, Nodes, CtxNodes;
      ghost var before, rest := tree, Repr() - {target};
      assert target !in rest;
      WellFormedOrder(Snapshot(Repr()), tree, nil, compare, dupes, nodecount);
      var child;
      ghost var y, g, c;
      child, k, y, g, c := TakeOut(target);
      ghost var t := DeleteAdjust(target, child, rest, y, g, c, InOrder(before)[..k] + InOrder(before)[k + 1..]);
      assert target.left == target.right == target.parent == null;
      AdjustedWellFormed(Snapshot(rest), before, k, t, nil, compare, dupes);
      assert Nodes(t) + {nil} == rest;
      Become(t);
      deleted := target;
    }

    // The target is out, and belongs to no dictionary (src/adt/dict.c:724-803).
    method TakeOut(target: DNode) returns (child: DNode, ghost k: nat, ghost z: Ctx, ghost g: Tree, ghost c: Color)
      requires Valid() && target in Nodes(tree)
      modifies Repr()`left, Repr()`right, Repr()`parent, Repr()`color
      ensures k < |InOrder(tree)| && InOrder(tree)[k].node == target
      ensures Removed(Snapshot(Repr() - {target}), z, g, c, nil, InOrder(tree)[..k] + InOrder(tree)[k + 1..])
      ensures child == Root(g, nil) && target.color == c && target.left == target.right == target.parent == null
      ensures CtxNodes(z) + Nodes(g) == Nodes(tree) - {target} && target != nil
    {
      hide Removed, InOrder, Nodes, CtxNodes;
      ghost var rest := Repr() - {target};
      child, k, z, g, c := Unlink(target);
      target.parent := null;
      target.right := null;
      target.left := null;
    }

    // Basic deletion (src/adt/dict.c:741-799): unlinking the target.
    method Unlink(target: DNode) returns (child: DNode, ghost k: nat, ghost z: Ctx, ghost g: Tree, ghost c: Color)
      requires Valid() && target in Nodes(tree)
      modifies Repr()`left, Repr()`right, Repr()`parent, Repr()`color
      ensures k < |InOrder(tree)| && InOrder(tree)[k].node == target
      ensures Removed(Snapshot(Repr() - {target}), z, g, c, nil, InOrder(tree)[..k] + InOrder(tree)[k + 1..])
      ensures child == Root(g, nil) && target.color == c
      ensures CtxNodes(z) + Nodes(g) == Nodes(tree) - {target} && target != nil
    {
      hide At, Removed, ValidTree, InOrder, Index, SuccessorCtx, LeftmostTree, Nodes, CtxNodes, Sorted;
      ghost var s := Repr();
      ghost var y, f := Position(tree, target, Top);
      PlugAt(Snapshot(s), y, f, nil);
      NodesPlug(y, f);
      ChildrenAt(Snapshot(s), y, f, nil);
      k := Index(y, f);
      if target.left != nil && target.right != nil {
        child := TakeOutInner(target, s, y, f);
        z, g, c := SuccessorCtx(y, f, Successor(f).e), Successor(f).r, Successor(f).c;
      } else {
        child := TakeOutOuter(target, s, y, f);
        z, g, c := y, OnlyChild(f), f.c;
      }
      RemovedFrame(Snapshot(s), Snapshot(s - {target}), z, g, c, nil, InOrder(tree)[..k] + InOrder(tree)[k + 1..]);
    }

    // The count and the colours, once the target is out (src/adt/dict.c:805-882).
    method DeleteAdjust(target: DNode, child: DNode, ghost s: set<DNode>, ghost z: Ctx, ghost g: Tree, ghost c: Color,
            ghost entries: seq<Entry>)
      returns (ghost t: Tree)
      requires Removed(Snapshot(s), z, g, c, nil, entries) && child == Root(g, nil) && target.color == c
      requires nodecount > 0
      modifies this`nodecount, s`left, s`right, s`parent, s`color
      ensures nodecount == old(nodecount) - 1
      ensures Adjusted(Snapshot(s), t, nil, entries) && Nodes(t) == CtxNodes(z) + Nodes(g)
    {
      hide Removed, Adjusted, Rebalanced, Deleting, Plug, InOrder, Nodes, CtxNodes;
      nodecount := nodecount - 1;
      ghost var h := Snapshot(s);
      if target.color == Black {
        StartDeleting(h, z, g, nil, entries);
        Paint(nil.left, Red, s);
        ghost var u := DeleteFixup(child, s, StartCtx(z), StartTree(z, g), 1, entries);
        BlackRoot(Snapshot(s), u, nil, entries);
        Paint(nil.left, Black, s);
        t := Blacken(u);
      } else {
        RedRemoved(h, z, g, nil, entries);
        t := Plug(z, g);
      }
      AdjustedInOrder(Snapshot(s), t, nil, entries);
      AdjustedNodes(h, z, g, c, nil, entries, t);
    }

    static method SetChild(parent: DNode, x: DNode, y: DNode, ghost s: set<DNode>)
      requires parent in s && (parent.left == x || parent.right == x)
      modifies s`left, s`right
      ensures Snapshot(s) ==
        old(Snapshot(s))[parent := WithKid(old(Snapshot(s))[parent], if old(parent.left) == x then L else R, y)]
    {
      if parent.left == x {
        parent.left := y;
      } else {
        assert parent.right == x;
        parent.right := y;
      }
    }

    // Moving the only child of a node (or the sentinel) up into the node's place
    // (src/adt/dict.c:755-763 for a successor, 789-798 for the target).
    method SpliceOut(node: DNode, child: DNode, parent: DNode, ghost s: set<DNode>, ghost z: Ctx, ghost f: Tree)
      requires At(Snapshot(s), z, f, nil) && AtMostOneChild(f) && node == f.e.node
      requires child == Root(OnlyChild(f), nil) && parent == Parent(z, nil)
      modifies s`left, s`right, s`parent
      ensures At(Snapshot(s), z, OnlyChild(f), nil) && nil.color == old(nil.color)
      ensures OnlyChild(f).Leaf? ==> nil.parent == parent
    {
      hide At, Nodes, CtxNodes;
      ghost var h := Snapshot(s);
      ParentAt(h, z, f, nil);
      ChildAt(h, z, f, nil);
      child.parent := parent;
      SetChild(parent, node, child, s);
      SpliceAt(h, Snapshot(s), z, f, nil);
    }

    // The successor takes the target's links and colour, and gives it its own colour.
    static method TakeOver(target: DNode, next: DNode, delparent: DNode, ghost s: set<DNode>)
      requires {target, next, delparent} <= s && target.left in s && target.right in s
      requires next !in {target, target.left, target.right} && target !in {target.left, target.right}
      modifies s`left, s`right, s`parent, s`color
      ensures var h, h' := old(Snapshot(s)), Snapshot(s);
        && h'[next] == Cell(h[target].left, h[target].right, delparent, h[target].color, h[next].key)
        && forall n :: n in s && n != next ==>
             h'[n] == h[n].(parent := if n == h[target].left || n == h[target].right then next else h[n].parent,
                            color := if n == target then h[next].color else h[n].color)
    {
      var nextcolor := next.color;
      next.parent := delparent;
      next.left := target.left;
      next.right := target.right;
      next.left.parent := next;
      next.right.parent := next;
      next.color := target.color;
      target.color := nextcolor;
    }

    // Installing the successor in place of the target (src/adt/dict.c:770-783).
    method ReplaceNode(target: DNode, next: DNode, delparent: DNode, ghost s: set<DNode>, ghost z: Ctx, ghost f: Tree)
      requires At(Snapshot(s), z, f, nil) && f.Bin? && f.l.Bin? && target == f.e.node && delparent == Parent(z, nil)
      requires next in s && next !in Nodes(f) && next !in CtxNodes(z) && next != nil
      modifies s`left, s`right, s`parent, s`color
      ensures At(Snapshot(s), z, f.(e := Entry(next, next.key)), nil)
      ensures nil.color == old(nil.color) && target.color == old(next.color)
      ensures nil.parent == if f.r.Leaf? then next else old(nil.parent)
    {
      hide At, Nodes, CtxNodes;
      ghost var h := Snapshot(s);
      ParentAt(h, z, f, nil);
      ChildrenAt(h, z, f, nil);
      TakeOver(target, next, delparent, s);
      SetChild(delparent, target, next, s);
      ReplaceAt(h, Snapshot(s), z, f, Entry(next, next.key), nil);
    }

    // A target with at most one child (src/adt/dict.c:786-798).
    method TakeOutOuter(target: DNode, ghost s: set<DNode>, ghost z: Ctx, ghost f: Tree) returns (child: DNode)
      requires At(Snapshot(s), z, f, nil) && nil.color == Black && ValidTree(Plug(z, f))
      requires AtMostOneChild(f) && target == f.e.node
      modifies s`left, s`right, s`parent
      ensures var entries, k := InOrder(Plug(z, f)), Index(z, f);
        && k < |entries| && entries[k] == f.e && child == Root(OnlyChild(f), nil) && target.color == f.c
        && Removed(Snapshot(s), z, OnlyChild(f), f.c, nil, entries[..k] + entries[k + 1..])
      ensures CtxNodes(z) + Nodes(OnlyChild(f)) == CtxNodes(z) + Nodes(f) - {target}
    {
      hide At, Removed, ValidTree, Plug, InOrder, Index;
      ChildrenAt(Snapshot(s), z, f, nil);
      OneChildNodes(Snapshot(s), z, f, nil);
      child := if target.left != nil then target.left else target.right;
      SpliceOut(target, child, target.parent, s, z, f);
      OneChildRemoved(Snapshot(s), z, f, nil);
    }

    // A target with two children (src/adt/dict.c:741-783).
    method TakeOutInner(target: DNode, ghost s: set<DNode>, ghost z: Ctx, ghost f: Tree) returns (child: DNode)
      requires At(Snapshot(s), z, f, nil) && nil.color == Black && ValidTree(Plug(z, f))
      requires TwoChildren(f) && target == f.e.node
      modifies s`left, s`right, s`parent, s`color
      ensures var entries, k, n := InOrder(Plug(z, f)), Index(z, f), Successor(f);
        && k < |entries| && entries[k] == f.e && child == Root(n.r, nil) && target.color == n.c
        && Removed(Snapshot(s), SuccessorCtx(z, f, n.e), n.r, n.c, nil, entries[..k] + entries[k + 1..])
        && CtxNodes(SuccessorCtx(z, f, n.e)) + Nodes(n.r) == CtxNodes(z) + Nodes(f) - {target}
    {
      hide At, Removed, ValidTree, Plug, InOrder, Index, SuccessorCtx, Successor, Regraft, Nodes, CtxNodes;
      var delparent := target.parent;
      ghost var h, y, n := Snapshot(s), SuccessorCtx(z, f, f.e), Successor(f);
      ChildrenAt(h, z, f, nil);
      AtWalkable(h, z, f, nil);
      SuccessorBefore(h, z, f, nil);
      SuccessorNodes(h, z, f, nil);
      var next := NextFrom(target, nil, s, z, f, {});
      assert next == n.e.node;
      ChildrenAt(Snapshot(s), y, n, nil);
      child := next.right;
      SpliceOut(next, child, next.parent, s, y, n);
      SuccessorOut(Snapshot(s), z, f, nil);
      ReplaceNode(target, next, delparent, s, z, Without(f, f.e));
      SuccessorParents(z, f, nil);
      SuccessorInstalled(Snapshot(s), z, f, nil);
    }

    // The adjustments of dict_delete (src/adt/dict.c:816-880), with the root painted red.
    method DeleteFixup(start: DNode, ghost s: set<DNode>, ghost z0: Ctx, ghost f0: Tree, ghost bh0: nat,
            ghost entries: seq<Entry>)
      returns (ghost t: Tree)
      requires Deleting(Snapshot(s), z0, f0, bh0, nil, entries) && start == Root(f0, nil) && start in s
      requires f0.Leaf? ==> nil.parent == Parent(z0, nil)
      modifies s`left, s`right, s`parent, s`color
      ensures Rebalanced(Snapshot(s), t, nil, entries) && (entries == [] ==> nil.parent == nil)
    {
      hide Deleting, Rebalanced, Plug;
      var child := start;
      ghost var z, f, bh := z0, f0, bh0;
      DeleteView(Snapshot(s), z, f, bh, nil, entries);
      while child.color == Black
        invariant Deleting(Snapshot(s), z, f, bh, nil, entries) && child == Root(f, nil) && child in s
        invariant f.Leaf? ==> nil.parent == Parent(z, nil)
        decreases Depth(z) + if IsBlack(f) then 1 else 0
      {
        DeleteView(Snapshot(s), z, f, bh, nil, entries);
        var parent := child.parent;
        var done;
        if child == parent.left {
          done, z, t, bh := AdjustLeft(child, parent, s, z, f, bh, entries);
        } else {
          assert child == parent.right;
          done, z, t, bh := AdjustRight(child, parent, s, z, f, bh, entries);
        }
        if done {
          PaintAgain(child, s, t, entries);
          return;
        }
        child, f := parent, t;
        DeleteView(Snapshot(s), z, f, bh, nil, entries);
      }
      DeleteView(Snapshot(s), z, f, bh, nil, entries);
      t := EndFixup(child, s, z, f, bh, entries);
    }

    // The node is black already.
    method PaintAgain(child: DNode, ghost s: set<DNode>, ghost t: Tree, ghost entries: seq<Entry>)
      requires Rebalanced(Snapshot(s), t, nil, entries) && child in s && child.color == Black
      modifies s`color
      ensures Rebalanced(Snapshot(s), t, nil, entries)
    {
      hide Rebalanced;
      ghost var h := Snapshot(s);
      Paint(child, Black, s);
      assert Snapshot(s) == h;
    }

    // The node that carries the missing black becomes black (src/adt/dict.c:880).
    method EndFixup(child: DNode, ghost s: set<DNode>, ghost z: Ctx, ghost f: Tree, ghost bh: nat,
            ghost entries: seq<Entry>)
      returns (ghost t: Tree)
      requires Deleting(Snapshot(s), z, f, bh, nil, entries) && child == Root(f, nil) && child in s
      requires !(IsBlack(f) && z.In?) && (f.Leaf? ==> nil.parent == Parent(z, nil))
      modifies s`color
      ensures Rebalanced(Snapshot(s), t, nil, entries) && (entries == [] ==> nil.parent == nil)
    {
      hide Deleting, Rebalanced, Plug;
      DeleteDone(Snapshot(s), z, f, bh, nil, entries);
      t := Plug(z, Blacken(f));
      Paint(child, Black, s);
    }

    // The node is a left child (src/adt/dict.c:818-846): one pass of the loop body. `done` when it breaks,
    // otherwise the missing black has moved up to the parent.
    method AdjustLeft(child: DNode, parent: DNode, ghost s: set<DNode>, ghost z0: Ctx, ghost f: Tree, ghost bh: nat,
            ghost entries: seq<Entry>)
      returns (done: bool, ghost z: Ctx, ghost t: Tree, ghost bh': nat)
      requires Deleting(Snapshot(s), z0, f, bh, nil, entries) && IsBlack(f) && z0.In? && z0.side == L
      requires child == Root(f, nil) && parent == z0.e.node
      modifies s`left, s`right, s`parent, s`color
      ensures done ==> Rebalanced(Snapshot(s), t, nil, entries) && entries != [] && child in s && child.color == Black
      ensures !done ==> Deleting(Snapshot(s), z, t, bh', nil, entries) && t.Bin? && t.e.node == parent
      ensures !done ==> Depth(z) + (if IsBlack(t) then 1 else 0) <= Depth(z0)
    {
      hide Deleting, Rebalanced, Rotation, CanRotate, Plug;
      z, t, bh' := z0, f, bh;
      DeleteView(Snapshot(s), z, f, bh, nil, entries);
      var sister := parent.right;
      assert sister != nil;
      if sister.color == Red {
        z := RedSisterLeft(sister, parent, s, z, f, bh, entries);
        DeleteView(Snapshot(s), z, f, bh, nil, entries);
        sister := parent.right;
        assert sister != nil;
      }
      if sister.left.color == Black && sister.right.color == Black {
        BlackNephewsStep(Snapshot(s), z, f, bh, nil, entries);
        Paint(sister, Red, s);
        t, bh' := Whole(RedderSister(z), f), if z.c.Black? then bh + 1 else bh;
        z := z.up;
        done := false;
      } else {
        if sister.right.color == Black {
          assert sister.left.color == Red;
          z := InnerNephewLeft(sister, s, z, f, bh, entries);
          DeleteView(Snapshot(s), z, f, bh, nil, entries);
          sister := parent.right;
          assert sister != nil;
        }
        t := OuterNephewLeft(sister, parent, s, z, f, bh, entries);
        done := true;
      }
    }

    method RedSisterLeft(sister: DNode, parent: DNode, ghost s: set<DNode>, ghost z0: Ctx, ghost f: Tree,
            ghost bh: nat, ghost entries: seq<Entry>)
      returns (ghost z: Ctx)
      requires Deleting(Snapshot(s), z0, f, bh, nil, entries) && IsBlack(f) && z0.In? && z0.side == L
      requires z0.sib.Bin? && z0.sib.c.Red? && sister == z0.sib.e.node && parent == z0.e.node
      modifies s`left, s`right, s`parent, s`color
      ensures Deleting(Snapshot(s), z, f, bh, nil, entries) && z == RedSister(z0) && z.sib.Bin? && z.sib.c.Black?
    {
      hide Deleting, Rotation, CanRotate;
      ghost var h := Snapshot(s);
      RedSisterCan(h, z0, f, bh, nil, entries);
      Paint(sister, Black, s);
      Paint(parent, Red, s);
      RotateLeft(parent, s);
      RedSisterStep(h, Snapshot(s), z0, f, bh, nil, entries);
      z := RedSister(z0);
    }

    method InnerNephewLeft(sister: DNode, ghost s: set<DNode>, ghost z0: Ctx, ghost f: Tree, ghost bh: nat,
            ghost entries: seq<Entry>)
      returns (ghost z: Ctx)
      requires Deleting(Snapshot(s), z0, f, bh, nil, entries) && IsBlack(f) && z0.In? && z0.side == L
      requires z0.sib.Bin? && z0.sib.c.Black? && sister == z0.sib.e.node
      requires Upper(L, z0.sib).Bin? && Upper(L, z0.sib).c.Red? && IsBlack(Lower(L, z0.sib))
      modifies s`left, s`right, s`parent, s`color
      ensures Deleting(Snapshot(s), z, f, bh, nil, entries) && z == InnerNephew(z0)
    {
      hide Deleting, Rotation, CanRotate;
      ghost var h := Snapshot(s);
      DeleteView(h, z0, f, bh, nil, entries);
      InnerNephewCan(h, z0, f, bh, nil, entries);
      Paint(sister.left, Black, s);
      Paint(sister, Red, s);
      RotateRight(sister, s);
      InnerNephewStep(h, Snapshot(s), z0, f, bh, nil, entries);
      z := InnerNephew(z0);
    }

    method OuterNephewLeft(sister: DNode, parent: DNode, ghost s: set<DNode>, ghost z: Ctx, ghost f: Tree,
            ghost bh: nat, ghost entries: seq<Entry>)
      returns (ghost t: Tree)
      requires Deleting(Snapshot(s), z, f, bh, nil, entries) && IsBlack(f) && z.In? && z.side == L
      requires z.sib.Bin? && z.sib.c.Black? && sister == z.sib.e.node && parent == z.e.node
      requires Lower(L, z.sib).Bin? && Lower(L, z.sib).c.Red?
      modifies s`left, s`right, s`parent, s`color
      ensures Rebalanced(Snapshot(s), t, nil, entries) && entries != [] && Root(f, nil) in s
      ensures Root(f, nil).color == Black
    {
      hide Deleting, Rebalanced, Rotation, CanRotate, Plug;
      ghost var h := Snapshot(s);
      DeleteView(h, z, f, bh, nil, entries);
      OuterNephewCan(h, z, f, bh, nil, entries);
      Paint(sister, parent.color, s);
      Paint(sister.right, Black, s);
      Paint(parent, Black, s);
      RotateLeft(parent, s);
      OuterNephewStep(h, Snapshot(s), z, f, bh, nil, entries);
      t := Plug(z.up, OuterNephew(z, f));
    }

    // The mirror image (src/adt/dict.c:847-877): one pass of the loop body. `done` when it breaks,
    // otherwise the missing black has moved up to the parent.
    method AdjustRight(child: DNode, parent: DNode, ghost s: set<DNode>, ghost z0: Ctx, ghost f: Tree, ghost bh: nat,
            ghost entries: seq<Entry>)
      returns (done: bool, ghost z: Ctx, ghost t: Tree, ghost bh': nat)
      requires Deleting(Snapshot(s), z0, f, bh, nil, entries) && IsBlack(f) && z0.In? && z0.side == R
      requires child == Root(f, nil) && parent == z0.e.node
      modifies s`left, s`right, s`parent, s`color
      ensures done ==> Rebalanced(Snapshot(s), t, nil, entries) && entries != [] && child in s && child.color == Black
      ensures !done ==> Deleting(Snapshot(s), z, t, bh', nil, entries) && t.Bin? && t.e.node == parent
      ensures !done ==> Depth(z) + (if IsBlack(t) then 1 else 0) <= Depth(z0)
    {
      hide Deleting, Rebalanced, Rotation, CanRotate, Plug;
      z, t, bh' := z0, f, bh;
      DeleteView(Snapshot(s), z, f, bh, nil, entries);
      var sister := parent.left;
      assert sister != nil;
      if sister.color == Red {
        z := RedSisterRight(sister, parent, s, z, f, bh, entries);
        DeleteView(Snapshot(s), z, f, bh, nil, entries);
        sister := parent.left;
        assert sister != nil;
      }
      if sister.right.color == Black && sister.left.color == Black {
        BlackNephewsStep(Snapshot(s), z, f, bh, nil, entries);
        Paint(sister, Red, s);
        t, bh' := Whole(RedderSister(z), f), if z.c.Black? then bh + 1 else bh;
        z := z.up;
        done := false;
      } else {
        if sister.left.color == Black {
          assert sister.right.color == Red;
          z := InnerNephewRight(sister, s, z, f, bh, entries);
          DeleteView(Snapshot(s), z, f, bh, nil, entries);
          sister := parent.left;
          assert sister != nil;
        }
        t := OuterNephewRight(sister, parent, s, z, f, bh, entries);
        done := true;
      }
    }

    method RedSisterRight(sister: DNode, parent: DNode, ghost s: set<DNode>, ghost z0: Ctx, ghost f: Tree,
            ghost bh: nat, ghost entries: seq<Entry>)
      returns (ghost z: Ctx)
      requires Deleting(Snapshot(s), z0, f, bh, nil, entries) && IsBlack(f) && z0.In? && z0.side == R
      requires z0.sib.Bin? && z0.sib.c.Red? && sister == z0.sib.e.node && parent == z0.e.node
      modifies s`left, s`right, s`parent, s`color
      ensures Deleting(Snapshot(s), z, f, bh, nil, entries) && z == RedSister(z0) && z.sib.Bin? && z.sib.c.Black?
    {
      hide Deleting, Rotation, CanRotate;
      ghost var h := Snapshot(s);
      RedSisterCan(h, z0, f, bh, nil, entries);
      Paint(sister, Black, s);
      Paint(parent, Red, s);
      RotateRight(parent, s);
      RedSisterStep(h, Snapshot(s), z0, f, bh, nil, entries);
      z := RedSister(z0);
    }

    method InnerNephewRight(sister: DNode, ghost s: set<DNode>, ghost z0: Ctx, ghost f: Tree, ghost bh: nat,
            ghost entries: seq<Entry>)
      returns (ghost z: Ctx)
      requires Deleting(Snapshot(s), z0, f, bh, nil, entries) && IsBlack(f) && z0.In? && z0.side == R
      requires z0.sib.Bin? && z0.sib.c.Black? && sister == z0.sib.e.node
      requires Upper(R, z0.sib).Bin? && Upper(R, z0.sib).c.Red? && IsBlack(Lower(R, z0.sib))
      modifies s`left, s`right, s`parent, s`color
      ensures Deleting(Snapshot(s), z, f, bh, nil, entries) && z == InnerNephew(z0)
    {
      hide Deleting, Rotation, CanRotate;
      ghost var h := Snapshot(s);
      DeleteView(h, z0, f, bh, nil, entries);
      InnerNephewCan(h, z0, f, bh, nil, entries);
      Paint(sister.right, Black, s);
      Paint(sister, Red, s);
      RotateLeft(sister, s);
      InnerNephewStep(h, Snapshot(s), z0, f, bh, nil, entries);
      z := InnerNephew(z0);
    }

    method OuterNephewRight(sister: DNode, parent: DNode, ghost s: set<DNode>, ghost z: Ctx, ghost f: Tree,
            ghost bh: nat, ghost entries: seq<Entry>)
      returns (ghost t: Tree)
      requires Deleting(Snapshot(s), z, f, bh, nil, entries) && IsBlack(f) && z.In? && z.side == R
      requires z.sib.Bin? && z.sib.c.Black? && sister == z.sib.e.node && parent == z.e.node
      requires Lower(R, z.sib).Bin? && Lower(R, z.sib).c.Red?
      modifies s`left, s`right, s`parent, s`color
      ensures Rebalanced(Snapshot(s), t, nil, entries) && entries != [] && Root(f, nil) in s
      ensures Root(f, nil).color == Black
    {
      hide Deleting, Rebalanced, Rotation, CanRotate, Plug;
      ghost var h := Snapshot(s);
      DeleteView(h, z, f, bh, nil, entries);
      OuterNephewCan(h, z, f, bh, nil, entries);
      Paint(sister, parent.color, s);
      Paint(sister.left, Black, s);
      Paint(parent, Black, s);
      RotateRight(parent, s);
      OuterNephewStep(h, Snapshot(s), z, f, bh, nil, entries);
      t := Plug(z.up, OuterNephew(z, f));
    }
  }

  // `s` is `b + a`, and `a` starts at the place for `key`.
  ghost predicate SplitsAt(s: seq<Entry>, b: seq<Entry>, a: seq<Entry>, key: Key, cmp: Comparator)
  {
    s == b + a && InsertPoint(s, |b|, key, cmp)
  }

  lemma SplitPoint(s: seq<Entry>, b: seq<Entry>, a: seq<Entry>, key: Key, cmp: Comparator)
    requires SplitsAt(s, b, a, key, cmp)
    ensures InsertPoint(s, |b|, key, cmp) && |b| <= |s| && s[..|b|] == b && s[|b|..] == a
  {
  }

  lemma PlacePoint(z: Ctx, key: Key, cmp: Comparator)
    requires Parted(z, Above(cmp, key))
    ensures SplitsAt(InOrder(Plug(z, Leaf)), Before(z), After(z), key, cmp)
  {
    PartedWhole(z, Above(cmp, key));
  }

  lemma SortedInsert(s: seq<Entry>, p: int, e: Entry, cmp: Comparator, dupes: bool)
    requires TotalPreorder(cmp) && Sorted(s, cmp, dupes) && InsertPoint(s, p, e.key, cmp)
    requires !dupes ==> forall e' :: e' in s ==> cmp(e.key, e'.key) != 0
    ensures Sorted(s[..p] + [e] + s[p..], cmp, dupes)
  {
  }

  lemma NodesOfInsert(t: Tree, s: seq<Entry>, p: int, e: Entry, t': Tree)
    requires InOrder(t) == s && 0 <= p <= |s| && InOrder(t') == s[..p] + [e] + s[p..]
    ensures Nodes(t') == Nodes(t) + {e.node}
  {
    NodesInOrder(t);
    NodesInOrder(t');
    assert s == s[..p] + s[p..];
  }

  lemma InsertFinish(h: Heap, old_: Tree, t: Tree, nil: DNode, p: int, e: Entry, cmp: Comparator, dupes: bool)
    requires TotalPreorder(cmp) && Sorted(InOrder(old_), cmp, dupes) && InsertPoint(InOrder(old_), p, e.key, cmp)
    requires !dupes ==> forall e' :: e' in InOrder(old_) ==> cmp(e.key, e'.key) != 0
    requires Rebalanced(h, t, nil, InOrder(old_)[..p] + [e] + InOrder(old_)[p..])
    ensures h[nil].left in h && h[nil].left != null && h[nil].left != nil
    ensures WellFormed(Painted(h, h[nil].left, Black), Blacken(t), nil, cmp, dupes, |InOrder(old_)| + 1)
    ensures InOrder(Blacken(t)) == InOrder(old_)[..p] + [e] + InOrder(old_)[p..]
    ensures Nodes(Blacken(t)) == Nodes(old_) + {e.node}
  {
    var entries := InOrder(old_)[..p] + [e] + InOrder(old_)[p..];
    RootAt(h, t, nil, entries);
    SortedInsert(InOrder(old_), p, e, cmp, dupes);
    NodesOfInsert(old_, InOrder(old_), p, e, Blacken(t));
  }

  // Deleting entry `k` left a dictionary.
  lemma AdjustedWellFormed(h: Heap, old_: Tree, k: int, t: Tree, nil: DNode, cmp: Comparator, dupes: bool)
    requires 0 <= k < |InOrder(old_)| && Sorted(InOrder(old_), cmp, dupes)
    requires Adjusted(h, t, nil, InOrder(old_)[..k] + InOrder(old_)[k + 1..])
    ensures WellFormed(h, t, nil, cmp, dupes, |InOrder(old_)| - 1)
    ensures InOrder(t) == InOrder(old_)[..k] + InOrder(old_)[k + 1..]
  {
    SortedCut(InOrder(old_), k, cmp, dupes);
  }

  lemma WellFormedOrder(h: Heap, t: Tree, nil: DNode, cmp: Comparator, dupes: bool, count: nat)
    requires WellFormed(h, t, nil, cmp, dupes, count)
    ensures Sorted(InOrder(t), cmp, dupes) && count == |InOrder(t)|
  {
  }
}
