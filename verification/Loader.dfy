/**
  Bulk loading and merging: dict_load_begin, dict_load_next, dict_load_end and dict_merge of
  src/adt/dict.c. Loaded nodes wait in a list linked through their left links.
 */
module Loader {
  import opened RedBlackTree
  import opened Search
  import opened Dictionary
  import opened LoadTree

  // ---------------------------------------------------------------- the stack on linked nodes

  // The half-built trees of `z`: left links, colours, keys and left subtrees.
  ghost predicate HalfLinked(h: Heap, z: Ctx, nil: DNode)
  {
    z.Top? ||
    (var n := z.e.node;
     && z.side.R? && n in h && h[n].left == Root(z.sib, nil) && h[n].color == z.c && h[n].key == z.e.key
     && Linked(h, z.sib, n, nil) && HalfLinked(h, z.up, nil))
  }

  ghost predicate Under(h: Heap, f: Tree, nil: DNode)
  {
    f.Leaf? || (f.e.node in h && Linked(h, f, h[f.e.node].parent, nil))
  }

  // Half-built trees and one complete tree, or none.
  ghost predicate Stacked(h: Heap, z: Ctx, f: Tree, nil: DNode)
  {
    && CtxDistinct(z) && Distinct(f) && Nodes(f) !! CtxNodes(z) && nil !in Nodes(f) && nil !in CtxNodes(z)
    && HalfLinked(h, z, nil) && Under(h, f, nil)
  }

  lemma {:induction false} HalfFrame(h: Heap, h': Heap, z: Ctx, nil: DNode)
    requires HalfLinked(h, z, nil) && Agree(h, h', CtxNodes(z))
    ensures HalfLinked(h', z, nil)
  {
    if z.In? {
      LinkedFrame(h, h', z.sib, z.e.node, nil);
      HalfFrame(h, h', z.up, nil);
    }
  }

  // The top half-built tree got its right subtree.
  lemma JoinStacked(h: Heap, h': Heap, z: Ctx, f: Tree, nil: DNode)
    requires Stacked(h, z, f, nil) && z.In?
    requires z.e.node in h && z.e.node in h' && h'[z.e.node] == h[z.e.node].(right := Root(f, nil))
    requires f.Bin? ==> f.e.node in h' && h'[f.e.node] == h[f.e.node].(parent := z.e.node)
    requires Agree(h, h', CtxNodes(z) + Nodes(f) - {z.e.node, Root(f, nil)})
    ensures Stacked(h', z.up, Bin(z.sib, z.c, z.e, f), nil)
  {
    LinkedFrame(h, h', z.sib, z.e.node, nil);
    HalfFrame(h, h', z.up, nil);
    if f.Bin? { Reroot(h, h', f, h[f.e.node].parent, z.e.node, f.c, nil); }
  }

  lemma LeafStacked(h: Heap, h': Heap, z: Ctx, c: Color, e: Entry, nil: DNode)
    requires Stacked(h, z, Leaf, nil) && e.node !in CtxNodes(z) && e.node != nil
    requires e.node in h' && h'[e.node] == Cell(nil, nil, h'[e.node].parent, c, e.key)
    requires Agree(h, h', CtxNodes(z))
    ensures Stacked(h', z, Bin(Leaf, c, e, Leaf), nil)
  {
    HalfFrame(h, h', z, nil);
    assert Nodes(Bin(Leaf, c, e, Leaf)) == {e.node};
  }

  lemma NodeStacked(h: Heap, h': Heap, z: Ctx, f: Tree, c: Color, e: Entry, nil: DNode)
    requires Stacked(h, z, f, nil) && f.Bin? && e.node !in CtxNodes(z) + Nodes(f) && e.node != nil
    requires e.node in h' && h'[e.node].left == f.e.node && h'[e.node].color == c && h'[e.node].key == e.key
    requires f.e.node in h' && h'[f.e.node] == h[f.e.node].(parent := e.node)
    requires Agree(h, h', CtxNodes(z) + Nodes(f) - {f.e.node})
    ensures Stacked(h', In(R, z, c, e, f), Leaf, nil)
  {
    HalfFrame(h, h', z, nil);
    Reroot(h, h', f, h[f.e.node].parent, e.node, f.c, nil);
  }

  // ---------------------------------------------------------------- the loop of dict_load_end

  ghost function NodeAt(list: seq<Entry>, i: nat, nil: DNode): DNode { if i < |list| then list[i].node else nil }

  // From entry `i` on, the loaded nodes are linked through their left links, ending at `loadnil`.
  ghost predicate Chain(h: Heap, list: seq<Entry>, i: nat, loadnil: DNode)
  {
    forall j :: i <= j < |list| ==>
      list[j].node in h && h[list[j].node].left == NodeAt(list, j + 1, loadnil) && h[list[j].node].key == list[j].key
  }

  ghost predicate NoDup(list: seq<Entry>) { forall i, j :: 0 <= i < j < |list| ==> list[i].node != list[j].node }

  // The array `tree` of the source.
  ghost predicate Tops(arr: seq<DNode?>, pend: seq<Tree>)
  {
    |arr| == |pend| == DICT_DEPTH_MAX &&
    forall j :: 0 <= j < DICT_DEPTH_MAX ==> arr[j] == if pend[j].Leaf? then null else pend[j].e.node
  }

  ghost predicate Loading(h: Heap, arr: seq<DNode?>, b: Build, list: seq<Entry>, i: nat, nil: DNode, loadnil: DNode)
  {
    && Tops(arr, b.pend) && Stacked(h, Spine(b.pend, 0), b.comp, nil)
    && i <= |list| && Loaded(b) == list[..i] && NoDup(list) && Chain(h, list, i, loadnil)
    && (forall j :: 0 <= j < |list| ==> list[j].node in h && list[j].node != nil && list[j].node != loadnil)
    && (forall j :: i <= j < |list| ==> list[j].node !in CtxNodes(Spine(b.pend, 0)) + Nodes(b.comp))
  }

  // ---- carrying

  lemma CarryLoading(h: Heap, h': Heap, arr: seq<DNode?>, b: Build, list: seq<Entry>, i: nat, nil: DNode,
          loadnil: DNode, k: nat)
    requires Loading(h, arr, b, list, i, nil, loadnil) && Carrying(b, k) && b.pend[b.level].Bin?
    requires var n, c := b.pend[b.level].e.node, b.comp.e.node;
      && n in h && c in h && h'.Keys == h.Keys
      && h'[n] == h[n].(right := c) && h'[c] == h[c].(parent := n)
      && forall x :: x in h && x != n && x != c ==> h'[x] == h[x]
    ensures Loading(h', arr[b.level := null], Carried(b), list, i, nil, loadnil)
  {
    hide Stacked, Before, InOrder, Spine;
    var z := Spine(b.pend, 0);
    SpinePop(b.pend, b.level);
    JoinStacked(h, h', z, b.comp, nil);
    var f := b.pend[b.level].(r := b.comp);
    CarryContents(b);
  }

  // What the state says about the array and the nodes in it.
  lemma CarryView(h: Heap, arr: seq<DNode?>, b: Build, list: seq<Entry>, i: nat, nil: DNode, loadnil: DNode, k: nat)
    requires Loading(h, arr, b, list, i, nil, loadnil) && Carrying(b, k)
    ensures |arr| == |b.pend| == DICT_DEPTH_MAX && b.level < DICT_DEPTH_MAX && b.has && b.comp.Bin?
    ensures arr[b.level] == null <==> b.pend[b.level].Leaf?
    ensures b.comp.e.node in h
    ensures b.pend[b.level].Bin? ==>
      arr[b.level] == b.pend[b.level].e.node && arr[b.level] in h && arr[b.level] != b.comp.e.node
  {
    if b.pend[b.level].Bin? { SpinePop(b.pend, b.level); }
  }

  lemma BottomView(h: Heap, arr: seq<DNode?>, b: Build, list: seq<Entry>, i: nat, nil: DNode, loadnil: DNode)
    requires Loading(h, arr, b, list, i, nil, loadnil)
    ensures |arr| == |b.pend| == DICT_DEPTH_MAX && (arr[0] == null <==> b.pend[0].Leaf?)
    ensures b.pend[0].Bin? ==> arr[0] == b.pend[0].e.node && arr[0] in h
    ensures i < |list| ==> list[i].node in h
  {
    if b.pend[0].Bin? { SpinePop(b.pend, 0); }
  }

  lemma NodeView(h: Heap, arr: seq<DNode?>, b: Build, list: seq<Entry>, i: nat, nil: DNode, loadnil: DNode, k: nat)
    requires Loading(h, arr, b, list, i, nil, loadnil) && i < |list| && Shape(b, k) && b.has
    ensures |arr| == |b.pend| == DICT_DEPTH_MAX && b.level < DICT_DEPTH_MAX
    ensures list[i].node in h && b.comp.e.node in h && list[i].node != b.comp.e.node
  {
  }

  lemma LoadView(h: Heap, arr: seq<DNode?>, b: Build, list: seq<Entry>, i: nat, nil: DNode, loadnil: DNode, k: nat)
    requires Loading(h, arr, b, list, i, nil, loadnil) && Shape(b, k)
    ensures |arr| == |b.pend| == DICT_DEPTH_MAX && b.base <= 1 && (b.has <==> b.comp.Bin?)
    ensures (!b.has ==> b.level == b.base)
    ensures NodeAt(list, i, loadnil) == loadnil <==> i == |list|
    ensures i < |list| ==> list[i].node in h && h[list[i].node].left == NodeAt(list, i + 1, loadnil)
  {
  }

  lemma StartLoading(h: Heap, h': Heap, arr: seq<DNode?>, list: seq<Entry>, nil: DNode, loadnil: DNode)
    requires LoadList(h, list, loadnil) && Agree(h, h', h.Keys) && nil !in h
    requires |arr| == DICT_DEPTH_MAX && forall j :: 0 <= j < |arr| ==> arr[j] == null
    ensures Loading(h', arr, EmptyBuild(), list, 0, nil, loadnil)
    ensures loadnil in h && h[loadnil].left == NodeAt(list, 0, loadnil)
  {
    EmptySpine(EmptyBuild().pend, 0);
    assert list[..0] == [];
  }

  lemma StartList(h: Heap, list: seq<Entry>, loadnil: DNode)
    requires LoadList(h, list, loadnil)
    ensures loadnil in h && h[loadnil].left == NodeAt(list, 0, loadnil)
  {
  }

  lemma EndLoading(h: Heap, arr: seq<DNode?>, b: Build, list: seq<Entry>, nil: DNode, loadnil: DNode, k: nat)
    requires Loading(h, arr, b, list, |list|, nil, loadnil) && Shape(b, k)
    ensures Tops(arr, b.pend) && Stacked(h, Spine(b.pend, 0), b.comp, nil) && Loaded(b) == list
    ensures b.has <==> b.comp.Bin?
  {
    assert list[..|list|] == list;
  }

  lemma LoadedWellFormed(h: Heap, h': Heap, f: Tree, nil: DNode, list: seq<Entry>, cmp: Comparator, dupes: bool)
    requires At(h, Top, Blacken(f), nil) && h[nil].color == Black && (f.Leaf? ==> h[nil].parent == nil)
    requires InOrder(f) == list && Sorted(list, cmp, dupes) && exists k: nat :: RowTree(f, k)
    requires Agree(h, h', EntryNodes(list) + {nil})
    ensures WellFormed(h', Blacken(f), nil, cmp, dupes, |list|)
    ensures InOrder(Blacken(f)) == list && Nodes(Blacken(f)) == EntryNodes(list)
  {
    NodesInOrder(Blacken(f));
    assert InOrder(Blacken(f)) == list;
    AtFrame(h, h', Top, Blacken(f), nil);
    var k: nat :| RowTree(f, k);
    PlugValid(Top, f, 1 + (k + 1) / 2);
  }

  lemma SameLoading(h: Heap, arr: seq<DNode?>, b: Build, b': Build, list: seq<Entry>, i: nat, nil: DNode,
          loadnil: DNode)
    requires Loading(h, arr, b, list, i, nil, loadnil) && b'.pend == b.pend && b'.comp == b.comp
    ensures Loading(h, arr, b', list, i, nil, loadnil)
  {
  }

  // ---- the bottom row is full

  lemma BottomLoading(h: Heap, h': Heap, arr: seq<DNode?>, b: Build, list: seq<Entry>, i: nat, nil: DNode,
          loadnil: DNode, k: nat)
    requires Loading(h, arr, b, list, i, nil, loadnil) && Shape(b, k) && !b.has && b.pend[0].Bin?
    requires var n := b.pend[0].e.node;
      n in h && h' == h[n := h[n].(right := nil)]
    ensures Loading(h', arr[0 := null], BottomDone(b), list, i, nil, loadnil)
  {
    hide Stacked, Before, InOrder, Spine;
    var z := Spine(b.pend, 0);
    SpinePop(b.pend, 0);
    JoinStacked(h, h', z, Leaf, nil);
    BottomContents(b);
  }

  // The nodes still in the list are untouched by what happens to those already taken.
  lemma RestLoading(h: Heap, h': Heap, z: Ctx, f: Tree, list: seq<Entry>, i: nat, nil: DNode, loadnil: DNode)
    requires i < |list| && NoDup(list) && Chain(h, list, i, loadnil)
    requires forall j :: i <= j < |list| ==> list[j].node !in CtxNodes(z) + Nodes(f)
    requires forall x :: x in h && x != list[i].node && x !in Nodes(f) ==> x in h' && h'[x] == h[x]
    ensures Chain(h', list, i + 1, loadnil)
  {
  }

  // ---- a leaf

  lemma LeafLoading(h: Heap, h': Heap, arr: seq<DNode?>, b: Build, list: seq<Entry>, i: nat, nil: DNode,
          loadnil: DNode, k: nat)
    requires Loading(h, arr, b, list, i, nil, loadnil) && Shape(b, k) && !b.has && i < |list|
    requires var n := list[i].node;
      n in h && h' == h[n := h[n].(left := nil, right := nil, color := RowColor(b.base))]
    ensures Loading(h', arr, WithLeaf(b, list[i]), list, i + 1, nil, loadnil)
  {
    var z := Spine(b.pend, 0);
    LeafStacked(h, h', z, RowColor(b.base), list[i], nil);
    LeafContents(b, list[i]);
    assert list[..i + 1] == list[..i] + [list[i]];
  }

  // ---- a node over the complete tree

  lemma NodeLoading(h: Heap, h': Heap, arr: seq<DNode?>, b: Build, list: seq<Entry>, i: nat, nil: DNode,
          loadnil: DNode, k: nat)
    requires Loading(h, arr, b, list, i, nil, loadnil) && Shape(b, k) && b.has && b.level < k && i < |list|
    requires var n, c := list[i].node, b.comp.e.node;
      && n in h && c in h && h'.Keys == h.Keys
      && h'[n] == h[n].(left := c, color := RowColor(b.level + 1)) && h'[c] == h[c].(parent := n)
      && forall x :: x in h && x != n && x != c ==> h'[x] == h[x]
    ensures Loading(h', arr[b.level := list[i].node], WithNode(b, list[i]), list, i + 1, nil, loadnil)
  {
    hide Stacked, Before, InOrder, Spine, CtxNodes, NoDup;
    var z, e, c := Spine(b.pend, 0), list[i], RowColor(b.level + 1);
    NodeStacked(h, h', z, b.comp, c, e, nil);
    RestLoading(h, h', z, b.comp, list, i, nil, loadnil);
    NodeContents(b, e);
    NodeApart(list, i, z, b.comp, c);
    assert list[..i + 1] == list[..i] + [e];
  }

  // The entries still to come are not in the tree that was extended.
  lemma NodeApart(list: seq<Entry>, i: nat, z: Ctx, f: Tree, c: Color)
    requires NoDup(list) && i < |list|
    requires forall j :: i <= j < |list| ==> list[j].node !in CtxNodes(z) + Nodes(f)
    ensures forall j :: i + 1 <= j < |list| ==> list[j].node !in CtxNodes(In(R, z, c, list[i], f)) + Nodes(Leaf)
  {
  }

  // ---- the start and the end

  lemma {:induction false} EmptySpine(pend: seq<Tree>, j: nat)
    requires j <= |pend| && forall i :: 0 <= i < |pend| ==> pend[i].Leaf?
    ensures Spine(pend, j) == Top
    decreases |pend| - j
  {
    if j < |pend| { EmptySpine(pend, j + 1); }
  }

  // Attaching what is complete to the half-built tree of level `i` in the final loop.
  lemma FinalLoading(h: Heap, h': Heap, pend: seq<Tree>, f: Tree, i: nat, nil: DNode)
    requires Cleared(pend, i) && i < |pend| && pend[i].Bin? && Stacked(h, Spine(pend, 0), f, nil)
    requires var n, c := pend[i].e.node, Root(f, nil);
      && n in h && c in h && h'.Keys == h.Keys
      && h'[n] == h[n].(right := c) && h'[c] == h[c].(parent := n)
      && forall x :: x in h && x != n && x != c ==> h'[x] == h[x]
    ensures Stacked(h', Spine(pend[i := Leaf], 0), pend[i].(r := f), nil)
    ensures Before(Spine(pend[i := Leaf], 0)) + InOrder(pend[i].(r := f)) == Before(Spine(pend, 0)) + InOrder(f)
  {
    SpinePop(pend, i);
    var z := Spine(pend, 0);
    JoinStacked(h, h', z, f, nil);
    assert Before(z.up) + InOrder(pend[i].(r := f)) == Before(z) + InOrder(f);
  }

  // The complete tree becomes the dictionary.
  lemma RootLoading(h: Heap, h': Heap, f: Tree, nil: DNode)
    requires Stacked(h, Top, f, nil) && nil in h && nil in h' && Root(f, nil) in h && Root(f, nil) in h'
    requires h'[nil] == Cell(Root(f, nil), nil, h'[nil].parent, Black, h'[nil].key) && h'[Root(f, nil)].parent == nil
    requires f.Bin? ==> h'[f.e.node] == h[f.e.node].(parent := nil, color := Black)
    requires Agree(h, h', Nodes(f) - {Root(f, nil)})
    ensures At(h', Top, Blacken(f), nil)
  {
    if f.Bin? { Reroot(h, h', f, h[f.e.node].parent, nil, Black, nil); }
  }

  // The final loop at level `i`: the levels from `i` up are as they were, those below are done.
  ghost predicate Joining(arr: seq<DNode?>, b: Build, pend: seq<Tree>, f: Tree, i: nat, k: nat)
  {
    && |arr| == |pend| == |b.pend| == DICT_DEPTH_MAX && i <= DICT_DEPTH_MAX && k < DICT_DEPTH_MAX
    && Cleared(pend, i) && Tops(arr, b.pend) && pend[i..] == b.pend[i..]
    && RowTree(f, if b.has || k < i then k else i)
    && (forall j :: 0 <= j < DICT_DEPTH_MAX ==> (b.pend[j].Bin? <==> !b.has && j < k))
    && (forall j :: 0 <= j < DICT_DEPTH_MAX && b.pend[j].Bin? ==>
        b.pend[j].c == RowColor(j + 1) && RowTree(b.pend[j].l, j))
  }

  lemma JoinStart(h: Heap, arr: seq<DNode?>, b: Build, k: nat, nil: DNode)
    requires Tops(arr, b.pend) && Shape(b, k) && Due(b, k) == 0 && Stacked(h, Spine(b.pend, 0), b.comp, nil) && nil in h
    ensures Joining(arr, b, b.pend, b.comp, 0, k) && Root(b.comp, nil) in h
  {
    NothingDue(b, k);
  }

  lemma JoinView(h: Heap, arr: seq<DNode?>, b: Build, pend: seq<Tree>, f: Tree, i: nat, k: nat, nil: DNode)
    requires Joining(arr, b, pend, f, i, k) && i < DICT_DEPTH_MAX && Stacked(h, Spine(pend, 0), f, nil)
    requires arr[i] != null
    ensures pend[i].Bin? && arr[i] == pend[i].e.node && arr[i] in h && arr[i] != Root(f, nil)
  {
    assert pend[i] == pend[i..][0] == b.pend[i];
    SpinePop(pend, i);
  }

  lemma JoinStep(arr: seq<DNode?>, b: Build, pend: seq<Tree>, f: Tree, i: nat, k: nat)
    requires Joining(arr, b, pend, f, i, k) && i < DICT_DEPTH_MAX && arr[i] != null
    ensures pend[i].Bin? && Joining(arr, b, pend[i := Leaf], pend[i].(r := f), i + 1, k)
  {
    assert pend[i] == pend[i..][0] == b.pend[i];
    assert pend[i := Leaf][i + 1..] == pend[i..][1..];
    RowJoin(pend[i].l, pend[i].e, f, i);
  }

  lemma JoinSkip(arr: seq<DNode?>, b: Build, pend: seq<Tree>, f: Tree, i: nat, k: nat)
    requires Joining(arr, b, pend, f, i, k) && i < DICT_DEPTH_MAX && arr[i] == null
    ensures Joining(arr, b, pend, f, i + 1, k)
  {
    assert pend[i] == pend[i..][0] == b.pend[i];
    assert pend[i + 1..] == pend[i..][1..];
  }

  lemma JoinDone(arr: seq<DNode?>, b: Build, pend: seq<Tree>, f: Tree, k: nat)
    requires Joining(arr, b, pend, f, DICT_DEPTH_MAX, k)
    ensures RowTree(f, k) && Spine(pend, 0) == Top && Before(Top) + InOrder(f) == InOrder(f)
  {
    EmptySpine(pend, 0);
  }

  // ---------------------------------------------------------------- dict_load_t

  ghost function EntryNodes(s: seq<Entry>): set<DNode> { set e | e in s :: e.node }

  lemma EntryNodesAppend(s: seq<Entry>, e: Entry)
    ensures EntryNodes(s + [e]) == EntryNodes(s) + {e.node}
  {
  }

  ghost function LastNode(list: seq<Entry>, loadnil: DNode): DNode {
    if list == [] then loadnil else list[|list| - 1].node
  }

  // The nodes loaded so far are linked from `loadnil`'s left link on; its right link is the last.
  ghost predicate LoadList(h: Heap, list: seq<Entry>, loadnil: DNode)
  {
    && NoDup(list) && (forall j :: 0 <= j < |list| ==> list[j].node != loadnil)
    && Chain(h, list, 0, loadnil) && loadnil in h
    && h[loadnil].left == NodeAt(list, 0, loadnil) && h[loadnil].right == LastNode(list, loadnil)
  }

  // From `h` to `h'` the node `n` was hooked to the end of the list.
  ghost predicate Hooked(h: Heap, h': Heap, n: DNode, loadnil: DNode)
  {
    && n in h && loadnil in h && h[loadnil].right in h && h'.Keys == h.Keys
    && forall x :: x in h ==>
         h'[x] == h[x].(left := if x == n then loadnil else if x == h[loadnil].right then n else h[x].left,
                        right := if x == loadnil then n else h[x].right)
  }

  lemma LoadAppend(h: Heap, h1: Heap, h2: Heap, list: seq<Entry>, e: Entry, loadnil: DNode)
    requires LoadList(h, list, loadnil) && e.node !in h && h1.Keys == h.Keys + {e.node}
    requires (forall x :: x in h ==> h1[x] == h[x]) && h1[e.node].key == e.key
    requires Hooked(h1, h2, e.node, loadnil)
    ensures LoadList(h2, list + [e], loadnil)
  {
    hide NoDup, Chain;
    AppendNoDup(h, list, e, loadnil);
    AppendChain(h, h1, h2, list, e, loadnil);
    assert (list + [e])[|list|] == e && (list != [] ==> (list + [e])[0] == list[0]);
  }

  lemma AppendNoDup(h: Heap, list: seq<Entry>, e: Entry, loadnil: DNode)
    requires NoDup(list) && Chain(h, list, 0, loadnil) && e.node !in h
    ensures NoDup(list + [e]) && forall j :: 0 <= j < |list| ==> list[j].node != e.node
  {
  }

  lemma AppendChain(h: Heap, h1: Heap, h2: Heap, list: seq<Entry>, e: Entry, loadnil: DNode)
    requires LoadList(h, list, loadnil) && e.node !in h && h1.Keys == h.Keys + {e.node}
    requires (forall x :: x in h ==> h1[x] == h[x]) && h1[e.node].key == e.key
    requires Hooked(h1, h2, e.node, loadnil)
    ensures Chain(h2, list + [e], 0, loadnil)
  {
    var s := list + [e];
    forall j | 0 <= j < |s|
      ensures s[j].node in h2 && h2[s[j].node].left == NodeAt(s, j + 1, loadnil) && h2[s[j].node].key == s[j].key
    {
      if j < |list| { assert s[j] == list[j] && list[j].node in h; }
    }
  }

  lemma LastIn(h: Heap, list: seq<Entry>, loadnil: DNode)
    requires LoadList(h, list, loadnil)
    ensures loadnil in h && h[loadnil].right in h
  {
    if list != [] { assert list[|list| - 1].node in h; }
  }

  // The links of dict_load_next (src/adt/dict.c:1134-1136).
  method Hook(newnode: DNode, nilnode: DNode, ghost s: set<DNode>)
    requires newnode in s && nilnode in s && nilnode.right in s && newnode != nilnode
    modifies s`left, nilnode`right
    ensures Hooked(old(Snapshot(s)), Snapshot(s), newnode, nilnode)
  {
    nilnode.right.left := newnode;
    nilnode.right := newnode;
    newnode.left := nilnode;
  }

  class DictLoad {
    const nilnode: DNode
    const dictptr: Dict
    ghost var list: seq<Entry>

    ghost function Repr(): set<DNode>
      reads this
    {
      EntryNodes(list) + {nilnode}
    }

    ghost predicate Valid()
      reads this, EntryNodes(list), nilnode
    {
      LoadList(Snapshot(Repr()), list, nilnode)
    }

    /** load_begin_internal, src/adt/dict.c:1103-1108. */
    constructor (dict: Dict)
      ensures Valid() && list == [] && dictptr == dict && fresh(nilnode)
    {
      nilnode := new DNode(0);
      dictptr, list := dict, [];
      new;
      nilnode.left, nilnode.right := nilnode, nilnode;
    }

    /** src/adt/dict.c:1116-1138. Only left links and the new node's key are written. */
    method Next(newnode: DNode, key: Key)
      requires Valid() && dictptr.nodecount < dictptr.maxcount
      requires newnode !in Repr()
      modifies this`list, dictptr`nodecount
      modifies (Repr() + {newnode})`left, nilnode`right, newnode`key
      ensures Valid() && list == old(list) + [Entry(newnode, key)] && newnode.key == key
      ensures dictptr.nodecount == old(dictptr.nodecount) + 1
    {
      hide LoadList, EntryNodes;
      ghost var s := Repr() + {newnode};
      Append(newnode, key);
      ghost var h := Snapshot(s);
      EntryNodesAppend(list, Entry(newnode, key));
      dictptr.nodecount := dictptr.nodecount + 1;
      list := list + [Entry(newnode, key)];
      assert Repr() == s;
      assert Snapshot(s) == h;
    }

    // The new node goes to the end of the list (src/adt/dict.c:1133-1136).
    method Append(newnode: DNode, key: Key)
      requires Valid() && newnode !in Repr()
      modifies (Repr() + {newnode})`left, nilnode`right, newnode`key
      ensures LoadList(Snapshot(Repr() + {newnode}), list + [Entry(newnode, key)], nilnode) && newnode.key == key
    {
      hide LoadList, Hooked, EntryNodes;
      ghost var s, h := Repr() + {newnode}, Snapshot(Repr());
      LastIn(h, list, nilnode);
      newnode.key := key;
      ghost var h1 := Snapshot(s);
      Hook(newnode, nilnode, s);
      LoadAppend(h, h1, Snapshot(s), list, Entry(newnode, key), nilnode);
    }
  
    // The inner loops of dict_load_end (src/adt/dict.c:1169-1174, 1185-1190).
    static method CarryUp(tree: array<DNode?>, start: DNode, startlevel: nat, ghost s: set<DNode>, ghost b0: Build,
            ghost k: nat,
                          ghost list: seq<Entry>, ghost i: nat, ghost nil: DNode, ghost loadnil: DNode)
      returns (complete: DNode, level: nat, ghost b: Build)
      requires Loading(Snapshot(s), tree[..], b0, list, i, nil, loadnil) && Carrying(b0, k)
      requires start == b0.comp.e.node && startlevel == b0.level
      modifies tree, s`right, s`parent
      ensures Loading(Snapshot(s), tree[..], b, list, i, nil, loadnil) && Shape(b, k) && b.has && b.comp.Bin?
      ensures complete == b.comp.e.node && level == b.level && b.base == b0.base && Due(b, k) == Due(b0, k)
    {
      hide Loading, Carrying, Due;
      complete, level, b := start, startlevel, b0;
      CarryView(Snapshot(s), tree[..], b, list, i, nil, loadnil, k);
      while tree[level] != null
        invariant Loading(Snapshot(s), tree[..], b, list, i, nil, loadnil) && Carrying(b, k)
        invariant level < tree.Length && level == b.level && b.comp.Bin? && complete == b.comp.e.node
        invariant |b.pend| == DICT_DEPTH_MAX && b.has && b.base == b0.base && Due(b, k) == Due(b0, k)
        decreases tree.Length - level
      {
        ghost var h, arr := Snapshot(s), tree[..];
        CarryView(h, arr, b, list, i, nil, loadnil, k);
        tree[level].right := complete;
        complete.parent := tree[level];
        complete := tree[level];
        tree[level] := null;
        assert tree[..] == arr[level := null];
        CarryLoading(h, Snapshot(s), arr, b, list, i, nil, loadnil, k);
        CarryStep(b, k);
        b := Carried(b);
        level := level + 1;
        CarryView(Snapshot(s), tree[..], b, list, i, nil, loadnil, k);
      }
      CarryView(Snapshot(s), tree[..], b, list, i, nil, loadnil, k);
      CarryDone(b, k);
    }
  
    // The bottom row is full (src/adt/dict.c:1160-1176).
    static method EndBottomRow(tree: array<DNode?>, ghost s: set<DNode>, ghost b0: Build, ghost k: nat,
                               ghost list: seq<Entry>, ghost i: nat, nil: DNode, ghost loadnil: DNode)
      returns (complete: DNode?, level: nat, ghost b: Build)
      requires Loading(Snapshot(s), tree[..], b0, list, i, nil, loadnil)
      requires Shape(b0, k) && !b0.has && b0.base == 0 && Due(b0, k) > 0
      modifies tree, s`right, s`parent
      ensures Loading(Snapshot(s), tree[..], b, list, i, nil, loadnil)
      ensures Shape(b, k) && b.base == 1 && Due(b, k) == Due(b0, k) && level == b.level
      ensures (b.has ==> b.comp.Bin?) && complete == if b.has then b.comp.e.node else null
    {
      hide Loading, Carrying, Due, Spine, Stacked;
      ghost var h, arr := Snapshot(s), tree[..];
      BottomView(h, arr, b0, list, i, nil, loadnil);
      BottomStep(b0, k);
      b := BottomDone(b0);
      level := 1;
      complete := tree[0];
      if complete != null {
        tree[0] := null;
        complete.right := nil;
        assert tree[..] == arr[0 := null];
        BottomLoading(h, Snapshot(s), arr, b0, list, i, nil, loadnil, k);
        complete, level, b := CarryUp(tree, complete, level, s, b, k, list, i, nil, loadnil);
      } else {
        SameLoading(h, arr, b0, b, list, i, nil, loadnil);
      }
    }

    // A leaf (src/adt/dict.c:1178-1190).
    static method PlaceLeaf(curr: DNode, tree: array<DNode?>, level0: nat, ghost s: set<DNode>, ghost b0: Build,
            ghost k: nat,
                            ghost list: seq<Entry>, ghost i: nat, nil: DNode, ghost loadnil: DNode)
      returns (complete: DNode, level: nat, ghost b: Build)
      requires Loading(Snapshot(s), tree[..], b0, list, i, nil, loadnil) && i < |list| && curr == list[i].node
      requires Shape(b0, k) && !b0.has && level0 == b0.level
      modifies tree, s`left, s`right, s`parent, s`color
      ensures Loading(Snapshot(s), tree[..], b, list, i + 1, nil, loadnil)
      ensures Shape(b, k) && b.has && b.comp.Bin? && b.base == b0.base && Due(b, k) == Due(b0, k) - b0.base
      ensures complete == b.comp.e.node && level == b.level
    {
      hide Loading, Carrying, Due, Spine, Stacked;
      ghost var h := Snapshot(s);
      BottomView(h, tree[..], b0, list, i, nil, loadnil);
      curr.left := nil;
      curr.right := nil;
      curr.color := if level0 % 2 == 0 then Red else Black;
      LeafLoading(h, Snapshot(s), tree[..], b0, list, i, nil, loadnil, k);
      LeafStep(b0, list[i], k);
      complete, level, b := CarryUp(tree, curr, level0, s, WithLeaf(b0, list[i]), k, list, i + 1, nil, loadnil);
    }

    // A node over the complete tree (src/adt/dict.c:1191-1198).
    static method PlaceNode(curr: DNode, tree: array<DNode?>, complete: DNode, level: nat, ghost s: set<DNode>,
            ghost b0: Build, ghost k: nat,
                            ghost list: seq<Entry>, ghost i: nat, nil: DNode, ghost loadnil: DNode)
      returns (ghost b: Build)
      requires Loading(Snapshot(s), tree[..], b0, list, i, nil, loadnil) && i < |list| && curr == list[i].node
      requires Shape(b0, k) && b0.has && level == b0.level && complete == b0.comp.e.node && Due(b0, k) > 0
      modifies tree, s`left, s`parent, s`color
      ensures Loading(Snapshot(s), tree[..], b, list, i + 1, nil, loadnil)
      ensures Shape(b, k) && !b.has && b.level == b.base == b0.base && Due(b, k) == Due(b0, k) - 1
    {
      hide Loading, Carrying, Due, Spine, Stacked;
      ghost var h, arr := Snapshot(s), tree[..];
      NodeView(h, arr, b0, list, i, nil, loadnil, k);
      NodeStep(b0, list[i], k);
      curr.left := complete;
      curr.color := if (level + 1) % 2 == 0 then Red else Black;
      complete.parent := curr;
      tree[level] := curr;
      assert tree[..] == arr[level := curr];
      NodeLoading(h, Snapshot(s), arr, b0, list, i, nil, loadnil, k);
      b := WithNode(b0, list[i]);
    }
  
    // A node for the bottom row is counted (src/adt/dict.c:1160-1176).
    static method CountDown(tree: array<DNode?>, complete0: DNode?, botrow0: nat, level0: nat, baselevel0: nat,
            ghost s: set<DNode>, ghost b0: Build, ghost k: nat,
                            ghost list: seq<Entry>, ghost i: nat, nil: DNode, ghost loadnil: DNode)
      returns (complete: DNode?, botrow: nat, level: nat, baselevel: nat, ghost b: Build)
      requires Loading(Snapshot(s), tree[..], b0, list, i, nil, loadnil) && i < |list| <= DICTCOUNT_T_MAX
      requires Shape(b0, k) && b0.base <= 1 && Counts(b0, k, botrow0, |list| - i)
      requires level0 == b0.level && baselevel0 == b0.base
      requires (b0.has ==> b0.comp.Bin?) && complete0 == if b0.has then b0.comp.e.node else null
      modifies tree, s`right, s`parent
      ensures Loading(Snapshot(s), tree[..], b, list, i, nil, loadnil)
      ensures Shape(b, k) && b.base <= 1 && Placing(b, k, botrow, |list| - i)
      ensures level == b.level && baselevel == b.base
      ensures (b.has ==> b.comp.Bin?) && complete == if b.has then b.comp.e.node else null
    {
      hide Loading, Shape, Due;
      complete, botrow, level, baselevel, b := complete0, botrow0, level0, baselevel0, b0;
      if complete == null {
        // `botrowcount` is unsigned, and wraps when it is decremented at zero.
        if botrow == 0 {
          complete, level, b := EndBottomRow(tree, s, b, k, list, i, nil, loadnil);
          botrow, baselevel := DICTCOUNT_T_MAX, 1;
        } else {
          botrow := botrow - 1;
        }
      }
    }

    // The node in hand (src/adt/dict.c:1178-1198).
    static method Place(curr: DNode, tree: array<DNode?>, complete0: DNode?, level0: nat, baselevel: nat,
            ghost s: set<DNode>, ghost b0: Build, ghost k: nat,
                        ghost list: seq<Entry>, ghost i: nat, nil: DNode, ghost loadnil: DNode)
      returns (complete: DNode?, level: nat, ghost b: Build)
      requires Loading(Snapshot(s), tree[..], b0, list, i, nil, loadnil) && i < |list| && curr == list[i].node
      requires Shape(b0, k) && level0 == b0.level && baselevel == b0.base && (b0.has ==> b0.comp.Bin? && Due(b0, k) > 0)
      requires complete0 == if b0.has then b0.comp.e.node else null
      modifies tree, s`left, s`right, s`parent, s`color
      ensures Loading(Snapshot(s), tree[..], b, list, i + 1, nil, loadnil)
      ensures Shape(b, k) && b.base == b0.base && level == b.level && (b.has <==> !b0.has)
      ensures Due(b, k) == Due(b0, k) - if b0.has then 1 else b0.base
      ensures (b.has ==> b.comp.Bin?) && complete == if b.has then b.comp.e.node else null
    {
      hide Loading, Shape, Due;
      if complete0 == null {
        complete, level, b := PlaceLeaf(curr, tree, level0, s, b0, k, list, i, nil, loadnil);
      } else {
        b := PlaceNode(curr, tree, complete0, level0, s, b0, k, list, i, nil, loadnil);
        complete, level := null, baselevel;
      }
    }

    // The loop over the loaded nodes (src/adt/dict.c:1157-1199).
    static method PlaceAll(first: DNode, tree: array<DNode?>, botrow: nat, ghost s: set<DNode>, ghost k: nat,
                           ghost list: seq<Entry>, nil: DNode, loadnil: DNode)
      returns (complete: DNode?, ghost b: Build)
      requires Loading(Snapshot(s), tree[..], EmptyBuild(), list, 0, nil, loadnil) && first == NodeAt(list, 0, loadnil)
      requires Shape(EmptyBuild(), k) && Counts(EmptyBuild(), k, botrow, |list|) && |list| <= DICTCOUNT_T_MAX
      modifies tree, s`left, s`right, s`parent, s`color
      ensures Loading(Snapshot(s), tree[..], b, list, |list|, nil, loadnil)
      ensures Shape(b, k) && Due(b, k) == 0 && (b.has ==> b.comp.Bin?)
      ensures complete == if b.has then b.comp.e.node else null
    {
      hide Loading, Shape, Due;
      var curr, botrowcount, baselevel, level := first, botrow, 0, 0;
      ghost var i := 0;
      complete, b := null, EmptyBuild();
      while curr != loadnil
        invariant i <= |list| && curr == NodeAt(list, i, loadnil)
        invariant Loading(Snapshot(s), tree[..], b, list, i, nil, loadnil)
        invariant Shape(b, k) && b.base <= 1 && Counts(b, k, botrowcount, |list| - i)
        invariant level == b.level && baselevel == b.base
        invariant (b.has ==> b.comp.Bin?) && complete == if b.has then b.comp.e.node else null
        decreases |list| - i
      {
        LoadView(Snapshot(s), tree[..], b, list, i, nil, loadnil, k);
        var next := curr.left;
        complete, botrowcount, level, baselevel, b :=
          CountDown(tree, complete, botrowcount, level, baselevel, s, b, k, list, i, nil, loadnil);
        complete, level, b := Place(curr, tree, complete, level, baselevel, s, b, k, list, i, nil, loadnil);
        curr, i := next, i + 1;
      }
      LoadView(Snapshot(s), tree[..], b, list, i, nil, loadnil, k);
    }
  
    // The final loop (src/adt/dict.c:1201-1210): whatever still waits gets its right subtree.
    static method JoinAll(complete0: DNode, tree: array<DNode?>, ghost s: set<DNode>, ghost k: nat, ghost b: Build,
            nil: DNode)
      returns (complete: DNode, ghost f: Tree)
      requires Tops(tree[..], b.pend) && Stacked(Snapshot(s), Spine(b.pend, 0), b.comp, nil)
      requires Shape(b, k) && Due(b, k) == 0 && complete0 == Root(b.comp, nil) && nil in s
      modifies s`right, s`parent
      ensures Stacked(Snapshot(s), Top, f, nil) && InOrder(f) == Loaded(b) && complete == Root(f, nil) && complete in s
      ensures RowTree(f, k)
    {
      hide Stacked, Shape, Due, Spine, InOrder, Before, RowTree;
      NothingDue(b, k);
      ghost var pend := b.pend;
      complete, f := complete0, b.comp;
      JoinStart(Snapshot(s), tree[..], b, k, nil);
      var i := 0;
      while i < tree.Length
        invariant i <= tree.Length == |pend| == DICT_DEPTH_MAX && complete == Root(f, nil) && complete in s
        invariant Joining(tree[..], b, pend, f, i, k) && Stacked(Snapshot(s), Spine(pend, 0), f, nil)
        invariant Before(Spine(pend, 0)) + InOrder(f) == Loaded(b)
      {
        if tree[i] != null {
          ghost var h := Snapshot(s);
          JoinView(h, tree[..], b, pend, f, i, k, nil);
          tree[i].right := complete;
          complete.parent := tree[i];
          complete := tree[i];
          FinalLoading(h, Snapshot(s), pend, f, i, nil);
          JoinStep(tree[..], b, pend, f, i, k);
          pend, f := pend[i := Leaf], pend[i].(r := f);
        } else {
          JoinSkip(tree[..], b, pend, f, i, k);
        }
        i := i + 1;
      }
      JoinDone(tree[..], b, pend, f, k);
    }
  
    // The root of the dictionary (src/adt/dict.c:1212-1216).
    static method SetRoot(dictnil: DNode, complete: DNode, ghost s: set<DNode>, ghost f: Tree)
      requires Stacked(Snapshot(s), Top, f, dictnil) && complete == Root(f, dictnil) && complete in s && dictnil in s
      modifies dictnil`left, dictnil`right, s`parent, s`color
      ensures At(Snapshot(s), Top, Blacken(f), dictnil) && dictnil.color == Black
      ensures f.Leaf? ==> dictnil.parent == dictnil
    {
      ghost var h := Snapshot(s);
      dictnil.color := Black;
      dictnil.right := dictnil;
      complete.parent := dictnil;
      complete.color := Black;
      dictnil.left := complete;
      RootLoading(h, Snapshot(s), f, dictnil);
    }

    /** src/adt/dict.c:1140-1219. */
    method End()
      requires Valid() && TotalPreorder(dictptr.compare) && dictptr.nil !in Repr()
      requires dictptr.nodecount == |list| <= dictptr.maxcount <= DICTCOUNT_T_MAX
      requires Sorted(list, dictptr.compare, dictptr.dupes)
      modifies dictptr`tree, (Repr() + {dictptr.nil})`left, (Repr() + {dictptr.nil})`right
      modifies (Repr() + {dictptr.nil})`parent, (Repr() + {dictptr.nil})`color
      ensures dictptr.Valid() && InOrder(dictptr.tree) == list
    {
      hide LoadList, WellFormed, Sorted, RowTree, At, InOrder, Nodes, EntryNodes;
      var dict, dictnil := dictptr, dictptr.nil;
      ghost var s := Repr() + {dictnil};
      assert s - {dictnil} == Repr();
      ghost var f := Build(nilnode, dict.nodecount, s, list, dictnil);
      LoadedWellFormed(Snapshot(s), Snapshot(EntryNodes(list) + {dictnil}), f, dictnil, list, dict.compare, dict.dupes);
      dict.Become(Blacken(f));
    }

    // The loops of dict_load_end, and the root.
    static method Build(loadnil: DNode, nodecount: nat, ghost s: set<DNode>, ghost list: seq<Entry>, dictnil: DNode)
      returns (ghost f: Tree)
      requires LoadList(Snapshot(s - {dictnil}), list, loadnil) && dictnil in s && loadnil in s
      requires nodecount == |list| <= DICTCOUNT_T_MAX
      modifies s`left, s`right, s`parent, s`color
      ensures At(Snapshot(s), Top, Blacken(f), dictnil) && dictnil.color == Black
      ensures (f.Leaf? ==> dictnil.parent == dictnil)
      ensures InOrder(f) == list && exists k: nat :: RowTree(f, k)
    {
      hide LoadList, Loading, Stacked, Shape, Due, Counts, RowTree, At, InOrder, Spine, Loaded;
      ghost var h := Snapshot(s - {dictnil});
      StartList(h, list, loadnil);
      var tree := new DNode?[DICT_DEPTH_MAX](_ => null);
      var fullcount;
      ghost var k;
      fullcount, k := FullCount(nodecount, DICTCOUNT_T_MAX);
      StartCounts(|list|, k);
      StartLoading(h, Snapshot(s), tree[..], list, dictnil, loadnil);
      var complete, b := PlaceAll(loadnil.left, tree, nodecount - fullcount, s, k, list, dictnil, loadnil);
      EndLoading(Snapshot(s), tree[..], b, list, dictnil, loadnil, k);
      var root := if complete == null then dictnil else complete;
      root, f := JoinAll(root, tree, s, k, b, dictnil);
      SetRoot(dictnil, root, s, f);
    }
  }
}
