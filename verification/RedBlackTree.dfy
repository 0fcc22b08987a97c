/**
  The node of src/adt/dict.h, and the abstract side of the dictionary: the tree a set of linked
  nodes stands for, a position inside it (`Ctx`, the path from a subtree up to the sentinel), the
  red-black and ordering conditions on both, and how linked nodes represent them.
 */
module RedBlackTree {

  // A `const void *` key is an opaque handle: the dictionary only passes it to the comparison.
  type Key = int
  type Comparator = (Key, Key) -> int

  datatype Color = Red | Black
  datatype Side = L | R

  class DNode {
    var left: DNode?
    var right: DNode?
    var parent: DNode?
    var color: Color
    var key: Key
    var data: int

    /** dnode_init, src/adt/dict.c:1054-1061: a node that is in no dictionary. */
    constructor (data: int)
      ensures left == right == parent == null && this.data == data
    {
      this.data := data;
      left, right, parent := null, null, null;
      color, key := Red, 0;
    }
  }

  datatype Entry = Entry(node: DNode, key: Key)

  datatype Tree = Leaf | Bin(l: Tree, c: Color, e: Entry, r: Tree)

  // A tree with a hole: the hole is the child of `e` on side `side`, `sib` the other child, and
  // the tree rooted at `e` fills the hole of `up`.
  datatype Ctx = Top | In(side: Side, up: Ctx, c: Color, e: Entry, sib: Tree)

  ghost function Opposite(d: Side): Side { if d.L? then R else L }

  // The tree rooted at `e` whose child on side `d` is `x` and whose other child is `y`.
  ghost function Mk(d: Side, x: Tree, c: Color, e: Entry, y: Tree): Tree
  {
    if d.L? then Bin(x, c, e, y) else Bin(y, c, e, x)
  }

  // The tree rooted at the owner of the hole, once `f` fills the hole.
  ghost function Whole(z: Ctx, f: Tree): Tree
    requires z.In?
  {
    Mk(z.side, f, z.c, z.e, z.sib)
  }

  // The whole tree.
  ghost function Plug(z: Ctx, f: Tree): Tree
  {
    if z.Top? then f else Plug(z.up, Whole(z, f))
  }

  // ---------------------------------------------------------------- contents

  ghost function InOrder(t: Tree): seq<Entry>
  {
    match t
    case Leaf => []
    case Bin(l, _, e, r) => InOrder(l) + [e] + InOrder(r)
  }

  ghost function Before(z: Ctx): seq<Entry>
  {
    if z.Top? then [] else if z.side.L? then Before(z.up) else Before(z.up) + InOrder(z.sib) + [z.e]
  }

  ghost function After(z: Ctx): seq<Entry>
  {
    if z.Top? then [] else if z.side.R? then After(z.up) else [z.e] + InOrder(z.sib) + After(z.up)
  }

  lemma {:induction false} InOrderPlug(z: Ctx, f: Tree)
    ensures InOrder(Plug(z, f)) == Before(z) + InOrder(f) + After(z)
  {
    if z.In? {
      InOrderPlug(z.up, Whole(z, f));
    }
  }

  ghost function Nodes(t: Tree): set<DNode>
  {
    match t
    case Leaf => {}
    case Bin(l, _, e, r) => Nodes(l) + {e.node} + Nodes(r)
  }

  ghost function CtxNodes(z: Ctx): set<DNode>
  {
    if z.Top? then {} else CtxNodes(z.up) + {z.e.node} + Nodes(z.sib)
  }

  lemma {:induction false} NodesInOrder(t: Tree)
    ensures Nodes(t) == set e | e in InOrder(t) :: e.node
  {
    if t.Bin? {
      NodesInOrder(t.l);
      NodesInOrder(t.r);
    }
  }

  lemma {:induction false} NodesPlug(z: Ctx, f: Tree)
    ensures Nodes(Plug(z, f)) == CtxNodes(z) + Nodes(f)
  {
    if z.In? {
      NodesPlug(z.up, Whole(z, f));
    }
  }

  // ---------------------------------------------------------------- order

  // What the dictionary demands of the user's comparison function.
  ghost predicate TotalPreorder(cmp: Comparator)
  {
    && (forall a, b :: cmp(a, b) < 0 <==> cmp(b, a) > 0)
    && (forall a, b, c :: Le(cmp, a, b) && Le(cmp, b, c) ==> Le(cmp, a, c))
  }

  ghost predicate Le(cmp: Comparator, a: Key, b: Key) { cmp(a, b) <= 0 }

  // Non-decreasing keys, strictly increasing when duplicates are not allowed.
  ghost predicate Sorted(s: seq<Entry>, cmp: Comparator, dupes: bool)
  {
    forall i, j :: 0 <= i < j < |s| ==>
      cmp(s[i].key, s[j].key) < 0 || (dupes && cmp(s[i].key, s[j].key) == 0)
  }

  // ---------------------------------------------------------------- red-black conditions

  ghost predicate IsBlack(t: Tree) { t.Leaf? || t.c.Black? }

  // `t` is red-black with black height `h`; the sentinel counts one.
  ghost predicate RedBlack(t: Tree, h: nat)
  {
    match t
    case Leaf => h == 1
    case Bin(l, Red, _, r) => IsBlack(l) && IsBlack(r) && RedBlack(l, h) && RedBlack(r, h)
    case Bin(l, Black, _, r) => h > 0 && RedBlack(l, h - 1) && RedBlack(r, h - 1)
  }

  // A hole that only a black tree may fill. A red root counts as black: it gets repainted.
  ghost predicate BlackHole(z: Ctx) { z.In? && z.c.Red? && z.up.In? }

  // `z` becomes a red-black tree, apart from the colour of its root, when a red-black tree of
  // height `h` fills its hole (a black one if `BlackHole(z)`).
  ghost predicate CtxRedBlack(z: Ctx, h: nat)
  {
    z.Top? ||
    (&& RedBlack(z.sib, h)
     && (BlackHole(z) ==> IsBlack(z.sib) && !BlackHole(z.up))
     && CtxRedBlack(z.up, if z.c.Black? then h + 1 else h))
  }

  ghost function Blacken(t: Tree): Tree { if t.Leaf? then t else t.(c := Black) }

  ghost function BlackHeight(t: Tree): nat
  {
    if t.Leaf? then 1 else BlackHeight(t.l) + if t.c.Black? then 1 else 0
  }

  ghost predicate ValidTree(t: Tree) { RedBlack(t, BlackHeight(t)) && IsBlack(t) }

  lemma HeightUnique(t: Tree, h: nat)
    requires RedBlack(t, h)
    ensures h == BlackHeight(t) >= 1
  {}

  // Filling a hole that suits the filling, and blackening the root, gives a valid tree.
  lemma {:induction false} PlugValid(z: Ctx, f: Tree, h: nat)
    requires CtxRedBlack(z, h) && RedBlack(f, h) && (BlackHole(z) ==> IsBlack(f))
    ensures ValidTree(Blacken(Plug(z, f)))
  {
    if z.Top? {
      HeightUnique(Blacken(f), if IsBlack(f) then h else h + 1);
    } else if z.up.Top? {
      HeightUnique(Blacken(Whole(z, f)), h + 1);
    } else {
      PlugValid(z.up, Whole(z, f), if z.c.Black? then h + 1 else h);
    }
  }

  // A valid tree is red-black at and around every position.
  lemma {:induction false} UnplugValid(z: Ctx, f: Tree)
    requires ValidTree(Plug(z, f))
    ensures RedBlack(f, BlackHeight(f)) && CtxRedBlack(z, BlackHeight(f))
    ensures BlackHole(z) ==> IsBlack(f)
    ensures z.In? ==> RootColor(z) == Black
  {
    if z.In? {
      UnplugValid(z.up, Whole(z, f));
      var h := BlackHeight(Whole(z, f));
      HeightUnique(f, if z.c.Black? then h - 1 else h);
    }
  }

  // The colour of the root, for a position below it.
  ghost function RootColor(z: Ctx): Color
    requires z.In?
  {
    if z.up.Top? then z.c else RootColor(z.up)
  }

  // ---------------------------------------------------------------- linked nodes

  ghost predicate Distinct(t: Tree)
  {
    t.Leaf? ||
    (&& t.e.node !in Nodes(t.l) && t.e.node !in Nodes(t.r) && Nodes(t.l) !! Nodes(t.r)
     && Distinct(t.l) && Distinct(t.r))
  }

  ghost predicate CtxDistinct(z: Ctx)
  {
    z.Top? ||
    (&& z.e.node !in Nodes(z.sib) && z.e.node !in CtxNodes(z.up)
     && Nodes(z.sib) !! CtxNodes(z.up) && Distinct(z.sib) && CtxDistinct(z.up))
  }

  ghost function Root(t: Tree, nil: DNode): DNode { if t.Leaf? then nil else t.e.node }

  ghost function Parent(z: Ctx, nil: DNode): DNode { if z.Top? then nil else z.e.node }

  // The fields of a set of nodes at one moment.
  datatype Cell = Cell(left: DNode?, right: DNode?, parent: DNode?, color: Color, key: Key)
  type Heap = map<DNode, Cell>

  ghost function Snapshot(s: set<DNode>): (h: Heap)
    reads s
    ensures h.Keys == s
  {
    map n | n in s :: Cell(n.left, n.right, n.parent, n.color, n.key)
  }

  ghost function Kid(k: Cell, d: Side): DNode? { if d.L? then k.left else k.right }

  ghost function WithKid(k: Cell, d: Side, x: DNode?): Cell
  {
    if d.L? then k.(left := x) else k.(right := x)
  }

  // In `h` the nodes of `t` carry its colours and keys and are linked up as `t`, below `p`.
  ghost predicate Linked(h: Heap, t: Tree, p: DNode?, nil: DNode)
  {
    t.Leaf? ||
    (var n := t.e.node;
     && n in h && h[n] == Cell(Root(t.l, nil), Root(t.r, nil), p, t.c, t.e.key)
     && Linked(h, t.l, n, nil) && Linked(h, t.r, n, nil))
  }

  // In `h` the nodes of `z` are linked up around a hole in which `x` hangs.
  ghost predicate CtxLinked(h: Heap, z: Ctx, x: DNode, nil: DNode)
  {
    if z.Top? then nil in h && h[nil].left == x else
    var n := z.e.node;
    && n in h
    && h[n] == WithKid(WithKid(Cell(null, null, Parent(z.up, nil), z.c, z.e.key), z.side, x),
                       Opposite(z.side), Root(z.sib, nil))
    && Linked(h, z.sib, n, nil)
    && CtxLinked(h, z.up, n, nil)
  }

  // The whole dictionary, seen from the subtree `f` at the hole of `z`.
  ghost predicate At(h: Heap, z: Ctx, f: Tree, nil: DNode)
  {
    && Distinct(f) && CtxDistinct(z) && Nodes(f) !! CtxNodes(z)
    && nil !in Nodes(f) && nil !in CtxNodes(z) && nil in h && h[nil].right == nil
    && CtxLinked(h, z, Root(f, nil), nil) && Linked(h, f, Parent(z, nil), nil)
  }

  ghost predicate Agree(h: Heap, h': Heap, s: set<DNode>)
  {
    forall n :: n in s && n in h ==> n in h' && h'[n] == h[n]
  }

  lemma {:induction false} LinkedFrame(h: Heap, h': Heap, t: Tree, p: DNode?, nil: DNode)
    requires Linked(h, t, p, nil) && Agree(h, h', Nodes(t))
    ensures Linked(h', t, p, nil)
  {
    if t.Bin? {
      LinkedFrame(h, h', t.l, t.e.node, nil);
      LinkedFrame(h, h', t.r, t.e.node, nil);
    }
  }

  lemma {:induction false} CtxFrame(h: Heap, h': Heap, z: Ctx, x: DNode, nil: DNode)
    requires CtxLinked(h, z, x, nil) && Agree(h, h', CtxNodes(z))
    requires nil in h && nil in h' && h'[nil].left == h[nil].left
    ensures CtxLinked(h', z, x, nil)
  {
    if z.In? {
      LinkedFrame(h, h', z.sib, z.e.node, nil);
      CtxFrame(h, h', z.up, z.e.node, nil);
    }
  }

  // The root of `t` moves below `q`, or changes colour.
  lemma Reroot(h: Heap, h': Heap, t: Tree, p: DNode?, q: DNode?, c: Color, nil: DNode)
    requires Linked(h, t, p, nil) && Distinct(t) && t.Bin?
    requires t.e.node in h' && h'[t.e.node] == h[t.e.node].(parent := q, color := c)
    requires Agree(h, h', Nodes(t) - {t.e.node})
    ensures Linked(h', t.(c := c), q, nil)
  {
    LinkedFrame(h, h', t.l, t.e.node, nil);
    LinkedFrame(h, h', t.r, t.e.node, nil);
  }

  // The hole of `z`, in which `x` hung, now holds `y`.
  lemma Rehang(h: Heap, h': Heap, z: Ctx, x: DNode, y: DNode, nil: DNode)
    requires CtxLinked(h, z, x, nil) && CtxDistinct(z) && nil in h && nil in h'
    requires Agree(h, h', CtxNodes(z) - {Parent(z, nil)})
    requires z.Top? ==> h'[nil].left == y
    requires z.In? ==> z.e.node in h' && h'[nil].left == h[nil].left
    requires z.In? ==> h'[z.e.node] == WithKid(h[z.e.node], z.side, y)
    ensures CtxLinked(h', z, y, nil)
  {
    if z.In? {
      LinkedFrame(h, h', z.sib, z.e.node, nil);
      CtxFrame(h, h', z.up, z.e.node, nil);
    }
  }

  // Moving the position one step changes nothing.
  lemma Ascend(h: Heap, z: Ctx, f: Tree, nil: DNode)
    requires z.In?
    ensures At(h, z, f, nil) <==> At(h, z.up, Whole(z, f), nil)
  {
  }

  lemma {:induction false} PlugAt(h: Heap, z: Ctx, f: Tree, nil: DNode)
    ensures At(h, z, f, nil) <==> At(h, Top, Plug(z, f), nil)
  {
    if z.In? {
      Ascend(h, z, f, nil);
      PlugAt(h, z.up, Whole(z, f), nil);
    }
  }

  // Only the nodes of the dictionary matter.
  lemma AtFrame(h: Heap, h': Heap, z: Ctx, f: Tree, nil: DNode)
    requires At(h, z, f, nil) && Agree(h, h', CtxNodes(z) + Nodes(f) + {nil})
    ensures At(h', z, f, nil)
  {
    LinkedFrame(h, h', f, Parent(z, nil), nil);
    CtxFrame(h, h', z, Root(f, nil), nil);
  }

  // Every node of a tree is the root of a subtree of it.
  lemma {:induction false} Position(t: Tree, n: DNode, up: Ctx) returns (z: Ctx, f: Tree)
    requires n in Nodes(t)
    ensures Plug(z, f) == Plug(up, t) && f.Bin? && f.e.node == n
    decreases t
  {
    if t.e.node == n {
      z, f := up, t;
    } else if n in Nodes(t.l) {
      z, f := Position(t.l, n, In(L, up, t.c, t.e, t.r));
    } else {
      z, f := Position(t.r, n, In(R, up, t.c, t.e, t.l));
    }
  }

  ghost function Painted(h: Heap, n: DNode, c: Color): Heap
    requires n in h
  {
    h[n := h[n].(color := c)]
  }

  method Paint(n: DNode, c: Color, ghost s: set<DNode>)
    requires n in s
    modifies s`color
    ensures Snapshot(s) == Painted(old(Snapshot(s)), n, c)
  {
    n.color := c;
  }

  lemma PaintAt(h: Heap, z: Ctx, f: Tree, c: Color, nil: DNode)
    requires At(h, z, f, nil) && f.Bin?
    ensures At(Painted(h, f.e.node, c), z, f.(c := c), nil)
  {
    var h' := Painted(h, f.e.node, c);
    Reroot(h, h', f, Parent(z, nil), Parent(z, nil), c, nil);
    CtxFrame(h, h', z, f.e.node, nil);
  }

  // ---------------------------------------------------------------- rotations

  // `upper` and its child on side `Opposite(d)` can be rotated towards `d`: the four nodes whose
  // links change are in `h`.
  ghost predicate CanRotate(h: Heap, d: Side, upper: DNode)
  {
    && upper in h && Kid(h[upper], Opposite(d)) in h
    && Kid(h[Kid(h[upper], Opposite(d))], d) in h && h[upper].parent in h
    && (var lower, p := Kid(h[upper], Opposite(d)), h[upper].parent;
        && {upper, lower} !! {Kid(h[lower], d), p} && upper != lower
        && (h[p].left == upper || h[p].right == upper))
  }

  // From `h` to `h'` the child `lower` of `upper` took its place, and `upper` became the child of
  // `lower` on side `d`, inheriting the subtree that was there.
  ghost predicate Rotation(h: Heap, h': Heap, d: Side, upper: DNode)
  {
    && CanRotate(h, d, upper) && h'.Keys == h.Keys
    && (var lower, p := Kid(h[upper], Opposite(d)), h[upper].parent;
        var mid := Kid(h[lower], d);
        && h'[upper] == WithKid(h[upper], Opposite(d), mid).(parent := lower)
        && h'[lower] == WithKid(h[lower], d, upper).(parent := p)
        && (forall n :: n in h && n != upper && n != lower ==>
              && h'[n].color == h[n].color && h'[n].key == h[n].key
              && h'[n].left == (if n == p && h[p].left == upper then lower else h[n].left)
              && h'[n].right == (if n == p && h[p].right == upper then lower else h[n].right)
              && h'[n].parent == (if n == mid then upper else h[n].parent)))
  }

  /** src/adt/dict.c:77-99. */
  method RotateLeft(upper: DNode, ghost s: set<DNode>)
    requires CanRotate(Snapshot(s), L, upper)
    requires upper.parent.left != upper.parent.right
    modifies s`left, s`right, s`parent
    ensures Rotation(old(Snapshot(s)), Snapshot(s), L, upper)
  {
    ghost var h := Snapshot(s);
    assert Kid(h[upper], R) == upper.right && Kid(h[upper.right], L) == upper.right.left;
    var lower := upper.right;
    var lowleft := lower.left;
    upper.right := lowleft;
    lowleft.parent := upper;
    var upparent := upper.parent;
    lower.parent := upparent;
    // No test for the root: its parent is the sentinel, whose left link points back to it.
    if upper == upparent.left {
      upparent.left := lower;
    } else {
      assert upper == upparent.right;
      upparent.right := lower;
    }
    lower.left := upper;
    upper.parent := lower;
    ghost var h' := Snapshot(s);
    assert h'[upper] == h[upper].(right := lowleft, parent := lower);
    assert h'[lower] == h[lower].(left := upper, parent := upparent);
  }

  /** src/adt/dict.c:106-125. */
  method RotateRight(upper: DNode, ghost s: set<DNode>)
    requires CanRotate(Snapshot(s), R, upper)
    requires upper.parent.left != upper.parent.right
    modifies s`left, s`right, s`parent
    ensures Rotation(old(Snapshot(s)), Snapshot(s), R, upper)
  {
    ghost var h := Snapshot(s);
    assert Kid(h[upper], L) == upper.left && Kid(h[upper.left], R) == upper.left.right;
    var lower := upper.left;
    var lowright := lower.right;
    upper.left := lowright;
    lowright.parent := upper;
    var upparent := upper.parent;
    lower.parent := upparent;
    if upper == upparent.right {
      upparent.right := lower;
    } else {
      assert upper == upparent.left;
      upparent.left := lower;
    }
    lower.right := upper;
    upper.parent := lower;
  }

  // The subtree `lower` of `f` on side `Opposite(d)`, and the subtree of that one on side `d`.
  ghost function Lower(d: Side, f: Tree): Tree requires f.Bin? { if d.L? then f.r else f.l }
  ghost function Upper(d: Side, f: Tree): Tree requires f.Bin? { if d.L? then f.l else f.r }

  ghost predicate Rotatable(d: Side, f: Tree) { f.Bin? && Lower(d, f).Bin? }

  ghost function Rotated(d: Side, f: Tree): Tree
    requires Rotatable(d, f)
  {
    var low := Lower(d, f);
    Mk(d, Mk(d, Upper(d, f), f.c, f.e, Upper(d, low)), low.c, low.e, Lower(d, low))
  }

  lemma RotateReady(h: Heap, d: Side, z: Ctx, f: Tree, nil: DNode)
    requires At(h, z, f, nil) && Rotatable(d, f)
    ensures CanRotate(h, d, f.e.node) && h[f.e.node].parent == Parent(z, nil)
    ensures h[Parent(z, nil)].left != h[Parent(z, nil)].right
    ensures var low := Lower(d, f);
      Kid(h[f.e.node], Opposite(d)) == low.e.node && Kid(h[low.e.node], d) == Root(Upper(d, low), nil)
    ensures h[Parent(z, nil)].left == f.e.node <==> z.Top? || z.side.L?
  {
    var low := Lower(d, f);
    assert Linked(h, low, f.e.node, nil) && Distinct(low);
    assert Linked(h, Upper(d, low), low.e.node, nil);
  }

  lemma RotateSubtrees(h: Heap, h': Heap, d: Side, z: Ctx, f: Tree, nil: DNode)
    requires At(h, z, f, nil) && Rotatable(d, f) && Rotation(h, h', d, f.e.node)
    ensures var low := Lower(d, f);
      && Linked(h', Upper(d, f), f.e.node, nil) && Linked(h', Upper(d, low), f.e.node, nil)
      && Linked(h', Lower(d, low), low.e.node, nil)
  {
    var low := Lower(d, f);
    var mid := Upper(d, low);
    RotateReady(h, d, z, f, nil);
    assert Linked(h, low, f.e.node, nil) && Distinct(low);
    LinkedFrame(h, h', Upper(d, f), f.e.node, nil);
    if mid.Bin? { Reroot(h, h', mid, low.e.node, f.e.node, mid.c, nil); }
    LinkedFrame(h, h', Lower(d, low), low.e.node, nil);
  }

  lemma RotateContext(h: Heap, h': Heap, d: Side, z: Ctx, f: Tree, nil: DNode)
    requires At(h, z, f, nil) && Rotatable(d, f) && Rotation(h, h', d, f.e.node)
    ensures CtxLinked(h', z, Lower(d, f).e.node, nil)
    ensures h'[nil].color == h[nil].color && h'[nil].right == nil
  {
    var low := Lower(d, f);
    RotateReady(h, d, z, f, nil);
    assert f.e.node in Nodes(f) && low.e.node in Nodes(f) && Nodes(Upper(d, low)) <= Nodes(f);
    Rehang(h, h', z, f.e.node, low.e.node, nil);
  }

  lemma DistinctRotated(d: Side, f: Tree)
    requires Distinct(f) && Rotatable(d, f)
    ensures Distinct(Rotated(d, f)) && Nodes(Rotated(d, f)) == Nodes(f)
  {
    assert Distinct(Lower(d, f));
  }

  lemma RotateAt(h: Heap, h': Heap, d: Side, z: Ctx, f: Tree, nil: DNode)
    requires At(h, z, f, nil) && Rotatable(d, f) && Rotation(h, h', d, f.e.node)
    ensures At(h', z, Rotated(d, f), nil)
    ensures h'[nil].color == h[nil].color
  {
    RotateReady(h, d, z, f, nil);
    RotateSubtrees(h, h', d, z, f, nil);
    RotateContext(h, h', d, z, f, nil);
    DistinctRotated(d, f);
    var low := Lower(d, f);
    assert Linked(h, low, f.e.node, nil);
    assert Linked(h', Mk(d, Upper(d, f), f.c, f.e, Upper(d, low)), low.e.node, nil);
  }

  lemma InOrderRotated(d: Side, f: Tree)
    requires Rotatable(d, f)
    ensures InOrder(Rotated(d, f)) == InOrder(f)
  {
  }
}
