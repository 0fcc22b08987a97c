/**
  What dict_load_end of src/adt/dict.c builds. It keeps a stack of half-built trees, one per level
  (`pend`: a root whose left subtree is there and whose right subtree is still to come), and
  possibly a complete tree; a complete tree meeting a half-built one at its level completes it, as
  in adding one to a binary counter. Rows are numbered from the bottom row, 0, which need not be full.
 */
module LoadTree {
  import opened RedBlackTree
  import opened Search

  const DICT_DEPTH_MAX := 64

  datatype Build = Build(pend: seq<Tree>, has: bool, comp: Tree, level: nat, base: nat)

  // Rows alternate red and black from the bottom.
  ghost function RowColor(row: nat): Color { if row % 2 == 0 then Red else Black }

  // A subtree whose root is on row `row`; on the bottom row it may be missing.
  ghost predicate RowTree(t: Tree, row: nat)
  {
    RedBlack(t, 1 + (row + 1) / 2) && if t.Leaf? then row == 0 else t.c == RowColor(row)
  }

  lemma RowJoin(l: Tree, e: Entry, r: Tree, row: nat)
    requires RowTree(l, row) && RowTree(r, row)
    ensures RowTree(Bin(l, RowColor(row + 1), e, r), row + 1)
  {
  }

  // ---------------------------------------------------------------- the counter

  ghost predicate Levels(b: Build, k: nat)
  {
    && |b.pend| == DICT_DEPTH_MAX && k < DICT_DEPTH_MAX && b.base <= 1 && (b.base == 1 ==> k >= 1 && b.pend[0].Leaf?)
    && (forall j :: 0 <= j < DICT_DEPTH_MAX && b.pend[j].Bin? ==>
          j < k && b.pend[j].r.Leaf? && b.pend[j].c == RowColor(j + 1) && RowTree(b.pend[j].l, j))
  }

  // A complete tree, which may still meet a half-built one at its level.
  ghost predicate Carrying(b: Build, k: nat)
  {
    Levels(b, k) && b.has && b.comp.Bin? && b.base <= b.level <= k
    && RowTree(b.comp, b.level) && Cleared(b.pend, b.level)
  }

  ghost predicate Shape(b: Build, k: nat)
  {
    if b.has then Carrying(b, k) && b.pend[b.level].Leaf? else Levels(b, k) && b.comp.Leaf? && b.level == b.base
  }

  // No half-built tree below `level`.
  ghost predicate Cleared(pend: seq<Tree>, level: nat)
  {
    level <= |pend| && forall j :: 0 <= j < level ==> pend[j].Leaf?
  }

  // Nodes still to come above the bottom row, to fill levels `i` to `k`: a free level takes a root
  // and a right subtree.
  ghost function Wanted(pend: seq<Tree>, i: nat, k: nat): nat
    decreases k - i
  {
    if i >= k || i >= |pend| then 0 else Wanted(pend, i + 1, k) + if pend[i].Leaf? then Pow2(i) else 0
  }

  ghost function Due(b: Build, k: nat): nat
  {
    if b.has then Wanted(b.pend, b.level, k) else Wanted(b.pend, b.base, k) + b.base
  }

  lemma {:induction false} WantedAbove(pend: seq<Tree>, j: nat, t: Tree, i: nat, k: nat)
    requires k <= |pend| && j < i && j < |pend|
    ensures Wanted(pend[j := t], i, k) == Wanted(pend, i, k)
    decreases k - i
  {
    if i < k { WantedAbove(pend, j, t, i + 1, k); }
  }

  lemma {:induction false} WantedBelow(pend: seq<Tree>, i: nat, m: nat, k: nat)
    requires i <= m <= k <= |pend| && forall j :: i <= j < m ==> pend[j].Leaf?
    ensures Wanted(pend, i, k) + Pow2(i) == Wanted(pend, m, k) + Pow2(m)
    decreases m - i
  {
    if i < m { WantedBelow(pend, i + 1, m, k); }
  }

  lemma {:induction false} NothingWanted(pend: seq<Tree>, i: nat, k: nat)
    requires i <= k <= |pend| && Wanted(pend, i, k) == 0
    ensures forall j :: i <= j < k ==> pend[j].Bin?
    decreases k - i
  {
    if i < k {
      PowMonotone(0, i);
      NothingWanted(pend, i + 1, k);
    }
  }

  // A complete tree met a half-built one at its level.
  ghost function Carried(b: Build): Build
    requires b.has && b.level < |b.pend| && b.pend[b.level].Bin?
  {
    b.(pend := b.pend[b.level := Leaf], comp := b.pend[b.level].(r := b.comp), level := b.level + 1)
  }

  lemma CarryStep(b: Build, k: nat)
    requires Carrying(b, k) && b.pend[b.level].Bin?
    ensures Carrying(Carried(b), k) && Due(Carried(b), k) == Due(b, k)
  {
    RowJoin(b.pend[b.level].l, b.pend[b.level].e, b.comp, b.level);
    WantedAbove(b.pend, b.level, Leaf, b.level + 1, k);
  }

  lemma CarryDone(b: Build, k: nat)
    requires Carrying(b, k) && b.pend[b.level].Leaf?
    ensures Shape(b, k)
  {
  }

  // The bottom row is full: its rows' half-built tree, if there is one, stays without a right
  // subtree, and leaves are on row 1 from now on.
  ghost function BottomDone(b: Build): Build
    requires |b.pend| == DICT_DEPTH_MAX
  {
    if b.pend[0].Bin? then Build(b.pend[0 := Leaf], true, b.pend[0], 1, 1) else b.(level := 1, base := 1)
  }

  lemma BottomStep(b: Build, k: nat)
    requires Shape(b, k) && !b.has && b.base == 0 && Due(b, k) > 0
    ensures var b' := BottomDone(b); Due(b', k) == Due(b, k) && if b'.has then Carrying(b', k) else Shape(b', k)
  {
    if b.pend[0].Bin? {
      RowJoin(b.pend[0].l, b.pend[0].e, Leaf, 0);
      WantedAbove(b.pend, 0, Leaf, 1, k);
    }
  }

  ghost function WithLeaf(b: Build, e: Entry): Build
  {
    b.(has := true, comp := Bin(Leaf, RowColor(b.base), e, Leaf))
  }

  lemma LeafStep(b: Build, e: Entry, k: nat)
    requires Shape(b, k) && !b.has
    ensures Carrying(WithLeaf(b, e), k) && Due(WithLeaf(b, e), k) == Due(b, k) - b.base
  {
  }

  // A node over the complete tree waits for its right subtree.
  ghost function WithNode(b: Build, e: Entry): Build
    requires b.level < |b.pend|
  {
    Build(b.pend[b.level := Bin(b.comp, RowColor(b.level + 1), e, Leaf)], false, Leaf, b.base, b.base)
  }

  lemma NodeStep(b: Build, e: Entry, k: nat)
    requires Shape(b, k) && b.has && Due(b, k) > 0
    ensures b.level < k && Shape(WithNode(b, e), k) && Due(WithNode(b, e), k) == Due(b, k) - 1
  {
    var pend := b.pend[b.level := Bin(b.comp, RowColor(b.level + 1), e, Leaf)];
    WantedAbove(b.pend, b.level, pend[b.level], b.level + 1, k);
    WantedBelow(pend, b.base, b.level, k);
    assert Pow2(b.base) == b.base + 1;
  }

  // ---------------------------------------------------------------- the end

  // Nothing is due: either one complete tree is left, or every level waits for its right subtree.
  lemma NothingDue(b: Build, k: nat)
    requires Shape(b, k) && Due(b, k) == 0
    ensures b.has ==> b.level == k && Cleared(b.pend, DICT_DEPTH_MAX)
    ensures !b.has ==> forall j :: 0 <= j < k ==> b.pend[j].Bin?
  {
    NothingWanted(b.pend, if b.has then b.level else b.base, k);
  }

  // ---------------------------------------------------------------- contents

  // The half-built trees from level `j` up, as a path down to the right.
  ghost function Spine(pend: seq<Tree>, j: nat): Ctx
    requires j <= |pend|
    decreases |pend| - j
  {
    if j == |pend| then Top
    else if pend[j].Leaf? then Spine(pend, j + 1)
    else In(R, Spine(pend, j + 1), pend[j].c, pend[j].e, pend[j].l)
  }

  lemma {:induction false} SpineAbove(pend: seq<Tree>, j: nat, t: Tree, i: nat)
    requires j < i <= |pend|
    ensures Spine(pend[j := t], i) == Spine(pend, i)
    decreases |pend| - i
  {
    if i < |pend| { SpineAbove(pend, j, t, i + 1); }
  }

  lemma {:induction false} SpineCleared(pend: seq<Tree>, m: nat)
    requires Cleared(pend, m)
    ensures Spine(pend, 0) == Spine(pend, m)
  {
    if m > 0 { SpineCleared(pend, m - 1); }
  }

  // What was loaded so far, in order.
  ghost function Loaded(b: Build): seq<Entry> { Before(Spine(b.pend, 0)) + InOrder(b.comp) }

  // Moving a tree between the top of the stack and `comp`.
  lemma SpinePush(pend: seq<Tree>, j: nat, t: Tree)
    requires j < |pend| && Cleared(pend, j) && pend[j].Leaf? && t.Bin?
    ensures Spine(pend[j := t], 0) == In(R, Spine(pend, 0), t.c, t.e, t.l)
  {
    SpineCleared(pend, j);
    SpineCleared(pend[j := t], j);
    SpineAbove(pend, j, t, j + 1);
  }

  lemma SpinePop(pend: seq<Tree>, j: nat)
    requires j < |pend| && Cleared(pend, j) && pend[j].Bin?
    ensures Spine(pend, 0) == In(R, Spine(pend[j := Leaf], 0), pend[j].c, pend[j].e, pend[j].l)
  {
    SpinePush(pend[j := Leaf], j, pend[j]);
    assert pend[j := Leaf][j := pend[j]] == pend;
  }

  lemma NodeContents(b: Build, e: Entry)
    requires b.level < |b.pend| && Cleared(b.pend, b.level) && b.pend[b.level].Leaf?
    ensures Spine(WithNode(b, e).pend, 0) == In(R, Spine(b.pend, 0), RowColor(b.level + 1), e, b.comp)
    ensures Loaded(WithNode(b, e)) == Loaded(b) + [e]
  {
    SpinePush(b.pend, b.level, Bin(b.comp, RowColor(b.level + 1), e, Leaf));
  }

  lemma LeafContents(b: Build, e: Entry)
    requires b.comp.Leaf?
    ensures Loaded(WithLeaf(b, e)) == Loaded(b) + [e]
  {
  }

  lemma CarryContents(b: Build)
    requires b.has && b.level < |b.pend| && Cleared(b.pend, b.level) && b.pend[b.level].Bin? && b.pend[b.level].r.Leaf?
    ensures Loaded(Carried(b)) == Loaded(b)
  {
    SpinePop(b.pend, b.level);
    var z, t := Spine(b.pend, 0), b.pend[b.level];
    assert Before(z.up) + InOrder(t.(r := b.comp)) == Before(z) + InOrder(b.comp);
  }

  lemma BottomContents(b: Build)
    requires |b.pend| == DICT_DEPTH_MAX && b.comp.Leaf? && b.pend[0].Bin? && b.pend[0].r.Leaf?
    ensures Loaded(BottomDone(b)) == Loaded(b)
  {
    SpinePop(b.pend, 0);
    assert Before(Spine(b.pend, 0).up) + InOrder(b.pend[0]) == Before(Spine(b.pend, 0)) + InOrder(Leaf);
  }

  // ---------------------------------------------------------------- the counts

  // `bot` nodes are left for the bottom row and `rem` in all. Once the bottom row is full, `bot` has
  // wrapped round and stays above `rem`.
  ghost predicate Counts(b: Build, k: nat, bot: nat, rem: nat)
  {
    if b.base == 0 then rem == Due(b, k) + bot && bot <= Due(b, k) + if b.has then 0 else 1
    else rem == Due(b, k) && bot > rem
  }

  // The same with the node in hand not yet placed.
  ghost predicate Placing(b: Build, k: nat, bot: nat, rem: nat)
  {
    if b.base == 0 then rem == Due(b, k) + bot + (if b.has then 0 else 1) && bot <= Due(b, k)
    else rem == Due(b, k) && bot >= rem
  }

  ghost function EmptyBuild(): Build { Build(seq(DICT_DEPTH_MAX, _ => Leaf), false, Leaf, 0, 0) }

  lemma StartCounts(count: nat, k: nat)
    requires k < DICT_DEPTH_MAX && Pow2(k) - 1 <= count <= Pow2(k + 1) - 1
    ensures Shape(EmptyBuild(), k) && Counts(EmptyBuild(), k, count - (Pow2(k) - 1), count)
  {
    WantedBelow(EmptyBuild().pend, 0, k, k);
  }

  lemma Pow64()
    ensures Pow2(64) == 0x1_0000_0000_0000_0000
  {
    PowSum(8, 8);
    PowSum(16, 16);
    PowSum(32, 32);
    assert Pow2(8) == 256;
  }

  // The largest full tree with fewer nodes (or the empty one): src/adt/dict.c:1152-1155.
  method FullCount(nodecount: nat, limit: nat) returns (fullcount: nat, ghost k: nat)
    requires nodecount <= limit == 0xFFFF_FFFF_FFFF_FFFF
    ensures k < DICT_DEPTH_MAX && fullcount == Pow2(k) - 1 && fullcount <= nodecount <= Pow2(k + 1) - 1
  {
    fullcount, k := limit, 64;
    Pow64();
    while fullcount >= nodecount && fullcount != 0
      invariant k <= 64 && fullcount == Pow2(k) - 1 && (k < 64 ==> nodecount <= Pow2(k + 1) - 1)
    {
      fullcount := fullcount / 2;
      k := k - 1;
    }
  }
}
