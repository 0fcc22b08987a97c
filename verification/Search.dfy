/**
  What the descents of src/adt/dict.c look for: the entries of a sorted sequence split by a
  condition on their keys, the linear scans that lookup and the bound queries must agree with, and
  how high a valid tree can be.
 */
module Search {
  import opened RedBlackTree

  // ---------------------------------------------------------------- linear scans

  ghost function FirstWhere(s: seq<Entry>, p: Key -> bool): DNode?
  {
    if s == [] then null else if p(s[0].key) then s[0].node else FirstWhere(s[1..], p)
  }

  ghost function LastWhere(s: seq<Entry>, p: Key -> bool): DNode?
  {
    if s == [] then null else if p(s[|s| - 1].key) then s[|s| - 1].node else LastWhere(s[..|s| - 1], p)
  }

  // The keys greater than, at least, equal to, at most and less than `key`.
  ghost function Above(cmp: Comparator, key: Key): Key -> bool { k => cmp(key, k) < 0 }
  ghost function AtLeast(cmp: Comparator, key: Key): Key -> bool { k => cmp(key, k) <= 0 }
  ghost function Equal(cmp: Comparator, key: Key): Key -> bool { k => cmp(key, k) == 0 }
  ghost function AtMost(cmp: Comparator, key: Key): Key -> bool { k => cmp(key, k) >= 0 }
  ghost function Below(cmp: Comparator, key: Key): Key -> bool { k => cmp(key, k) > 0 }

  ghost predicate All(s: seq<Entry>, p: Key -> bool) { forall i :: 0 <= i < |s| ==> p(s[i].key) }
  ghost predicate Neither(s: seq<Entry>, p: Key -> bool) { forall i :: 0 <= i < |s| ==> !p(s[i].key) }

  lemma {:induction false} FirstOfSplit(b: seq<Entry>, a: seq<Entry>, p: Key -> bool)
    requires Neither(b, p)
    ensures FirstWhere(b + a, p) == FirstWhere(a, p)
  {
    if b == [] {
      assert b + a == a;
    } else {
      FirstOfSplit(b[1..], a, p);
      assert (b + a)[1..] == b[1..] + a;
    }
  }

  lemma {:induction false} LastOfSplit(b: seq<Entry>, a: seq<Entry>, p: Key -> bool)
    requires Neither(a, p)
    ensures LastWhere(b + a, p) == LastWhere(b, p)
  {
    if a == [] {
      assert b + a == b;
    } else {
      var n := |a| - 1;
      LastOfSplit(b, a[..n], p);
      assert (b + a)[..|b + a| - 1] == b + a[..n];
    }
  }

  lemma {:induction false} LastSame(s: seq<Entry>, p: Key -> bool, q: Key -> bool)
    requires forall k :: p(k) == q(k)
    ensures LastWhere(s, p) == LastWhere(s, q)
  {
    if s != [] { LastSame(s[..|s| - 1], p, q); }
  }

  lemma {:induction false} NoneWhere(s: seq<Entry>, p: Key -> bool)
    requires Neither(s, p)
    ensures FirstWhere(s, p) == null
  {
    if s != [] { NoneWhere(s[1..], p); }
  }

  // ---------------------------------------------------------------- sorted sequences

  // Once true along `s`, `p` stays true.
  ghost predicate UpClosed(s: seq<Entry>, p: Key -> bool)
  {
    forall i, j :: 0 <= i <= j < |s| && p(s[i].key) ==> p(s[j].key)
  }

  lemma SortedUpClosed(s: seq<Entry>, key: Key, cmp: Comparator, dupes: bool)
    requires TotalPreorder(cmp) && Sorted(s, cmp, dupes)
    ensures UpClosed(s, Above(cmp, key)) && UpClosed(s, AtLeast(cmp, key))
  {
    forall i, j | 0 <= i <= j < |s|
      ensures cmp(key, s[i].key) < 0 ==> cmp(key, s[j].key) < 0
      ensures cmp(key, s[i].key) <= 0 ==> cmp(key, s[j].key) <= 0
    {
      var a, b := s[i].key, s[j].key;
      assert Le(cmp, a, b) && Le(cmp, b, key) ==> Le(cmp, a, key);
      assert Le(cmp, key, a) && Le(cmp, a, b) ==> Le(cmp, key, b);
    }
  }

  // ---------------------------------------------------------------- descending

  // One step down, to the child on side `d`.
  ghost function Down(z: Ctx, f: Tree, d: Side): Ctx
    requires f.Bin?
  {
    In(d, z, f.c, f.e, if d.L? then f.r else f.l)
  }

  lemma DescendAt(h: Heap, z: Ctx, f: Tree, nil: DNode)
    requires At(h, z, f, nil) && f.Bin?
    ensures At(h, Down(z, f, L), f.l, nil) && At(h, Down(z, f, R), f.r, nil)
    ensures f.e.node in h && h[f.e.node] == Cell(Root(f.l, nil), Root(f.r, nil), Parent(z, nil), f.c, f.e.key)
    ensures Plug(Down(z, f, L), f.l) == Plug(Down(z, f, R), f.r) == Plug(z, f)
  {
    Ascend(h, Down(z, f, L), f.l, nil);
    Ascend(h, Down(z, f, R), f.r, nil);
  }

  // `p` is false before the position and true after it.
  ghost predicate Parted(z: Ctx, p: Key -> bool) { Neither(Before(z), p) && All(After(z), p) }

  lemma SplitFive<T>(b: seq<T>, l: seq<T>, e: T, r: seq<T>, a: seq<T>)
    ensures var s, k := b + (l + [e] + r) + a, |b| + |l|;
      s[k] == e && s[k..] == [e] + r + a && s[..k + 1] == b + l + [e]
  {
    var s, k := b + (l + [e] + r) + a, |b| + |l|;
    assert s[..k + 1] == b + l + [e];
    assert s[k..] == [e] + r + a;
  }

  lemma AroundRoot(z: Ctx, f: Tree)
    requires f.Bin?
    ensures var s, k := InOrder(Plug(z, f)), |Before(z)| + |InOrder(f.l)|;
      && 0 <= k < |s| && s[k] == f.e
      && After(Down(z, f, L)) == s[k..] && Before(Down(z, f, R)) == s[..k + 1]
  {
    InOrderPlug(z, f);
    SplitFive(Before(z), InOrder(f.l), f.e, InOrder(f.r), After(z));
    assert InOrder(f) == InOrder(f.l) + [f.e] + InOrder(f.r);
  }

  lemma DescendParted(z: Ctx, f: Tree, p: Key -> bool)
    requires UpClosed(InOrder(Plug(z, f)), p) && Parted(z, p) && f.Bin?
    ensures f.e in InOrder(Plug(z, f))
    ensures if p(f.e.key) then Parted(Down(z, f, L), p) else Parted(Down(z, f, R), p)
  {
    AroundRoot(z, f);
  }

  lemma PartedWhole(z: Ctx, p: Key -> bool)
    requires Parted(z, p)
    ensures InOrder(Plug(z, Leaf)) == Before(z) + After(z)
    ensures FirstWhere(InOrder(Plug(z, Leaf)), p) == if After(z) == [] then null else After(z)[0].node
  {
    InOrderPlug(z, Leaf);
    assert InOrder(Plug(z, Leaf)) == Before(z) + After(z);
    FirstOfSplit(Before(z), After(z), p);
  }

  // The state of a descent for the first entry where `p` holds, or the last where it does not.
  ghost predicate Searching(h: Heap, t: Tree, z: Ctx, f: Tree, nil: DNode, p: Key -> bool)
  {
    At(h, z, f, nil) && Plug(z, f) == t && UpClosed(InOrder(t), p) && Parted(z, p)
  }

  ghost function FirstOf(s: seq<Entry>): DNode? { if s == [] then null else s[0].node }
  ghost function LastOf(s: seq<Entry>): DNode? { if s == [] then null else s[|s| - 1].node }

  lemma SearchStart(h: Heap, t: Tree, nil: DNode, key: Key, cmp: Comparator, dupes: bool)
    requires At(h, Top, t, nil) && TotalPreorder(cmp) && Sorted(InOrder(t), cmp, dupes)
    ensures Searching(h, t, Top, t, nil, Above(cmp, key)) && Searching(h, t, Top, t, nil, AtLeast(cmp, key))
    ensures Before(Top) == After(Top) == [] && nil in h && h[nil].left == Root(t, nil)
  {
    SortedUpClosed(InOrder(t), key, cmp, dupes);
  }

  lemma SearchView(h: Heap, t: Tree, z: Ctx, f: Tree, nil: DNode, p: Key -> bool)
    requires Searching(h, t, z, f, nil, p)
    ensures All(After(z), p) && UpClosed(InOrder(t), p)
  {
  }

  lemma SearchStep(h: Heap, t: Tree, z: Ctx, f: Tree, nil: DNode, p: Key -> bool)
    requires Searching(h, t, z, f, nil, p)
    ensures f.Leaf? <==> Root(f, nil) == nil
    ensures f.Bin? ==>
      && f.e.node in h && h[f.e.node] == Cell(Root(f.l, nil), Root(f.r, nil), Parent(z, nil), f.c, f.e.key)
      && (if p(f.e.key) then Searching(h, t, Down(z, f, L), f.l, nil, p)
           else Searching(h, t, Down(z, f, R), f.r, nil, p))
      && Before(Down(z, f, L)) == Before(z) && After(Down(z, f, L)) != [] && After(Down(z, f, L))[0] == f.e
      && After(Down(z, f, R)) == After(z) && LastOf(Before(Down(z, f, R))) == f.e.node
      && Height(f.l) < Height(f) && Height(f.r) < Height(f)
  {
    if f.Bin? {
      DescendAt(h, z, f, nil);
      DescendParted(z, f, p);
    }
  }

  lemma SearchDone(h: Heap, t: Tree, z: Ctx, f: Tree, nil: DNode, p: Key -> bool)
    requires Searching(h, t, z, f, nil, p) && f.Leaf?
    ensures InOrder(t) == Before(z) + After(z)
    ensures FirstWhere(InOrder(t), p) == FirstOf(After(z))
    ensures LastWhere(InOrder(t), k => !p(k)) == LastOf(Before(z))
  {
    PartedWhole(z, p);
    LastOfSplit(Before(z), After(z), k => !p(k));
  }

  // Without duplicates an equal key is the only one.
  lemma OnlyMatch(s: seq<Entry>, k: int, key: Key, cmp: Comparator)
    requires TotalPreorder(cmp) && Sorted(s, cmp, false) && 0 <= k < |s| && cmp(key, s[k].key) == 0
    ensures Neither(s[..k], AtLeast(cmp, key)) && All(s[k + 1..], Above(cmp, key))
  {
    forall i | 0 <= i < |s|
      ensures i < k ==> cmp(key, s[i].key) > 0
      ensures k < i ==> cmp(key, s[i].key) < 0
    {
      var a, b := s[i].key, s[k].key;
      assert Le(cmp, b, key) && Le(cmp, key, a) ==> Le(cmp, b, a);
      assert Le(cmp, a, key) && Le(cmp, key, b) ==> Le(cmp, a, b);
    }
  }

  lemma FirstAt(s: seq<Entry>, k: int, p: Key -> bool)
    requires 0 <= k < |s| && p(s[k].key) && Neither(s[..k], p)
    ensures FirstWhere(s, p) == s[k].node
  {
    assert s == s[..k] + s[k..];
    FirstOfSplit(s[..k], s[k..], p);
  }

  lemma LastAt(s: seq<Entry>, k: int, p: Key -> bool)
    requires 0 <= k < |s| && p(s[k].key) && Neither(s[k + 1..], p)
    ensures LastWhere(s, p) == s[k].node
  {
    assert s == s[..k + 1] + s[k + 1..];
    LastOfSplit(s[..k + 1], s[k + 1..], p);
  }

  lemma MatchScans(s: seq<Entry>, k: int, key: Key, cmp: Comparator)
    requires TotalPreorder(cmp) && Sorted(s, cmp, false) && 0 <= k < |s| && cmp(key, s[k].key) == 0
    ensures FirstWhere(s, AtLeast(cmp, key)) == s[k].node
    ensures FirstWhere(s, Equal(cmp, key)) == s[k].node
    ensures LastWhere(s, AtMost(cmp, key)) == s[k].node
  {
    OnlyMatch(s, k, key, cmp);
    FirstAt(s, k, AtLeast(cmp, key));
    FirstAt(s, k, Equal(cmp, key));
    LastAt(s, k, AtMost(cmp, key));
  }

  lemma MatchDone(h: Heap, t: Tree, z: Ctx, f: Tree, nil: DNode, p: Key -> bool, key: Key, cmp: Comparator)
    requires Searching(h, t, z, f, nil, p) && f.Bin?
    requires TotalPreorder(cmp) && Sorted(InOrder(t), cmp, false) && cmp(key, f.e.key) == 0
    ensures FirstWhere(InOrder(t), AtLeast(cmp, key)) == f.e.node
    ensures FirstWhere(InOrder(t), Equal(cmp, key)) == f.e.node
    ensures LastWhere(InOrder(t), AtMost(cmp, key)) == f.e.node
  {
    AroundRoot(z, f);
    MatchScans(InOrder(t), |Before(z)| + |InOrder(f.l)|, key, cmp);
  }

  // A search for equal keys that ended at the first key at least `key`.
  lemma EqualDone(h: Heap, t: Tree, z: Ctx, f: Tree, nil: DNode, key: Key, cmp: Comparator)
    requires Searching(h, t, z, f, nil, AtLeast(cmp, key)) && f.Leaf?
    requires TotalPreorder(cmp) && (After(z) == [] || cmp(key, After(z)[0].key) == 0 || All(After(z), Above(cmp, key)))
    ensures FirstWhere(InOrder(t), Equal(cmp, key)) ==
      if After(z) != [] && cmp(key, After(z)[0].key) == 0 then After(z)[0].node else null
  {
    PartedWhole(z, AtLeast(cmp, key));
    FirstOfSplit(Before(z), After(z), Equal(cmp, key));
    if All(After(z), Above(cmp, key)) { NoneWhere(After(z), Equal(cmp, key)); }
  }

  // Left of an equal key no key is greater.
  lemma LeftOfMatch(h: Heap, t: Tree, z: Ctx, f: Tree, nil: DNode, key: Key, cmp: Comparator)
    requires Searching(h, t, z, f, nil, AtLeast(cmp, key)) && f.Bin? && UpClosed(InOrder(t), Above(cmp, key))
    requires After(z) != [] && cmp(key, After(z)[0].key) == 0
    ensures cmp(key, f.e.key) >= 0
  {
    var s, k := InOrder(t), |Before(z)| + |InOrder(f.l)|;
    AroundRoot(z, f);
    InOrderPlug(z, f);
    var j := |Before(z)| + |InOrder(f)|;
    assert s[j] == After(z)[0];
    var a, b := s[k].key, s[j].key;
    assert k <= j && (Above(cmp, key)(a) ==> Above(cmp, key)(b));
  }

  // ---------------------------------------------------------------- how far down

  ghost function Height(t: Tree): nat
  {
    if t.Leaf? then 0 else 1 + if Height(t.l) > Height(t.r) then Height(t.l) else Height(t.r)
  }

  ghost function Pow2(n: nat): nat { if n == 0 then 1 else 2 * Pow2(n - 1) }

  lemma {:induction false} PowSum(a: nat, b: nat)
    ensures Pow2(a + b) == Pow2(a) * Pow2(b)
  {
    if a > 0 {
      PowSum(a - 1, b);
      var x, y := Pow2(a - 1), Pow2(b);
      assert 2 * (x * y) == (2 * x) * y;
    }
  }

  lemma {:induction false} PowMonotone(a: nat, b: nat)
    requires a <= b
    ensures Pow2(a) <= Pow2(b)
  {
    if a < b { PowMonotone(a, b - 1); }
  }

  lemma {:induction false} RedBlackSize(t: Tree, h: nat)
    requires RedBlack(t, h)
    ensures h >= 1 && Pow2(h - 1) <= |InOrder(t)| + 1
    ensures Height(t) <= 2 * (h - 1) + if IsBlack(t) then 0 else 1
  {
    if t.Bin? {
      RedBlackSize(t.l, if t.c.Red? then h else h - 1);
      RedBlackSize(t.r, if t.c.Red? then h else h - 1);
    }
  }

  // A valid tree of n nodes is at most 2 log2 (n + 1) high.
  lemma HeightBound(t: Tree)
    requires ValidTree(t)
    ensures var n := |InOrder(t)|; Pow2(Height(t)) <= (n + 1) * (n + 1)
  {
    var k := BlackHeight(t) - 1;
    RedBlackSize(t, BlackHeight(t));
    PowMonotone(Height(t), k + k);
    PowSum(k, k);
    Square(Pow2(k), |InOrder(t)| + 1);
  }

  lemma Square(a: nat, b: nat)
    requires a <= b
    ensures a * a <= b * b
  {
    assert a * a <= a * b <= b * b;
  }

  lemma CountBound(t: Tree, count: nat)
    requires ValidTree(t) && count <= Height(t)
    ensures var n := |InOrder(t)|; Pow2(count) <= (n + 1) * (n + 1)
  {
    HeightBound(t);
    PowMonotone(count, Height(t));
  }
}
