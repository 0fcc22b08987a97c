/**
  dict_merge of src/adt/dict.c. Both trees are walked with dict_next while the nodes already
  visited are linked into the load list through their left links.
 */
module Merge {
  import opened RedBlackTree
  import opened Search
  import opened Traversal
  import opened Dictionary
  import opened Loader

  // ---------------------------------------------------------------- merging sequences

  // The sorted merge of `a` and `b`; on equal keys `b` goes first.
  ghost function Merged(a: seq<Entry>, b: seq<Entry>, cmp: Comparator): seq<Entry>
  {
    if a == [] then b
    else if b == [] then a
    else if cmp(a[0].key, b[0].key) < 0 then [a[0]] + Merged(a[1..], b, cmp)
    else [b[0]] + Merged(a, b[1..], cmp)
  }

  lemma {:induction false} MergedContents(a: seq<Entry>, b: seq<Entry>, cmp: Comparator)
    ensures multiset(Merged(a, b, cmp)) == multiset(a) + multiset(b)
    ensures |Merged(a, b, cmp)| == |a| + |b|
  {
    if a != [] && b != [] {
      if cmp(a[0].key, b[0].key) < 0 {
        MergedContents(a[1..], b, cmp);
        assert a == [a[0]] + a[1..];
      } else {
        MergedContents(a, b[1..], cmp);
        assert b == [b[0]] + b[1..];
      }
    }
  }

  ghost predicate Follows(e: Entry, x: Entry, cmp: Comparator, dupes: bool)
  {
    cmp(e.key, x.key) < 0 || (dupes && cmp(e.key, x.key) == 0)
  }

  // Without duplicates the two sequences have no key in common.
  ghost predicate Mergeable(a: seq<Entry>, b: seq<Entry>, cmp: Comparator, dupes: bool)
  {
    dupes || forall x, y :: x in a && y in b ==> cmp(x.key, y.key) != 0
  }

  // The head of the merge goes before everything else.
  lemma HeadFirst(a: seq<Entry>, b: seq<Entry>, cmp: Comparator, dupes: bool, x: Entry)
    requires TotalPreorder(cmp) && Sorted(a, cmp, dupes) && Sorted(b, cmp, dupes) && Mergeable(a, b, cmp, dupes)
    requires a != [] && b != []
    ensures cmp(a[0].key, b[0].key) < 0 && (x in a[1..] || x in b) ==> Follows(a[0], x, cmp, dupes)
    ensures cmp(a[0].key, b[0].key) >= 0 && (x in a || x in b[1..]) ==> Follows(b[0], x, cmp, dupes)
  {
    var k, m, n := a[0].key, b[0].key, x.key;
    assert Le(cmp, m, n) && Le(cmp, n, k) ==> Le(cmp, m, k);
    assert Le(cmp, m, k) && Le(cmp, k, n) ==> Le(cmp, m, n);
    assert x in a ==> Le(cmp, k, n);
    assert x in b ==> Le(cmp, m, n);
  }

  lemma SortedCons(e: Entry, s: seq<Entry>, cmp: Comparator, dupes: bool)
    requires Sorted(s, cmp, dupes) && forall i :: 0 <= i < |s| ==> Follows(e, s[i], cmp, dupes)
    ensures Sorted([e] + s, cmp, dupes)
  {
  }

  lemma TailsMergeable(a: seq<Entry>, b: seq<Entry>, cmp: Comparator, dupes: bool)
    requires Sorted(a, cmp, dupes) && Sorted(b, cmp, dupes) && Mergeable(a, b, cmp, dupes) && a != [] && b != []
    ensures Sorted(a[1..], cmp, dupes) && Mergeable(a[1..], b, cmp, dupes)
    ensures Sorted(b[1..], cmp, dupes) && Mergeable(a, b[1..], cmp, dupes)
  {
  }

  lemma {:induction false} SortedMerged(a: seq<Entry>, b: seq<Entry>, cmp: Comparator, dupes: bool)
    requires TotalPreorder(cmp) && Sorted(a, cmp, dupes) && Sorted(b, cmp, dupes) && Mergeable(a, b, cmp, dupes)
    ensures Sorted(Merged(a, b, cmp), cmp, dupes)
  {
    hide TotalPreorder, Sorted, Mergeable, Follows;
    if a != [] && b != [] {
      TailsMergeable(a, b, cmp, dupes);
      var left := cmp(a[0].key, b[0].key) < 0;
      var e, a', b' := if left then a[0] else b[0], if left then a[1..] else a, if left then b else b[1..];
      SortedMerged(a', b', cmp, dupes);
      MergedContents(a', b', cmp);
      var m := Merged(a', b', cmp);
      forall i | 0 <= i < |m| ensures Follows(e, m[i], cmp, dupes) {
        assert m[i] in multiset(m);
        HeadFirst(a, b, cmp, dupes, m[i]);
      }
      SortedCons(e, m, cmp, dupes);
    }
  }

  // The entries of `a` stand in `m` at the places `p`, in their order.
  ghost predicate PlacedAt(a: seq<Entry>, m: seq<Entry>, p: seq<nat>) {
    && |p| == |a| && (forall i :: 0 <= i < |a| ==> p[i] < |m| && m[p[i]] == a[i])
    && forall i, j :: 0 <= i < j < |a| ==> p[i] < p[j]
  }

  // An entry of `a` stands before one of `b` exactly when its key is smaller.
  ghost predicate Interleaved(a: seq<Entry>, b: seq<Entry>, cmp: Comparator, p: seq<nat>, q: seq<nat>)
    requires |p| == |a| && |q| == |b|
  {
    forall i, j :: 0 <= i < |a| && 0 <= j < |b| ==>
      p[i] != q[j] && (p[i] < q[j] <==> cmp(a[i].key, b[j].key) < 0)
  }

  ghost function OneOn(p: seq<nat>): (r: seq<nat>)
    ensures |r| == |p| && forall i :: 0 <= i < |p| ==> r[i] == p[i] + 1
  {
    seq(|p|, i requires 0 <= i < |p| => p[i] + 1)
  }

  lemma PlacedOn(a: seq<Entry>, m: seq<Entry>, p: seq<nat>, x: Entry)
    requires PlacedAt(a, m, p)
    ensures PlacedAt(a, [x] + m, OneOn(p)) && PlacedAt([x] + a, [x] + m, [0] + OneOn(p))
  {
    var q := [0] + OneOn(p);
    forall i | 0 <= i < |a| + 1
      ensures ([x] + m)[q[i]] == ([x] + a)[i]
    {
      if i > 0 { assert ([x] + a)[i] == a[i - 1]; }
    }
  }

  lemma PlacedItself(a: seq<Entry>) returns (p: seq<nat>)
    ensures PlacedAt(a, a, p)
  {
    p := seq(|a|, i requires 0 <= i < |a| => i);
  }

  lemma HeadsCompared(a: seq<Entry>, b: seq<Entry>, cmp: Comparator, dupes: bool, k: nat)
    requires TotalPreorder(cmp) && Sorted(a, cmp, dupes) && Sorted(b, cmp, dupes) && a != [] && b != []
    ensures cmp(a[0].key, b[0].key) < 0 && k < |b| ==> cmp(a[0].key, b[k].key) < 0
    ensures cmp(a[0].key, b[0].key) >= 0 && k < |a| ==> cmp(a[k].key, b[0].key) >= 0
  {
    var x, y := a[0].key, b[0].key;
    if k < |b| { assert Le(cmp, y, b[k].key) && (Le(cmp, b[k].key, x) ==> Le(cmp, y, x)); }
    if k < |a| { assert Le(cmp, x, a[k].key) && (Le(cmp, y, x) ==> Le(cmp, y, a[k].key)); }
  }

  /** Merging keeps the order of both, and puts an entry of `b` before those of `a` with an equal key. */
  lemma {:induction false} MergedPlaces(a: seq<Entry>, b: seq<Entry>, cmp: Comparator, dupes: bool)
    returns (p: seq<nat>, q: seq<nat>)
    requires TotalPreorder(cmp) && Sorted(a, cmp, dupes) && Sorted(b, cmp, dupes)
    ensures PlacedAt(a, Merged(a, b, cmp), p) && PlacedAt(b, Merged(a, b, cmp), q) && Interleaved(a, b, cmp, p, q)
    decreases |a| + |b|
  {
    hide TotalPreorder, Sorted, PlacedAt, Interleaved;
    if a == [] || b == [] {
      p := PlacedItself(a);
      q := PlacedItself(b);
      NoPlaces(a, b, Merged(a, b, cmp), cmp, p, q);
    } else {
      var left := cmp(a[0].key, b[0].key) < 0;
      var x, a', b' := if left then a[0] else b[0], if left then a[1..] else a, if left then b else b[1..];
      SortedTails(a, b, cmp, dupes);
      p, q := MergedPlaces(a', b', cmp, dupes);
      PlacedSize(a', Merged(a', b', cmp), p);
      PlacedSize(b', Merged(a', b', cmp), q);
      PlacedOn(a', Merged(a', b', cmp), p, x);
      PlacedOn(b', Merged(a', b', cmp), q, x);
      assert a == [a[0]] + a[1..] && b == [b[0]] + b[1..];
      if left {
        LeftFirst(a, b, cmp, dupes, p, q);
        p, q := [0] + OneOn(p), OneOn(q);
      } else {
        RightFirst(a, b, cmp, dupes, p, q);
        p, q := OneOn(p), [0] + OneOn(q);
      }
    }
  }

  lemma NoPlaces(a: seq<Entry>, b: seq<Entry>, m: seq<Entry>, cmp: Comparator, p: seq<nat>, q: seq<nat>)
    requires (a == [] || b == []) && PlacedAt(a, a, p) && PlacedAt(b, b, q)
    ensures |p| == |a| && |q| == |b| && Interleaved(a, b, cmp, p, q) && PlacedAt([], m, [])
    ensures (a == [] ==> p == []) && (b == [] ==> q == [])
  {
  }

  lemma LeftFirst(a: seq<Entry>, b: seq<Entry>, cmp: Comparator, dupes: bool, p: seq<nat>, q: seq<nat>)
    requires TotalPreorder(cmp) && Sorted(a, cmp, dupes) && Sorted(b, cmp, dupes) && a != [] && b != []
    requires cmp(a[0].key, b[0].key) < 0 && |p| + 1 == |a| && |q| == |b| && Interleaved(a[1..], b, cmp, p, q)
    ensures Interleaved(a, b, cmp, [0] + OneOn(p), OneOn(q))
  {
    hide TotalPreorder, Sorted;
    forall k | 0 <= k < |b|
      ensures cmp(a[0].key, b[k].key) < 0
    {
      HeadsCompared(a, b, cmp, dupes, k);
    }
    assert forall i :: 0 < i < |a| ==> a[i] == a[1..][i - 1];
  }

  lemma RightFirst(a: seq<Entry>, b: seq<Entry>, cmp: Comparator, dupes: bool, p: seq<nat>, q: seq<nat>)
    requires TotalPreorder(cmp) && Sorted(a, cmp, dupes) && Sorted(b, cmp, dupes) && a != [] && b != []
    requires cmp(a[0].key, b[0].key) >= 0 && |p| == |a| && |q| + 1 == |b| && Interleaved(a, b[1..], cmp, p, q)
    ensures Interleaved(a, b, cmp, OneOn(p), [0] + OneOn(q))
  {
    hide TotalPreorder, Sorted;
    forall k | 0 <= k < |a|
      ensures cmp(a[k].key, b[0].key) >= 0
    {
      HeadsCompared(a, b, cmp, dupes, k);
    }
    assert forall i :: 0 < i < |b| ==> b[i] == b[1..][i - 1];
  }

  lemma PlacedSize(a: seq<Entry>, m: seq<Entry>, p: seq<nat>)
    requires PlacedAt(a, m, p)
    ensures |p| == |a|
  {
  }

  lemma SortedTails(a: seq<Entry>, b: seq<Entry>, cmp: Comparator, dupes: bool)
    requires Sorted(a, cmp, dupes) && Sorted(b, cmp, dupes) && a != [] && b != []
    ensures Sorted(a[1..], cmp, dupes) && Sorted(b[1..], cmp, dupes)
  {
  }

  // ---------------------------------------------------------------- the walk

  lemma NoDupJoin(l: seq<Entry>, e: Entry, r: seq<Entry>)
    requires NoDup(l) && NoDup(r) && EntryNodes(l) !! EntryNodes(r) && e.node !in EntryNodes(l)
    requires e.node !in EntryNodes(r)
    ensures NoDup(l + [e] + r)
  {
    var s, n := l + [e] + r, |l|;
    forall i, j | 0 <= i < j < |s| ensures s[i].node != s[j].node {
      assert i < n ==> l[i].node in EntryNodes(l);
      assert n < j ==> r[j - n - 1].node in EntryNodes(r);
      assert j < n ==> l[j].node in EntryNodes(l);
      assert n < i ==> r[i - n - 1].node in EntryNodes(r);
    }
  }

  lemma {:induction false} DistinctNoDup(t: Tree)
    requires Distinct(t)
    ensures NoDup(InOrder(t))
  {
    if t.Bin? {
      DistinctNoDup(t.l);
      DistinctNoDup(t.r);
      NodesInOrder(t.l);
      NodesInOrder(t.r);
      NoDupJoin(InOrder(t.l), t.e, InOrder(t.r));
    }
  }

  ghost predicate Keyed(h: Heap, s: seq<Entry>) { forall e :: e in s ==> e.node in h && h[e.node].key == e.key }

  lemma {:induction false} LinkedKeyed(h: Heap, t: Tree, p: DNode?, nil: DNode)
    requires Linked(h, t, p, nil)
    ensures Keyed(h, InOrder(t))
  {
    if t.Bin? {
      LinkedKeyed(h, t.l, t.e.node, nil);
      LinkedKeyed(h, t.r, t.e.node, nil);
    }
  }

  // One dictionary during the merge: its first `i` nodes are in the load list, the others are not.
  ghost predicate Walking(h: Heap, t: Tree, i: nat, list: seq<Entry>, nil: DNode)
  {
    && Walkable(h, t, EntryNodes(list), nil) && Keyed(h, InOrder(t)) && NoDup(InOrder(t)) && i <= |InOrder(t)|
    && forall j :: i <= j < |InOrder(t)| ==> InOrder(t)[j].node !in EntryNodes(list)
  }

  lemma WalkingStart(h: Heap, t: Tree, nil: DNode)
    requires At(h, Top, t, nil)
    ensures Walking(h, t, 0, [], nil)
  {
    AtWalkable(h, Top, t, nil);
    assert EntryNodes([]) == {};
    LinkedKeyed(h, t, nil, nil);
    DistinctNoDup(t);
  }

  // From `h` to `h'`, only left links of listed nodes changed.
  ghost predicate OnlyLefts(h: Heap, h': Heap, list: seq<Entry>)
  {
    && h'.Keys == h.Keys
    && forall n :: n in h ==> h'[n] == h[n].(left := h'[n].left) && (n !in EntryNodes(list) ==> h'[n] == h[n])
  }

  // Entry `e` went to the list: it is the next node here, or belongs elsewhere.
  lemma WalkingStep(h: Heap, h': Heap, t: Tree, i: nat, i': nat, list: seq<Entry>, e: Entry, nil: DNode)
    requires Walking(h, t, i, list, nil) && OnlyLefts(h, h', list + [e])
    requires if i' == i then e.node !in Nodes(t) else i' == i + 1 <= |InOrder(t)| && e == InOrder(t)[i]
    ensures Walking(h', t, i', list + [e], nil)
  {
    EntryNodesAppend(list, e);
    WalkFrame(h, h', t, EntryNodes(list), EntryNodes(list + [e]), nil);
    NodesInOrder(t);
    forall j | i' <= j < |InOrder(t)| ensures InOrder(t)[j].node !in EntryNodes(list + [e]) {
      assert InOrder(t)[j] in InOrder(t);
    }
  }

  lemma WalkStart(h: Heap, h': Heap, t: Tree, nil: DNode)
    requires At(h, Top, t, nil) && Agree(h, h', h.Keys) && h.Keys == Nodes(t) + {nil}
    ensures Walking(h', t, 0, [], nil)
  {
    AtFrame(h, h', Top, t, nil);
    WalkingStart(h', t, nil);
  }

  lemma WalkView(h: Heap, t: Tree, i: nat, list: seq<Entry>, nil: DNode)
    requires Walking(h, t, i, list, nil)
    ensures i <= |InOrder(t)|
    ensures if i < |InOrder(t)| then
        FirstOf(InOrder(t)[i..]) == InOrder(t)[i].node && InOrder(t)[i].node in h
        && h[InOrder(t)[i].node].key == InOrder(t)[i].key
      else FirstOf(InOrder(t)[i..]) == null
  {
    if i < |InOrder(t)| { assert InOrder(t)[i] in InOrder(t); }
  }

  // The next node of one dictionary went to the list; the other dictionary does not own it.
  lemma WalkStep(h: Heap, h': Heap, t: Tree, i: nat, u: Tree, j: nat, list: seq<Entry>, nil: DNode, unil: DNode)
    requires Walking(h, t, i, list, nil) && Walking(h, u, j, list, unil) && Nodes(t) !! Nodes(u) && i < |InOrder(t)|
    requires OnlyLefts(h, h', list + [InOrder(t)[i]])
    ensures Walking(h', t, i + 1, list + [InOrder(t)[i]], nil) && Walking(h', u, j, list + [InOrder(t)[i]], unil)
    ensures EntryNodes(list + [InOrder(t)[i]]) == EntryNodes(list) + {InOrder(t)[i].node}
  {
    NodesInOrder(t);
    assert InOrder(t)[i] in InOrder(t);
    EntryNodesAppend(list, InOrder(t)[i]);
    WalkingStep(h, h', t, i, i + 1, list, InOrder(t)[i], nil);
    WalkingStep(h, h', u, j, j, list, InOrder(t)[i], unil);
  }

  lemma MergedStep(a: seq<Entry>, i: nat, b: seq<Entry>, j: nat, cmp: Comparator, list: seq<Entry>)
    requires i <= |a| && j <= |b|
    ensures i < |a| && (j == |b| || cmp(a[i].key, b[j].key) < 0) ==>
      list + Merged(a[i..], b[j..], cmp) == list + [a[i]] + Merged(a[i + 1..], b[j..], cmp)
    ensures j < |b| && (i == |a| || cmp(a[i].key, b[j].key) >= 0) ==>
      list + Merged(a[i..], b[j..], cmp) == list + [b[j]] + Merged(a[i..], b[j + 1..], cmp)
  {
    var s, t := a[i..], b[j..];
    if i < |a| { assert s == [a[i]] + a[i + 1..] && s[1..] == a[i + 1..]; }
    if j < |b| { assert t == [b[j]] + b[j + 1..] && t[1..] == b[j + 1..]; }
    if i < |a| && j < |b| {
      if cmp(a[i].key, b[j].key) < 0 {
        assert list + ([a[i]] + Merged(s[1..], t, cmp)) == list + [a[i]] + Merged(s[1..], t, cmp);
      } else {
        assert list + ([b[j]] + Merged(s, t[1..], cmp)) == list + [b[j]] + Merged(s, t[1..], cmp);
      }
    }
  }

  lemma WalkedNode(h: Heap, t: Tree, i: nat, list: seq<Entry>, nil: DNode)
    requires Walking(h, t, i, list, nil) && i < |InOrder(t)|
    ensures var e := InOrder(t)[i]; e.node in h && h[e.node].key == e.key && e.node !in EntryNodes(list)
    ensures Walkable(h, t, EntryNodes(list), nil)
    ensures forall j :: i < j < |InOrder(t)| ==> InOrder(t)[j].node !in EntryNodes(list)
  {
    assert InOrder(t)[i] in InOrder(t);
  }

  // The copyleft and copyright blocks (src/adt/dict.c:1249-1269): the successor is found before
  // the node's left link is overwritten.
  method CopyNode(load: DictLoad, node: DNode, nil: DNode, ghost s: set<DNode>, ghost t: Tree, ghost i: nat)
    returns (next: DNode?)
    requires load.Valid() && load.dictptr.nodecount < load.dictptr.maxcount && load.nilnode !in s
    requires Walking(Snapshot(s), t, i, load.list, nil) && i < |InOrder(t)| && node == InOrder(t)[i].node
    requires EntryNodes(load.list) <= s
    modifies load`list, load.dictptr`nodecount, (load.Repr() + {node})`left, load.nilnode`right, node`key
    ensures load.Valid() && load.list == old(load.list) + [InOrder(t)[i]]
    ensures load.dictptr.nodecount == old(load.dictptr.nodecount) + 1
    ensures OnlyLefts(old(Snapshot(s)), Snapshot(s), load.list)
    ensures next == FirstOf(InOrder(t)[i + 1..]) && node in s
  {
    hide Walking, InOrder, Walkable, LoadList;
    WalkedNode(Snapshot(s), t, i, load.list, nil);
    next := NextAt(node, nil, s, t, i, EntryNodes(load.list));
    EntryNodesAppend(load.list, InOrder(t)[i]);
    AppendNode(load, node, s);
  }

  // It goes to the end of the new list; of the other nodes no field changes.
  method AppendNode(load: DictLoad, node: DNode, ghost s: set<DNode>)
    requires load.Valid() && load.dictptr.nodecount < load.dictptr.maxcount && load.nilnode !in s
    requires node in s && node !in EntryNodes(load.list) && EntryNodes(load.list) <= s
    modifies load`list, load.dictptr`nodecount, (load.Repr() + {node})`left, load.nilnode`right, node`key
    ensures load.Valid() && load.list == old(load.list) + [Entry(node, old(node.key))]
    ensures load.dictptr.nodecount == old(load.dictptr.nodecount) + 1
    ensures OnlyLefts(old(Snapshot(s)), Snapshot(s), load.list)
  {
    hide LoadList;
    EntryNodesAppend(load.list, Entry(node, node.key));
    ghost var h := Snapshot(s);
    load.Next(node, node.key);
    LeftsChanged(h, s, load.list);
  }

  lemma LeftsChanged(h: Heap, s: set<DNode>, list: seq<Entry>)
    requires h.Keys == s && forall n :: n in s && n !in EntryNodes(list) ==> n.left == h[n].left
    requires forall n :: n in s ==>
      n.right == h[n].right && n.parent == h[n].parent && n.color == h[n].color && n.key == h[n].key
    ensures OnlyLefts(h, Snapshot(s), list)
  {
  }

  lemma PartSnapshot(r: set<DNode>, s: set<DNode>)
    requires r <= s
    ensures Agree(Snapshot(r), Snapshot(s), Snapshot(r).Keys) && Snapshot(r).Keys == r
  {
  }

  twostate lemma SameSnapshot(s: set<DNode>)
    requires forall n :: n in s ==> allocated(n) && unchanged(n)
    ensures Snapshot(s) == old(Snapshot(s))
  {
  }

  lemma MergeSorted(h: Heap, t: Tree, nil: DNode, n: nat, h': Heap, u: Tree, unil: DNode, m: nat, cmp: Comparator,
          dupes: bool)
    requires WellFormed(h, t, nil, cmp, dupes, n) && WellFormed(h', u, unil, cmp, dupes, m)
    requires TotalPreorder(cmp) && Mergeable(InOrder(t), InOrder(u), cmp, dupes)
    ensures Sorted(Merged(InOrder(t), InOrder(u), cmp), cmp, dupes) && |Merged(InOrder(t), InOrder(u), cmp)| == n + m
    ensures unil in h' && h'[unil].color == Black && nil !in Nodes(t) && unil !in Nodes(u)
  {
    SortedMerged(InOrder(t), InOrder(u), cmp, dupes);
    MergedContents(InOrder(t), InOrder(u), cmp);
  }

  lemma {:induction false} MergedNodes(a: seq<Entry>, b: seq<Entry>, cmp: Comparator)
    ensures EntryNodes(Merged(a, b, cmp)) == EntryNodes(a) + EntryNodes(b)
  {
    if a == [] || b == [] {
      assert EntryNodes([]) == {};
    } else if cmp(a[0].key, b[0].key) < 0 {
      MergedNodes(a[1..], b, cmp);
      EntryNodesCons(a[0], a[1..]);
      EntryNodesCons(a[0], Merged(a[1..], b, cmp));
      assert a == [a[0]] + a[1..];
    } else {
      MergedNodes(a, b[1..], cmp);
      EntryNodesCons(b[0], b[1..]);
      EntryNodesCons(b[0], Merged(a, b[1..], cmp));
      assert b == [b[0]] + b[1..];
    }
  }

  lemma EntryNodesCons(e: Entry, s: seq<Entry>)
    ensures EntryNodes([e] + s) == {e.node} + EntryNodes(s)
  {
  }

  /** src/adt/dict.c:1221-1274. The nodes' data and whether duplicates are allowed are not among what changes. */
  method DictMerge(dest: Dict, source: Dict)
    requires dest.Valid() && source.Valid() && dest.compare == source.compare && dest.dupes == source.dupes
    requires dest != source ==>
      && dest.Repr() !! source.Repr() && dest.nodecount + source.nodecount <= dest.maxcount
      && Mergeable(InOrder(dest.tree), InOrder(source.tree), dest.compare, dest.dupes)
    modifies dest`nodecount, dest`tree, source`nodecount, source`tree
    modifies (dest.Repr() + source.Repr())`left, (dest.Repr() + source.Repr())`right
    modifies (dest.Repr() + source.Repr())`parent, (dest.Repr() + source.Repr())`color
    modifies (dest.Repr() + source.Repr())`key
    ensures dest.Valid() && source.Valid()
    ensures dest == source ==> dest.tree == old(dest.tree)
    ensures dest != source ==> InOrder(source.tree) == []
    ensures dest != source ==>
      InOrder(dest.tree) == Merged(old(InOrder(dest.tree)), old(InOrder(source.tree)), dest.compare)
  {
    if source == dest {
      return;
    }
    MergeDistinct(dest, source);
  }

  method MergeDistinct(dest: Dict, source: Dict)
    requires dest.Valid() && source.Valid() && dest.compare == source.compare && dest.dupes == source.dupes
    requires dest != source && dest.Repr() !! source.Repr() && dest.nodecount + source.nodecount <= dest.maxcount
    requires Mergeable(InOrder(dest.tree), InOrder(source.tree), dest.compare, dest.dupes)
    modifies dest`nodecount, dest`tree, source`nodecount, source`tree
    modifies (dest.Repr() + source.Repr())`left, (dest.Repr() + source.Repr())`right
    modifies (dest.Repr() + source.Repr())`parent, (dest.Repr() + source.Repr())`color
    modifies (dest.Repr() + source.Repr())`key
    ensures dest.Valid() && source.Valid() && InOrder(source.tree) == []
    ensures InOrder(dest.tree) == Merged(old(InOrder(dest.tree)), old(InOrder(source.tree)), dest.compare)
  {
    hide Merged, InOrder, Sorted, WellFormed, Mergeable, LoadList, Nodes;
    ghost var td, ts, s := dest.tree, source.tree, dest.Repr() + source.Repr();
    MergeSorted(Snapshot(dest.Repr()), td, dest.nil, dest.nodecount, Snapshot(source.Repr()), ts, source.nil,
      source.nodecount, dest.compare, dest.dupes);
    MergedNodes(InOrder(td), InOrder(ts), dest.compare);
    NodesInOrder(td);
    NodesInOrder(ts);
    var load := WalkBoth(dest, source, s);
    assert source.nil !in load.Repr() && dest.nil !in load.Repr();
    EndMerge(dest, source, load);
  }

  // src/adt/dict.c:1272-1273.
  method EndMerge(dest: Dict, source: Dict, load: DictLoad)
    requires load.Valid() && load.dictptr == dest != source && TotalPreorder(dest.compare)
    requires dest.nodecount == |load.list| <= dest.maxcount <= DICTCOUNT_T_MAX
    requires Sorted(load.list, dest.compare, dest.dupes)
    requires source.nil.color == Black && source.compare == dest.compare && source.maxcount <= DICTCOUNT_T_MAX
    requires source.nil != dest.nil && source.nil !in load.Repr() && dest.nil !in load.Repr()
    modifies dest`tree, source`tree, source`nodecount, source.nil`left, source.nil`right, source.nil`parent
    modifies (load.Repr() + {dest.nil})`left, (load.Repr() + {dest.nil})`right
    modifies (load.Repr() + {dest.nil})`parent, (load.Repr() + {dest.nil})`color
    ensures dest.Valid() && InOrder(dest.tree) == load.list && source.Valid() && InOrder(source.tree) == []
  {
    hide Sorted, InOrder, WellFormed;
    source.Clear();
    assert load.Valid();
    load.End();
  }

  // The state of the loop: `i` nodes of one dictionary and `j` of the other are in the list.
  ghost predicate Walked(h: Heap, t: Tree, i: nat, nil: DNode, u: Tree, j: nat, unil: DNode, list: seq<Entry>,
          cmp: Comparator)
  {
    && Walking(h, t, i, list, nil) && Walking(h, u, j, list, unil) && Nodes(t) !! Nodes(u)
    && |list| == i + j && EntryNodes(list) <= h.Keys
    && list + Merged(InOrder(t)[i..], InOrder(u)[j..], cmp) == Merged(InOrder(t), InOrder(u), cmp)
  }

  lemma WalkedStart(h: Heap, t: Tree, nil: DNode, u: Tree, unil: DNode, cmp: Comparator)
    requires Walking(h, t, 0, [], nil) && Walking(h, u, 0, [], unil) && Nodes(t) !! Nodes(u)
    ensures Walked(h, t, 0, nil, u, 0, unil, [], cmp)
    ensures InOrder(t)[0..] == InOrder(t) && InOrder(u)[0..] == InOrder(u)
  {
    assert EntryNodes([]) == {};
  }

  lemma WalkedView(h: Heap, t: Tree, i: nat, nil: DNode, u: Tree, j: nat, unil: DNode, list: seq<Entry>,
          cmp: Comparator)
    requires Walked(h, t, i, nil, u, j, unil, list, cmp)
    ensures i <= |InOrder(t)| && j <= |InOrder(u)| && |list| == i + j
    ensures i == |InOrder(t)| && j == |InOrder(u)| ==> list == Merged(InOrder(t), InOrder(u), cmp)
    ensures if i < |InOrder(t)| then
        var e := InOrder(t)[i]; FirstOf(InOrder(t)[i..]) == e.node && e.node in h && h[e.node].key == e.key
      else FirstOf(InOrder(t)[i..]) == null
    ensures if j < |InOrder(u)| then
        var e := InOrder(u)[j]; FirstOf(InOrder(u)[j..]) == e.node && e.node in h && h[e.node].key == e.key
      else FirstOf(InOrder(u)[j..]) == null
  {
    hide Walking, Merged;
    WalkView(h, t, i, list, nil);
    WalkView(h, u, j, list, unil);
    MergedContents(InOrder(t)[i..], InOrder(u)[j..], cmp);
  }

  // The source of the next node: on equal keys the second dictionary.
  ghost predicate TakesFirst(t: Tree, i: nat, u: Tree, j: nat, cmp: Comparator)
  {
    var a, b := InOrder(t), InOrder(u);
    i < |a| && (j >= |b| || cmp(a[i].key, b[j].key) < 0)
  }

  method TakeLeft(load: DictLoad, leftnode: DNode, ghost s: set<DNode>, ghost t: Tree, ghost i: nat, nil: DNode,
                  ghost u: Tree, ghost j: nat, ghost unil: DNode, ghost cmp: Comparator) returns (next: DNode?)
    requires Walked(Snapshot(s), t, i, nil, u, j, unil, load.list, cmp) && TakesFirst(t, i, u, j, cmp)
    requires load.Valid() && load.dictptr.nodecount < load.dictptr.maxcount && load.nilnode !in s
    requires leftnode == InOrder(t)[i].node
    modifies load`list, load.dictptr`nodecount, s`left, load.nilnode`left, load.nilnode`right, s`key
    ensures Walked(Snapshot(s), t, i + 1, nil, u, j, unil, load.list, cmp) && load.Valid()
    ensures load.dictptr.nodecount == old(load.dictptr.nodecount) + 1 && next == FirstOf(InOrder(t)[i + 1..])
  {
    hide Walking, Merged, InOrder, OnlyLefts, Nodes, LoadList;
    ghost var h, list := Snapshot(s), load.list;
    WalkView(h, t, i, list, nil);
    WalkView(h, u, j, list, unil);
    MergedStep(InOrder(t), i, InOrder(u), j, cmp, list);
    next := CopyNode(load, leftnode, nil, s, t, i);
    WalkStep(h, Snapshot(s), t, i, u, j, list, nil, unil);
  }

  method TakeRight(load: DictLoad, rightnode: DNode, ghost s: set<DNode>, ghost t: Tree, ghost i: nat, ghost nil: DNode,
                   ghost u: Tree, ghost j: nat, unil: DNode, ghost cmp: Comparator) returns (next: DNode?)
    requires Walked(Snapshot(s), t, i, nil, u, j, unil, load.list, cmp) && !TakesFirst(t, i, u, j, cmp)
    requires j < |InOrder(u)|
    requires load.Valid() && load.dictptr.nodecount < load.dictptr.maxcount && load.nilnode !in s
    requires rightnode == InOrder(u)[j].node
    modifies load`list, load.dictptr`nodecount, s`left, load.nilnode`left, load.nilnode`right, s`key
    ensures Walked(Snapshot(s), t, i, nil, u, j + 1, unil, load.list, cmp) && load.Valid()
    ensures load.dictptr.nodecount == old(load.dictptr.nodecount) + 1 && next == FirstOf(InOrder(u)[j + 1..])
  {
    hide Walking, Merged, InOrder, OnlyLefts, Nodes, LoadList;
    ghost var h, list := Snapshot(s), load.list;
    WalkView(h, t, i, list, nil);
    WalkView(h, u, j, list, unil);
    MergedStep(InOrder(t), i, InOrder(u), j, cmp, list);
    next := CopyNode(load, rightnode, unil, s, u, j);
    WalkStep(h, Snapshot(s), u, j, t, i, list, unil, nil);
  }

  // The first nodes and the empty load list (src/adt/dict.c:1224-1232).
  method BeginWalk(dest: Dict, source: Dict, ghost s: set<DNode>)
    returns (load: DictLoad, leftnode: DNode?, rightnode: DNode?)
    requires dest.Valid() && source.Valid() && dest != source && s == dest.Repr() + source.Repr()
    requires dest.Repr() !! source.Repr()
    modifies dest`nodecount
    ensures fresh(load) && fresh(load.nilnode) && load.dictptr == dest && load.Valid() && load.list == []
    ensures dest.nodecount == 0
    ensures Walked(Snapshot(s), dest.tree, 0, dest.nil, source.tree, 0, source.nil, [], dest.compare)
    ensures leftnode == FirstOf(InOrder(dest.tree)[0..]) && rightnode == FirstOf(InOrder(source.tree)[0..])
  {
    hide Walked, Merged, InOrder, At, LoadList, Sorted, ValidTree, Nodes, Walking, Snapshot;
    PartSnapshot(dest.Repr(), s);
    PartSnapshot(source.Repr(), s);
    ghost var t, u, h := dest.tree, source.tree, Snapshot(s);
    WalkStart(Snapshot(dest.Repr()), h, t, dest.nil);
    WalkStart(Snapshot(source.Repr()), h, u, source.nil);
    WalkedStart(h, t, dest.nil, u, source.nil, dest.compare);
    leftnode := dest.First();
    rightnode := source.First();
    label before:
    dest.nodecount := 0;
    load := new DictLoad(dest);
    SameSnapshot@before(s);
  }

  // One round of the loop: the side is chosen and its node copied (src/adt/dict.c:1235-1269).
  method CopyNext(load: DictLoad, leftnode: DNode?, rightnode: DNode?, ghost s: set<DNode>, ghost t: Tree, ghost i: nat,
                  nil: DNode, ghost u: Tree, ghost j: nat, unil: DNode, cmp: Comparator)
    returns (left: DNode?, right: DNode?, ghost i': nat, ghost j': nat)
    requires Walked(Snapshot(s), t, i, nil, u, j, unil, load.list, cmp) && load.Valid()
    requires i <= |InOrder(t)| && j <= |InOrder(u)| && (leftnode != null || rightnode != null)
    requires leftnode == FirstOf(InOrder(t)[i..]) && rightnode == FirstOf(InOrder(u)[j..])
    requires load.dictptr.nodecount < load.dictptr.maxcount && load.nilnode !in s
    modifies load`list, load.dictptr`nodecount, s`left, load.nilnode`left, load.nilnode`right, s`key
    ensures Walked(Snapshot(s), t, i', nil, u, j', unil, load.list, cmp) && load.Valid()
    ensures i' <= |InOrder(t)| && j' <= |InOrder(u)| && i' + j' == i + j + 1
    ensures load.dictptr.nodecount == old(load.dictptr.nodecount) + 1
    ensures left == FirstOf(InOrder(t)[i'..]) && right == FirstOf(InOrder(u)[j'..])
  {
    hide Walked, Merged, InOrder, LoadList, Nodes, Walking;
    WalkedView(Snapshot(s), t, i, nil, u, j, unil, load.list, cmp);
    left, right, i', j' := leftnode, rightnode, i, j;
    if leftnode != null && (rightnode == null || cmp(leftnode.key, rightnode.key) < 0) {
      left := TakeLeft(load, leftnode, s, t, i, nil, u, j, unil, cmp);
      i' := i + 1;
    } else {
      right := TakeRight(load, rightnode, s, t, i, nil, u, j, unil, cmp);
      j' := j + 1;
    }
  }

  // The walk over both dictionaries, up to the end of both.
  method WalkBoth(dest: Dict, source: Dict, ghost s: set<DNode>) returns (load: DictLoad)
    requires dest.Valid() && source.Valid() && dest.compare == source.compare && dest.dupes == source.dupes
    requires dest != source && s == dest.Repr() + source.Repr()
    requires dest.Repr() !! source.Repr() && dest.nodecount + source.nodecount <= dest.maxcount
    modifies dest`nodecount, s`left, s`key
    ensures fresh(load) && fresh(load.nilnode) && load.dictptr == dest && load.Valid() && dest.nodecount == |load.list|
    ensures load.list == Merged(InOrder(dest.tree), InOrder(source.tree), dest.compare)
  {
    hide Walked, Merged, InOrder, At, LoadList, Sorted, ValidTree, Nodes, Walking;
    ghost var t, u := dest.tree, source.tree;
    ghost var i: nat, j: nat := 0, 0;
    var leftnode, rightnode;
    load, leftnode, rightnode := BeginWalk(dest, source, s);
    while leftnode != null || rightnode != null
      invariant fresh(load) && fresh(load.nilnode) && load.dictptr == dest && load.Valid()
      invariant Walked(Snapshot(s), t, i, dest.nil, u, j, source.nil, load.list, dest.compare)
      invariant i <= |InOrder(t)| && j <= |InOrder(u)| && dest.nodecount == |load.list| == i + j
      invariant leftnode == FirstOf(InOrder(t)[i..]) && rightnode == FirstOf(InOrder(u)[j..])
      decreases |InOrder(t)| - i + |InOrder(u)| - j
    {
      WalkedView(Snapshot(s), t, i, dest.nil, u, j, source.nil, load.list, dest.compare);
      leftnode, rightnode, i, j :=
        CopyNext(load, leftnode, rightnode, s, t, i, dest.nil, u, j, source.nil, dest.compare);
      WalkedView(Snapshot(s), t, i, dest.nil, u, j, source.nil, load.list, dest.compare);
    }
    WalkedView(Snapshot(s), t, i, dest.nil, u, j, source.nil, load.list, dest.compare);
  }
}
