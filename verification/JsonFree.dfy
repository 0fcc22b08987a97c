/** Freeing a finished tree without a stack (json_value_free, src/json.c:789-837). */
module JsonFree {
  import opened BStrings
  import opened JsonGrammar
  import opened JsonLayout
  import opened JsonBuild

  /** A value, the members or elements of a container, or the bytes of a string is freed. */
  datatype Freed = FreeValue(at: int) | FreeArray(at: int) | FreeString(at: int)

  /** Everything that belongs to `v`: the children, the last one first, before their container. */
  ghost function FreeOrder(v: Json, at: int): seq<Freed> {
    match v
    case Box(_, _, items) => FreeItems(items, at + 1) + [FreeArray(at), FreeValue(at)]
    case Str(_) => [FreeString(at), FreeValue(at)]
    case _ => [FreeValue(at)]
  }

  ghost function FreeItems(items: seq<Json>, at: int): seq<Freed> {
    if items == [] then [] else
      FreeOrder(items[|items| - 1], at + SizeAll(items[..|items| - 1])) + FreeItems(items[..|items| - 1], at)
  }

  ghost predicate Distinct(s: seq<Freed>) {
    forall i, j :: 0 <= i < j < |s| ==> s[i] != s[j]
  }

  ghost predicate Within(s: seq<Freed>, lo: int, hi: int) {
    forall e :: e in s ==> lo <= e.at < hi
  }

  lemma DistinctConcat(a: seq<Freed>, b: seq<Freed>)
    requires Distinct(a) && Distinct(b) && forall e :: e in a ==> e !in b
    ensures Distinct(a + b)
  {
    forall i, j | 0 <= i < j < |a + b|
      ensures (a + b)[i] != (a + b)[j]
    {
      if i < |a| { assert (a + b)[i] in a; }
      if j >= |a| { assert (a + b)[j] in b; }
    }
  }

  lemma NothingTwice()
    ensures Distinct([])
  {
  }

  /** Nothing is freed twice, and only what belongs to the value. */
  lemma {:induction false} FreeOnce(v: Json, at: int)
    ensures Distinct(FreeOrder(v, at)) && Within(FreeOrder(v, at), at, at + Size(v))
    ensures FreeValue(at) in FreeOrder(v, at)
    decreases v, 1
  {
    if v.Box? {
      FreeItemsOnce(v.items, at + 1);
      var a, b := FreeItems(v.items, at + 1), [FreeArray(at), FreeValue(at)];
      DistinctConcat(a, b);
      assert b[1] in b;
    } else if v.Str? {
      assert FreeOrder(v, at)[1] == FreeValue(at);
    }
  }

  lemma {:induction false} FreeItemsOnce(items: seq<Json>, at: int)
    ensures Distinct(FreeItems(items, at)) && Within(FreeItems(items, at), at, at + SizeAll(items))
    decreases items, 0
  {
    hide FreeOrder, Distinct, Size;
    if items == [] {
      NothingTwice();
    } else {
      var rest, last := items[..|items| - 1], items[|items| - 1];
      FreeItemsOnce(rest, at);
      FreeOnce(last, at + SizeAll(rest));
      DistinctConcat(FreeOrder(last, at + SizeAll(rest)), FreeItems(rest, at));
    }
  }

  /** Every node is freed, and the array or the bytes that it has, and no others. */
  ghost predicate Releases(o: seq<Freed>, nodes: seq<Node>, at: int) {
    forall k :: 0 <= k < |nodes| ==> ReleasesNode(o, nodes[k], at + k)
  }

  ghost predicate ReleasesNode(o: seq<Freed>, n: Node, at: int) {
    && FreeValue(at) in o
    && (FreeArray(at) in o <==> n.kind == KObject || n.kind == KArray)
    && (FreeString(at) in o <==> n.kind == KString)
  }

  lemma ReleasesJoin(o: seq<Freed>, nodes: seq<Node>, at: int, o': seq<Freed>, nodes': seq<Node>)
    requires Releases(o, nodes, at) && Within(o, at, at + |nodes|)
    requires Releases(o', nodes', at + |nodes|) && Within(o', at + |nodes|, at + |nodes| + |nodes'|)
    ensures Releases(o' + o, nodes + nodes', at)
  {
    var all := nodes + nodes';
    forall k | 0 <= k < |all|
      ensures ReleasesNode(o' + o, all[k], at + k)
    {
      if k < |nodes| {
        assert all[k] == nodes[k] && FreeArray(at + k) !in o' && FreeString(at + k) !in o';
      } else {
        var j := k - |nodes|;
        assert all[k] == nodes'[j] && at + k == at + |nodes| + j;
        assert FreeArray(at + k) !in o && FreeString(at + k) !in o;
      }
    }
  }

  /** Nothing that belongs to the value is left. */
  lemma {:induction false} NothingLeft(v: Json, parent: int, at: int)
    ensures Releases(FreeOrder(v, at), Layout(v, parent, at, true), at)
    decreases v, 1
  {
    hide Distinct, LayoutAll, FreeItems, SizeAll;
    if v.Box? {
      ItemsNothingLeft(v.items, at, at + 1);
      FreeItemsOnce(v.items, at + 1);
      LayoutAllSize(v.items, at, at + 1, true);
      BoxReleases(v, parent, at);
    } else {
      LeafReleases(v, parent, at);
    }
  }

  lemma LeafReleases(v: Json, parent: int, at: int)
    requires !v.Box?
    ensures Releases(FreeOrder(v, at), Layout(v, parent, at, true), at)
  {
    assert Layout(v, parent, at, true) == [Head(v, parent, at, true)];
  }

  lemma BoxReleases(v: Json, parent: int, at: int)
    requires v.Box? && Releases(FreeItems(v.items, at + 1), LayoutAll(v.items, at, at + 1, true), at + 1)
    requires Within(FreeItems(v.items, at + 1), at + 1, at + 1 + |LayoutAll(v.items, at, at + 1, true)|)
    ensures Releases(FreeOrder(v, at), Layout(v, parent, at, true), at)
  {
    hide LayoutAll, FreeItems, ChildIndices, KeyArea, KeyOffsets, Releases, Within;
    var h := Head(v, parent, at, true);
    assert h.kind == KObject || h.kind == KArray;
    ContainerReleases(FreeItems(v.items, at + 1), h, LayoutAll(v.items, at, at + 1, true), at);
  }

  lemma ContainerReleases(o: seq<Freed>, h: Node, all: seq<Node>, at: int)
    requires h.kind == KObject || h.kind == KArray
    requires Releases(o, all, at + 1) && Within(o, at + 1, at + 1 + |all|)
    ensures Releases(o + [FreeArray(at), FreeValue(at)], [h] + all, at)
  {
    var n, s := [FreeArray(at), FreeValue(at)], [h] + all;
    assert n[0] == FreeArray(at) && n[1] == FreeValue(at);
    forall k | 0 <= k < |s|
      ensures ReleasesNode(o + n, s[k], at + k)
    {
      if k > 0 {
        assert s[k] == all[k - 1] && at + k == at + 1 + (k - 1);
      } else {
        assert FreeString(at) !in o;
      }
    }
  }

  lemma {:induction false} ItemsNothingLeft(items: seq<Json>, parent: int, at: int)
    ensures Releases(FreeItems(items, at), LayoutAll(items, parent, at, true), at)
    decreases items, 0
  {
    hide Distinct, Layout, FreeOrder, Size;
    if items != [] {
      var rest, last := items[..|items| - 1], items[|items| - 1];
      ItemsNothingLeft(rest, parent, at);
      LayoutAllSize(rest, parent, at, true);
      NothingLeft(last, parent, at + SizeAll(rest));
      FreeItemsOnce(rest, at);
      FreeOnce(last, at + SizeAll(rest));
      LayoutSize(last, parent, at + SizeAll(rest), true);
      ReleasesJoin(FreeItems(rest, at), LayoutAll(rest, parent, at, true), at,
        FreeOrder(last, at + SizeAll(rest)), Layout(last, parent, at + SizeAll(rest), true));
    }
  }

  /** A child is freed before its container. */
  lemma {:induction false} ChildFirst(v: Json, at: int, k: nat)
    requires v.Box? && k < |v.items|
    ensures var s := FreeOrder(v, at);
      s[|s| - 1] == FreeValue(at) && s[|s| - 2] == FreeArray(at)
      && FreeValue(at + 1 + SizeAll(v.items[..k])) in s[..|s| - 2]
  {
    var s, inner := FreeOrder(v, at), FreeItems(v.items, at + 1);
    assert s[..|s| - 2] == inner;
    ItemFreed(v.items, at + 1, k);
  }

  lemma {:induction false} ItemFreed(items: seq<Json>, at: int, k: nat)
    requires k < |items|
    ensures FreeValue(at + SizeAll(items[..k])) in FreeItems(items, at)
    decreases |items|
  {
    var rest, last := items[..|items| - 1], items[|items| - 1];
    if k < |rest| {
      ItemFreed(rest, at, k);
      assert rest[..k] == items[..k];
    } else {
      FreeOnce(last, at + SizeAll(rest));
    }
  }

  // A value that is being freed, of which `left` children are still there.
  datatype Frame = Frame(v: Json, at: int, left: nat)

  function Inner(stack: seq<Frame>): Frame
    requires stack != []
  {
    stack[|stack| - 1]
  }

  function Below(stack: seq<Frame>): seq<Frame>
    requires stack != []
  {
    stack[..|stack| - 1]
  }

  ghost function FrameRest(f: Frame): seq<Freed> {
    if f.v.Box? && f.left <= |f.v.items|
      then FreeItems(f.v.items[..f.left], f.at + 1) + [FreeArray(f.at), FreeValue(f.at)]
    else FreeOrder(f.v, f.at)
  }

  ghost predicate FrameOk(nodes: seq<Node>, f: Frame, parent: int) {
    && 0 <= f.at && f.at + Size(f.v) <= |nodes|
    && if f.v.Box? then
         && f.left <= |f.v.items| && nodes[f.at] == Head(f.v, parent, f.at, true).(length := f.left)
         && f.at + 1 + SizeAll(f.v.items[..f.left]) <= |nodes|
         && nodes[f.at + 1..f.at + 1 + SizeAll(f.v.items[..f.left])] ==
           LayoutAll(f.v.items[..f.left], f.at, f.at + 1, true)
       else f.at < |nodes| && nodes[f.at] == Head(f.v, parent, f.at, true)
  }

  // The value is the child of the container below it that was taken off last.
  ghost predicate Linked(f: Frame, g: Frame) {
    f.v.Box? && f.left < |f.v.items| && g.v == f.v.items[f.left] && g.at == f.at + 1 + SizeAll(f.v.items[..f.left])
  }

  ghost predicate StackOk(nodes: seq<Node>, stack: seq<Frame>)
    decreases |stack|
  {
    stack == [] ||
      (StackOk(nodes, Below(stack))
       && FrameOk(nodes, Inner(stack), if Below(stack) == [] then NONE else Inner(Below(stack)).at)
       && (Below(stack) != [] ==> Linked(Inner(Below(stack)), Inner(stack))))
  }

  ghost function Rest(stack: seq<Frame>): seq<Freed>
    decreases |stack|
  {
    if stack == [] then [] else FrameRest(Inner(stack)) + Rest(Below(stack))
  }

  // The containers below depend only on nodes before the innermost value.
  lemma {:induction false} StackFrame(nodes: seq<Node>, nodes': seq<Node>, stack: seq<Frame>, at: int)
    requires StackOk(nodes, stack) && |nodes'| == |nodes| && 0 <= at
    requires forall k :: 0 <= k < at && k < |nodes| ==> nodes'[k] == nodes[k]
    requires stack != [] ==>
      Inner(stack).v.Box? && Inner(stack).at + 1 + SizeAll(Inner(stack).v.items[..Inner(stack).left]) <= at
    ensures StackOk(nodes', stack)
    decreases |stack|
  {
    hide Head, LayoutAll;
    if stack != [] {
      var f := Inner(stack);
      var x, y := f.at + 1, f.at + 1 + SizeAll(f.v.items[..f.left]);
      assert nodes'[x..y] == nodes[x..y];
      StackFrame(nodes, nodes', Below(stack), at);
    }
  }

  ghost function Fresh(v: Json, at: int): Frame { Frame(v, at, if v.Box? then |v.items| else 0) }

  lemma FreshRest(v: Json, at: int)
    ensures FrameRest(Fresh(v, at)) == FreeOrder(v, at)
  {
    if v.Box? { assert v.items[..|v.items|] == v.items; }
  }

  lemma FreshOk(nodes: seq<Node>, v: Json, parent: int, at: int)
    requires 0 <= at && at + Size(v) <= |nodes| && nodes[at..at + Size(v)] == Layout(v, parent, at, true)
    ensures FrameOk(nodes, Fresh(v, at), parent)
  {
    hide Layout, LayoutAll, Size, SizeAll, Head;
    FirstNode(v, parent, at, true);
    assert nodes[at] == nodes[at..at + Size(v)][0];
    if v.Box? {
      HeadLength(v, parent, at);
      BoxLayout(v, parent, at, true);
      SliceSlice(nodes, at, at + Size(v), 1, Size(v));
      assert v.items[..|v.items|] == v.items;
      assert Layout(v, parent, at, true)[1..Size(v)] == Layout(v, parent, at, true)[1..];
    }
  }

  lemma HeadLength(v: Json, parent: int, at: int)
    requires v.Box?
    ensures Head(v, parent, at, true).(length := |v.items|) == Head(v, parent, at, true)
  {
    hide ChildIndices, KeyOffsets, KeyArea;
  }

  lemma FrameView(nodes: seq<Node>, f: Frame, parent: int)
    requires FrameOk(nodes, f, parent) && f.v.Box?
    ensures 0 <= f.at && f.left <= |f.v.items|
    ensures var at := f.at + 1 + SizeAll(f.v.items[..f.left]);
      at <= |nodes| && nodes[f.at + 1..at] == LayoutAll(f.v.items[..f.left], f.at, f.at + 1, true)
  {
  }

  lemma ChildParts(nodes: seq<Node>, f: Frame, parent: int)
    requires FrameOk(nodes, f, parent) && f.v.Box? && 0 < f.left
    ensures var k, c := f.left - 1, f.v.items[f.left - 1];
      var at := f.at + 1 + SizeAll(f.v.items[..k]);
      && at + Size(c) <= |nodes|
      && nodes[at..at + Size(c)] == Layout(c, f.at, at, true)
      && nodes[f.at + 1..at] == LayoutAll(f.v.items[..k], f.at, f.at + 1, true)
  {
    hide Layout, LayoutAll, Size, SizeAll, FrameOk, Head;
    FrameView(nodes, f, parent);
    var items, k := f.v.items[..f.left], f.left - 1;
    var p := f.at + 1;
    ChildSlice(nodes, items, k, f.at, p, true);
    PrefixSlice(nodes, items, k, f.at, p);
    assert items[..k] == f.v.items[..k] && items[k] == f.v.items[k];
  }

  lemma PrefixSlice(nodes: seq<Node>, items: seq<Json>, k: nat, parent: int, p: int)
    requires k + 1 == |items| && 0 <= p && p + SizeAll(items) <= |nodes|
    requires nodes[p..p + SizeAll(items)] == LayoutAll(items, parent, p, true)
    ensures p + SizeAll(items[..k]) <= |nodes|
    ensures nodes[p..p + SizeAll(items[..k])] == LayoutAll(items[..k], parent, p, true)
  {
    hide Layout, LayoutAll, Size, SizeAll;
    LayoutPrefix(items, k, parent, p);
    LayoutAllSize(items, parent, p, true);
    SliceSlice(nodes, p, p + SizeAll(items), 0, SizeAll(items[..k]));
  }

  lemma ChildPointer(nodes: seq<Node>, f: Frame, parent: int)
    requires FrameOk(nodes, f, parent) && f.v.Box? && 0 < f.left
    ensures var k := f.left - 1;
      0 <= k < |nodes[f.at].values|
      && nodes[f.at].values[k] == f.at + 1 + SizeAll(f.v.items[..k]) && nodes[f.at].length == f.left
  {
    ChildIndex(f.v.items, f.at + 1, f.left - 1);
  }

  lemma LayoutPrefix(items: seq<Json>, k: nat, parent: int, at: int)
    requires k + 1 == |items|
    ensures SizeAll(items[..k]) <= |LayoutAll(items, parent, at, true)|
    ensures LayoutAll(items, parent, at, true)[0..SizeAll(items[..k])] == LayoutAll(items[..k], parent, at, true)
  {
    LayoutAllSize(items[..k], parent, at, true);
    var rest := LayoutAll(items[..k], parent, at, true);
    SliceLeft(rest, Layout(items[k], parent, at + |rest|, true), 0, |rest|);
    assert rest[0..|rest|] == rest;
  }

  ghost function ParentOf(stack: seq<Frame>): int
    requires stack != []
  {
    if Below(stack) == [] then NONE else Inner(Below(stack)).at
  }

  lemma StackPush(nodes: seq<Node>, stack: seq<Frame>, f: Frame)
    requires StackOk(nodes, stack) && FrameOk(nodes, f, if stack == [] then NONE else Inner(stack).at)
    requires (stack != [] ==> Linked(Inner(stack), f))
    ensures StackOk(nodes, stack + [f]) && Below(stack + [f]) == stack && Inner(stack + [f]) == f
  {
    assert Below(stack + [f]) == stack;
  }

  /** One child is taken off its container: it is next, and nothing else changes in what is left. */
  lemma Descend(nodes: seq<Node>, nodes': seq<Node>, stack: seq<Frame>)
    requires stack != [] && StackOk(nodes, stack) && Inner(stack).v.Box? && 0 < Inner(stack).left
    requires Inner(stack).at < |nodes|
    requires nodes' == nodes[Inner(stack).at := nodes[Inner(stack).at].(length := Inner(stack).left - 1)]
    ensures var f, k := Inner(stack), Inner(stack).left - 1;
      var g := Fresh(f.v.items[k], f.at + 1 + SizeAll(f.v.items[..k]));
      && k < |nodes[f.at].values| && nodes[f.at].values[k] == g.at
      && StackOk(nodes', Below(stack) + [f.(left := k)] + [g])
  {
    hide Layout, LayoutAll, Size, FrameOk, SizeAll, Head;
    var f, k, outer := Inner(stack), Inner(stack).left - 1, Below(stack);
    FrameView(nodes, f, ParentOf(stack));
    var c, at := f.v.items[k], f.at + 1 + SizeAll(f.v.items[..k]);
    ChildParts(nodes, f, ParentOf(stack));
    ChildPointer(nodes, f, ParentOf(stack));
    LessChild(nodes, nodes', f, ParentOf(stack), at);
    LayoutSize(c, f.at, at, true);
    StackFrame(nodes, nodes', outer, f.at);
    StackPush(nodes', outer, f.(left := k));
    assert nodes'[at..at + Size(c)] == nodes[at..at + Size(c)];
    FreshOk(nodes', c, f.at, at);
    StackPush(nodes', outer + [f.(left := k)], Fresh(c, at));
  }

  lemma LessChild(nodes: seq<Node>, nodes': seq<Node>, f: Frame, parent: int, at: int)
    requires FrameOk(nodes, f, parent) && f.v.Box? && 0 < f.left
    requires at == f.at + 1 + SizeAll(f.v.items[..f.left - 1]) <= |nodes|
    requires nodes[f.at + 1..at] == LayoutAll(f.v.items[..f.left - 1], f.at, f.at + 1, true)
    requires nodes' == nodes[f.at := nodes[f.at].(length := f.left - 1)]
    ensures FrameOk(nodes', f.(left := f.left - 1), parent)
  {
    hide Head, LayoutAll, Size, SizeAll;
    assert nodes'[f.at + 1..at] == nodes[f.at + 1..at];
  }

  lemma BoxRest(f: Frame)
    requires f.v.Box? && f.left <= |f.v.items|
    ensures FrameRest(f) == FreeItems(f.v.items[..f.left], f.at + 1) + [FreeArray(f.at), FreeValue(f.at)]
  {
    hide FreeItems, FreeOrder;
  }

  lemma ItemsRest(items: seq<Json>, k: nat, at: int)
    requires k < |items|
    ensures FreeItems(items[..k + 1], at) == FreeOrder(items[k], at + SizeAll(items[..k])) + FreeItems(items[..k], at)
  {
    hide FreeOrder, SizeAll;
    assert items[..k + 1][..k] == items[..k];
  }

  lemma RestPushed(outer: seq<Frame>, f: Frame)
    ensures Rest(outer + [f]) == FrameRest(f) + Rest(outer)
  {
    hide FrameRest;
    assert Below(outer + [f]) == outer;
  }

  lemma DescendRest(outer: seq<Frame>, f: Frame)
    requires f.v.Box? && 0 < f.left <= |f.v.items|
    ensures var k := f.left - 1;
      var g := Fresh(f.v.items[k], f.at + 1 + SizeAll(f.v.items[..k]));
      Rest(outer + [f.(left := k)] + [g]) == Rest(outer + [f])
  {
    hide FreeItems, FreeOrder, SizeAll, FrameRest, Rest, Fresh;
    var k := f.left - 1;
    var c, at := f.v.items[k], f.at + 1 + SizeAll(f.v.items[..k]);
    var f', g := f.(left := k), Fresh(c, at);
    RestPushed(outer, f);
    RestPushed(outer, f');
    RestPushed(outer + [f'], g);
    FreshRest(c, at);
    BoxRest(f);
    BoxRest(f');
    ItemsRest(f.v.items, k, f.at + 1);
    var a, b, z, r :=
      FreeOrder(c, at), FreeItems(f.v.items[..k], f.at + 1), [FreeArray(f.at), FreeValue(f.at)], Rest(outer);
    assert FrameRest(f) == a + b + z;
    Associates(a, b, z);
    Associates(a, b + z, r);
  }

  lemma {:induction false} RestLength(stack: seq<Frame>)
    ensures |Rest(stack)| >= |stack|
    decreases |stack|
  {
    if stack != [] { RestLength(Below(stack)); }
  }

  // What is freed when no child is left.
  lemma Ascend(stack: seq<Frame>)
    requires stack != [] && (Inner(stack).v.Box? ==> Inner(stack).left == 0)
    ensures var f := Inner(stack);
      Rest(stack) ==
        (if f.v.Box? then [FreeArray(f.at)] else if f.v.Str? then [FreeString(f.at)] else [])
        + [FreeValue(f.at)] + Rest(Below(stack))
  {
    hide Rest;
    var f := Inner(stack);
    assert stack == Below(stack) + [f];
    RestPushed(Below(stack), f);
    if f.v.Box? {
      BoxRest(f);
      assert f.v.items[..0] == [];
    }
  }

  lemma NotFreed(freed: seq<Freed>, stack: seq<Frame>, v: Json)
    requires stack != [] && freed + Rest(stack) == FreeOrder(v, 0)
    requires (Inner(stack).v.Box? ==> Inner(stack).left <= |Inner(stack).v.items|)
    ensures FreeValue(Inner(stack).at) !in freed && (Inner(stack).v.Box? ==> FreeArray(Inner(stack).at) !in freed)
  {
    FreeOnce(v, 0);
    var f := Inner(stack);
    FrameHolds(f);
    hide FrameRest;
    DistinctApart(freed, Rest(stack), FreeValue(f.at));
    if f.v.Box? { DistinctApart(freed, Rest(stack), FreeArray(f.at)); }
  }

  lemma FrameHolds(f: Frame)
    requires f.v.Box? ==> f.left <= |f.v.items|
    ensures FreeValue(f.at) in FrameRest(f) && (f.v.Box? ==> FreeArray(f.at) in FrameRest(f))
  {
    FreeOnce(f.v, f.at);
    var z := [FreeArray(f.at), FreeValue(f.at)];
    assert z[0] in z && z[1] in z;
  }

  lemma DistinctApart(a: seq<Freed>, b: seq<Freed>, e: Freed)
    requires Distinct(a + b) && e in b
    ensures e !in a
  {
    var j :| 0 <= j < |b| && b[j] == e;
    assert (a + b)[|a| + j] == e;
    forall i | 0 <= i < |a|
      ensures a[i] != e
    {
      assert (a + b)[i] == a[i];
    }
  }

  lemma InnerNode(nodes: seq<Node>, stack: seq<Frame>)
    requires stack != [] && StackOk(nodes, stack)
    ensures var f := Inner(stack);
      && 0 <= f.at < |nodes| && nodes[f.at].parent == ParentOf(stack)
      && (nodes[f.at].kind == KArray || nodes[f.at].kind == KObject <==> f.v.Box?)
      && (nodes[f.at].kind == KString <==> f.v.Str?)
      && (f.v.Box? ==> nodes[f.at].length == f.left <= |f.v.items|)
  {
  }

  /** The memory of a finished tree: its nodes, and what was freed so far. */
  class Memory {
    var nodes: seq<Node>
    var freed: seq<Freed>

    constructor (nodes: seq<Node>)
      ensures this.nodes == nodes && freed == []
    {
      this.nodes, freed := nodes, [];
    }

    /** A value may be read and written while it is not freed. */
    function Load(at: int): Node
      requires 0 <= at < |nodes| && FreeValue(at) !in freed
      reads this
    {
      nodes[at]
    }

    /** A pointer in an element array, which is not freed either. */
    function Element(at: int, k: int): int
      requires 0 <= at < |nodes| && FreeValue(at) !in freed && FreeArray(at) !in freed && 0 <= k < |nodes[at].values|
      reads this
    {
      nodes[at].values[k]
    }

    method Store(at: int, n: Node)
      requires 0 <= at < |nodes| && FreeValue(at) !in freed
      modifies `nodes
      ensures nodes == old(nodes)[at := n]
    {
      nodes := nodes[at := n];
    }

    // `value` is the innermost of the values being freed, and the rest of the order is still to come.
    ghost predicate Freeing(value: int, stack: seq<Frame>, v: Json)
      reads this
    {
      && StackOk(nodes, stack) && freed + Rest(stack) == FreeOrder(v, 0)
      && (value == if stack == [] then NONE else Inner(stack).at)
    }

    /** json_value_free, src/json.c:789-837. */
    method ValueFree(root: int, ghost v: Json)
      requires freed == [] && root == 0 && nodes == Layout(v, NONE, 0, true)
      modifies this
      ensures freed == FreeOrder(v, 0)
    {
      hide Head, Layout, LayoutAll, FreeOrder, Freeing;
      ghost var stack := Begin(root, v);
      var value := root;
      RestLength(stack);
      while value != NONE
        invariant Freeing(value, stack, v) && |Rest(stack)| >= |stack|
        decreases 2 * |Rest(stack)| - |stack|
      {
        value, stack := FreeStep(value, stack, v);
        RestLength(stack);
      }
      FreeDone(stack, v);
    }

    lemma FreeDone(stack: seq<Frame>, v: Json)
      requires Freeing(NONE, stack, v)
      ensures freed == FreeOrder(v, 0)
    {
      if stack != [] { InnerNode(nodes, stack); }
      assert freed + [] == freed;
    }

    method Begin(root: int, ghost v: Json) returns (ghost stack: seq<Frame>)
      requires freed == [] && root == 0 && nodes == Layout(v, NONE, 0, true)
      modifies `nodes
      ensures Freeing(root, stack, v)
    {
      hide Head, Layout, LayoutAll, FreeOrder;
      LayoutSize(v, NONE, 0, true);
      assert nodes[0..|nodes|] == nodes;
      FreshOk(nodes, v, NONE, 0);
      FreshRest(v, 0);
      stack := [] + [Fresh(v, 0)];
      StackPush(nodes, [], Fresh(v, 0));
      RestOne(Fresh(v, 0));
      InnerNode(nodes, stack);
      assert nodes[root].parent == NONE;
      ghost var nodes0 := nodes;
      Store(root, Load(root).(parent := NONE));
      assert nodes == nodes0;
      assert freed + FreeOrder(v, 0) == FreeOrder(v, 0);
    }

    // One round: the node and its arrays are read before they are freed, and never after.
    method FreeStep(value: int, ghost stack: seq<Frame>, ghost v: Json) returns (next: int, ghost stack': seq<Frame>)
      requires Freeing(value, stack, v) && value != NONE
      modifies this
      ensures Freeing(next, stack', v) && 2 * |Rest(stack')| - |stack'| < 2 * |Rest(stack)| - |stack|
    {
      hide Head, Layout, LayoutAll, FreeOrder, StackOk, Rest;
      InnerNode(nodes, stack);
      NotFreed(freed, stack, v);
      ghost var f := Inner(stack);
      if (Load(value).kind == KArray || Load(value).kind == KObject) && Load(value).length != 0 {
        Descend(nodes, nodes[value := nodes[value].(length := nodes[value].length - 1)], stack);
        DescendRest(Below(stack), f);
        assert Below(stack) + [f] == stack;
        Store(value, Load(value).(length := Load(value).length - 1));
        stack' := Below(stack) + [f.(left := f.left - 1)]
          + [Fresh(f.v.items[f.left - 1], f.at + 1 + SizeAll(f.v.items[..f.left - 1]))];
        next := Element(value, Load(value).length);
      } else {
        Ascend(stack);
        StackBelow(nodes, stack);
        ghost var freed0 := freed;
        if Load(value).kind == KArray || Load(value).kind == KObject {
          freed := freed + [FreeArray(value)];
        } else if Load(value).kind == KString {
          freed := freed + [FreeString(value)];
        }
        next := Load(value).parent;
        freed := freed + [FreeValue(value)];
        stack' := Below(stack);
        assert freed + Rest(stack') == freed0 + Rest(stack);
      }
    }
  }

  lemma StackBelow(nodes: seq<Node>, stack: seq<Frame>)
    requires stack != [] && StackOk(nodes, stack)
    ensures StackOk(nodes, Below(stack))
  {
  }

  lemma RestOne(f: Frame)
    ensures Rest([] + [f]) == FrameRest(f)
  {
    assert Below([] + [f]) == [];
  }
}
