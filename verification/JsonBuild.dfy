/** The nodes while containers are open, and how each completed part extends them. */
module JsonBuild {
  import opened BStrings
  import opened JsonGrammar
  import opened JsonMachine
  import opened JsonLayout

  function KindOf(obj: bool): Kind { if obj then KObject else KArray }

  /** The node of the open container `b`, which will become `f`: its memory has the final sizes and
      is filled as far as `b` goes. */
  ghost predicate Partial(n: Node, b: Json, f: Json, parent: int, at: int)
    requires Extends(b, f)
  {
    && n.parent == parent && n.kind == KindOf(b.obj) && n.length == |b.items| && n.keys == 0
    && n.integer == 0 && n.dbl == 0.0 && !n.boolean && n.str == []
    && |n.values| == |f.items| && n.values[..|b.items|] == ChildIndices(b.items, at + 1)
    && if b.obj then
         && |n.names| == |f.items| == |f.keys| && n.names[..|b.keys|] == KeyOffsets(b.keys)
         && n.objectMem == |KeyArea(b.keys)| <= |n.mem| == |KeyArea(f.keys)| && n.mem[..n.objectMem] == KeyArea(b.keys)
       else n.names == [] && n.mem == [] && n.objectMem == 0
  }

  // The innermost container, as it will be in the document `v` (pass two) or as it is (pass one).
  ghost predicate HeadOk(n: Node, stack: seq<Json>, v: Json, full: bool)
    requires stack != []
  {
    var b, outer := Last(stack), Outer(stack);
    if full then
      var f := Hole(v, outer);
      f.Some? && Extends(b, f.value) && Partial(n, b, f.value, TopOf(outer), Base(outer))
    else n == Head(b, TopOf(outer), Base(outer), false)
  }

  /** Every open container is partly filled and followed by its complete children. */
  ghost predicate Built(nodes: seq<Node>, stack: seq<Json>, v: Json, full: bool)
    decreases |stack|
  {
    stack == [] ||
      var p := Base(Outer(stack));
      && Built(nodes, Outer(stack), v, full) && Last(stack).Box?
      && p < Base(stack) <= |nodes| && HeadOk(nodes[p], stack, v, full)
      && nodes[p + 1..Base(stack)] == LayoutAll(Last(stack).items, p, p + 1, full)
  }

  lemma {:induction false} BuiltFrame(nodes: seq<Node>, nodes': seq<Node>, stack: seq<Json>, v: Json, full: bool)
    requires Built(nodes, stack, v, full) && Base(stack) <= |nodes| && Base(stack) <= |nodes'|
    requires forall k :: 0 <= k < Base(stack) ==> nodes'[k] == nodes[k]
    ensures Built(nodes', stack, v, full)
    decreases |stack|
  {
    hide HeadOk, LayoutAll, Size;
    if stack != [] {
      BuiltFrame(nodes, nodes', Outer(stack), v, full);
      var p := Base(Outer(stack));
      assert nodes'[p + 1..Base(stack)] == nodes[p + 1..Base(stack)];
    }
  }

  lemma StackEnd(stack: seq<Json>, b: Json)
    ensures Outer(stack + [b]) == stack && Last(stack + [b]) == b
    ensures Base(stack + [b]) == Base(stack) + Size(b) && TopOf(stack + [b]) == Base(stack)
  {
    assert Outer(stack + [b]) == stack;
  }

  lemma BaseStep(stack: seq<Json>)
    requires stack != [] && Last(stack).Box?
    ensures Base(stack) == Base(Outer(stack)) + 1 + SizeAll(Last(stack).items)
  {
  }

  lemma BuiltParts(nodes: seq<Node>, stack: seq<Json>, v: Json, full: bool)
    requires stack != [] && Built(nodes, stack, v, full)
    ensures var p, b := Base(Outer(stack)), Last(stack);
      && Built(nodes, Outer(stack), v, full) && b.Box? && TopOf(stack) == p
      && Base(stack) == p + 1 + SizeAll(b.items) <= |nodes|
      && HeadOk(nodes[p], stack, v, full) && nodes[p + 1..Base(stack)] == LayoutAll(b.items, p, p + 1, full)
  {
    hide HeadOk, Layout, LayoutAll, Size, SizeAll, Base;
    BaseStep(stack);
  }

  lemma BuiltFrom(nodes: seq<Node>, outer: seq<Json>, b: Json, v: Json, full: bool)
    requires Built(nodes, outer, v, full) && b.Box? && Base(outer) + Size(b) <= |nodes|
    requires HeadOk(nodes[Base(outer)], outer + [b], v, full)
    requires var p := Base(outer); nodes[p + 1..p + Size(b)] == LayoutAll(b.items, p, p + 1, full)
    ensures Built(nodes, outer + [b], v, full) && Base(outer + [b]) == Base(outer) + 1 + SizeAll(b.items)
  {
    hide HeadOk, LayoutAll;
    StackEnd(outer, b);
  }

  /** A container is opened at the first free index. */
  lemma OpenBox(nodes: seq<Node>, nodes': seq<Node>, stack: seq<Json>, obj: bool, v: Json, full: bool)
    requires Built(nodes, stack, v, full) && Base(stack) <= |nodes| && Base(stack) < |nodes'|
    requires forall k :: 0 <= k < Base(stack) ==> nodes'[k] == nodes[k]
    requires HeadOk(nodes'[Base(stack)], stack + [Box(obj, [], [])], v, full)
    ensures Built(nodes', stack + [Box(obj, [], [])], v, full) && Base(stack + [Box(obj, [], [])]) == Base(stack) + 1
  {
    hide HeadOk;
    StackEnd(stack, Box(obj, [], []));
    BuiltFrame(nodes, nodes', stack, v, full);
  }

  lemma {:induction false} KeyOffsetsSize(keys: seq<seq<Byte>>)
    ensures |KeyOffsets(keys)| == |keys|
  {
    if keys != [] { KeyOffsetsSize(keys[..|keys| - 1]); }
  }

  lemma {:induction false} ChildIndicesSize(items: seq<Json>, at: int)
    ensures |ChildIndices(items, at)| == |items|
  {
    if items != [] { ChildIndicesSize(items[..|items| - 1], at); }
  }

  lemma {:induction false} ChildIndex(items: seq<Json>, at: int, k: nat)
    requires k < |items|
    ensures |ChildIndices(items, at)| == |items| && ChildIndices(items, at)[k] == at + SizeAll(items[..k])
    decreases |items|
  {
    var rest := items[..|items| - 1];
    ChildIndicesSize(items, at);
    ChildIndicesSize(rest, at);
    if k < |rest| {
      ChildIndex(rest, at, k);
      assert rest[..k] == items[..k];
    }
  }

  lemma PartialComplete(n: Node, b: Json, parent: int, at: int)
    requires b.Box? && Partial(n, b, b, parent, at) && (!b.obj ==> b.keys == [])
    ensures n == Head(b, parent, at, true)
  {
    KeyOffsetsSize(b.keys);
    ChildIndicesSize(b.items, at + 1);
    assert n.values[..|b.items|] == n.values;
    if b.obj {
      assert n.names[..|b.keys|] == n.names && n.mem[..n.objectMem] == n.mem;
    }
  }

  /** A complete container: its nodes are laid out as the document has them. */
  lemma CloseBox(nodes: seq<Node>, stack: seq<Json>, v: Json, full: bool)
    requires stack != [] && Built(nodes, stack, v, full) && (!Last(stack).obj ==> Last(stack).keys == [])
    requires full ==> Hole(v, Outer(stack)) == Some(Last(stack))
    ensures Built(nodes, Outer(stack), v, full)
    ensures var b, p := Last(stack), Base(Outer(stack));
      p + Size(b) == Base(stack) <= |nodes| && nodes[p..p + Size(b)] == Layout(b, TopOf(Outer(stack)), p, full)
  {
    var b, p := Last(stack), Base(Outer(stack));
    if full { PartialComplete(nodes[p], b, TopOf(Outer(stack)), p); }
    hide LayoutAll, Partial;
    assert nodes[p..Base(stack)] == [nodes[p]] + nodes[p + 1..Base(stack)];
  }

  /** The parent's node after a child at index `q` was counted and, in pass two, stored. */
  function WithChild(n: Node, q: int, full: bool): Node
    requires full ==> 0 <= n.length < |n.values|
  {
    n.(length := n.length + 1, values := if full then n.values[n.length := q] else n.values)
  }

  lemma PartialChild(n: Node, b: Json, c: Json, f: Json, parent: int, at: int)
    requires Extends(b, f) && Partial(n, b, f, parent, at) && |b.items| < |f.items| && f.items[|b.items|] == c
    ensures n.length < |n.values| && Extends(WithItem(b, c), f)
    ensures Partial(WithChild(n, at + 1 + SizeAll(b.items), true), WithItem(b, c), f, parent, at)
  {
    var b', n' := WithItem(b, c), WithChild(n, at + 1 + SizeAll(b.items), true);
    ChildIndicesSize(b.items, at + 1);
    assert b'.items[..|b.items|] == b.items;
    assert n'.values[..|b'.items|] == n.values[..|b.items|] + [at + 1 + SizeAll(b.items)];
  }

  lemma HeadChild(n: Node, stack: seq<Json>, c: Json, v: Json, full: bool)
    requires stack != [] && Last(stack).Box? && HeadOk(n, stack, v, full) && (full ==> Hole(v, stack) == Some(c))
    ensures full ==> 0 <= n.length < |n.values|
    ensures HeadOk(WithChild(n, Base(stack), full), Outer(stack) + [WithItem(Last(stack), c)], v, full)
  {
    hide HeadOk;
    if full {
      ChildFull(n, stack, c, v);
    } else {
      ChildCounted(n, stack, c, v);
    }
  }

  lemma ChildCounted(n: Node, stack: seq<Json>, c: Json, v: Json)
    requires stack != [] && Last(stack).Box? && HeadOk(n, stack, v, false)
    ensures HeadOk(WithChild(n, Base(stack), false), Outer(stack) + [WithItem(Last(stack), c)], v, false)
  {
    hide Hole, Partial, Base;
    StackEnd(Outer(stack), WithItem(Last(stack), c));
  }

  lemma ChildFull(n: Node, stack: seq<Json>, c: Json, v: Json)
    requires stack != [] && Last(stack).Box? && HeadOk(n, stack, v, true) && Hole(v, stack) == Some(c)
    ensures 0 <= n.length < |n.values|
    ensures HeadOk(WithChild(n, Base(stack), true), Outer(stack) + [WithItem(Last(stack), c)], v, true)
  {
    hide Hole, Partial, Base, HeadOk, Size, SizeAll, Extends, WithChild;
    var b, outer := Last(stack), Outer(stack);
    HoleStep(v, stack);
    BaseStep(stack);
    HeadFull(n, stack, v);
    ChildStored(n, outer, b, c, Hole(v, outer).value, v);
  }

  lemma PartialRoom(n: Node, b: Json, f: Json, parent: int, at: int)
    requires Extends(b, f) && Partial(n, b, f, parent, at) && |b.items| < |f.items|
    ensures n.length == |b.items| < |n.values|
  {
    hide ChildIndices, KeyArea, KeyOffsets;
  }

  lemma ChildStored(n: Node, outer: seq<Json>, b: Json, c: Json, f: Json, v: Json)
    requires Hole(v, outer) == Some(f) && Extends(b, f) && |b.items| < |f.items| && f.items[|b.items|] == c
    requires Partial(n, b, f, TopOf(outer), Base(outer))
    ensures 0 <= n.length < |n.values|
    ensures HeadOk(WithChild(n, Base(outer) + 1 + SizeAll(b.items), true), outer + [WithItem(b, c)], v, true)
  {
    hide Hole, Partial, Base, HeadOk, SizeAll, TopOf;
    PartialRoom(n, b, f, TopOf(outer), Base(outer));
    PartialChild(n, b, c, f, TopOf(outer), Base(outer));
    FullHead(WithChild(n, Base(outer) + 1 + SizeAll(b.items), true), outer, WithItem(b, c), v);
  }

  lemma HeadFull(n: Node, stack: seq<Json>, v: Json)
    requires stack != [] && HeadOk(n, stack, v, true)
    ensures var f, outer := Hole(v, Outer(stack)), Outer(stack);
      f.Some? && Extends(Last(stack), f.value) && Partial(n, Last(stack), f.value, TopOf(outer), Base(outer))
  {
  }

  lemma FullHead(n: Node, outer: seq<Json>, b: Json, v: Json)
    requires Hole(v, outer).Some? && Extends(b, Hole(v, outer).value)
    requires Partial(n, b, Hole(v, outer).value, TopOf(outer), Base(outer))
    ensures HeadOk(n, outer + [b], v, true)
  {
    StackEnd(outer, b);
  }

  lemma HoleStep(v: Json, stack: seq<Json>)
    requires stack != [] && Hole(v, stack).Some?
    ensures var f, b := Hole(v, Outer(stack)), Last(stack);
      f.Some? && Extends(b, f.value) && |b.items| < |f.value.items| && Hole(v, stack).value == f.value.items[|b.items|]
  {
  }

  lemma AllAppend(items: seq<Json>, c: Json, parent: int, at: int, full: bool)
    ensures LayoutAll(items + [c], parent, at, full) ==
      LayoutAll(items, parent, at, full) + Layout(c, parent, at + SizeAll(items), full)
    ensures SizeAll(items + [c]) == SizeAll(items) + Size(c)
  {
    assert (items + [c])[..|items|] == items;
    LayoutAllSize(items, parent, at, full);
  }

  /** A completed value becomes a child of the innermost open container. */
  lemma AddItem(nodes: seq<Node>, nodes': seq<Node>, stack: seq<Json>, c: Json, v: Json, full: bool)
    requires stack != [] && Built(nodes, stack, v, full) && Base(stack) + Size(c) <= |nodes| == |nodes'|
    requires nodes[Base(stack)..Base(stack) + Size(c)] == Layout(c, TopOf(stack), Base(stack), full)
    requires full ==> Hole(v, stack) == Some(c)
    requires var p := Base(Outer(stack));
      && (full ==> 0 <= nodes[p].length < |nodes[p].values|) && nodes'[p] == WithChild(nodes[p], Base(stack), full)
      && forall k :: 0 <= k < |nodes| && k != p ==> nodes'[k] == nodes[k]
    ensures Built(nodes', Outer(stack) + [WithItem(Last(stack), c)], v, full)
    ensures Base(Outer(stack) + [WithItem(Last(stack), c)]) == Base(stack) + Size(c)
  {
    hide HeadOk, Layout, LayoutAll, Hole, SizeAll, Built, Base;
    BuiltParts(nodes, stack, v, full);
    var b, p, q := Last(stack), Base(Outer(stack)), Base(stack);
    var b' := WithItem(b, c);
    BuiltFrame(nodes, nodes', Outer(stack), v, full);
    HeadChild(nodes[p], stack, c, v, full);
    AllAppend(b.items, c, p, p + 1, full);
    assert nodes'[p + 1..q + Size(c)] == nodes[p + 1..q] + nodes[q..q + Size(c)];
    BuiltFrom(nodes', Outer(stack), b', v, full);
  }

  lemma {:induction false} KeyAreaMonotone(a: seq<seq<Byte>>, b: seq<seq<Byte>>)
    requires a <= b
    ensures |KeyArea(a)| <= |KeyArea(b)|
    decreases |b|
  {
    if |a| < |b| {
      KeyAreaMonotone(a, b[..|b| - 1]);
    } else {
      assert a == b;
    }
  }

  lemma KeyAppend(keys: seq<seq<Byte>>, k: seq<Byte>)
    ensures KeyArea(keys + [k]) == KeyArea(keys) + k + [0]
    ensures KeyOffsets(keys + [k]) == KeyOffsets(keys) + [|KeyArea(keys)|]
  {
    assert (keys + [k])[..|keys|] == keys;
  }

  /** The object's node after a key of `len` bytes (src/json.c:340-353); in pass two the key and its
      terminator stand in the key area. */
  function WithName(n: Node, len: int, full: bool): Node
    requires full ==> 0 <= n.length < |n.names|
  {
    if full then n.(names := n.names[n.length := n.objectMem], objectMem := n.objectMem + len + 1)
      else n.(keys := n.keys + len + 1)
  }

  // There is room for one more key and its terminator.
  lemma KeyFits(n: Node, b: Json, k: seq<Byte>, f: Json, parent: int, at: int)
    requires Extends(b, f) && b.obj && |b.keys| == |b.items| && Partial(n, b, f, parent, at) && b.keys + [k] <= f.keys
    ensures n.length < |n.names| && n.objectMem + |k| + 1 <= |n.mem|
  {
    KeyAppend(b.keys, k);
    KeyAreaMonotone(b.keys + [k], f.keys);
  }

  lemma PartialKey(n: Node, b: Json, k: seq<Byte>, f: Json, parent: int, at: int, mem: seq<Byte>)
    requires Extends(b, f) && b.obj && |b.keys| == |b.items| && Partial(n, b, f, parent, at) && b.keys + [k] <= f.keys
    requires |mem| == |n.mem| && n.length < |n.names| && n.objectMem + |k| + 1 <= |mem|
    requires mem[..n.objectMem + |k| + 1] == n.mem[..n.objectMem] + k + [0]
    ensures Extends(WithKey(b, k), f) && Partial(WithName(n.(mem := mem), |k|, true), WithKey(b, k), f, parent, at)
  {
    KeyAppend(b.keys, k);
    KeyOffsetsSize(b.keys);
    var n' := WithName(n.(mem := mem), |k|, true);
    assert n'.names[..|b.keys| + 1] == n.names[..|b.keys|] + [n.objectMem];
  }

  /** A key was read; the object now waits for its value. */
  lemma AddKey(nodes: seq<Node>, nodes': seq<Node>, stack: seq<Json>, k: seq<Byte>, v: Json, full: bool)
    requires AtKey(stack) && Built(nodes, stack, v, full) && Base(stack) <= |nodes| == |nodes'|
    requires forall i :: 0 <= i < |nodes| && i != Base(Outer(stack)) ==> nodes'[i] == nodes[i]
    requires HeadOk(nodes'[Base(Outer(stack))], Outer(stack) + [WithKey(Last(stack), k)], v, full)
    ensures Built(nodes', Outer(stack) + [WithKey(Last(stack), k)], v, full)
    ensures Base(Outer(stack) + [WithKey(Last(stack), k)]) == Base(stack)
  {
    hide HeadOk, LayoutAll;
    BuiltFrame(nodes, nodes', Outer(stack), v, full);
    StackEnd(Outer(stack), WithKey(Last(stack), k));
    var p := Base(Outer(stack));
    assert nodes'[p + 1..Base(stack)] == nodes[p + 1..Base(stack)];
  }
}
