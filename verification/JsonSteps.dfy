/** How each action of the parser loop changes the nodes. */
module JsonSteps {
  import opened BStrings
  import opened JsonGrammar
  import opened JsonMachine
  import opened JsonLayout
  import opened JsonBuild
  import opened JsonState

  ghost function KindOfValue(c: Json): Kind {
    match c
    case Null => KNull
    case Bool(_) => KBoolean
    case Int(_) => KInteger
    case Double(_) => KDouble
    case Str(_) => KString
    case Box(obj, _, _) => KindOf(obj)
  }

  // The node that pass one made for the value at the hole is the first unused one.
  lemma NextUnused(nodes: seq<Node>, alloc: int, stack: seq<Json>, v: Json)
    requires Unused(nodes, Base(stack), alloc, v, true) && Hole(v, stack).Some?
    requires forall k :: 0 <= k < |stack| ==> stack[k].Box?
    ensures var c := Hole(v, stack).value;
      && 0 <= alloc == Base(stack) < |nodes| && alloc + Size(c) <= |nodes|
      && nodes[alloc] == Head(c, TopOf(stack), alloc, false)
      && SizesUpTo(v, alloc) && alloc < |Layout(v, NONE, 0, false)| && nodes[alloc] == Layout(v, NONE, 0, false)[alloc]
  {
    var c, all, p := Hole(v, stack).value, Layout(v, NONE, 0, false), Base(stack);
    Locate(v, stack);
    LayoutSize(c, TopOf(stack), p, false);
    assert nodes[p..][0] == all[p..][0];
    assert all[p..p + Size(c)][0] == Layout(c, TopOf(stack), p, false)[0];
  }

  /** new_value (src/json.c:98-175): a node for the coming value `c`. */
  lemma NewValue(nodes: seq<Node>, nodes': seq<Node>, alloc: int, stack: seq<Json>, c: Json, v: Json, full: bool)
    requires Built(nodes, stack, v, full) && Base(stack) <= |nodes| && Unused(nodes, Base(stack), alloc, v, full)
    requires Ready(stack)
    requires full ==>
      Hole(v, stack) == Some(c) && 0 <= alloc < |nodes| && 0 <= nodes[alloc].length && 0 <= nodes[alloc].keys
    requires full ==> SizeExact(nodes[alloc])
    requires nodes' == if full then nodes[alloc := Prepared(nodes[alloc])]
      else nodes + [Blank(TopOf(stack), KindOfValue(c))]
    ensures AtValue(nodes', Base(stack), alloc + 1, stack, 1, v, full)
    ensures nodes'[Base(stack)] == if full then Prepared(Head(c, TopOf(stack), Base(stack), false))
      else Blank(TopOf(stack), KindOfValue(c))
  {
    hide Built, Head, Prepared, Layout;
    BuiltFrame(nodes, nodes', stack, v, full);
    if full {
      NextUnused(nodes, alloc, stack, v);
      SizesNext(v, alloc);
      hide SizesUpTo, SizeExact;
      var p := Base(stack);
      assert nodes'[p + 1..] == nodes[p..][1..];
    }
  }

  lemma PreparedPartial(f: Json, parent: int, at: int)
    requires f.Box? && (f.obj ==> |f.keys| == |f.items|)
    ensures Extends(Box(f.obj, [], []), f)
    ensures Partial(Prepared(Head(f, parent, at, false)), Box(f.obj, [], []), f, parent, at)
  {
  }

  /** A container begins. */
  lemma BoxOpened(nodes: seq<Node>, top: int, alloc: int, stack: seq<Json>, obj: bool, f: Json, v: Json, full: bool)
    requires AtValue(nodes, top, alloc, stack, 1, v, full)
    requires full ==> Hole(v, stack) == Some(f) && f.Box? && f.obj == obj && (obj ==> |f.keys| == |f.items|)
    requires nodes[Base(stack)] == if full then Prepared(Head(f, TopOf(stack), Base(stack), false))
      else Blank(TopOf(stack), KindOf(obj))
    ensures AtContainer(nodes, top, alloc, stack + [Box(obj, [], [])], v, full)
    ensures obj && full ==> KeyBytes(nodes[top], [])
  {
    hide Built, Layout, Prepared;
    StackEnd(stack, Box(obj, [], []));
    if full {
      PreparedPartial(f, TopOf(stack), Base(stack));
      hide Partial;
      FullHead(nodes[top], stack, Box(obj, [], []), v);
      EmptyKey(nodes[top], Box(obj, [], []), f, TopOf(stack), Base(stack));
    }
    OpenBox(nodes, nodes, stack, obj, v, full);
  }

  lemma EmptyKey(n: Node, b: Json, f: Json, parent: int, at: int)
    requires Extends(b, f) && Partial(n, b, f, parent, at)
    ensures b.obj ==> KeyBytes(n, [])
  {
  }

  /** null, true, false and numbers are complete with their node. */
  lemma LeafDone(nodes: seq<Node>, top: int, alloc: int, stack: seq<Json>, c: Json, v: Json, full: bool)
    requires AtValue(nodes, top, alloc, stack, 1, v, full) && !c.Box?
    requires nodes[Base(stack)] == Head(c, TopOf(stack), Base(stack), full)
    ensures Size(c) == 1 && nodes[Base(stack)..Base(stack) + Size(c)] == Layout(c, TopOf(stack), Base(stack), full)
  {
  }

  /** The container is complete: the state before its closing bracket becomes that of a finished value. */
  lemma BoxClosed(nodes: seq<Node>, top: int, alloc: int, stack: seq<Json>, v: Json, full: bool)
    requires AtContainer(nodes, top, alloc, stack, v, full) && stack != [] && Last(stack).Box?
    requires (!Last(stack).obj ==> Last(stack).keys == [])
    requires full ==> Hole(v, Outer(stack)) == Some(Last(stack))
    ensures var b, outer := Last(stack), Outer(stack);
      && AtValue(nodes, top, alloc, outer, Size(b), v, full)
      && nodes[Base(outer)..Base(outer) + Size(b)] == Layout(b, TopOf(outer), Base(outer), full)
  {
    hide Built, Layout;
    CloseBox(nodes, stack, v, full);
  }

  /** The end of a round in which the value `c` was completed (src/json.c:698-729). */
  lemma ValueAdded(nodes: seq<Node>, nodes': seq<Node>, top: int, alloc: int, stack: seq<Json>, c: Json, v: Json,
          full: bool)
    requires stack != [] && AtValue(nodes, top, alloc, stack, Size(c), v, full)
    requires nodes[Base(stack)..Base(stack) + Size(c)] == Layout(c, TopOf(stack), Base(stack), full)
    requires full ==> Hole(v, stack) == Some(c)
    requires var p := Base(Outer(stack));
      p < |nodes| && (full ==> 0 <= nodes[p].length < |nodes[p].values|)
      && nodes' == nodes[p := WithChild(nodes[p], top, full)]
    ensures AtContainer(nodes', TopOf(stack), alloc, Outer(stack) + [WithItem(Last(stack), c)], v, full)
  {
    hide Layout, SizesUpTo, Built, Unused, Hole, Base, Size, SizeAll, TopOf;
    BuiltParts(nodes, stack, v, full);
    AddItem(nodes, nodes', stack, c, v, full);
    StackEnd(Outer(stack), WithItem(Last(stack), c));
    UnusedTail(nodes, nodes', Base(stack) + Size(c), alloc, v, full);
  }

  // Only nodes before `from` changed.
  lemma UnusedTail(nodes: seq<Node>, nodes': seq<Node>, from: int, alloc: int, v: Json, full: bool)
    requires Unused(nodes, from, alloc, v, full) && |nodes'| == |nodes|
    requires forall k :: 0 <= k && from <= k < |nodes| ==> nodes'[k] == nodes[k]
    ensures Unused(nodes', from, alloc, v, full)
  {
    hide Layout, SizesUpTo;
    if full {
      assert nodes'[from..] == nodes[from..];
    }
  }

  // In pass two the parent has room for the value.
  lemma RoomForChild(nodes: seq<Node>, stack: seq<Json>, v: Json, full: bool)
    requires stack != [] && Built(nodes, stack, v, full) && Last(stack).Box? && (full ==> Hole(v, stack).Some?)
    ensures var p := Base(Outer(stack));
      && TopOf(stack) == p < Base(stack) <= |nodes| && nodes[p].kind == KindOf(Last(stack).obj)
      && nodes[p].length == |Last(stack).items|
      && nodes[p].parent == TopOf(Outer(stack)) && (full ==> nodes[p].length < |nodes[p].values|)
  {
    if full { HoleStep(v, stack); }
  }

  lemma LeafParent(c: Json, parent: int, at: int, full: bool)
    ensures Layout(c, parent, at, full)[0] == Head(c, parent, at, full) && Head(c, parent, at, full).parent == parent
  {
  }

  lemma StringStarted(n: Node, s: seq<Byte>, parent: int, at: int, full: bool)
    requires n == if full then Prepared(Head(Str(s), parent, at, false)) else Blank(parent, KString)
    ensures StringNode(n, parent, [], |s|, full)
  {
  }

  /** Where string_add writes in pass two (src/json.c:184-185): the string, or the end of the key area. */
  function WithByte(n: Node, k: int, b: Byte, key: bool): Node
    requires 0 <= k && if key then 0 <= n.objectMem && n.objectMem + k < |n.mem| else k < |n.str|
  {
    if key then n.(mem := n.mem[n.objectMem + k := b]) else n.(str := n.str[k := b])
  }

  lemma StringByteAdded(n: Node, parent: int, acc: seq<Byte>, b: Byte, total: nat)
    requires StringNode(n, parent, acc, total, true) && |acc| < total
    ensures StringNode(WithByte(n, |acc|, b, false), parent, acc + [b], total, true)
  {
    var s, k := n.str[|acc| := b], |acc|;
    assert s[..k + 1] == s[..k] + [b] && s[..k] == n.str[..k];
  }

  /** The terminator is written and the length set (src/json.c:325-335). */
  lemma StringEnded(n: Node, parent: int, at: int, acc: seq<Byte>, full: bool)
    requires StringNode(n, parent, acc, |acc|, full)
    ensures Head(Str(acc), parent, at, full) == (if full then WithByte(n, |acc|, 0, false) else n).(length := |acc|)
  {
    if full {
      var s := n.str[|acc| := 0];
      assert s == s[..|acc|] + [0] && s[..|acc|] == n.str[..|acc|];
    }
  }

  /** The length of a string does not depend on how much of it was read. */
  lemma StringNext(t: Text, m: Mode, v: Json, full: bool)
    requires Terminated(t) && Proper(m) && m.i < |t| && m.InString? && Next(t, m).Go? && Next(t, m).m.InString?
    requires (full ==> Means(t, m, v))
    ensures var m' := Next(t, m).m;
      && m'.stack == m.stack && m'.key == m.key && (full ==> Means(t, m', v))
      && StringFrom(t, m.i, m.acc, m.esc) == StringFrom(t, m'.i, m'.acc, m'.esc)
      && (full ==> StringFrom(t, m'.i, m'.acc, m'.esc).Ok? && |m'.acc| <= Total(StringFrom(t, m'.i, m'.acc, m'.esc)))
  {
    NextMeaning(t, m);
  }

  lemma ReplaceHead(nodes: seq<Node>, nodes': seq<Node>, stack: seq<Json>, v: Json, full: bool)
    requires stack != [] && Built(nodes, stack, v, full) && |nodes'| == |nodes|
    requires forall k :: 0 <= k < |nodes| && k != Base(Outer(stack)) ==> nodes'[k] == nodes[k]
    requires HeadOk(nodes'[Base(Outer(stack))], stack, v, full)
    ensures Built(nodes', stack, v, full)
  {
    hide HeadOk, LayoutAll;
    BuiltFrame(nodes, nodes', Outer(stack), v, full);
    var p := Base(Outer(stack));
    assert nodes'[p + 1..Base(stack)] == nodes[p + 1..Base(stack)];
  }

  // A byte of a key goes behind the finished keys.
  lemma KeyByte(n: Node, acc: seq<Byte>, c: Byte, b: Json, f: Json, parent: int, at: int)
    requires Extends(b, f) && b.obj && Partial(n, b, f, parent, at) && KeyBytes(n, acc) && n.objectMem + |acc| < |n.mem|
    ensures KeyBytes(WithByte(n, |acc|, c, true), acc + [c]) && Partial(WithByte(n, |acc|, c, true), b, f, parent, at)
  {
    var n', x := WithByte(n, |acc|, c, true), n.objectMem;
    assert n'.mem[x..x + |acc| + 1] == n'.mem[x..x + |acc|] + [c] && n'.mem[x..x + |acc|] == n.mem[x..x + |acc|];
    assert n'.mem[..x] == n.mem[..x];
  }

  // The room of a key in the key area.
  lemma KeyRoom(nodes: seq<Node>, stack: seq<Json>, k: seq<Byte>, v: Json)
    requires AtKey(stack) && Built(nodes, stack, v, true) && BoxHole(v, stack, WithKey(Last(stack), k))
    ensures var n := nodes[Base(Outer(stack))];
      && TopOf(stack) == Base(Outer(stack)) < |nodes| && n.kind == KObject
      && 0 <= n.length < |n.names| && 0 <= n.objectMem && n.objectMem + |k| + 1 <= |n.mem|
  {
    BuiltParts(nodes, stack, v, true);
    hide Built, Hole;
    var p := Base(Outer(stack));
    HeadFull(nodes[p], stack, v);
    KeyFits(nodes[p], Last(stack), k, Hole(v, Outer(stack)).value, TopOf(Outer(stack)), p);
  }

  lemma KeyByteAdded(nodes: seq<Node>, nodes': seq<Node>, top: int, alloc: int, stack: seq<Json>, acc: seq<Byte>,
          c: Byte, v: Json)
    requires AtKey(stack) && AtContainer(nodes, top, alloc, stack, v, true) && top < |nodes|
    requires BoxHole(v, stack, Last(stack)) && KeyBytes(nodes[top], acc)
    requires nodes[top].objectMem + |acc| < |nodes[top].mem|
    requires nodes' == nodes[top := WithByte(nodes[top], |acc|, c, true)]
    ensures AtContainer(nodes', top, alloc, stack, v, true) && KeyBytes(nodes'[top], acc + [c])
  {
    BuiltParts(nodes, stack, v, true);
    hide Built, Hole, KeyBytes, HeadOk, LayoutAll, WithByte;
    KeyByteHead(nodes[top], nodes'[top], stack, acc, c, v);
    ReplaceHead(nodes, nodes', stack, v, true);
    assert nodes'[Base(stack)..] == nodes[Base(stack)..];
  }

  lemma KeyByteHead(n: Node, n': Node, stack: seq<Json>, acc: seq<Byte>, c: Byte, v: Json)
    requires AtKey(stack) && HeadOk(n, stack, v, true) && KeyBytes(n, acc) && n.objectMem + |acc| < |n.mem|
    requires n' == WithByte(n, |acc|, c, true)
    ensures HeadOk(n', stack, v, true) && KeyBytes(n', acc + [c])
  {
    hide Hole, KeyBytes, Partial, WithByte;
    HeadFull(n, stack, v);
    KeyByte(n, acc, c, Last(stack), Hole(v, Outer(stack)).value, TopOf(Outer(stack)), Base(Outer(stack)));
    assert Outer(stack) + [Last(stack)] == stack;
    FullHead(n', Outer(stack), Last(stack), v);
  }

  /** The key's place is noted and its size added up (src/json.c:340-353). */
  lemma KeyEnded(nodes: seq<Node>, nodes': seq<Node>, top: int, alloc: int, stack: seq<Json>, k: seq<Byte>, v: Json,
          full: bool)
    requires AtKey(stack) && AtContainer(nodes, top, alloc, stack, v, full) && 0 <= top < |nodes|
    requires full ==> BoxHole(v, stack, WithKey(Last(stack), k)) && KeyBytes(nodes[top], k)
    requires full ==> 0 <= nodes[top].length < |nodes[top].names| && nodes[top].objectMem + |k| + 1 <= |nodes[top].mem|
    requires nodes' ==
      nodes[top := WithName(if full then WithByte(nodes[top], |k|, 0, true) else nodes[top], |k|, full)]
    ensures AtContainer(nodes', top, alloc, Outer(stack) + [WithKey(Last(stack), k)], v, full)
  {
    BuiltParts(nodes, stack, v, full);
    hide Built, Hole;
    StackEnd(Outer(stack), WithKey(Last(stack), k));
    if full {
      KeyEndedFull(nodes[top], nodes'[top], stack, k, v);
      assert nodes'[Base(stack)..] == nodes[Base(stack)..];
    } else {
      KeyAppend(Last(stack).keys, k);
    }
    hide HeadOk;
    AddKey(nodes, nodes', stack, k, v, full);
  }

  lemma KeyEndedFull(n: Node, n': Node, stack: seq<Json>, k: seq<Byte>, v: Json)
    requires AtKey(stack) && HeadOk(n, stack, v, true) && BoxHole(v, stack, WithKey(Last(stack), k)) && KeyBytes(n, k)
    requires 0 <= n.length < |n.names| && n.objectMem + |k| + 1 <= |n.mem|
    requires n' == WithName(WithByte(n, |k|, 0, true), |k|, true)
    ensures HeadOk(n', Outer(stack) + [WithKey(Last(stack), k)], v, true)
  {
    hide Hole, Partial;
    HeadFull(n, stack, v);
    var mem, x := n.mem[n.objectMem + |k| := 0], n.objectMem;
    assert mem[..x + |k| + 1] == n.mem[..x] + k + [0] by {
      assert mem[..x + |k| + 1] == mem[..x] + mem[x..x + |k|] + [0];
      assert mem[..x] == n.mem[..x] && mem[x..x + |k|] == n.mem[x..x + |k|];
    }
    PartialKey(n, Last(stack), k, Hole(v, Outer(stack)).value, TopOf(Outer(stack)), Base(Outer(stack)), mem);
    FullHead(n', Outer(stack), WithKey(Last(stack), k), v);
  }

  lemma TopKind(nodes: seq<Node>, stack: seq<Json>, v: Json, full: bool)
    requires stack != [] && Built(nodes, stack, v, full)
    ensures var p := Base(Outer(stack));
      TopOf(stack) == p < Base(stack) <= |nodes| && nodes[p].kind == KindOf(Last(stack).obj)
  {
  }

  /** A number is made of number bytes. */
  lemma {:induction false} NumberBytes(t: Text, i: int, n: Number)
    requires 0 <= i && NumberFrom(t, i, n).Ok?
    ensures forall k :: i <= k < NumberFrom(t, i, n).next ==> NumByte(t[k])
    decreases |t| - i
  {
    match NumNext(n, t[i])
    case More(m) => NumberBytes(t, i + 1, m);
    case _ =>
  }

  /** In a text that is accepted no number byte follows a value, so that pass two, which skips number
      bytes, stops where pass one did. */
  lemma NumberStops(t: Text, stack: seq<Json>, v: Json, j: int)
    requires 0 <= j < |t| && Ready(stack) && Resume(t, stack, v, j).Ok?
    ensures !NumByte(t[j])
  {
  }

  lemma {:induction false} NumberLeaf(t: Text, i: int, n: Number)
    requires 0 <= i && NumberFrom(t, i, n).Ok?
    ensures NumberFrom(t, i, n).value.Int? || NumberFrom(t, i, n).value.Double?
    decreases |t| - i
  {
    match NumNext(n, t[i])
    case More(m) => NumberLeaf(t, i + 1, m);
    case _ =>
  }

  // The node of a number is complete after pass one.
  lemma NumberPrepared(nodes: seq<Node>, top: int, alloc: int, stack: seq<Json>, c: Json, v: Json)
    requires AtValue(nodes, top, alloc, stack, 1, v, true) && (c.Int? || c.Double?)
    requires nodes[Base(stack)] == Prepared(Head(c, TopOf(stack), Base(stack), false))
    ensures AtValue(nodes, top, alloc, stack, Size(c), v, true)
    ensures nodes[Base(stack)..Base(stack) + Size(c)] == Layout(c, TopOf(stack), Base(stack), true)
  {
    hide Built, Unused;
    LeafDone(nodes, top, alloc, stack, c, v, true);
  }

  /** What pass two relies on when it skips a number: it ends where pass one ended it. */
  lemma NumberSkipped(t: Text, m: Mode, v: Json)
    requires Terminated(t) && Proper(m) && m.InNumber? && Means(t, m, v)
    ensures var r := NumberFrom(t, m.i, m.n);
      && r.Ok? && m.i <= r.next < |t| && (forall k :: m.i <= k < r.next ==> NumByte(t[k])) && !NumByte(t[r.next])
      && (r.value.Int? || r.value.Double?) && Hole(v, m.stack) == Some(r.value)
      && Meaning(t, Finished(r.next, m.stack, r.value)) == Meaning(t, m)
  {
    ModeHole(t, m, v);
    var r := NumberFrom(t, m.i, m.n);
    NumberBytes(t, m.i, m.n);
    NumberLeaf(t, m.i, m.n);
    NumberStops(t, m.stack, r.value, r.next);
  }

  lemma KeyStarts(nodes: seq<Node>, top: int, alloc: int, stack: seq<Json>, v: Json, full: bool)
    requires AtKey(stack) && AtContainer(nodes, top, alloc, stack, v, full)
    ensures full ==> KeyBytes(nodes[Base(Outer(stack))], [])
  {
    if full { HeadFull(nodes[Base(Outer(stack))], stack, v); }
  }

  lemma LeafParentOf(nodes: seq<Node>, stack: seq<Json>, c: Json, top: int, full: bool)
    requires 0 <= top == Base(stack) && top + Size(c) <= |nodes|
    requires nodes[top..top + Size(c)] == Layout(c, TopOf(stack), top, full) && 0 < Size(c)
    ensures nodes[top].parent == TopOf(stack) && (TopOf(stack) == NONE <==> stack == [])
  {
    hide Base, Size;
    LeafParent(c, TopOf(stack), top, full);
    assert nodes[top..top + Size(c)][0] == nodes[top];
  }

  lemma WholeDocument(nodes: seq<Node>, top: int, alloc: int, c: Json, v: Json, full: bool)
    requires AtValue(nodes, top, alloc, [], Size(c), v, full) && (full ==> c == v)
    requires nodes[0..Size(c)] == Layout(c, NONE, 0, full)
    ensures nodes == Layout(c, NONE, 0, full) && top == 0 && (full ==> ObjectsFit(c))
  {
    SizesAll(v);
    hide Layout, Size, SizesUpTo, ObjectsFit;
    assert |nodes| == Size(c);
  }
}
