/**
 * Values as the parser allocates them (new_value, src/json.c:98-175): one node each, in the order in
 * which they begin; a parent pointer is the index of a node. Pass one leaves the counts, pass two
 * the strings, key areas and element arrays.
 */
module JsonLayout {
  import opened BStrings
  import opened JsonGrammar
  import opened JsonMachine

  datatype Kind = KObject | KArray | KInteger | KDouble | KString | KBoolean | KNull

  /** struct _json_value, src/json.h:71-119. `keys` is the counter that pass one keeps in the place of
      the member array; that array is split into `names`, offsets into `mem`, and `values`. */
  datatype Node = Node(parent: int, kind: Kind, length: int, keys: int, integer: int, dbl: real, boolean: bool,
                       str: seq<Byte>, values: seq<int>, names: seq<int>, mem: seq<Byte>, objectMem: int)

  const NONE := -1

  function Blank(parent: int, kind: Kind): Node {
    Node(parent, kind, 0, 0, 0, 0.0, false, [], [], [], [], 0)
  }

  ghost function Size(v: Json): nat {
    if v.Box? then 1 + SizeAll(v.items) else 1
  }

  ghost function SizeAll(items: seq<Json>): nat {
    if items == [] then 0 else SizeAll(items[..|items| - 1]) + Size(items[|items| - 1])
  }

  /** The keys, each followed by a NUL byte. */
  ghost function KeyArea(keys: seq<seq<Byte>>): seq<Byte> {
    if keys == [] then [] else KeyArea(keys[..|keys| - 1]) + keys[|keys| - 1] + [0]
  }

  ghost function KeyOffsets(keys: seq<seq<Byte>>): seq<int> {
    if keys == [] then [] else KeyOffsets(keys[..|keys| - 1]) + [|KeyArea(keys[..|keys| - 1])|]
  }

  /** The indices of children whose nodes begin at `at`. */
  ghost function ChildIndices(items: seq<Json>, at: int): seq<int> {
    if items == [] then [] else ChildIndices(items[..|items| - 1], at) + [at + SizeAll(items[..|items| - 1])]
  }

  /** The node of `v`, with its memory when `full`. */
  ghost function Head(v: Json, parent: int, at: int, full: bool): Node {
    match v
    case Null => Blank(parent, KNull)
    case Bool(b) => Blank(parent, KBoolean).(boolean := b)
    case Int(n) => Blank(parent, KInteger).(integer := n)
    case Double(x) => Blank(parent, KDouble).(dbl := x)
    case Str(s) => Blank(parent, KString).(length := |s|, str := if full then s + [0] else [])
    case Box(obj, keys, items) =>
      var n := Blank(parent, if obj then KObject else KArray).(length := |items|);
      if !full then n.(keys := if obj then |KeyArea(keys)| else 0)
      else if obj then n.(values := ChildIndices(items, at + 1), names := KeyOffsets(keys),
          mem := KeyArea(keys), objectMem := |KeyArea(keys)|)
      else n.(values := ChildIndices(items, at + 1))
  }

  /** The nodes of `v`, the first of them at index `at`. */
  ghost function Layout(v: Json, parent: int, at: int, full: bool): seq<Node> {
    [Head(v, parent, at, full)] + (if v.Box? then LayoutAll(v.items, at, at + 1, full) else [])
  }

  ghost function LayoutAll(items: seq<Json>, parent: int, at: int, full: bool): seq<Node> {
    if items == [] then [] else
      var rest := LayoutAll(items[..|items| - 1], parent, at, full);
      rest + Layout(items[|items| - 1], parent, at + |rest|, full)
  }

  lemma {:induction false} LayoutSize(v: Json, parent: int, at: int, full: bool)
    ensures |Layout(v, parent, at, full)| == Size(v) >= 1
    decreases v, 1
  {
    if v.Box? { LayoutAllSize(v.items, at, at + 1, full); }
  }

  lemma {:induction false} LayoutAllSize(items: seq<Json>, parent: int, at: int, full: bool)
    ensures |LayoutAll(items, parent, at, full)| == SizeAll(items)
    decreases items, 0
  {
    if items != [] {
      LayoutAllSize(items[..|items| - 1], parent, at, full);
      LayoutSize(items[|items| - 1], parent, at + SizeAll(items[..|items| - 1]), full);
    }
  }

  /** The nodes of the `n`th child lie after those of the children before it. */
  lemma {:induction false} LayoutChild(items: seq<Json>, n: nat, parent: int, at: int, full: bool)
    requires n < |items|
    ensures SizeAll(items[..n]) + Size(items[n]) <= SizeAll(items) == |LayoutAll(items, parent, at, full)|
    ensures LayoutAll(items, parent, at, full)[SizeAll(items[..n])..SizeAll(items[..n]) + Size(items[n])]
      == Layout(items[n], parent, at + SizeAll(items[..n]), full)
    decreases |items|
  {
    hide Layout, Size;
    var rest, last := items[..|items| - 1], items[|items| - 1];
    LayoutAllSize(items, parent, at, full);
    LayoutAllSize(rest, parent, at, full);
    LayoutSize(last, parent, at + SizeAll(rest), full);
    var x, y := SizeAll(items[..n]), SizeAll(items[..n]) + Size(items[n]);
    if n < |rest| {
      LayoutChild(rest, n, parent, at, full);
      assert rest[..n] == items[..n];
      SliceLeft(LayoutAll(rest, parent, at, full), Layout(last, parent, at + SizeAll(rest), full), x, y);
    } else {
      SliceRight(LayoutAll(rest, parent, at, full), Layout(last, parent, at + SizeAll(rest), full));
    }
  }

  lemma SliceLeft<T>(a: seq<T>, b: seq<T>, x: int, y: int)
    requires 0 <= x <= y <= |a|
    ensures (a + b)[x..y] == a[x..y]
  {
  }

  lemma SliceRight<T>(a: seq<T>, b: seq<T>)
    ensures (a + b)[|a|..|a| + |b|] == b
  {
  }

  lemma SliceSlice<T>(a: seq<T>, p: int, q: int, x: int, y: int)
    requires 0 <= p <= q <= |a| && 0 <= x <= y <= q - p
    ensures a[p..q][x..y] == a[p + x..p + y]
  {
    var s, l, r := a[p..q], a[p..q][x..y], a[p + x..p + y];
    forall k | 0 <= k < y - x
      ensures l[k] == r[k]
    {
      assert l[k] == s[x + k] && s[x + k] == a[p + (x + k)];
    }
  }

  /** The nodes of a child, where the children's nodes stand at `p`. */
  lemma ChildSlice(nodes: seq<Node>, items: seq<Json>, k: nat, parent: int, p: int, full: bool)
    requires k < |items| && 0 <= p && p + SizeAll(items) <= |nodes|
    requires nodes[p..p + SizeAll(items)] == LayoutAll(items, parent, p, full)
    ensures var x := p + SizeAll(items[..k]);
      x + Size(items[k]) <= p + SizeAll(items) && nodes[x..x + Size(items[k])] == Layout(items[k], parent, x, full)
  {
    hide Layout, LayoutAll, Size, SizeAll;
    LayoutChild(items, k, parent, p, full);
    var x := SizeAll(items[..k]);
    SliceSlice(nodes, p, p + SizeAll(items), x, x + Size(items[k]));
  }

  lemma BoxLayout(v: Json, parent: int, at: int, full: bool)
    requires v.Box?
    ensures var s, inner := Layout(v, parent, at, full), LayoutAll(v.items, at, at + 1, full);
      |s| == Size(v) == 1 + SizeAll(v.items) && s[0] == Head(v, parent, at, full)
      && s[1..] == inner && |inner| == SizeAll(v.items)
  {
    LayoutSize(v, parent, at, full);
    LayoutAllSize(v.items, at, at + 1, full);
  }

  lemma FirstNode(v: Json, parent: int, at: int, full: bool)
    ensures var s := Layout(v, parent, at, full);
      |s| == Size(v) >= 1 && s[0] == Head(v, parent, at, full)
  {
    LayoutSize(v, parent, at, full);
  }

  datatype Option<T> = Some(value: T) | None

  ghost predicate Extends(b: Json, f: Json) {
    b.Box? && f.Box? && b.obj == f.obj && b.keys <= f.keys && b.items <= f.items
  }

  /** What `v` has where the next value of the innermost open container belongs. */
  ghost function Hole(v: Json, stack: seq<Json>): Option<Json>
    decreases |stack|
  {
    if stack == [] then Some(v) else
      var f, b := Hole(v, Outer(stack)), Last(stack);
      if f.Some? && Extends(b, f.value) && |b.items| < |f.value.items| then Some(f.value.items[|b.items|]) else None
  }

  lemma HoleView(v: Json, stack: seq<Json>)
    requires Hole(v, stack).Some? && stack != []
    ensures Hole(v, Outer(stack)).Some?
    ensures var f, b := Hole(v, Outer(stack)).value, Last(stack);
      b.Box? && f.Box? && b.items <= f.items && |b.items| < |f.items| && Hole(v, stack).value == f.items[|b.items|]
  {
  }

  /** A value that the parser completes is found in the document at the place of completion. */
  lemma {:induction false} HoleIs(t: Text, stack: seq<Json>, v: Json, j: int)
    requires 0 <= j && Ready(stack) && Resume(t, stack, v, j).Ok?
    ensures Hole(Resume(t, stack, v, j).value, stack) == Some(v)
    decreases |stack|
  {
    if stack != [] {
      var b := WithItem(Last(stack), v);
      var r := if b.obj then Members(t, j, b.keys, b.items, true) else Elements(t, j, b.items, true);
      HoleIs(t, Outer(stack), r.value, r.next);
      assert b.items[|b.items| - 1] == v;
    }
  }

  /** The number of nodes of the open containers. */
  ghost function Base(stack: seq<Json>): nat
    decreases |stack|
  {
    if stack == [] then 0 else Base(Outer(stack)) + Size(Last(stack))
  }

  /** The index of the innermost open container. */
  ghost function TopOf(stack: seq<Json>): int {
    if stack == [] then NONE else Base(Outer(stack))
  }

  lemma NoHole(v: Json)
    ensures Hole(v, []) == Some(v)
  {
  }

  /** The nodes of the value at the hole, among those of the whole document. */
  lemma {:induction false} Locate(v: Json, stack: seq<Json>)
    requires Hole(v, stack).Some? && forall k :: 0 <= k < |stack| ==> stack[k].Box?
    ensures var c := Hole(v, stack).value;
      && Base(stack) + Size(c) <= Size(v) == |Layout(v, NONE, 0, false)|
      && Layout(v, NONE, 0, false)[Base(stack)..Base(stack) + Size(c)] == Layout(c, TopOf(stack), Base(stack), false)
    decreases |stack|
  {
    hide Layout, LayoutAll, Size, SizeAll, Hole, Head;
    var all := Layout(v, NONE, 0, false);
    LayoutSize(v, NONE, 0, false);
    if stack == [] {
      assert all[0..|all|] == all && Hole(v, stack).value == v by { NoHole(v); }
    } else {
      HoleView(v, stack);
      var b, f, p := Last(stack), Hole(v, Outer(stack)).value, Base(Outer(stack));
      var n := |b.items|;
      Locate(v, Outer(stack));
      BoxLayout(f, TopOf(Outer(stack)), p, false);
      BoxLayout(b, TopOf(Outer(stack)), p, false);
      LayoutChild(f.items, n, p, p + 1, false);
      assert f.items[..n] == b.items;
      var x, y := SizeAll(b.items), SizeAll(b.items) + Size(f.items[n]);
      SliceSlice(all, p, p + Size(f), 1, Size(f));
      SliceSlice(all, p + 1, p + Size(f), x, y);
    }
  }

  // sizeof (*value->u.object.values): two pointers.
  const MEMBER_SIZE := 16

  /** The size that new_value takes for an object's array: the product is cut down to an int (src/json.c:127). */
  function ValuesSize(length: int): int { Int32(MEMBER_SIZE * length) }

  predicate SizeExact(n: Node) { n.kind == KObject ==> ValuesSize(n.length) == MEMBER_SIZE * n.length }

  /** No object has 2^27 members or more. */
  ghost predicate ObjectsFit(v: Json)
    decreases v, 1
  {
    v.Box? ==> (v.obj ==> |v.items| < 0x800_0000) && AllFit(v.items)
  }

  ghost predicate AllFit(items: seq<Json>)
    decreases items, 0
  {
    items == [] || (AllFit(items[..|items| - 1]) && ObjectsFit(items[|items| - 1]))
  }

  /** From 2^27 members on the size is not what is needed: it is negative there, and zero for 2^28. */
  lemma ValuesSizeExact(length: nat)
    ensures ValuesSize(length) == MEMBER_SIZE * length <==> length < 0x800_0000
    ensures ValuesSize(0x800_0000) < 0 && ValuesSize(0x1000_0000) == 0
  {
  }

  ghost predicate SizesExact(nodes: seq<Node>) { forall k :: 0 <= k < |nodes| ==> SizeExact(nodes[k]) }

  lemma SizesAppend(a: seq<Node>, b: seq<Node>)
    ensures SizesExact(a + b) <==> SizesExact(a) && SizesExact(b)
  {
    if SizesExact(a + b) {
      assert forall k :: 0 <= k < |a| ==> a[k] == (a + b)[k];
      assert forall k :: 0 <= k < |b| ==> b[k] == (a + b)[|a| + k];
    }
  }

  lemma {:induction false} LayoutFits(v: Json, parent: int, at: int)
    ensures SizesExact(Layout(v, parent, at, false)) <==> ObjectsFit(v)
    decreases v, 1
  {
    var h := Head(v, parent, at, false);
    SizesAppend([h], if v.Box? then LayoutAll(v.items, at, at + 1, false) else []);
    ValuesSizeExact(if v.Box? then |v.items| else 0);
    assert SizesExact([h]) <==> SizeExact([h][0]);
    if v.Box? { LayoutAllFit(v.items, at, at + 1); }
  }

  lemma {:induction false} LayoutAllFit(items: seq<Json>, parent: int, at: int)
    ensures SizesExact(LayoutAll(items, parent, at, false)) <==> AllFit(items)
    decreases items, 0
  {
    if items != [] {
      var rest, last := items[..|items| - 1], items[|items| - 1];
      var l := LayoutAll(rest, parent, at, false);
      LayoutAllFit(rest, parent, at);
      LayoutFits(last, parent, at + |l|);
      SizesAppend(l, Layout(last, parent, at + |l|, false));
    }
  }

  /** The array sizes of the first `n` nodes are what is needed. */
  ghost predicate SizesUpTo(v: Json, n: int) {
    0 <= n <= |Layout(v, NONE, 0, false)| && SizesExact(Layout(v, NONE, 0, false)[..n])
  }

  lemma SizesNext(v: Json, n: int)
    requires SizesUpTo(v, n) && n < |Layout(v, NONE, 0, false)|
    ensures SizesUpTo(v, n + 1) <==> SizeExact(Layout(v, NONE, 0, false)[n])
    ensures !SizeExact(Layout(v, NONE, 0, false)[n]) ==> !ObjectsFit(v)
  {
    var l := Layout(v, NONE, 0, false);
    assert l[..n + 1] == l[..n] + [l[n]];
    SizesAppend(l[..n], [l[n]]);
    assert SizesExact([l[n]]) <==> SizeExact([l[n]][0]);
    LayoutFits(v, NONE, 0);
    assert SizesExact(l) ==> SizeExact(l[n]);
  }

  lemma SizesAll(v: Json)
    ensures SizesUpTo(v, Size(v)) <==> ObjectsFit(v)
    ensures SizesUpTo(v, 0)
  {
    LayoutSize(v, NONE, 0, false);
    LayoutFits(v, NONE, 0);
    var l := Layout(v, NONE, 0, false);
    assert l[..|l|] == l;
  }
}
