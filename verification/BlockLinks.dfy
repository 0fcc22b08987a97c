/** The links between allocated blocks (src/mem/hlist.h:86-133), and how each list operation changes them. */
module BlockLinks {
  import BStrings
  import opened BlockForest

  /** What a back link points to: the head of a block's list of children, or an item's own `next`. */
  datatype Slot = Head(of: Addr) | NextOf(of: Addr)

  /** hblock_t: its item among its brothers, the head of its children's list, and its memory. */
  datatype Block = Block(next: Addr, prev: Slot, children: Addr, data: seq<BStrings.Byte>)

  type Heap = map<Addr, Block>

  function First(s: seq<Addr>): Addr { if s == [] then NIL else s[0] }

  function After(s: seq<Addr>, i: int): Addr
    requires 0 <= i < |s|
  {
    if i + 1 < |s| then s[i + 1] else NIL
  }

  function SlotAt(a: Addr, s: seq<Addr>, i: int): Slot
    requires 0 <= i < |s|
  {
    if i == 0 then Head(a) else NextOf(s[i - 1])
  }

  ghost predicate ListOf(h: Heap, a: Addr, s: seq<Addr>) {
    && a in h && h[a].children == First(s)
    && forall i :: 0 <= i < |s| ==> s[i] in h && h[s[i]].next == After(s, i) && h[s[i]].prev == SlotAt(a, s, i)
  }

  /** A block under no other: its back link leads to itself, and so may its forward link after a
      reallocation (hlist_relink, src/mem/hlist.h:122-127). */
  ghost predicate RootOk(h: Heap, x: Addr) {
    x in h && h[x].prev == NextOf(x) && (h[x].next == NIL || h[x].next == x)
  }

  /** The links are those of the hierarchy. */
  ghost predicate Linked(h: Heap, f: Forest)
    requires KeysOk(f)
  {
    && h.Keys == f.kids.Keys
    && (forall a :: a in f.kids ==> ListOf(h, a, f.kids[a]))
    && forall x :: x in f.kids && f.parent[x] == NIL ==> RootOk(h, x)
  }

  // ---------------------------------------------------------------- the operations on the links

  ghost function SetPrev(h: Heap, i: Addr, s: Slot): Heap { if i in h then h[i := h[i].(prev := s)] else h }

  ghost function Poke(h: Heap, s: Slot, v: Addr): Heap
    requires s.of in h
  {
    match s
    case Head(a) => h[a := h[a].(children := v)]
    case NextOf(a) => h[a := h[a].(next := v)]
  }

  /** hlist_del. */
  ghost function Deleted(h: Heap, b: Addr): Heap
    requires b in h && h[b].prev.of in h
  {
    var n := h[b].next;
    var h1 := SetPrev(h, n, h[b].prev);
    var h2 := Poke(h1, h1[b].prev, n);
    h2[b := h2[b].(prev := NextOf(b), next := NIL)]
  }

  /** hlist_add. */
  ghost function Added(h: Heap, p: Addr, b: Addr): Heap
    requires p in h && b in h
  {
    var n := h[p].children;
    var h1 := h[b := h[b].(next := n)];
    var h2 := SetPrev(h1, n, NextOf(b));
    var h3 := Poke(h2, Head(p), b);
    h3[b := h3[b].(prev := Head(p))]
  }

  /** The allocator moves a block. */
  ghost function Copied(h: Heap, b: Addr, to: Addr, data: seq<BStrings.Byte>): Heap
    requires b in h
  {
    (h - {b})[to := h[b].(data := data)]
  }

  /** hlist_relink and hlist_relink_head. */
  ghost function Relinked(h: Heap, b: Addr): Heap
    requires b in h && h[b].prev.of in h
  {
    var h1 := Poke(h, h[b].prev, b);
    var h2 := SetPrev(h1, h1[b].next, NextOf(b));
    SetPrev(h2, h2[b].children, Head(b))
  }

  lemma DeletedFields(h: Heap, b: Addr, x: Addr)
    requires b in h && h[b].prev.of in h && x in h && h[b].next != b && h[b].prev != NextOf(b)
    ensures var h' := Deleted(h, b);
      && h'.Keys == h.Keys && h'[x].data == h[x].data
      && h'[x].next == (if x == b then NIL else if h[b].prev == NextOf(x) then h[b].next else h[x].next)
      && h'[x].prev == (if x == b then NextOf(b) else if x == h[b].next then h[b].prev else h[x].prev)
      && h'[x].children == if h[b].prev == Head(x) then h[b].next else h[x].children
  {
  }

  lemma DeletedRoot(h: Heap, b: Addr)
    requires RootOk(h, b)
    ensures NIL !in h ==> Deleted(h, b) == h[b := h[b].(prev := NextOf(b), next := NIL)]
  {
  }

  lemma AddedFields(h: Heap, p: Addr, b: Addr, x: Addr)
    requires p in h && b in h && x in h && h[p].children != b
    ensures var h' := Added(h, p, b);
      && h'.Keys == h.Keys && h'[x].data == h[x].data
      && h'[x].next == (if x == b then h[p].children else h[x].next)
      && h'[x].prev == (if x == b then Head(p) else if x == h[p].children then NextOf(b) else h[x].prev)
      && h'[x].children == if x == p then b else h[x].children
  {
  }

  lemma RelinkedFields(h: Heap, b: Addr, x: Addr)
    requires b in h && h[b].prev.of in h && x in h && h[b].prev != NextOf(b) && h[b].prev != Head(b)
    requires h[b].children in h ==> h[b].children != h[b].next
    ensures var h' := Relinked(h, b);
      && h'.Keys == h.Keys && h'[x].data == h[x].data
      && h'[x].next == (if h[b].prev == NextOf(x) then b else h[x].next)
      && h'[x].prev == (if x == h[b].children then Head(b) else if x == h[b].next then NextOf(b) else h[x].prev)
      && h'[x].children == if h[b].prev == Head(x) then b else h[x].children
  {
  }
}
