/** The hierarchical allocator (src/mem/halloc.c): releasing a block releases all blocks below it. */
module Halloc {
  import BStrings
  import opened BlockForest
  import opened BlockLinks
  import opened BlockMoves
  import opened BlockChanges

  /** The contents that realloc leaves, where `junk` is what lies in new memory. */
  function Resized(data: seq<BStrings.Byte>, len: nat, junk: seq<BStrings.Byte>): (r: seq<BStrings.Byte>)
    requires |junk| == len
    ensures |r| == len && forall k :: 0 <= k < |data| && k < len ==> r[k] == data[k]
  {
    if len <= |data| then data[..len] else data + junk[|data|..]
  }

  /** The block is gone with all that lay below it; the contents of the others are as before. */
  ghost predicate Released(h: Heap, f: Forest, h': Heap, f': Forest, b: Addr) {
    && WellFormed(f) && b in f.kids && f' == Without(Detached(f, b), Subtree(f, b))
    && h'.Keys == h.Keys - Subtree(f, b) && forall x :: x in h' ==> h'[x].data == h[x].data
  }

  /** The hierarchy once `b` is at `to`; a block under no other does not move. */
  ghost function Replaced(f: Forest, b: Addr, to: Addr): Forest
    requires WellFormed(f) && b in f.kids && b in f.parent
  {
    if f.parent[b] == NIL then f else Renamed(f, b, to)
  }

  /** The block is at `to`, with its first bytes as before, in the place that it had; the contents of the
      others are as before. */
  ghost predicate Reallocated(h: Heap, f: Forest, h': Heap, f': Forest, b: Addr, to: Addr, len: nat,
          junk: seq<BStrings.Byte>) {
    && WellFormed(f) && b in f.kids && b in f.parent && b in h && |junk| == len
    && f' == Replaced(f, b, to)
    && h'.Keys == h.Keys - {b} + {to} && h'[to].data == Resized(h[b].data, len, junk)
    && forall x :: x in h && x != b ==> x in h' && h'[x].data == h[x].data
  }

  /** A release frees the block and each block below it once, and no other. */
  lemma ReleasedOnce(f: Forest, b: Addr)
    requires WellFormed(f) && b in f.kids
    ensures NoRepeat(Order(f, b) + [b]) && Members(Order(f, b) + [b]) == Subtree(f, b)
  {
    OrderNoRepeat(f, b, |f.kids[b]|);
    hide WellFormed, Order;
    OrderIs(f, b);
    if b in Order(f, b) { Below(f, b, b); }
    JoinNoRepeat(Order(f, b), [], b);
    assert Order(f, b) + [] + [b] == Order(f, b) + [b];
  }

  // The back link shows whether a block lies under another.
  lemma OwnSlot(h: Heap, f: Forest, b: Addr)
    requires WellFormed(f) && Linked(h, f) && b in f.kids
    ensures b in h && b in f.parent && (h[b].prev == NextOf(b) <==> f.parent[b] == NIL) && h[b].prev != Head(b)
    ensures h[b].prev.of in h && (h[b].next == NIL || h[b].next in h)
  {
    ListView(f, b);
    ListLinks(h, f, b);
    if f.parent[b] != NIL {
      var i := LinkView(h, f, b);
    }
  }

  lemma AllLists(h: Heap, f: Forest, p: Addr)
    requires WellFormed(f) && Linked(h, f) && p in f.kids
    ensures ListsBelow(h, f, p)
  {
    hide Order;
    forall a | a in Subtree(f, p)
      ensures a in f.kids && a in h && ListOf(h, a, f.kids[a])
    {
      if a != p { Below(f, p, a); }
      ListLinks(h, f, a);
    }
  }

  // Relinking a block that lies under no other and has not moved makes its forward link lead to itself.
  lemma RootRelinked(h: Heap, f: Forest, b: Addr, data: seq<BStrings.Byte>)
    requires WellFormed(f) && Linked(h, f) && b in f.kids && f.parent[b] == NIL
    ensures b in h && Copied(h, b, b, data)[b].prev.of in Copied(h, b, b, data)
    ensures var h' := Relinked(Copied(h, b, b, data), b);
      && Linked(h', f) && h'.Keys == h.Keys && h'[b].data == data
      && forall x :: x in h && x != b ==> h'[x].data == h[x].data
  {
    ListView(f, b);
    ListLinks(h, f, b);
    var s, h' := f.kids[b], Relinked(Copied(h, b, b, data), b);
    assert h' == h[b := h[b].(data := data, next := b)] by {
      if s != [] { assert h[s[0]].prev == Head(b); }
    }
    hide WellFormed, Linked, ListOf, Relinked, Copied;
    forall a | a in f.kids
      ensures ListOf(h', a, f.kids[a]) && (f.parent[a] == NIL ==> RootOk(h', a))
    {
      ListView(f, a);
      ListLinks(h, f, a);
      ListSame(h, h', a, f.kids[a]);
    }
    LinkedFrom(h', f);
  }

  lemma KidRelinked(h: Heap, f: Forest, b: Addr, to: Addr, data: seq<BStrings.Byte>)
    requires WellFormed(f) && Linked(h, f) && b in f.kids && f.parent[b] != NIL
    requires (to == b || to !in f.kids) && to != NIL
    ensures b in h && to in Copied(h, b, to, data)
    ensures var c := Copied(h, b, to, data);
      && c[to].prev.of in c && c[to].prev != Head(to) && NIL !in c && (c[to].next == NIL || c[to].next in c)
      && (c[to].children == NIL || c[to].children in c)
      && WellFormed(Renamed(f, b, to)) && Linked(Relinked(c, to), Renamed(f, b, to))
      && Relinked(c, to).Keys == h.Keys - {b} + {to} && Relinked(c, to)[to].data == data
      && forall x :: x in h && x != b ==> x in Relinked(c, to) && Relinked(c, to)[x].data == h[x].data
  {
    RenamedLinked(h, f, b, to, data);
    IsMovable(h, f, b, to);
    ListView(f, b);
    ListLinks(h, f, b);
    RenamedView(f, b, to);
    var i := LinkView(h, f, b);
  }

  // What relinking a reallocated block needs and gives.
  lemma RelinkFacts(h: Heap, f: Forest, b: Addr, to: Addr, data: seq<BStrings.Byte>)
    requires WellFormed(f) && Linked(h, f) && b in f.kids && (to == b || to !in f.kids) && to != NIL
    requires b in f.parent && (f.parent[b] == NIL ==> to == b)
    ensures b in h && to in Copied(h, b, to, data)
    ensures var c := Copied(h, b, to, data);
      && c[to].prev.of in c && c[to].prev != Head(to) && NIL !in c && (c[to].next == NIL || c[to].next in c)
      && (c[to].children == NIL || c[to].children in c)
      && WellFormed(Replaced(f, b, to)) && Linked(Relinked(c, to), Replaced(f, b, to))
      && Relinked(c, to).Keys == h.Keys - {b} + {to} && Relinked(c, to)[to].data == data
      && forall x :: x in h && x != b ==> x in Relinked(c, to) && Relinked(c, to)[x].data == h[x].data
  {
    if f.parent[b] == NIL {
      RootRelinked(h, f, b, data);
      ListView(f, b);
      ListLinks(h, f, b);
      FirstKid(h, b, f.kids[b]);
    } else {
      KidRelinked(h, f, b, to, data);
    }
  }

  // What a release needs and leaves.
  lemma ReleaseFacts(h: Heap, f: Forest, b: Addr)
    requires WellFormed(f) && Linked(h, f) && b in f.kids
    ensures ListsBelow(h, f, b) && WellFormed(Detached(f, b))
    ensures var left, gone := h - Members(Order(f, b)), Subtree(f, b);
      && b in left && left[b].prev.of in left && NIL !in left && (left[b].next == NIL || left[b].next in left)
      && (Deleted(left, b) - {b}).Keys == h.Keys - gone
      && WellFormed(Without(Detached(f, b), gone)) && Linked(Deleted(left, b) - {b}, Without(Detached(f, b), gone))
      && forall x :: x in Deleted(left, b) - {b} ==> x in h && (Deleted(left, b) - {b})[x].data == h[x].data
  {
    hide WellFormed, Linked, Deleted, Detached, Order, ListsBelow, Without, ListOf, Members;
    var below := Members(Order(f, b));
    ListView(f, b);
    TouchedOutside(h, f, b);
    InMembers(Order(f, b));
    AllLists(h, f, b);
    DetachedLinked(h, f, b);
    DetachedSubtree(f, b);
    WithoutLinked(Deleted(h, b), Detached(f, b), b);
    DeletedMinus(h, b, below);
    ListLinks(h, f, b);
    MinusBoth(Deleted(h, b), below, b);
  }

  lemma InMembers(s: seq<Addr>)
    ensures forall x :: x in Members(s) <==> x in s
  {
  }

  lemma MinusBoth(h: Heap, a: set<Addr>, b: Addr)
    ensures h - a - {b} == h - (a + {b}) && forall x :: x in h - a - {b} ==> x in h && (h - a - {b})[x] == h[x]
  {
  }

  lemma DeletedMinus(h: Heap, b: Addr, s: set<Addr>)
    requires b in h && h[b].prev.of in h && b !in s && h[b].prev.of !in s && h[b].next !in s
    ensures Deleted(h - s, b) == Deleted(h, b) - s
  {
  }

  // What hlist_del touches does not lie below the block.
  lemma TouchedOutside(h: Heap, f: Forest, b: Addr)
    requires WellFormed(f) && Linked(h, f) && b in f.kids
    ensures b in h && h[b].prev.of in h && b !in Order(f, b) && h[b].prev.of !in Order(f, b)
    ensures h[b].next !in Order(f, b)
    ensures h[b].next == NIL || h[b].next in h
    ensures f.parent[b] !in Subtree(f, b)
  {
    hide WellFormed, Linked, Order, ListOf, NoRepeat;
    ListView(f, b);
    ListLinks(h, f, b);
    if b in Order(f, b) { Below(f, b, b); }
    if NIL in Order(f, b) { Below(f, b, NIL); }
    if f.parent[b] != NIL {
      var p := f.parent[b];
      ParentRank(f, b);
      if p in Order(f, b) { Below(f, b, p); }
      var i := LinkView(h, f, b);
      ListView(f, p);
      if i > 0 && f.kids[p][i - 1] in Order(f, b) { Under(f, b, f.kids[p][i - 1]); }
      if i + 1 < |f.kids[p]| && f.kids[p][i + 1] in Order(f, b) { Under(f, b, f.kids[p][i + 1]); }
    }
  }

  // A brother does not lie below.
  lemma Under(f: Forest, b: Addr, c: Addr)
    requires WellFormed(f) && b in f.kids && c in Order(f, b)
    ensures c in f.kids && (f.parent[b] != NIL ==> f.parent[c] != f.parent[b])
  {
    Member(f, b);
    hide WellFormed, Order;
    Below(f, b, c);
    if f.parent[b] != NIL && f.parent[c] == f.parent[b] {
      ParentRank(f, b);
      if f.parent[c] != b { Below(f, b, f.parent[c]); }
    }
  }

  /** Detaching a block leaves what lies below it. */
  lemma DetachedSubtree(f: Forest, b: Addr)
    requires WellFormed(f) && b in f.kids && f.parent[b] !in Subtree(f, b)
    ensures WellFormed(Detached(f, b)) && b in Detached(f, b).kids && Order(Detached(f, b), b) == Order(f, b)
    ensures Detached(f, b).parent[b] == NIL
  {
    DetachedOk(f, b);
    ParentView(f, b);
    var g := Detached(f, b);
    forall y | y in Subtree(f, b)
      ensures y in g.kids && y in f.kids && g.kids[y] == f.kids[y]
    {
      if y != b { Below(f, b, y); }
    }
    OrderAgrees(f, g, b, |f.kids[b]|);
  }

  class Hierarchy {
    var heap: Heap
    var nullPrev: Slot
    var freed: seq<Addr>
    ghost var forest: Forest

    ghost predicate Valid()
      reads this
    {
      WellFormed(forest) && Linked(heap, forest)
    }

    constructor ()
      ensures Valid() && heap == map[] && freed == []
    {
      heap, nullPrev, freed := map[], Head(NIL), [];
      forest := Forest(map[], map[], map[]);
    }

    // ---------------------------------------------------------------- src/mem/hlist.h

    // i->prev = s, where `i` may be the shared tail.
    method SetBack(i: Addr, s: Slot)
      requires (i == NIL || i in heap) && NIL !in heap
      modifies `heap, `nullPrev
      ensures heap == SetPrev(old(heap), i, s)
    {
      if i == NIL {
        nullPrev := s;
      } else {
        heap := heap[i := heap[i].(prev := s)];
      }
    }

    // *s = v.
    method SetSlot(s: Slot, v: Addr)
      requires s.of in heap
      modifies `heap
      ensures heap == Poke(old(heap), s, v)
    {
      match s
      case Head(a) => heap := heap[a := heap[a].(children := v)];
      case NextOf(a) => heap := heap[a := heap[a].(next := v)];
    }

    /** hlist_add, src/mem/hlist.h:99-108. */
    method HlistAdd(p: Addr, b: Addr)
      requires p in heap && b in heap && NIL !in heap && (heap[p].children == NIL || heap[p].children in heap)
      modifies `heap, `nullPrev
      ensures heap == Added(old(heap), p, b)
    {
      var next := heap[p].children;
      heap := heap[b := heap[b].(next := next)];
      SetBack(next, NextOf(b));
      SetSlot(Head(p), b);
      heap := heap[b := heap[b].(prev := Head(p))];
    }

    /** hlist_del, src/mem/hlist.h:110-120. */
    method HlistDel(b: Addr)
      requires b in heap && heap[b].prev.of in heap && NIL !in heap && (heap[b].next == NIL || heap[b].next in heap)
      modifies `heap, `nullPrev
      ensures heap == Deleted(old(heap), b)
    {
      var next := heap[b].next;
      SetBack(next, heap[b].prev);
      SetSlot(heap[b].prev, next);
      heap := heap[b := heap[b].(prev := NextOf(b), next := NIL)];
    }

    /** hlist_relink and hlist_relink_head, src/mem/hlist.h:122-133. */
    method HlistRelink(b: Addr)
      requires b in heap && heap[b].prev.of in heap && NIL !in heap
      requires heap[b].next == NIL || heap[b].next in heap
      requires heap[b].children == NIL || heap[b].children in heap
      requires heap[b].prev != Head(b)
      modifies `heap, `nullPrev
      ensures heap == Relinked(old(heap), b)
    {
      SetSlot(heap[b].prev, b);
      SetBack(heap[b].next, NextOf(b));
      SetBack(heap[b].children, Head(b));
    }

    // ---------------------------------------------------------------- src/mem/halloc.c

    /** _relate, src/mem/halloc.c:214-233: whether `b` lies below `p`. */
    method Relate(b: Addr, p: Addr) returns (r: bool)
      requires Valid() && (p == NIL || p in heap)
      ensures r <==> b != NIL && p != NIL && p in forest.kids && b in Order(forest, p)
      decreases if p in forest.rank then forest.rank[p] + 1 else 0
    {
      if b == NIL || p == NIL {
        return false;
      }
      Keys();
      KidAt(heap, forest, p, -1);
      ghost var s, n := forest.kids[p], 0;
      hide WellFormed, Linked, Order, OrderUpTo, Subtree;
      var i := heap[p].children;
      NoneUnder(forest, p);
      while i != NIL
        invariant 0 <= n <= |s| && i == (if n < |s| then s[n] else NIL) && b !in OrderUpTo(forest, p, n)
        decreases |s| - n
      {
        KidAt(heap, forest, p, n);
        KidOrder(forest, p, n, b);
        if i == b {
          AllUnder(forest, p, n + 1, b);
          return true;
        }
        var below := Relate(b, i);
        if below {
          AllUnder(forest, p, n + 1, b);
          return true;
        }
        i := heap[i].next;
        n := n + 1;
      }
      OrderIs(forest, p);
      return false;
    }

    /** hattach, src/mem/halloc.c:111-139. */
    method Attach(block: Addr, parent: Addr)
      requires Valid() && (if block == NIL then parent == NIL else block in heap)
      requires parent != NIL ==> parent in heap && parent !in Subtree(forest, block)
      modifies `heap, `nullPrev, `forest
      ensures Valid() && heap.Keys == old(heap).Keys && forall x :: x in heap ==> heap[x].data == old(heap)[x].data
      ensures block == NIL ==> heap == old(heap) && forest == old(forest)
      ensures block != NIL && parent == NIL ==> forest == Detached(old(forest), block)
      ensures block != NIL && parent != NIL ==> DetachedAttached(old(forest), forest, block, parent)
    {
      hide WellFormed, Linked, Attached, Detached, Order;
      if block == NIL {
        return;
      }
      Keys();
      Detach(block);
      Keys();
      if parent == NIL {
        return;
      }
      AttachFree(block, parent);
    }

    /** _free_children, src/mem/halloc.c:235-253: all blocks below `p` are released, each once, and a block
        after those below it; nothing else changes. */
    method FreeChildren(p: Addr)
      requires WellFormed(forest) && p in forest.kids && ListsBelow(heap, forest, p) && NIL !in heap
      modifies `heap, `freed
      ensures heap == old(heap) - Members(Order(forest, p)) && freed == old(freed) + Order(forest, p)
      decreases forest.rank[p], 1
    {
      ghost var n, s, h0, done := 0, forest.kids[p], heap, freed;
      hide WellFormed, Order, OrderUpTo, Subtree, ListsBelow, Members, ListOf;
      BelowAt(heap, forest, p);
      NoneUnder(forest, p);
      var i := heap[p].children;
      KidLeft(h0, forest, p, n);
      var tmp := if i == NIL then NIL else heap[i].next;
      while i != NIL
        invariant 0 <= n <= |s| && i == (if n < |s| then s[n] else NIL) && (n < |s| ==> tmp == After(s, n))
        invariant heap == h0 - Members(OrderUpTo(forest, p, n)) && freed == done + OrderUpTo(forest, p, n)
        decreases |s| - n
      {
        FreeKid(p, i, n, h0, done);
        n := n + 1;
        i := tmp;
        KidLeft(h0, forest, p, n);
        tmp := if i == NIL then NIL else heap[i].next;
      }
      OrderIs(forest, p);
    }

    // One child, after all below it.
    method FreeKid(p: Addr, k: Addr, ghost n: nat, ghost h0: Heap, ghost done: seq<Addr>)
      requires WellFormed(forest) && p in forest.kids && ListsBelow(h0, forest, p) && NIL !in h0
      requires n < |forest.kids[p]| && k == forest.kids[p][n]
      requires heap == h0 - Members(OrderUpTo(forest, p, n)) && freed == done + OrderUpTo(forest, p, n)
      modifies `heap, `freed
      ensures heap == h0 - Members(OrderUpTo(forest, p, n + 1)) && freed == done + OrderUpTo(forest, p, n + 1)
      decreases forest.rank[p], 0
    {
      hide WellFormed, Order, OrderUpTo, Subtree, ListsBelow, Members, ListOf;
      KidLeft(h0, forest, p, n);
      FreeChildren(k);
      heap := heap - {k};
      freed := freed + [k];
      OrderNext(forest, p, n);
      MinusMinus(h0, Members(OrderUpTo(forest, p, n)), Members(Order(forest, k)), k);
      assert done + OrderUpTo(forest, p, n) + Order(forest, k) + [k] == done + OrderUpTo(forest, p, n + 1);
    }

    // src/mem/halloc.c:130-138: the sanity checks hold, and the block goes first under its parent.
    method AttachFree(block: Addr, parent: Addr)
      requires Valid() && block in heap && block in forest.kids && forest.parent[block] == NIL
      requires parent in heap && parent !in Subtree(forest, block)
      modifies `heap, `nullPrev, `forest
      ensures Valid() && heap.Keys == old(heap).Keys && forall x :: x in heap ==> heap[x].data == old(heap)[x].data
      ensures parent in old(forest).kids && forest == Attached(old(forest), parent, block)
    {
      hide WellFormed, Linked, Added, Attached, Order, SetPrev, Poke;
      Keys();
      ListView(forest, block);
      var related := Relate(parent, block);
      assert block != parent && !related;
      AttachedLinked(heap, forest, parent, block);
      ListView(forest, parent);
      KidAt(heap, forest, parent, -1);
      AddedFields(heap, parent, block, block);
      HlistAdd(parent, block);
      forest := Attached(forest, parent, block);
    }

    method Detach(block: Addr)
      requires Valid() && block in heap
      modifies `heap, `nullPrev, `forest
      ensures Valid() && heap.Keys == old(heap).Keys && forall x :: x in heap ==> heap[x].data == old(heap)[x].data
      ensures forest == Detached(old(forest), block) && block in forest.kids && forest.parent[block] == NIL
      ensures Subtree(forest, block) == Subtree(old(forest), block)
    {
      hide WellFormed, Linked, Deleted, Order;
      Keys();
      ListView(forest, block);
      TouchedOutside(heap, forest, block);
      DetachedSubtree(forest, block);
      DetachedLinked(heap, forest, block);
      HlistDel(block);
      forest := Detached(forest, block);
    }

    /** halloc, src/mem/halloc.c:58-109. `to` is what the allocator returns, NIL if it fails, and `junk` what
        lies in new memory. Relinking a block that lies under no other, once it has moved, writes to its
        old address: `wild` says that the original gets there, and the model stops. */
    method Halloc(ptr: Addr, len: nat, to: Addr, junk: seq<BStrings.Byte>) returns (r: Addr, wild: bool)
      requires Valid() && (ptr == NIL || ptr in heap) && |junk| == len
      requires to == NIL || to !in heap || (to == ptr && ptr != NIL)
      modifies this
      ensures Valid()
      ensures wild <==> ptr != NIL && len > 0 && to != NIL && to != ptr && old(forest).parent[ptr] == NIL
      ensures r == if len == 0 || wild then NIL else to
      ensures (len > 0 && (to == NIL || wild)) || (len == 0 && ptr == NIL) ==>
        heap == old(heap) && forest == old(forest) && freed == old(freed)
      ensures ptr == NIL && len > 0 && to != NIL ==>
        heap ==
          old(heap)[to := Block(NIL, NextOf(to), NIL, junk)] && forest == Grown(old(forest), to) && freed == old(freed)
      ensures ptr != NIL && len > 0 && to != NIL && !wild ==>
        Reallocated(old(heap), old(forest), heap, forest, ptr, to, len, junk) && freed == old(freed)
      ensures ptr != NIL && len == 0 ==> Released(old(heap), old(forest), heap, forest, ptr)
      ensures ptr != NIL && len == 0 ==>
        ptr in old(forest).kids && freed == old(freed) + Order(old(forest), ptr) + [ptr]
    {
      wild := false;
      Keys();
      hide WellFormed, Linked, Grown, Reallocated, Released, Order;
      if ptr == NIL {
        if len == 0 || to == NIL {
          return NIL, false;
        }
        GrownLinked(heap, forest, to, junk);
        heap := heap[to := Block(NIL, NextOf(to), NIL, junk)];
        forest := Grown(forest, to);
        return to, false;
      }
      if len > 0 {
        if to == NIL {
          return NIL, false;
        }
        wild := Reallocate(ptr, len, to, junk);
        return if wild then NIL else to, wild;
      }
      Release(ptr);
      return NIL, false;
    }

    // src/mem/halloc.c:90-101.
    method Reallocate(ptr: Addr, len: nat, to: Addr, junk: seq<BStrings.Byte>) returns (wild: bool)
      requires Valid() && ptr in heap && |junk| == len && to != NIL && (to == ptr || to !in heap)
      modifies `heap, `nullPrev, `forest
      ensures Valid() && ptr in old(forest).parent && (wild <==> to != ptr && old(forest).parent[ptr] == NIL)
      ensures wild ==> heap == old(heap) && forest == old(forest)
      ensures !wild ==> Reallocated(old(heap), old(forest), heap, forest, ptr, to, len, junk)
    {
      hide WellFormed, Linked, Relinked, ListOf, Renamed, Resized;
      Keys();
      OwnSlot(heap, forest, ptr);
      if heap[ptr].prev == NextOf(ptr) && to != ptr {
        return true;
      }
      wild := false;
      var data := Resized(heap[ptr].data, len, junk);
      RelinkFacts(heap, forest, ptr, to, data);
      heap := (heap - {ptr})[to := heap[ptr].(data := data)];
      HlistRelink(to);
      forest := Replaced(forest, ptr, to);
    }

    // src/mem/halloc.c:103-108.
    method Release(ptr: Addr)
      requires Valid() && ptr in heap
      modifies `heap, `nullPrev, `freed, `forest
      ensures Valid() && Released(old(heap), old(forest), heap, forest, ptr)
      ensures ptr in old(forest).kids && freed == old(freed) + Order(old(forest), ptr) + [ptr]
    {
      hide WellFormed, Linked, Deleted, Detached, Order, ListsBelow, Without, Members;
      ghost var h, f := heap, forest;
      Keys();
      ReleaseFacts(heap, forest, ptr);
      FreeChildren(ptr);
      HlistDel(ptr);
      heap := heap - {ptr};
      freed := freed + [ptr];
      forest := Without(Detached(f, ptr), Subtree(f, ptr));
    }

    lemma Keys()
      requires Valid()
      ensures heap.Keys == forest.kids.Keys && NIL !in heap
    {
    }
  }

  /** The block was taken from where it was and put first among the children of `parent`. */
  ghost predicate DetachedAttached(f: Forest, g: Forest, block: Addr, parent: Addr) {
    && WellFormed(f) && block in f.kids && WellFormed(Detached(f, block)) && parent in Detached(f, block).kids
    && block in Detached(f, block).kids && g == Attached(Detached(f, block), parent, block)
  }

  // The list of children, from its head (n == -1) or from one of its items on.
  lemma KidAt(h: Heap, f: Forest, p: Addr, n: int)
    requires WellFormed(f) && Linked(h, f) && p in f.kids && -1 <= n < |f.kids[p]|
    ensures p in h && h.Keys == f.kids.Keys && NIL !in h && f.rank.Keys == f.kids.Keys && p !in f.kids[p]
    ensures n == -1 ==> h[p].children == if f.kids[p] == [] then NIL else f.kids[p][0]
    ensures n >= 0 ==>
      f.kids[p][n] in h && f.rank[f.kids[p][n]] < f.rank[p] && h[f.kids[p][n]].next == After(f.kids[p], n)
    ensures f.kids[p] != [] ==> f.kids[p][0] in h
  {
    ListView(f, p);
    ListLinks(h, f, p);
  }

  /** The lists of a block and of all below it. */
  ghost predicate ListsBelow(h: Heap, f: Forest, p: Addr)
    requires WellFormed(f) && p in f.kids
  {
    forall a :: a in Subtree(f, p) ==> a in f.kids && a in h && ListOf(h, a, f.kids[a])
  }

  lemma MinusMinus(h: Heap, a: set<Addr>, b: set<Addr>, k: Addr)
    ensures h - a - b - {k} == h - (a + b + {k})
  {
  }

  // The list of children as long as all is there.
  lemma BelowAt(h: Heap, f: Forest, p: Addr)
    requires WellFormed(f) && p in f.kids && ListsBelow(h, f, p)
    ensures p in h && p in f.rank && h[p].children == if f.kids[p] == [] then NIL else f.kids[p][0]
    ensures ListOf(h, p, f.kids[p])
  {
    assert p in Subtree(f, p);
  }

  // The next child, and all below it, are still there when the ones before it were released.
  lemma KidLeft(h: Heap, f: Forest, p: Addr, n: nat)
    requires WellFormed(f) && p in f.kids && ListsBelow(h, f, p) && n <= |f.kids[p]| && NIL !in h
    ensures n < |f.kids[p]| ==>
      var k, left := f.kids[p][n], h - Members(OrderUpTo(f, p, n));
      && k in f.kids && k in f.rank && p in f.rank && f.rank[k] < f.rank[p] && ListsBelow(left, f, k)
      && k in left && k != NIL && left[k].next == After(f.kids[p], n)
  {
    if n < |f.kids[p]| {
      BelowKid(h, f, p, n);
      BelowAt(h, f, p);
    }
  }

  // A child's subtree is still there when the ones before it were released.
  lemma BelowKid(h: Heap, f: Forest, p: Addr, n: nat)
    requires WellFormed(f) && p in f.kids && ListsBelow(h, f, p) && n < |f.kids[p]|
    ensures var k := f.kids[p][n];
      && k in f.kids && k in f.rank && p in f.rank && f.rank[k] < f.rank[p] && k !in Members(OrderUpTo(f, p, n))
      && ListsBelow(h - Members(OrderUpTo(f, p, n)), f, k)
  {
    var k, gone := f.kids[p][n], Members(OrderUpTo(f, p, n));
    KidIs(f, p, n);
    hide WellFormed, Order, OrderUpTo, ListOf;
    forall a | a in Subtree(f, k)
      ensures a !in gone && a in f.kids && a in h && ListOf(h - gone, a, f.kids[a])
    {
      BelowStays(h, f, p, n, a);
    }
  }

  lemma BelowStays(h: Heap, f: Forest, p: Addr, n: nat, a: Addr)
    requires WellFormed(f) && p in f.kids && ListsBelow(h, f, p) && n < |f.kids[p]|
    requires f.kids[p][n] in f.kids && a in Subtree(f, f.kids[p][n])
    ensures var gone := Members(OrderUpTo(f, p, n));
      a !in gone && a in f.kids && a in h && ListOf(h - gone, a, f.kids[a])
  {
    var k := f.kids[p][n];
    hide WellFormed, Order, OrderUpTo, Subtree, ListOf;
    Deeper(f, p, n, a);
    NotBefore(f, p, n, a);
    forall i | 0 <= i < |f.kids[a]|
      ensures f.kids[a][i] !in OrderUpTo(f, p, n)
    {
      Closed(f, k, a, i);
      NotBefore(f, p, n, f.kids[a][i]);
    }
    ListRest(h, a, f.kids[a], Members(OrderUpTo(f, p, n)));
  }

  lemma ListRest(h: Heap, a: Addr, s: seq<Addr>, gone: set<Addr>)
    requires ListOf(h, a, s) && a !in gone && forall i :: 0 <= i < |s| ==> s[i] !in gone
    ensures ListOf(h - gone, a, s)
  {
  }

  lemma NotBefore(f: Forest, p: Addr, n: nat, y: Addr)
    requires WellFormed(f) && p in f.kids && n < |f.kids[p]| && f.kids[p][n] in f.kids && y in Subtree(f, f.kids[p][n])
    ensures y !in OrderUpTo(f, p, n)
  {
    OrderMembers(f, p, n, y);
    hide WellFormed, Order;
    if UnderKid(f, p, n, y) {
      var i :| 0 <= i < n && f.kids[p][i] in f.kids && y in Subtree(f, f.kids[p][i]);
      Brothers(f, p, i, n);
    }
  }

  lemma OrderNext(f: Forest, p: Addr, n: nat)
    requires WellFormed(f) && p in f.kids && n < |f.kids[p]|
    ensures var k := f.kids[p][n];
      && k in f.kids && OrderUpTo(f, p, n + 1) == OrderUpTo(f, p, n) + Order(f, k) + [k]
      && Members(OrderUpTo(f, p, n + 1)) == Members(OrderUpTo(f, p, n)) + Members(Order(f, k)) + {k}
  {
    KidIs(f, p, n);
  }

  lemma KidOrder(f: Forest, p: Addr, n: nat, b: Addr)
    requires WellFormed(f) && p in f.kids && n < |f.kids[p]|
    ensures f.kids[p][n] in f.kids
    ensures b in OrderUpTo(f, p, n + 1) <==>
      b in OrderUpTo(f, p, n) || b == f.kids[p][n] || b in Order(f, f.kids[p][n])
  {
    hide OrderUpTo, Order;
    OrderStep(f, p, n + 1, b);
  }

  lemma NoneUnder(f: Forest, x: Addr)
    requires WellFormed(f) && x in f.kids
    ensures OrderUpTo(f, x, 0) == []
  {
  }

  lemma OrderIs(f: Forest, x: Addr)
    requires WellFormed(f) && x in f.kids
    ensures Order(f, x) == OrderUpTo(f, x, |f.kids[x]|)
  {
  }

  // What lies below one of the first children lies below the block.
  lemma AllUnder(f: Forest, x: Addr, n: nat, y: Addr)
    requires WellFormed(f) && x in f.kids && n <= |f.kids[x]| && y in OrderUpTo(f, x, n)
    ensures y in Order(f, x)
  {
    OrderMembers(f, x, n, y);
    var i :| 0 <= i < n && f.kids[x][i] in f.kids && y in Subtree(f, f.kids[x][i]);
    Deeper(f, x, i, y);
  }
}
