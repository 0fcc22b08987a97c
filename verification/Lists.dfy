/** The linked list of src/adt/list.c: insertion, deletion, transfer of stretches, merging and sorting. */
module Lists {
  import opened ListRing
  import opened ListOrder

  lemma PutInSeq(s: seq<LNode>, i: int, node: LNode)
    requires 0 <= i <= |s|
    ensures PutIn(s, i, node, s[..i] + [node] + s[i..])
  {
  }

  lemma CutOutSeq(s: seq<LNode>, i: int, j: int)
    requires 0 <= i < j <= |s|
    ensures CutOut(s, i, j, s[..i] + s[j..])
  {
  }

  // The links at position `i`.
  lemma LinkAt(nil: LNode, s: seq<LNode>, i: int)
    requires Ring(nil, s) && 0 <= i <= |s|
    ensures Node(nil, s, i).prev == Pred(nil, s, i) && Pred(nil, s, i).next == Node(nil, s, i)
    ensures Node(nil, s, i) in All(nil, s) && Pred(nil, s, i) in All(nil, s) && (Node(nil, s, i) == nil <==> i == |s|)
  {
    hide NoRepeat;
    var nx, pv := NextOf(All(nil, s)), PrevOf(All(nil, s));
    assert pv[Node(nil, s, i)] == Pred(nil, s, i);
    assert nx[Pred(nil, s, i)] == Node(nil, s, i) by {
      if i > 0 { assert nx[s[i - 1]] == Succ(nil, s, i - 1); }
    }
  }

  class List {
    const nilnode: LNode
    const maxcount: nat
    var nodecount: nat
    ghost var nodes: seq<LNode>

    /** What list_verify (src/adt/list.c:752-773) checks, and more: `nodes` are linked in this order, both ways. */
    ghost predicate Valid()
      reads `nodes, `nodecount, Repr()
    {
      Ring(nilnode, nodes) && nodecount == |nodes| <= maxcount
    }

    ghost function Repr(): set<LNode>
      reads `nodes
    {
      All(nilnode, nodes)
    }

    /** list_init, src/adt/list.c:58-66. */
    constructor (maxcount: nat)
      requires maxcount > 0
      ensures Valid() && nodes == [] && fresh(nilnode) && this.maxcount == maxcount
    {
      nilnode := new LNode(0);
      this.maxcount := maxcount;
      nodecount := 0;
      nodes := [];
      new;
      nilnode.next := nilnode;
      nilnode.prev := nilnode;
    }

    /** list_ins_before, src/adt/list.c:166-183. */
    method InsBefore(node: LNode, succ: LNode, ghost i: nat)
      requires Valid() && i <= |nodes| && succ == Node(nilnode, nodes, i)
      requires node !in Repr() && node.next == null && node.prev == null && nodecount < maxcount
      modifies `nodes, `nodecount, Repr()`next, Repr()`prev, node`next, node`prev
      ensures Valid() && nodes == old(nodes[..i] + [node] + nodes[i..])
    {
      hide Forward, Backward, Distinct, PutIn, Members;
      PutInSeq(nodes, i, node);
      LinkAt(nilnode, nodes, i);
      var pred := succ.prev;
      ghost var r := nodes[..i] + [node] + nodes[i..];
      Link(nilnode, node, pred, succ, nodes, i, r);
      nodecount := nodecount + 1;
      nodes := r;
    }

    /** list_ins_after, src/adt/list.c:143-160. */
    method InsAfter(node: LNode, pred: LNode, ghost i: nat)
      requires Valid() && i <= |nodes| && pred == Pred(nilnode, nodes, i)
      requires node !in Repr() && node.next == null && node.prev == null && nodecount < maxcount
      modifies `nodes, `nodecount, Repr()`next, Repr()`prev, node`next, node`prev
      ensures Valid() && nodes == old(nodes[..i] + [node] + nodes[i..])
    {
      hide Forward, Backward, Distinct, PutIn, Members;
      PutInSeq(nodes, i, node);
      LinkAt(nilnode, nodes, i);
      var succ := pred.next;
      ghost var r := nodes[..i] + [node] + nodes[i..];
      Link(nilnode, node, pred, succ, nodes, i, r);
      nodecount := nodecount + 1;
      nodes := r;
    }

    /** list_delete, src/adt/list.c:189-203. */
    method Delete(del: LNode, ghost i: nat)
      requires Valid() && i < |nodes| && del == nodes[i]
      modifies `nodes, `nodecount, Repr()`next, Repr()`prev
      ensures Valid() && nodes == old(nodes[..i] + nodes[i + 1..]) && del.next == null && del.prev == null
      ensures del !in Repr()
    {
      hide Forward, Backward, Distinct, CutOut;
      CutOutSeq(nodes, i, i + 1);
      ghost var r := nodes[..i] + nodes[i + 1..];
      LinkAt(nilnode, nodes, i);
      LinkAt(nilnode, nodes, i + 1);
      DistinctCutOut(nilnode, nodes, i, i + 1, r);
      assert del in nodes[i..i + 1];
      Unlink(nilnode, del, del, nodes, i, i + 1, r);
      nodecount := nodecount - 1;
      del.next, del.prev := null, null;
      nodes := r;
    }

    // The stretch from `first` to `last` leaves the list, uncounted.
    method Cut(first: LNode, last: LNode, ghost i: nat, ghost j: nat) returns (ghost moving: seq<LNode>)
      requires Ring(nilnode, nodes) && i < j <= |nodes| && first == nodes[i] && last == nodes[j - 1]
      modifies `nodes, Repr()`next, Repr()`prev
      ensures nodes == old(nodes[..i] + nodes[j..]) && moving == old(nodes[i..j])
      ensures first in Members(moving) && last in Members(moving)
      ensures Ring(nilnode, nodes) && Strand(moving) && Repr() == old(Repr()) - Members(moving)
      ensures Members(moving) <= old(Repr())
    {
      hide Forward, Backward, Distinct, CutOut, Members, Strand;
      ghost var r := nodes[..i] + nodes[j..];
      moving := nodes[i..j];
      Ends(moving);
      CutOutSeq(nodes, i, j);
      LinkAt(nilnode, nodes, i);
      LinkAt(nilnode, nodes, j);
      DistinctCutOut(nilnode, nodes, i, j, r);
      Unlink(nilnode, first, last, nodes, i, j, r);
      nodes := r;
    }

    // A stretch goes to the end of the list, uncounted.
    method Append(first: LNode, last: LNode, ghost moving: seq<LNode>)
      requires Ring(nilnode, nodes) && moving != [] && first == moving[0] && last == moving[|moving| - 1]
      requires Strand(moving) && Members(moving) !! Repr()
      modifies `nodes, Repr()`next, Repr()`prev, last`next, first`prev
      ensures Ring(nilnode, nodes) && nodes == old(nodes) + moving && Repr() == old(Repr()) + Members(moving)
    {
      hide Forward, Backward, Distinct, Members, ForwardInner, BackwardInner;
      DistinctJoin(nilnode, nodes, moving);
      Graft(nilnode, first, last, nodes, moving);
      nodes := nodes + moving;
    }

    // The stretch from `first` to `last` of `source` goes to the end of this list and is counted
    // (src/adt/list.c:405-429 and 455-478). The lists may be the same.
    method Move(source: List, first: LNode, last: LNode, ghost i: nat, ghost j: nat)
      requires Valid() && source.Valid() && (source == this || Repr() !! source.Repr())
      requires i < j <= |source.nodes| && first == source.nodes[i] && last == source.nodes[j - 1]
      requires (source != this ==> nodecount + (j - i) <= maxcount)
      modifies `nodes, `nodecount, source`nodes, source`nodecount, Repr()`next, Repr()`prev, source.Repr()`next
      modifies source.Repr()`prev
      ensures Valid() && source.Valid() && (source != this ==> Repr() !! source.Repr())
      ensures var rest := old(source.nodes[..i] + source.nodes[j..]);
        && nodes == (if source == this then rest else old(nodes)) + old(source.nodes)[i..j]
        && (source != this ==> source.nodes == rest)
    {
      hide Ring, Strand, Members, All;
      Exists(nilnode, nodes);
      Exists(source.nilnode, source.nodes);
      ghost var moving := source.Cut(first, last, i, j);
      Append(first, last, moving);
      var moved := Count(first, last, |nodes| - |moving|);
      source.nodecount := source.nodecount - moved;
      nodecount := nodecount + moved;
    }

    // src/adt/list.c:415-419 and 465-468.
    method Count(first: LNode, last: LNode, ghost at: nat) returns (moved: nat)
      requires Ring(nilnode, nodes) && at < |nodes| && first == nodes[at] && last == nodes[|nodes| - 1]
      ensures moved == |nodes| - at
    {
      hide Forward, Backward;
      moved := 1;
      var node := first;
      while node != last
        invariant 1 <= moved <= |nodes| - at && node == nodes[at + moved - 1]
        decreases |nodes| - moved
      {
        LinkAt(nilnode, nodes, at + moved);
        node := node.next;
        moved := moved + 1;
      }
    }

    /** list_extract, src/adt/list.c:393-434. */
    method Extract(source: List, first: LNode?, last: LNode?, ghost i: nat, ghost j: nat)
      requires Valid() && source.Valid() && (source == this || Repr() !! source.Repr())
      requires first != null && last != null ==>
        i <= j < |source.nodes| && first == source.nodes[i] && last == source.nodes[j]
      requires first != null && last != null && source != this ==> nodecount + (j + 1 - i) <= maxcount
      modifies `nodes, `nodecount, source`nodes, source`nodecount, Repr()`next, Repr()`prev, source.Repr()`next
      modifies source.Repr()`prev
      ensures Valid() && source.Valid() && (source != this ==> Repr() !! source.Repr())
      ensures first == null || last == null ==> nodes == old(nodes) && source.nodes == old(source.nodes)
      ensures first != null && last != null ==> var rest := old(source.nodes[..i] + source.nodes[j + 1..]);
        && nodes == (if source == this then rest else old(nodes)) + old(source.nodes)[i..j + 1]
        && (source != this ==> source.nodes == rest)
    {
      if first == null || last == null {
        return;
      }
      Move(source, first, last, i, j + 1);
    }

    /** list_transfer, src/adt/list.c:445-483: the nodes from `first` on. */
    method Transfer(source: List, first: LNode?, ghost i: nat)
      requires Valid() && source.Valid() && (source == this || Repr() !! source.Repr())
      requires first != null ==> i < |source.nodes| && first == source.nodes[i]
      requires first != null && source != this ==> nodecount + (|source.nodes| - i) <= maxcount
      modifies `nodes, `nodecount, source`nodes, source`nodecount, Repr()`next, Repr()`prev, source.Repr()`next
      modifies source.Repr()`prev
      ensures Valid() && source.Valid() && (source != this ==> Repr() !! source.Repr())
      ensures first == null || source == this ==> nodes == old(nodes) && source.nodes == old(source.nodes)
      ensures first != null && source != this ==>
        nodes == old(nodes) + old(source.nodes)[i..] && source.nodes == old(source.nodes)[..i]
    {
      hide Forward, Backward, Distinct, Members;
      if first == null {
        return;
      }
      LinkAt(source.nilnode, source.nodes, |source.nodes|);
      var last := source.nilnode.prev;
      Move(source, first, last, i, |source.nodes|);
    }

    // The first node of `sour` goes before `dn`, and the next one follows (src/adt/list.c:507-510).
    method Take(sour: List, sn: LNode, dn: LNode, ghost k: nat) returns (tn: LNode)
      requires Valid() && sour.Valid() && sour != this && Repr() !! sour.Repr() && nodecount < maxcount
      requires k <= |nodes| && dn == Node(nilnode, nodes, k) && sour.nodes != [] && sn == sour.nodes[0]
      modifies `nodes, `nodecount, sour`nodes, sour`nodecount, Repr()`next, Repr()`prev, sour.Repr()`next
      modifies sour.Repr()`prev
      ensures Valid() && sour.Valid() && Repr() !! sour.Repr() && Repr() + sour.Repr() == old(Repr() + sour.Repr())
      ensures nodes == old(nodes)[..k] + [sn] + old(nodes)[k..] && sour.nodes == old(sour.nodes)[1..]
      ensures dn == Node(nilnode, nodes, k + 1) && tn == Node(sour.nilnode, sour.nodes, 0)
    {
      hide Ring;
      LinkAt(sour.nilnode, sour.nodes, 1);
      tn := sn.next;
      Distinctness(sour.nilnode, sour.nodes);
      FirstGone(sour.nodes);
      PutMembers(nodes, k, sn);
      sour.Delete(sn, 0);
      InsBefore(sn, dn, k);
    }

    // Both lists in the middle of a merge.
    ghost predicate Merging(sour: List, dn: LNode, sn: LNode, k: nat)
      reads `nodes, `nodecount, Repr(), sour`nodes, sour`nodecount, sour.Repr()
    {
      && Valid() && sour.Valid() && sour != this && Repr() !! sour.Repr() && nodecount + sour.nodecount <= maxcount
      && k <= |nodes| && dn == Node(nilnode, nodes, k) && sn == Node(sour.nilnode, sour.nodes, 0)
    }

    // The first `k` nodes, and what merging the others with `sour` would give.
    ghost function Whole(sour: List, compare: Compare, k: nat): seq<LNode>
      reads `nodes, sour`nodes
    {
      if k <= |nodes| then nodes[..k] + Merged(nodes[k..], sour.nodes, compare) else []
    }

    // One round, src/adt/list.c:506-513.
    method MergeOne(sour: List, dn: LNode, sn: LNode, compare: Compare, ghost k: nat) returns (dn': LNode, sn': LNode)
      requires Merging(sour, dn, sn, k) && dn != nilnode && sn != sour.nilnode
      modifies `nodes, `nodecount, sour`nodes, sour`nodecount, Repr()`next, Repr()`prev, sour.Repr()`next
      modifies sour.Repr()`prev
      ensures Merging(sour, dn', sn', k + 1) && Repr() + sour.Repr() == old(Repr() + sour.Repr())
      ensures Whole(sour, compare, k + 1) == old(Whole(sour, compare, k))
      ensures |nodes| + |sour.nodes| == old(|nodes| + |sour.nodes|)
    {
      hide Ring, Merged;
      LinkAt(nilnode, nodes, k);
      LinkAt(sour.nilnode, sour.nodes, 0);
      MergeRound(nodes, sour.nodes, k, compare);
      dn', sn' := dn, sn;
      if compare(dn.data, sn.data) >= 0 {
        sn' := Take(sour, sn, dn, k);
      } else {
        LinkAt(nilnode, nodes, k + 1);
        dn' := dn.next;
      }
    }

    /** list_merge, src/adt/list.c:485-521. */
    method Merge(sour: List, compare: Compare)
      requires Valid() && sour.Valid()
      requires (sour == this || (Repr() !! sour.Repr() && nodecount + sour.nodecount <= maxcount))
      modifies `nodes, `nodecount, sour`nodes, sour`nodecount, Repr()`next, Repr()`prev, sour.Repr()`next
      modifies sour.Repr()`prev
      ensures Valid() && sour.Valid()
      ensures sour == this ==> nodes == old(nodes)
      ensures sour != this ==>
        nodes == Merged(old(nodes), old(sour.nodes), compare) && sour.nodes == [] && Repr() !! sour.Repr()
    {
      if sour == this {
        return;
      }
      hide Ring, Merged, Members;
      ghost var k, all := 0, Merged(nodes, sour.nodes, compare);
      LinkAt(nilnode, nodes, 0);
      LinkAt(sour.nilnode, sour.nodes, 0);
      var dn: LNode, sn: LNode := nilnode.next, sour.nilnode.next;
      assert Whole(sour, compare, 0) == all by { assert nodes[0..] == nodes; }
      while dn != nilnode && sn != sour.nilnode
        invariant Merging(sour, dn, sn, k) && Repr() + sour.Repr() == old(Repr() + sour.Repr())
        invariant Whole(sour, compare, k) == all
        decreases |nodes| - k + |sour.nodes|
      {
        dn, sn := MergeOne(sour, dn, sn, compare, k);
        k := k + 1;
      }
      LinkAt(nilnode, nodes, k);
      LinkAt(sour.nilnode, sour.nodes, 0);
      MergeEnd(nodes, sour.nodes, k, compare);
      if dn != nilnode {
        return;
      }
      if sn != sour.nilnode {
        Transfer(sour, sn, 0);
      }
    }

    // src/adt/list.c:535-536.
    method Advance(first: LNode, steps: nat) returns (node: LNode)
      requires Valid() && steps < |nodes| && first == nodes[0]
      ensures node == nodes[steps]
    {
      hide Ring;
      var middle := steps;
      node := first;
      while middle > 0
        invariant Valid() && 0 <= middle <= steps && node == nodes[steps - middle]
      {
        LinkAt(nilnode, nodes, steps - middle + 1);
        node := node.next;
        middle := middle - 1;
      }
    }

    // src/adt/list.c:530-538: the second half goes to a list of its own.
    method Split() returns (extra: List)
      requires Valid() && |nodes| > 1
      modifies `nodes, `nodecount, Repr()`next, Repr()`prev
      ensures Valid() && extra.Valid() && fresh(extra) && fresh(extra.nilnode)
      ensures |nodes| == old(|nodes|) / 2 && nodes + extra.nodes == old(nodes)
      ensures nodecount + extra.nodecount <= maxcount
    {
      hide Ring;
      var middle := nodecount / 2;
      LinkAt(nilnode, nodes, 0);
      var node: LNode := nilnode.next;
      Exists(nilnode, nodes);
      extra := new List(nodecount - middle);
      Exists(extra.nilnode, extra.nodes);
      node := Advance(node, middle);
      extra.Transfer(this, node, middle);
    }

    /** list_sort, src/adt/list.c:523-544: the same nodes in non-decreasing order, ties reversed. */
    method Sort(compare: Compare)
      requires Valid() && TotalPreorder(compare)
      modifies `nodes, `nodecount, Repr()`next, Repr()`prev
      ensures Valid() && ReverseSorted(nodes, old(nodes), compare) && Repr() == old(Repr())
      decreases |nodes|
    {
      hide Ring, ReverseSorted, Merged, NoRepeat, TotalPreorder;
      Distinctness(nilnode, nodes);
      if nodecount > 1 {
        var extra := Split();
        ghost var a, b := nodes, extra.nodes;
        Apart(nilnode, extra.nilnode, a, b);
        Sort(compare);
        Exists(extra.nilnode, b);
        extra.Sort(compare);
        SortedOf(nodes, a, compare);
        SortedOf(extra.nodes, b, compare);
        SortHalves(a, b, nodes, extra.nodes, compare);
        Merge(extra, compare);
        SortedOf(nodes, a + b, compare);
      } else {
        SortedAlone(nodes, compare);
      }
    }

    /** list_is_sorted, src/adt/list.c:563-579. */
    method IsSorted(compare: Compare) returns (r: bool)
      requires Valid() && TotalPreorder(compare)
      ensures r <==> Sorted(nodes, compare)
    {
      hide Forward, Backward, Distinct, TotalPreorder;
      var next := nilnode;
      LinkAt(nilnode, nodes, 0);
      var node: LNode := nilnode.next;
      ghost var k := 1;
      if node != nilnode {
        LinkAt(nilnode, nodes, 1);
        next := node.next;
      }
      SortedStart(nodes, compare);
      while next != nilnode
        invariant nodes == [] ==> next == nilnode
        invariant nodes != [] ==>
          1 <= k <= |nodes| && node == nodes[k - 1] && next == Node(nilnode, nodes, k) && Sorted(nodes[..k], compare)
        invariant next != nilnode ==> nodes != []
        decreases |nodes| - k
      {
        LinkAt(nilnode, nodes, k);
        if compare(node.data, next.data) > 0 {
          return false;
        }
        SortedMore(nodes, k, compare);
        LinkAt(nilnode, nodes, k + 1);
        node := next;
        next := next.next;
        k := k + 1;
      }
      if nodes != [] { LinkAt(nilnode, nodes, k); assert nodes[..k] == nodes; }
      return true;
    }
  }

  lemma Distinctness(nil: LNode, s: seq<LNode>)
    requires Ring(nil, s)
    ensures NoRepeat(s) && nil !in s
  {
  }

  lemma Exists(nil: LNode, s: seq<LNode>)
    ensures forall n :: n in All(nil, s) ==> allocated(n)
  {
  }

  lemma Apart(nil: LNode, nil': LNode, a: seq<LNode>, b: seq<LNode>)
    requires Distinct(nil, a + b) && nil' !in All(nil, a + b)
    ensures All(nil, a) !! All(nil', b) && All(nil, a) <= All(nil, a + b) && All(nil', b) <= All(nil, a + b) + {nil'}
  {
    Halves(a, b);
    assert forall x :: x in b ==> x in a + b;
  }

  lemma Ends(s: seq<LNode>)
    requires s != []
    ensures s[0] in Members(s) && s[|s| - 1] in Members(s)
  {
  }

  lemma FirstGone(s: seq<LNode>)
    requires s != [] && NoRepeat(s)
    ensures Members(s[..0] + s[1..]) == Members(s) - {s[0]} && s[..0] + s[1..] == s[1..]
  {
  }

  lemma PutMembers(s: seq<LNode>, k: nat, x: LNode)
    requires k <= |s|
    ensures Members(s[..k] + [x] + s[k..]) == Members(s) + {x}
  {
    assert s == s[..k] + s[k..];
  }

  // One round of the merge.
  lemma MergeRound(d: seq<LNode>, s: seq<LNode>, k: nat, compare: Compare)
    requires k < |d| && s != []
    ensures Taken(d[k..], s, compare) ==> var r := d[..k] + [s[0]] + d[k..];
      r[..k + 1] + Merged(r[k + 1..], s[1..], compare) == d[..k] + Merged(d[k..], s, compare)
    ensures !Taken(d[k..], s, compare) ==>
      d[..k + 1] + Merged(d[k + 1..], s, compare) == d[..k] + Merged(d[k..], s, compare)
  {
    hide Merged;
    var r := d[..k] + [s[0]] + d[k..];
    MergedStep(d[k..], s, compare);
    if Taken(d[k..], s, compare) {
      assert r[..k + 1] == d[..k] + [s[0]];
      assert r[k + 1..] == d[k..] == d[k..][0..];
      assert d[..k] + ([s[0]] + Merged(d[k..], s[1..], compare)) == (d[..k] + [s[0]]) + Merged(d[k..], s[1..], compare);
    } else {
      assert d[..k + 1] == d[..k] + [d[k]];
      assert d[k + 1..] == d[k..][1..] && s[0..] == s;
      assert d[..k] + ([d[k]] + Merged(d[k + 1..], s, compare)) == (d[..k] + [d[k]]) + Merged(d[k + 1..], s, compare);
    }
  }

  lemma MergeEnd(d: seq<LNode>, s: seq<LNode>, k: nat, compare: Compare)
    requires k <= |d| && (k == |d| || s == [])
    ensures d[..k] + Merged(d[k..], s, compare) == d + s
  {
    assert d == d[..k] + d[k..] && d + [] == d;
  }

  lemma SortedAlone(s: seq<LNode>, compare: Compare)
    requires |s| <= 1
    ensures ReverseSorted(s, s, compare)
  {
  }

  lemma SortedStart(s: seq<LNode>, compare: Compare)
    ensures s != [] ==> Sorted(s[..1], compare)
  {
  }

  lemma SortedMore(s: seq<LNode>, k: nat, compare: Compare)
    requires TotalPreorder(compare) && 0 < k < |s| && Sorted(s[..k], compare) && compare(s[k - 1].data, s[k].data) <= 0
    ensures Sorted(s[..k + 1], compare)
  {
    var t := s[..k];
    forall i | 0 <= i < k
      ensures compare(s[i].data, s[k].data) <= 0
    {
      if i < k - 1 {
        assert compare(t[i].data, t[k - 1].data) <= 0;
        Transitive(compare, s[i].data, s[k - 1].data, s[k].data);
      }
    }
    forall i, j | 0 <= i < j < k
      ensures compare(s[i].data, s[j].data) <= 0
    {
      assert compare(t[i].data, t[j].data) <= 0;
    }
  }
}
