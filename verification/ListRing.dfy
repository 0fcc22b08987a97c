/** Circular doubly linked lists through a sentinel (src/adt/list.c). */
module ListRing {
  class LNode {
    var next: LNode?
    var prev: LNode?
    const data: int

    /** lnode_init: the node is in no list. */
    constructor (data: int)
      ensures next == null && prev == null && this.data == data
    {
      next, prev := null, null;
      this.data := data;
    }
  }

  ghost predicate NoRepeat(s: seq<LNode>) {
    forall i, j :: 0 <= i < j < |s| ==> s[i] != s[j]
  }

  ghost function Members(s: seq<LNode>): set<LNode> { set x | x in s }

  /** The node after position `i`, where the sentinel stands before the first node and after the last. */
  function Succ(nil: LNode, s: seq<LNode>, i: int): LNode
    requires -1 <= i < |s|
  {
    if i + 1 < |s| then s[i + 1] else nil
  }

  /** The node before position `i`. */
  function Pred(nil: LNode, s: seq<LNode>, i: int): LNode
    requires 0 <= i <= |s|
  {
    if i > 0 then s[i - 1] else nil
  }

  /** The node at position `i`. */
  function Node(nil: LNode, s: seq<LNode>, i: int): LNode
    requires 0 <= i <= |s|
  {
    if i < |s| then s[i] else nil
  }

  type Pointers = map<LNode, LNode?>

  ghost predicate Forward(nil: LNode, s: seq<LNode>, nx: Pointers) {
    nil in nx && nx[nil] == Succ(nil, s, -1) && forall i :: 0 <= i < |s| ==> s[i] in nx && nx[s[i]] == Succ(nil, s, i)
  }

  ghost predicate Backward(nil: LNode, s: seq<LNode>, pv: Pointers) {
    nil in pv && pv[nil] == Pred(nil, s, |s|) && forall i :: 0 <= i < |s| ==> s[i] in pv && pv[s[i]] == Pred(nil, s, i)
  }

  ghost predicate Distinct(nil: LNode, s: seq<LNode>) { NoRepeat(s) && nil !in s }

  ghost function NextOf(s: set<LNode>): Pointers
    reads s`next
  {
    map n | n in s :: n.next
  }

  ghost function PrevOf(s: set<LNode>): Pointers
    reads s`prev
  {
    map n | n in s :: n.prev
  }

  /** The sentinel and the nodes of a list. */
  ghost function All(nil: LNode, s: seq<LNode>): set<LNode> { Members(s) + {nil} }

  /** From the sentinel, `next` leads through `s` and back, and `prev` the other way round. */
  ghost predicate Ring(nil: LNode, s: seq<LNode>)
    reads All(nil, s)
  {
    Distinct(nil, s) && Forward(nil, s, NextOf(All(nil, s))) && Backward(nil, s, PrevOf(All(nil, s)))
  }

  // `r` is `s` with `node` put in at position `i`.
  ghost predicate PutIn(s: seq<LNode>, i: int, node: LNode, r: seq<LNode>) {
    && 0 <= i <= |s| && |r| == |s| + 1 && r[i] == node
    && (forall k :: 0 <= k < i ==> r[k] == s[k]) && forall k :: i < k < |r| ==> r[k] == s[k - 1]
  }

  lemma ForwardPutIn(nil: LNode, s: seq<LNode>, i: int, node: LNode, r: seq<LNode>, nx: Pointers)
    requires Distinct(nil, s) && node !in s && node != nil && PutIn(s, i, node, r) && Forward(nil, s, nx)
    ensures Forward(nil, r, nx[node := Node(nil, s, i)][Pred(nil, s, i) := node])
  {
  }

  lemma BackwardPutIn(nil: LNode, s: seq<LNode>, i: int, node: LNode, r: seq<LNode>, pv: Pointers)
    requires Distinct(nil, s) && node !in s && node != nil && PutIn(s, i, node, r) && Backward(nil, s, pv)
    ensures Backward(nil, r, pv[node := Pred(nil, s, i)][Node(nil, s, i) := node])
  {
    var pv' := pv[node := Pred(nil, s, i)][Node(nil, s, i) := node];
    forall k | 0 <= k < |r|
      ensures r[k] in pv' && pv'[r[k]] == Pred(nil, r, k)
    {
      hide NoRepeat;
      if k != i {
        var m := if k < i then k else k - 1;
        assert r[k] == s[m];
        Apart2(nil, s, m, i);
      }
    }
    assert |r| > 0 && (i < |s| ==> Node(nil, s, i) in s);
  }

  // Different positions hold different nodes.
  lemma Apart2(nil: LNode, s: seq<LNode>, m: int, i: int)
    requires Distinct(nil, s) && 0 <= m < |s| && 0 <= i <= |s|
    ensures s[m] in s && s[m] != nil
    ensures (s[m] == Node(nil, s, i) <==> m == i) && (s[m] == Pred(nil, s, i) <==> m == i - 1)
  {
  }

  // `r` is `s` without the stretch from `i` to `j`.
  ghost predicate CutOut(s: seq<LNode>, i: int, j: int, r: seq<LNode>) {
    && 0 <= i < j <= |s| && |r| == |s| - (j - i)
    && (forall k :: 0 <= k < i ==> r[k] == s[k]) && forall k :: i <= k < |r| ==> r[k] == s[k + (j - i)]
  }

  // Where the nodes around position `k` come from.
  lemma CutAt(s: seq<LNode>, i: int, j: int, r: seq<LNode>, k: int)
    requires CutOut(s, i, j, r) && 0 <= k < |r|
    ensures 0 <= i < j <= |s| && |r| == |s| - (j - i) && r[k] == s[if k < i then k else k + (j - i)]
    ensures k > 0 ==> r[k - 1] == s[if k - 1 < i then k - 1 else k - 1 + (j - i)]
    ensures k + 1 < |r| ==> r[k + 1] == s[if k + 1 < i then k + 1 else k + 1 + (j - i)]
  {
  }

  lemma ForwardAt(nil: LNode, s: seq<LNode>, nx: Pointers, m: int)
    requires Forward(nil, s, nx) && 0 <= m < |s|
    ensures s[m] in nx && nx[s[m]] == Succ(nil, s, m)
  {
  }

  lemma BackwardAt(nil: LNode, s: seq<LNode>, pv: Pointers, m: int)
    requires Backward(nil, s, pv) && 0 <= m < |s|
    ensures s[m] in pv && pv[s[m]] == Pred(nil, s, m)
  {
  }

  lemma NeighboursCut(nil: LNode, s: seq<LNode>, i: int, j: int, r: seq<LNode>, k: int)
    requires CutOut(s, i, j, r) && 0 <= k < |r|
    ensures 0 <= i < j <= |s| && |r| == |s| - (j - i)
    ensures Succ(nil, r, k) == if k == i - 1 then Node(nil, s, j) else Succ(nil, s, if k < i then k else k + (j - i))
    ensures Pred(nil, r, k) == if k == i then Pred(nil, s, i) else Pred(nil, s, if k < i then k else k + (j - i))
  {
    CutAt(s, i, j, r, k);
    hide CutOut;
  }

  lemma ForwardCutAt(nil: LNode, s: seq<LNode>, i: int, j: int, r: seq<LNode>, nx: Pointers, k: int)
    requires Distinct(nil, s) && CutOut(s, i, j, r) && Forward(nil, s, nx) && 0 <= k < |r|
    ensures 0 <= i < j <= |s|
    ensures var nx' := nx[Pred(nil, s, i) := Node(nil, s, j)]; r[k] in nx' && nx'[r[k]] == Succ(nil, r, k)
  {
    CutAt(s, i, j, r, k);
    NeighboursCut(nil, s, i, j, r, k);
    hide Distinct, CutOut, Forward, Succ, Pred, Node;
    var m := if k < i then k else k + (j - i);
    Apart2(nil, s, m, i);
    ForwardAt(nil, s, nx, m);
  }

  lemma BackwardCutAt(nil: LNode, s: seq<LNode>, i: int, j: int, r: seq<LNode>, pv: Pointers, k: int)
    requires Distinct(nil, s) && CutOut(s, i, j, r) && Backward(nil, s, pv) && 0 <= k < |r|
    ensures 0 <= i < j <= |s|
    ensures var pv' := pv[Node(nil, s, j) := Pred(nil, s, i)]; r[k] in pv' && pv'[r[k]] == Pred(nil, r, k)
  {
    CutAt(s, i, j, r, k);
    NeighboursCut(nil, s, i, j, r, k);
    hide Distinct, CutOut, Backward, Succ, Pred, Node;
    var m := if k < i then k else k + (j - i);
    Apart2(nil, s, m, j);
    BackwardAt(nil, s, pv, m);
  }

  lemma ForwardCutOut(nil: LNode, s: seq<LNode>, i: int, j: int, r: seq<LNode>, nx: Pointers)
    requires Distinct(nil, s) && CutOut(s, i, j, r) && Forward(nil, s, nx)
    ensures Forward(nil, r, nx[Pred(nil, s, i) := Node(nil, s, j)])
  {
    hide NoRepeat;
    forall k | 0 <= k < |r| {
      ForwardCutAt(nil, s, i, j, r, nx, k);
    }
    assert i > 0 ==> Pred(nil, s, i) in s;
    assert i == 0 && r != [] ==> r[0] == s[j];
    assert i > 0 ==> r[0] == s[0];
  }

  lemma BackwardCutOut(nil: LNode, s: seq<LNode>, i: int, j: int, r: seq<LNode>, pv: Pointers)
    requires Distinct(nil, s) && CutOut(s, i, j, r) && Backward(nil, s, pv)
    ensures Backward(nil, r, pv[Node(nil, s, j) := Pred(nil, s, i)])
  {
    hide NoRepeat;
    forall k | 0 <= k < |r| {
      BackwardCutAt(nil, s, i, j, r, pv, k);
    }
    assert j < |s| ==> Node(nil, s, j) in s && r[|r| - 1] == s[|s| - 1];
    assert j == |s| && r != [] ==> r[|r| - 1] == s[i - 1];
  }

  // The links inside of a stretch.
  ghost predicate ForwardInner(t: seq<LNode>, nx: Pointers) {
    forall k :: 0 <= k < |t| ==> t[k] in nx && (k < |t| - 1 ==> nx[t[k]] == t[k + 1])
  }

  ghost predicate BackwardInner(t: seq<LNode>, pv: Pointers) {
    forall k :: 0 <= k < |t| ==> t[k] in pv && (k > 0 ==> pv[t[k]] == t[k - 1])
  }

  lemma ForwardJoin(nil: LNode, s: seq<LNode>, t: seq<LNode>, r: seq<LNode>, nx: Pointers)
    requires t != [] && r == s + t && Distinct(nil, r) && Forward(nil, s, nx) && ForwardInner(t, nx)
    ensures Forward(nil, r, nx[t[|t| - 1] := nil][Pred(nil, s, |s|) := t[0]])
  {
    var nx' := nx[t[|t| - 1] := nil][Pred(nil, s, |s|) := t[0]];
    assert t[|t| - 1] == r[|r| - 1] && t[0] == r[|s|] && (s != [] ==> s[|s| - 1] == r[|s| - 1]);
    forall k | 0 <= k < |r|
      ensures r[k] in nx' && nx'[r[k]] == Succ(nil, r, k)
    {
      if k < |s| { assert r[k] == s[k]; } else { assert r[k] == t[k - |s|]; }
      assert k + 1 < |r| ==> r[k + 1] == if k + 1 < |s| then s[k + 1] else t[k + 1 - |s|];
    }
  }

  lemma BackwardJoin(nil: LNode, s: seq<LNode>, t: seq<LNode>, r: seq<LNode>, pv: Pointers)
    requires t != [] && r == s + t && Distinct(nil, r) && Backward(nil, s, pv) && BackwardInner(t, pv)
    ensures Backward(nil, r, pv[t[0] := Pred(nil, s, |s|)][nil := t[|t| - 1]])
  {
    var pv' := pv[t[0] := Pred(nil, s, |s|)][nil := t[|t| - 1]];
    assert t[|t| - 1] == r[|r| - 1] && t[0] == r[|s|] && (s != [] ==> s[|s| - 1] == r[|s| - 1]);
    forall k | 0 <= k < |r|
      ensures r[k] in pv' && pv'[r[k]] == Pred(nil, r, k)
    {
      if k < |s| { assert r[k] == s[k]; } else { assert r[k] == t[k - |s|]; }
      assert k > 0 ==> r[k - 1] == if k - 1 < |s| then s[k - 1] else t[k - 1 - |s|];
    }
  }

  lemma ForwardAgree(nil: LNode, s: seq<LNode>, nx: Pointers, nx': Pointers)
    requires Forward(nil, s, nx) && forall n :: n in All(nil, s) && n in nx ==> n in nx' && nx'[n] == nx[n]
    ensures Forward(nil, s, nx')
  {
  }

  lemma BackwardAgree(nil: LNode, s: seq<LNode>, pv: Pointers, pv': Pointers)
    requires Backward(nil, s, pv) && forall n :: n in All(nil, s) && n in pv ==> n in pv' && pv'[n] == pv[n]
    ensures Backward(nil, s, pv')
  {
  }

  // list_ins_before and list_ins_after, src/adt/list.c:153-156 and 176-179.
  method Link(nil: LNode, node: LNode, pred: LNode, succ: LNode, ghost s: seq<LNode>, ghost i: int, ghost r: seq<LNode>)
    requires Ring(nil, s) && PutIn(s, i, node, r) && node !in All(nil, s) && pred == Pred(nil, s, i)
    requires succ == Node(nil, s, i)
    modifies node`next, node`prev, pred`next, succ`prev
    ensures Ring(nil, r)
  {
    hide Forward, Backward, Distinct, PutIn;
    ghost var nx, pv := NextOf(All(nil, s)), PrevOf(All(nil, s));
    ForwardPutIn(nil, s, i, node, r, nx);
    BackwardPutIn(nil, s, i, node, r, pv);
    DistinctPutIn(nil, s, i, node, r);
    node.next := succ;
    node.prev := pred;
    pred.next := node;
    succ.prev := node;
    ghost var nx1: Pointers, pv1: Pointers := nx[node := succ], pv[node := pred];
    assert NextOf(All(nil, r)) == nx1[pred := node];
    assert PrevOf(All(nil, r)) == pv1[succ := node];
  }

  lemma DistinctPutIn(nil: LNode, s: seq<LNode>, i: int, node: LNode, r: seq<LNode>)
    requires Distinct(nil, s) && node !in All(nil, s) && PutIn(s, i, node, r)
    ensures Distinct(nil, r) && All(nil, r) == All(nil, s) + {node}
    ensures Pred(nil, s, i) in All(nil, s) && Node(nil, s, i) in All(nil, s)
  {
    forall k | 0 <= k < |s|
      ensures s[k] in Members(r)
    {
      assert s[k] == r[if k < i then k else k + 1];
    }
    forall a, b | 0 <= a < b < |r|
      ensures r[a] != r[b]
    {
      assert a != i ==> r[a] == s[if a < i then a else a - 1];
      assert b != i ==> r[b] == s[if b < i then b else b - 1];
    }
    assert forall k :: 0 <= k < |r| && k != i ==> r[k] == s[if k < i then k else k - 1];
  }

  lemma DistinctCutOut(nil: LNode, s: seq<LNode>, i: int, j: int, r: seq<LNode>)
    requires Distinct(nil, s) && CutOut(s, i, j, r)
    ensures Distinct(nil, r) && All(nil, r) == All(nil, s) - Members(s[i..j]) && NoRepeat(s[i..j])
    ensures Members(s[i..j]) <= Members(s)
    ensures Pred(nil, s, i) in All(nil, r) && Node(nil, s, j) in All(nil, r)
  {
    forall k | 0 <= k < |s| && !(i <= k < j)
      ensures s[k] in Members(r)
    {
      assert s[k] == r[if k < i then k else k - (j - i)];
    }
    forall k | 0 <= k < |r|
      ensures r[k] in Members(s) && r[k] !in s[i..j]
    {
      assert r[k] == s[if k < i then k else k + (j - i)];
    }
  }

  // The links inside of the stretch from `i` to `j`, and at its ends.
  lemma Stretch(nil: LNode, s: seq<LNode>, i: int, j: int, nx: Pointers, pv: Pointers)
    requires Forward(nil, s, nx) && Backward(nil, s, pv) && 0 <= i < j <= |s|
    ensures ForwardInner(s[i..j], nx) && BackwardInner(s[i..j], pv) && nx[s[j - 1]] == Node(nil, s, j)
    ensures pv[s[i]] == Pred(nil, s, i)
  {
    forall k | i <= k < j
      ensures s[k] in nx && s[k] in pv && (k < j - 1 ==> nx[s[k]] == s[k + 1]) && (k > i ==> pv[s[k]] == s[k - 1])
    {
    }
  }

  /** A stretch of nodes, linked with each other. */
  ghost predicate Strand(t: seq<LNode>)
    reads t
  {
    NoRepeat(t) && ForwardInner(t, NextOf(Members(t))) && BackwardInner(t, PrevOf(Members(t)))
  }

  lemma ForwardInnerAgree(t: seq<LNode>, nx: Pointers, nx': Pointers)
    requires ForwardInner(t, nx) && forall n :: n in Members(t) && n in nx ==> n in nx' && nx'[n] == nx[n]
    ensures ForwardInner(t, nx')
  {
  }

  lemma BackwardInnerAgree(t: seq<LNode>, pv: Pointers, pv': Pointers)
    requires BackwardInner(t, pv) && forall n :: n in Members(t) && n in pv ==> n in pv' && pv'[n] == pv[n]
    ensures BackwardInner(t, pv')
  {
  }

  // The stretch from `first` to `last` leaves its list (src/adt/list.c:196-197 and 405-406).
  method Unlink(nil: LNode, first: LNode, last: LNode, ghost s: seq<LNode>, ghost i: int, ghost j: int,
          ghost r: seq<LNode>)
    requires Ring(nil, s) && 0 <= i < j <= |s| && CutOut(s, i, j, r) && first == s[i] && last == s[j - 1]
    modifies Pred(nil, s, i)`next, Node(nil, s, j)`prev
    ensures Ring(nil, r) && Strand(s[i..j])
  {
    hide Forward, Backward, ForwardInner, BackwardInner, Distinct, NoRepeat, CutOut;
    ghost var nx, pv := NextOf(All(nil, s)), PrevOf(All(nil, s));
    Stretch(nil, s, i, j, nx, pv);
    ForwardCutOut(nil, s, i, j, r, nx);
    BackwardCutOut(nil, s, i, j, r, pv);
    DistinctCutOut(nil, s, i, j, r);
    assert first in Members(s) && last in Members(s);
    first.prev.next := last.next;
    last.next.prev := first.prev;
    ForwardAgree(nil, r, nx[Pred(nil, s, i) := Node(nil, s, j)], NextOf(All(nil, r)));
    BackwardAgree(nil, r, pv[Node(nil, s, j) := Pred(nil, s, i)], PrevOf(All(nil, r)));
    ForwardInnerAgree(s[i..j], nx, NextOf(Members(s[i..j])));
    BackwardInnerAgree(s[i..j], pv, PrevOf(Members(s[i..j])));
  }

  ghost function Set(p: Pointers, n: LNode, v: LNode): Pointers { p[n := v] }

  method Rewire(nil: LNode, first: LNode, last: LNode, ghost all: set<LNode>)
    requires nil.prev != null && {nil, first, last, nil.prev} <= all && last != nil.prev && first != nil
    modifies last`next, first`prev, nil.prev`next, nil`prev
    ensures NextOf(all) == Set(Set(old(NextOf(all)), last, nil), old(nil.prev), first)
    ensures PrevOf(all) == Set(Set(old(PrevOf(all)), first, old(nil.prev)), nil, last)
  {
    last.next := nil;
    first.prev := nil.prev;
    nil.prev.next := first;
    nil.prev := last;
  }

  // The stretch `t` goes to the end of a list (src/adt/list.c:410-413 and 460-463).
  method Graft(nil: LNode, first: LNode, last: LNode, ghost s: seq<LNode>, ghost t: seq<LNode>)
    requires Ring(nil, s) && t != [] && first == t[0] && last == t[|t| - 1] && Strand(t) && Members(t) !! All(nil, s)
    modifies last`next, first`prev, Pred(nil, s, |s|)`next, nil`prev
    ensures Ring(nil, s + t)
  {
    hide Forward, Backward, ForwardInner, BackwardInner, Distinct, NoRepeat, Members, All, Pred;
    DistinctJoin(nil, s, t);
    ghost var nx, pv := NextOf(All(nil, s + t)), PrevOf(All(nil, s + t));
    ForwardAgree(nil, s, NextOf(All(nil, s)), nx);
    BackwardAgree(nil, s, PrevOf(All(nil, s)), pv);
    ForwardInnerAgree(t, NextOf(Members(t)), nx);
    BackwardInnerAgree(t, PrevOf(Members(t)), pv);
    ForwardJoin(nil, s, t, s + t, nx);
    BackwardJoin(nil, s, t, s + t, pv);
    LastLink(nil, s, pv);
    Rewire(nil, first, last, All(nil, s + t));
  }

  lemma DistinctJoin(nil: LNode, s: seq<LNode>, t: seq<LNode>)
    requires Distinct(nil, s) && NoRepeat(t) && Members(t) !! All(nil, s) && t != []
    ensures Distinct(nil, s + t) && All(nil, s + t) == All(nil, s) + Members(t) && Pred(nil, s, |s|) in All(nil, s)
    ensures t[0] in Members(t) && t[|t| - 1] in Members(t) && nil in All(nil, s)
  {
    var r := s + t;
    assert forall x :: x in t ==> x in Members(t);
    assert forall x :: x in s ==> x in All(nil, s);
    forall i, j | 0 <= i < j < |r|
      ensures r[i] != r[j]
    {
      if i < |s| { assert r[i] in s; }
      if j >= |s| { assert r[j] in t; }
    }
  }

  lemma LastLink(nil: LNode, s: seq<LNode>, pv: Pointers)
    requires Backward(nil, s, pv)
    ensures nil in pv && pv[nil] == Pred(nil, s, |s|)
  {
  }
}
