/** Chains of a hash table as sequences of nodes, and how a table is split and folded (src/adt/hash.c:158-261). */
module HashChains {
  class HNode {
    var next: HNode?
    var key: int
    var hkey: nat
    var data: int

    /** hnode_init, src/adt/hash.c:776-781: the node is in no table. */
    constructor (data: int)
      ensures next == null && this.data == data
    {
      next := null;
      key, hkey := 0, 0;
      this.data := data;
    }
  }

  type Chains = seq<seq<HNode>>

  function First(s: seq<HNode>): HNode? { if s == [] then null else s[0] }

  function After(s: seq<HNode>, i: int): HNode?
    requires 0 <= i < |s|
  {
    if i + 1 < |s| then s[i + 1] else null
  }

  /** The links from `head` on lead through `s`. */
  ghost predicate List(head: HNode?, s: seq<HNode>)
    reads s
  {
    head == First(s) && forall i :: 0 <= i < |s| ==> s[i].next == After(s, i)
  }

  /** No node occurs twice. */
  ghost predicate Separate(chains: Chains) {
    forall c, i, d, j :: 0 <= c < |chains| && 0 <= i < |chains[c]|
      && 0 <= d < |chains| && 0 <= j < |chains[d]| && chains[c][i] == chains[d][j]
      ==> c == d && i == j
  }

  ghost predicate NoRepeat(s: seq<HNode>) {
    forall i, j :: 0 <= i < |s| && 0 <= j < |s| && s[i] == s[j] ==> i == j
  }

  ghost function NodesOf(chains: Chains): set<HNode> {
    set c, i | 0 <= c < |chains| && 0 <= i < |chains[c]| :: chains[c][i]
  }

  ghost function Members(s: seq<HNode>): set<HNode> { set x | x in s }

  ghost function Total(chains: Chains): nat {
    if chains == [] then 0 else Total(chains[..|chains| - 1]) + |chains[|chains| - 1]|
  }

  lemma {:induction false} TotalNodes(chains: Chains)
    requires Separate(chains)
    ensures |NodesOf(chains)| == Total(chains)
    decreases |chains|
  {
    if chains != [] {
      var rest, last := chains[..|chains| - 1], chains[|chains| - 1];
      assert forall c :: 0 <= c < |rest| ==> rest[c] == chains[c];
      TotalNodes(rest);
      SetSize(last);
      NodesLast(chains);
      assert NodesOf(rest) !! Members(last);
    } else {
      assert NodesOf(chains) == {};
    }
  }

  lemma NodesLast(chains: Chains)
    requires chains != []
    ensures NodesOf(chains) == NodesOf(chains[..|chains| - 1]) + Members(chains[|chains| - 1])
  {
    var rest, last := chains[..|chains| - 1], chains[|chains| - 1];
    forall c, i | 0 <= c < |chains| && 0 <= i < |chains[c]|
      ensures chains[c][i] in NodesOf(rest) + Members(last)
    {
      if c < |rest| { assert rest[c][i] == chains[c][i]; }
    }
    forall c, i | 0 <= c < |rest| && 0 <= i < |rest[c]|
      ensures rest[c][i] in NodesOf(chains)
    {
      assert chains[c][i] == rest[c][i];
    }
  }

  lemma {:induction false} SetSize(s: seq<HNode>)
    requires NoRepeat(s)
    ensures |Members(s)| == |s|
  {
    if s != [] {
      var rest, last := s[..|s| - 1], s[|s| - 1];
      assert forall i :: 0 <= i < |rest| ==> rest[i] == s[i];
      SetSize(rest);
      assert Members(s) == Members(rest) + {last};
      assert last !in Members(rest);
    }
  }

  /** Masking with one less than a power of two is a remainder; every node is in the chain of its hash value. */
  ghost predicate Placed(chains: Chains, hk: map<HNode, nat>) {
    forall c, i :: 0 <= c < |chains| && 0 <= i < |chains[c]| ==> chains[c][i] in hk && hk[chains[c][i]] % |chains| == c
  }

  lemma PlacedIn(chains: Chains, hk: map<HNode, nat>, n: HNode)
    requires Placed(chains, hk) && n in NodesOf(chains)
    ensures n in hk && chains != [] && 0 <= hk[n] % |chains| < |chains| && n in chains[hk[n] % |chains|]
  {
    var c, i :| 0 <= c < |chains| && 0 <= i < |chains[c]| && chains[c][i] == n;
    assert hk[chains[c][i]] % |chains| == c;
  }

  /** The hash bit that `n` chains leave hidden. */
  predicate Exposed(x: nat, n: nat)
    requires n > 0
  {
    x / n % 2 == 1
  }

  lemma {:induction false} MulMonotone(a: int, b: int, n: int)
    requires a < b && 0 < n
    ensures a * n + n <= b * n
  {
    var d := b - a - 1;
    assert b == a + 1 + d && d >= 0;
    MulDistributes(a + 1, d, n);
    MulDistributes(a, 1, n);
    assert d * n >= 0;
  }

  lemma MulDistributes(a: int, b: int, n: int)
    ensures (a + b) * n == a * n + b * n
  {
  }

  // Quotient and remainder are determined.
  lemma DivUnique(x: int, n: int, q: int, r: int)
    requires 0 < n && x == q * n + r && 0 <= r < n
    ensures x / n == q && x % n == r
  {
    var p := x / n;
    assert x == p * n + x % n;
    if p < q { MulMonotone(p, q, n); }
    if q < p { MulMonotone(q, p, n); }
  }

  /** One more bit of the hash value decides between a chain and its sister in the upper half. */
  lemma ExposedBit(x: nat, n: nat)
    requires n > 0
    ensures x % (2 * n) == x % n + if Exposed(x, n) then n else 0
  {
    var q, r := x / n, x % n;
    var a, b := q / 2, q % 2;
    assert q == 2 * a + b;
    MulDistributes(2 * a, b, n);
    MulAssoc(a, 2, n);
    assert x == q * n + r == a * (2 * n) + (b * n + r);
    assert b == 0 || b == 1;
    DivUnique(x, 2 * n, a, if b == 1 then n + r else r);
  }

  lemma MulAssoc(a: int, b: int, n: int)
    ensures (b * a) * n == a * (b * n)
  {
  }

  lemma ModHalf(x: nat, n: nat)
    requires n > 0
    ensures x % n == x % (2 * n) % n
  {
    ExposedBit(x, n);
    if Exposed(x, n) { DivUnique(x % n + n, n, 1, x % n); } else { DivUnique(x % n, n, 0, x % n); }
  }

  /** The nodes of a chain with the given bit, the last one first: each node is put in front. */
  ghost function Picked(s: seq<HNode>, hk: map<HNode, nat>, n: nat, bit: bool): seq<HNode>
    requires n > 0
  {
    if s == [] then [] else
      var rest, last := Picked(s[..|s| - 1], hk, n, bit), s[|s| - 1];
      if last in hk && Exposed(hk[last], n) == bit then [last] + rest else rest
  }

  lemma {:induction false} PickedNodes(s: seq<HNode>, hk: map<HNode, nat>, n: nat, bit: bool)
    requires n > 0 && forall i :: 0 <= i < |s| ==> s[i] in hk
    ensures forall i :: 0 <= i < |Picked(s, hk, n, bit)| ==>
      var x := Picked(s, hk, n, bit)[i]; x in s && x in hk && Exposed(hk[x], n) == bit
    ensures forall i :: 0 <= i < |s| && Exposed(hk[s[i]], n) == bit ==> s[i] in Picked(s, hk, n, bit)
  {
    hide Exposed;
    if s != [] {
      var rest, last := s[..|s| - 1], s[|s| - 1];
      PickedNodes(rest, hk, n, bit);
      assert forall i :: 0 <= i < |rest| ==> s[i] == rest[i];
    }
  }

  lemma {:induction false} PickedNoRepeat(s: seq<HNode>, hk: map<HNode, nat>, n: nat, bit: bool)
    requires n > 0 && NoRepeat(s) && forall i :: 0 <= i < |s| ==> s[i] in hk
    ensures NoRepeat(Picked(s, hk, n, bit))
  {
    hide Exposed;
    if s != [] {
      var rest, last := s[..|s| - 1], s[|s| - 1];
      assert forall i :: 0 <= i < |rest| ==> rest[i] == s[i];
      PickedNoRepeat(rest, hk, n, bit);
      PickedNodes(rest, hk, n, bit);
      assert last !in rest;
    }
  }

  lemma {:induction false} PickedCount(s: seq<HNode>, hk: map<HNode, nat>, n: nat)
    requires n > 0 && forall i :: 0 <= i < |s| ==> s[i] in hk
    ensures |Picked(s, hk, n, true)| + |Picked(s, hk, n, false)| == |s|
  {
    if s != [] { PickedCount(s[..|s| - 1], hk, n); }
  }

  ghost function PickedAll(chains: Chains, hk: map<HNode, nat>, n: nat, bit: bool): Chains
    requires n > 0
  {
    seq(|chains|, c requires 0 <= c < |chains| => Picked(chains[c], hk, n, bit))
  }

  /** The chains after growing: the low sisters, then the high ones. */
  ghost function SplitChains(chains: Chains, hk: map<HNode, nat>): Chains {
    if chains == [] then [] else PickedAll(chains, hk, |chains|, false) + PickedAll(chains, hk, |chains|, true)
  }

  /** The chains after shrinking: each high sister follows its low one. */
  ghost function FoldChains(chains: Chains): Chains {
    seq(|chains| / 2, c requires 0 <= c < |chains| / 2 => chains[c] + chains[c + |chains| / 2])
  }

  // Where the sisters of a chain come from.
  lemma SplitAt(chains: Chains, hk: map<HNode, nat>, c: int)
    requires chains != [] && 0 <= c < 2 * |chains|
    ensures |SplitChains(chains, hk)| == 2 * |chains|
    ensures var n := |chains|; SplitChains(chains, hk)[c] == Picked(chains[if c < n then c else c - n], hk, n, c >= n)
  {
  }

  /** Growing puts every node where its hash value belongs. */
  lemma SplitPlaced(chains: Chains, hk: map<HNode, nat>)
    requires chains != [] && Placed(chains, hk)
    ensures Placed(SplitChains(chains, hk), hk) && |SplitChains(chains, hk)| == 2 * |chains|
  {
    hide SplitChains, Picked;
    var n, s := |chains|, SplitChains(chains, hk);
    SplitAt(chains, hk, 0);
    forall c, i | 0 <= c < |s| && 0 <= i < |s[c]|
      ensures s[c][i] in hk && hk[s[c][i]] % (2 * n) == c
    {
      var d := if c < n then c else c - n;
      SplitAt(chains, hk, c);
      PickedNodes(chains[d], hk, n, c >= n);
      assert s[c][i] in s[c];
      var k :| 0 <= k < |chains[d]| && chains[d][k] == s[c][i];
      ExposedBit(hk[s[c][i]], n);
    }
  }

  // A chain shares no node with the others, split or not.
  ghost predicate Apart(chains: Chains, s: Chains, chain: int) {
    && 0 <= chain < |chains| && |s| == 2 * |chains|
    && (forall c, i :: 0 <= c < |chains| && c != chain && 0 <= i < |chains[c]| ==> chains[c][i] !in chains[chain])
    && (forall c, i ::
          0 <= c < 2 * |chains| && c != chain && c != chain + |chains| && 0 <= i < |s[c]| ==> s[c][i] !in chains[chain])
  }

  lemma SplitApart(chains: Chains, hk: map<HNode, nat>, chain: int)
    requires Separate(chains) && Placed(chains, hk) && 0 <= chain < |chains|
    ensures Apart(chains, SplitChains(chains, hk), chain)
  {
    hide SplitChains, Picked, Exposed;
    SplitAt(chains, hk, 0);
    var n, s := |chains|, SplitChains(chains, hk);
    forall c, i | 0 <= c < 2 * n && c != chain && c != chain + n && 0 <= i < |s[c]|
      ensures s[c][i] !in chains[chain]
    {
      var d := if c < n then c else c - n;
      SplitAt(chains, hk, c);
      PickedNodes(chains[d], hk, n, c >= n);
      assert Picked(chains[d], hk, n, c >= n)[i] in chains[d];
      var k :| 0 <= k < |chains[d]| && chains[d][k] == s[c][i];
    }
  }

  /** Growing loses no node and brings in no other. */
  lemma SplitNodes(chains: Chains, hk: map<HNode, nat>)
    requires chains != [] && Placed(chains, hk)
    ensures NodesOf(SplitChains(chains, hk)) == NodesOf(chains)
  {
    hide SplitChains, Picked, Exposed;
    var n, s := |chains|, SplitChains(chains, hk);
    SplitAt(chains, hk, 0);
    forall c, i | 0 <= c < |s| && 0 <= i < |s[c]|
      ensures s[c][i] in NodesOf(chains)
    {
      var d := if c < n then c else c - n;
      SplitAt(chains, hk, c);
      PickedNodes(chains[d], hk, n, c >= n);
      assert s[c][i] in s[c];
      var k :| 0 <= k < |chains[d]| && chains[d][k] == s[c][i];
    }
    forall c, i | 0 <= c < n && 0 <= i < |chains[c]|
      ensures chains[c][i] in NodesOf(s)
    {
      var x := chains[c][i];
      var bit := Exposed(hk[x], n);
      PickedNodes(chains[c], hk, n, bit);
      var d := if bit then c + n else c;
      SplitAt(chains, hk, d);
      assert x in s[d];
      var j :| 0 <= j < |s[d]| && s[d][j] == x;
    }
  }

  /** Growing makes no copy. */
  lemma SplitSeparate(chains: Chains, hk: map<HNode, nat>)
    requires chains != [] && Placed(chains, hk) && Separate(chains)
    ensures Separate(SplitChains(chains, hk))
  {
    hide SplitChains, Picked;
    var n, s := |chains|, SplitChains(chains, hk);
    SplitPlaced(chains, hk);
    forall c, i, d, j | 0 <= c < |s| && 0 <= i < |s[c]| && 0 <= d < |s| && 0 <= j < |s[d]| && s[c][i] == s[d][j]
      ensures c == d && i == j
    {
      assert hk[s[c][i]] % (2 * n) == c && hk[s[d][j]] % (2 * n) == d;
      var e := if c < n then c else c - n;
      SplitAt(chains, hk, c);
      assert NoRepeat(chains[e]);
      PickedNoRepeat(chains[e], hk, n, c >= n);
    }
  }

  /** Shrinking puts every node where its hash value belongs. */
  lemma FoldPlaced(chains: Chains, hk: map<HNode, nat>)
    requires |chains| >= 2 && |chains| % 2 == 0 && Placed(chains, hk)
    ensures Placed(FoldChains(chains), hk)
  {
    var n, s := |chains| / 2, FoldChains(chains);
    forall c, i | 0 <= c < |s| && 0 <= i < |s[c]|
      ensures s[c][i] in hk && hk[s[c][i]] % n == c
    {
      var d, j := FoldIndex(chains, c, i);
      ModHalf(hk[s[c][i]], n);
      ExposedBit(hk[s[c][i]], n);
    }
  }

  /** Shrinking loses no node and brings in no other. */
  lemma FoldNodes(chains: Chains)
    requires |chains| % 2 == 0
    ensures NodesOf(FoldChains(chains)) == NodesOf(chains)
  {
    var n, s := |chains| / 2, FoldChains(chains);
    forall c, i | 0 <= c < |s| && 0 <= i < |s[c]|
      ensures s[c][i] in NodesOf(chains)
    {
      var d, j := FoldIndex(chains, c, i);
    }
    forall c, i | 0 <= c < 2 * n && 0 <= i < |chains[c]|
      ensures chains[c][i] in NodesOf(s)
    {
      var d, j := if c < n then c else c - n, if c < n then i else |chains[c - n]| + i;
      assert s[d] == chains[d] + chains[d + n] && s[d][j] == chains[c][i];
    }
  }

  /** Shrinking makes no copy. */
  lemma FoldSeparate(chains: Chains)
    requires |chains| % 2 == 0 && Separate(chains)
    ensures Separate(FoldChains(chains))
  {
    var s := FoldChains(chains);
    forall c, i, d, j | 0 <= c < |s| && 0 <= i < |s[c]| && 0 <= d < |s| && 0 <= j < |s[d]| && s[c][i] == s[d][j]
      ensures c == d && i == j
    {
      var c', i' := FoldIndex(chains, c, i);
      var d', j' := FoldIndex(chains, d, j);
    }
  }

  lemma FoldIndex(chains: Chains, c: int, i: int) returns (d: int, j: int)
    requires 0 <= c < |chains| / 2 && 0 <= i < |FoldChains(chains)[c]|
    ensures var n := |chains| / 2;
      && d == (if i < |chains[c]| then c else c + n) && j == (if i < |chains[c]| then i else i - |chains[c]|)
      && 0 <= j < |chains[d]| && FoldChains(chains)[c][i] == chains[d][j]
  {
    var n := |chains| / 2;
    d, j := if i < |chains[c]| then c else c + n, if i < |chains[c]| then i else i - |chains[c]|;
  }

  lemma {:induction false} TotalPrefix(chains: Chains, n: nat)
    requires n <= |chains|
    ensures Total(chains[..n]) <= Total(chains)
    decreases |chains|
  {
    if n < |chains| {
      var rest := chains[..|chains| - 1];
      TotalPrefix(rest, n);
      assert rest[..n] == chains[..n];
    } else {
      assert chains[..n] == chains;
    }
  }

  function Remove(s: seq<HNode>, i: int): seq<HNode>
    requires 0 <= i < |s|
  {
    s[..i] + s[i + 1..]
  }

  /** A node put in front of its chain. */
  lemma ChainAdded(chains: Chains, hk: map<HNode, nat>, c: int, x: HNode, h: nat)
    requires Separate(chains) && Placed(chains, hk) && 0 <= c < |chains| && x !in NodesOf(chains) && h % |chains| == c
    ensures var chains' := chains[c := [x] + chains[c]];
      Separate(chains') && Placed(chains', hk[x := h]) && NodesOf(chains') == NodesOf(chains) + {x}
  {
    var chains' := chains[c := [x] + chains[c]];
    forall d, i | 0 <= d < |chains'| && 0 <= i < |chains'[d]|
      ensures chains'[d][i] in NodesOf(chains) + {x} && chains'[d][i] in hk[x := h]
      ensures hk[x := h][chains'[d][i]] % |chains| == d
    {
      if d == c && i > 0 { assert chains'[d][i] == chains[c][i - 1]; }
    }
    forall d, i | 0 <= d < |chains| && 0 <= i < |chains[d]|
      ensures chains[d][i] in NodesOf(chains')
    {
      assert chains[d][i] == chains'[d][if d == c then i + 1 else i];
    }
    assert chains'[c][0] == x;
    AddedSeparate(chains, c, x);
  }

  lemma AddedSeparate(chains: Chains, c: int, x: HNode)
    requires Separate(chains) && 0 <= c < |chains| && x !in NodesOf(chains)
    ensures Separate(chains[c := [x] + chains[c]])
  {
    var s := chains[c := [x] + chains[c]];
    forall d, i, e, j | 0 <= d < |s| && 0 <= i < |s[d]| && 0 <= e < |s| && 0 <= j < |s[e]| && s[d][i] == s[e][j]
      ensures d == e && i == j
    {
      assert !(d == c && i == 0) ==> s[d][i] == chains[d][if d == c then i - 1 else i] && s[d][i] in NodesOf(chains);
      assert !(e == c && j == 0) ==> s[e][j] == chains[e][if e == c then j - 1 else j] && s[e][j] in NodesOf(chains);
    }
  }

  /** A node taken out of its chain. */
  lemma ChainRemoved(chains: Chains, hk: map<HNode, nat>, c: int, k: int)
    requires Separate(chains) && Placed(chains, hk) && 0 <= c < |chains| && 0 <= k < |chains[c]|
    ensures var chains' := chains[c := Remove(chains[c], k)];
      Separate(chains') && Placed(chains', hk) && NodesOf(chains') == NodesOf(chains) - {chains[c][k]}
  {
    var s := chains[c := Remove(chains[c], k)];
    RemovedAt(chains, c, k);
    forall d, i | 0 <= d < |chains| && 0 <= i < |chains[d]| && chains[d][i] != chains[c][k]
      ensures chains[d][i] in NodesOf(s)
    {
      assert chains[d][i] == s[d][if d == c && i > k then i - 1 else i];
    }
  }

  lemma RemovedAt(chains: Chains, c: int, k: int)
    requires Separate(chains) && 0 <= c < |chains| && 0 <= k < |chains[c]|
    ensures var s := chains[c := Remove(chains[c], k)];
      forall d, i :: 0 <= d < |s| && 0 <= i < |s[d]| ==>
        var j := if d == c && i >= k then i + 1 else i;
        j < |chains[d]| && s[d][i] == chains[d][j] && s[d][i] != chains[c][k]
  {
  }
}
