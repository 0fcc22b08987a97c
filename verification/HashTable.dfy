/** The resizable hash table (src/adt/hash.c). */
module HashTable {
  import opened HashChains

  const INIT_SIZE: nat := 64

  type Compare = (int, int) -> int
  type HashFun = int -> nat

  /** Equality of keys is an equivalence, and equal keys hash equally. */
  ghost predicate KeysOk(compare: Compare, function_: HashFun) {
    && (forall a :: compare(a, a) == 0)
    && (forall a, b :: compare(a, b) == 0 ==> compare(b, a) == 0 && function_(a) == function_(b))
    && (forall a, b, c :: compare(a, b) == 0 && compare(b, c) == 0 ==> compare(a, c) == 0)
  }

  lemma SameHash(compare: Compare, function_: HashFun, a: int, b: int)
    requires KeysOk(compare, function_) && compare(a, b) == 0
    ensures compare(b, a) == 0 && function_(a) == function_(b)
  {
  }

  ghost predicate PowerOfTwo(n: nat) {
    n == 1 || (n > 1 && n % 2 == 0 && PowerOfTwo(n / 2))
  }

  // A node is put in front of a list.
  method Push(node: HNode, head: HNode?, ghost l: seq<HNode>)
    requires List(head, l) && node !in l
    modifies node`next
    ensures List(node, [node] + l)
  {
    node.next := head;
    assert forall i :: 0 <= i < |l| ==> l[i].next == After([node] + l, i + 1);
  }

  // The chain from its node `k` on.
  ghost predicate Rest(hptr: HNode?, s: seq<HNode>, k: int)
    reads s`next
  {
    0 <= k <= |s| && hptr == (if k < |s| then s[k] else null) && forall i :: k <= i < |s| ==> s[i].next == After(s, i)
  }

  /** src/adt/hash.c:177-187: the nodes of a chain are put in front of one of two lists, by one hash bit. */
  method SplitChain(head: HNode?, n: nat, ghost s: seq<HNode>, ghost hk: map<HNode, nat>)
    returns (low: HNode?, high: HNode?)
    requires n > 0 && List(head, s) && NoRepeat(s) && forall i :: 0 <= i < |s| ==> s[i] in hk && hk[s[i]] == s[i].hkey
    modifies Members(s)`next
    ensures List(low, Picked(s, hk, n, false)) && List(high, Picked(s, hk, n, true))
  {
    hide Picked, Exposed, List;
    low, high := null, null;
    var hptr := head;
    ghost var k, l, h: seq<HNode> := 0, [], [];
    PickedNone(hk, n);
    StartRest(head, s);
    while hptr != null
      invariant Rest(hptr, s, k) && forall i :: 0 <= i < |s| ==> hk[s[i]] == s[i].hkey
      invariant l == Picked(s[..k], hk, n, false) && h == Picked(s[..k], hk, n, true) && List(low, l) && List(high, h)
      decreases |s| - k
    {
      SplitStep(s, k, hk, n);
      if Exposed(hptr.hkey, n) {
        h := [hptr] + h;
        hptr, high := MoveNode(hptr, high, s, k, h[1..], low, l);
      } else {
        l := [hptr] + l;
        hptr, low := MoveNode(hptr, low, s, k, l[1..], high, h);
      }
      k := k + 1;
    }
    assert s[..k] == s;
  }

  // One node leaves its chain for the front of a list.
  method MoveNode(hptr: HNode, head: HNode?, ghost s: seq<HNode>, ghost k: nat, ghost l: seq<HNode>,
                  other: HNode?, ghost o: seq<HNode>) returns (next: HNode?, head': HNode)
    requires k < |s| && Rest(hptr, s, k) && NoRepeat(s) && List(head, l) && hptr !in l && List(other, o) && hptr !in o
    modifies hptr`next
    ensures Rest(next, s, k + 1) && List(head', [hptr] + l) && List(other, o)
  {
    next := hptr.next;
    Push(hptr, head, l);
    head' := hptr;
  }

  lemma StartRest(head: HNode?, s: seq<HNode>)
    requires List(head, s)
    ensures Rest(head, s, 0) && List(null, [])
  {
  }

  lemma PickedNone(hk: map<HNode, nat>, n: nat)
    requires n > 0
    ensures Picked([], hk, n, false) == [] == Picked([], hk, n, true)
  {
  }

  // The next node is in neither list yet.
  lemma SplitStep(s: seq<HNode>, k: nat, hk: map<HNode, nat>, n: nat)
    requires n > 0 && k < |s| && NoRepeat(s) && forall i :: 0 <= i < |s| ==> s[i] in hk
    ensures s[k] !in Picked(s[..k], hk, n, false) && s[k] !in Picked(s[..k], hk, n, true)
    ensures Picked(s[..k + 1], hk, n, false) == if Exposed(hk[s[k]], n) then Picked(s[..k], hk, n, false)
      else [s[k]] + Picked(s[..k], hk, n, false)
    ensures Picked(s[..k + 1], hk, n, true) == if Exposed(hk[s[k]], n) then [s[k]] + Picked(s[..k], hk, n, true)
      else Picked(s[..k], hk, n, true)
    ensures forall i :: k < i < |s| ==> s[i] !in Picked(s[..k], hk, n, false) && s[i] !in Picked(s[..k], hk, n, true)
  {
    PickedNodes(s[..k], hk, n, false);
    PickedNodes(s[..k], hk, n, true);
    assert s[..k + 1][..k] == s[..k];
    assert forall i :: 0 <= i < k ==> s[..k][i] == s[i];
  }

  // src/adt/hash.c:241-250: the high chain follows the low one. `visited` counts the steps to its end.
  method AppendChain(low: HNode?, high: HNode?, ghost l: seq<HNode>, ghost h: seq<HNode>)
    returns (head: HNode?, ghost visited: nat)
    requires List(low, l) && List(high, h) && NoRepeat(l + h)
    modifies Members(l)`next
    ensures List(head, l + h) && visited <= |l|
  {
    visited := 0;
    if low == null {
      assert l + h == h;
      return high, 0;
    }
    var tail := low;
    ghost var k := 0;
    while tail.next != null
      invariant 0 <= k < |l| && tail == l[k] && visited == k
      decreases |l| - k
    {
      tail := tail.next;
      k := k + 1;
      visited := visited + 1;
    }
    Splice(tail, high, l, h);
    return low, visited;
  }

  method Splice(tail: HNode, high: HNode?, ghost l: seq<HNode>, ghost h: seq<HNode>)
    requires l != [] && tail == l[|l| - 1] && List(l[0], l) && List(high, h) && NoRepeat(l + h)
    modifies tail`next
    ensures List(l[0], l + h)
  {
    tail.next := high;
    var s := l + h;
    assert forall i :: 0 <= i < |l| ==> s[i] == l[i];
    assert forall i :: |l| <= i < |s| ==> s[i] == h[i - |l|] && s[i] != s[|l| - 1];
    forall i | 0 <= i < |s|
      ensures s[i].next == After(s, i)
    {
      if i < |l| - 1 { assert s[i] != s[|l| - 1]; }
    }
  }

  // The first `chain` chains were split into those of `s`.
  ghost predicate SplitUpTo(table: array<HNode?>, n: int, chain: int, chains: Chains, s: Chains)
    reads table, NodesOf(chains), NodesOf(s)
  {
    && 0 <= chain <= n == |chains| && table.Length == 2 * n == |s|
    && (forall c :: 0 <= c < chain || n <= c < n + chain ==> List(table[c], s[c]))
    && (forall c :: chain <= c < n ==> List(table[c], chains[c]))
  }

  method SplitOne(table: array<HNode?>, n: int, chain: int, ghost chains: Chains, ghost s: Chains, ghost hk: map<HNode,
          nat>)
    requires 0 <= chain < n && SplitUpTo(table, n, chain, chains, s) && Apart(chains, s, chain)
    requires NoRepeat(chains[chain])
    requires s[chain] == Picked(chains[chain], hk, n, false) && s[chain + n] == Picked(chains[chain], hk, n, true)
    requires forall i :: 0 <= i < |chains[chain]| ==>
      chains[chain][i] in hk && hk[chains[chain][i]] == chains[chain][i].hkey
    modifies table, Members(chains[chain])`next
    ensures SplitUpTo(table, n, chain + 1, chains, s)
  {
    hide Picked, Exposed, List;
    var low, high := SplitChain(table[chain], n, chains[chain], hk);
    table[chain] := low;
    table[chain + n] := high;
  }

  // src/adt/hash.c:174-191: every chain is split. `visited` counts the rounds of both loops.
  method SplitAll(table: array<HNode?>, n: nat, ghost chains: Chains, ghost hk: map<HNode, nat>)
    returns (ghost visited: nat)
    requires 0 < n == |chains| && table.Length == 2 * n && Separate(chains) && Placed(chains, hk)
    requires forall c :: 0 <= c < n ==> List(table[c], chains[c])
    requires forall x :: x in NodesOf(chains) ==> x in hk && hk[x] == x.hkey
    modifies table, NodesOf(chains)`next
    ensures Links(table, SplitChains(chains, hk))
    ensures visited == n + Total(chains)
  {
    hide Picked, Exposed, Placed, SplitChains, List, Apart;
    visited := 0;
    var chain := 0;
    SplitAt(chains, hk, 0);
    ghost var s := SplitChains(chains, hk);
    while chain < n
      invariant SplitUpTo(table, n, chain, chains, s) && visited == chain + Total(chains[..chain])
      invariant forall x :: x in NodesOf(chains) ==> x in hk && hk[x] == x.hkey
    {
      SplitApart(chains, hk, chain);
      SplitAt(chains, hk, chain);
      SplitAt(chains, hk, chain + n);
      ChainNodes(chains, chain);
      SplitOne(table, n, chain, chains, s, hk);
      visited := visited + 1 + |chains[chain]|;
      assert chains[..chain + 1][..chain] == chains[..chain];
      chain := chain + 1;
    }
    assert chains[..n] == chains;
  }

  lemma ChainNodes(chains: Chains, c: int)
    requires 0 <= c < |chains| && Separate(chains)
    ensures Members(chains[c]) <= NodesOf(chains) && NoRepeat(chains[c])
    ensures forall i :: 0 <= i < |chains[c]| ==> chains[c][i] in NodesOf(chains)
  {
  }

  // The end of hash_delete (src/adt/hash.c:608-617): the node is spliced out of its chain.
  method Unlink(table: array<HNode?>, chain: int, node: HNode, ghost s: seq<HNode>, ghost i: int)
    requires 0 <= chain < table.Length && List(table[chain], s) && NoRepeat(s) && 0 <= i < |s| && s[i] == node
    modifies table, Members(s)`next
    ensures List(table[chain], Remove(s, i))
    ensures forall c :: 0 <= c < table.Length && c != chain ==> table[c] == old(table[c])
  {
    var hptr := table[chain];
    if hptr == node {
      table[chain] := node.next;
      assert i == 0;
      assert forall k :: 1 <= k < |s| ==> s[k].next == After(s, k);
    } else {
      ghost var k := 0;
      while hptr.next != node
        invariant 0 <= k < i && hptr == s[k]
        decreases i - k
      {
        assert s[k].next == s[k + 1];
        hptr := hptr.next;
        k := k + 1;
      }
      assert hptr.next == s[k + 1] && k + 1 == i;
      hptr.next := node.next;
      RemoveLinks(s, i);
    }
  }

  lemma RemoveLinks(s: seq<HNode>, i: int)
    requires 0 < i < |s| && NoRepeat(s) && s[i - 1].next == After(s, i)
    requires forall k :: 0 <= k < |s| && k != i - 1 ==> s[k].next == After(s, k)
    ensures List(s[0], Remove(s, i))
  {
    var r := Remove(s, i);
    forall k | 0 <= k < |r|
      ensures r[k].next == After(r, k)
    {
      assert r[k] == s[if k < i then k else k + 1];
    }
  }

  method TakeOut(table: array<HNode?>, chain: int, node: HNode, ghost chains: Chains, ghost k: int)
    requires Links(table, chains) && Separate(chains) && 0 <= chain < |chains| && 0 <= k < |chains[chain]|
    requires chains[chain][k] == node
    modifies table, Members(chains[chain])`next
    ensures Links(table, chains[chain := Remove(chains[chain], k)]) && node.next == null
  {
    hide List;
    RemoveApart(chains, chain, k);
    Unlink(table, chain, node, chains[chain], k);
    node.next := null;
  }

  lemma RemoveApart(chains: Chains, chain: int, k: int)
    requires Separate(chains) && 0 <= chain < |chains| && 0 <= k < |chains[chain]|
    ensures NoRepeat(chains[chain]) && chains[chain][k] !in Remove(chains[chain], k)
    ensures chains[chain][k] in chains[chain]
    ensures forall c :: 0 <= c < |chains| && c != chain ==> Members(chains[c]) !! Members(chains[chain])
  {
  }

  method PutFront(table: array<HNode?>, chain: int, node: HNode, key: int, hkey: nat, ghost chains: Chains)
    requires Links(table, chains) && 0 <= chain < |chains| && node !in NodesOf(chains)
    modifies table, node`next, node`key, node`hkey
    ensures Links(table, chains[chain := [node] + chains[chain]]) && node.key == key && node.hkey == hkey
  {
    hide List;
    assert forall c :: 0 <= c < |chains| ==> node !in chains[c];
    node.key := key;
    node.hkey := hkey;
    Push(node, table[chain], chains[chain]);
    table[chain] := node;
  }

  // The first `chain` pairs of sisters were joined.
  ghost predicate FoldedUpTo(table: array<HNode?>, n: int, chain: int, chains: Chains)
    reads table, NodesOf(chains), NodesOf(FoldChains(chains))
  {
    && 0 <= chain <= n && |chains| == 2 * n == table.Length && |FoldChains(chains)| == n
    && (forall c :: 0 <= c < chain ==> List(table[c], FoldChains(chains)[c]))
    && (forall c :: chain <= c < n || n + chain <= c < 2 * n ==> List(table[c], chains[c]))
  }

  method FoldOne(table: array<HNode?>, n: int, chain: int, ghost chains: Chains) returns (ghost visited: nat)
    requires 0 <= chain < n && Separate(chains) && FoldedUpTo(table, n, chain, chains)
    modifies table, Members(chains[chain])`next
    ensures FoldedUpTo(table, n, chain + 1, chains) && visited <= |chains[chain]|
  {
    hide List, NodesOf;
    FoldApart(chains, n, chain);
    table[chain], visited := AppendChain(table[chain], table[chain + n], chains[chain], chains[chain + n]);
  }

  lemma FoldApart(chains: Chains, n: int, chain: int)
    requires Separate(chains) && |chains| == 2 * n && 0 <= chain < n
    ensures |FoldChains(chains)| == n && FoldChains(chains)[chain] == chains[chain] + chains[chain + n]
    ensures NoRepeat(chains[chain] + chains[chain + n])
    ensures forall c :: 0 <= c < 2 * n && c != chain ==> Members(chains[c]) !! Members(chains[chain])
    ensures forall c :: 0 <= c < n && c != chain ==> Members(FoldChains(chains)[c]) !! Members(chains[chain])
  {
  }

  // src/adt/hash.c:240-251.
  method FoldAll(table: array<HNode?>, n: nat, ghost chains: Chains) returns (ghost visited: nat)
    requires |chains| == 2 * n && Separate(chains) && Links(table, chains)
    modifies table, NodesOf(chains)`next
    ensures |FoldChains(chains)| == n && table.Length == 2 * n
    ensures forall c :: 0 <= c < n ==> List(table[c], FoldChains(chains)[c])
    ensures visited <= n + Total(chains)
  {
    hide List, Separate;
    visited := 0;
    var chain := 0;
    while chain < n
      invariant FoldedUpTo(table, n, chain, chains) && visited <= chain + Total(chains[..chain])
    {
      ChainNodes(chains, chain);
      ghost var steps := FoldOne(table, n, chain, chains);
      visited := visited + 1 + steps;
      assert chains[..chain + 1][..chain] == chains[..chain];
      chain := chain + 1;
    }
    TotalPrefix(chains, n);
  }

  // realloc to half the size (src/adt/hash.c:252-255).
  method SmallerTable(table: array<HNode?>, n: nat, ghost chains: Chains) returns (newtable: array<HNode?>)
    requires |chains| == n <= table.Length && forall c :: 0 <= c < n ==> List(table[c], chains[c])
    ensures fresh(newtable) && Links(newtable, chains)
  {
    hide List, NodesOf;
    newtable := new HNode?[n](_ => null);
    forall c | 0 <= c < n {
      newtable[c] := table[c];
    }
  }

  ghost function HKeysOf(s: set<HNode>): map<HNode, nat>
    reads s`hkey
  {
    map n | n in s :: n.hkey
  }

  // realloc to twice the size (src/adt/hash.c:164-165).
  method LargerTable(table: array<HNode?>, n: nat, ghost chains: Chains) returns (newtable: array<HNode?>)
    requires Links(table, chains) && n == |chains|
    ensures fresh(newtable) && newtable.Length == 2 * n && forall c :: 0 <= c < n ==> List(newtable[c], chains[c])
  {
    hide List, NodesOf;
    newtable := new HNode?[2 * n](_ => null);
    forall c | 0 <= c < n {
      newtable[c] := table[c];
    }
  }

  ghost predicate Links(table: array<HNode?>, chains: Chains)
    reads table, NodesOf(chains)
  {
    table.Length == |chains| && forall c :: 0 <= c < |chains| ==> List(table[c], chains[c])
  }

  /** A table of `n` chains and `count` nodes after `ops` operations, the last resize having come after
      `at` of them, when there were `base` nodes. */
  ghost predicate Paid(n: nat, count: nat, ops: nat, at: nat, base: nat, work: nat) {
    && INIT_SIZE <= n && count <= 2 * n && (n <= 128 || n / 2 <= count)
    && at <= ops && count <= base + (ops - at) && base <= count + (ops - at)
    && (base == n || (base == 0 && n == INIT_SIZE && at == 0)) && work <= 3 * at
  }

  /** Growing is paid for by the operations since the last resize. */
  lemma GrowPaid(n: nat, count: nat, ops: nat, at: nat, base: nat, work: nat)
    requires Paid(n, count, ops, at, base, work) && count >= 2 * n && n % 2 == 0
    ensures Paid(2 * n, count, ops, ops, count, work + n + count) && ops - at >= n / 2
  {
  }

  // The table is never too large or too small.
  lemma Sized(n: nat, count: nat, ops: nat, at: nat, base: nat, work: nat)
    requires Paid(n, count, ops, at, base, work)
    ensures INIT_SIZE <= n && count <= 2 * n
  {
  }

  lemma InsertPaid(n: nat, count: nat, ops: nat, at: nat, base: nat, work: nat)
    requires Paid(n, count, ops, at, base, work) && count < 2 * n
    ensures Paid(n, count + 1, ops + 1, at, base, work) && work <= 3 * (ops + 1)
  {
  }

  lemma DeletePaid(n: nat, count: nat, ops: nat, at: nat, base: nat, work: nat)
    requires Paid(n, count, ops, at, base, work) && count > 0 && (n <= 128 || n / 2 < count)
    ensures Paid(n, count - 1, ops + 1, at, base, work) && work <= 3 * (ops + 1)
  {
  }

  lemma NoShrink(n: nat, count: nat, ops: nat, at: nat, base: nat, work: nat)
    requires Paid(n, count, ops, at, base, work) && n % 2 == 0 && !(INIT_SIZE < count <= n / 2)
    ensures n <= 128 || n / 2 < count
  {
  }

  /** Shrinking is paid for by the operations since the last resize. */
  lemma ShrinkPaid(n: nat, count: nat, ops: nat, at: nat, base: nat, work: nat, visited: nat)
    requires Paid(n, count, ops, at, base, work) && INIT_SIZE < count <= n / 2 && n % 2 == 0 && visited <= n / 2 + count
    ensures Paid(n / 2, count, ops, ops, count, work + visited) && ops - at >= n / 2 && n / 4 < count
  {
  }

  class Hash {
    var table: array<HNode?>
    var nchains: nat
    var nodecount: nat
    var highmark: nat
    var lowmark: nat
    var mask: nat
    const maxcount: nat
    const compare: Compare
    const function_: HashFun
    const dynamic: bool
    ghost var chains: Chains
    // Insertions and deletions so far, and up to the last resize; the node count there; nodes and
    // chains visited by all resizes.
    ghost var ops: nat
    ghost var resizedAt: nat
    ghost var resizedCount: nat
    ghost var work: nat

    ghost function Nodes(): set<HNode>
      reads `chains
    {
      NodesOf(chains)
    }

    // Every node has its key's hash value, and no two keys are equal.
    ghost predicate Keyed(s: set<HNode>)
      reads s`key, s`hkey
    {
      (forall n :: n in s ==> n.hkey == function_(n.key)) && forall n, m :: n in s && m in s && n != m ==>
        compare(n.key, m.key) != 0
    }

    /** The chains and their contents: hash_verify (src/adt/hash.c:694-721) and more. */
    ghost predicate Structure()
      reads `chains, `nchains, `mask, `nodecount, `table, table, Nodes()
    {
      && |chains| == nchains && PowerOfTwo(nchains) && mask == nchains - 1 && nodecount == |Nodes()| <= maxcount
      && KeysOk(compare, function_)
      && Separate(chains) && Placed(chains, HKeysOf(Nodes())) && Keyed(Nodes()) && Links(table, chains)
    }

    /** The load of a dynamic table between operations, and what its resizes have cost. */
    ghost predicate Loaded()
      reads this
    {
      highmark == 2 * nchains && lowmark == nchains / 2 && Paid(nchains, nodecount, ops, resizedAt, resizedCount, work)
    }

    ghost predicate Valid()
      reads this, table, Nodes()
    {
      Structure() && (dynamic ==> Loaded())
    }

    /** hash_create, src/adt/hash.c:293-327. */
    constructor (maxcount: nat, compare: Compare, function_: HashFun)
      requires KeysOk(compare, function_)
      ensures Valid() && Nodes() == {} && dynamic && this.maxcount == maxcount && this.compare == compare
      ensures this.function_ == function_
      ensures fresh(table) && nchains == INIT_SIZE && ops == 0 && work == 0
    {
      table := new HNode?[INIT_SIZE](_ => null);
      nchains, highmark, lowmark, nodecount := INIT_SIZE, INIT_SIZE * 2, INIT_SIZE / 2, 0;
      this.maxcount, this.compare, this.function_, dynamic := maxcount, compare, function_, true;
      mask := INIT_SIZE - 1;
      chains := seq(INIT_SIZE, _ => []);
      ops, resizedAt, resizedCount, work := 0, 0, 0, 0;
      new;
      Powers();
    }

    /** hash_init, src/adt/hash.c:401-423: a table of the caller's that never changes its size. */
    constructor Static(maxcount: nat, compare: Compare, function_: HashFun, table: array<HNode?>, nchains: nat)
      requires KeysOk(compare, function_) && PowerOfTwo(nchains) && table.Length == nchains
      modifies table
      ensures Valid() && Nodes() == {} && !dynamic && this.maxcount == maxcount && this.compare == compare
      ensures this.function_ == function_
      ensures this.table == table && this.nchains == nchains
    {
      this.table, this.nchains, nodecount, mask := table, nchains, 0, nchains - 1;
      this.maxcount, this.compare, this.function_, dynamic := maxcount, compare, function_, false;
      chains := seq(nchains, _ => []);
      new;
      var i := 0;
      while i < nchains
        modifies table
        invariant 0 <= i <= nchains && forall c :: 0 <= c < i ==> table[c] == null
      {
        table[i] := null;
        i := i + 1;
      }
    }

    /** src/adt/hash.c:530-531. */
    method MakeRoom(ghost key: int)
      requires Valid() && forall n :: n in Nodes() ==> compare(n.key, key) != 0
      modifies this`table, this`mask, this`nchains, this`lowmark, this`highmark, this`chains, this`work, this`resizedAt
      modifies this`resizedCount, Nodes()`next
      ensures Structure() && (dynamic ==> Loaded() && nodecount < highmark) && Nodes() == old(Nodes())
      ensures forall n :: n in Nodes() ==> compare(n.key, key) != 0
      ensures (table == old(table) && nchains == old(nchains)) ||
        (fresh(table) && nchains == 2 * old(nchains) && ops - old(resizedAt) >= old(nchains) / 2)
      ensures nchains != old(nchains) <==> dynamic && old(nodecount) >= 2 * old(nchains)
    {
      hide Structure, Paid, NodesOf;
      NodesAllocated(chains);
      Counts();
      if dynamic {
        Sized(nchains, nodecount, ops, resizedAt, resizedCount, work);
        if nodecount >= highmark {
          GrowPaid(nchains, nodecount, ops, resizedAt, resizedCount, work);
          GrowTable();
          resizedAt, resizedCount := ops, nodecount;
        }
      }
    }

    /** src/adt/hash.c:601-603. */
    method GiveBack()
      requires Valid()
      modifies this`table, this`mask, this`nchains, this`lowmark, this`highmark, this`chains, this`work, this`resizedAt
      modifies this`resizedCount, table, Nodes()`next
      ensures Structure() && (dynamic ==> Loaded() && (nchains <= 128 || nchains / 2 < nodecount))
      ensures Nodes() == old(Nodes())
      ensures (table == old(table) && nchains == old(nchains)) ||
        (fresh(table) && nchains == old(nchains) / 2 && ops - old(resizedAt) >= old(nchains) / 2)
      ensures nchains != old(nchains) <==> dynamic && INIT_SIZE < old(nodecount) <= old(nchains) / 2
    {
      hide Structure, Paid, NodesOf;
      Counts();
      if dynamic {
        Sized(nchains, nodecount, ops, resizedAt, resizedCount, work);
        if nodecount <= lowmark && nodecount > INIT_SIZE {
          ghost var n, work0 := nchains, work;
          ShrinkTable();
          ShrinkPaid(n, nodecount, ops, resizedAt, resizedCount, work0, work - work0);
          resizedAt, resizedCount := ops, nodecount;
        } else {
          NoShrink(nchains, nodecount, ops, resizedAt, resizedCount, work);
        }
      }
    }

    /** hash_insert, src/adt/hash.c:521-543. A resize comes at least half as many operations after the
        one before as there are chains in between, and all resizes take at most three steps an operation. */
    method Insert(node: HNode, key: int)
      requires Valid() && node !in Nodes() && nodecount < maxcount
      requires forall n :: n in Nodes() ==> compare(n.key, key) != 0
      modifies this, table, Nodes()`next, node`next, node`key, node`hkey
      ensures Valid() && Nodes() == old(Nodes()) + {node} && node.key == key && (table == old(table) || fresh(table))
      ensures ops == old(ops) + 1 && (dynamic ==> work <= 3 * ops)
      ensures nchains == (if dynamic && old(nodecount) >= 2 * old(nchains) then 2 * old(nchains) else old(nchains))
      ensures nchains != old(nchains) ==> old(ops) - old(resizedAt) >= old(nchains) / 2
    {
      hide Structure, Paid, Nodes;
      Counts();
      MakeRoom(key);
      if dynamic { InsertPaid(nchains, nodecount, ops, resizedAt, resizedCount, work); }
      AddNode(node, key);
      ops := ops + 1;
    }

    /** hash_delete, src/adt/hash.c:593-624. */
    method Delete(node: HNode)
      requires Valid() && node in Nodes()
      modifies this, table, Nodes()`next
      ensures Valid() && Nodes() == old(Nodes()) - {node} && node.next == null && (table == old(table) || fresh(table))
      ensures ops == old(ops) + 1 && (dynamic ==> work <= 3 * ops)
      ensures nchains ==
        (if dynamic && INIT_SIZE < old(nodecount) <= old(nchains) / 2 then old(nchains) / 2 else old(nchains))
      ensures nchains != old(nchains) ==> old(ops) - old(resizedAt) >= old(nchains) / 2
    {
      hide Structure, Paid, Nodes;
      GiveBack();
      Counts();
      if dynamic { DeletePaid(nchains, nodecount, ops, resizedAt, resizedCount, work); }
      ghost var c, k := TakeNode(node);
      ops := ops + 1;
    }

    lemma Counts()
      requires Structure()
      ensures (nchains >= 2 ==> nchains % 2 == 0) && nodecount == |Nodes()|
    {
    }

    /** hash_lookup, src/adt/hash.c:559-573. */
    method Lookup(key: int) returns (r: HNode?)
      requires Structure()
      ensures r != null ==> r in Nodes() && compare(r.key, key) == 0
      ensures r == null ==> forall n :: n in Nodes() ==> compare(n.key, key) != 0
    {
      var hkey := function_(key);
      var chain := hkey % (mask + 1);
      NoOther(key);
      hide Structure, HKeysOf, Nodes, Separate, Placed, KeysOk, PowerOfTwo;
      r := SearchChain(table[chain], key, hkey, compare, chains[chain]);
      if r != null {
        ghost var i :| 0 <= i < |chains[chain]| && chains[chain][i] == r;
        InNodes(chain, i);
      }
    }

    /** grow_table, src/adt/hash.c:158-200. */
    method GrowTable()
      requires Structure()
      modifies this`table, this`mask, this`nchains, this`lowmark, this`highmark, this`chains, this`work, Nodes()`next
      ensures Structure() && fresh(table) && chains == SplitChains(old(chains), old(HKeysOf(Nodes())))
      ensures Nodes() == old(Nodes())
      ensures nchains == 2 * old(nchains) && lowmark == 2 * old(lowmark) && highmark == 2 * old(highmark)
      ensures work == old(work) + old(nchains) + old(nodecount)
    {
      hide Structure, SplitChains, Placed, Separate, KeysOk, PowerOfTwo, List, Keyed, HKeysOf, Total, NodesOf, Links;
      StructureParts();
      ghost var chains0, hk := chains, HKeysOf(Nodes());
      TotalNodes(chains);
      SplitPlaced(chains, hk);
      SplitNodes(chains, hk);
      SplitSeparate(chains, hk);
      Doubled(nchains);
      var newtable := LargerTable(table, nchains, chains);
      ghost var visited := SplitAll(newtable, nchains, chains0, hk);
      Install(newtable, nchains * 2, SplitChains(chains0, hk), visited);
    }

    /** shrink_table, src/adt/hash.c:232-261. */
    method ShrinkTable()
      requires Structure() && nchains >= 2
      modifies this`table, this`mask, this`nchains, this`lowmark, this`highmark, this`chains, this`work, table
      modifies Nodes()`next
      ensures Structure() && fresh(table) && chains == FoldChains(old(chains)) && Nodes() == old(Nodes())
      ensures nchains == old(nchains) / 2 && lowmark == old(lowmark) / 2 && highmark == old(highmark) / 2
      ensures old(work) <= work <= old(work) + nchains + old(nodecount)
    {
      hide Structure, FoldChains, Placed, Separate, KeysOk, PowerOfTwo, List, Keyed, HKeysOf, Total, NodesOf;
      StructureParts();
      ghost var chains0, hk := chains, HKeysOf(Nodes());
      Halved(nchains);
      var n := nchains / 2;
      TotalNodes(chains);
      FoldPlaced(chains, hk);
      FoldNodes(chains);
      FoldSeparate(chains);
      ghost var visited := FoldAll(table, n, chains0);
      var newtable := SmallerTable(table, n, FoldChains(chains0));
      Install(newtable, n, FoldChains(chains0), visited);
    }

    // The node is put in front of its chain (src/adt/hash.c:533-540).
    method AddNode(node: HNode, key: int)
      requires Structure() && node !in Nodes() && nodecount < maxcount
      requires forall n :: n in Nodes() ==> compare(n.key, key) != 0
      modifies this`nodecount, this`chains, table, node`next, node`key, node`hkey
      ensures Structure() && Nodes() == old(Nodes()) + {node} && node.key == key && nodecount == old(nodecount) + 1
    {
      hide Structure, Placed, Separate, KeysOk, PowerOfTwo, HKeysOf, Links, Keyed, NodesOf;
      StructureParts();
      ghost var s, hk := Nodes(), HKeysOf(Nodes());
      var hkey := function_(key);
      var chain := hkey % (mask + 1);
      ChainAdded(chains, hk, chain, node, hkey);
      PutFront(table, chain, node, key, hkey, chains);
      KeyedAdded(s, node);
      HKeysAdded(s, hk, node);
      nodecount := nodecount + 1;
      chains := chains[chain := [node] + chains[chain]];
      StructureFrom();
    }

    lemma KeyedAdded(s: set<HNode>, node: HNode)
      requires KeysOk(compare, function_) && Keyed(s) && node !in s && node.hkey == function_(node.key)
      requires forall n :: n in s ==> compare(n.key, node.key) != 0
      ensures Keyed(s + {node})
    {
      forall n | n in s
        ensures compare(node.key, n.key) != 0
      {
        if compare(node.key, n.key) == 0 { SameHash(compare, function_, node.key, n.key); }
      }
    }

    /** hash_scan_delete (src/adt/hash.c:649-673), and hash_delete from line 605 on: the node is spliced
        out of its chain. */
    method TakeNode(node: HNode) returns (ghost c: nat, ghost k: nat)
      requires Structure() && node in Nodes()
      modifies this`nodecount, this`chains, table, Nodes()`next
      ensures Structure() && Nodes() == old(Nodes()) - {node} && nodecount == old(nodecount) - 1 && node.next == null
      ensures c < old(|chains|) && k < |old(chains)[c]| && old(chains)[c][k] == node
      ensures chains == old(chains)[c := Remove(old(chains)[c], k)]
    {
      hide Structure, Placed, Separate, KeysOk, PowerOfTwo, HKeysOf, Links, Keyed, NodesOf;
      StructureParts();
      ghost var s, hk := Nodes(), HKeysOf(Nodes());
      var chain := node.hkey % (mask + 1);
      PlacedIn(chains, hk, node);
      c := chain;
      k :| 0 <= k < |chains[chain]| && chains[chain][k] == node;
      ChainNodes(chains, chain);
      ChainRemoved(chains, hk, chain, k);
      TakeOut(table, chain, node, chains, k);
      KeyedRemoved(s, node);
      HKeysRemoved(s, node, hk);
      PlacedLess(chains[chain := Remove(chains[chain], k)], hk, node);
      nodecount := nodecount - 1;
      chains := chains[chain := Remove(chains[chain], k)];
      StructureFrom();
    }

    /** clear_table (src/adt/hash.c:122-128), once the table holds no node. */
    method Clear()
      requires Structure() && Nodes() == {}
      modifies this`nodecount, table
      ensures Structure() && nodecount == 0
    {
      hide Structure, Placed, Separate, KeysOk, PowerOfTwo, HKeysOf, Links, Keyed;
      StructureParts();
      NoChains(table, chains);
      nodecount := 0;
      var i := 0;
      while i < nchains
        modifies table
        invariant 0 <= i <= nchains && forall c :: 0 <= c < table.Length ==> table[c] == null
      {
        table[i] := null;
        i := i + 1;
      }
      NoLinks(table, chains);
      StructureFrom();
    }

    lemma KeyedRemoved(s: set<HNode>, node: HNode)
      requires Keyed(s)
      ensures Keyed(s - {node})
    {
    }

    lemma StructureFrom()
      requires |chains| == nchains && PowerOfTwo(nchains) && mask == nchains - 1 && KeysOk(compare, function_)
      requires Separate(chains) && Placed(chains, HKeysOf(Nodes())) && Keyed(Nodes()) && Links(table, chains)
      requires nodecount == |Nodes()| <= maxcount
      ensures Structure()
    {
      hide Separate, Placed, Keyed, KeysOk, Links, HKeysOf, PowerOfTwo;
    }

    // The table's parameters for `n` chains, which hold the same nodes.
    method Install(newtable: array<HNode?>, n: nat, ghost newchains: Chains, ghost visited: nat)
      requires |newchains| == n && PowerOfTwo(n) && nodecount == |Nodes()| <= maxcount && KeysOk(compare, function_)
      requires nchains > 0
      requires Separate(newchains) && NodesOf(newchains) == Nodes() && Placed(newchains, HKeysOf(Nodes()))
      requires Keyed(Nodes()) && Links(newtable, newchains)
      requires mask == nchains - 1 && (n == 2 * nchains || nchains == 2 * n)
      modifies this`table, this`mask, this`nchains, this`lowmark, this`highmark, this`chains, this`work
      ensures Structure() && table == newtable && chains == newchains && nchains == n && work == old(work) + visited
      ensures n == 2 * old(nchains) ==> lowmark == 2 * old(lowmark) && highmark == 2 * old(highmark)
      ensures n != 2 * old(nchains) ==> lowmark == old(lowmark) / 2 && highmark == old(highmark) / 2
    {
      hide Separate, Placed, KeysOk, PowerOfTwo, List, HKeysOf, Keyed, Links, NodesOf;
      table := newtable;
      if n > nchains {
        mask, lowmark, highmark := mask * 2 + 1, lowmark * 2, highmark * 2;
      } else {
        mask, lowmark, highmark := mask / 2, lowmark / 2, highmark / 2;
      }
      nchains := n;
      chains := newchains;
      work := work + visited;
    }

    lemma StructureParts()
      requires Structure()
      ensures |chains| == nchains && PowerOfTwo(nchains) && mask == nchains - 1 && nchains > 0
      ensures KeysOk(compare, function_)
      ensures Separate(chains) && Placed(chains, HKeysOf(Nodes())) && Keyed(Nodes()) && Links(table, chains)
      ensures nodecount == |Nodes()| <= maxcount
      ensures forall x :: x in Nodes() ==> x in HKeysOf(Nodes()) && HKeysOf(Nodes())[x] == x.hkey
    {
      hide Separate, Placed, Keyed, KeysOk, Links;
    }

    lemma InNodes(c: int, i: int)
      requires 0 <= c < |chains| && 0 <= i < |chains[c]|
      ensures chains[c][i] in Nodes()
    {
    }

    // A node with that key is in the chain of the key's hash value.
    lemma NoOther(key: int)
      requires Structure()
      ensures var c := function_(key) % (mask + 1);
        && 0 <= c < nchains == |chains| == table.Length && List(table[c], chains[c])
        && forall n :: n in Nodes() && compare(n.key, key) == 0 ==> n in chains[c] && n.hkey == function_(key)
    {
      hide List, HKeysOf, KeysOk, Separate, Placed, Keyed, PowerOfTwo;
      Sizes();
      forall n | n in Nodes() && compare(n.key, key) == 0
        ensures n in chains[function_(key) % (mask + 1)] && n.hkey == function_(key)
      {
        KeyPlace(n, key);
      }
    }

    lemma KeyPlace(n: HNode, key: int)
      requires Structure() && n in Nodes() && compare(n.key, key) == 0
      ensures n.hkey == function_(key) && 0 <= function_(key) % (mask + 1) < |chains|
      ensures n in chains[function_(key) % (mask + 1)]
    {
      hide KeysOk, PowerOfTwo, Separate, Placed, Links;
      SameHash(compare, function_, n.key, key);
      PlacedIn(chains, HKeysOf(Nodes()), n);
    }

    lemma Sizes()
      requires Structure()
      ensures 0 < nchains == mask + 1 == |chains| == table.Length
    {
      hide Placed, Separate;
    }
  }

  // src/adt/hash.c:567-570.
  method SearchChain(head: HNode?, key: int, hkey: nat, compare: Compare, ghost s: seq<HNode>) returns (r: HNode?)
    requires List(head, s)
    ensures r != null ==> r in s && compare(r.key, key) == 0
    ensures r == null ==> forall i :: 0 <= i < |s| ==> !(s[i].hkey == hkey && compare(s[i].key, key) == 0)
  {
    var nptr := head;
    ghost var k := 0;
    while nptr != null
      invariant 0 <= k <= |s| && nptr == (if k < |s| then s[k] else null)
      invariant forall i :: 0 <= i < k ==> !(s[i].hkey == hkey && compare(s[i].key, key) == 0)
      decreases |s| - k
    {
      if nptr.hkey == hkey && compare(nptr.key, key) == 0 {
        return nptr;
      }
      nptr := nptr.next;
      k := k + 1;
    }
    return null;
  }

  lemma NoChains(table: array<HNode?>, chains: Chains)
    requires Links(table, chains) && NodesOf(chains) == {}
    ensures table.Length == |chains| && forall c :: 0 <= c < |chains| ==> chains[c] == [] && table[c] == null
  {
    assert forall c, i :: 0 <= c < |chains| && 0 <= i < |chains[c]| ==> chains[c][i] in NodesOf(chains);
  }

  lemma NoLinks(table: array<HNode?>, chains: Chains)
    requires table.Length == |chains| && forall c :: 0 <= c < |chains| ==> chains[c] == [] && table[c] == null
    ensures Links(table, chains)
  {
  }

  lemma NodesAllocated(chains: Chains)
    ensures forall n :: n in NodesOf(chains) ==> allocated(n)
  {
  }

  lemma Doubled(n: nat)
    requires PowerOfTwo(n)
    ensures PowerOfTwo(2 * n)
  {
  }

  lemma Halved(n: nat)
    requires PowerOfTwo(n) && n >= 2
    ensures PowerOfTwo(n / 2) && n % 2 == 0 && n == 2 * (n / 2)
  {
  }

  lemma HKeysAdded(s: set<HNode>, hk: map<HNode, nat>, node: HNode)
    requires node !in s && HKeysOf(s) == hk
    ensures HKeysOf(s + {node}) == hk[node := node.hkey]
  {
  }

  lemma HKeysRemoved(s: set<HNode>, node: HNode, hk: map<HNode, nat>)
    requires HKeysOf(s) == hk
    ensures HKeysOf(s - {node}) == hk - {node}
  {
  }

  lemma PlacedLess(chains: Chains, hk: map<HNode, nat>, node: HNode)
    requires Placed(chains, hk) && node !in NodesOf(chains)
    ensures Placed(chains, hk - {node})
  {
    forall c, i | 0 <= c < |chains| && 0 <= i < |chains[c]|
      ensures chains[c][i] in hk - {node}
    {
      assert chains[c][i] in NodesOf(chains);
    }
  }

  lemma Powers()
    ensures PowerOfTwo(INIT_SIZE)
  {
    assert PowerOfTwo(2) && PowerOfTwo(4) && PowerOfTwo(8);
    assert PowerOfTwo(16) && PowerOfTwo(32);
  }
}
