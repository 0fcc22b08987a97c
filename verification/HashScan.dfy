/** Scanning a hash table, also while its nodes are deleted (src/adt/hash.c:349-360, 436-506, 649-673). */
module HashScan {
  import opened HashChains
  import opened HashTable

  /** The nodes of a table from node `i` of chain `c` on. */
  ghost function NodesFrom(chains: Chains, c: int, i: int): set<HNode> {
    set d, j | 0 <= d < |chains| && 0 <= j < |chains[d]| && (c < d || (c == d && i <= j)) :: chains[d][j]
  }

  lemma NodesFromStart(chains: Chains)
    ensures NodesFrom(chains, 0, 0) == NodesOf(chains)
  {
  }

  lemma NodesFromEnd(chains: Chains)
    ensures NodesFrom(chains, |chains|, 0) == {}
  {
  }

  lemma NodesFromNode(chains: Chains, c: int, i: int)
    requires Separate(chains) && 0 <= c < |chains| && 0 <= i < |chains[c]|
    ensures chains[c][i] in NodesFrom(chains, c, i)
    ensures NodesFrom(chains, c, i + 1) == NodesFrom(chains, c, i) - {chains[c][i]}
  {
    forall d, j | 0 <= d < |chains| && 0 <= j < |chains[d]| && (c < d || (c == d && i <= j))
        && chains[d][j] != chains[c][i]
      ensures chains[d][j] in NodesFrom(chains, c, i + 1)
    {
      assert c == d ==> i != j;
    }
  }

  lemma NodesFromChain(chains: Chains, c: int, i: int)
    requires 0 <= c < |chains| && |chains[c]| <= i
    ensures NodesFrom(chains, c, i) == NodesFrom(chains, c + 1, 0)
  {
  }

  // Where the node at (c, i) is after the node at (d, k) was removed.
  function Moved(c: int, i: int, d: int, k: int): int { if c == d && k < i then i - 1 else i }

  /** Removing a node that was passed changes nothing of what is still to come. */
  lemma NodesFromRemoved(chains: Chains, c: int, i: int, d: int, k: int)
    requires Separate(chains) && 0 <= d < |chains| && 0 <= k < |chains[d]| && chains[d][k] !in NodesFrom(chains, c, i)
    requires 0 <= i
    ensures NodesFrom(chains[d := Remove(chains[d], k)], c, Moved(c, i, d, k)) == NodesFrom(chains, c, i)
  {
    var s, i' := chains[d := Remove(chains[d], k)], Moved(c, i, d, k);
    RemovedAt(chains, d, k);
    assert !(c < d || (c == d && i <= k));
    forall e, j | 0 <= e < |chains| && 0 <= j < |chains[e]| && (c < e || (c == e && i <= j))
      ensures chains[e][j] in NodesFrom(s, c, i')
    {
      assert chains[e][j] == s[e][if e == d && j > k then j - 1 else j];
    }
  }

  class Scanner {
    const hash: Hash
    var chain: nat
    var next: HNode?
    ghost var index: nat

    ghost predicate On()
      reads this, hash`chains
    {
      next != null ==> chain < |hash.chains| && index < |hash.chains[chain]| && next == hash.chains[chain][index]
    }

    /** The nodes that the scan has not returned. */
    ghost function Pending(): set<HNode>
      reads this, hash`chains
    {
      if next == null then {} else NodesFrom(hash.chains, chain, index)
    }

    /** hash_scan_begin, src/adt/hash.c:436-454. */
    constructor (hash: Hash)
      requires hash.Structure()
      ensures this.hash == hash && On() && Pending() == hash.Nodes()
    {
      this.hash := hash;
      chain, next, index := 0, null, 0;
      new;
      NodesFromStart(hash.chains);
      Seek(0);
    }

    // src/adt/hash.c:445-453 and 495-502: on to the first node of the next chain that has one.
    method Seek(from: nat)
      requires hash.Structure() && from <= |hash.chains|
      modifies this
      ensures On() && Pending() == NodesFrom(hash.chains, from, 0)
    {
      hide Hash.Structure, NodesFrom, Separate;
      Parts();
      var c := from;
      while c < hash.nchains && hash.table[c] == null
        invariant from <= c <= hash.nchains && NodesFrom(hash.chains, c, 0) == NodesFrom(hash.chains, from, 0)
      {
        assert List(hash.table[c], hash.chains[c]);
        NodesFromChain(hash.chains, c, 0);
        c := c + 1;
      }
      if c < hash.nchains {
        assert List(hash.table[c], hash.chains[c]);
        chain, next, index := c, hash.table[c], 0;
      } else {
        NodesFromEnd(hash.chains);
        next := null;
      }
    }

    lemma Parts()
      requires hash.Structure()
      ensures hash.nchains == |hash.chains| == hash.table.Length && Separate(hash.chains)
      ensures forall c :: 0 <= c < |hash.chains| ==> List(hash.table[c], hash.chains[c])
    {
      hide Separate, Placed;
    }

    /** hash_scan_next, src/adt/hash.c:482-506. */
    method Next() returns (r: HNode?)
      requires hash.Structure() && On()
      modifies this
      ensures On() && (r == null <==> old(Pending()) == {})
      ensures r != null ==> r in old(Pending()) && Pending() == old(Pending()) - {r} && r in hash.Nodes()
      ensures r == null ==> Pending() == {}
    {
      hide Hash.Structure, NodesFrom, Separate;
      Parts();
      r := next;
      if r != null {
        ghost var c, i := chain, index;
        assert List(hash.table[c], hash.chains[c]);
        NodesFromNode(hash.chains, c, i);
        if r.next != null {
          next := r.next;
          index := index + 1;
        } else {
          NodesFromChain(hash.chains, c, i + 1);
          Seek(chain + 1);
        }
      }
    }

    /** hash_scan_delete of a node that the scan has returned. */
    method Delete(node: HNode)
      requires hash.Structure() && On() && node in hash.Nodes() - Pending()
      modifies this`index, hash`nodecount, hash`chains, hash.table, hash.Nodes()`next
      ensures hash.Structure() && On() && Pending() == old(Pending()) && hash.Nodes() == old(hash.Nodes()) - {node}
      ensures node.next == null
    {
      hide Hash.Structure, NodesFrom, Separate, NodesOf, List;
      Parts();
      ghost var chains := hash.chains;
      ghost var c, k := hash.TakeNode(node);
      if next != null {
        NodesFromRemoved(chains, chain, index, c, k);
        Behind(chains, chain, index, c, k);
        index := Moved(chain, index, c, k);
      }
    }

    static lemma Behind(chains: Chains, c: int, i: int, d: int, k: int)
      requires Separate(chains) && 0 <= d < |chains| && 0 <= k < |chains[d]| && chains[d][k] !in NodesFrom(chains, c, i)
      requires 0 <= c < |chains| && 0 <= i < |chains[c]|
      ensures var s, j := chains[d := Remove(chains[d], k)], Moved(c, i, d, k);
        0 <= j < |s[c]| && s[c][j] == chains[c][i]
    {
      assert !(c < d || (c == d && i <= k));
    }
  }

  lemma NoneFreed()
    ensures NoRepeat([]) && Members([]) == {}
  {
  }

  lemma OneMoreFreed(freed: seq<HNode>, node: HNode)
    requires NoRepeat(freed) && node !in Members(freed)
    ensures NoRepeat(freed + [node]) && Members(freed + [node]) == Members(freed) + {node}
  {
  }

  /** hash_free_nodes, src/adt/hash.c:349-360: the nodes leave the table one by one, each once. */
  method FreeNodes(hash: Hash) returns (freed: seq<HNode>)
    requires hash.Structure()
    modifies hash, hash.table, hash.Nodes()`next
    ensures hash.Structure() && hash.Nodes() == {} && hash.nodecount == 0
    ensures NoRepeat(freed) && Members(freed) == old(hash.Nodes())
  {
    hide Hash.Structure, NodesFrom, NodesOf, Separate, Scanner.On, Scanner.Pending, NoRepeat, Members;
    NodesAllocated(hash.chains);
    freed := [];
    NoneFreed();
    var scan := new Scanner(hash);
    var node := scan.Next();
    while node != null
      modifies scan, hash`nodecount, hash`chains, hash.table, hash.Nodes()`next
      invariant hash.Structure() && scan.On() && scan.hash == hash
      invariant node != null ==> node in hash.Nodes() && scan.Pending() == hash.Nodes() - {node}
      invariant node == null ==> hash.Nodes() == {}
      invariant NoRepeat(freed) && Members(freed) + hash.Nodes() == old(hash.Nodes()) && Members(freed) !! hash.Nodes()
      decreases hash.Nodes()
    {
      scan.Delete(node);
      OneMoreFreed(freed, node);
      freed := freed + [node];
      node := scan.Next();
    }
    hash.Clear();
  }
}
