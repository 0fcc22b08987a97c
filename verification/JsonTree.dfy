/** The finished tree: what reading it through its pointers gives, and how it is freed. */
module JsonTree {
  import opened BStrings
  import opened JsonGrammar
  import opened JsonMachine
  import opened JsonLayout
  import opened JsonBuild

  /** Objects have a value for each key. */
  ghost predicate Shaped(v: Json) {
    v.Box? ==>
      (if v.obj then |v.keys| == |v.items| else v.keys == []) && forall k :: 0 <= k < |v.items| ==> Shaped(v.items[k])
  }

  lemma {:induction false} ValueShaped(t: Text, i: int)
    requires 0 <= i && Value(t, i).Ok?
    ensures Shaped(Value(t, i).value)
    decreases |t| - i, 1
  {
    if IsSpace(t[i]) {
      ValueShaped(t, i + 1);
    } else if t[i] == 123 {
      MembersShaped(t, i + 1, [], [], false);
    } else if t[i] == 91 {
      ElementsShaped(t, i + 1, [], false);
    } else {
      LeafShaped(t, i);
    }
  }

  lemma LeafShaped(t: Text, i: int)
    requires 0 <= i < |t| && !IsSpace(t[i]) && t[i] != 123 && t[i] != 91 && Value(t, i).Ok?
    ensures !Value(t, i).value.Box?
  {
    if t[i] == MINUS {
      NumberShaped(t, i + 1, START.(neg := true));
    } else if IsDigit(t[i]) {
      NumberShaped(t, i + 1, NumNext(START, t[i]).n);
    }
  }

  lemma {:induction false} NumberShaped(t: Text, i: int, n: Number)
    requires 0 <= i && NumberFrom(t, i, n).Ok?
    ensures !NumberFrom(t, i, n).value.Box?
    decreases |t| - i
  {
    match NumNext(n, t[i])
    case More(m) => NumberShaped(t, i + 1, m);
    case _ =>
  }

  lemma {:induction false} ElementsShaped(t: Text, i: int, items: seq<Json>, comma: bool)
    requires 0 <= i && Elements(t, i, items, comma).Ok? && forall k :: 0 <= k < |items| ==> Shaped(items[k])
    ensures Shaped(Elements(t, i, items, comma).value)
    decreases |t| - i, 2
  {
    if IsSpace(t[i]) {
      ElementsShaped(t, i + 1, items, comma);
    } else if t[i] == 93 {
    } else if comma {
      ElementsShaped(t, i + 1, items, false);
    } else {
      ValueShaped(t, i);
      var v := Value(t, i);
      ElementsShaped(t, v.next, items + [v.value], true);
    }
  }

  lemma {:induction false} MembersShaped(t: Text, i: int, keys: seq<seq<Byte>>, items: seq<Json>, comma: bool)
    requires 0 <= i && |keys| == |items| && Members(t, i, keys, items, comma).Ok?
    requires forall k :: 0 <= k < |items| ==> Shaped(items[k])
    ensures Shaped(Members(t, i, keys, items, comma).value)
    decreases |t| - i, 2
  {
    if IsSpace(t[i]) {
      MembersShaped(t, i + 1, keys, items, comma);
    } else if t[i] == 125 {
    } else if t[i] == COMMA && comma {
      MembersShaped(t, i + 1, keys, items, false);
    } else {
      var s := StringFrom(t, i + 1, [], false);
      var v := ColonValue(t, s.next, true);
      ColonShaped(t, s.next, true);
      MembersShaped(t, v.next, keys + [s.value], items + [v.value], true);
    }
  }

  lemma {:induction false} ColonShaped(t: Text, i: int, colon: bool)
    requires 0 <= i && ColonValue(t, i, colon).Ok?
    ensures Shaped(ColonValue(t, i, colon).value)
    decreases |t| - i, 2
  {
    if IsSpace(t[i]) {
      ColonShaped(t, i + 1, colon);
    } else if colon {
      ColonShaped(t, i + 1, false);
    } else {
      ValueShaped(t, i);
    }
  }

  /** The bytes up to the next NUL. */
  function CString(mem: seq<Byte>, at: int): seq<Byte>
    requires 0 <= at
    decreases |mem| - at
  {
    if at >= |mem| || mem[at] == 0 then [] else [mem[at]] + CString(mem, at + 1)
  }

  /** The value that a node stands for, read through the pointers. */
  function ReadBack(nodes: seq<Node>, at: int): Json
    requires 0 <= at < |nodes|
    decreases |nodes| - at, 1, 0
  {
    var n := nodes[at];
    match n.kind
    case KNull => Null
    case KBoolean => Bool(n.boolean)
    case KInteger => Int(n.integer)
    case KDouble => Double(n.dbl)
    case KString => Str(if 0 <= n.length <= |n.str| then n.str[..n.length] else [])
    case KArray => Box(false, [], ReadValues(nodes, at, n.length))
    case KObject => Box(true, ReadNames(n, n.length), ReadValues(nodes, at, n.length))
  }

  function ReadValues(nodes: seq<Node>, at: int, k: int): seq<Json>
    requires 0 <= at < |nodes|
    decreases |nodes| - at, 0, k
  {
    if k <= 0 || k > |nodes[at].values| then [] else
      var c := nodes[at].values[k - 1];
      ReadValues(nodes, at, k - 1) + [if at < c < |nodes| then ReadBack(nodes, c) else Null]
  }

  function ReadNames(n: Node, k: int): seq<seq<Byte>>
    decreases k
  {
    if k <= 0 || k > |n.names| then []
      else ReadNames(n, k - 1) + [if n.names[k - 1] >= 0 then CString(n.mem, n.names[k - 1]) else []]
  }

  ghost predicate NulFree(v: Json) {
    v.Box? ==> (forall k, b :: 0 <= k < |v.keys| && b in v.keys[k] ==> b != 0) && forall k :: 0 <= k < |v.items| ==>
      NulFree(v.items[k])
  }

  lemma {:induction false} CStringAt(mem: seq<Byte>, at: int, s: seq<Byte>)
    requires 0 <= at && at + |s| < |mem| && mem[at..at + |s|] == s && mem[at + |s|] == 0
    requires forall b :: b in s ==> b != 0
    ensures CString(mem, at) == s
    decreases |s|
  {
    if s != [] {
      assert mem[at] == mem[at..at + |s|][0] == s[0] && s[0] in s;
      assert mem[at + 1..at + |s|] == s[1..] by { assert mem[at + 1..at + |s|] == mem[at..at + |s|][1..]; }
      assert forall b :: b in s[1..] ==> b in s;
      CStringAt(mem, at + 1, s[1..]);
    }
  }

  // A key and its terminator in the key area.
  lemma {:induction false} KeyAt(keys: seq<seq<Byte>>, k: nat)
    requires k < |keys|
    ensures |KeyOffsets(keys)| == |keys|
    ensures var o, m := KeyOffsets(keys)[k], KeyArea(keys);
      0 <= o && o + |keys[k]| < |m| && m[o..o + |keys[k]|] == keys[k] && m[o + |keys[k]|] == 0
    decreases |keys|
  {
    var rest := keys[..|keys| - 1];
    KeyOffsetsSize(keys);
    KeyOffsetsSize(rest);
    if k < |rest| {
      KeyAt(rest, k);
      var o := KeyOffsets(rest)[k];
      SliceLeft(KeyArea(rest), keys[|rest|] + [0], o, o + |keys[k]|);
      Associates(KeyArea(rest), keys[|rest|], [0]);
    } else {
      var o := |KeyArea(rest)|;
      assert KeyArea(keys)[o..o + |keys[k]|] == keys[k];
    }
  }

  lemma {:induction false} NamesRead(n: Node, keys: seq<seq<Byte>>, k: nat)
    requires k <= |keys| && n.names == KeyOffsets(keys) && n.mem == KeyArea(keys)
    requires forall j, b :: 0 <= j < |keys| && b in keys[j] ==> b != 0
    ensures ReadNames(n, k) == keys[..k]
  {
    KeyOffsetsSize(keys);
    if k > 0 {
      NamesRead(n, keys, k - 1);
      KeyAt(keys, k - 1);
      CStringAt(n.mem, n.names[k - 1], keys[k - 1]);
      assert keys[..k] == keys[..k - 1] + [keys[k - 1]];
    }
  }

  lemma SizeAllGrows(items: seq<Json>, k: nat)
    requires k < |items|
    ensures 0 <= SizeAll(items[..k]) && 1 <= Size(items[k])
  {
  }

  /** Reading the nodes of a value gives the value. */
  lemma {:induction false} ReadLayout(nodes: seq<Node>, v: Json, parent: int, at: int)
    requires Shaped(v) && NulFree(v) && 0 <= at && at + Size(v) <= |nodes|
    requires nodes[at..at + Size(v)] == Layout(v, parent, at, true)
    ensures at < |nodes| && ReadBack(nodes, at) == v
    decreases v, 1
  {
    LayoutSize(v, parent, at, true);
    assert nodes[at] == nodes[at..at + Size(v)][0];
    if v.Box? {
      ReadBox(nodes, v, parent, at);
    } else if v.Str? {
      assert (v.s + [0])[..|v.s|] == v.s;
    }
  }

  lemma {:induction false} ReadBox(nodes: seq<Node>, v: Json, parent: int, at: int)
    requires v.Box? && Shaped(v) && NulFree(v) && 0 <= at && at + Size(v) <= |nodes|
    requires nodes[at..at + Size(v)] == Layout(v, parent, at, true) && nodes[at] == Head(v, parent, at, true)
    ensures ReadBack(nodes, at) == v
    decreases v, 0
  {
    var keys, items := v.keys, v.items;
    BoxLayout(v, parent, at, true);
    SliceSlice(nodes, at, at + Size(v), 1, Size(v));
    assert Layout(v, parent, at, true)[1..Size(v)] == Layout(v, parent, at, true)[1..];
    hide Layout, LayoutAll, Size, SizeAll;
    ReadItems(nodes, items, at, |items|);
    assert items[..|items|] == items && keys[..|keys|] == keys;
    if v.obj { NamesRead(nodes[at], keys, |keys|); }
  }

  lemma {:induction false} ReadItems(nodes: seq<Node>, items: seq<Json>, at: int, k: nat)
    requires k <= |items| && 0 <= at && at + 1 + SizeAll(items) <= |nodes|
    requires nodes[at].values == ChildIndices(items, at + 1)
    requires nodes[at + 1..at + 1 + SizeAll(items)] == LayoutAll(items, at, at + 1, true)
    requires forall j :: 0 <= j < |items| ==> Shaped(items[j]) && NulFree(items[j])
    ensures ReadValues(nodes, at, k) == items[..k]
    decreases items, 0, k
  {
    hide Layout, LayoutAll, Size, SizeAll, ChildIndices, ReadBack, Shaped, NulFree;
    ChildIndicesSize(items, at + 1);
    if k > 0 {
      ReadItems(nodes, items, at, k - 1);
      ChildIndex(items, at + 1, k - 1);
      ChildSlice(nodes, items, k - 1, at, at + 1, true);
      SizeAllGrows(items, k - 1);
      ReadLayout(nodes, items[k - 1], at, at + 1 + SizeAll(items[..k - 1]));
      assert items[..k] == items[..k - 1] + [items[k - 1]];
    }
  }

  /** The tree that pass two leaves holds exactly the document. */
  lemma TreeIsDocument(t: Text, nodes: seq<Node>)
    requires Document(t).Ok? && NulFree(Document(t).value) && nodes == Layout(Document(t).value, NONE, 0, true)
    ensures |nodes| > 0 && ReadBack(nodes, 0) == Document(t).value
  {
    var v := Document(t).value;
    ValueShaped(t, 0);
    LayoutSize(v, NONE, 0, true);
    assert nodes[0..Size(v)] == nodes;
    ReadLayout(nodes, v, NONE, 0);
  }
}
