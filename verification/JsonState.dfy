/** The flag word and the nodes that belong to each state of the parser loop (src/json.c:187-733). */
module JsonState {
  import opened BStrings
  import opened JsonGrammar
  import opened JsonMachine
  import opened JsonLayout
  import opened JsonBuild

  /** The bits of the flag word. */
  datatype Flags = Flags(next: bool, reproc: bool, comma: bool, seek: bool, escaped: bool, string_: bool, colon: bool,
      done: bool,
                         negative: bool, zero: bool, e: bool, gotSign: bool, eNegative: bool)

  const SEEK_VALUE: Flags :=
    Flags(false, false, false, true, false, false, false, false, false, false, false, false, false)

  /** The state that a flag word stands for, given the open containers. */
  ghost predicate FlagsOk(f: Flags, m: Mode) {
    f.done == m.Done? && f.next == m.Finished? && (m.Done? ||
      (f.string_ == m.InString? && f.seek == m.Seek?
       && (if m.InString? then f.escaped == m.esc else !f.escaped)
       && f.comma == (if m.Seek? || m.InObject? then m.comma else false)
       && f.colon == (if m.Seek? then m.colon else false)
       && (m.InNumber? ==>
         f.negative == m.n.neg && f.zero == m.n.zero && f.e == m.n.e && f.gotSign == m.n.sign
         && f.eNegative == m.n.down)))
  }

  /** The nodes from `from` on are as pass one left them; in pass one there are none. */
  ghost predicate Unused(nodes: seq<Node>, from: int, alloc: int, v: Json, full: bool) {
    if full then
      && alloc == from && 0 <= from <= |nodes| == Size(v) == |Layout(v, NONE, 0, false)|
      && nodes[from..] == Layout(v, NONE, 0, false)[from..] && SizesUpTo(v, from)
    else alloc == from - 1 && |nodes| == from
  }

  ghost predicate AtContainer(nodes: seq<Node>, top: int, alloc: int, stack: seq<Json>, v: Json, full: bool) {
    Built(nodes, stack, v, full) && top == TopOf(stack) && Base(stack) <= |nodes|
    && Unused(nodes, Base(stack), alloc, v, full)
  }

  ghost predicate AtValue(nodes: seq<Node>, top: int, alloc: int, stack: seq<Json>, size: nat, v: Json, full: bool) {
    && Built(nodes, stack, v, full) && top == Base(stack) && Base(stack) + size <= |nodes| && 0 < size
    && Unused(nodes, Base(stack) + size, alloc, v, full)
  }

  // A string value of which `acc` was read; its buffer takes `total` bytes and a terminator.
  ghost predicate StringNode(n: Node, parent: int, acc: seq<Byte>, total: nat, full: bool) {
    && n == Blank(parent, KString).(str := n.str)
    && if full then |n.str| == total + 1 && |acc| <= total && n.str[..|acc|] == acc else n.str == []
  }

  ghost function Total(s: Result<seq<Byte>>): nat { if s.Ok? then |s.value| else 0 }

  // A key of which `acc` was read, at the free part of the key area.
  ghost predicate KeyBytes(n: Node, acc: seq<Byte>) {
    0 <= n.objectMem && n.objectMem + |acc| <= |n.mem| && n.mem[n.objectMem..n.objectMem + |acc|] == acc
  }

  function NumberNode(parent: int, n: Number): Node {
    Blank(parent, if n.double then KDouble else KInteger).(integer := if n.double then 0 else n.mag,
      dbl := n.value)
  }

  /** The locals num_digits, num_fraction and num_e. */
  datatype NumLocals = NumLocals(digits: int, fraction: int, e: int)

  function LocalsOf(n: Number): NumLocals { NumLocals(n.digits, n.fraction, n.power) }

  /** The nodes that belong to a state. */
  ghost predicate Data(t: Text, nodes: seq<Node>, top: int, alloc: int, stringLength: int, num: NumLocals, v: Json,
          full: bool, m: Mode)
    requires Proper(m)
  {
    match m
    case Seek(_, stack, _, _) => AtContainer(nodes, top, alloc, stack, v, full)
    case InObject(_, stack, _) => AtContainer(nodes, top, alloc, stack, v, full)
    case InString(i, stack, acc, esc, key) =>
      && stringLength == |acc|
      && (key ==> AtContainer(nodes, top, alloc, stack, v, full) && (full ==> KeyBytes(nodes[Base(Outer(stack))], acc)))
      && (!key ==> AtValue(nodes, top, alloc, stack, 1, v, full))
      && (!key ==> StringNode(nodes[Base(stack)], TopOf(stack), acc, Total(StringFrom(t, i, acc, esc)), full))
    case InNumber(_, stack, n) =>
      !full && AtValue(nodes, top, alloc, stack, 1, v, full)
      && nodes[Base(stack)] == NumberNode(TopOf(stack), n) && num == LocalsOf(n)
    case Finished(_, stack, c) => AtValue(nodes, top, alloc, stack, Size(c), v, full)
      && nodes[Base(stack)..Base(stack) + Size(c)] == Layout(c, TopOf(stack), Base(stack), full)
    case Done(_, c) => nodes == Layout(c, NONE, 0, full) && (full ==> ObjectsFit(c))
  }

  /** In pass two the outcome is known. */
  ghost predicate Means(t: Text, m: Mode, v: Json)
    requires Proper(m)
  {
    Meaning(t, m).Ok? && Meaning(t, m).value == v
  }

  // The loop terminates: a round moves on, or ends a number before a byte that is looked at again.
  ghost function Rank(m: Mode): nat {
    if m.Seek? && !m.comma then 3 else if m.InNumber? then 2 else if m.Finished? then 1 else 0
  }

  /** new_value, src/json.c:104-156, for a node that pass one has counted. */
  function Prepared(n: Node): Node
    requires 0 <= n.length && 0 <= n.keys
  {
    if n.kind == KArray then n.(values := seq(n.length, _ => 0), length := 0)
    else if n.kind == KObject then
      n.(values := seq(n.length, _ => 0), names := seq(n.length, _ => 0), mem := seq(n.keys, _ => 0),
          keys := 0, objectMem := 0, length := 0)
    else if n.kind == KString then n.(str := seq(n.length + 1, _ => 0), length := 0)
    else n
  }

  // The innermost container can become what the document has in its place.
  ghost predicate BoxHole(v: Json, stack: seq<Json>, b: Json) {
    stack != [] && Hole(v, Outer(stack)).Some? && Extends(b, Hole(v, Outer(stack)).value)
  }

  ghost predicate StringHole(t: Text, v: Json, i: int, stack: seq<Json>, acc: seq<Byte>, esc: bool, key: bool)
    requires 0 <= i
  {
    var s := StringFrom(t, i, acc, esc);
    s.Ok? &&
    if key then stack != [] && Last(stack).Box? && BoxHole(v, stack, WithKey(Last(stack), s.value))
      else Hole(v, stack) == Some(Str(s.value))
  }

  /** What a state says about the place of the coming value in the document. */
  ghost predicate HoleOk(t: Text, m: Mode, v: Json)
    requires Proper(m)
  {
    match m
    case Seek(i, stack, _, _) => stack == [] ||
      (BoxHole(v, stack, Last(stack)) && (!Last(stack).obj ==> Hole(v, Outer(stack)).value.keys == []))
    case InObject(i, stack, _) => BoxHole(v, stack, Last(stack))
        && |Hole(v, Outer(stack)).value.keys| == |Hole(v, Outer(stack)).value.items|
    case InString(i, stack, acc, esc, key) => StringHole(t, v, i, stack, acc, esc, key)
    case InNumber(i, stack, n) => NumberFrom(t, i, n).Ok? && Hole(v, stack) == Some(NumberFrom(t, i, n).value)
    case Finished(i, stack, c) => Hole(v, stack) == Some(c)
    case Done(_, c) => c == v
  }

  // A byte of a string, apart from an escaped character code and what ends the string.
  lemma CharNext(t: Text, m: Mode)
    requires Terminated(t) && Proper(m) && m.InString? && m.i < |t|
    ensures t[m.i] == 0 || |m.acc| > UINT_MAX ==> Meaning(t, m).Fail?
    ensures t[m.i] != 0 && |m.acc| <= UINT_MAX && m.esc && t[m.i] != 117 ==>
      Next(t, m) == Go(InString(m.i + 1, m.stack, m.acc + [Escape(t[m.i])], false, m.key))
    ensures t[m.i] != 0 && |m.acc| <= UINT_MAX && !m.esc && t[m.i] != BACKSLASH && t[m.i] != QUOTE ==>
      Next(t, m) == Go(InString(m.i + 1, m.stack, m.acc + [t[m.i]], false, m.key))
  {
    hide Meaning;
    NextMeaning(t, m);
  }

  // A value that is complete goes to the innermost container, unless that is full.
  lemma FinishedNext(t: Text, m: Mode)
    requires Terminated(t) && Proper(m) && m.Finished? && m.stack != [] && m.i < |t|
    ensures Next(t, m).Reject? <==> |Last(m.stack).items| + 1 > UINT_MAX
    ensures Next(t, m).Reject? ==> Meaning(t, m).Fail?
    ensures !Next(t, m).Reject? ==> Next(t, m).Go?
    ensures Next(t, m).Go? ==>
      var m', last := Next(t, m).m, Last(m.stack);
      && m'.i == m.i && Rank(m') < Rank(m) && Proper(m') && Meaning(t, m') == Meaning(t, m)
      && (if last.obj then m'.InObject? else m'.Seek? && !m'.colon)
      && m'.comma && m'.stack == Outer(m.stack) + [WithItem(last, m.v)]
  {
    hide Meaning;
    NextMeaning(t, m);
  }

  lemma ModeHole(t: Text, m: Mode, v: Json)
    requires Proper(m) && Means(t, m, v)
    ensures HoleOk(t, m, v)
  {
    match m
    case Seek(i, stack, comma, colon) =>
      if stack != [] {
        if Last(stack).obj {
          var r := ColonValue(t, i, colon);
          HoleIs(t, stack, r.value, r.next);
        } else {
          var r := Elements(t, i, Last(stack).items, comma);
          HoleIs(t, Outer(stack), r.value, r.next);
        }
      }
    case InObject(i, stack, comma) =>
      var r := Members(t, i, Last(stack).keys, Last(stack).items, comma);
      HoleIs(t, Outer(stack), r.value, r.next);
    case InString(i, stack, acc, esc, key) =>
      var s := StringFrom(t, i, acc, esc);
      if key {
        var stack' := Outer(stack) + [WithKey(Last(stack), s.value)];
        StackEnd(Outer(stack), WithKey(Last(stack), s.value));
        var r := ColonValue(t, s.next, true);
        HoleIs(t, stack', r.value, r.next);
      } else {
        HoleIs(t, stack, Str(s.value), s.next);
      }
    case InNumber(i, stack, n) =>
      var r := NumberFrom(t, i, n);
      HoleIs(t, stack, r.value, r.next);
    case Finished(i, stack, c) => HoleIs(t, stack, c, i);
    case Done(_, _) =>
  }
}
