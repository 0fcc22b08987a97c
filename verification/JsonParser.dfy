/** The parser loop, run twice over the text (json_parse_ex, src/json.c:193-738). */
module JsonParser {
  import opened BStrings
  import opened JsonDecimals
  import opened JsonGrammar
  import opened JsonMachine
  import opened JsonLayout
  import opened JsonBuild
  import opened JsonState
  import opened JsonSteps
  import opened JsonBits

  // What an escaped byte stands for (src/json.c:261-268, 310-311).
  function Escaped(b: Byte): (r: Byte)
    ensures r == Escape(b)
  {
    match b
    case 98 => 8
    case 102 => 12
    case 110 => 10
    case 114 => 13
    case 116 => 9
    case _ => b
  }

  ghost function Measure(t: Text, m: Mode): int { 4 * (|t| - m.i) + Rank(m) }

  class Parser {
    const json: Text
    var firstPass: bool
    var nodes: seq<Node>
    var i: int
    var top: int
    var root: int
    var alloc: int
    var flags: Flags
    var stringLength: int
    var num: NumLocals
    ghost var mode: Mode
    ghost var doc: Json

    constructor (json: Text)
      ensures this.json == json && nodes == [] && alloc == NONE
    {
      this.json := json;
      firstPass, nodes, i, top, root, alloc := true, [], 0, NONE, NONE, NONE;
      flags, stringLength, num := SEEK_VALUE, 0, NumLocals(0, 0, 0);
      mode, doc := Seek(0, [], false, false), Null;
    }

    /** The fields stand for the state `m`; in pass two its outcome is `doc`. */
    ghost predicate Holds(m: Mode)
      reads this
    {
      && Terminated(json) && Proper(m) && m.i < |json| && FlagsOk(flags, m)
      && Data(json, nodes, top, alloc, stringLength, num, doc, !firstPass, m)
      && (!firstPass ==> Means(json, m, doc))
      && (m.Seek? && m.stack == [] ==> !Bracketed(json, m.i))
      && root == if m.Seek? && m.stack == [] then NONE else 0
    }

    // The state is reached once a byte to be looked at again was put back, and `i` has moved on.
    ghost predicate Lands()
      reads this
    {
      mode.i == (if flags.reproc then i - 1 else i) + 1
    }

    // From the state `m` the loop has moved on, and the text still denotes the same.
    ghost predicate Reached(m: Mode)
      requires Proper(m)
      reads this
    {
      Holds(mode) && Lands() && Meaning(json, mode) == Meaning(json, m) && Measure(json, mode) < Measure(json, m)
    }

    // A value is complete.
    lemma ReachedFinished(m: Mode)
      requires Proper(m) && Terminated(json) && mode.Finished? && Ready(mode.stack) && 0 <= mode.i < |json| && Lands()
      requires root == 0
      requires flags.next && !flags.done && !flags.string_ && !flags.seek && !flags.escaped && !flags.comma
      requires !flags.colon
      requires AtValue(nodes, top, alloc, mode.stack, Size(mode.v), doc, !firstPass)
      requires nodes[Base(mode.stack)..Base(mode.stack) + Size(mode.v)] ==
        Layout(mode.v, TopOf(mode.stack), Base(mode.stack), !firstPass)
      requires Meaning(json, mode) == Meaning(json, m) && (!firstPass ==> Means(json, m, doc))
      requires Measure(json, mode) < Measure(json, m)
      ensures Reached(m)
    {
      hide Meaning, AtValue, Layout;
    }

    // The innermost container waits for what comes next.
    lemma ReachedContainer(m: Mode)
      requires Proper(m) && Terminated(json) && (mode.Seek? || mode.InObject?) && mode.stack != [] && Proper(mode)
      requires mode.i < |json| && Lands()
      requires !flags.next && !flags.done && !flags.string_ && !flags.escaped && flags.seek == mode.Seek?
      requires flags.comma == mode.comma
      requires (if mode.Seek? then flags.colon == mode.colon else !flags.colon) && root == 0
      requires AtContainer(nodes, top, alloc, mode.stack, doc, !firstPass)
      requires Meaning(json, mode) == Meaning(json, m) && (!firstPass ==> Means(json, m, doc))
      requires Measure(json, mode) < Measure(json, m)
      ensures Reached(m)
    {
      hide Meaning, AtContainer;
    }

    // A number goes on.
    lemma ReachedNumber(m: Mode)
      requires Proper(m) && Terminated(json) && firstPass && mode.InNumber? && Proper(mode) && mode.i < |json|
      requires Lands() && root == 0
      requires !flags.next && !flags.done && !flags.string_ && !flags.seek && !flags.escaped && !flags.comma
      requires !flags.colon
      requires flags.negative == mode.n.neg && flags.zero == mode.n.zero && flags.e == mode.n.e
      requires flags.gotSign == mode.n.sign && flags.eNegative == mode.n.down
      requires AtValue(nodes, top, alloc, mode.stack, 1, doc, false) && num == LocalsOf(mode.n)
      requires nodes[Base(mode.stack)] == NumberNode(TopOf(mode.stack), mode.n)
      requires Meaning(json, mode) == Meaning(json, m) && Measure(json, mode) < Measure(json, m)
      ensures Reached(m)
    {
      hide Meaning, AtValue, NumberNode;
    }

    lemma NumberView()
      requires Holds(mode) && mode.InNumber?
      ensures firstPass && AtValue(nodes, top, alloc, mode.stack, 1, doc, false)
      ensures nodes[Base(mode.stack)] == NumberNode(TopOf(mode.stack), mode.n)
      ensures num == LocalsOf(mode.n) && mode.n.neg == flags.negative && mode.n.zero == flags.zero
      ensures mode.n.e == flags.e && mode.n.sign == flags.gotSign && mode.n.down == flags.eNegative
      ensures !mode.n.double ==> mode.n.value == 0.0
      ensures !flags.next && !flags.done && !flags.string_ && !flags.seek && !flags.escaped && !flags.comma
      ensures !flags.colon && root == 0
      ensures Proper(mode) && Ready(mode.stack) && Terminated(json) && 0 <= mode.i < |json|
      ensures (mode.n.e ==> mode.n.double)
    {
      hide Meaning, AtValue, NumberNode;
    }

    // A string of `total` bytes of which `acc` was read: a value, or a key of the innermost object.
    ghost predicate StringData(stack: seq<Json>, acc: seq<Byte>, key: bool, total: nat)
      reads `stringLength, `nodes, `top, `alloc, `doc, `firstPass
    {
      && stringLength == |acc|
      && (key ==> AtKey(stack) && AtContainer(nodes, top, alloc, stack, doc, !firstPass))
      && (key ==> 0 <= top < |nodes| && nodes[top].kind != KString)
      && (key && !firstPass ==> BoxHole(doc, stack, Last(stack)) && KeyBytes(nodes[top], acc))
      && (key && !firstPass ==> nodes[top].objectMem + total + 1 <= |nodes[top].mem|)
      && (!key ==> AtValue(nodes, top, alloc, stack, 1, doc, !firstPass))
      && (!key ==> StringNode(nodes[Base(stack)], TopOf(stack), acc, total, !firstPass))
    }

    /** string_add, src/json.c:184-185. */
    method StringAdd(b: Byte, ghost stack: seq<Json>, ghost acc: seq<Byte>, ghost key: bool, ghost total: nat)
      requires StringData(stack, acc, key, total) && (!firstPass ==> |acc| < total)
      modifies this`nodes, this`stringLength
      ensures StringData(stack, acc + [b], key, total)
    {
      hide Built, Unused, TopOf, Hole;
      if !firstPass {
        ghost var nodes0 := nodes;
        nodes := nodes[top := WithByte(nodes[top], stringLength, b, nodes[top].kind != KString)];
        if key {
          KeyByteAdded(nodes0, nodes, top, alloc, stack, acc, b, doc);
        } else {
          StringByteAdded(nodes0[top], TopOf(stack), acc, b, total);
          LeafChanged(nodes0, nodes, top, alloc, stack, doc, true);
        }
      }
      stringLength := stringLength + 1;
    }

    // The string that is being read, of its final length in pass two.
    ghost function StringTotal(m: Mode): nat
      requires m.InString? && 0 <= m.i
    {
      Total(StringFrom(json, m.i, m.acc, m.esc))
    }

    lemma StringView(m: Mode)
      requires Holds(m) && m.InString?
      ensures StringData(m.stack, m.acc, m.key, StringTotal(m))
      ensures !firstPass ==> StringFrom(json, m.i, m.acc, m.esc).Ok? && |m.acc| <= StringTotal(m)
      ensures !firstPass && m.key ==>
        BoxHole(doc, m.stack, WithKey(Last(m.stack), StringFrom(json, m.i, m.acc, m.esc).value))
      ensures stringLength == |m.acc| && 0 <= top < |nodes| && (nodes[top].kind == KString <==> !m.key)
      ensures !firstPass && m.key ==> 0 <= nodes[top].length < |nodes[top].names|
    {
      hide Meaning, Built, Hole, Unused;
      if !firstPass {
        ModeHole(json, m, doc);
        hide Means;
      }
      if m.key {
        TopKind(nodes, m.stack, doc, !firstPass);
        if !firstPass {
          KeyRoom(nodes, m.stack, StringFrom(json, m.i, m.acc, m.esc).value, doc);
          assert BoxHole(doc, m.stack, Last(m.stack));
        }
      }
    }

    lemma StringHolds(m: Mode)
      requires Terminated(json) && Proper(m) && m.InString? && m.i < |json| && FlagsOk(flags, m)
      requires (!firstPass ==> Means(json, m, doc)) && root == 0
      requires !firstPass ==> StringFrom(json, m.i, m.acc, m.esc).Ok?
      requires StringData(m.stack, m.acc, m.key, StringTotal(m))
      ensures Holds(m)
    {
      hide Meaning, Built, Unused;
    }

    // A string is being read, whatever flag_escaped says.
    ghost predicate Reading()
      reads this
    {
      && Terminated(json) && mode.InString? && Proper(mode) && i == mode.i < |json| && !flags.reproc && root == 0
      && FlagsOk(flags.(escaped := mode.esc), mode) && (!firstPass ==> Means(json, mode, doc))
      && StringData(mode.stack, mode.acc, mode.key, StringTotal(mode))
    }

    lemma ReadingView()
      requires Holds(mode) && mode.InString? && i == mode.i && !flags.reproc
      ensures Reading() && Terminated(json) && Proper(mode) && 0 <= mode.i < |json|
      ensures flags.escaped == mode.esc && stringLength == |mode.acc|
    {
      hide Meaning, Data, StringData, StringFrom;
      StringView(mode);
    }

    method Unescape()
      requires Reading()
      modifies this`flags
      ensures Reading() && flags == old(flags).(escaped := false)
    {
      hide Meaning, StringData, StringFrom, Proper;
      flags := flags.(escaped := false);
    }

    // The byte after a backslash.
    method StringEscaped(b: Byte) returns (ok: bool)
      requires Reading() && mode.esc && b == json[i] != 0 && |mode.acc| <= UINT_MAX
      modifies this`nodes, this`i, this`flags, this`stringLength, this`mode
      ensures ok ==> Reached(old(mode))
      ensures !ok ==> Meaning(json, old(mode)).Fail?
    {
      hide Meaning, Data, StringData, StringFrom, Reached, FlagsOk, Means, Next;
      CharNext(json, mode);
      Unescape();
      if b == 117 {
        ok := StringCode();
      } else {
        ok := true;
        StringPlain(Escaped(b));
      }
    }

    // A backslash.
    method StringEscape()
      requires Reading() && !mode.esc && json[i] == BACKSLASH && |mode.acc| <= UINT_MAX
      modifies this`flags, this`mode
      ensures Reached(old(mode))
    {
      hide Meaning, Data, StringData;
      ghost var m := mode;
      NextMeaning(json, m);
      flags := flags.(escaped := true);
      StringNext(json, m, doc, !firstPass);
      mode := Next(json, m).m;
      StringHolds(mode);
    }

    /** A byte within a string (src/json.c:247-364). */
    method StringByte(b: Byte) returns (ok: bool)
      requires Holds(mode) && mode.InString? && i == mode.i && b == json[i] && !flags.reproc
      modifies this`nodes, this`i, this`flags, this`stringLength, this`mode
      ensures ok ==> Reached(old(mode))
      ensures !ok ==> Meaning(json, old(mode)).Fail?
    {
      hide Meaning, Data, StringData, StringFrom, Holds, Reached, Reading, FlagsOk, Means, Proper, Next;
      ReadingView();
      CharNext(json, mode);
      if b == 0 || stringLength > UINT_MAX {
        return false;
      }
      if flags.escaped {
        ok := StringEscaped(b);
      } else if b == BACKSLASH {
        StringEscape();
        ok := true;
      } else if b == QUOTE {
        StringEnd();
        ok := true;
      } else {
        StringPlain(b);
        ok := true;
      }
    }

    // A byte of the string itself.
    method StringPlain(b: Byte)
      requires Reading() && !flags.escaped
      requires Next(json, mode) == Go(InString(i + 1, mode.stack, mode.acc + [b], false, mode.key))
      modifies this`nodes, this`stringLength, this`mode
      ensures Reached(old(mode))
    {
      hide Meaning, Data, StringData, Next;
      ghost var m, total := mode, StringTotal(mode);
      NextMeaning(json, m);
      StringNext(json, m, doc, !firstPass);
      mode := Next(json, m).m;
      StringAdd(b, m.stack, m.acc, m.key, total);
      StringHolds(mode);
    }

    method StringCode() returns (ok: bool)
      requires Reading() && !flags.escaped && mode.esc && json[i] == 117 && |mode.acc| <= UINT_MAX
      modifies this`nodes, this`i, this`stringLength, this`mode
      ensures ok ==> Reached(old(mode))
      ensures !ok ==> Meaning(json, old(mode)).Fail?
    {
      hide Meaning, Data, StringData;
      ghost var m, total := mode, StringTotal(mode);
      NextMeaning(json, m);
      var b1, b2;
      ok, b1, b2 := ReadHex();
      if ok {
        StringNext(json, m, doc, !firstPass);
        mode := Next(json, m).m;
        AddCode(b1, b2, m.stack, m.acc, m.key, total);
        StringHolds(mode);
      }
    }

    // Four digits, read as long as they are digits (src/json.c:270-278).
    method ReadHex() returns (ok: bool, b1: int, b2: int)
      requires Terminated(json) && 0 <= i < |json| && json[i] == 117
      modifies this`i
      ensures ok <==> HexWord(json, old(i) + 1).Ok?
      ensures ok ==>
        i == old(i) + 4 && 0 <= b1 < 256 && 0 <= b2 < 256 && HexWord(json, old(i) + 1) == Ok(b1 * 256 + b2, i + 1)
    {
      b1, b2 := 0, 0;
      i := i + 1;
      var d1 := HexValue(json[i]);
      if d1 == 0xFF { return false, 0, 0; }
      i := i + 1;
      var d2 := HexValue(json[i]);
      if d2 == 0xFF { return false, 0, 0; }
      i := i + 1;
      var d3 := HexValue(json[i]);
      if d3 == 0xFF { return false, 0, 0; }
      i := i + 1;
      var d4 := HexValue(json[i]);
      if d4 == 0xFF { return false, 0, 0; }
      return true, d1 * 16 + d2, d3 * 16 + d4;
    }

    // The code in UTF-8 (src/json.c:280-308).
    method AddCode(b1: int, b2: int, ghost stack: seq<Json>, ghost acc: seq<Byte>, ghost key: bool, ghost total: nat)
      requires 0 <= b1 < 256 && 0 <= b2 < 256
      requires StringData(stack, acc, key, total) && (!firstPass ==> |acc + Utf8(b1 * 256 + b2)| <= total)
      modifies this`nodes, this`stringLength
      ensures StringData(stack, acc + Utf8(b1 * 256 + b2), key, total)
    {
      hide StringData, Utf8, Encoded2, Encoded3;
      EncodedUtf8(b1, b2, acc);
      if b1 == 0 && b2 <= 0x7F {
        StringAdd(b2, stack, acc, key, total);
      } else if b1 * 256 + b2 <= 0x7FF {
        var c := Encoded2(b1, b2);
        StringAdd(c.0, stack, acc, key, total);
        StringAdd(c.1, stack, acc + [c.0], key, total);
      } else {
        var c := Encoded3(b1, b2);
        StringAdd(c.0, stack, acc, key, total);
        StringAdd(c.1, stack, acc + [c.0], key, total);
        StringAdd(c.2, stack, acc + [c.0] + [c.1], key, total);
      }
    }

    /** The closing quote (src/json.c:323-358). */
    method StringEnd()
      requires Holds(mode) && mode.InString? && !mode.esc && i == mode.i && json[i] == QUOTE && !flags.reproc
      requires |mode.acc| <= UINT_MAX
      modifies this`nodes, this`flags, this`mode
      ensures Reached(old(mode))
    {
      hide Meaning, StringData, AtValue, AtContainer, StringNode, KeyBytes, BoxHole, Layout;
      ghost var m := mode;
      NextMeaning(json, m);
      StringView(m);
      mode := Next(json, m).m;
      flags := flags.(string_ := false);
      if nodes[top].kind == KString {
        ValueEnd(m.stack, m.acc, StringTotal(m));
        flags := flags.(next := true);
      } else {
        KeyEnd(m.stack, m.acc, StringTotal(m));
        flags := flags.(seek := true, colon := true);
      }
    }

    method ValueEnd(ghost stack: seq<Json>, ghost acc: seq<Byte>, ghost total: nat)
      requires StringData(stack, acc, false, total) && total == |acc|
      modifies this`nodes
      ensures AtValue(nodes, top, alloc, stack, 1, doc, !firstPass) && Size(Str(acc)) == 1
      ensures nodes[Base(stack)..Base(stack) + 1] == Layout(Str(acc), TopOf(stack), Base(stack), !firstPass)
    {
      hide Built, Unused, Layout;
      ghost var n, nodes0 := nodes[top], nodes;
      if !firstPass {
        nodes := nodes[top := WithByte(nodes[top], stringLength, 0, false)];
      }
      nodes := nodes[top := nodes[top].(length := stringLength)];
      StringEnded(n, TopOf(stack), Base(stack), acc, !firstPass);
      LeafChanged(nodes0, nodes, top, alloc, stack, doc, !firstPass);
      LeafDone(nodes, top, alloc, stack, Str(acc), doc, !firstPass);
    }

    method KeyEnd(ghost stack: seq<Json>, ghost acc: seq<Byte>, ghost total: nat)
      requires StringData(stack, acc, true, total) && total == |acc| && 0 <= top < |nodes|
      requires !firstPass ==>
        0 <= nodes[top].length < |nodes[top].names| && BoxHole(doc, stack, WithKey(Last(stack), acc))
      modifies this`nodes
      ensures AtContainer(nodes, top, alloc, Outer(stack) + [WithKey(Last(stack), acc)], doc, !firstPass)
    {
      hide AtContainer, BoxHole;
      ghost var nodes0 := nodes;
      if !firstPass {
        nodes := nodes[top := WithByte(nodes[top], stringLength, 0, true)];
      }
      nodes := nodes[top := WithName(nodes[top], stringLength, !firstPass)];
      KeyEnded(nodes0, nodes, top, alloc, stack, acc, doc, !firstPass);
    }

    // The loop stops at a text that is not accepted, or in pass two at an object whose array would not
    // get the size it needs.
    ghost predicate Stopped(m: Mode)
      requires Proper(m)
      reads `firstPass, `doc
    {
      Meaning(json, m).Fail? || (!firstPass && !ObjectsFit(doc))
    }

    /** new_value, src/json.c:98-175. `c` is the value to come; in pass one only its kind matters. In pass
        two an object's array may get the wrong size: the allocation fails then, or is too small, and the
        model stops. */
    method NewValue(kind: Kind, ghost stack: seq<Json>, ghost c: Json) returns (ok: bool)
      requires AtContainer(nodes, top, alloc, stack, doc, !firstPass) && Ready(stack)
      requires (firstPass ==> KindOfValue(c) == kind)
      requires (!firstPass ==> Hole(doc, stack) == Some(c)) && root == if stack == [] then NONE else 0
      modifies this`nodes, this`top, this`root, this`alloc
      ensures !ok ==> !firstPass && !ObjectsFit(doc) && c.Box?
      ensures ok ==> root == 0 && AtValue(nodes, top, alloc, stack, 1, doc, !firstPass)
      ensures ok ==> 0 <= top == Base(stack) < |nodes|
      ensures ok ==> nodes[Base(stack)] == if !firstPass then Prepared(Head(c, TopOf(stack), Base(stack), false))
        else Blank(TopOf(stack), kind)
    {
      hide Built, Prepared, Unused, Layout, TopOf;
      assert Base([]) == 0;
      ghost var nodes0, alloc0 := nodes, alloc;
      if !firstPass {
        NextUnused(nodes, alloc, stack, doc);
        HeadCounts(c, TopOf(stack), alloc);
        SizesNext(doc, alloc);
        top := alloc;
        alloc := alloc + 1;
        if root == NONE {
          root := top;
        }
        if nodes[top].kind == KObject && ValuesSize(nodes[top].length) != MEMBER_SIZE * nodes[top].length {
          return false;
        }
        nodes := nodes[top := Prepared(nodes[top])];
      } else {
        UnusedCount(nodes, Base(stack), alloc, doc);
        nodes := nodes + [Blank(top, kind)];
        alloc := alloc + 1;
        top := alloc;
        if root == NONE {
          root := top;
        }
      }
      JsonSteps.NewValue(nodes0, nodes, alloc0, stack, c, doc, !firstPass);
      ok := true;
    }

    /** A byte where a value is due (src/json.c:366-518). */
    method SeekByte(b: Byte) returns (ok: bool)
      requires Holds(mode) && mode.Seek? && i == mode.i && b == json[i] && !flags.reproc
      modifies this`nodes, this`i, this`top, this`root, this`alloc, this`flags, this`stringLength, this`num
      modifies this`mode
      ensures ok ==> Reached(old(mode))
      ensures !ok ==> Stopped(old(mode))
    {
      hide Meaning, AtContainer, Holds, Reached, Data, Means, NextStart;
      SeekView();
      NextMeaning(json, mode);
      if IsSpace(b) {
        SeekOn(flags);
        return true;
      }
      if b == 93 {
        ok := CloseArray();
      } else if flags.comma {
        if b != COMMA { return false; }
        SeekOn(flags.(comma := false));
        ok := true;
      } else if flags.colon {
        if b != COLON { return false; }
        SeekOn(flags.(colon := false));
        ok := true;
      } else {
        flags := flags.(seek := false);
        ok := StartValue(b);
      }
    }

    lemma SeekView()
      requires Holds(mode) && mode.Seek? && !flags.reproc
      ensures Terminated(json) && Proper(mode) && Ready(mode.stack) && 0 <= mode.i < |json| && FlagsOk(flags, mode)
      ensures AtContainer(nodes, top, alloc, mode.stack, doc, !firstPass) && (!firstPass ==> Means(json, mode, doc))
      ensures root == (if mode.stack == [] then NONE else 0) && (mode.stack == [] ==> !Bracketed(json, mode.i))
    {
      hide Meaning, AtContainer, Means;
    }

    // White space, a comma or a colon.
    method SeekOn(f: Flags)
      requires Holds(mode) && mode.Seek? && i == mode.i && !flags.reproc && !f.reproc
      requires Next(json, mode).Go? && Next(json, mode).m.Seek? && Next(json, mode).m.stack == mode.stack
      requires Next(json, mode).m.i == i + 1 && FlagsOk(f, Next(json, mode).m)
      requires mode.stack == [] ==> IsSpace(json[i])
      modifies this`flags, this`mode
      ensures Reached(old(mode))
    {
      hide Meaning, AtContainer, Next;
      SeekView();
      NextMeaning(json, mode);
      mode := Next(json, mode).m;
      flags := f;
    }

    // src/json.c:373-382.
    method CloseArray() returns (ok: bool)
      requires Holds(mode) && mode.Seek? && i == mode.i && json[i] == 93 && !flags.reproc
      modifies this`flags, this`mode
      ensures ok ==> Reached(old(mode))
      ensures !ok ==> Meaning(json, old(mode)).Fail?
    {
      hide Meaning, Layout, Holds, Reached, Data, AtValue, Built, Unused, Size;
      ghost var m := mode;
      SeekView();
      NextMeaning(json, m);
      TopKind(nodes, m.stack, doc, !firstPass);
      if nodes[top].kind != KArray {
        return false;
      }
      mode := Next(json, m).m;
      flags := flags.(comma := false, seek := false, next := true);
      if !firstPass {
        ModeHole(json, mode, doc);
      }
      BoxClosed(nodes, top, alloc, m.stack, doc, !firstPass);
      ok := true;
      ReachedFinished(m);
    }

    // A value begins at the byte under `i`; flag_seek_value was cleared.
    ghost predicate Starting()
      reads this
    {
      && Terminated(json) && mode.Seek? && !mode.comma && !mode.colon && Proper(mode) && mode.i == i < |json|
      && FlagsOk(flags.(seek := true), mode) && !flags.seek && !flags.reproc && !IsSpace(json[i]) && json[i] != 93
      && AtContainer(nodes, top, alloc, mode.stack, doc, !firstPass) && (!firstPass ==> Means(json, mode, doc))
      && root == if mode.stack == [] then NONE else 0
    }

    lemma StartView()
      requires Starting()
      ensures Terminated(json) && Proper(mode) && mode.Seek? && !mode.comma && Ready(mode.stack) && mode.i == i
      ensures 0 <= i < |json|
      ensures Next(json, mode) == NextStart(json, i, mode.stack)
      ensures !flags.next && !flags.reproc && !flags.done && !flags.string_ && !flags.seek && !flags.escaped
      ensures !flags.comma && !flags.colon
      ensures AtContainer(nodes, top, alloc, mode.stack, doc, !firstPass) && (!firstPass ==> Means(json, mode, doc))
      ensures root == if mode.stack == [] then NONE else 0
    {
      hide Meaning, NextStart;
    }

    // A string was begun.
    lemma ReachedString(m: Mode)
      requires Proper(m) && Terminated(json) && mode.InString? && Proper(mode) && mode.i < |json| && Lands()
      requires !flags.next && !flags.done && flags.string_ && !flags.seek && flags.escaped == mode.esc && !flags.comma
      requires !flags.colon && root == 0
      requires StringData(mode.stack, mode.acc, mode.key, StringTotal(mode))
      requires (!firstPass ==> StringFrom(json, mode.i, mode.acc, mode.esc).Ok?)
      requires Meaning(json, mode) == Meaning(json, m) && (!firstPass ==> Means(json, m, doc))
      requires Measure(json, mode) < Measure(json, m)
      ensures Reached(m)
    {
      hide Meaning, StringData, Data;
      StringHolds(mode);
    }

    /** src/json.c:410-516. */
    method StartValue(b: Byte) returns (ok: bool)
      requires Starting() && b == json[i]
      modifies this`nodes, this`i, this`top, this`root, this`alloc, this`flags, this`stringLength, this`num
      modifies this`mode
      ensures ok ==> Reached(old(mode))
      ensures !ok ==> Stopped(old(mode))
    {
      hide Meaning, Holds, Reached, Starting, Next, Proper, Measure;
      StartView();
      NextMeaning(json, mode);
      ok := true;
      if b == 123 {
        ok := OpenBox(true);
      } else if b == 91 {
        ok := OpenBox(false);
      } else if b == QUOTE {
        OpenString();
      } else if b == 116 {
        ok := Word(TRUE, Bool(true));
      } else if b == 102 {
        ok := Word(FALSE, Bool(false));
      } else if b == 110 {
        ok := Word(NULL, Null);
      } else if IsDigit(b) || b == MINUS {
        StartNumber(b);
      } else {
        ok := false;
      }
    }

    method OpenBox(obj: bool) returns (ok: bool)
      requires Starting() && Next(json, mode) == Go(if obj then InObject(i + 1, mode.stack + [Box(true, [], [])], false)
        else Seek(i + 1, mode.stack + [Box(false, [], [])], false, false))
      modifies this`nodes, this`top, this`root, this`alloc, this`flags, this`mode
      ensures ok ==> Reached(old(mode))
      ensures !ok ==> !firstPass && !ObjectsFit(doc)
    {
      hide Meaning, AtContainer, AtValue, Prepared, Head, Next, Starting, NextStart, Reached, Holds, Data;
      StartView();
      ghost var m, m' := mode, Next(json, mode).m;
      NextMeaning(json, m);
      StackEnd(m.stack, Box(obj, [], []));
      ghost var c := Box(obj, [], []);
      if !firstPass {
        ModeHole(json, m', doc);
        c := Hole(doc, m.stack).value;
      }
      ok := NewValue(if obj then KObject else KArray, m.stack, c);
      if !ok {
        return;
      }
      flags := flags.(seek := !obj);
      mode := m';
      BoxOpened(nodes, top, alloc, m.stack, obj, c, doc, !firstPass);
      ReachedContainer(m);
    }

    method OpenString()
      requires Starting() && Next(json, mode) == Go(InString(i + 1, mode.stack, [], false, false))
      modifies this`nodes, this`top, this`root, this`alloc, this`flags, this`stringLength, this`mode
      ensures Reached(old(mode))
    {
      hide Meaning, AtContainer, AtValue, Prepared, Head, Next, Starting, NextStart, Reached, Holds, Data;
      hide Blank, Size, Base, TopOf, Built;
      StartView();
      ghost var m, m' := mode, Next(json, mode).m;
      NextMeaning(json, m);
      ghost var s := [];
      if !firstPass {
        ModeHole(json, m', doc);
        s := StringFrom(json, m'.i, [], false).value;
      }
      var ok := NewValue(KString, m.stack, Str(s));
      flags := flags.(string_ := true);
      stringLength := 0;
      mode := m';
      StringStarted(nodes[top], s, TopOf(m.stack), Base(m.stack), !firstPass);
      ReachedString(m);
    }

    // The rest of a word, byte by byte as long as it agrees.
    method Follows(w: seq<Byte>) returns (ok: bool)
      requires Terminated(json) && 0 <= i < |json| && w != [] && json[i] == w[0]
      requires forall k :: 0 <= k < |w| ==> w[k] != 0
      modifies this`i
      ensures ok <==> StartsWith(json, old(i), w)
      ensures ok ==> i == old(i) + |w| - 1 && i + 1 < |json|
    {
      var k := 1;
      ghost var start := i;
      while k < |w|
        invariant 1 <= k <= |w| && i == start + k - 1 && start + k < |json| && json[start..start + k] == w[..k]
      {
        i := i + 1;
        if json[i] != w[k] {
          assert start + |w| <= |json| ==> json[start..start + |w|][k] == json[i];
          return false;
        }
        assert json[start..start + k + 1] == json[start..start + k] + [json[i]];
        k := k + 1;
      }
      return true;
    }

    method Word(w: seq<Byte>, ghost v: Json) returns (ok: bool)
      requires Starting() && w != [] && json[i] == w[0] && forall k :: 0 <= k < |w| ==> w[k] != 0
      requires (w == TRUE && v == Bool(true)) || (w == FALSE && v == Bool(false)) || (w == NULL && v == Null)
      requires Next(json, mode) == if StartsWith(json, i, w) then Go(Finished(i + |w|, mode.stack, v)) else Reject
      modifies this`nodes, this`i, this`top, this`root, this`alloc, this`flags, this`mode
      ensures ok ==> Reached(old(mode))
      ensures !ok ==> Meaning(json, old(mode)).Fail?
    {
      hide Meaning, AtContainer, Next, StartsWith, AtValue, Layout;
      ghost var m := mode;
      NextMeaning(json, m);
      ok := Follows(w);
      if ok {
        ghost var m' := Next(json, m).m;
        assert m' == Finished(m.i + |w|, m.stack, v);
        if !firstPass {
          ModeHole(json, m', doc);
        }
        AddWord(w, m.stack, v);
        flags := flags.(next := true);
        mode := m';
      }
    }

    method AddWord(w: seq<Byte>, ghost stack: seq<Json>, ghost v: Json)
      requires (w == TRUE && v == Bool(true)) || (w == FALSE && v == Bool(false)) || (w == NULL && v == Null)
      requires AtContainer(nodes, top, alloc, stack, doc, !firstPass) && Ready(stack)
      requires (!firstPass ==> Hole(doc, stack) == Some(v))
      requires root == if stack == [] then NONE else 0
      modifies this`nodes, this`top, this`root, this`alloc
      ensures root == 0
      ensures AtValue(nodes, top, alloc, stack, Size(v), doc, !firstPass)
      ensures nodes[Base(stack)..Base(stack) + Size(v)] == Layout(v, TopOf(stack), Base(stack), !firstPass)
    {
      hide AtContainer, AtValue, Layout, Hole;
      var ok := NewValue(if w == NULL then KNull else KBoolean, stack, v);
      ghost var nodes0 := nodes;
      if w == TRUE {
        nodes := nodes[top := nodes[top].(boolean := true)];
      }
      LeafChanged(nodes0, nodes, top, alloc, stack, doc, !firstPass);
      LeafDone(nodes, top, alloc, stack, v, doc, !firstPass);
    }

    /** src/json.c:478-511. Pass two skips the number, which pass one has left in the node. */
    method StartNumber(b: Byte)
      requires Starting() && b == json[i] && (IsDigit(b) || b == MINUS)
      modifies this`nodes, this`i, this`top, this`root, this`alloc, this`flags, this`num, this`mode
      ensures Reached(old(mode))
    {
      hide Meaning, AtContainer, AtValue, Starting, Reached, Holds, Data;
      StartView();
      ghost var m, m' := mode, Next(json, mode).m;
      NextMeaning(json, m);
      if firstPass {
        var ok := NewValue(KInteger, m.stack, Int(0));
        flags := flags.(negative := false, zero := false, e := false, gotSign := false, eNegative := false);
        num := NumLocals(0, 0, 0);
        if b != MINUS {
          flags := flags.(reproc := true);
        } else {
          flags := flags.(negative := true);
        }
        mode := m';
        ReachedNumber(m);
      } else {
        SkipNumber(m');
      }
    }

    // The loop over the bytes of a number.
    method SkipTo(ghost next: int)
      requires 0 <= i <= next < |json| && !NumByte(json[next]) && forall k :: i <= k < next ==> NumByte(json[k])
      modifies this`i
      ensures i == next
    {
      hide NumByte;
      var b := json[i];
      while NumByte(b)
        invariant old(i) <= i <= next && b == json[i]
        decreases next - i
      {
        i := i + 1;
        b := json[i];
      }
    }

    method SkipNumber(ghost m: Mode)
      requires Starting() && !firstPass && NumByte(json[i]) && Next(json, mode) == Go(m) && m.InNumber?
      requires m.stack == mode.stack
      requires Proper(m) && Means(json, m, doc) && Meaning(json, m) == Meaning(json, mode) && i <= m.i <= i + 1
      modifies this`nodes, this`i, this`top, this`root, this`alloc, this`flags, this`mode
      ensures Reached(old(mode))
    {
      hide Meaning, AtContainer, AtValue, Hole, Layout, NumberFrom, Next, NumByte, Holds, Reached, Data, Starting;
      hide NextStart, Proper, Size, Base, TopOf, Blank, Head, Prepared, Means;
      StartView();
      ghost var stack, r := mode.stack, NumberFrom(json, m.i, m.n);
      NumberSkipped(json, m, doc);
      var ok := NewValue(KInteger, stack, r.value);
      NumberPrepared(nodes, top, alloc, stack, r.value, doc);
      SkipTo(r.next);
      flags := flags.(next := true, reproc := true);
      mode := Finished(r.next, stack, r.value);
      ReachedFinished(old(mode));
    }

    /** A byte in an object where no value is due (src/json.c:523-564). */
    method ObjectByte(b: Byte) returns (ok: bool)
      requires Holds(mode) && mode.InObject? && i == mode.i && b == json[i] && !flags.reproc
      modifies this`flags, this`stringLength, this`mode
      ensures ok ==> Reached(old(mode))
      ensures !ok ==> Meaning(json, old(mode)).Fail?
    {
      hide Meaning, AtContainer, AtValue, Layout;
      ghost var m := mode;
      NextMeaning(json, m);
      ok := true;
      if IsSpace(b) {
        mode := Next(json, m).m;
      } else if b == QUOTE {
        if flags.comma { return false; }
        OpenKey();
      } else if b == 125 {
        CloseObject();
      } else if b == COMMA && flags.comma {
        flags := flags.(comma := false);
        mode := Next(json, m).m;
      } else {
        ok := false;
      }
    }

    method OpenKey()
      requires Holds(mode) && mode.InObject? && i == mode.i && json[i] == QUOTE && !mode.comma && !flags.reproc
      modifies this`flags, this`stringLength, this`mode
      ensures Reached(old(mode))
    {
      hide Meaning, AtContainer, AtValue, Layout;
      ghost var m := mode;
      NextMeaning(json, m);
      flags := flags.(string_ := true);
      stringLength := 0;
      mode := Next(json, m).m;
      KeyStarts(nodes, top, alloc, m.stack, doc, !firstPass);
    }

    method CloseObject()
      requires Holds(mode) && mode.InObject? && i == mode.i && json[i] == 125 && !flags.reproc
      modifies this`flags, this`mode
      ensures Reached(old(mode))
    {
      hide Meaning, AtContainer, AtValue, Layout;
      ghost var m := mode;
      NextMeaning(json, m);
      flags := flags.(comma := false, next := true);
      mode := Next(json, m).m;
      if !firstPass {
        ModeHole(json, mode, doc);
      }
      BoxClosed(nodes, top, alloc, m.stack, doc, !firstPass);
    }

    /** A byte of a number, in pass one (src/json.c:566-673). */
    method NumberByte(b: Byte) returns (ok: bool)
      requires Holds(mode) && mode.InNumber? && i == mode.i && b == json[i] && !flags.reproc
      modifies this`nodes, this`flags, this`num, this`mode
      ensures ok ==> Reached(old(mode))
      ensures !ok ==> Meaning(json, old(mode)).Fail?
    {
      NumberView();
      hide Meaning, AtValue, Layout, NumNext, TopOf, Base, Holds, Reached, FlagsOk, Data, NumberFields, NumberNode;
      hide LocalsOf, NumberResult;
      ghost var m := mode;
      NextMeaning(json, m);
      LeafTop(nodes, top, alloc, m.stack, 1, doc, false);
      FieldsOf(TopOf(m.stack), m.n);
      var s := NumState(nodes[top].kind, nodes[top].integer, nodes[top].dbl, num, flags.e, flags.gotSign, flags.zero,
        flags.negative, flags.eNegative);
      var ends := false;
      if IsDigit(b) {
        ok, s := Digit(b, s, m.n);
      } else {
        ok, ends, s := NonDigit(b, s, m.n);
      }
      if ok && ends {
        NumberEnd(s, NumNext(m.n, b).v);
      } else if ok {
        NumberMore(s, NumNext(m.n, b).n);
      }
    }

    ghost predicate AtNumber()
      reads this
    {
      && Terminated(json) && Proper(mode) && mode.InNumber? && mode.i == i < |json| && firstPass && root == 0
      && !flags.next && !flags.reproc && !flags.done && !flags.string_ && !flags.seek && !flags.escaped && !flags.comma
      && !flags.colon
      && AtValue(nodes, top, alloc, mode.stack, 1, doc, false)
      && nodes[Base(mode.stack)] == NumberNode(TopOf(mode.stack), mode.n)
    }

    method NumberEnd(s: NumState, ghost v: Json)
      requires AtNumber() && NumNext(mode.n, json[i]) == End(v) && s.kind == nodes[Base(mode.stack)].kind
      requires NumberNode(TopOf(mode.stack), mode.n).kind == s.kind && NumberResult(s, v)
      modifies this`nodes, this`flags, this`mode
      ensures Reached(old(mode))
    {
      hide Meaning, AtValue, Layout, NumNext, TopOf, Base, Reached, FlagsOk, Data;
      ghost var m, nodes0 := mode, nodes;
      NextMeaning(json, m);
      LeafTop(nodes, top, alloc, m.stack, 1, doc, false);
      nodes := nodes[top := nodes[top].(kind := s.kind, integer := s.integer, dbl := s.dbl)];
      LeafChanged(nodes0, nodes, top, alloc, m.stack, doc, false);
      flags := flags.(next := true, reproc := true);
      mode := Finished(i, m.stack, v);
      LeafDone(nodes, top, alloc, m.stack, v, doc, false);
      ReachedFinished(m);
    }

    method NumberMore(s: NumState, ghost n: Number)
      requires AtNumber() && NumNext(mode.n, json[i]) == More(n) && NumberFields(s, n) && flags.negative == s.negative
      modifies this`nodes, this`flags, this`num, this`mode
      ensures Reached(old(mode))
    {
      hide Meaning, AtValue, Layout, NumNext, TopOf, Base, Reached, FlagsOk, Data;
      ghost var m, nodes0 := mode, nodes;
      NextMeaning(json, m);
      LeafTop(nodes, top, alloc, m.stack, 1, doc, false);
      nodes := nodes[top := nodes[top].(kind := s.kind, integer := s.integer, dbl := s.dbl)];
      num := s.num;
      LeafChanged(nodes0, nodes, top, alloc, m.stack, doc, false);
      flags := flags.(e := s.e, gotSign := s.sign, zero := s.zero, eNegative := s.down);
      mode := InNumber(i + 1, m.stack, n);
      ReachedNumber(m);
    }

    // src/json.c:569-598.
    static method Digit(b: Byte, s0: NumState, ghost n: Number) returns (ok: bool, s: NumState)
      requires NumberFields(s0, n) && IsDigit(b)
      ensures ok <==> NumNext(n, b).More?
      ensures !NumNext(n, b).End? && (ok ==> NumberFields(s, NumNext(n, b).n)) && s.negative == s0.negative
    {
      s := s0.(num := s0.num.(digits := s0.num.digits + 1));
      if s.kind == KInteger || s.e {
        if !s.e {
          if s.zero {
            return false, s;
          }
          if s.num.digits == 1 && b == 48 {
            s := s.(zero := true);
          }
        } else {
          s := s.(sign := true, num := s.num.(e := Int64(s.num.e * 10 + (b - 48))));
          return true, s;
        }
        s := s.(integer := Int64(s.integer * 10 + (b - 48)));
        return true, s;
      }
      s := s.(num := s.num.(fraction := Int64(s.num.fraction * 10 + (b - 48))));
      return true, s;
    }

    // src/json.c:600-673.
    static method NonDigit(b: Byte, s0: NumState, ghost n: Number) returns (ok: bool, ends: bool, s: NumState)
      requires NumberFields(s0, n) && !IsDigit(b)
      ensures ok <==> !NumNext(n, b).Bad?
      ensures ok ==> (ends <==> NumNext(n, b).End?)
      ensures ok && !ends ==> NumberFields(s, NumNext(n, b).n)
      ensures ok && ends ==> s == s0.(integer := s.integer, dbl := s.dbl) && NumberResult(s, NumNext(n, b).v)
      ensures s.negative == s0.negative
    {
      s, ok, ends := s0, true, false;
      if b == 43 || b == MINUS {
        if s.e && !s.sign {
          s := s.(sign := true, down := b == MINUS);
          return;
        }
      } else if b == 46 && s.kind == KInteger {
        ok := s.num.digits != 0;
        s := s.(kind := KDouble, integer := 0, dbl := s.integer as real, num := s.num.(digits := 0));
        return;
      }
      if !s.e {
        if s.kind == KDouble {
          if s.num.digits == 0 {
            ok := false;
            return;
          }
          s := s.(dbl := AddFraction(s.dbl, s.num.fraction, s.num.digits));
        }
        if b == 101 || b == 69 {
          s := s.(e := true, zero := false, num := s.num.(digits := 0));
          if s.kind == KInteger {
            s := s.(kind := KDouble, integer := 0, dbl := s.integer as real);
          }
          return;
        }
      } else {
        if s.num.digits == 0 {
          ok := false;
          return;
        }
        s := s.(dbl := Scale(s.dbl, if s.down then Int64(-s.num.e) else s.num.e));
      }
      if s.negative {
        if s.kind == KInteger {
          s := s.(integer := Int64(-s.integer));
        } else {
          s := s.(dbl := -s.dbl);
        }
      }
      ends := true;
    }

    /** The end of a round in which a value was completed (src/json.c:686-732). */
    method EndValue() returns (ok: bool)
      requires Holds(mode) && mode.Finished? && i + 1 == mode.i && !flags.reproc
      modifies this`nodes, this`top, this`flags, this`mode
      ensures ok ==> Reached(old(mode))
      ensures ok ==> !mode.Finished? && !flags.reproc
      ensures !ok ==> Meaning(json, old(mode)).Fail?
    {
      hide Meaning, AtValue, Layout, Completed;
      ghost var m := mode;
      NextMeaning(json, m);
      LeafTop(nodes, top, alloc, m.stack, Size(m.v), doc, !firstPass);
      LeafParentOf(nodes, m.stack, m.v, top, !firstPass);
      flags := flags.(next := false, comma := true);
      if nodes[top].parent == NONE {
        EndDocument();
        ok := true;
      } else {
        ok := EndChild();
      }
    }

    // The value is complete and flag_next was cleared.
    ghost predicate Ended()
      reads this
    {
      && Terminated(json) && mode.Finished? && Proper(mode) && mode.i < |json| && i + 1 == mode.i && !flags.reproc
      && !flags.next
      && FlagsOk(flags.(next := true, comma := false), mode) && flags.comma && (!firstPass ==> Means(json, mode, doc))
      && Data(json, nodes, top, alloc, stringLength, num, doc, !firstPass, mode) && root == 0
    }

    method EndDocument()
      requires Ended() && mode.stack == []
      modifies this`flags, this`mode
      ensures Reached(old(mode))
      ensures mode.Done? && !flags.reproc
    {
      hide Meaning, AtValue, Layout;
      ghost var m := mode;
      NextMeaning(json, m);
      if !firstPass {
        ModeHole(json, m, doc);
      }
      flags := flags.(done := true);
      mode := Next(json, m).m;
      WholeDocument(nodes, top, alloc, m.v, doc, !firstPass);
    }

    lemma EndedView()
      requires Ended()
      ensures Terminated(json) && Proper(mode) && mode.Finished? && mode.i < |json| && Ready(mode.stack) && root == 0
      ensures !flags.next && !flags.done && !flags.string_ && !flags.seek && !flags.escaped && flags.comma
      ensures !flags.colon && !flags.reproc && i + 1 == mode.i
      ensures AtValue(nodes, top, alloc, mode.stack, Size(mode.v), doc, !firstPass)
      ensures Built(nodes, mode.stack, doc, !firstPass)
      ensures nodes[Base(mode.stack)..Base(mode.stack) + Size(mode.v)] ==
        Layout(mode.v, TopOf(mode.stack), Base(mode.stack), !firstPass)
      ensures !firstPass ==> Means(json, mode, doc) && Hole(doc, mode.stack) == Some(mode.v)
    {
      hide Meaning, Layout, Built, Hole;
      if !firstPass {
        ModeHole(json, mode, doc);
      }
    }

    // One value more in the container.
    ghost predicate OneMore(m: Mode)
      reads this
    {
      && m.Finished? && Terminated(json) && Proper(m) && m.stack != [] && m.i < |json| && root == 0
      && |Last(m.stack).items| + 1 <= UINT_MAX && i + 1 == m.i && !flags.reproc && flags.seek == !Last(m.stack).obj
      && !flags.next && !flags.done && !flags.string_ && !flags.escaped && flags.comma && !flags.colon
      && AtContainer(nodes, top, alloc, Outer(m.stack) + [WithItem(Last(m.stack), m.v)], doc, !firstPass)
      && (!firstPass ==> Means(json, m, doc))
    }

    lemma OneMoreReached(m: Mode)
      requires OneMore(m) && Next(json, m) == Go(mode)
      ensures Reached(m) && !mode.Finished?
    {
      hide Meaning, AtContainer, Next, Proper, Holds, Data, Reached, FlagsOk, Hole;
      FinishedNext(json, m);
      ReachedContainer(m);
    }

    method EndChild() returns (ok: bool)
      requires Ended() && mode.stack != [] && 0 <= top < |nodes| && nodes[top].parent == TopOf(mode.stack)
      modifies this`nodes, this`top, this`flags, this`mode
      ensures ok ==> Reached(old(mode))
      ensures ok ==> !mode.Finished? && !flags.reproc
      ensures !ok ==> Meaning(json, old(mode)).Fail?
    {
      hide Meaning, AtContainer, AtValue, Layout, Built, Next, Proper, Ended, Holds, Data, Reached, FlagsOk, Means;
      hide Hole;
      ghost var m, nodes0 := mode, nodes;
      EndedView();
      FinishedNext(json, m);
      RoomForChild(nodes, m.stack, doc, !firstPass);
      var parent := nodes[top].parent;
      if nodes[parent].kind == KArray {
        flags := flags.(seek := true);
      }
      if nodes[parent].length + 1 > UINT_MAX {
        return false;
      }
      nodes := nodes[parent := WithChild(nodes[parent], top, !firstPass)];
      mode := Next(json, m).m;
      ValueAdded(nodes0, nodes, top, alloc, m.stack, m.v, doc, !firstPass);
      top := parent;
      ok := true;
      OneMoreReached(m);
    }

    /** The state between two rounds. */
    ghost predicate Valid()
      reads this
    {
      Holds(mode) && mode.i == i && !flags.reproc && !mode.Finished?
    }

    lemma Dispatch()
      requires Valid() && !flags.done && !flags.string_ && !flags.seek
      ensures 0 <= top < |nodes|
      ensures if nodes[top].kind == KObject then mode.InObject?
        else mode.InNumber? && (nodes[top].kind == KInteger || nodes[top].kind == KDouble)
    {
      if mode.InObject? {
        TopKind(nodes, mode.stack, doc, !firstPass);
      }
    }

    /** One round of the loop (src/json.c:227-733). */
    method Step() returns (r: Status)
      requires Valid()
      modifies this`nodes, this`i, this`top, this`root, this`alloc, this`flags, this`stringLength, this`num
      modifies this`mode
      ensures r == Continued ==>
        Valid() && Meaning(json, mode) == Meaning(json, old(mode)) && Measure(json, mode) < Measure(json, old(mode))
      ensures r == Rejected ==> Stopped(old(mode))
      ensures r == Accepted ==> Meaning(json, old(mode)).Ok? && root == 0
      ensures r == Accepted ==> nodes == Layout(Meaning(json, old(mode)).value, NONE, 0, !firstPass)
      ensures r == Accepted && !firstPass ==> ObjectsFit(doc)
    {
      hide Meaning, Built, Layout, Next, Data, Reached, FlagsOk;
      if flags.done {
        ValidDone();
        r := DoneByte(json[i]);
        return;
      }
      var ok := Byte();
      if !ok {
        return Rejected;
      }
      ok := Bottom(mode, old(mode));
      r := if ok then Continued else Rejected;
    }

    lemma ValidDone()
      requires Valid()
      ensures flags.done <==> mode.Done?
    {
      hide Meaning, Data;
    }

    // The byte under `i`, by the state that the flags and the innermost value give.
    method Byte() returns (ok: bool)
      requires Valid() && !flags.done
      modifies this`nodes, this`i, this`top, this`root, this`alloc, this`flags, this`stringLength, this`num
      modifies this`mode
      ensures ok ==> Reached(old(mode))
      ensures !ok ==> Stopped(old(mode))
    {
      hide Meaning, Data, Reached;
      var b := json[i];
      if flags.string_ {
        ok := StringByte(b);
      } else if flags.seek {
        ok := SeekByte(b);
      } else {
        Dispatch();
        if nodes[top].kind == KObject {
          ok := ObjectByte(b);
        } else {
          ok := NumberByte(b);
        }
      }
    }

    // src/json.c:686-732.
    method Bottom(ghost m: Mode, ghost m0: Mode) returns (ok: bool)
      requires Proper(m0) && Reached(m0) && mode == m
      modifies this`nodes, this`i, this`top, this`flags, this`mode
      ensures ok ==> Valid() && Meaning(json, mode) == Meaning(json, m0) && Measure(json, mode) < Measure(json, m0)
      ensures !ok ==> Meaning(json, m0).Fail?
    {
      hide Meaning, Data, Measure;
      if flags.reproc {
        flags := flags.(reproc := false);
        i := i - 1;
      }
      ok := true;
      if flags.next {
        ok := EndValue();
      }
      i := i + 1;
    }

    // src/json.c:231-245.
    method DoneByte(b: Byte) returns (r: Status)
      requires Valid() && mode.Done? && b == json[i]
      modifies this`i, this`mode
      ensures r == Continued ==>
        Valid() && Meaning(json, mode) == Meaning(json, old(mode)) && Measure(json, mode) < Measure(json, old(mode))
      ensures r == Rejected ==> Meaning(json, old(mode)).Fail?
      ensures r == Accepted ==> Meaning(json, old(mode)).Ok? && root == 0
      ensures r == Accepted ==> nodes == Layout(Meaning(json, old(mode)).value, NONE, 0, !firstPass)
      ensures r == Accepted && !firstPass ==> ObjectsFit(doc)
    {
      hide Meaning, Layout;
      NextMeaning(json, mode);
      if b == 0 {
        return Accepted;
      }
      if !IsSpace(b) {
        return Rejected;
      }
      mode := Next(json, mode).m;
      i := i + 1;
      r := Continued;
    }

    /** One pass over the text; in pass two `doc` is known from pass one. */
    method Pass() returns (ok: bool)
      requires Terminated(json) && !Bracketed(json, 0)
      requires firstPass ==> nodes == [] && alloc == NONE
      requires !firstPass ==>
        Document(json).Ok? && doc == Document(json).value && nodes == Layout(doc, NONE, 0, false) && alloc == 0
      modifies this`nodes, this`i, this`top, this`root, this`alloc, this`flags, this`stringLength, this`num
      modifies this`mode
      ensures ok <==> Document(json).Ok? && (!firstPass ==> ObjectsFit(doc))
      ensures ok ==> root == 0 && nodes == Layout(Document(json).value, NONE, 0, !firstPass)
    {
      hide Meaning, Layout;
      top, root := NONE, NONE;
      flags := SEEK_VALUE;
      i := 0;
      mode := Seek(0, [], false, false);
      StartMeaning(json);
      DocumentSize(doc);
      SizesAll(doc);
      var r := Continued;
      while r == Continued
        invariant r == Continued ==> Valid() && Meaning(json, mode) == Document(json)
        invariant r == Rejected ==> Document(json).Fail? || (!firstPass && !ObjectsFit(doc))
        invariant r == Accepted && !firstPass ==> ObjectsFit(doc)
        invariant r == Accepted ==>
          Document(json).Ok? && root == 0 && nodes == Layout(Document(json).value, NONE, 0, !firstPass)
        decreases if r == Continued then 1 + Measure(json, mode) else 0
      {
        r := Step();
      }
      ok := r == Accepted;
    }

    /** json_parse_ex, src/json.c:193-738, with default settings and no allocation failing. Pass two
        reaches an error, or an array that is too small, just for an object of 2^27 members or more. */
    method Parse() returns (result: int)
      requires Terminated(json) && !Bracketed(json, 0) && nodes == [] && alloc == NONE
      modifies this
      ensures result == if Document(json).Ok? && ObjectsFit(Document(json).value) then 0 else NONE
      ensures result == 0 ==> nodes == Layout(Document(json).value, NONE, 0, true)
      ensures firstPass <==> Document(json).Fail?
    {
      hide Layout, Document, ObjectsFit;
      firstPass := true;
      var ok := Pass();
      if !ok {
        return NONE;
      }
      doc := Document(json).value;
      alloc := root;
      firstPass := false;
      ok := Pass();
      if !ok {
        return NONE;
      }
      return root;
    }
  }

  datatype Status = Continued | Rejected | Accepted

  lemma DocumentSize(v: Json)
    ensures |Layout(v, NONE, 0, false)| == Size(v)
  {
    LayoutSize(v, NONE, 0, false);
  }

  /** The fields that a number is read into: of the node, of the locals, and bits of the flag word. */
  datatype NumState = NumState(kind: Kind, integer: int, dbl: real, num: NumLocals, e: bool, sign: bool, zero: bool,
                               negative: bool, down: bool)

  // The value that the fields of the node amount to.
  ghost predicate NumberResult(s: NumState, v: Json) {
    if s.kind == KInteger then s.dbl == 0.0 && v == Int(s.integer)
    else s.kind == KDouble && s.integer == 0 && v == Double(s.dbl)
  }

  ghost predicate NumberFields(s: NumState, n: Number) {
    && s == NumState(if n.double then KDouble else KInteger,
        if n.double then 0 else n.mag, n.value, LocalsOf(n), n.e, n.sign, n.zero, n.neg, n.down)
    && (n.e ==> n.double) && (!n.double ==> n.value == 0.0)
  }

  lemma FieldsOf(parent: int, n: Number)
    requires (n.e ==> n.double) && (!n.double ==> n.value == 0.0)
    ensures var v := NumberNode(parent, n);
      NumberFields(NumState(v.kind, v.integer, v.dbl, LocalsOf(n), n.e, n.sign, n.zero, n.neg, n.down), n)
  {
  }

  lemma LeafTop(nodes: seq<Node>, top: int, alloc: int, stack: seq<Json>, size: nat, v: Json, full: bool)
    requires AtValue(nodes, top, alloc, stack, size, v, full)
    ensures 0 <= top == Base(stack) && top + size <= |nodes| && 0 < size
  {
  }

  lemma HeadCounts(c: Json, parent: int, at: int)
    ensures 0 <= Head(c, parent, at, false).length && 0 <= Head(c, parent, at, false).keys
  {
  }

  lemma UnusedCount(nodes: seq<Node>, from: int, alloc: int, v: Json)
    requires Unused(nodes, from, alloc, v, false)
    ensures alloc == from - 1 && |nodes| == from
  {
  }

  lemma Split64(q: int, r: int, b2: int)
    requires 0 <= q < 16 && 0 <= r < 16 && 0 <= b2 < 256
    ensures var u := (q * 16 + r) * 256 + b2;
      u / 4096 == q && u / 64 == q * 64 + r * 4 + b2 / 64 && u / 64 % 64 == r * 4 + b2 / 64 && u % 64 == b2 % 64
  {
    var u, x := (q * 16 + r) * 256 + b2, r * 4 + b2 / 64;
    assert u == 64 * (q * 64 + x) + b2 % 64;
    assert u / 64 == q * 64 + x;
  }

  // The bits of the encoding, as sums.
  lemma EncodedUtf8(b1: int, b2: int, acc: seq<Byte>)
    requires 0 <= b1 < 256 && 0 <= b2 < 256
    ensures var u := Utf8(b1 * 256 + b2);
      if b1 == 0 && b2 <= 0x7F then acc + u == acc + [b2]
      else if b1 * 256 + b2 <= 0x7FF then acc + u == acc + [0xC0 + b2 / 64 + b1 % 8 * 4] + [0x80 + b2 % 64]
      else acc + u == acc + [0xE0 + b1 / 16] + [0x80 + b1 % 16 * 4 + b2 / 64] + [0x80 + b2 % 64]
  {
    var q, r := b1 / 16, b1 % 16;
    Split64(q, r, b2);
    assert (q * 16 + r) * 256 + b2 == b1 * 256 + b2;
    assert b1 * 256 + b2 <= 0x7FF ==> q == 0 && b1 % 8 == r;
  }

  lemma LeafChanged(nodes: seq<Node>, nodes': seq<Node>, top: int, alloc: int, stack: seq<Json>, v: Json, full: bool)
    requires AtValue(nodes, top, alloc, stack, 1, v, full) && |nodes'| == |nodes|
    requires forall k :: 0 <= k < |nodes| && k != top ==> nodes'[k] == nodes[k]
    ensures AtValue(nodes', top, alloc, stack, 1, v, full)
  {
    hide Built, Layout;
    BuiltFrame(nodes, nodes', stack, v, full);
    if full {
      var q := Base(stack) + 1;
      assert nodes'[q..] == nodes[q..];
    }
  }
}
