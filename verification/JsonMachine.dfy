/**
 * The states of the parser loop (src/json.c:227-733) and what each of them makes of the rest of the
 * text. The open containers are the ones that the parent pointers lead to.
 */
module JsonMachine {
  import opened BStrings
  import opened JsonGrammar

  /** Where the loop stands: at byte `i`, within the open containers `stack`, the innermost one last. */
  datatype Mode =
    | Seek(i: int, stack: seq<Json>, comma: bool, colon: bool)
    | InObject(i: int, stack: seq<Json>, comma: bool)
    | InString(i: int, stack: seq<Json>, acc: seq<Byte>, esc: bool, key: bool)
    | InNumber(i: int, stack: seq<Json>, n: Number)
    | Finished(i: int, stack: seq<Json>, v: Json)
    | Done(i: int, v: Json)

  function Last(stack: seq<Json>): Json
    requires stack != []
  {
    stack[|stack| - 1]
  }

  function Outer(stack: seq<Json>): seq<Json>
    requires stack != []
  {
    stack[..|stack| - 1]
  }

  /** Every open container waits for a value. */
  predicate Ready(stack: seq<Json>) {
    forall k :: 0 <= k < |stack| ==> Awaits(stack[k])
  }

  predicate Awaits(b: Json) {
    b.Box? && if b.obj then |b.keys| == |b.items| + 1 else b.keys == []
  }

  /** The innermost container is an object that does not wait for a value. */
  predicate AtKey(stack: seq<Json>) {
    stack != [] && Ready(Outer(stack)) && Last(stack).Box?
    && Last(stack).obj && |Last(stack).keys| == |Last(stack).items|
  }

  predicate Proper(m: Mode) {
    0 <= m.i &&
    match m
    case Seek(_, stack, comma, colon) =>
      Ready(stack) && (comma ==> stack != [] && !Last(stack).obj) && (colon ==> stack != [] && Last(stack).obj)
    case InObject(_, stack, _) => AtKey(stack)
    case InString(_, stack, _, _, key) => if key then AtKey(stack) else Ready(stack)
    case InNumber(_, stack, n) => Ready(stack) && (n.e ==> n.double) && (!n.double ==> n.value == 0.0)
    case Finished(_, stack, _) => Ready(stack)
    case Done(_, _) => true
  }

  function WithItem(b: Json, v: Json): Json
    requires b.Box?
  {
    b.(items := b.items + [v])
  }

  function WithKey(b: Json, k: seq<Byte>): Json
    requires b.Box?
  {
    b.(keys := b.keys + [k])
  }

  /** The document, once `v` was read up to `j` as the next value of the innermost open container. */
  function Resume(t: Text, stack: seq<Json>, v: Json, j: int): Result<Json>
    requires 0 <= j && Ready(stack)
    decreases |stack|, 0
  {
    if stack == [] then Trailing(t, j, v)
    else if |Last(stack).items| + 1 > UINT_MAX then Fail
    else
      var b := WithItem(Last(stack), v);
      Then(t, if b.obj then Members(t, j, b.keys, b.items, true) else Elements(t, j, b.items, true), Outer(stack))
  }

  function Then(t: Text, r: Result<Json>, stack: seq<Json>): Result<Json>
    requires Ready(stack) && (r.Ok? ==> 0 <= r.next)
    decreases |stack|, 1
  {
    if r.Fail? then Fail else Resume(t, stack, r.value, r.next)
  }

  /** What the text denotes, seen from the middle of it. */
  function Meaning(t: Text, m: Mode): Result<Json>
    requires Proper(m)
  {
    match m
    case Seek(i, stack, comma, colon) =>
      if stack == [] then Then(t, Value(t, i), [])
      else if Last(stack).obj then Then(t, ColonValue(t, i, colon), stack)
      else Then(t, Elements(t, i, Last(stack).items, comma), Outer(stack))
    case InObject(i, stack, comma) => Then(t, Members(t, i, Last(stack).keys, Last(stack).items, comma), Outer(stack))
    case InString(i, stack, acc, esc, key) =>
      var s := StringFrom(t, i, acc, esc);
      if s.Fail? then Fail
      else if key then Then(t, ColonValue(t, s.next, true), Outer(stack) + [WithKey(Last(stack), s.value)])
      else Resume(t, stack, Str(s.value), s.next)
    case InNumber(i, stack, n) => Then(t, NumberFrom(t, i, n), stack)
    case Finished(i, stack, v) => Resume(t, stack, v, i)
    case Done(i, v) => Trailing(t, i, v)
  }

  /** The state after a value: src/json.c:686-732. */
  function Completed(stack: seq<Json>, v: Json, j: int): Mode
    requires Ready(stack)
  {
    if stack == [] then Done(j, v)
    else
      var stack' := Outer(stack) + [WithItem(Last(stack), v)];
      if Last(stack).obj then InObject(j, stack', true) else Seek(j, stack', true, false)
  }

  lemma CompletedMeaning(t: Text, stack: seq<Json>, v: Json, j: int)
    requires Ready(stack) && 0 <= j
    ensures Proper(Completed(stack, v, j))
    ensures Resume(t, stack, v, j) ==
      if stack != [] && |Last(stack).items| + 1 > UINT_MAX then Fail else Meaning(t, Completed(stack, v, j))
  {
    if stack != [] {
      var stack' := Outer(stack) + [WithItem(Last(stack), v)];
      assert Outer(stack') == Outer(stack) && Last(stack') == WithItem(Last(stack), v);
      assert forall k :: 0 <= k < |Outer(stack)| ==> Awaits(stack[k]);
    }
  }

  lemma StartMeaning(t: Text)
    ensures Proper(Seek(0, [], false, false)) && Meaning(t, Seek(0, [], false, false)) == Document(t)
  {
  }

  datatype Outcome = Go(m: Mode) | Accept(v: Json) | Reject

  /** One round of the loop; `Finished` is the end of a round in which a value was completed. */
  function Next(t: Text, m: Mode): Outcome
    requires Proper(m) && m.i < |t|
  {
    match m
    case Seek(i, stack, comma, colon) => NextSeek(t, i, stack, comma, colon)
    case InObject(i, stack, comma) => NextMember(t, i, stack, comma)
    case InString(i, stack, acc, esc, key) => NextChar(t, i, stack, acc, esc, key)
    case InNumber(i, stack, n) =>
      (match NumNext(n, t[i])
       case More(m) => Go(InNumber(i + 1, stack, m))
       case End(v) => Go(Finished(i, stack, v))
       case Bad => Reject)
    case Finished(i, stack, v) =>
      if stack != [] && |Last(stack).items| + 1 > UINT_MAX then Reject else Go(Completed(stack, v, i))
    case Done(i, v) => if t[i] == 0 then Accept(v) else if IsSpace(t[i]) then Go(Done(i + 1, v)) else Reject
  }

  function NextSeek(t: Text, i: int, stack: seq<Json>, comma: bool, colon: bool): Outcome
    requires Proper(Seek(i, stack, comma, colon)) && i < |t|
  {
    var b := t[i];
    if IsSpace(b) then Go(Seek(i + 1, stack, comma, colon))
    else if b == 93 then (if stack != [] && !Last(stack).obj then Go(Finished(i + 1, Outer(stack), Last(stack)))
        else Reject)
    else if comma then (if b == COMMA then Go(Seek(i + 1, stack, false, colon)) else Reject)
    else if colon then (if b == COLON then Go(Seek(i + 1, stack, comma, false)) else Reject)
    else NextStart(t, i, stack)
  }

  function NextStart(t: Text, i: int, stack: seq<Json>): Outcome
    requires Ready(stack) && 0 <= i < |t|
  {
    var b := t[i];
    if b == 123 then Go(InObject(i + 1, stack + [Box(true, [], [])], false))
    else if b == 91 then Go(Seek(i + 1, stack + [Box(false, [], [])], false, false))
    else if b == QUOTE then Go(InString(i + 1, stack, [], false, false))
    else if b == 116 then (if StartsWith(t, i, TRUE) then Go(Finished(i + 4, stack, Bool(true))) else Reject)
    else if b == 102 then (if StartsWith(t, i, FALSE) then Go(Finished(i + 5, stack, Bool(false))) else Reject)
    else if b == 110 then (if StartsWith(t, i, NULL) then Go(Finished(i + 4, stack, Null)) else Reject)
    else if b == MINUS then Go(InNumber(i + 1, stack, START.(neg := true)))
    else if IsDigit(b) then Go(InNumber(i, stack, START))
    else Reject
  }

  function NextMember(t: Text, i: int, stack: seq<Json>, comma: bool): Outcome
    requires Proper(InObject(i, stack, comma)) && i < |t|
  {
    var b := t[i];
    if IsSpace(b) then Go(InObject(i + 1, stack, comma))
    else if b == QUOTE then (if comma then Reject else Go(InString(i + 1, stack, [], false, true)))
    else if b == 125 then Go(Finished(i + 1, Outer(stack), Last(stack)))
    else if b == COMMA && comma then Go(InObject(i + 1, stack, false))
    else Reject
  }

  function NextChar(t: Text, i: int, stack: seq<Json>, acc: seq<Byte>, esc: bool, key: bool): Outcome
    requires Proper(InString(i, stack, acc, esc, key)) && i < |t|
  {
    var b := t[i];
    if b == 0 || |acc| > UINT_MAX then Reject
    else if esc && b == 117 then
      var u := HexWord(t, i + 1);
      if u.Fail? then Reject else Go(InString(i + 5, stack, acc + Utf8(u.value), false, key))
    else if esc then Go(InString(i + 1, stack, acc + [Escape(b)], false, key))
    else if b == BACKSLASH then Go(InString(i + 1, stack, acc, true, key))
    else if b == QUOTE then
      if key then Go(Seek(i + 1, Outer(stack) + [WithKey(Last(stack), acc)], false, true))
      else Go(Finished(i + 1, stack, Str(acc)))
    else Go(InString(i + 1, stack, acc + [b], false, key))
  }

  ghost predicate Agrees(t: Text, m: Mode, o: Outcome)
    requires Proper(m)
  {
    match o
    case Reject => Meaning(t, m).Fail?
    case Accept(v) => Meaning(t, m).Ok? && Meaning(t, m).value == v
    case Go(m') => Proper(m') && m'.i < |t| && Meaning(t, m') == Meaning(t, m)
  }

  /** Every round keeps what the text denotes, and stays within it. */
  lemma NextMeaning(t: Text, m: Mode)
    requires Terminated(t) && Proper(m) && m.i < |t|
    ensures Agrees(t, m, Next(t, m))
  {
    match m
    case Seek(i, stack, comma, colon) => SeekMeaning(t, i, stack, comma, colon);
    case InObject(i, stack, comma) => MemberMeaning(t, i, stack, comma);
    case InString(i, stack, acc, esc, key) => CharMeaning(t, i, stack, acc, esc, key);
    case InNumber(i, stack, n) =>
    case Finished(i, stack, v) => CompletedMeaning(t, stack, v, i);
    case Done(i, v) =>
  }

  lemma MemberMeaning(t: Text, i: int, stack: seq<Json>, comma: bool)
    requires Terminated(t) && Proper(InObject(i, stack, comma)) && i < |t|
    ensures Agrees(t, InObject(i, stack, comma), NextMember(t, i, stack, comma))
  {
    var s, b := StringFrom(t, i + 1, [], false), Last(stack);
    if t[i] == QUOTE && !comma && s.Ok? {
      var stack' := Outer(stack) + [WithKey(b, s.value)];
      assert Outer(stack') == Outer(stack) && Last(stack') == WithKey(b, s.value);
      var v := ColonValue(t, s.next, true);
      if v.Ok? && |b.items| + 1 <= UINT_MAX {
        var rest := Members(t, v.next, b.keys + [s.value], b.items + [v.value], true);
        assert Members(t, i, b.keys, b.items, comma) == rest;
        assert Ready(stack') && Resume(t, stack', v.value, v.next) == Then(t, rest, Outer(stack'));
      } else {
        assert Members(t, i, b.keys, b.items, comma).Fail?;
        assert v.Ok? ==> Resume(t, stack', v.value, v.next).Fail?;
      }
    } else if t[i] == 125 {
      assert b == Box(true, b.keys, b.items);
    }
  }

  lemma CharMeaning(t: Text, i: int, stack: seq<Json>, acc: seq<Byte>, esc: bool, key: bool)
    requires Terminated(t) && Proper(InString(i, stack, acc, esc, key)) && i < |t|
    ensures Agrees(t, InString(i, stack, acc, esc, key), NextChar(t, i, stack, acc, esc, key))
  {
    if key {
      KeyCharMeaning(t, i, stack, acc, esc);
    } else {
      ValueCharMeaning(t, i, stack, acc, esc);
    }
  }

  lemma KeyCharMeaning(t: Text, i: int, stack: seq<Json>, acc: seq<Byte>, esc: bool)
    requires Terminated(t) && Proper(InString(i, stack, acc, esc, true)) && i < |t|
    ensures Agrees(t, InString(i, stack, acc, esc, true), NextChar(t, i, stack, acc, esc, true))
  {
    hide ColonValue, Members, Elements;
    var stack' := Outer(stack) + [WithKey(Last(stack), acc)];
    assert Last(stack') == WithKey(Last(stack), acc) && Outer(stack') == Outer(stack);
  }

  lemma ValueCharMeaning(t: Text, i: int, stack: seq<Json>, acc: seq<Byte>, esc: bool)
    requires Terminated(t) && Proper(InString(i, stack, acc, esc, false)) && i < |t|
    ensures Agrees(t, InString(i, stack, acc, esc, false), NextChar(t, i, stack, acc, esc, false))
  {
    hide Resume;
  }

  lemma SeekMeaning(t: Text, i: int, stack: seq<Json>, comma: bool, colon: bool)
    requires Terminated(t) && Proper(Seek(i, stack, comma, colon)) && i < |t|
    ensures Agrees(t, Seek(i, stack, comma, colon), NextSeek(t, i, stack, comma, colon))
  {
    var b := t[i];
    if IsSpace(b) || b == 93 || comma || colon {
      assert b == 93 ==> Value(t, i).Fail?;
      if stack != [] && !Last(stack).obj {
        assert Last(stack) == Box(false, [], Last(stack).items);
      }
    } else {
      ValueMeaning(t, i, stack);
      WordMeaning(t, i, stack);
    }
  }

  // Where a value begins, the innermost container does not matter until it is complete.
  lemma ValueMeaning(t: Text, i: int, stack: seq<Json>)
    requires Terminated(t) && Ready(stack) && 0 <= i < |t| && !IsSpace(t[i]) && t[i] != 93
    ensures Meaning(t, Seek(i, stack, false, false)) == Then(t, Value(t, i), stack)
  {
  }

  lemma WordMeaning(t: Text, i: int, stack: seq<Json>)
    requires Terminated(t) && Ready(stack) && 0 <= i < |t| && !IsSpace(t[i]) && t[i] != 93
    ensures match NextSeek(t, i, stack, false, false)
      case Reject => Value(t, i).Fail?
      case Accept(_) => false
      case Go(m) => Proper(m) && m.i < |t| && Meaning(t, m) == Then(t, Value(t, i), stack)
  {
    var b := t[i];
    if b == 123 || b == 91 {
      OpenMeaning(t, i, stack);
    } else {
      if StartsWith(t, i, TRUE) { assert t[i + 3] == t[i..i + 4][3]; }
      if StartsWith(t, i, FALSE) { assert t[i + 4] == t[i..i + 5][4]; }
      if StartsWith(t, i, NULL) { assert t[i + 3] == t[i..i + 4][3]; }
    }
  }

  lemma OpenMeaning(t: Text, i: int, stack: seq<Json>)
    requires Terminated(t) && Ready(stack) && 0 <= i < |t| && (t[i] == 123 || t[i] == 91)
    ensures i + 1 < |t|
    ensures var m := if t[i] == 123 then InObject(i + 1, stack + [Box(true, [], [])], false)
        else Seek(i + 1, stack + [Box(false, [], [])], false, false);
      Proper(m) && Meaning(t, m) == Then(t, Value(t, i), stack)
  {
    var inner := stack + [Box(t[i] == 123, [], [])];
    assert Outer(inner) == stack && Last(inner) == Box(t[i] == 123, [], []);
  }
}
