/**
 * The parser accepts no other texts than those of JsonText: whatever the grammar reads is a text of that
 * form, with the value that the form has.
 */
module JsonAccepted {
  import opened BStrings
  import opened JsonGrammar
  import opened JsonNumbers
  import opened JsonText

  lemma SpaceFirst(b: Byte, w: seq<Byte>)
    requires IsSpace(b) && Spaces(w)
    ensures Spaces([b] + w) && Spaces([])
  {
  }

  // One space more in front.
  lemma SpaceAt(t: Text, i: int, w: seq<Byte>, r: seq<Byte>)
    requires 0 <= i < |t| && IsSpace(t[i]) && Spaces(w) && At(t, i + 1, w + r)
    ensures Spaces([t[i]] + w) && At(t, i, [t[i]] + w + r) && |[t[i]] + w + r| == 1 + |w + r|
  {
    SpaceFirst(t[i], w);
    hide At;
    AtOne(t, i);
    AtJoin(t, i, [t[i]], w + r);
    Associates([t[i]], w, r);
  }

  // ---------------------------------------------------------------- strings

  lemma HexParsed(t: Text, i: int) returns (h: seq<Byte>)
    requires 0 <= i && HexWord(t, i).Ok?
    ensures |h| == 4 && HexWord(h, 0) == Ok(HexWord(t, i).value, 4) && At(t, i, h)
  {
    h := t[i..i + 4];
  }

  /** What is read of a string is a row of characters and the closing quote. */
  lemma {:induction false} StringParsed(t: Text, i: int, acc: seq<Byte>) returns (cs: seq<CharText>)
    requires 0 <= i && StringFrom(t, i, acc, false).Ok?
    ensures (forall k :: 0 <= k < |cs| ==> CharAccepted(cs[k])) && |acc| + |CharsStored(cs)| <= UINT_MAX
    ensures At(t, i, CharsRender(cs) + [QUOTE])
    ensures StringFrom(t, i, acc, false) == Ok(acc + CharsStored(cs), i + |CharsRender(cs)| + 1)
    decreases |t| - i
  {
    hide At, CharsRender, CharsStored, Utf8, HexWord, Escape;
    StringInText(t, i, acc);
    AtOne(t, i);
    if t[i] == QUOTE {
      cs := [];
      NoChars();
      NoPrefix(acc);
      NoPrefix([QUOTE]);
    } else {
      var c, n := CharParsed(t, i, acc);
      var rest := StringParsed(t, i + n, acc + CharStored(c));
      cs := [c] + rest;
      FirstChar(c, rest);
      AtJoin(t, i, CharRender(c), CharsRender(rest) + [QUOTE]);
      Associates(CharRender(c), CharsRender(rest), [QUOTE]);
      Associates(acc, CharStored(c), CharsStored(rest));
    }
  }

  lemma StringInText(t: Text, i: int, acc: seq<Byte>)
    requires 0 <= i && StringFrom(t, i, acc, false).Ok?
    ensures i < |t| && t[i] != 0 && |acc| <= UINT_MAX
    ensures t[i] == QUOTE ==> StringFrom(t, i, acc, false) == Ok(acc, i + 1)
  {
  }

  lemma NoChars()
    ensures CharsRender([]) == [] && CharsStored([]) == []
  {
  }

  lemma FirstChar(c: CharText, rest: seq<CharText>)
    ensures CharsRender([c] + rest) == CharRender(c) + CharsRender(rest)
    ensures CharsStored([c] + rest) == CharStored(c) + CharsStored(rest)
  {
    hide CharRender, CharStored;
    assert ([c] + rest)[1..] == rest;
  }

  // One character of a string.
  lemma CharParsed(t: Text, i: int, acc: seq<Byte>) returns (c: CharText, n: int)
    requires 0 <= i < |t| && t[i] != QUOTE && StringFrom(t, i, acc, false).Ok?
    ensures CharAccepted(c) && At(t, i, CharRender(c)) && n == |CharRender(c)| > 0
    ensures StringFrom(t, i, acc, false) == StringFrom(t, i + n, acc + CharStored(c), false)
  {
    hide At, Utf8;
    AtOne(t, i);
    if t[i] != BACKSLASH {
      c, n := Raw(t[i]), 1;
    } else {
      assert StringFrom(t, i, acc, false) == StringFrom(t, i + 1, acc, true);
      AtOne(t, i + 1);
      AtJoin(t, i, [BACKSLASH], [t[i + 1]]);
      if t[i + 1] == 117 {
        var h := HexParsed(t, i + 2);
        c, n := Code(h), 6;
        hide HexWord;
        AtJoin(t, i, [BACKSLASH] + [t[i + 1]], h);
        assert [BACKSLASH] + [t[i + 1]] + h == CharRender(c);
      } else {
        c, n := Short(t[i + 1]), 2;
        assert [BACKSLASH] + [t[i + 1]] == CharRender(c);
      }
    }
  }

  // ---------------------------------------------------------------- values

  // A value after white space, up to `next`.
  ghost predicate ValueIs(t: Text, i: int, w: seq<Byte>, v: ValueText, r: Result<Json>) {
    Spaces(w) && ValueAccepted(v) && At(t, i, w + Render(v)) && r == Ok(Stored(v), i + |w + Render(v)|)
  }

  lemma ValueSpace(t: Text, i: int, w: seq<Byte>, v: ValueText, r: Result<Json>)
    requires 0 <= i < |t| && IsSpace(t[i]) && ValueIs(t, i + 1, w, v, r)
    ensures ValueIs(t, i, [t[i]] + w, v, r)
  {
    hide At, Spaces, Render, Stored, ValueAccepted;
    SpaceAt(t, i, w, Render(v));
  }

  lemma ValueHere(t: Text, i: int, v: ValueText, r: Result<Json>)
    requires ValueAccepted(v) && At(t, i, Render(v)) && r == Ok(Stored(v), i + |Render(v)|)
    ensures ValueIs(t, i, [], v, r)
  {
    hide At, Render, Stored, ValueAccepted;
    NoPrefix(Render(v));
  }

  lemma ValueInText(t: Text, i: int)
    requires 0 <= i && Value(t, i).Ok?
    ensures i < |t| && (IsSpace(t[i]) ==> Value(t, i) == Value(t, i + 1))
    ensures IsSpace(t[i]) || IsDigit(t[i]) || t[i] as char in {'{', '[', '"', 't', 'f', 'n', '-'}
    ensures t[i] == 123 ==> Value(t, i) == Members(t, i + 1, [], [], false)
    ensures t[i] == 91 ==> Value(t, i) == Elements(t, i + 1, [], false)
    ensures t[i] == QUOTE ==> var s := StringFrom(t, i + 1, [], false); s.Ok? && Value(t, i) == Ok(Str(s.value), s.next)
  {
    hide Members, Elements, StringFrom, NumberFrom;
  }

  lemma WordParsed(t: Text, i: int) returns (v: ValueText)
    requires 0 <= i < |t| && (t[i] == 116 || t[i] == 102 || t[i] == 110) && Value(t, i).Ok?
    ensures ValueAccepted(v) && At(t, i, Render(v)) && Value(t, i) == Ok(Stored(v), i + |Render(v)|)
  {
    hide Members, Elements, StringFrom, NumberFrom;
    v := if t[i] == 116 then BoolText(true) else if t[i] == 102 then BoolText(false) else NullText;
  }

  lemma TextParsed(t: Text, i: int) returns (v: ValueText)
    requires 0 <= i < |t| && t[i] == QUOTE && Value(t, i).Ok?
    ensures ValueAccepted(v) && At(t, i, Render(v)) && Value(t, i) == Ok(Stored(v), i + |Render(v)|)
  {
    hide At, Value, CharsRender, CharsStored, CharAccepted, StringFrom;
    ValueInText(t, i);
    var cs := StringParsed(t, i + 1, []);
    NoPrefix(CharsStored(cs));
    AtOne(t, i);
    AtJoin(t, i, [QUOTE], CharsRender(cs) + [QUOTE]);
    v := StringText(cs);
  }

  lemma NumberTextParsed(t: Text, i: int) returns (v: ValueText)
    requires 0 <= i < |t| && (t[i] as char == '-' || IsDigit(t[i])) && Value(t, i).Ok?
    ensures ValueAccepted(v) && At(t, i, Render(v)) && Value(t, i) == Ok(Stored(v), i + |Render(v)|)
  {
    hide At, Value, NumberAccepted, NumberRender, NumberStored;
    var n := NumberParsed(t, i);
    v := NumText(n);
  }

  /** What is read as a value is white space and the text of a value. */
  lemma {:induction false} ValueParsed(t: Text, i: int) returns (w: seq<Byte>, v: ValueText)
    requires 0 <= i && Value(t, i).Ok?
    ensures ValueIs(t, i, w, v, Value(t, i))
    decreases |t| - i, 1
  {
    hide At, Value, Render, Stored, ValueAccepted, ValueIs, Elements, Members, Spaces;
    ValueInText(t, i);
    if IsSpace(t[i]) {
      w, v := ValueParsed(t, i + 1);
      ValueSpace(t, i, w, v, Value(t, i));
      w := [t[i]] + w;
    } else {
      w := [];
      if t[i] == 123 {
        var u, members := MembersParsed(t, i + 1, [], []);
        v := ObjectIs(t, i, u, members, Value(t, i));
      } else if t[i] == 91 {
        var u, items := ElementsParsed(t, i + 1, []);
        v := ArrayIs(t, i, u, items, Value(t, i));
      } else if t[i] == QUOTE {
        v := TextParsed(t, i);
      } else if t[i] == 116 || t[i] == 102 || t[i] == 110 {
        v := WordParsed(t, i);
      } else {
        v := NumberTextParsed(t, i);
      }
      ValueHere(t, i, v, Value(t, i));
    }
  }

  // ---------------------------------------------------------------- arrays

  // Where an element or the closing bracket is due: white space, if the array ends, or the other items.
  ghost predicate ItemsAre(t: Text, i: int, acc: seq<Json>, w: seq<Byte>, items: ItemsText, r: Result<Json>) {
    && Spaces(w) && ItemsAccepted(items) && !items.LastComma? && (items.Item? ==> w == [])
    && At(t, i, w + (ItemsRender(items, true) + [93]))
    && |acc + ItemsStored(items)| <= UINT_MAX
    && r == Ok(Box(false, [], acc + ItemsStored(items)), i + |w + (ItemsRender(items, true) + [93])|)
  }

  // After an element: white space, and the other items with their comma.
  ghost predicate RestItems(t: Text, i: int, acc: seq<Json>, w: seq<Byte>, rest: ItemsText, r: Result<Json>) {
    && Spaces(w) && ItemsAccepted(rest) && At(t, i, w + (ItemsRender(rest, false) + [93]))
    && |acc + ItemsStored(rest)| <= UINT_MAX
    && r == Ok(Box(false, [], acc + ItemsStored(rest)), i + |w + (ItemsRender(rest, false) + [93])|)
  }

  lemma ElementsInText(t: Text, i: int, acc: seq<Json>, comma: bool)
    requires 0 <= i && Elements(t, i, acc, comma).Ok?
    ensures i < |t| && (IsSpace(t[i]) ==> Elements(t, i, acc, comma) == Elements(t, i + 1, acc, comma))
    ensures t[i] == 93 ==> Elements(t, i, acc, comma) == Ok(Box(false, [], acc), i + 1)
    ensures !IsSpace(t[i]) && t[i] != 93 && comma ==>
      t[i] == COMMA && Elements(t, i, acc, comma) == Elements(t, i + 1, acc, false)
    ensures !IsSpace(t[i]) && t[i] != 93 && !comma ==>
      var v := Value(t, i);
      v.Ok? && |acc| + 1 <= UINT_MAX && Elements(t, i, acc, comma) == Elements(t, v.next, acc + [v.value], true)
  {
    hide Value;
  }

  lemma NoItems(t: Text, i: int, acc: seq<Json>)
    requires 0 <= i < |t| && t[i] == 93 && |acc| <= UINT_MAX
    ensures ItemsAre(t, i, acc, [], NoItem, Ok(Box(false, [], acc), i + 1))
    ensures RestItems(t, i, acc, [], NoItem, Ok(Box(false, [], acc), i + 1))
  {
    AtOne(t, i);
    hide At;
    assert [] + ([] + [93 as Byte]) == [93] && acc + [] == acc;
  }

  lemma ItemsSpace(t: Text, i: int, acc: seq<Json>, w: seq<Byte>, r: Result<Json>)
    requires 0 <= i < |t| && IsSpace(t[i]) && ItemsAre(t, i + 1, acc, w, NoItem, r)
    ensures ItemsAre(t, i, acc, [t[i]] + w, NoItem, r)
  {
    hide At, Spaces;
    SpaceAt(t, i, w, ItemsRender(NoItem, true) + [93]);
  }

  lemma RestSpace(t: Text, i: int, acc: seq<Json>, w: seq<Byte>, rest: ItemsText, r: Result<Json>)
    requires 0 <= i < |t| && IsSpace(t[i]) && RestItems(t, i + 1, acc, w, rest, r)
    ensures RestItems(t, i, acc, [t[i]] + w, rest, r)
  {
    hide At, Spaces, ItemsRender, ItemsStored, ItemsAccepted;
    SpaceAt(t, i, w, ItemsRender(rest, false) + [93]);
  }

  // White space before an item belongs to it.
  lemma ItemSpace(t: Text, i: int, acc: seq<Json>, items: ItemsText, r: Result<Json>) returns (items': ItemsText)
    requires 0 <= i < |t| && IsSpace(t[i]) && items.Item? && ItemsAre(t, i + 1, acc, [], items, r)
    ensures items'.Item? && ItemsAre(t, i, acc, [], items', r)
  {
    hide At, Spaces, ItemsRender, ItemsStored, ItemsAccepted;
    items' := items.(before := [t[i]] + items.before);
    ItemSpaceText(t[i], items);
    var x, y := ItemsRender(items, true) + [93], ItemsRender(items', true) + [93];
    NoPrefix(x);
    NoPrefix(y);
    Associates([t[i]], ItemsRender(items, true), [93]);
    AtOne(t, i);
    AtJoin(t, i, [t[i]], x);
    SpacesNone();
  }

  lemma SpacesNone()
    ensures Spaces([])
  {
  }

  lemma ItemSpaceText(b: Byte, items: ItemsText)
    requires items.Item? && IsSpace(b) && ItemsAccepted(items)
    ensures var items' := items.(before := [b] + items.before);
      ItemsAccepted(items') && ItemsStored(items') == ItemsStored(items)
      && ItemsRender(items', true) == [b] + ItemsRender(items, true)
  {
    hide Render, Stored, ValueAccepted;
    SpaceFirst(b, items.before);
    var x := Render(items.v) + (items.after + ItemsRender(items.rest, false));
    Associates([b], items.before, x);
    NoPrefix(items.before + x);
    NoPrefix([b] + items.before + x);
  }

  // An item without white space before it.
  lemma OneItem(t: Text, i: int, acc: seq<Json>, v: ValueText, j: int, after: seq<Byte>, rest: ItemsText,
          r: Result<Json>)
    requires ValueAccepted(v) && At(t, i, Render(v)) && j == i + |Render(v)|
    requires RestItems(t, j, acc + [Stored(v)], after, rest, r)
    ensures ItemsAre(t, i, acc, [], Item([], v, after, rest), r)
  {
    var items, z := Item([], v, after, rest), ItemsRender(rest, false);
    OneItemText(v, after, rest);
    hide At, Spaces, ItemsRender, ItemsStored, ItemsAccepted, Render, Stored, ValueAccepted;
    AtJoin(t, i, Render(v), after + (z + [93]));
    Associates(after, z, [93]);
    Associates(Render(v), after + z, [93]);
    NoPrefix(ItemsRender(items, true) + [93]);
    Associates(acc, [Stored(v)], ItemsStored(rest));
    SpacesNone();
  }

  lemma OneItemText(v: ValueText, after: seq<Byte>, rest: ItemsText)
    requires ValueAccepted(v) && ItemsAccepted(rest) && Spaces(after)
    ensures var items := Item([], v, after, rest);
      ItemsAccepted(items) && ItemsStored(items) == [Stored(v)] + ItemsStored(rest)
      && ItemsRender(items, true) == Render(v) + (after + ItemsRender(rest, false))
  {
    hide Render, Stored, ValueAccepted;
    NoPrefix(Render(v) + (after + ItemsRender(rest, false)));
    NoPrefix([] + (Render(v) + (after + ItemsRender(rest, false))));
  }

  lemma {:induction false} ElementsParsed(t: Text, i: int, acc: seq<Json>) returns (w: seq<Byte>, items: ItemsText)
    requires 0 <= i && |acc| <= UINT_MAX && Elements(t, i, acc, false).Ok?
    ensures ItemsAre(t, i, acc, w, items, Elements(t, i, acc, false))
    decreases |t| - i, 2
  {
    hide At, Value, Render, Stored, ValueAccepted, ValueIs, Elements, ItemsAre, RestItems, Spaces;
    ElementsInText(t, i, acc, false);
    if t[i] == 93 {
      w, items := [], NoItem;
      NoItems(t, i, acc);
    } else if IsSpace(t[i]) {
      w, items := ElementsParsed(t, i + 1, acc);
      ItemsView(t, i + 1, acc, w, items, Elements(t, i, acc, false));
      if items.Item? {
        items := ItemSpace(t, i, acc, items, Elements(t, i, acc, false));
      } else {
        ItemsSpace(t, i, acc, w, Elements(t, i, acc, false));
        w := [t[i]] + w;
      }
    } else {
      var u, v := ValueParsed(t, i);
      NoSpace(t, i, u, v, Value(t, i));
      var j := i + |Render(v)|;
      var after, rest := AfterElement(t, j, acc + [Stored(v)]);
      OneItem(t, i, acc, v, j, after, rest, Elements(t, i, acc, false));
      w, items := [], Item([], v, after, rest);
    }
  }

  lemma ItemsView(t: Text, i: int, acc: seq<Json>, w: seq<Byte>, items: ItemsText, r: Result<Json>)
    requires ItemsAre(t, i, acc, w, items, r)
    ensures !items.LastComma? && (items.Item? ==> w == [])
  {
  }

  // A value that does not begin with white space.
  lemma NoSpace(t: Text, i: int, w: seq<Byte>, v: ValueText, r: Result<Json>)
    requires 0 <= i < |t| && !IsSpace(t[i]) && ValueIs(t, i, w, v, r)
    ensures w == [] && ValueAccepted(v) && At(t, i, Render(v)) && r == Ok(Stored(v), i + |Render(v)|)
  {
    hide At, Spaces, Render, Stored, ValueAccepted;
    if w != [] { SpaceHead(t, i, w, Render(v)); }
    NoPrefix(Render(v));
  }

  lemma SpaceHead(t: Text, i: int, w: seq<Byte>, x: seq<Byte>)
    requires At(t, i, w + x) && Spaces(w) && w != []
    ensures 0 <= i < |t| && IsSpace(t[i])
  {
    AtHead(t, i, w + x);
  }

  lemma CommaItems(t: Text, i: int, acc: seq<Json>, w: seq<Byte>, items: ItemsText, r: Result<Json>)
    returns (rest: ItemsText)
    requires 0 <= i < |t| && t[i] == COMMA && ItemsAre(t, i + 1, acc, w, items, r)
    ensures RestItems(t, i, acc, [], rest, r)
  {
    rest := if items.Item? then items else LastComma(w);
    CommaText(w, items);
    hide At, Spaces, ItemsRender, ItemsStored, ItemsAccepted;
    var x := w + (ItemsRender(items, true) + [93]);
    AtOne(t, i);
    AtJoin(t, i, [COMMA], x);
    NoPrefix(ItemsRender(rest, false) + [93]);
    SpacesNone();
  }

  lemma CommaText(w: seq<Byte>, items: ItemsText)
    requires Spaces(w) && ItemsAccepted(items) && !items.LastComma? && (items.Item? ==> w == [])
    ensures var rest := if items.Item? then items else LastComma(w);
      ItemsAccepted(rest) && ItemsStored(rest) == ItemsStored(items)
      && ItemsRender(rest, false) + [93] == [COMMA] + (w + (ItemsRender(items, true) + [93]))
  {
    hide Render, Stored, ValueAccepted;
    if items.Item? {
      var x := items.before + (Render(items.v) + (items.after + ItemsRender(items.rest, false)));
      NoPrefix(x);
      NoPrefix(x + [93]);
      Associates([COMMA], x, [93]);
    } else {
      Associates([COMMA], w, [93]);
      NoPrefix([93]);
    }
  }

  lemma {:induction false} AfterElement(t: Text, i: int, acc: seq<Json>) returns (w: seq<Byte>, rest: ItemsText)
    requires 0 <= i && |acc| <= UINT_MAX && Elements(t, i, acc, true).Ok?
    ensures RestItems(t, i, acc, w, rest, Elements(t, i, acc, true))
    decreases |t| - i, 2
  {
    hide At, Value, Elements, ItemsAre, RestItems, Spaces;
    ElementsInText(t, i, acc, true);
    if t[i] == 93 {
      w, rest := [], NoItem;
      NoItems(t, i, acc);
    } else if IsSpace(t[i]) {
      w, rest := AfterElement(t, i + 1, acc);
      RestSpace(t, i, acc, w, rest, Elements(t, i, acc, true));
      w := [t[i]] + w;
    } else {
      var u, items := ElementsParsed(t, i + 1, acc);
      w := [];
      rest := CommaItems(t, i, acc, u, items, Elements(t, i, acc, true));
    }
  }

  lemma ArrayIs(t: Text, i: int, w: seq<Byte>, items: ItemsText, r: Result<Json>) returns (v: ValueText)
    requires 0 <= i < |t| && t[i] == 91 && ItemsAre(t, i + 1, [], w, items, r)
    ensures ValueAccepted(v) && At(t, i, Render(v)) && r == Ok(Stored(v), i + |Render(v)|)
  {
    hide At, Spaces, ItemsRender, ItemsStored, ItemsAccepted;
    v := ArrayText(w, items);
    NoPrefix(ItemsStored(items));
    AtOne(t, i);
    AtJoin(t, i, [91], w + (ItemsRender(items, true) + [93]));
  }

  lemma ObjectIs(t: Text, i: int, w: seq<Byte>, members: MembersText, r: Result<Json>) returns (v: ValueText)
    requires 0 <= i < |t| && t[i] == 123 && MembersAre(t, i + 1, [], [], w, members, r)
    ensures ValueAccepted(v) && At(t, i, Render(v)) && r == Ok(Stored(v), i + |Render(v)|)
  {
    hide At, Spaces, MembersRender, KeysStored, ValuesStored, MembersAccepted;
    v := ObjectText(w, members);
    NoPrefix(KeysStored(members));
    NoPrefix(ValuesStored(members));
    AtOne(t, i);
    AtJoin(t, i, [123], w + (MembersRender(members, true) + [125]));
  }

  // ---------------------------------------------------------------- objects

  ghost predicate MembersAre(t: Text, i: int, keys: seq<seq<Byte>>, acc: seq<Json>, w: seq<Byte>, members: MembersText,
          r: Result<Json>) {
    && Spaces(w) && MembersAccepted(members) && !members.FinalComma? && (members.Member? ==> w == [])
    && At(t, i, w + (MembersRender(members, true) + [125])) && |acc + ValuesStored(members)| <= UINT_MAX
    && r == Ok(Box(true, keys + KeysStored(members), acc + ValuesStored(members)),
        i + |w + (MembersRender(members, true) + [125])|)
  }

  ghost predicate RestMembers(t: Text, i: int, keys: seq<seq<Byte>>, acc: seq<Json>, w: seq<Byte>, rest: MembersText,
          r: Result<Json>) {
    && Spaces(w) && MembersAccepted(rest) && At(t, i, w + (MembersRender(rest, false) + [125]))
    && |acc + ValuesStored(rest)| <= UINT_MAX
    && r == Ok(Box(true, keys + KeysStored(rest), acc + ValuesStored(rest)),
        i + |w + (MembersRender(rest, false) + [125])|)
  }

  // A colon between white space, and a value.
  ghost predicate ColonIs(t: Text, i: int, w1: seq<Byte>, w2: seq<Byte>, v: ValueText, r: Result<Json>) {
    && Spaces(w1) && Spaces(w2) && ValueAccepted(v) && At(t, i, w1 + ([COLON] + (w2 + Render(v))))
    && r == Ok(Stored(v), i + |w1 + ([COLON] + (w2 + Render(v)))|)
  }

  lemma {:induction false} NoColonParsed(t: Text, i: int) returns (w: seq<Byte>, v: ValueText)
    requires 0 <= i && ColonValue(t, i, false).Ok?
    ensures ValueIs(t, i, w, v, ColonValue(t, i, false))
    decreases |t| - i, 2
  {
    hide At, Value, Render, Stored, ValueAccepted, ValueIs, Spaces;
    if IsSpace(t[i]) {
      w, v := NoColonParsed(t, i + 1);
      ValueSpace(t, i, w, v, ColonValue(t, i, false));
      w := [t[i]] + w;
    } else {
      w, v := ValueParsed(t, i);
    }
  }

  lemma {:induction false} ColonParsed(t: Text, i: int) returns (w1: seq<Byte>, w2: seq<Byte>, v: ValueText)
    requires 0 <= i && ColonValue(t, i, true).Ok?
    ensures ColonIs(t, i, w1, w2, v, ColonValue(t, i, true))
    decreases |t| - i, 2
  {
    hide At, Value, Render, Stored, ValueAccepted, Spaces;
    if IsSpace(t[i]) {
      w1, w2, v := ColonParsed(t, i + 1);
      SpaceAt(t, i, w1, [COLON] + (w2 + Render(v)));
      w1 := [t[i]] + w1;
    } else {
      w2, v := NoColonParsed(t, i + 1);
      w1 := [];
      AtOne(t, i);
      AtJoin(t, i, [COLON], w2 + Render(v));
      NoPrefix([COLON] + (w2 + Render(v)));
      SpacesNone();
    }
  }

  lemma MembersInText(t: Text, i: int, keys: seq<seq<Byte>>, acc: seq<Json>, comma: bool)
    requires 0 <= i && |keys| == |acc| && Members(t, i, keys, acc, comma).Ok?
    ensures i < |t| && (IsSpace(t[i]) ==> Members(t, i, keys, acc, comma) == Members(t, i + 1, keys, acc, comma))
    ensures t[i] == 125 ==> Members(t, i, keys, acc, comma) == Ok(Box(true, keys, acc), i + 1)
    ensures !IsSpace(t[i]) && t[i] != 125 && comma ==>
      t[i] == COMMA && Members(t, i, keys, acc, comma) == Members(t, i + 1, keys, acc, false)
    ensures !IsSpace(t[i]) && t[i] != 125 && !comma ==>
      var s := StringFrom(t, i + 1, [], false);
      t[i] == QUOTE && s.Ok? && ColonValue(t, s.next, true).Ok? && |acc| + 1 <= UINT_MAX
      && Members(t, i, keys, acc, comma) ==
        Members(t, ColonValue(t, s.next, true).next, keys + [s.value], acc + [ColonValue(t, s.next, true).value], true)
  {
    hide StringFrom, ColonValue;
  }

  lemma NoMembers(t: Text, i: int, keys: seq<seq<Byte>>, acc: seq<Json>)
    requires 0 <= i < |t| && t[i] == 125 && |acc| <= UINT_MAX
    ensures MembersAre(t, i, keys, acc, [], NoMember, Ok(Box(true, keys, acc), i + 1))
    ensures RestMembers(t, i, keys, acc, [], NoMember, Ok(Box(true, keys, acc), i + 1))
  {
    AtOne(t, i);
    hide At;
    assert [] + ([] + [125 as Byte]) == [125] && acc + [] == acc && keys + [] == keys;
  }

  lemma MembersSpace(t: Text, i: int, keys: seq<seq<Byte>>, acc: seq<Json>, w: seq<Byte>, r: Result<Json>)
    requires 0 <= i < |t| && IsSpace(t[i]) && MembersAre(t, i + 1, keys, acc, w, NoMember, r)
    ensures MembersAre(t, i, keys, acc, [t[i]] + w, NoMember, r)
  {
    hide At, Spaces;
    SpaceAt(t, i, w, MembersRender(NoMember, true) + [125]);
  }

  lemma RestMembersSpace(t: Text, i: int, keys: seq<seq<Byte>>, acc: seq<Json>, w: seq<Byte>, rest: MembersText,
          r: Result<Json>)
    requires 0 <= i < |t| && IsSpace(t[i]) && RestMembers(t, i + 1, keys, acc, w, rest, r)
    ensures RestMembers(t, i, keys, acc, [t[i]] + w, rest, r)
  {
    hide At, Spaces, MembersRender, KeysStored, ValuesStored, MembersAccepted;
    SpaceAt(t, i, w, MembersRender(rest, false) + [125]);
  }

  lemma MemberSpace(t: Text, i: int, keys: seq<seq<Byte>>, acc: seq<Json>, members: MembersText, r: Result<Json>)
    returns (members': MembersText)
    requires 0 <= i < |t| && IsSpace(t[i]) && members.Member? && MembersAre(t, i + 1, keys, acc, [], members, r)
    ensures members'.Member? && MembersAre(t, i, keys, acc, [], members', r)
  {
    hide At, Spaces, MembersRender, KeysStored, ValuesStored, MembersAccepted;
    members' := members.(before := [t[i]] + members.before);
    MemberSpaceText(t[i], members);
    var x, y := MembersRender(members, true) + [125], MembersRender(members', true) + [125];
    NoPrefix(x);
    NoPrefix(y);
    Associates([t[i]], MembersRender(members, true), [125]);
    AtOne(t, i);
    AtJoin(t, i, [t[i]], x);
    SpacesNone();
  }

  // A member from its key on.
  ghost function MemberTail(key: seq<CharText>, w1: seq<Byte>, w2: seq<Byte>, v: ValueText, after: seq<Byte>,
          rest: MembersText): seq<Byte> {
    [QUOTE] + (CharsRender(key) + ([QUOTE] + (w1 + ([COLON] + (w2 +
      (Render(v) + (after + MembersRender(rest, false))))))))
  }

  lemma MemberSpaceText(b: Byte, members: MembersText)
    requires members.Member? && IsSpace(b) && MembersAccepted(members)
    ensures var m := members.(before := [b] + members.before);
      MembersAccepted(m) && KeysStored(m) == KeysStored(members) && ValuesStored(m) == ValuesStored(members)
      && MembersRender(m, true) == [b] + MembersRender(members, true)
  {
    SpaceFirst(b, members.before);
    MemberText(members);
    MemberText(members.(before := [b] + members.before));
    hide Render, Stored, ValueAccepted, CharsRender, CharsStored, CharsAccepted, MemberTail;
    Associates([b], members.before, MemberTail(members.key, members.w1, members.w2, members.v, members.after,
      members.rest));
  }

  lemma MemberText(m: MembersText)
    requires m.Member?
    ensures MembersRender(m, true) == m.before + MemberTail(m.key, m.w1, m.w2, m.v, m.after, m.rest)
    ensures KeysStored(m) == [CharsStored(m.key)] + KeysStored(m.rest)
    ensures ValuesStored(m) == [Stored(m.v)] + ValuesStored(m.rest)
  {
    hide Render, Stored, CharsRender, CharsStored;
    NoPrefix(m.before + MemberTail(m.key, m.w1, m.w2, m.v, m.after, m.rest));
  }

  // A key, a colon and a value, and what comes after.
  lemma OneMember(t: Text, i: int, keys: seq<seq<Byte>>, acc: seq<Json>, key: seq<CharText>, w1: seq<Byte>,
          w2: seq<Byte>, v: ValueText, after: seq<Byte>, rest: MembersText, c: Result<Json>, r: Result<Json>)
    requires 0 <= i < |t| && t[i] == QUOTE && CharsAccepted(key) && At(t, i + 1, CharsRender(key) + [QUOTE])
    requires ColonIs(t, i + 2 + |CharsRender(key)|, w1, w2, v, c)
    requires RestMembers(t, c.next, keys + [CharsStored(key)], acc + [Stored(v)], after, rest, r)
    ensures MembersAre(t, i, keys, acc, [], Member([], key, w1, w2, v, after, rest), r)
  {
    hide At, Spaces, MembersRender, KeysStored, ValuesStored, MembersAccepted, Render, Stored, ValueAccepted;
    hide CharsRender, CharsStored, CharsAccepted, MemberTail;
    var m := Member([], key, w1, w2, v, after, rest);
    SpacesNone();
    MemberText(m);
    MemberAccepted(m);
    MemberAt(t, i, key, w1, w2, v, after, rest);
    NoPrefix(MemberTail(key, w1, w2, v, after, rest));
    NoPrefix(MembersRender(m, true) + [125]);
    Associates(acc, [Stored(v)], ValuesStored(rest));
    Associates(keys, [CharsStored(key)], KeysStored(rest));
  }

  lemma MemberAccepted(m: MembersText)
    requires m.Member? && Spaces(m.before) && CharsAccepted(m.key) && Spaces(m.w1) && Spaces(m.w2)
    requires ValueAccepted(m.v) && Spaces(m.after) && MembersAccepted(m.rest)
    ensures MembersAccepted(m)
  {
  }

  lemma MemberAt(t: Text, i: int, key: seq<CharText>, w1: seq<Byte>, w2: seq<Byte>, v: ValueText, after: seq<Byte>,
          rest: MembersText)
    requires 0 <= i < |t| && t[i] == QUOTE && At(t, i + 1, CharsRender(key) + [QUOTE])
    requires At(t, i + 2 + |CharsRender(key)|, w1 + ([COLON] + (w2 + Render(v))))
    requires At(t, i + 2 + |CharsRender(key)| + |w1 + ([COLON] + (w2 + Render(v)))|,
      after + (MembersRender(rest, false) + [125]))
    ensures At(t, i, MemberTail(key, w1, w2, v, after, rest) + [125])
    ensures |MemberTail(key, w1, w2, v, after, rest) + [125]| == 2 + |CharsRender(key)|
      + |w1 + ([COLON] + (w2 + Render(v)))| + |after + (MembersRender(rest, false) + [125])|
  {
    hide At, CharsRender, Render, MembersRender;
    var k, x, z := CharsRender(key), Render(v), MembersRender(rest, false);
    AtOne(t, i);
    AtJoin(t, i + 1, k + [QUOTE], w1 + ([COLON] + (w2 + x)));
    AtJoin(t, i + 1, k + [QUOTE] + (w1 + ([COLON] + (w2 + x))), after + (z + [125]));
    AtJoin(t, i, [QUOTE], k + [QUOTE] + (w1 + ([COLON] + (w2 + x))) + (after + (z + [125])));
    MemberGrouped(k, w1, w2, x, after, z);
  }

  lemma MemberGrouped(k: seq<Byte>, w1: seq<Byte>, w2: seq<Byte>, x: seq<Byte>, after: seq<Byte>, z: seq<Byte>)
    ensures [QUOTE] + (k + [QUOTE] + (w1 + ([COLON] + (w2 + x))) + (after + (z + [125])))
      == [QUOTE] + (k + ([QUOTE] + (w1 + ([COLON] + (w2 + (x + (after + z))))))) + [125]
  {
    MemberRegroup(k, w1, w2, x, after, z, [125]);
    Associates(after, z, [125]);
    var a := after + (z + [125]);
    Associates(w2, x, a);
    Associates([COLON], w2 + x, a);
    Associates(w1, [COLON] + (w2 + x), a);
    Associates(k + [QUOTE], w1 + ([COLON] + (w2 + x)), a);
  }

  lemma {:induction false} MembersParsed(t: Text, i: int, keys: seq<seq<Byte>>, acc: seq<Json>)
    returns (w: seq<Byte>, members: MembersText)
    requires 0 <= i && |keys| == |acc| <= UINT_MAX && Members(t, i, keys, acc, false).Ok?
    ensures MembersAre(t, i, keys, acc, w, members, Members(t, i, keys, acc, false))
    decreases |t| - i, 2
  {
    hide At, Value, Render, Stored, ValueAccepted, Members, MembersAre, RestMembers, Spaces, StringFrom, ColonValue;
    hide CharsRender, CharsStored, CharAccepted, ColonIs;
    MembersInText(t, i, keys, acc, false);
    if t[i] == 125 {
      w, members := [], NoMember;
      NoMembers(t, i, keys, acc);
    } else if IsSpace(t[i]) {
      w, members := MembersParsed(t, i + 1, keys, acc);
      MembersView(t, i + 1, keys, acc, w, members, Members(t, i, keys, acc, false));
      if members.Member? {
        members := MemberSpace(t, i, keys, acc, members, Members(t, i, keys, acc, false));
      } else {
        MembersSpace(t, i, keys, acc, w, Members(t, i, keys, acc, false));
        w := [t[i]] + w;
      }
    } else {
      var key := StringParsed(t, i + 1, []);
      NoPrefix(CharsStored(key));
      var w1, w2, v := ColonParsed(t, i + 2 + |CharsRender(key)|);
      var c := ColonValue(t, i + 2 + |CharsRender(key)|, true);
      ColonView(t, i + 2 + |CharsRender(key)|, w1, w2, v, c);
      var after, rest := AfterMember(t, c.next, keys + [CharsStored(key)], acc + [Stored(v)]);
      OneMember(t, i, keys, acc, key, w1, w2, v, after, rest, c, Members(t, i, keys, acc, false));
      w, members := [], Member([], key, w1, w2, v, after, rest);
    }
  }

  lemma ColonView(t: Text, i: int, w1: seq<Byte>, w2: seq<Byte>, v: ValueText, r: Result<Json>)
    requires ColonIs(t, i, w1, w2, v, r)
    ensures r.Ok? && r.value == Stored(v)
  {
  }

  lemma MembersView(t: Text, i: int, keys: seq<seq<Byte>>, acc: seq<Json>, w: seq<Byte>, members: MembersText,
          r: Result<Json>)
    requires MembersAre(t, i, keys, acc, w, members, r)
    ensures !members.FinalComma? && (members.Member? ==> w == [])
  {
  }

  lemma CommaMembers(t: Text, i: int, keys: seq<seq<Byte>>, acc: seq<Json>, w: seq<Byte>, members: MembersText,
          r: Result<Json>) returns (rest: MembersText)
    requires 0 <= i < |t| && t[i] == COMMA && MembersAre(t, i + 1, keys, acc, w, members, r)
    ensures RestMembers(t, i, keys, acc, [], rest, r)
  {
    rest := if members.Member? then members else FinalComma(w);
    CommaMemberText(w, members);
    hide At, Spaces, MembersRender, KeysStored, ValuesStored, MembersAccepted;
    var x := w + (MembersRender(members, true) + [125]);
    AtOne(t, i);
    AtJoin(t, i, [COMMA], x);
    NoPrefix(MembersRender(rest, false) + [125]);
    SpacesNone();
  }

  lemma CommaMemberText(w: seq<Byte>, members: MembersText)
    requires Spaces(w) && MembersAccepted(members) && !members.FinalComma? && (members.Member? ==> w == [])
    ensures var rest := if members.Member? then members else FinalComma(w);
      MembersAccepted(rest) && KeysStored(rest) == KeysStored(members) && ValuesStored(rest) == ValuesStored(members)
      && MembersRender(rest, false) + [125] == [COMMA] + (w + (MembersRender(members, true) + [125]))
  {
    hide Render, Stored, ValueAccepted, CharsRender, CharsStored, CharsAccepted;
    if members.Member? {
      MemberText(members);
      var m := members;
      var x := m.before + MemberTail(m.key, m.w1, m.w2, m.v, m.after, m.rest);
      NoPrefix(x + [125]);
      Associates([COMMA], x, [125]);
    } else {
      Associates([COMMA], w, [125]);
      NoPrefix([125]);
    }
  }

  lemma {:induction false} AfterMember(t: Text, i: int, keys: seq<seq<Byte>>, acc: seq<Json>)
    returns (w: seq<Byte>, rest: MembersText)
    requires 0 <= i && |keys| == |acc| <= UINT_MAX && Members(t, i, keys, acc, true).Ok?
    ensures RestMembers(t, i, keys, acc, w, rest, Members(t, i, keys, acc, true))
    decreases |t| - i, 2
  {
    hide At, Value, Members, MembersAre, RestMembers, Spaces;
    MembersInText(t, i, keys, acc, true);
    if t[i] == 125 {
      w, rest := [], NoMember;
      NoMembers(t, i, keys, acc);
    } else if IsSpace(t[i]) {
      w, rest := AfterMember(t, i + 1, keys, acc);
      RestMembersSpace(t, i, keys, acc, w, rest, Members(t, i, keys, acc, true));
      w := [t[i]] + w;
    } else {
      var u, members := MembersParsed(t, i + 1, keys, acc);
      w := [];
      rest := CommaMembers(t, i, keys, acc, u, members, Members(t, i, keys, acc, true));
    }
  }

  // ---------------------------------------------------------------- documents

  // White space up to the terminator.
  lemma {:induction false} TrailingParsed(t: Text, i: int, v: Json) returns (w: seq<Byte>)
    requires Terminated(t) && 0 <= i && Trailing(t, i, v).Ok?
    ensures Spaces(w) && 0 <= i <= |t| && t[i..] == w + [0]
    decreases |t| - i
  {
    if t[i] == 0 {
      w := [];
    } else {
      w := TrailingParsed(t, i + 1, v);
      w := [t[i]] + w;
    }
  }

  /** A text of the given form. */
  ghost predicate Written(t: Text, before: seq<Byte>, v: ValueText, after: seq<Byte>) {
    ValueAccepted(v) && Spaces(before) && Spaces(after) && t == before + (Render(v) + (after + [0]))
  }

  lemma DocumentParsed(t: Text) returns (before: seq<Byte>, v: ValueText, after: seq<Byte>)
    requires Terminated(t) && Document(t).Ok?
    ensures Written(t, before, v, after) && Document(t).value == Stored(v)
  {
    hide Value, Render, Stored, ValueAccepted, Trailing, Spaces;
    before, v := ValueParsed(t, 0);
    var j := |before + Render(v)|;
    after := TrailingParsed(t, j, Stored(v));
    AtHead(t, 0, before + Render(v));
    assert t == t[..j] + t[j..] && t[..j] == t[0..j];
    Associates(before, Render(v), after + [0]);
  }

  /** The parser's grammar accepts exactly the texts of this form, each with its stored value. */
  lemma AcceptedExactly(t: Text)
    requires Terminated(t)
    ensures Document(t).Ok? <==> exists before, v, after :: Written(t, before, v, after)
    ensures forall before, v, after :: Written(t, before, v, after) ==>
      Document(t).Ok? && Document(t).value == Stored(v)
  {
    hide Render, Stored, ValueAccepted, Spaces, Document;
    if Document(t).Ok? {
      var before, v, after := DocumentParsed(t);
    }
    forall before, v, after | Written(t, before, v, after)
      ensures Document(t).Ok? && Document(t).value == Stored(v)
    {
      RoundTrip(before, v, after);
    }
  }
}
