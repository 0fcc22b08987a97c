/**
 * JSON texts (sections 2 to 7 of RFC 8259), with any white space and any escapes, the wider class of texts that
 * the parser accepts, and what it stores for them. JsonMeaning says when that is the value, and JsonAccepted
 * that nothing else is accepted.
 */
module JsonText {
  import opened BStrings
  import opened JsonGrammar
  import opened JsonNumbers

  /** A character of a string as it is written. */
  datatype CharText = Raw(b: Byte) | Short(c: Byte) | Code(h: seq<Byte>)

  datatype ValueText =
    | NullText
    | BoolText(b: bool)
    | NumText(n: NumberText)
    | StringText(cs: seq<CharText>)
    | ArrayText(inner: seq<Byte>, items: ItemsText)
    | ObjectText(inner: seq<Byte>, members: MembersText)

  // A comma before the closing bracket is not JSON.
  datatype ItemsText = NoItem | LastComma(w: seq<Byte>) |
      Item(before: seq<Byte>, v: ValueText, after: seq<Byte>, rest: ItemsText)

  datatype MembersText = NoMember | FinalComma(w: seq<Byte>) |
      Member(before: seq<Byte>, key: seq<CharText>, w1: seq<Byte>, w2: seq<Byte>, v: ValueText, after: seq<Byte>,
             rest: MembersText)

  ghost predicate Spaces(w: seq<Byte>) { forall k :: 0 <= k < |w| ==> IsSpace(w[k]) }

  function CharRender(c: CharText): seq<Byte> {
    match c
    case Raw(b) => [b]
    case Short(c) => [BACKSLASH, c]
    case Code(h) => [BACKSLASH, 117] + h
  }

  /** The bytes of the signs and words. */
  lemma Literals()
    ensures QUOTE as char == '\"' && BACKSLASH as char == '\\' && COMMA as char == ',' && COLON as char == ':'
    ensures 91 as char == '[' && 93 as char == ']' && 123 as char == '{' && 125 as char == '}' && 117 as char == 'u'
    ensures |TRUE| == |NULL| == 4 && |FALSE| == 5
    ensures forall k :: 0 <= k < 4 ==> TRUE[k] as char == "true"[k] && NULL[k] as char == "null"[k]
    ensures forall k :: 0 <= k < 5 ==> FALSE[k] as char == "false"[k]
    ensures forall b: Byte :: IsSpace(b) <==> b as char in {' ', '\t', '\r', '\n'}
    ensures forall b: Byte :: IsDigit(b) <==> '0' <= b as char <= '9'
    ensures forall b: Byte :: CharOk(Short(b)) <==> b as char in {'\"', '\\', '/', 'b', 'f', 'n', 'r', 't'}
  {
  }

  /** A quote, backslash or control character is escaped; the short escapes are those of the RFC. */
  ghost predicate CharOk(c: CharText) {
    match c
    case Raw(b) => 32 <= b && b != QUOTE && b != BACKSLASH
    case Short(c) => c in {34, 92, 47, 98, 102, 110, 114, 116}
    case Code(h) => |h| == 4 && HexWord(h, 0).Ok?
  }

  /** The parser takes any byte as it stands, and any escaped byte. */
  ghost predicate CharAccepted(c: CharText) {
    match c
    case Raw(b) => b != 0 && b != QUOTE && b != BACKSLASH
    case Short(c) => c != 0 && c as char != 'u'
    case Code(h) => |h| == 4 && HexWord(h, 0).Ok?
  }

  /** The bytes that the parser stores for a character. */
  function CharStored(c: CharText): seq<Byte> {
    match c
    case Raw(b) => [b]
    case Short(c) => [Escape(c)]
    case Code(h) => var u := HexWord(h, 0); if u.Ok? then Utf8(u.value) else []
  }

  function CharsRender(cs: seq<CharText>): seq<Byte> {
    if cs == [] then [] else CharRender(cs[0]) + CharsRender(cs[1..])
  }

  function CharsStored(cs: seq<CharText>): seq<Byte> {
    if cs == [] then [] else CharStored(cs[0]) + CharsStored(cs[1..])
  }

  ghost predicate CharsOk(cs: seq<CharText>) {
    (forall k :: 0 <= k < |cs| ==> CharOk(cs[k])) && |CharsStored(cs)| <= UINT_MAX
  }

  ghost predicate CharsAccepted(cs: seq<CharText>) {
    (forall k :: 0 <= k < |cs| ==> CharAccepted(cs[k])) && |CharsStored(cs)| <= UINT_MAX
  }

  function Render(v: ValueText): seq<Byte>
    decreases v, 1
  {
    match v
    case NullText => NULL
    case BoolText(b) => if b then TRUE else FALSE
    case NumText(n) => NumberRender(n)
    case StringText(cs) => [QUOTE] + (CharsRender(cs) + [QUOTE])
    case ArrayText(w, items) => [91] + (w + (ItemsRender(items, true) + [93]))
    case ObjectText(w, members) => [123] + (w + (MembersRender(members, true) + [125]))
  }

  function ItemsRender(items: ItemsText, first: bool): seq<Byte>
    decreases items, 0
  {
    match items
    case NoItem => []
    case LastComma(w) => [COMMA] + w
    case Item(before, v, after, rest) =>
      (if first then [] else [COMMA]) + (before + (Render(v) + (after + ItemsRender(rest, false))))
  }

  function MembersRender(members: MembersText, first: bool): seq<Byte>
    decreases members, 0
  {
    match members
    case NoMember => []
    case FinalComma(w) => [COMMA] + w
    case Member(before, key, w1, w2, v, after, rest) =>
      (if first then [] else [COMMA]) +
        (before + ([QUOTE] + (CharsRender(key) + ([QUOTE] + (w1 + ([COLON] + (w2 +
        (Render(v) + (after + MembersRender(rest, false))))))))))
  }

  /** The value that the parser makes of a text: integers wrap around, and surrogates are not paired. */
  ghost function Stored(v: ValueText): Json
    decreases v, 1
  {
    match v
    case NullText => Null
    case BoolText(b) => Bool(b)
    case NumText(n) => NumberStored(n)
    case StringText(cs) => Str(CharsStored(cs))
    case ArrayText(_, items) => Box(false, [], ItemsStored(items))
    case ObjectText(_, members) => Box(true, KeysStored(members), ValuesStored(members))
  }

  ghost function ItemsStored(items: ItemsText): seq<Json>
    decreases items, 0
  {
    match items
    case Item(_, v, _, rest) => [Stored(v)] + ItemsStored(rest)
    case _ => []
  }

  ghost function KeysStored(members: MembersText): (r: seq<seq<Byte>>)
    decreases members, 0
  {
    match members
    case Member(_, key, _, _, _, _, rest) => [CharsStored(key)] + KeysStored(rest)
    case _ => []
  }

  ghost function ValuesStored(members: MembersText): (r: seq<Json>)
    ensures |r| == |KeysStored(members)|
    decreases members, 0
  {
    match members
    case Member(_, _, _, _, v, _, rest) => [Stored(v)] + ValuesStored(rest)
    case _ => []
  }

  /** The text is JSON, and no string or container is longer than the parser's counters allow. */
  ghost predicate ValueOk(v: ValueText)
    decreases v, 1
  {
    match v
    case NumText(n) => NumberOk(n)
    case StringText(cs) => CharsOk(cs)
    case ArrayText(w, items) => Spaces(w) && ItemsOk(items) && |ItemsStored(items)| <= UINT_MAX
    case ObjectText(w, members) => Spaces(w) && MembersOk(members) && |ValuesStored(members)| <= UINT_MAX
    case _ => true
  }

  ghost predicate ItemsOk(items: ItemsText)
    decreases items, 0
  {
    match items
    case NoItem => true
    case LastComma(_) => false
    case Item(before, v, after, rest) => Spaces(before) && ValueOk(v) && Spaces(after) && ItemsOk(rest)
  }

  ghost predicate MembersOk(members: MembersText)
    decreases members, 0
  {
    match members
    case NoMember => true
    case FinalComma(_) => false
    case Member(before, key, w1, w2, v, after, rest) =>
      Spaces(before) && CharsOk(key) && Spaces(w1) && Spaces(w2) && ValueOk(v) && Spaces(after) && MembersOk(rest)
  }

  /** The parser accepts the text. */
  ghost predicate ValueAccepted(v: ValueText)
    decreases v, 1
  {
    match v
    case NumText(n) => NumberAccepted(n)
    case StringText(cs) => CharsAccepted(cs)
    case ArrayText(w, items) =>
      Spaces(w) && ItemsAccepted(items) && !items.LastComma? && |ItemsStored(items)| <= UINT_MAX
    case ObjectText(w, members) =>
      Spaces(w) && MembersAccepted(members) && !members.FinalComma? && |ValuesStored(members)| <= UINT_MAX
    case _ => true
  }

  ghost predicate ItemsAccepted(items: ItemsText)
    decreases items, 0
  {
    match items
    case NoItem => true
    case LastComma(w) => Spaces(w)
    case Item(before, v, after, rest) => Spaces(before) && ValueAccepted(v) && Spaces(after) && ItemsAccepted(rest)
  }

  ghost predicate MembersAccepted(members: MembersText)
    decreases members, 0
  {
    match members
    case NoMember => true
    case FinalComma(w) => Spaces(w)
    case Member(before, key, w1, w2, v, after, rest) =>
      Spaces(before) && CharsAccepted(key) && Spaces(w1) && Spaces(w2) && ValueAccepted(v) && Spaces(after)
      && MembersAccepted(rest)
  }

  /** All of JSON is accepted. */
  lemma {:induction false} OkAccepted(v: ValueText)
    requires ValueOk(v)
    ensures ValueAccepted(v)
    decreases v, 1
  {
    hide ItemsOk, MembersOk, ItemsAccepted, MembersAccepted, ItemsStored, ValuesStored, CharsStored;
    match v
    case ArrayText(_, items) =>
      ItemsOkAccepted(items);
    case ObjectText(_, members) =>
      MembersOkAccepted(members);
    case _ =>
  }

  lemma {:induction false} ItemsOkAccepted(items: ItemsText)
    requires ItemsOk(items)
    ensures ItemsAccepted(items) && !items.LastComma?
    decreases items, 0
  {
    hide ValueOk, ValueAccepted;
    if items.Item? {
      OkAccepted(items.v);
      ItemsOkAccepted(items.rest);
    }
  }

  lemma {:induction false} MembersOkAccepted(members: MembersText)
    requires MembersOk(members)
    ensures MembersAccepted(members) && !members.FinalComma?
    decreases members, 0
  {
    hide ValueOk, ValueAccepted, CharsStored;
    if members.Member? {
      OkAccepted(members.v);
      MembersOkAccepted(members.rest);
    }
  }

  lemma {:induction false} SkipElements(t: Text, i: int, w: seq<Byte>, items: seq<Json>, comma: bool)
    requires At(t, i, w) && Spaces(w)
    ensures Elements(t, i, items, comma) == Elements(t, i + |w|, items, comma)
    decreases |w|
  {
    if w != [] {
      assert w == [w[0]] + w[1..];
      AtSplit(t, i, [w[0]], w[1..]);
      SkipElements(t, i + 1, w[1..], items, comma);
    }
  }

  lemma {:induction false} SkipMembers(t: Text, i: int, w: seq<Byte>, keys: seq<seq<Byte>>, items: seq<Json>,
          comma: bool)
    requires At(t, i, w) && Spaces(w) && |keys| == |items|
    ensures Members(t, i, keys, items, comma) == Members(t, i + |w|, keys, items, comma)
    decreases |w|
  {
    if w != [] {
      assert w == [w[0]] + w[1..];
      AtSplit(t, i, [w[0]], w[1..]);
      SkipMembers(t, i + 1, w[1..], keys, items, comma);
    }
  }

  lemma {:induction false} SkipColon(t: Text, i: int, w: seq<Byte>, colon: bool)
    requires At(t, i, w) && Spaces(w)
    ensures ColonValue(t, i, colon) == ColonValue(t, i + |w|, colon)
    decreases |w|
  {
    if w != [] {
      assert w == [w[0]] + w[1..];
      AtSplit(t, i, [w[0]], w[1..]);
      SkipColon(t, i + 1, w[1..], colon);
    }
  }

  lemma {:induction false} SkipValue(t: Text, i: int, w: seq<Byte>)
    requires At(t, i, w) && Spaces(w)
    ensures Value(t, i) == Value(t, i + |w|)
    decreases |w|
  {
    if w != [] {
      assert w == [w[0]] + w[1..];
      AtSplit(t, i, [w[0]], w[1..]);
      SkipValue(t, i + 1, w[1..]);
    }
  }

  lemma {:induction false} SkipTrailing(t: Text, i: int, w: seq<Byte>, v: Json)
    requires At(t, i, w) && Spaces(w)
    ensures Trailing(t, i, v) == Trailing(t, i + |w|, v)
    decreases |w|
  {
    if w != [] {
      assert w == [w[0]] + w[1..];
      AtSplit(t, i, [w[0]], w[1..]);
      SkipTrailing(t, i + 1, w[1..], v);
    }
  }

  lemma HexAt(t: Text, i: int, h: seq<Byte>)
    requires At(t, i, h) && |h| == 4 && HexWord(h, 0).Ok?
    ensures HexWord(t, i) == Ok(HexWord(h, 0).value, i + 4)
  {
    assert forall k :: 0 <= k < 4 ==> t[i + k] == t[i..i + 4][k] == h[k];
  }

  lemma CharRead(t: Text, i: int, acc: seq<Byte>, c: CharText)
    requires At(t, i, CharRender(c)) && CharAccepted(c) && |acc| <= UINT_MAX
    ensures StringFrom(t, i, acc, false) == StringFrom(t, i + |CharRender(c)|, acc + CharStored(c), false)
  {
    match c
    case Raw(b) => AtSplit(t, i, [b], []);
    case Short(b) =>
      assert CharRender(c) == [BACKSLASH] + [b];
      AtSplit(t, i, [BACKSLASH], [b]);
      AtSplit(t, i + 1, [b], []);
      assert StringFrom(t, i, acc, false) == StringFrom(t, i + 1, acc, true);
    case Code(h) =>
      assert CharRender(c) == [BACKSLASH] + ([117] + h);
      AtSplit(t, i, [BACKSLASH], [117] + h);
      AtSplit(t, i + 1, [117], h);
      HexAt(t, i + 2, h);
      assert StringFrom(t, i, acc, false) == StringFrom(t, i + 1, acc, true);
  }

  lemma {:induction false} StringRead(t: Text, i: int, acc: seq<Byte>, cs: seq<CharText>)
    requires At(t, i, CharsRender(cs) + [QUOTE]) && (forall k :: 0 <= k < |cs| ==> CharAccepted(cs[k]))
    requires |acc| + |CharsStored(cs)| <= UINT_MAX
    ensures StringFrom(t, i, acc, false) == Ok(acc + CharsStored(cs), i + |CharsRender(cs)| + 1)
    decreases |cs|
  {
    if cs == [] {
      assert CharsRender(cs) + [QUOTE] == [QUOTE] + [];
      AtSplit(t, i, [QUOTE], []);
      assert acc + [] == acc;
    } else {
      var a, b := CharRender(cs[0]), CharsRender(cs[1..]);
      assert CharsRender(cs) + [QUOTE] == a + (b + [QUOTE]);
      AtSplit(t, i, a, b + [QUOTE]);
      CharRead(t, i, acc, cs[0]);
      StringRead(t, i + |a|, acc + CharStored(cs[0]), cs[1..]);
      Associates(acc, CharStored(cs[0]), CharsStored(cs[1..]));
    }
  }

  lemma AfterEnds(t: Text, i: int, w: seq<Byte>, r: seq<Byte>)
    requires At(t, i, w) && Spaces(w) && At(t, i + |w|, r) && r != [] && !NumByte(r[0])
    ensures Ends(t, i)
  {
    assert t[i + |w|] == t[i + |w|..i + |w| + |r|][0];
    if w != [] { assert t[i] == t[i..i + |w|][0]; }
  }

  // An opening bracket, white space, and the rest up to the closing bracket.
  lemma OpenParts(t: Text, i: int, b: Byte, w: seq<Byte>, inner: seq<Byte>, z: Byte)
    requires At(t, i, [b] + (w + (inner + [z])))
    ensures 0 <= i < |t| && t[i] == b && At(t, i + 1, w) && At(t, i + 1 + |w|, inner + [z])
  {
    AtSplit(t, i, [b], w + (inner + [z]));
    AtSplit(t, i + 1, w, inner + [z]);
  }

  /** Where a value's text stands, the grammar reads the value. */
  lemma {:induction false} ValueRead(v: ValueText, t: Text, i: int)
    requires ValueAccepted(v) && At(t, i, Render(v)) && Ends(t, i + |Render(v)|)
    ensures Value(t, i) == Ok(Stored(v), i + |Render(v)|) && 0 <= i < |t| && !IsSpace(t[i]) && t[i] != 93
    decreases v, 1
  {
    hide Value, At, Ends, NumberAccepted, NumberStored, NumberRender, ItemsRender, MembersRender, CharsRender;
    hide CharsStored, ItemsAccepted, MembersAccepted;
    match v
    case NullText => WordRead(NULL, Null, t, i);
    case BoolText(b) => WordRead(if b then TRUE else FALSE, Bool(b), t, i);
    case NumText(n) => NumberRead(n, t, i);
    case StringText(cs) => TextRead(cs, t, i);
    case ArrayText(w, items) => ArrayRead(w, items, t, i);
    case ObjectText(w, members) => ObjectRead(w, members, t, i);
  }

  lemma WordRead(w: seq<Byte>, v: Json, t: Text, i: int)
    requires (w == NULL && v == Null) || (w == TRUE && v == Bool(true)) || (w == FALSE && v == Bool(false))
    requires At(t, i, w)
    ensures Value(t, i) == Ok(v, i + |w|) && 0 <= i < |t| && t[i] == w[0]
  {
    AtHead(t, i, w);
    hide Elements, Members, StringFrom, NumberFrom;
  }

  lemma TextRead(cs: seq<CharText>, t: Text, i: int)
    requires CharsAccepted(cs) && At(t, i, [QUOTE] + (CharsRender(cs) + [QUOTE]))
    ensures Value(t, i) == Ok(Str(CharsStored(cs)), i + |CharsRender(cs)| + 2) && 0 <= i < |t| && t[i] == QUOTE
  {
    hide At, CharsRender, StringFrom, CharsAccepted;
    AtSplit(t, i, [QUOTE], CharsRender(cs) + [QUOTE]);
    KeyRead(t, i + 1, cs);
  }

  lemma KeyRead(t: Text, i: int, cs: seq<CharText>)
    requires CharsAccepted(cs) && At(t, i, CharsRender(cs) + [QUOTE])
    ensures 0 <= i && StringFrom(t, i, [], false) == Ok(CharsStored(cs), i + |CharsRender(cs)| + 1)
  {
    StringRead(t, i, [], cs);
    NoPrefix(CharsStored(cs));
  }

  lemma {:induction false} ArrayRead(w: seq<Byte>, items: ItemsText, t: Text, i: int)
    requires Spaces(w) && ItemsAccepted(items) && !items.LastComma? && |ItemsStored(items)| <= UINT_MAX
    requires At(t, i, [91] + (w + (ItemsRender(items, true) + [93])))
    ensures Value(t, i) == Ok(Box(false, [], ItemsStored(items)), i + 1 + |w| + |ItemsRender(items, true)| + 1)
    ensures 0 <= i < |t| && t[i] == 91
    decreases items, 1
  {
    hide At, Elements, ItemsRender, ItemsStored, ItemsAccepted, Spaces;
    OpenParts(t, i, 91, w, ItemsRender(items, true), 93);
    SkipElements(t, i + 1, w, [], false);
    ItemsRead(items, t, i + 1 + |w|, [], true);
    NoPrefix(ItemsStored(items));
  }

  lemma {:induction false} ObjectRead(w: seq<Byte>, members: MembersText, t: Text, i: int)
    requires Spaces(w) && MembersAccepted(members) && !members.FinalComma? && |ValuesStored(members)| <= UINT_MAX
    requires At(t, i, [123] + (w + (MembersRender(members, true) + [125])))
    ensures Value(t, i) ==
      Ok(Box(true, KeysStored(members), ValuesStored(members)), i + 1 + |w| + |MembersRender(members, true)| + 1)
    ensures 0 <= i < |t| && t[i] == 123
    decreases members, 1
  {
    hide At, Members, MembersRender, KeysStored, ValuesStored, MembersAccepted, Spaces;
    OpenParts(t, i, 123, w, MembersRender(members, true), 125);
    SkipMembers(t, i + 1, w, [], [], false);
    MembersRead(members, t, i + 1 + |w|, [], [], true);
    NoPrefix(KeysStored(members));
    NoPrefix(ValuesStored(members));
  }

  lemma ElementStep(t: Text, i: int, acc: seq<Json>, comma: bool)
    requires 0 <= i < |t|
    ensures t[i] == 93 ==> Elements(t, i, acc, comma) == Ok(Box(false, [], acc), i + 1)
    ensures t[i] == COMMA && comma ==> Elements(t, i, acc, comma) == Elements(t, i + 1, acc, false)
    ensures !comma && !IsSpace(t[i]) && t[i] != 93 && Value(t, i).Ok? && |acc| + 1 <= UINT_MAX ==>
      Elements(t, i, acc, comma) == Elements(t, Value(t, i).next, acc + [Value(t, i).value], true)
  {
  }

  // Where the parts of an item stand.
  lemma ItemParts(t: Text, i: int, c: seq<Byte>, b: seq<Byte>, v: seq<Byte>, a: seq<Byte>, r: seq<Byte>, z: seq<Byte>)
    requires At(t, i, c + (b + (v + (a + r))) + z)
    ensures At(t, i, c) && At(t, i + |c|, b) && At(t, i + |c| + |b|, v) && At(t, i + |c| + |b| + |v|, a)
    ensures At(t, i + |c| + |b| + |v| + |a|, r + z)
    ensures |c + (b + (v + (a + r)))| == |c| + |b| + |v| + |a| + |r|
  {
    hide At;
    ItemRegroup(c, b, v, a, r, z);
    AtSplit(t, i, c, b + (v + (a + (r + z))));
    MemberParts(t, i + |c|, b, v, a, r + z);
  }

  lemma ItemsHead(items: ItemsText)
    ensures var s := ItemsRender(items, false) + [93]; s[0] == 93 || s[0] == COMMA
  {
  }

  lemma LastCommaRead(t: Text, i: int, w: seq<Byte>, acc: seq<Json>)
    requires At(t, i, ([COMMA] + w) + [93]) && Spaces(w)
    ensures 0 <= i && Elements(t, i, acc, true) == Ok(Box(false, [], acc), i + 2 + |w|)
  {
    hide At, Spaces, Elements;
    CommaSplit(t, i, w, 93);
    ElementStep(t, i, acc, true);
    SkipElements(t, i + 1, w, acc, false);
    ElementStep(t, i + 1 + |w|, acc, false);
  }

  lemma FinalCommaRead(t: Text, i: int, w: seq<Byte>, keys: seq<seq<Byte>>, acc: seq<Json>)
    requires At(t, i, ([COMMA] + w) + [125]) && Spaces(w) && |keys| == |acc|
    ensures 0 <= i && Members(t, i, keys, acc, true) == Ok(Box(true, keys, acc), i + 2 + |w|)
  {
    hide At, Spaces, Members;
    CommaSplit(t, i, w, 125);
    var j := i + 1 + |w|;
    MemberComma(t, i, keys, acc);
    SkipMembers(t, i + 1, w, keys, acc, false);
    MembersClosed(t, j, keys, acc);
  }

  lemma CommaSplit(t: Text, i: int, w: seq<Byte>, close: Byte)
    requires At(t, i, ([COMMA] + w) + [close])
    ensures 0 <= i && i + 1 + |w| < |t| && t[i] == COMMA && At(t, i + 1, w) && t[i + 1 + |w|] == close
  {
    hide At;
    Associates([COMMA], w, [close]);
    AtSplit(t, i, [COMMA], w + [close]);
    AtSplit(t, i + 1, w, [close]);
    AtHead(t, i + 1 + |w|, [close]);
  }

  lemma MemberComma(t: Text, i: int, keys: seq<seq<Byte>>, acc: seq<Json>)
    requires 0 <= i < |t| && t[i] == COMMA && |keys| == |acc|
    ensures Members(t, i, keys, acc, true) == Members(t, i + 1, keys, acc, false)
  {
    hide StringFrom, ColonValue;
  }

  lemma MembersClosed(t: Text, i: int, keys: seq<seq<Byte>>, acc: seq<Json>)
    requires 0 <= i < |t| && t[i] == 125 && |keys| == |acc|
    ensures Members(t, i, keys, acc, false) == Ok(Box(true, keys, acc), i + 1)
  {
    hide StringFrom, ColonValue;
  }

  lemma {:induction false} ItemsRead(items: ItemsText, t: Text, i: int, acc: seq<Json>, first: bool)
    requires ItemsAccepted(items) && At(t, i, ItemsRender(items, first) + [93])
    requires |acc| + |ItemsStored(items)| <= UINT_MAX
    requires first ==> !items.LastComma?
    ensures Elements(t, i, acc, !first) ==
      Ok(Box(false, [], acc + ItemsStored(items)), i + |ItemsRender(items, first)| + 1)
    decreases items, 0
  {
    hide At, Elements, Value, Render;
    match items
    case NoItem =>
      NoPrefix([93]);
      AtHead(t, i, [93]);
      ElementStep(t, i, acc, !first);
      assert acc + [] == acc;
    case LastComma(w) =>
      LastCommaRead(t, i, w, acc);
      assert acc + [] == acc;
    case Item(before, v, after, rest) =>
      var comma: seq<Byte> := if first then [] else [COMMA];
      ItemParts(t, i, comma, before, Render(v), after, ItemsRender(rest, false), [93]);
      ItemsHead(rest);
      if !first {
        AtHead(t, i, comma);
        ElementStep(t, i, acc, true);
      }
      ItemRead(before, v, after, ItemsRender(rest, false) + [93], t, i + |comma|, acc);
      ItemsRead(rest, t, i + |comma| + |before| + |Render(v)| + |after|, acc + [Stored(v)], false);
      Associates(acc, [Stored(v)], ItemsStored(rest));
  }

  lemma {:induction false} ItemRead(before: seq<Byte>, v: ValueText, after: seq<Byte>, z: seq<Byte>, t: Text, i: int,
          acc: seq<Json>)
    requires Spaces(before) && ValueAccepted(v) && Spaces(after) && z != [] && !NumByte(z[0]) && |acc| + 1 <= UINT_MAX
    requires At(t, i, before) && At(t, i + |before|, Render(v)) && At(t, i + |before| + |Render(v)|, after)
    requires At(t, i + |before| + |Render(v)| + |after|, z)
    ensures Elements(t, i, acc, false) == Elements(t, i + |before| + |Render(v)| + |after|, acc + [Stored(v)], true)
    decreases v, 2
  {
    hide At, Spaces, Elements, Value, Render, Ends, Stored;
    var i2 := i + |before|;
    var i3 := i2 + |Render(v)|;
    SkipElements(t, i, before, acc, false);
    AfterEnds(t, i3, after, z);
    ValueRead(v, t, i2);
    ElementStep(t, i2, acc, false);
    SkipElements(t, i3, after, acc + [Stored(v)], true);
  }

  lemma ItemRegroup(c: seq<Byte>, b: seq<Byte>, v: seq<Byte>, a: seq<Byte>, r: seq<Byte>, z: seq<Byte>)
    ensures c + (b + (v + (a + r))) + z == c + (b + (v + (a + (r + z))))
  {
    Associates(a, r, z);
    Associates(v, a + r, z);
    Associates(b, v + (a + r), z);
    Associates(c, b + (v + (a + r)), z);
  }

  lemma MemberRegroup(k: seq<Byte>, w1: seq<Byte>, w2: seq<Byte>, v: seq<Byte>, a: seq<Byte>, r: seq<Byte>,
          z: seq<Byte>)
    ensures [QUOTE] + (k + ([QUOTE] + (w1 + ([COLON] + (w2 + (v + (a + r))))))) + z
      == [QUOTE] + ((k + [QUOTE]) + (w1 + ([COLON] + (w2 + (v + (a + (r + z)))))))
  {
    var x := v + (a + r);
    Associates(a, r, z);
    Associates(v, a + r, z);
    Associates(w2, x, z);
    Associates([COLON], w2 + x, z);
    Associates(w1, [COLON] + (w2 + x), z);
    var y := w1 + ([COLON] + (w2 + x));
    Associates(k, [QUOTE], y);
    Associates(k + [QUOTE], y, z);
    Associates([QUOTE], k + [QUOTE] + y, z);
  }

  lemma MemberStep(t: Text, i: int, keys: seq<seq<Byte>>, acc: seq<Json>, comma: bool)
    requires 0 <= i < |t| && |keys| == |acc|
    ensures t[i] == 125 ==> Members(t, i, keys, acc, comma) == Ok(Box(true, keys, acc), i + 1)
    ensures t[i] == COMMA && comma ==> Members(t, i, keys, acc, comma) == Members(t, i + 1, keys, acc, false)
    ensures t[i] == QUOTE && !comma && |acc| + 1 <= UINT_MAX ==>
      var s := StringFrom(t, i + 1, [], false);
      s.Ok? ==>
        var v := ColonValue(t, s.next, true);
        v.Ok? ==> Members(t, i, keys, acc, comma) == Members(t, v.next, keys + [s.value], acc + [v.value], true)
  {
  }

  // A colon between white space.
  lemma MemberValueRead(t: Text, i: int, w1: seq<Byte>, w2: seq<Byte>, j: int)
    requires At(t, i, w1) && Spaces(w1) && At(t, i + |w1|, [COLON]) && At(t, i + |w1| + 1, w2) && Spaces(w2)
    requires j == i + |w1| + 1 + |w2| < |t| && !IsSpace(t[j])
    ensures ColonValue(t, i, true) == Value(t, j)
  {
    hide At, Spaces, ColonValue, Value;
    SkipColon(t, i, w1, true);
    AtHead(t, i + |w1|, [COLON]);
    ColonStep(t, i + |w1|);
    SkipColon(t, i + |w1| + 1, w2, false);
    ColonStep(t, j);
  }

  lemma ColonStep(t: Text, i: int)
    requires 0 <= i < |t|
    ensures t[i] == COLON ==> ColonValue(t, i, true) == ColonValue(t, i + 1, false)
    ensures !IsSpace(t[i]) ==> ColonValue(t, i, false) == Value(t, i)
  {
    hide Value;
  }

  // Where the parts of a member stand: its key, and what comes after.
  lemma KeyParts(t: Text, i: int, k: seq<Byte>, w1: seq<Byte>, z: seq<Byte>)
    requires At(t, i, [QUOTE] + ((k + [QUOTE]) + (w1 + ([COLON] + z))))
    ensures At(t, i, [QUOTE]) && At(t, i + 1, k + [QUOTE]) && At(t, i + |k| + 2, w1)
    ensures At(t, i + |k| + 2 + |w1|, [COLON])
    ensures At(t, i + |k| + |w1| + 3, z)
  {
    hide At;
    var r := [COLON] + z;
    AtSplit(t, i, [QUOTE], (k + [QUOTE]) + (w1 + r));
    AtSplit(t, i + 1, k + [QUOTE], w1 + r);
    AtSplit(t, i + |k| + 2, w1, r);
    AtSplit(t, i + |k| + 2 + |w1|, [COLON], z);
  }

  lemma MemberParts(t: Text, i: int, w2: seq<Byte>, v: seq<Byte>, a: seq<Byte>, z: seq<Byte>)
    requires At(t, i, w2 + (v + (a + z)))
    ensures At(t, i, w2) && At(t, i + |w2|, v) && At(t, i + |w2| + |v|, a) && At(t, i + |w2| + |v| + |a|, z)
  {
    hide At;
    AtSplit(t, i, w2, v + (a + z));
    AtSplit(t, i + |w2|, v, a + z);
    AtSplit(t, i + |w2| + |v|, a, z);
  }

  // One member, from its key to the white space after its value.
  lemma {:induction false} MemberRead(key: seq<CharText>, w1: seq<Byte>, w2: seq<Byte>, v: ValueText, after: seq<Byte>,
          z: seq<Byte>,
                                      t: Text, i: int, keys: seq<seq<Byte>>, acc: seq<Json>)
    requires At(t, i, [QUOTE]) && At(t, i + 1, CharsRender(key) + [QUOTE]) && At(t, i + |CharsRender(key)| + 2, w1)
    requires At(t, i + |CharsRender(key)| + 2 + |w1|, [COLON]) && At(t, i + |CharsRender(key)| + |w1| + 3, w2)
    requires At(t, i + |CharsRender(key)| + |w1| + 3 + |w2|, Render(v))
    requires At(t, i + |CharsRender(key)| + |w1| + 3 + |w2| + |Render(v)|, after)
    requires At(t, i + |CharsRender(key)| + |w1| + 3 + |w2| + |Render(v)| + |after|, z)
    requires CharsAccepted(key) && Spaces(w1) && Spaces(w2) && ValueAccepted(v) && Spaces(after) && z != []
    requires !NumByte(z[0])
    requires |keys| == |acc| && |acc| + 1 <= UINT_MAX
    ensures var j := i + |CharsRender(key)| + |w1| + 3 + |w2| + |Render(v)| + |after|;
      0 <= j && 0 <= i
      && Members(t, i, keys, acc, false) == Members(t, j, keys + [CharsStored(key)], acc + [Stored(v)], true)
    decreases v, 2
  {
    hide At, Spaces, Members, Value, ColonValue, Render, Ends, StringFrom, CharsRender, Stored, CharsStored;
    hide CharsAccepted;
    hide ValueAccepted;
    AtHead(t, i, [QUOTE]);
    KeyRead(t, i + 1, key);
    var i3 := i + |CharsRender(key)| + 2;
    var i6 := i3 + |w1| + 1 + |w2|;
    var i7 := i6 + |Render(v)|;
    AfterEnds(t, i7, after, z);
    ValueRead(v, t, i6);
    MemberValueRead(t, i3, w1, w2, i6);
    MemberStep(t, i, keys, acc, false);
    SkipMembers(t, i7, after, keys + [CharsStored(key)], acc + [Stored(v)], true);
  }

  lemma MembersHead(members: MembersText)
    ensures var s := MembersRender(members, false) + [125]; s[0] == 125 || s[0] == COMMA
  {
  }

  lemma MembersParts(t: Text, i: int, c: seq<Byte>, b: seq<Byte>, inner: seq<Byte>, z: seq<Byte>)
    requires At(t, i, c + (b + inner) + z)
    ensures At(t, i, c) && At(t, i + |c|, b) && At(t, i + |c| + |b|, inner + z)
  {
    hide At;
    Associates(c, b + inner, z);
    Associates(b, inner, z);
    AtSplit(t, i, c, b + (inner + z));
    AtSplit(t, i + |c|, b, inner + z);
  }

  lemma {:induction false} MembersRead(members: MembersText, t: Text, i: int, keys: seq<seq<Byte>>, acc: seq<Json>,
          first: bool)
    requires MembersAccepted(members) && At(t, i, MembersRender(members, first) + [125]) && |keys| == |acc|
    requires |acc| + |ValuesStored(members)| <= UINT_MAX && (first ==> !members.FinalComma?)
    ensures Members(t, i, keys, acc, !first)
      == Ok(Box(true, keys + KeysStored(members), acc + ValuesStored(members)), i + |MembersRender(members, first)| + 1)
    decreases members, 0
  {
    hide At, Spaces, Members, Value, ColonValue, Render, Ends, StringFrom, CharsRender, CharsAccepted, CharsStored;
    match members
    case NoMember =>
      NoPrefix([125]);
      AtHead(t, i, [125]);
      MemberStep(t, i, keys, acc, !first);
      assert acc + [] == acc && keys + [] == keys;
    case FinalComma(w) =>
      FinalCommaRead(t, i, w, keys, acc);
      assert acc + [] == acc && keys + [] == keys;
    case Member(before, key, w1, w2, v, after, rest) =>
      var comma: seq<Byte> := if first then [] else [COMMA];
      var r := MembersRender(rest, false);
      MembersParts(t, i, comma, before,
        [QUOTE] + (CharsRender(key) + ([QUOTE] + (w1 + ([COLON] + (w2 + (Render(v) + (after + r))))))), [125]);
      MemberRegroup(CharsRender(key), w1, w2, Render(v), after, r, [125]);
      MembersHead(rest);
      var i1 := i + |comma|;
      if !first {
        AtHead(t, i, comma);
        MemberStep(t, i, keys, acc, true);
      }
      AtHead(t, i1, before);
      SkipMembers(t, i1, before, keys, acc, false);
      KeyParts(t, i1 + |before|, CharsRender(key), w1, w2 + (Render(v) + (after + (r + [125]))));
      MemberParts(t, i1 + |before| + |CharsRender(key)| + |w1| + 3, w2, Render(v), after, r + [125]);
      MemberRead(key, w1, w2, v, after, r + [125], t, i1 + |before|, keys, acc);
      var j := i1 + |before| + |CharsRender(key)| + |w1| + 3 + |w2| + |Render(v)| + |after|;
      MembersRead(rest, t, j, keys + [CharsStored(key)], acc + [Stored(v)], false);
      Associates(acc, [Stored(v)], ValuesStored(rest));
      Associates(keys, [CharsStored(key)], KeysStored(rest));
      MembersLength(members, first);
  }

  lemma MembersLength(members: MembersText, first: bool)
    requires members.Member?
    ensures |MembersRender(members, first)| == (if first then 0 else 1) + |members.before|
      + |CharsRender(members.key)| + |members.w1| + 3 + |members.w2| + |Render(members.v)| + |members.after|
      + |MembersRender(members.rest, false)|
  {
    hide CharsRender, Render;
  }

  lemma AtAll(t: Text)
    ensures At(t, 0, t)
  {
  }

  lemma DocumentParts(t: Text, b: seq<Byte>, v: seq<Byte>, a: seq<Byte>)
    requires t == b + (v + (a + [0]))
    ensures At(t, 0, b) && At(t, |b|, v) && At(t, |b| + |v|, a) && At(t, |b| + |v| + |a|, [0])
  {
    AtAll(t);
    hide At;
    AtSplit(t, 0, b, v + (a + [0]));
    AtSplit(t, |b|, v, a + [0]);
    AtSplit(t, |b| + |v|, a, [0]);
  }

  lemma DocumentRead(t: Text, before: seq<Byte>, v: ValueText, after: seq<Byte>)
    requires ValueAccepted(v) && Spaces(before) && Spaces(after)
    requires At(t, 0, before) && At(t, |before|, Render(v)) && At(t, |before| + |Render(v)|, after)
    requires At(t, |before| + |Render(v)| + |after|, [0])
    ensures Document(t).Ok? && Document(t).value == Stored(v)
  {
    hide At, Spaces, Value, Render, Ends, Stored, ValueAccepted;
    var j := |before| + |Render(v)|;
    AtHead(t, j + |after|, [0]);
    AfterEnds(t, j, after, [0]);
    SkipValue(t, 0, before);
    ValueRead(v, t, |before|);
    SkipTrailing(t, j, after, Stored(v));
  }

  /** What parsing an accepted text gives. */
  lemma RoundTrip(before: seq<Byte>, v: ValueText, after: seq<Byte>)
    requires ValueAccepted(v) && Spaces(before) && Spaces(after)
    ensures var d := Document(before + (Render(v) + (after + [0]))); d.Ok? && d.value == Stored(v)
  {
    hide At, Spaces, Render, Stored, ValueAccepted, Document;
    var t := before + (Render(v) + (after + [0]));
    DocumentParts(t, before, Render(v), after);
    DocumentRead(t, before, v, after);
  }

  ghost predicate NoNul(s: seq<Byte>) { forall k :: 0 <= k < |s| ==> s[k] != 0 }

  lemma NoNulConcat(a: seq<Byte>, b: seq<Byte>)
    requires NoNul(a) && NoNul(b)
    ensures NoNul(a + b)
  {
  }

  lemma {:induction false} CharsNoNul(cs: seq<CharText>)
    requires forall k :: 0 <= k < |cs| ==> CharAccepted(cs[k])
    ensures NoNul(CharsRender(cs))
  {
    if cs != [] {
      CharsNoNul(cs[1..]);
      NoNulConcat(CharRender(cs[0]), CharsRender(cs[1..]));
    }
  }

  lemma {:induction false} ValueNoNul(v: ValueText)
    requires ValueAccepted(v)
    ensures NoNul(Render(v)) && Render(v) != [] && Render(v)[0] != 93 && !IsSpace(Render(v)[0])
    decreases v, 1
  {
    hide ItemsAccepted, MembersAccepted, ItemsRender, MembersRender, CharsRender;
    match v
    case NumText(n) => NumberNoNul(n);
    case StringText(cs) => CharsNoNul(cs);
    case ArrayText(_, items) => ItemsNoNul(items, true);
    case ObjectText(_, members) => MembersNoNul(members, true);
    case _ =>
  }

  lemma NumberNoNul(n: NumberText)
    requires NumberAccepted(n)
    ensures var r := NumberRender(n); NoNul(r) && r != [] && r[0] != 93 && !IsSpace(r[0])
  {
    var f, e := FractionRender(n.fraction), ExponentRender(n.exponent);
    PartsNoNul(n);
    NoNulConcat(f, e);
    NoNulConcat(n.digits, f + e);
    hide FractionRender, ExponentRender, Leading;
    NoNulConcat(if n.neg then ['-' as int] else [], n.digits + (f + e));
  }

  lemma PartsNoNul(n: NumberText)
    requires NumberAccepted(n)
    ensures NoNul(n.digits) && NoNul(FractionRender(n.fraction)) && NoNul(ExponentRender(n.exponent))
  {
  }

  lemma {:induction false} ItemsNoNul(items: ItemsText, first: bool)
    requires ItemsAccepted(items)
    ensures NoNul(ItemsRender(items, first))
    decreases items, 0
  {
    hide ValueAccepted, Render;
    if items.LastComma? { NoNulConcat([COMMA], items.w); }
    if items.Item? {
      ValueNoNul(items.v);
      ItemsNoNul(items.rest, false);
    }
  }

  lemma {:induction false} MembersNoNul(members: MembersText, first: bool)
    requires MembersAccepted(members)
    ensures NoNul(MembersRender(members, first))
    decreases members, 0
  {
    hide ValueAccepted, Render, CharsRender;
    if members.FinalComma? { NoNulConcat([COMMA], members.w); }
    if members.Member? {
      var key, w1, w2, v, r := CharsRender(members.key), members.w1, members.w2, Render(members.v),
        members.after + MembersRender(members.rest, false);
      CharsNoNul(members.key);
      ValueNoNul(members.v);
      MembersNoNul(members.rest, false);
      NoNulConcat(v, r);
      NoNulConcat(w2, v + r);
      NoNulConcat([COLON], w2 + (v + r));
      NoNulConcat(w1, [COLON] + (w2 + (v + r)));
      NoNulConcat([QUOTE], w1 + ([COLON] + (w2 + (v + r))));
      NoNulConcat(key, [QUOTE] + (w1 + ([COLON] + (w2 + (v + r)))));
      NoNulConcat([QUOTE], key + ([QUOTE] + (w1 + ([COLON] + (w2 + (v + r))))));
    }
  }

  /** Such a text is a C string that the parser may be given. */
  lemma TextParses(before: seq<Byte>, v: ValueText, after: seq<Byte>)
    requires ValueAccepted(v) && Spaces(before) && Spaces(after)
    ensures var t := before + (Render(v) + (after + [0]));
      Terminated(t) && !Bracketed(t, 0)
  {
    ValueNoNul(v);
    hide Render, ValueAccepted;
    var r, t := Render(v), before + (Render(v) + (after + [0]));
    assert t[|before|] == r[0];
    assert forall i :: 0 <= i < |before| ==> IsSpace(before[i]);
    assert forall i :: 0 <= i < |before| ==> t[i] == before[i];
    assert forall i :: |before| + |r| <= i < |t| - 1 ==> t[i] == after[i - |before| - |r|];
    assert forall i :: |before| <= i < |before| + |r| ==> t[i] == r[i - |before|];
    NotBracketed(t, 0, |before|);
  }

  lemma {:induction false} NotBracketed(t: Text, i: int, j: int)
    requires 0 <= i <= j < |t| && !IsSpace(t[j]) && t[j] != 93 && forall k :: i <= k < j ==> t[k] != 93
    ensures !Bracketed(t, i)
    decreases j - i
  {
    if i < j { NotBracketed(t, i + 1, j); }
  }
}
