/**
 * What yEnc text is, apart from the functions that the codec is proved against: a text is read as a row of
 * plain characters, escaped ones and line ends, each of them with its byte.
 */
module YLaw {
  import opened BStrings
  import opened YCodec

  datatype Token = Plain(c: Byte) | Escaped(c: Byte) | End(c: Byte)

  /** A NUL byte, an escape or a line end does not stand for itself. */
  ghost predicate Special(c: Byte) { c as char == '=' || c as char == '\0' || c as char == '\r' || c as char == '\n' }

  ghost predicate TokenOk(k: Token) {
    match k
    case Plain(c) => !Special(c)
    case Escaped(_) => true
    case End(c) => c as char == '\r' || c as char == '\n'
  }

  ghost function TokenText(k: Token): seq<Byte> {
    match k
    case Plain(c) => [c]
    case Escaped(c) => ['=' as int, c]
    case End(c) => [c]
  }

  ghost function TokenBytes(k: Token): seq<Byte> {
    match k
    case Plain(c) => [(c - 42) % 256]
    case Escaped(c) => [(c - 64 - 42) % 256]
    case End(_) => []
  }

  ghost predicate TokensOk(ks: seq<Token>) { forall k :: k in ks ==> TokenOk(k) }

  ghost function Text(ks: seq<Token>): seq<Byte> { if ks == [] then [] else TokenText(ks[0]) + Text(ks[1..]) }

  ghost function TextBytes(ks: seq<Token>): seq<Byte> {
    if ks == [] then [] else TokenBytes(ks[0]) + TextBytes(ks[1..])
  }

  /** A byte is shifted by 42, and escaped, shifted by 64 more, where a special character would come out. */
  lemma CharToken(b: Byte)
    ensures var c := (b + 42) % 256;
      YChar(b) == TokenText(if Special(c) then Escaped((c + 64) % 256) else Plain(c))
  {
  }

  /** Such a text decodes to the bytes of its parts. */
  lemma {:induction false} TokensDecode(ks: seq<Token>)
    requires TokensOk(ks)
    ensures YDecoded(Text(ks)) == Bytes(TextBytes(ks))
  {
    if ks != [] {
      assert ks[0] in ks;
      TokensDecode(ks[1..]);
      TokenDecodes(ks[0], Text(ks[1..]));
    }
  }

  lemma TokenDecodes(k: Token, t: seq<Byte>)
    requires TokenOk(k)
    ensures YDecoded(TokenText(k) + t) == After(TokenBytes(k), YDecoded(t))
  {
    var u := TokenText(k) + t;
    match k
    case Plain(c) => assert u[1..] == t && u[0] == c;
    case Escaped(c) => assert u[2..] == t && u[0] == 61 && u[1] == c; SumsWrap(c);
    case End(c) =>
      assert u[1..] == t && u[0] == c;
      if YDecoded(t).Bytes? { assert [] + YDecoded(t).s == YDecoded(t).s; }
  }

  lemma SumsWrap(c: Byte)
    ensures ((c - 64) % 256 - 42) % 256 == (c - 64 - 42) % 256
  {
  }

  /** A text that is not broken is such a row. */
  lemma {:induction false} Tokens(t: seq<Byte>) returns (ks: seq<Token>)
    requires YDecoded(t).Bytes?
    ensures TokensOk(ks) && t == Text(ks)
    decreases |t|
  {
    if t == [] {
      ks := [];
    } else if t[0] as char == '=' {
      var rest := Tokens(t[2..]);
      ks := [Escaped(t[1])] + rest;
      assert t == [t[0], t[1]] + t[2..];
    } else {
      var rest := Tokens(t[1..]);
      ks := [if t[0] as char == '\r' || t[0] as char == '\n' then End(t[0]) else Plain(t[0])] + rest;
      assert t == [t[0]] + t[1..];
    }
  }

  /** A text is broken exactly when it cannot be read in that way. */
  lemma BrokenText(t: seq<Byte>)
    ensures YDecoded(t).Broken? <==> !exists ks :: TokensOk(ks) && Text(ks) == t
  {
    if YDecoded(t).Bytes? {
      var ks := Tokens(t);
      assert TokensOk(ks) && Text(ks) == t;
    }
    forall ks | TokensOk(ks) && Text(ks) == t
      ensures YDecoded(t).Bytes?
    {
      TokensDecode(ks);
    }
  }
}
