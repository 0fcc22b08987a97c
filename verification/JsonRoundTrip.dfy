/** From a text to its value and back to free memory. */
module JsonRoundTrip {
  import opened BStrings
  import opened JsonGrammar
  import opened JsonLayout
  import opened JsonParser
  import opened JsonText
  import opened JsonMeaning
  import opened JsonTree
  import opened JsonFree

  /** A JSON text without an object of 2^27 members is accepted; the tree reads as its value, if that is
      exact, and json_value_free releases all of it once. */
  method ParseAndFree(before: seq<Byte>, ghost v: ValueText, after: seq<Byte>, text: Text)
    returns (p: Parser, root: int, m: Memory)
    requires ValueOk(v) && Spaces(before) && Spaces(after) && text == before + (Render(v) + (after + [0]))
    requires NulFree(Stored(v))
    ensures root == if ObjectsFit(Stored(v)) then 0 else NONE
    ensures root == 0 ==> |p.nodes| > 0 && (ReadBack(p.nodes, root) == Denotes(v) <==> Exact(v))
    ensures root == 0 ==> m.freed == FreeOrder(Stored(v), 0)
  {
    hide Render, ValueOk, ValueAccepted, Stored, Denotes, ReadBack, Layout, NulFree, Document, FreeOrder, Terminated;
    hide ObjectsFit, Exact;
    OkAccepted(v);
    TextParses(before, v, after);
    RoundTrip(before, v, after);
    StoredExact(v);
    p := new Parser(text);
    root := p.Parse();
    m := new Memory(p.nodes);
    if root == 0 {
      TreeIsDocument(text, p.nodes);
      m.ValueFree(root, Stored(v));
    }
  }
}
