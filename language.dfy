/** The language the parsers accept. */
module Language {
  import opened Lexing
  import opened Syntax
  import opened Tokenization
  import opened Grammar
  import opened GrammarFacts

  /** The parser accepts a stripped text exactly when it is the text of a
      well-formed tree (without empty spans unless `emptyOk`), and then
      returns that tree. */
  lemma ParseTextExact(t: string, emptyOk: bool, xs: seq<Item>)
    ensures ParseText(t, emptyOk) == Ok(xs) <==> PrintSpan(xs) == t && WellFormedSpan(xs, emptyOk)
  {
    var ts := Tokenize(t);
    if ParseText(t, emptyOk) == Ok(xs) {
      TokensAreLexical(t);
      var sp := SpanFrom(ts, 0, [], emptyOk).value;
      SpanSound(ts, 0, [], emptyOk, sp);
      assert sp.items == xs && sp.stop.kind == End;
      assert xs[0..] == xs && ts[0..|ts|] == ts;
      JoinTokens(t);
      JoinTokSpan(xs);
    }
    if PrintSpan(xs) == t && WellFormedSpan(xs, emptyOk) {
      TokensOfPrint(xs, "", emptyOk);
      assert PrintSpan(xs) + "" == t;
      assert ts == TokSpan(xs);
      assert [] + xs == xs;
      SpanComplete(ts, 0, [], emptyOk, xs, []);
    }
  }
}
