/** What the tokenizer makes of the text of a tree: the tree's own tokens. */
module Tokenization {
  import opened Lexing
  import opened Syntax
  import opened SeqFacts

  /** A text that a span may be followed by: empty, or starting with a
      special character. */
  predicate Boundary(rest: string) {
    rest == [] || IsSpecial(rest[0])
  }

  /** A literal followed by a boundary is read as one token. */
  lemma TokenizeLiteral(text: string, after: string)
    requires LiteralText(text) && Boundary(after)
    ensures Tokenize(text + after) == [Token(Literal, text)] + Tokenize(after)
  {
    var t := text + after;
    assert forall k :: 0 <= k < |text| ==> !IsSpecial(t[k]) by {
      forall k | 0 <= k < |text| ensures !IsSpecial(t[k]) {
        assert t[k] == text[k];
      }
    }
    if after != [] {
      assert t[|text|] == after[0];
    }
    RunLengthIs(t, |text|);
    assert t[..|text|] == text;
    assert t[|text|..] == after;
  }

  /** A special character is read as its own token. */
  lemma TokenizeSymbol(c: char, after: string)
    requires IsSpecial(c)
    ensures Tokenize([c] + after) == [Token(KindOf(c), [c])] + Tokenize(after)
  {
    var t := [c] + after;
    RunLengthIs(t, 0);
    assert t[1..] == after;
  }

  /** The tokens of the text of well-formed items, followed by a boundary,
      are the items' tokens. */
  lemma {:induction false} TokensOfPrint(xs: seq<Item>, rest: string, emptyOk: bool)
    requires Boundary(rest) && WellFormedItems(xs, emptyOk)
    ensures Tokenize(PrintSpan(xs) + rest) == TokSpan(xs) + Tokenize(rest)
    decreases xs, 1
  {
    if xs == [] {
      assert PrintSpan(xs) + rest == rest;
    } else if xs[0].Lit? {
      TokensOfLiteral(xs, rest, emptyOk);
    } else {
      TokensOfVariant(xs, rest, emptyOk);
    }
  }

  lemma {:induction false} TokensOfLiteral(xs: seq<Item>, rest: string, emptyOk: bool)
    requires Boundary(rest) && WellFormedItems(xs, emptyOk)
    requires xs != [] && xs[0].Lit?
    ensures Tokenize(PrintSpan(xs) + rest) == TokSpan(xs) + Tokenize(rest)
    decreases xs, 0
  {
    var text := xs[0].text;
    var after := PrintSpan(xs[1..]) + rest;
    assert PrintSpan(xs) == text + PrintSpan(xs[1..]);
    Assoc(text, PrintSpan(xs[1..]), rest);
    assert Boundary(after) by {
      if xs[1..] != [] {
        PrintSpanStartsWithBrace(xs[1..]);
      }
    }
    TokenizeLiteral(text, after);
    TokensOfPrint(xs[1..], rest, emptyOk);
    assert TokSpan(xs) == [Token(Literal, text)] + TokSpan(xs[1..]);
    Assoc([Token(Literal, text)], TokSpan(xs[1..]), Tokenize(rest));
  }


  lemma {:induction false} TokensOfVariant(xs: seq<Item>, rest: string, emptyOk: bool)
    requires Boundary(rest) && WellFormedItems(xs, emptyOk)
    requires xs != [] && xs[0].Var?
    ensures Tokenize(PrintSpan(xs) + rest) == TokSpan(xs) + Tokenize(rest)
    decreases xs, 0
  {
    var alts := xs[0].alts;
    var after := PrintSpan(xs[1..]) + rest;
    var close := "}" + after;
    assert PrintSpan(xs) == "{" + PrintAlts(alts) + "}" + PrintSpan(xs[1..]);
    Assoc4("{", PrintAlts(alts), "}", PrintSpan(xs[1..]), rest);
    TokenizeSymbol('{', PrintAlts(alts) + close);
    TokensOfAlts(alts, close, emptyOk);
    TokenizeSymbol('}', after);
    TokensOfPrint(xs[1..], rest, emptyOk);
    var open, shut := [Token(LeftBrace, "{")], [Token(RightBrace, "}")];
    assert TokSpan(xs) == open + TokAlts(alts) + shut + TokSpan(xs[1..]);
    Assoc4(open, TokAlts(alts), shut, TokSpan(xs[1..]), Tokenize(rest));
  }


  lemma {:induction false} TokensOfAlts(alts: seq<Span>, rest: string, emptyOk: bool)
    requires Boundary(rest)
    requires forall j :: 0 <= j < |alts| ==> WellFormedSpan(alts[j].items, emptyOk)
    ensures Tokenize(PrintAlts(alts) + rest) == TokAlts(alts) + Tokenize(rest)
    decreases alts, 1
  {
    if alts == [] {
      assert PrintAlts(alts) + rest == rest;
    } else if |alts| == 1 {
      TokensOfPrint(alts[0].items, rest, emptyOk);
    } else {
      TokensOfMoreAlts(alts, rest, emptyOk);
    }
  }

  lemma {:induction false} TokensOfMoreAlts(alts: seq<Span>, rest: string, emptyOk: bool)
    requires Boundary(rest) && |alts| > 1
    requires forall j :: 0 <= j < |alts| ==> WellFormedSpan(alts[j].items, emptyOk)
    ensures Tokenize(PrintAlts(alts) + rest) == TokAlts(alts) + Tokenize(rest)
    decreases alts, 0
  {
    var first := PrintSpan(alts[0].items);
    var tail := PrintAlts(alts[1..]) + rest;
    assert PrintAlts(alts) == first + "," + PrintAlts(alts[1..]);
    Assoc3(first, ",", PrintAlts(alts[1..]), rest);
    TokensOfPrint(alts[0].items, "," + tail, emptyOk);
    TokenizeSymbol(',', tail);
    TokensOfAlts(alts[1..], rest, emptyOk);
    var comma := [Token(Comma, ",")];
    assert TokAlts(alts) == TokSpan(alts[0].items) + comma + TokAlts(alts[1..]);
    Assoc3(TokSpan(alts[0].items), comma, TokAlts(alts[1..]), Tokenize(rest));
  }

}
