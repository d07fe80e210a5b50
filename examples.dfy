/** Lines of the test table of the repository worked through the model:
    what process_expression of myparser.py returns or raises for them, and
    what process_expression of __main__.py outputs and reports. Each is
    stated for any words in place of the test's letters. */
module Examples {
  import opened Lexing
  import opened Syntax
  import opened Grammar
  import opened Lenient
  import opened Tokenization
  import opened MainNodes
  import opened MainParser
  import Language
  import LenientFacts
  import Nodes

  /** A literal with no blank at either end, like the letters of the tests. */
  predicate Word(a: string) {
    LiteralText(a) && !IsBlank(a[0]) && !IsBlank(a[|a| - 1])
  }

  // ---------------------------------------------------------------------------
  // myparser.py

  /** The alternatives of a variant whose every alternative is one word:
      `{a,b,c}` for the words a, b and c. */
  function Choice(ws: seq<string>): (r: seq<Span>)
    ensures |r| == |ws|
    ensures forall j :: 0 <= j < |ws| ==> r[j] == Span([Lit(ws[j])])
  {
    if ws == [] then [] else [Span([Lit(ws[0])])] + Choice(ws[1..])
  }

  /** A choice of words means those words, in the order written. */
  lemma {:induction false} ChoiceMeaning(ws: seq<string>)
    ensures DenoteAlts(Choice(ws)) == ws
    decreases ws
  {
    if ws != [] {
      var h := Span([Lit(ws[0])]);
      assert Choice(ws) == [h] + Choice(ws[1..]);
      DenoteAltsAppend([h], Choice(ws[1..]));
      assert DenoteAlts([h]) == [ws[0]] by {
        assert [h][1..] == [] && [Lit(ws[0])][1..] == [];
        ProductUnit([ws[0]]);
        assert DenoteSpan(h.items) == Product([ws[0]], [""]);
        assert DenoteAlts([h]) == DenoteSpan(h.items) + [];
      }
      ChoiceMeaning(ws[1..]);
      assert [ws[0]] + ws[1..] == ws;
    }
  }

  /** Words separated by commas. */
  function Commas(ws: seq<string>): string {
    if ws == [] then "" else if |ws| == 1 then ws[0] else ws[0] + "," + Commas(ws[1..])
  }

  /** A choice of words prints as the words separated by commas. */
  lemma {:induction false} ChoiceText(ws: seq<string>)
    ensures PrintAlts(Choice(ws)) == Commas(ws)
    decreases ws
  {
    if ws != [] {
      var x := Choice(ws);
      assert x[0] == Span([Lit(ws[0])]) && x[1..] == Choice(ws[1..]);
      assert [Lit(ws[0])][1..] == [];
      assert PrintSpan([Lit(ws[0])]) == ws[0] + "";
      ChoiceText(ws[1..]);
    }
  }

  /** A choice of at least one word is a well-formed variant. */
  lemma ChoiceWellFormed(ws: seq<string>, emptyOk: bool)
    requires ws != [] && forall j :: 0 <= j < |ws| ==> LiteralText(ws[j])
    ensures WellFormedItem(Var(Choice(ws)), emptyOk)
  {
    forall j | 0 <= j < |ws|
      ensures WellFormedSpan(Choice(ws)[j].items, emptyOk)
    {
      assert [Lit(ws[j])][1..] == [];
    }
  }

  /** The variant `{a,b}` of two words. */
  function Pair(a: string, b: string): Item {
    Var(Choice([a, b]))
  }

  /** The variant `{b,{c,d}e}`. */
  function Inner(b: string, c: string, d: string, e: string): Item {
    Var([Span([Lit(b)]), Span([Pair(c, d), Lit(e)])])
  }

  /** The tree of `a{b,{c,d}e}`. */
  function Nested(a: string, b: string, c: string, d: string, e: string): seq<Item> {
    [Lit(a), Inner(b, c, d, e)]
  }

  lemma InnerText(b: string, c: string, d: string, e: string)
    ensures PrintItem(Inner(b, c, d, e)) == "{" + (b + "," + ("{" + (c + "," + d) + "}" + e)) + "}"
  {
    var sb, sce := Span([Lit(b)]), Span([Pair(c, d), Lit(e)]);
    assert PrintItem(Pair(c, d)) == "{" + (c + "," + d) + "}" by {
      ChoiceText([c, d]);
      assert [c, d][1..] == [d];
    }
    assert PrintSpan(sce.items) == "{" + (c + "," + d) + "}" + e by {
      assert [Pair(c, d)] + [Lit(e)] == sce.items;
      assert [Lit(e)][1..] == [] && [Pair(c, d)][1..] == [];
      PrintSpanAppend([Pair(c, d)], [Lit(e)]);
      assert PrintSpan([Lit(e)]) == e + "";
      assert PrintSpan([Pair(c, d)]) == PrintItem(Pair(c, d)) + "";
    }
    assert [sb] + [sce] == Inner(b, c, d, e).alts;
    assert [Lit(b)][1..] == [];
    assert PrintSpan([Lit(b)]) == b + "";
    PrintAltsAppend([sb], [sce]);
  }

  lemma NestedText(a: string, b: string, c: string, d: string, e: string)
    ensures PrintSpan(Nested(a, b, c, d, e)) == a + "{" + b + "," + "{" + c + "," + d + "}" + e + "}"
  {
    var v := Inner(b, c, d, e);
    InnerText(b, c, d, e);
    assert [Lit(a)] + [v] == Nested(a, b, c, d, e);
    assert [Lit(a)][1..] == [] && [v][1..] == [];
    PrintSpanAppend([Lit(a)], [v]);
    assert PrintSpan([Lit(a)]) == a + "" && PrintSpan([v]) == PrintItem(v) + "";
  }

  /** The tree of `a{b,{c,d}e}` is one the parser can produce: no two
      literals are adjacent and no span is empty. */
  lemma NestedWellFormed(a: string, b: string, c: string, d: string, e: string)
    requires LiteralText(a) && LiteralText(b) && LiteralText(c) && LiteralText(d) && LiteralText(e)
    ensures WellFormedSpan(Nested(a, b, c, d, e), false)
  {
    var sb, sce := Span([Lit(b)]), Span([Pair(c, d), Lit(e)]);
    var v := Inner(b, c, d, e);
    assert WellFormedItem(v, false) by {
      ChoiceWellFormed([c, d], false);
      assert [Lit(e)][1..] == [] && [Pair(c, d)][1..] == [] && [Lit(b)][1..] == [];
      assert WellFormedItems([Pair(c, d)], false) && WellFormedItems([Lit(e)], false);
      assert [Pair(c, d)] + [Lit(e)] == sce.items;
      WellFormedAppend([Pair(c, d)], [Lit(e)], false);
      assert WellFormedSpan(sb.items, false) && WellFormedSpan(sce.items, false);
      assert v.alts[0] == sb && v.alts[1] == sce;
    }
    assert [Lit(a)][1..] == [] && [v][1..] == [];
    WellFormedAppend([Lit(a)], [v], false);
  }

  lemma InnerMeaning(b: string, c: string, d: string, e: string)
    ensures DenoteItem(Inner(b, c, d, e)) == [b, c + e, d + e]
  {
    var sb, sce := Span([Lit(b)]), Span([Pair(c, d), Lit(e)]);
    assert DenoteSpan(sce.items) == [c + e, d + e] by {
      ChoiceMeaning([c, d]);
      assert [Pair(c, d)][1..] == [] && [Lit(e)][1..] == [];
      ProductUnit([c, d]);
      ProductUnit([e]);
      DenoteSpanAppend([Pair(c, d)], [Lit(e)]);
      assert [Pair(c, d)] + [Lit(e)] == sce.items;
      assert [c, d][1..] == [d] && [d][1..] == [];
      assert Prefixed(c, [e]) == [c + e] && Prefixed(d, [e]) == [d + e];
      assert Product([d], [e]) == [d + e] + [];
      assert Product([c, d], [e]) == [c + e] + Product([d], [e]);
    }
    ChoiceMeaning([b]);
    assert Choice([b]) == [sb];
    DenoteAltsAppend([sb], [sce]);
    assert [sb] + [sce] == Inner(b, c, d, e).alts && [sce][1..] == [];
    assert DenoteAlts([sce]) == [c + e, d + e] + [];
  }

  lemma NestedMeaning(a: string, b: string, c: string, d: string, e: string)
    ensures DenoteSpan(Nested(a, b, c, d, e)) == [a + b, a + (c + e), a + (d + e)]
  {
    var v := Inner(b, c, d, e);
    InnerMeaning(b, c, d, e);
    assert [Lit(a)][1..] == [] && [v][1..] == [] && [a][1..] == [];
    ProductUnit([a]);
    ProductUnit(DenoteItem(v));
    DenoteSpanAppend([Lit(a)], [v]);
    assert [Lit(a)] + [v] == Nested(a, b, c, d, e);
    assert Product([a], [b, c + e, d + e]) == Prefixed(a, [b, c + e, d + e]) + [];
  }

  /** `a{b,{c,d}e}` gives ab, ace, ade: a nested variant expands alternative
      by alternative, in written order (tests.py, line 19). */
  lemma ExpandNested(a: string, b: string, c: string, d: string, e: string)
    requires Word(a) && LiteralText(b) && LiteralText(c) && LiteralText(d) && LiteralText(e)
    ensures Expand(a + "{" + b + "," + "{" + c + "," + d + "}" + e + "}") == Ok([a + b, a + (c + e), a + (d + e)])
  {
    var s := a + "{" + b + "," + "{" + c + "," + d + "}" + e + "}";
    NestedText(a, b, c, d, e);
    NestedWellFormed(a, b, c, d, e);
    assert s[0] == a[0] && s[|s| - 1] == '}';
    StripKeeps(s);
    Language.ParseTextExact(s, false, Nested(a, b, c, d, e));
    NestedMeaning(a, b, c, d, e);
  }

  /** The tree of `{a,b}{c,d}`. */
  function Crossed(a: string, b: string, c: string, d: string): seq<Item> {
    [Pair(a, b), Pair(c, d)]
  }

  lemma PairText(a: string, b: string)
    ensures PrintSpan([Pair(a, b)]) == "{" + (a + "," + b) + "}"
  {
    ChoiceText([a, b]);
    assert [a, b][1..] == [b] && [Pair(a, b)][1..] == [];
    assert PrintSpan([Pair(a, b)]) == PrintItem(Pair(a, b)) + "";
  }

  lemma CrossedText(a: string, b: string, c: string, d: string)
    requires LiteralText(a) && LiteralText(b) && LiteralText(c) && LiteralText(d)
    ensures PrintSpan(Crossed(a, b, c, d)) == "{" + (a + "," + b) + "}" + ("{" + (c + "," + d) + "}")
    ensures WellFormedSpan(Crossed(a, b, c, d), false)
  {
    PairText(a, b);
    PairText(c, d);
    assert [Pair(a, b)] + [Pair(c, d)] == Crossed(a, b, c, d);
    PrintSpanAppend([Pair(a, b)], [Pair(c, d)]);
    ChoiceWellFormed([a, b], false);
    ChoiceWellFormed([c, d], false);
    assert [Pair(a, b)][1..] == [] && [Pair(c, d)][1..] == [];
    WellFormedAppend([Pair(a, b)], [Pair(c, d)], false);
  }

  lemma CrossedMeaning(a: string, b: string, c: string, d: string)
    ensures DenoteSpan(Crossed(a, b, c, d)) == [a + c, a + d, b + c, b + d]
  {
    ChoiceMeaning([a, b]);
    ChoiceMeaning([c, d]);
    assert [Pair(a, b)][1..] == [] && [Pair(c, d)][1..] == [];
    ProductUnit([a, b]);
    ProductUnit([c, d]);
    assert [Pair(a, b)] + [Pair(c, d)] == Crossed(a, b, c, d);
    DenoteSpanAppend([Pair(a, b)], [Pair(c, d)]);
    assert [a, b][1..] == [b] && [b][1..] == [];
    assert Prefixed(a, [c, d]) == [a + c, a + d] && Prefixed(b, [c, d]) == [b + c, b + d];
    assert Product([b], [c, d]) == [b + c, b + d] + [];
    assert Product([a, b], [c, d]) == [a + c, a + d] + Product([b], [c, d]);
  }

  /** `{a,b}{c,d}` gives every pairing, the first variant varying slowest
      (tests.py, line 18). */
  lemma ExpandProduct(a: string, b: string, c: string, d: string)
    requires LiteralText(a) && LiteralText(b) && LiteralText(c) && LiteralText(d)
    ensures Expand("{" + (a + "," + b) + "}" + ("{" + (c + "," + d) + "}")) == Ok([a + c, a + d, b + c, b + d])
  {
    var s := "{" + (a + "," + b) + "}" + ("{" + (c + "," + d) + "}");
    CrossedText(a, b, c, d);
    assert s[0] == '{' && s[|s| - 1] == '}';
    StripKeeps(s);
    Language.ParseTextExact(s, false, Crossed(a, b, c, d));
    CrossedMeaning(a, b, c, d);
  }

  // ---------------------------------------------------------------------------
  // The first token decides whether the root span is empty.

  /** The token a non-empty text starts with: a literal unless its first
      character is special. */
  lemma FirstToken(t: string)
    requires t != []
    ensures Tokenize(t) != []
    ensures IsSpecial(t[0]) ==> Tokenize(t)[0] == Token(KindOf(t[0]), [t[0]])
    ensures !IsSpecial(t[0]) ==> Tokenize(t)[0].kind == Literal
  {
  }

  /** parse_span of __main__.py only ever adds to the nodes it has. */
  lemma {:induction false} LooseSpanKeeps(ts: seq<Token>, i: nat, acc: seq<Item>)
    requires i <= |ts|
    ensures acc <= LooseSpanFrom(ts, i, acc).items
    decreases |ts| - i
  {
    var t := TokenAt(ts, i);
    if t.kind == Literal {
      LooseSpanKeeps(ts, i + 1, acc + [Lit(t.value)]);
    } else if t.kind == LeftBrace {
      var v := LooseVariantFrom(ts, i + 1, []);
      LooseSpanKeeps(ts, v.next, acc + [v.item]);
    }
  }

  /** What the root span is when the first token is known. */
  lemma LooseFirst(ts: seq<Token>)
    requires ts != []
    ensures LooseSpanFrom(ts, 0, []).items == [] <==> ts[0].kind != Literal && ts[0].kind != LeftBrace
  {
    if ts[0].kind == Literal {
      assert [] + [Lit(ts[0].value)] == [Lit(ts[0].value)];
      LooseSpanKeeps(ts, 1, [Lit(ts[0].value)]);
    } else if ts[0].kind == LeftBrace {
      var v := LooseVariantFrom(ts, 1, []);
      assert [] + [v.item] == [v.item];
      LooseSpanKeeps(ts, v.next, [v.item]);
    }
  }

  /** myparser.py raises "Empty span" for every text whose first token is a
      comma or a right brace (tests.py, lines 28 and 30). */
  lemma StrictStopsAtStart(s: string)
    requires Strip(s) != [] && (Strip(s)[0] == '}' || Strip(s)[0] == ',')
    ensures Expand(s) == Err(EmptySpan)
  {
    FirstToken(Strip(s));
  }

  /** __main__.py outputs nothing and fails (the root span's successor is
      never set) exactly when the stripped text is empty or starts with a
      comma or a right brace. */
  lemma RootStops(s: string)
    ensures Outcome(s).0.failed <==> Strip(s) == [] || Strip(s)[0] == '}' || Strip(s)[0] == ','
  {
    var t := Strip(s);
    var ts := Tokenize(t);
    assert Outcome(s).0.failed <==> LooseSpanFrom(ts, 0, []).items == [];
    if t != [] {
      FirstToken(t);
      LooseFirst(ts);
    }
  }

  // ---------------------------------------------------------------------------
  // The other texts of the table, first as tokens.

  lemma TokensOpen(a: string)
    requires LiteralText(a)
    ensures Tokenize("{" + a) == [Token(LeftBrace, "{"), Token(Literal, a)]
  {
    assert "{" + a == ['{'] + a;
    TokenizeSymbol('{', a);
    assert a + "" == a;
    TokenizeLiteral(a, "");
  }

  lemma TokensList(a: string, b: string, c: string)
    requires LiteralText(a) && LiteralText(b) && LiteralText(c)
    ensures |Tokenize(a + ("," + (b + ("," + c))))| >= 2
    ensures Tokenize(a + ("," + (b + ("," + c))))[0] == Token(Literal, a)
    ensures Tokenize(a + ("," + (b + ("," + c))))[1] == Token(Comma, ",")
  {
    var r := b + ("," + c);
    assert "," + r == [','] + r;
    TokenizeLiteral(a, "," + r);
    TokenizeSymbol(',', r);
  }

  lemma TokensEmptyLast(a: string)
    requires LiteralText(a)
    ensures Tokenize("{" + (a + ",}")) == [Token(LeftBrace, "{"), Token(Literal, a), Token(Comma, ","), Token(RightBrace, "}")]
  {
    assert "{" + (a + ",}") == ['{'] + (a + ",}");
    TokenizeSymbol('{', a + ",}");
    TokenizeLiteral(a, ",}");
    TokensCommaClose();
  }

  lemma TokensCommaClose()
    ensures Tokenize(",}") == [Token(Comma, ","), Token(RightBrace, "}")]
  {
    assert ",}" == [','] + "}";
    TokenizeSymbol(',', "}");
    assert "}" == ['}'] + "";
    TokenizeSymbol('}', "");
  }

  lemma TokensEmptyVariant()
    ensures Tokenize("{}") == [Token(LeftBrace, "{"), Token(RightBrace, "}")]
  {
    assert "{}" == ['{'] + "}";
    TokenizeSymbol('{', "}");
    assert "}" == ['}'] + "";
    TokenizeSymbol('}', "");
  }

  /** `{` and a literal, and nothing after. */
  lemma ReadOpen(ts: seq<Token>, a: string)
    requires ts == [Token(LeftBrace, "{"), Token(Literal, a)]
    ensures SpanFrom(ts, 0, [], false) == Err(MissingRightBrace)
    ensures LooseSpanFrom(ts, 0, []) == LooseSpan([Var([Span([Lit(a)])])], Token(End, ""), 2, [MissingRightBrace])
  {
    assert [] + [Lit(a)] == [Lit(a)];
    assert SpanFrom(ts, 1, [], false) == Ok(SpanParse([Lit(a)], Token(End, ""), 2));
    assert LooseSpanFrom(ts, 1, []) == LooseSpan([Lit(a)], Token(End, ""), 2, []);
    var v := Var([Span([Lit(a)])]);
    assert [] + [Span([Lit(a)])] == [Span([Lit(a)])];
    assert LooseVariantFrom(ts, 1, []) == LooseVariant(v, 2, [MissingRightBrace]);
    assert [] + [v] == [v];
    assert LooseSpanFrom(ts, 2, [v]) == LooseSpan([v], Token(End, ""), 2, []);
  }

  /** A literal and then a comma. */
  lemma ReadComma(ts: seq<Token>, a: string)
    requires |ts| >= 2 && ts[0] == Token(Literal, a) && ts[1] == Token(Comma, ",")
    ensures SpanFrom(ts, 0, [], false) == Ok(SpanParse([Lit(a)], Token(Comma, ","), 2))
    ensures LooseSpanFrom(ts, 0, []) == LooseSpan([Lit(a)], Token(Comma, ","), 2, [])
  {
    assert [] + [Lit(a)] == [Lit(a)];
    assert SpanFrom(ts, 0, [], false) == SpanFrom(ts, 1, [Lit(a)], false);
    assert LooseSpanFrom(ts, 0, []) == LooseSpan(LooseSpanFrom(ts, 1, [Lit(a)]).items, Token(Comma, ","), 2, []);
  }

  /** `{` and at once `}`. */
  lemma ReadEmptyVariant(ts: seq<Token>)
    requires ts == [Token(LeftBrace, "{"), Token(RightBrace, "}")]
    ensures SpanFrom(ts, 0, [], false) == Err(EmptySpan)
  {
    assert SpanFrom(ts, 1, [], false) == Err(EmptySpan);
  }

  /** `{`, a literal, a comma and at once `}`. */
  lemma ReadEmptyLast(ts: seq<Token>, a: string)
    requires ts == [Token(LeftBrace, "{"), Token(Literal, a), Token(Comma, ","), Token(RightBrace, "}")]
    ensures SpanFrom(ts, 0, [], false) == Err(EmptySpan)
  {
    assert [] + [Lit(a)] == [Lit(a)];
    assert SpanFrom(ts, 1, [], false) == Ok(SpanParse([Lit(a)], Token(Comma, ","), 3));
    assert SpanFrom(ts, 3, [], false) == Err(EmptySpan);
    assert VariantFrom(ts, 1, [], false) == Err(EmptySpan);
  }

  // ---------------------------------------------------------------------------
  // myparser.py on the texts it rejects.

  /** `{abc` raises "Missing right brace" (tests.py, line 29). */
  lemma StrictMissingBrace(a: string)
    requires Word(a)
    ensures Expand("{" + a) == Err(MissingRightBrace)
  {
    var s := "{" + a;
    assert s[0] == '{' && s[|s| - 1] == a[|a| - 1];
    StripKeeps(s);
    TokensOpen(a);
    ReadOpen(Tokenize(s), a);
  }

  /** `a,b,c` raises on the first comma, which ends the root span
      (tests.py, line 32). */
  lemma StrictTrailingComma(a: string, b: string, c: string)
    requires Word(a) && LiteralText(b) && Word(c)
    ensures Expand(a + ("," + (b + ("," + c)))) == Err(TrailingToken(","))
  {
    var s := a + ("," + (b + ("," + c)));
    assert s[0] == a[0] && s[|s| - 1] == c[|c| - 1];
    StripKeeps(s);
    TokensList(a, b, c);
    ReadComma(Tokenize(s), a);
  }

  /** `{}` raises "Empty span": myparser.py lets no alternative be empty,
      although tests.py, line 31, expects [""]. */
  lemma StrictRejectsEmptyVariant()
    ensures Expand("{}") == Err(EmptySpan)
  {
    StripKeeps("{}");
    TokensEmptyVariant();
    ReadEmptyVariant(Tokenize("{}"));
  }

  /** `{a,}` raises "Empty span", although tests.py, line 34, expects a and
      the empty string. */
  lemma StrictRejectsEmptyLast(a: string)
    requires LiteralText(a)
    ensures Expand("{" + (a + ",}")) == Err(EmptySpan)
  {
    var s := "{" + (a + ",}");
    assert s[0] == '{' && s[|s| - 1] == '}';
    StripKeeps(s);
    TokensEmptyLast(a);
    ReadEmptyLast(Tokenize(s), a);
  }

  // ---------------------------------------------------------------------------
  // __main__.py on the same texts.

  /** `{}` outputs the empty string and reports nothing. */
  lemma LooseEmptyVariant()
    ensures Outcome("{}") == (Emitted([""], false), [])
  {
    var s := "{}";
    var e := Var([Span([])]);
    assert PrintSpan([e]) == s by {
      assert [e][1..] == [];
      assert PrintSpan([e]) == "{" + "" + "}" + "";
    }
    assert WellFormedSpan([e], true) by {
      assert [e][1..] == [];
    }
    StripKeeps(s);
    LenientFacts.LooseParseExact(s, [e]);
    assert DenoteSpan([e]) == [""] by {
      assert [e][1..] == [] && [Span([])][1..] == [];
      ProductUnit(DenoteItem(e));
      assert DenoteItem(e) == [""] + [];
    }
  }

  /** The lenient parse of `{a,}` is the variant of a and the empty span,
      with no message. */
  lemma LooseReadsEmptyLast(a: string)
    requires LiteralText(a)
    ensures LooseParse("{" + (a + ",}")) == ([Var([Span([Lit(a)]), Span([])])], [])
  {
    var s := "{" + (a + ",}");
    var sa, se := Span([Lit(a)]), Span([]);
    var v := Var([sa, se]);
    assert PrintSpan([v]) == s by {
      assert [v][1..] == [] && [Lit(a)][1..] == [];
      assert [sa] + [se] == v.alts;
      PrintAltsAppend([sa], [se]);
      assert PrintSpan(sa.items) == a + "" && PrintSpan(se.items) == "";
      assert PrintAlts(v.alts) == a + "," + "";
      assert PrintSpan([v]) == "{" + (a + "," + "") + "}" + "";
      assert "{" + (a + "," + "") + "}" + "" == "{" + (a + ",}");
    }
    assert WellFormedSpan([v], true) by {
      assert [v][1..] == [] && [Lit(a)][1..] == [];
      assert WellFormedSpan(sa.items, true) && WellFormedSpan(se.items, true);
      assert v.alts[0] == sa && v.alts[1] == se;
      assert WellFormedItem(v, true);
    }
    assert s[0] == '{' && s[|s| - 1] == '}';
    StripKeeps(s);
    LenientFacts.LooseParseExact(s, [v]);
  }

  /** `{a,}` outputs a and then the empty string, and reports nothing. */
  lemma LooseEmptyLast(a: string)
    requires LiteralText(a)
    ensures Outcome("{" + (a + ",}")) == (Emitted([a, ""], false), [])
  {
    var sa, se := Span([Lit(a)]), Span([]);
    var v := Var([sa, se]);
    LooseReadsEmptyLast(a);
    assert DenoteSpan([v]) == [a, ""] by {
      assert [v][1..] == [] && [se][1..] == [];
      ChoiceMeaning([a]);
      assert Choice([a]) == [sa];
      DenoteAltsAppend([sa], [se]);
      assert [sa] + [se] == v.alts;
      assert DenoteAlts([se]) == [""] + [];
      ProductUnit(DenoteItem(v));
    }
  }

  /** `{abc` reports the missing brace and still outputs abc. */
  lemma LooseMissingBrace(a: string)
    requires Word(a)
    ensures Outcome("{" + a) == (Emitted([a], false), [MissingRightBrace])
  {
    var s := "{" + a;
    assert s[0] == '{' && s[|s| - 1] == a[|a| - 1];
    StripKeeps(s);
    TokensOpen(a);
    ReadOpen(Tokenize(s), a);
    var v := Var([Span([Lit(a)])]);
    assert [MissingRightBrace] + [] == [MissingRightBrace];
    assert LooseParse(s) == ([v], [MissingRightBrace]);
    assert DenoteSpan([v]) == [a] by {
      assert Choice([a]) == v.alts;
      ChoiceMeaning([a]);
      assert [v][1..] == [];
      ProductUnit([a]);
    }
    assert Shown([v]) == Emitted([a], false);
  }

  /** The lenient parse of `a,b,c` keeps the root span `a` and reports the
      first comma as left over. */
  lemma LooseReadsTrailingComma(a: string, b: string, c: string)
    requires Word(a) && LiteralText(b) && Word(c)
    ensures LooseParse(a + ("," + (b + ("," + c)))) == ([Lit(a)], [TrailingToken(",")])
  {
    var s := a + ("," + (b + ("," + c)));
    assert s[0] == a[0] && s[|s| - 1] == c[|c| - 1];
    StripKeeps(s);
    TokensList(a, b, c);
    ReadComma(Tokenize(s), a);
    assert [] + [TrailingToken(",")] == [TrailingToken(",")];
  }

  /** `a,b,c` reports the comma and outputs only a. */
  lemma LooseTrailingComma(a: string, b: string, c: string)
    requires Word(a) && LiteralText(b) && Word(c)
    ensures Outcome(a + ("," + (b + ("," + c)))) == (Emitted([a], false), [TrailingToken(",")])
  {
    LooseReadsTrailingComma(a, b, c);
    assert [Lit(a)][1..] == [];
    ProductUnit([a]);
    assert DenoteSpan([Lit(a)]) == Product([a], [""]) == [a];
    assert Shown([Lit(a)]) == Emitted([a], false);
  }
}
