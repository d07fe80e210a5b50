/** How the parser of __main__.py relates to the parser of myparser.py: it
    prints no message exactly when the myparser.py loops, with empty spans
    allowed, succeed, and it then builds the same tree; otherwise its first
    message is the error those loops raise. */
module LenientFacts {
  import opened Lexing
  import opened Syntax
  import opened Grammar
  import opened Lenient
  import Language

  /** The two parse_span loops agree. */
  lemma {:induction false} LooseSpanAgrees(ts: seq<Token>, i: nat, acc: seq<Item>)
    requires i <= |ts|
    ensures SpanFrom(ts, i, acc, true).Ok? <==> LooseSpanFrom(ts, i, acc).notes == []
    ensures SpanFrom(ts, i, acc, true).Ok? ==>
      var l := LooseSpanFrom(ts, i, acc);
      SpanFrom(ts, i, acc, true).value == SpanParse(l.items, l.stop, l.next)
    ensures SpanFrom(ts, i, acc, true).Err? ==>
      LooseSpanFrom(ts, i, acc).notes[0] == SpanFrom(ts, i, acc, true).error
    decreases |ts| - i, 0
  {
    var t := TokenAt(ts, i);
    if t.kind == Literal {
      LooseSpanAgrees(ts, i + 1, acc + [Lit(t.value)]);
    } else if t.kind == LeftBrace {
      LooseVariantAgrees(ts, i + 1, []);
      var v := LooseVariantFrom(ts, i + 1, []);
      LooseSpanAgrees(ts, v.next, acc + [v.item]);
      var r := LooseSpanFrom(ts, v.next, acc + [v.item]);
      assert LooseSpanFrom(ts, i, acc).notes == v.notes + r.notes;
      if VariantFrom(ts, i + 1, [], true).Ok? {
        assert SpanFrom(ts, i, acc, true) == SpanFrom(ts, v.next, acc + [v.item], true);
      } else {
        assert SpanFrom(ts, i, acc, true) == Err(VariantFrom(ts, i + 1, [], true).error);
      }
    }
  }

  /** The two parse_variant loops agree. */
  lemma {:induction false} LooseVariantAgrees(ts: seq<Token>, i: nat, alts: seq<Span>)
    requires i <= |ts|
    ensures VariantFrom(ts, i, alts, true).Ok? <==> LooseVariantFrom(ts, i, alts).notes == []
    ensures VariantFrom(ts, i, alts, true).Ok? ==>
      var l := LooseVariantFrom(ts, i, alts);
      VariantFrom(ts, i, alts, true).value == VariantParse(l.item, l.next)
    ensures VariantFrom(ts, i, alts, true).Err? ==>
      LooseVariantFrom(ts, i, alts).notes[0] == VariantFrom(ts, i, alts, true).error
    decreases |ts| - i, 1
  {
    LooseSpanAgrees(ts, i, []);
    var sp := LooseSpanFrom(ts, i, []);
    if sp.stop.kind == Comma {
      LooseVariantAgrees(ts, sp.next, alts + [Span(sp.items)]);
    }
  }

  /** parse of __main__.py prints nothing exactly when the stricter reading
      accepts, and then both give the same tree; otherwise its first message
      is the stricter reading's error. */
  lemma LooseParseAgrees(t: string)
    ensures LooseParseText(t).1 == [] <==> ParseText(t, true).Ok?
    ensures ParseText(t, true).Ok? ==> LooseParseText(t).0 == ParseText(t, true).value
    ensures ParseText(t, true).Err? ==> LooseParseText(t).1[0] == ParseText(t, true).error
  {
    LooseSpanAgrees(Tokenize(t), 0, []);
  }

  /** parse of __main__.py prints nothing exactly on the texts of
      well-formed trees, empty spans allowed, and then returns that tree. */
  lemma LooseParseExact(t: string, xs: seq<Item>)
    ensures LooseParseText(t) == (xs, []) <==> PrintSpan(xs) == t && WellFormedSpan(xs, true)
  {
    LooseParseAgrees(t);
    Language.ParseTextExact(t, true, xs);
  }

  /** Whatever myparser.py accepts, __main__.py reads the same way and prints
      nothing. */
  lemma StrictIsLoose(t: string)
    requires ParseText(t, false).Ok?
    ensures LooseParseText(t) == (ParseText(t, false).value, [])
  {
    var xs := ParseText(t, false).value;
    Language.ParseTextExact(t, false, xs);
    WellFormedWeakens(xs);
    LooseParseExact(t, xs);
  }

  /** A tree without empty spans is a tree with empty spans allowed. */
  lemma {:induction false} WellFormedWeakens(xs: seq<Item>)
    requires WellFormedItems(xs, false)
    ensures WellFormedItems(xs, true)
    decreases xs, 0
  {
    if xs != [] {
      ItemWeakens(xs[0]);
      WellFormedWeakens(xs[1..]);
    }
  }

  lemma {:induction false} ItemWeakens(x: Item)
    requires WellFormedItem(x, false)
    ensures WellFormedItem(x, true)
    decreases x, 0
  {
    if x.Var? {
      forall j | 0 <= j < |x.alts| ensures WellFormedSpan(x.alts[j].items, true) {
        WellFormedWeakens(x.alts[j].items);
      }
    }
  }
}
