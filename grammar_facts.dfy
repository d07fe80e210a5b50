/** What the parser of myparser.py accepts: exactly the printed forms of
    well-formed trees with no empty span, and it gives back that tree. */
module GrammarFacts {
  import opened Lexing
  import opened Syntax
  import opened Grammar
  import opened SeqFacts

  const LeftBraceToken := Token(LeftBrace, "{")
  const RightBraceToken := Token(RightBrace, "}")
  const CommaToken := Token(Comma, ",")

  /** Splitting the unread tokens. */
  lemma SliceAfter(ts: seq<Token>, i: nat, a: seq<Token>, b: seq<Token>)
    requires i <= |ts| && ts[i..] == a + b
    ensures i + |a| <= |ts| && ts[i + |a|..] == b && TokenAt(ts, i + |a|) == TokenAt(b, 0)
    ensures a != [] ==> ts[i] == a[0]
  {
    assert ts[i + |a|..] == ts[i..][|a|..];
    if a != [] {
      assert ts[i] == ts[i..][0];
    }
    if b != [] {
      assert ts[i + |a|] == ts[i..][|a|];
    }
  }


  // ---------------------------------------------------------------------------
  // Soundness: what the loops return is a well-formed tree whose tokens are
  // the tokens they read.

  /** The tokens that end a span, as read. */
  function Closing(stop: Token): seq<Token> {
    if stop.kind == End then [] else [stop]
  }

  /** Soundness of parse_span: started at token `i` with `acc` collected,
      it returns `acc` followed by well-formed items whose tokens, with the
      stopping token, are exactly the tokens it read. */
  lemma {:induction false} SpanSound(ts: seq<Token>, i: nat, acc: seq<Item>, emptyOk: bool, sp: SpanParse)
    requires i <= |ts| && Lexical(ts) && SpanFrom(ts, i, acc, emptyOk) == Ok(sp)
    ensures |acc| <= |sp.items| && sp.items[..|acc|] == acc
    ensures ts[i..sp.next] == TokSpan(sp.items[|acc|..]) + Closing(sp.stop)
    ensures sp.stop.kind == End ==> sp.next == |ts|
    ensures WellFormedItems(sp.items[|acc|..], emptyOk)
    ensures |acc| < |sp.items| && sp.items[|acc|].Lit? ==> TokenAt(ts, i).kind == Literal
    decreases |ts| - i, 1
  {
    var t := TokenAt(ts, i);
    if t.kind == Literal {
      SpanSoundLiteral(ts, i, acc, emptyOk, sp);
    } else if t.kind == LeftBrace {
      SpanSoundBrace(ts, i, acc, emptyOk, sp);
    } else {
      assert sp.items == acc;
      if i < |ts| {
        LexicalAt(ts, i);
        assert ts[i..i + 1] == [t];
      }
    }
  }

  lemma {:induction false} SpanSoundLiteral(ts: seq<Token>, i: nat, acc: seq<Item>, emptyOk: bool, sp: SpanParse)
    requires i <= |ts| && Lexical(ts) && SpanFrom(ts, i, acc, emptyOk) == Ok(sp)
    requires TokenAt(ts, i).kind == Literal
    ensures |acc| <= |sp.items| && sp.items[..|acc|] == acc
    ensures ts[i..sp.next] == TokSpan(sp.items[|acc|..]) + Closing(sp.stop)
    ensures sp.stop.kind == End ==> sp.next == |ts|
    ensures WellFormedItems(sp.items[|acc|..], emptyOk)
    ensures |acc| < |sp.items| && sp.items[|acc|].Lit? ==> TokenAt(ts, i).kind == Literal
    decreases |ts| - i, 0
  {
    var t := ts[i];
    LexicalAt(ts, i);
    var x := Lit(t.value);
    SpanFromLiteralStep(ts, i, acc, emptyOk, x);
    SpanSound(ts, i + 1, acc + [x], emptyOk, sp);
    assert ts[i..i + 1] == TokItem(x);
    ExtendRead(ts, i, i + 1, acc, emptyOk, x, sp);
  }

  lemma {:induction false} SpanSoundBrace(ts: seq<Token>, i: nat, acc: seq<Item>, emptyOk: bool, sp: SpanParse)
    requires i <= |ts| && Lexical(ts) && SpanFrom(ts, i, acc, emptyOk) == Ok(sp)
    requires TokenAt(ts, i).kind == LeftBrace
    ensures |acc| <= |sp.items| && sp.items[..|acc|] == acc
    ensures ts[i..sp.next] == TokSpan(sp.items[|acc|..]) + Closing(sp.stop)
    ensures sp.stop.kind == End ==> sp.next == |ts|
    ensures WellFormedItems(sp.items[|acc|..], emptyOk)
    ensures |acc| < |sp.items| && sp.items[|acc|].Lit? ==> TokenAt(ts, i).kind == Literal
    decreases |ts| - i, 0
  {
    var v := VariantFrom(ts, i + 1, [], emptyOk).value;
    VariantRead(ts, i, emptyOk, v);
    SpanFromBraceStep(ts, i, acc, emptyOk, v);
    SpanSound(ts, v.next, acc + [v.item], emptyOk, sp);
    ExtendRead(ts, i, v.next, acc, emptyOk, v.item, sp);
  }

  /** A variant read from a left brace is a well-formed item whose tokens
      are the ones read. */
  lemma VariantRead(ts: seq<Token>, i: nat, emptyOk: bool, v: VariantParse)
    requires i < |ts| && Lexical(ts) && ts[i].kind == LeftBrace
    requires VariantFrom(ts, i + 1, [], emptyOk) == Ok(v)
    ensures i < v.next <= |ts| && v.item.Var?
    ensures ts[i..v.next] == TokItem(v.item) && WellFormedItem(v.item, emptyOk)
    decreases |ts| - (i + 1), 3
  {
    LexicalAt(ts, i);
    VariantSound(ts, i + 1, [], emptyOk, v);
    assert v.item.alts[0..] == v.item.alts;
    BraceItemTokens(ts, i, v.item, v.next);
  }

  /** Gluing the tokens of one more item in front of what the rest of a span
      read. */
  lemma ExtendRead(ts: seq<Token>, i: nat, j: nat, acc: seq<Item>, emptyOk: bool, x: Item, sp: SpanParse)
    requires i <= j <= sp.next <= |ts| && ts[i..j] == TokItem(x)
    requires |acc| + 1 <= |sp.items| && sp.items[..|acc| + 1] == acc + [x]
    requires ts[j..sp.next] == TokSpan(sp.items[|acc| + 1..]) + Closing(sp.stop)
    requires WellFormedItem(x, emptyOk) && WellFormedItems(sp.items[|acc| + 1..], emptyOk)
    requires x.Lit? && |acc| + 1 < |sp.items| ==> !sp.items[|acc| + 1].Lit?
    ensures sp.items[..|acc|] == acc && sp.items[|acc|] == x
    ensures ts[i..sp.next] == TokSpan(sp.items[|acc|..]) + Closing(sp.stop)
    ensures WellFormedItems(sp.items[|acc|..], emptyOk)
  {
    Unsnoc(acc, x, sp.items);
    var rest := sp.items[|acc| + 1..];
    ConsItem(x, rest, emptyOk);
    Split(ts, i, j, sp.next);
    Assoc(TokItem(x), TokSpan(rest), Closing(sp.stop));
  }

  lemma BraceItemTokens(ts: seq<Token>, i: nat, x: Item, j: nat)
    requires i < j <= |ts| && ts[i] == LeftBraceToken && x.Var?
    requires ts[i + 1..j] == TokAlts(x.alts) + [RightBraceToken]
    ensures ts[i..j] == TokItem(x)
  {
    Split(ts, i, i + 1, j);
    assert ts[i..i + 1] == [LeftBraceToken];
  }


  /** The tokens and the well-formedness of a span with a first item. */
  lemma ConsItem(x: Item, rest: seq<Item>, emptyOk: bool)
    ensures TokSpan([x] + rest) == TokItem(x) + TokSpan(rest)
    ensures WellFormedItems([x] + rest, emptyOk) <==>
      WellFormedItem(x, emptyOk) && (rest != [] ==> !(x.Lit? && rest[0].Lit?)) &&
      WellFormedItems(rest, emptyOk)
  {
    assert ([x] + rest)[1..] == rest;
  }


  /** Soundness of parse_variant: started at token `i` with `alts`
      collected, it returns those followed by well-formed alternatives that
      are not empty, whose tokens, with the commas between them and the
      closing brace, are exactly the tokens it read. */
  lemma {:induction false} VariantSound(ts: seq<Token>, i: nat, alts: seq<Span>, emptyOk: bool, v: VariantParse)
    requires i <= |ts| && Lexical(ts) && VariantFrom(ts, i, alts, emptyOk) == Ok(v)
    ensures |alts| < |v.item.alts| && v.item.alts[..|alts|] == alts
    ensures ts[i..v.next] == TokAlts(v.item.alts[|alts|..]) + [RightBraceToken]
    ensures forall j :: |alts| <= j < |v.item.alts| ==> WellFormedSpan(v.item.alts[j].items, emptyOk)
    decreases |ts| - i, 2
  {
    var sp := SpanFrom(ts, i, [], emptyOk).value;
    SpanSound(ts, i, [], emptyOk, sp);
    assert sp.items[0..] == sp.items;
    var alts' := alts + [Span(sp.items)];
    if sp.stop.kind == Comma {
      VariantFromCommaStep(ts, i, alts, emptyOk, sp);
      VariantSound(ts, sp.next, alts', emptyOk, v);
      Unsnoc(alts, Span(sp.items), v.item.alts);
      ConsAlt(Span(sp.items), v.item.alts[|alts'|..]);
      StopIsLast(ts, i, sp);
      Split(ts, i, sp.next, v.next);
    } else {
      assert v == VariantParse(Var(alts'), sp.next);
      assert v.item.alts[|alts|..] == [Span(sp.items)];
      StopIsLast(ts, i, sp);
    }
  }

  lemma ConsAlt(a: Span, rest: seq<Span>)
    requires rest != []
    ensures TokAlts([a] + rest) == TokSpan(a.items) + [CommaToken] + TokAlts(rest)
  {
    assert ([a] + rest)[1..] == rest;
  }

  /** The token that ended a span is the last one read, so it is a symbol. */
  lemma StopIsLast(ts: seq<Token>, i: nat, sp: SpanParse)
    requires Lexical(ts) && i <= sp.next <= |ts| && Stops(sp.stop) && sp.stop.kind != End
    requires ts[i..sp.next] == TokSpan(sp.items) + Closing(sp.stop)
    ensures sp.stop == Token(sp.stop.kind, Symbol(sp.stop.kind))
  {
    var read := ts[i..sp.next];
    assert read == TokSpan(sp.items) + [sp.stop];
    assert read[|read| - 1] == sp.stop;
    assert ts[sp.next - 1] == read[sp.next - 1 - i];
    LexicalAt(ts, sp.next - 1);
  }

  // ---------------------------------------------------------------------------
  // Completeness: on the tokens of a well-formed tree the loops give back
  // that tree.

  /** What may follow a span: the end, a comma or a closing brace. */
  predicate Terminates(rest: seq<Token>) {
    rest == [] || rest[0].kind == Comma || rest[0].kind == RightBrace
  }

  /** The index after the token that ends a span followed by `rest`. */
  function AfterStop(rest: seq<Token>): nat {
    if rest == [] then 0 else 1
  }

  lemma SpanComplete(ts: seq<Token>, i: nat, acc: seq<Item>, emptyOk: bool, xs: seq<Item>, rest: seq<Token>)
    requires i <= |ts| && ts[i..] == TokSpan(xs) + rest && Terminates(rest)
    requires (emptyOk || acc + xs != []) && WellFormedItems(xs, emptyOk)
    ensures SpanFrom(ts, i, acc, emptyOk) ==
      Ok(SpanParse(acc + xs, TokenAt(rest, 0), i + |TokSpan(xs)| + AfterStop(rest)))
  {
    SpanCompleteTo(ts, i, acc, emptyOk, xs, rest, acc + xs, i + |TokSpan(xs)| + AfterStop(rest));
  }

  /** SpanComplete, with the expected result named by the caller. */
  lemma {:induction false} SpanCompleteTo(ts: seq<Token>, i: nat, acc: seq<Item>, emptyOk: bool, xs: seq<Item>, rest: seq<Token>,
                                          items: seq<Item>, next: nat)
    requires i <= |ts| && ts[i..] == TokSpan(xs) + rest && Terminates(rest)
    requires (emptyOk || acc + xs != []) && WellFormedItems(xs, emptyOk)
    requires items == acc + xs && next == i + |TokSpan(xs)| + AfterStop(rest)
    ensures SpanFrom(ts, i, acc, emptyOk) == Ok(SpanParse(items, TokenAt(rest, 0), next))
    decreases xs, 1
  {
    if xs == [] {
      assert acc + xs == acc;
      SliceAfter(ts, i, [], rest);
    } else if xs[0].Lit? {
      LiteralComplete(ts, i, acc, emptyOk, xs, rest, items, next);
    } else {
      BraceComplete(ts, i, acc, emptyOk, xs, rest, items, next);
    }
  }

  lemma {:induction false} LiteralComplete(ts: seq<Token>, i: nat, acc: seq<Item>, emptyOk: bool, xs: seq<Item>, rest: seq<Token>,
                                           items: seq<Item>, next: nat)
    requires i <= |ts| && ts[i..] == TokSpan(xs) + rest && Terminates(rest)
    requires xs != [] && xs[0].Lit? && WellFormedItems(xs, emptyOk)
    requires items == acc + xs && next == i + |TokSpan(xs)| + AfterStop(rest)
    ensures SpanFrom(ts, i, acc, emptyOk) == Ok(SpanParse(items, TokenAt(rest, 0), next))
    decreases xs, 0
  {
    var x := xs[0];
    var head := [Token(Literal, x.text)];
    assert TokSpan(xs) == head + TokSpan(xs[1..]);
    Assoc(head, TokSpan(xs[1..]), rest);
    SliceAfter(ts, i, head, TokSpan(xs[1..]) + rest);
    SpanFromLiteralStep(ts, i, acc, emptyOk, x);
    SnocCons(acc, xs);
    SpanCompleteTo(ts, i + 1, acc + [x], emptyOk, xs[1..], rest, items, next);
  }

  /** One turn of parse_span's loop on a literal. */
  lemma SpanFromLiteralStep(ts: seq<Token>, i: nat, acc: seq<Item>, emptyOk: bool, x: Item)
    requires i < |ts| && x.Lit? && ts[i] == Token(Literal, x.text)
    ensures SpanFrom(ts, i, acc, emptyOk) == SpanFrom(ts, i + 1, acc + [x], emptyOk)
  {
  }

  lemma {:induction false} BraceComplete(ts: seq<Token>, i: nat, acc: seq<Item>, emptyOk: bool, xs: seq<Item>, rest: seq<Token>,
                                         items: seq<Item>, next: nat)
    requires i <= |ts| && ts[i..] == TokSpan(xs) + rest && Terminates(rest)
    requires xs != [] && xs[0].Var? && WellFormedItems(xs, emptyOk)
    requires items == acc + xs && next == i + |TokSpan(xs)| + AfterStop(rest)
    ensures SpanFrom(ts, i, acc, emptyOk) == Ok(SpanParse(items, TokenAt(rest, 0), next))
    decreases xs, 0
  {
    var alts := xs[0].alts;
    var after := TokSpan(xs[1..]) + rest;
    var q := i + 1 + |TokAlts(alts)| + 1;
    VariantTokens(ts, i, xs, rest);
    assert [] + alts == alts;
    VariantCompleteTo(ts, i + 1, [], emptyOk, alts, after, xs[0], q);
    SpanFromBraceStep(ts, i, acc, emptyOk, VariantParse(xs[0], q));
    SnocCons(acc, xs);
    SpanCompleteTo(ts, q, acc + [xs[0]], emptyOk, xs[1..], rest, items, next);
  }

  /** Where the tokens of a span that starts with a variant lie. */
  lemma VariantTokens(ts: seq<Token>, i: nat, xs: seq<Item>, rest: seq<Token>)
    requires i <= |ts| && ts[i..] == TokSpan(xs) + rest
    requires xs != [] && xs[0].Var?
    ensures var q := i + 1 + |TokAlts(xs[0].alts)| + 1;
      q <= |ts| && ts[i] == LeftBraceToken &&
      ts[i + 1..] == TokAlts(xs[0].alts) + [RightBraceToken] + (TokSpan(xs[1..]) + rest) &&
      ts[q..] == TokSpan(xs[1..]) + rest &&
      |TokSpan(xs)| == q - i + |TokSpan(xs[1..])|
  {
    var alts := xs[0].alts;
    assert TokSpan(xs) == TokItem(xs[0]) + TokSpan(xs[1..]);
    assert TokItem(xs[0]) == [LeftBraceToken] + TokAlts(alts) + [RightBraceToken];
    Regroup(ts, i, [LeftBraceToken], TokAlts(alts), [RightBraceToken], TokSpan(xs[1..]), rest);
  }

  /** Cutting the unread tokens into four pieces and a remainder. */
  lemma Regroup(ts: seq<Token>, i: nat, a: seq<Token>, b: seq<Token>, c: seq<Token>, d: seq<Token>, e: seq<Token>)
    requires i <= |ts| && ts[i..] == (a + b + c) + d + e
    ensures i + |a| + |b| + |c| <= |ts|
    ensures ts[i + |a|..] == b + c + (d + e)
    ensures ts[i + |a| + |b| + |c|..] == d + e
    ensures a != [] ==> ts[i] == a[0]
  {
    assert (a + b + c) + d + e == a + (b + c + (d + e));
    SliceAfter(ts, i, a, b + c + (d + e));
    assert (a + b + c) + d + e == (a + b + c) + (d + e);
    SliceAfter(ts, i, a + b + c, d + e);
  }

  /** One turn of parse_span's loop on a left brace. */
  lemma SpanFromBraceStep(ts: seq<Token>, i: nat, acc: seq<Item>, emptyOk: bool, v: VariantParse)
    requires i < |ts| && ts[i].kind == LeftBrace && VariantFrom(ts, i + 1, [], emptyOk) == Ok(v)
    ensures SpanFrom(ts, i, acc, emptyOk) == SpanFrom(ts, v.next, acc + [v.item], emptyOk)
  {
  }

  lemma VariantComplete(ts: seq<Token>, i: nat, done: seq<Span>, emptyOk: bool, alts: seq<Span>, rest: seq<Token>)
    requires i <= |ts| && ts[i..] == TokAlts(alts) + [RightBraceToken] + rest
    requires alts != [] && forall j :: 0 <= j < |alts| ==> WellFormedSpan(alts[j].items, emptyOk)
    ensures VariantFrom(ts, i, done, emptyOk) == Ok(VariantParse(Var(done + alts), i + |TokAlts(alts)| + 1))
  {
    VariantCompleteTo(ts, i, done, emptyOk, alts, rest, Var(done + alts), i + |TokAlts(alts)| + 1);
  }

  /** VariantComplete, with the expected result named by the caller. */
  lemma {:induction false} VariantCompleteTo(ts: seq<Token>, i: nat, done: seq<Span>, emptyOk: bool, alts: seq<Span>, rest: seq<Token>,
                                             item: Item, next: nat)
    requires i <= |ts| && ts[i..] == TokAlts(alts) + [RightBraceToken] + rest
    requires alts != [] && forall j :: 0 <= j < |alts| ==> WellFormedSpan(alts[j].items, emptyOk)
    requires item == Var(done + alts) && next == i + |TokAlts(alts)| + 1
    ensures VariantFrom(ts, i, done, emptyOk) == Ok(VariantParse(item, next))
    decreases alts, 1
  {
    if |alts| == 1 {
      LastAltComplete(ts, i, done, emptyOk, alts, rest, item, next);
    } else {
      MoreAltsComplete(ts, i, done, emptyOk, alts, rest, item, next);
    }
  }

  lemma {:induction false} LastAltComplete(ts: seq<Token>, i: nat, done: seq<Span>, emptyOk: bool, alts: seq<Span>, rest: seq<Token>,
                                           item: Item, next: nat)
    requires i <= |ts| && ts[i..] == TokAlts(alts) + [RightBraceToken] + rest
    requires |alts| == 1 && WellFormedSpan(alts[0].items, emptyOk)
    requires item == Var(done + alts) && next == i + |TokAlts(alts)| + 1
    ensures VariantFrom(ts, i, done, emptyOk) == Ok(VariantParse(item, next))
    decreases alts, 0
  {
    var first := alts[0].items;
    assert [] + first == first;
    SpanCompleteTo(ts, i, [], emptyOk, first, [RightBraceToken] + rest, first, next);
    assert done + alts == done + [Span(first)];
  }

  lemma {:induction false} MoreAltsComplete(ts: seq<Token>, i: nat, done: seq<Span>, emptyOk: bool, alts: seq<Span>, rest: seq<Token>,
                                            item: Item, next: nat)
    requires i <= |ts| && ts[i..] == TokAlts(alts) + [RightBraceToken] + rest
    requires |alts| > 1 && forall j :: 0 <= j < |alts| ==> WellFormedSpan(alts[j].items, emptyOk)
    requires item == Var(done + alts) && next == i + |TokAlts(alts)| + 1
    ensures VariantFrom(ts, i, done, emptyOk) == Ok(VariantParse(item, next))
    decreases alts, 0
  {
    var first := alts[0].items;
    var tail := TokAlts(alts[1..]) + [RightBraceToken] + rest;
    var q := i + |TokSpan(first)| + 1;
    AltsTokens(ts, i, alts, rest);
    assert [] + first == first;
    SpanCompleteTo(ts, i, [], emptyOk, first, [CommaToken] + tail, first, q);
    VariantFromCommaStep(ts, i, done, emptyOk, SpanParse(first, CommaToken, q));
    assert done + [Span(first)] + alts[1..] == done + alts;
    VariantCompleteTo(ts, q, done + [Span(first)], emptyOk, alts[1..], rest, item, next);
  }

  /** Where the tokens of several alternatives lie. */
  lemma AltsTokens(ts: seq<Token>, i: nat, alts: seq<Span>, rest: seq<Token>)
    requires i <= |ts| && ts[i..] == TokAlts(alts) + [RightBraceToken] + rest && |alts| > 1
    ensures var tail := TokAlts(alts[1..]) + [RightBraceToken] + rest;
      var q := i + |TokSpan(alts[0].items)| + 1;
      ts[i..] == TokSpan(alts[0].items) + ([CommaToken] + tail) &&
      q <= |ts| && ts[q..] == tail &&
      |TokAlts(alts)| == |TokSpan(alts[0].items)| + 1 + |TokAlts(alts[1..])|
  {
    var a, more := TokSpan(alts[0].items), TokAlts(alts[1..]);
    var tail := more + [RightBraceToken] + rest;
    assert TokAlts(alts) == a + [CommaToken] + more;
    assert TokAlts(alts) + [RightBraceToken] + rest == a + [CommaToken] + tail;
    CutAtComma(ts, i, a, tail);
  }

  lemma CutAtComma(ts: seq<Token>, i: nat, a: seq<Token>, tail: seq<Token>)
    requires i <= |ts| && ts[i..] == a + [CommaToken] + tail
    ensures ts[i..] == a + ([CommaToken] + tail)
    ensures i + |a| + 1 <= |ts| && ts[i + |a| + 1..] == tail
  {
    SliceAfter(ts, i, a + [CommaToken], tail);
  }

  /** One turn of parse_variant's loop on a comma. */
  lemma VariantFromCommaStep(ts: seq<Token>, i: nat, done: seq<Span>, emptyOk: bool, sp: SpanParse)
    requires i <= |ts| && SpanFrom(ts, i, [], emptyOk) == Ok(sp) && sp.stop.kind == Comma
    ensures VariantFrom(ts, i, done, emptyOk) == VariantFrom(ts, sp.next, done + [Span(sp.items)], emptyOk)
  {
  }
}
