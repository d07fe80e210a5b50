/** The abstract syntax of brace expressions, their concrete text and their
    denotation: the ordered list of strings an expression expands to. */
module Syntax {
  import opened Lexing

  /** A span item: literal text, or a `{...}` variant whose alternatives are
      spans. */
  datatype Item = Lit(text: string) | Var(alts: seq<Span>)

  /** A span: items written one after the other. */
  datatype Span = Span(items: seq<Item>)

  // ---------------------------------------------------------------------------
  // Concrete text

  function PrintSpan(xs: seq<Item>): string
    decreases xs
  {
    if xs == [] then "" else PrintItem(xs[0]) + PrintSpan(xs[1..])
  }

  function PrintItem(x: Item): string
    decreases x
  {
    match x
    case Lit(t) => t
    case Var(alts) => "{" + PrintAlts(alts) + "}"
  }

  /** The alternatives separated by commas. */
  function PrintAlts(alts: seq<Span>): string
    decreases alts
  {
    if alts == [] then ""
    else if |alts| == 1 then PrintSpan(alts[0].items)
    else PrintSpan(alts[0].items) + "," + PrintAlts(alts[1..])
  }

  /** The tokens of a span's concrete text. */
  function TokSpan(xs: seq<Item>): seq<Token>
    decreases xs
  {
    if xs == [] then [] else TokItem(xs[0]) + TokSpan(xs[1..])
  }

  function TokItem(x: Item): seq<Token>
    decreases x
  {
    match x
    case Lit(t) => [Token(Literal, t)]
    case Var(alts) => [Token(LeftBrace, "{")] + TokAlts(alts) + [Token(RightBrace, "}")]
  }

  function TokAlts(alts: seq<Span>): seq<Token>
    decreases alts
  {
    if alts == [] then []
    else if |alts| == 1 then TokSpan(alts[0].items)
    else TokSpan(alts[0].items) + [Token(Comma, ",")] + TokAlts(alts[1..])
  }

  // ---------------------------------------------------------------------------
  // Well-formedness: the trees a parser can produce. Literal texts are
  // non-empty runs of non-special characters, two literals are never
  // adjacent (the tokenizer reads maximal runs), and a variant has at least
  // one alternative. `emptyOk` says whether a span may be empty.

  predicate WellFormedSpan(xs: seq<Item>, emptyOk: bool)
    decreases xs, 1
  {
    (emptyOk || xs != []) && WellFormedItems(xs, emptyOk)
  }

  /** A well-formed span with no condition on its length. */
  predicate WellFormedItems(xs: seq<Item>, emptyOk: bool)
    decreases xs, 0
  {
    xs != [] ==>
      WellFormedItem(xs[0], emptyOk) &&
      (|xs| > 1 ==> !(xs[0].Lit? && xs[1].Lit?)) &&
      WellFormedItems(xs[1..], emptyOk)
  }

  predicate WellFormedItem(x: Item, emptyOk: bool)
    decreases x, 0
  {
    match x
    case Lit(t) => LiteralText(t)
    case Var(alts) =>
      alts != [] && forall j :: 0 <= j < |alts| ==> WellFormedSpan(alts[j].items, emptyOk)
  }

  // ---------------------------------------------------------------------------
  // Denotation

  /** `a` prepended to every string of `ws`. */
  function Prefixed(a: string, ws: seq<string>): (r: seq<string>)
    ensures |r| == |ws|
    ensures forall j :: 0 <= j < |ws| ==> r[j] == a + ws[j]
  {
    if ws == [] then [] else [a + ws[0]] + Prefixed(a, ws[1..])
  }

  /** The concatenation product in depth-first order: for each string of `heads`
      in turn, that string followed by each string of `tails`. */
  function Product(heads: seq<string>, tails: seq<string>): seq<string>
  {
    if heads == [] then [] else Prefixed(heads[0], tails) + Product(heads[1..], tails)
  }

  /** A span means the product of its items; the empty span means [""]. */
  function DenoteSpan(xs: seq<Item>): seq<string>
    decreases xs
  {
    if xs == [] then [""] else Product(DenoteItem(xs[0]), DenoteSpan(xs[1..]))
  }

  function DenoteItem(x: Item): seq<string>
    decreases x
  {
    match x
    case Lit(t) => [t]
    case Var(alts) => DenoteAlts(alts)
  }

  /** A variant means the ordered union of its alternatives, duplicates kept. */
  function DenoteAlts(alts: seq<Span>): seq<string>
    decreases alts
  {
    if alts == [] then [] else DenoteSpan(alts[0].items) + DenoteAlts(alts[1..])
  }

  // ---------------------------------------------------------------------------
  // Laws of the denotation: the product of lists is associative with [""] as
  // its unit, so a span's meaning splits at any point, and a variant's
  // meaning splits between any two groups of alternatives.

  /** Prefixing the empty string leaves a list as it is. */
  lemma {:induction false} PrefixedNothing(ws: seq<string>)
    ensures Prefixed("", ws) == ws
    decreases ws
  {
    if ws != [] {
      assert "" + ws[0] == ws[0];
      PrefixedNothing(ws[1..]);
    }
  }

  /** The product with the one empty string leaves a list as it is. */
  lemma {:induction false} ProductUnit(ws: seq<string>)
    ensures Product(ws, [""]) == ws
    decreases ws
  {
    if ws != [] {
      assert ws[0] + "" == ws[0];
      ProductUnit(ws[1..]);
    }
  }

  /** The one empty string is a unit on the left as well. */
  lemma ProductUnitLeft(ws: seq<string>)
    ensures Product([""], ws) == ws
  {
    assert [""][1..] == [];
    PrefixedNothing(ws);
    assert ws + [] == ws;
  }

  lemma PrefixedAppend(h: string, x: seq<string>, y: seq<string>)
    ensures Prefixed(h, x + y) == Prefixed(h, x) + Prefixed(h, y)
  {
    var l, r := Prefixed(h, x + y), Prefixed(h, x) + Prefixed(h, y);
    forall j | 0 <= j < |l|
      ensures l[j] == r[j]
    {
      if j >= |x| {
        assert (x + y)[j] == y[j - |x|];
      }
    }
  }

  lemma {:induction false} PrefixedTwice(h: string, g: string, ws: seq<string>)
    ensures Prefixed(h + g, ws) == Prefixed(h, Prefixed(g, ws))
    decreases ws
  {
    if ws != [] {
      var p := Prefixed(g, ws);
      assert p[0] == g + ws[0] && p[1..] == Prefixed(g, ws[1..]);
      assert h + g + ws[0] == h + (g + ws[0]);
      PrefixedTwice(h, g, ws[1..]);
    }
  }

  lemma {:induction false} ProductAppend(a: seq<string>, b: seq<string>, ws: seq<string>)
    ensures Product(a + b, ws) == Product(a, ws) + Product(b, ws)
    decreases a
  {
    if a == [] {
      assert a + b == b;
    } else {
      assert (a + b)[0] == a[0] && (a + b)[1..] == a[1..] + b;
      ProductAppend(a[1..], b, ws);
    }
  }

  lemma {:induction false} PrefixedProduct(h: string, b: seq<string>, ws: seq<string>)
    ensures Product(Prefixed(h, b), ws) == Prefixed(h, Product(b, ws))
    decreases b
  {
    if b != [] {
      var p := Prefixed(h, b);
      assert p[0] == h + b[0] && p[1..] == Prefixed(h, b[1..]);
      PrefixedTwice(h, b[0], ws);
      PrefixedProduct(h, b[1..], ws);
      PrefixedAppend(h, Prefixed(b[0], ws), Product(b[1..], ws));
    }
  }

  /** Expanding a product further expands each of its strings in turn. */
  lemma {:induction false} ProductAssoc(a: seq<string>, b: seq<string>, c: seq<string>)
    ensures Product(Product(a, b), c) == Product(a, Product(b, c))
    decreases a
  {
    if a != [] {
      ProductAppend(Prefixed(a[0], b), Product(a[1..], b), c);
      PrefixedProduct(a[0], b, c);
      ProductAssoc(a[1..], b, c);
    }
  }

  /** The meaning of two spans written one after the other is the product of
      their meanings. */
  lemma {:induction false} DenoteSpanAppend(xs: seq<Item>, ys: seq<Item>)
    ensures DenoteSpan(xs + ys) == Product(DenoteSpan(xs), DenoteSpan(ys))
    decreases xs
  {
    if xs == [] {
      assert xs + ys == ys;
      ProductUnitLeft(DenoteSpan(ys));
    } else {
      assert (xs + ys)[0] == xs[0] && (xs + ys)[1..] == xs[1..] + ys;
      DenoteSpanAppend(xs[1..], ys);
      ProductAssoc(DenoteItem(xs[0]), DenoteSpan(xs[1..]), DenoteSpan(ys));
    }
  }

  /** The meaning of two groups of alternatives is the one list followed by
      the other. */
  lemma {:induction false} DenoteAltsAppend(a: seq<Span>, b: seq<Span>)
    ensures DenoteAlts(a + b) == DenoteAlts(a) + DenoteAlts(b)
    decreases a
  {
    if a == [] {
      assert a + b == b;
    } else {
      assert (a + b)[0] == a[0] && (a + b)[1..] == a[1..] + b;
      DenoteAltsAppend(a[1..], b);
    }
  }

  // ---------------------------------------------------------------------------
  // How many strings an expression yields: a product over the items of a span
  // and a sum over the alternatives of a variant.

  function CountSpan(xs: seq<Item>): nat
    decreases xs
  {
    if xs == [] then 1 else CountItem(xs[0]) * CountSpan(xs[1..])
  }

  function CountItem(x: Item): nat
    decreases x
  {
    match x
    case Lit(_) => 1
    case Var(alts) => CountAlts(alts)
  }

  function CountAlts(alts: seq<Span>): nat
    decreases alts
  {
    if alts == [] then 0 else CountSpan(alts[0].items) + CountAlts(alts[1..])
  }

  lemma {:induction false} ProductLength(heads: seq<string>, tails: seq<string>)
    ensures |Product(heads, tails)| == |heads| * |tails|
  {
    if heads != [] {
      ProductLength(heads[1..], tails);
      assert |heads| * |tails| == |tails| + (|heads| - 1) * |tails| by {
        assert |heads| * |tails| == (1 + (|heads| - 1)) * |tails|;
      }
    }
  }

  /** The number of expansions is determined by the shape of the tree alone. */
  lemma {:induction false} SpanCount(xs: seq<Item>)
    ensures |DenoteSpan(xs)| == CountSpan(xs)
    decreases xs
  {
    if xs != [] {
      ItemCount(xs[0]);
      SpanCount(xs[1..]);
      ProductLength(DenoteItem(xs[0]), DenoteSpan(xs[1..]));
    }
  }

  lemma {:induction false} ItemCount(x: Item)
    ensures |DenoteItem(x)| == CountItem(x)
    decreases x
  {
    match x
    case Lit(_) =>
    case Var(alts) => AltsCount(alts);
  }

  lemma {:induction false} AltsCount(alts: seq<Span>)
    ensures |DenoteAlts(alts)| == CountAlts(alts)
    decreases alts
  {
    if alts != [] {
      SpanCount(alts[0].items);
      AltsCount(alts[1..]);
    }
  }

  // ---------------------------------------------------------------------------
  // Facts about the concrete text

  lemma {:induction false} PrintSpanAppend(a: seq<Item>, b: seq<Item>)
    ensures PrintSpan(a + b) == PrintSpan(a) + PrintSpan(b)
    decreases a
  {
    if a == [] {
      assert a + b == b;
    } else {
      assert (a + b)[1..] == a[1..] + b;
      PrintSpanAppend(a[1..], b);
    }
  }

  /** Two non-empty groups of alternatives print with a comma between them. */
  lemma {:induction false} PrintAltsAppend(a: seq<Span>, b: seq<Span>)
    requires a != [] && b != []
    ensures PrintAlts(a + b) == PrintAlts(a) + "," + PrintAlts(b)
    decreases a
  {
    assert (a + b)[0] == a[0] && (a + b)[1..] == a[1..] + b;
    if |a| > 1 {
      PrintAltsAppend(a[1..], b);
    }
  }

  /** A span written after another is well formed exactly when both are and
      no two literals meet where they join. */
  lemma {:induction false} WellFormedAppend(xs: seq<Item>, ys: seq<Item>, emptyOk: bool)
    ensures WellFormedItems(xs + ys, emptyOk) <==>
      WellFormedItems(xs, emptyOk) && WellFormedItems(ys, emptyOk) &&
      !(xs != [] && ys != [] && xs[|xs| - 1].Lit? && ys[0].Lit?)
    decreases xs
  {
    if xs == [] {
      assert xs + ys == ys;
    } else {
      assert (xs + ys)[0] == xs[0] && (xs + ys)[1..] == xs[1..] + ys;
      WellFormedAppend(xs[1..], ys, emptyOk);
    }
  }

  /** Printing a span whose first item is a variant starts with a brace. */
  lemma PrintSpanStartsWithBrace(xs: seq<Item>)
    requires xs != [] && xs[0].Var?
    ensures PrintSpan(xs) != [] && PrintSpan(xs)[0] == '{'
  {
  }

  /** The tokens of a printed tree spell its text. */
  lemma {:induction false} JoinTokSpan(xs: seq<Item>)
    ensures Join(TokSpan(xs)) == PrintSpan(xs)
    decreases xs
  {
    if xs != [] {
      JoinAppend(TokItem(xs[0]), TokSpan(xs[1..]));
      JoinTokItem(xs[0]);
      JoinTokSpan(xs[1..]);
    }
  }

  lemma {:induction false} JoinTokItem(x: Item)
    ensures Join(TokItem(x)) == PrintItem(x)
    decreases x
  {
    if x.Var? {
      var open, close := [Token(LeftBrace, "{")], [Token(RightBrace, "}")];
      JoinAppend(open + TokAlts(x.alts), close);
      JoinAppend(open, TokAlts(x.alts));
      JoinTokAlts(x.alts);
    }
  }

  lemma {:induction false} JoinTokAlts(alts: seq<Span>)
    ensures Join(TokAlts(alts)) == PrintAlts(alts)
    decreases alts
  {
    if alts != [] {
      JoinTokSpan(alts[0].items);
      if |alts| > 1 {
        var head := TokSpan(alts[0].items) + [Token(Comma, ",")];
        JoinAppend(head, TokAlts(alts[1..]));
        JoinAppend(TokSpan(alts[0].items), [Token(Comma, ",")]);
        JoinTokAlts(alts[1..]);
      }
    }
  }
}
