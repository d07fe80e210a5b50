/** parse_span, parse_variant, parse and process_expression of myparser.py,
    as methods that drive the tokenizer and build the node graph. Each is
    proved to do what the function of the same loop in `Grammar` computes,
    and to leave behind nodes that represent the tree it read. */
module Parser {
  import opened Lexing
  import opened Syntax
  import opened Grammar
  import opened Placement
  import opened Nodes
  import opened Building

  /** What parse_span returns: the span node and the token that ended it. */
  datatype Parsed = Parsed(node: nat, stop: Token)

  /** What one pass of a parsing loop leaves: the loop goes on, or it has
      stopped with a result or an error. */
  datatype Step<T> = Going | Stopped(result: Result<T>)

  /** The tokenizer has read the first `i` tokens of `ts`, which are the
      tokens of its whole text. */
  ghost predicate At(tk: Tokenizer, ts: seq<Token>, i: nat)
    reads tk
  {
    tk.Valid() && i <= |ts| && Tokenize(tk.s[tk.pos..]) == ts[i..]
  }

  /** Every literal node was made from one of the first `i` tokens. */
  ghost predicate LiteralsBefore(cs: seq<Cell>, lo: seq<nat>, i: nat) {
    |lo| == |cs| && forall c :: 0 <= c < |cs| && cs[c].LiteralCell? ==> lo[c] < i
  }

  /** Two lists of cells with the same literal cells. */
  ghost predicate SameLiterals(cs: seq<Cell>, cs2: seq<Cell>) {
    |cs| == |cs2| && forall c :: 0 <= c < |cs| ==> (cs2[c].LiteralCell? <==> cs[c].LiteralCell?)
  }

  /** One call of next_token reads the next token of the list. */
  lemma ScanStep(s: string, pos: nat, ts: seq<Token>, i: nat)
    requires pos <= |s| && i <= |ts| && Tokenize(s[pos..]) == ts[i..]
    ensures Scan(s, pos).0 == TokenAt(ts, i)
    ensures Tokenize(s[Scan(s, pos).1..]) == ts[Advance(ts, i)..]
  {
    if pos == |s| {
      assert ts[i..] == [];
    } else {
      var t := s[pos..];
      var (tok, n) := ScanText(t);
      assert Scan(s, pos) == (tok, pos + n);
      assert t[n..] == s[pos + n..];
      assert ts[i..] == [tok] + Tokenize(s[pos + n..]);
      assert i < |ts| && ts[i] == tok && ts[i + 1..] == Tokenize(s[pos + n..]) by {
        assert ts[i..][0] == ts[i] && ts[i..][1..] == ts[i + 1..];
      }
    }
  }

  /** The loop of parse_span after a literal token. */
  lemma LiteralRead(ts: seq<Token>, i: nat, j: nat, acc: seq<Item>, v: string)
    requires i <= j <= |ts| && TokenAt(ts, j) == Token(Literal, v)
    requires SpanFrom(ts, i, [], false) == SpanFrom(ts, j, acc, false)
    ensures j < |ts| && SpanFrom(ts, i, [], false) == SpanFrom(ts, j + 1, acc + [Lit(v)], false)
  {
  }

  /** The loop of parse_span after a left brace: parse_variant's error, or
      its item appended. */
  lemma BraceRead(ts: seq<Token>, i: nat, j: nat, acc: seq<Item>)
    requires i <= j <= |ts| && TokenAt(ts, j).kind == LeftBrace
    requires SpanFrom(ts, i, [], false) == SpanFrom(ts, j, acc, false)
    ensures j < |ts|
    ensures VariantFrom(ts, j + 1, [], false).Err? ==>
      SpanFrom(ts, i, [], false) == Err(VariantFrom(ts, j + 1, [], false).error)
    ensures VariantFrom(ts, j + 1, [], false).Ok? ==>
      var v := VariantFrom(ts, j + 1, [], false).value;
      SpanFrom(ts, i, [], false) == SpanFrom(ts, v.next, acc + [v.item], false)
  {
  }

  /** The loop of parse_span at any other token. */
  lemma StopRead(ts: seq<Token>, i: nat, j: nat, acc: seq<Item>)
    requires i <= j <= |ts| && TokenAt(ts, j).kind != Literal && TokenAt(ts, j).kind != LeftBrace
    requires SpanFrom(ts, i, [], false) == SpanFrom(ts, j, acc, false)
    ensures SpanFrom(ts, i, [], false) ==
      if acc == [] then Err(EmptySpan) else Ok(SpanParse(acc, TokenAt(ts, j), Advance(ts, j)))
  {
  }

  /** The nodes of a finished span or variant: `p`, which starts at token
      `i`, is laid out from cell `base` to the end of `cs`, and `cs`
      represent it with nothing after it. */
  ghost predicate Made(cs: seq<Cell>, lo: seq<nat>, p: Placed, base: nat, i: nat) {
    Rep(cs, p, Empty) && Laid(p, true) && Closed(p) && p.id < |lo| && lo[p.id] == i &&
    Start(p, true) == base && Placement.End(p, true) == |cs|
  }

  /** The state of the loop of parse_span on the graph: the span `span`,
      made first when `base` were the cells, holds `items`, which stand for
      `acc`, and the loop reading on from token `j` gives what it gives
      from token `i`. */
  ghost predicate Filling(g: Graph, ts: seq<Token>, i: nat, j: nat, span: nat, items: seq<Placed>,
                           acc: seq<Item>, base: seq<Cell>, lo0: seq<nat>)
    reads g
  {
    i <= j <= |ts| && g.Valid() && |ts| < g.bound && Extends(base, g.cells) && lo0 <= g.lo &&
    span == |base| < |g.lo| && g.lo[span] == i &&
    Growing(g.cells, span, items) && ItemsOf(items) == acc && LiteralsBefore(g.cells, g.lo, j) &&
    SpanFrom(ts, i, [], false) == SpanFrom(ts, j, acc, false)
  }

  /** The end of parse_span: the token at `j` ends the span, which is
      finished if it holds an item and an error otherwise. */
  lemma SpanEnds(g: Graph, ts: seq<Token>, i: nat, j: nat, span: nat, items: seq<Placed>,
                 acc: seq<Item>, base: seq<Cell>, lo0: seq<nat>)
    requires Filling(g, ts, i, j, span, items, acc, base, lo0)
    requires TokenAt(ts, j).kind != Literal && TokenAt(ts, j).kind != LeftBrace
    ensures (g.cells[span].first == Empty) == (items == [])
    ensures items == [] ==> SpanFrom(ts, i, [], false) == Err(EmptySpan)
    ensures items != [] ==>
      SpanFrom(ts, i, [], false) == Ok(SpanParse(acc, TokenAt(ts, j), Advance(ts, j))) &&
      Made(g.cells, g.lo, PSpan(span, items), |base|, i)
  {
    StopRead(ts, i, j, acc);
    assert g.cells[span].first == FirstRef(items);
  }

  /** `span.append(node)` in parse_span, where `node` stands for `q` and
      was made after the items of the span. */
  method AppendItem(g: Graph, span: nat, node: nat, ghost items: seq<Placed>, ghost q: Placed,
                    ghost cs: seq<Cell>, ghost lo: seq<nat>, ghost j: nat, ghost base: seq<Cell>)
    requires g.Valid() && Growing(cs, span, items) && Extends(cs, g.cells) && lo <= g.lo
    requires |base| == span && Extends(base, cs)
    requires LiteralsBefore(cs, lo, j)
    requires q.id == node && !q.PSpan? && Closed(q) && Rep(g.cells, q, Empty) && Laid(q, true)
    requires Start(q, true) == |cs| && Placement.End(q, true) == |g.cells|
    requires node < |g.lo| && j <= g.lo[node] && g.lo[span] <= g.lo[node]
    modifies g
    ensures g.Valid() && g.lo == old(g.lo) && SameLiterals(old(g.cells), g.cells)
    ensures Growing(g.cells, span, items + [q]) && Extends(base, g.cells)
  {
    assert g.cells[..span] == cs[..span] == base;
    AppendReady(cs, lo, span, items, g.cells, g.lo, node, j);
    ghost var cs2 := g.cells;
    g.Append(span, node, if items == [] then q else Last(items));
    SpanGrows(cs, span, items, q, cs2);
  }

  /** `span.append(Literal(token.value))` in parse_span. */
  method AppendLiteral(g: Graph, span: nat, value: string, ghost ts: seq<Token>, ghost i: nat, ghost j: nat,
                       ghost items: seq<Placed>, ghost acc: seq<Item>, ghost base: seq<Cell>, ghost lo0: seq<nat>)
    returns (ghost q: Placed)
    requires Filling(g, ts, i, j, span, items, acc, base, lo0) && TokenAt(ts, j) == Token(Literal, value)
    modifies g
    ensures j < |ts| && Filling(g, ts, i, j + 1, span, items + [q], acc + [Lit(value)], base, lo0)
  {
    ghost var cs, lo := g.cells, g.lo;
    var lit := g.NewLiteral(value, j);
    q := PLit(lit, value);
    AppendItem(g, span, lit, items, q, cs, lo, j, base);
    ItemsOfSnoc(items, q);
    LiteralRead(ts, i, j, acc, value);
  }

  /** `span.append(parse_variant(tokenizer))` in parse_span, after the left
      brace at token `j`. */
  method AppendVariant(tk: Tokenizer, g: Graph, span: nat, ghost ts: seq<Token>, ghost i: nat, ghost j: nat,
                       ghost items: seq<Placed>, ghost acc: seq<Item>, ghost base: seq<Cell>, ghost lo0: seq<nat>)
    returns (r: Result<nat>, ghost q: Placed, ghost next: nat)
    requires Filling(g, ts, i, j, span, items, acc, base, lo0) && TokenAt(ts, j).kind == LeftBrace
    requires At(tk, ts, j + 1)
    modifies tk, g
    ensures tk.Valid() && g.Valid() && Extends(base, g.cells) && lo0 <= g.lo
    ensures r.Err? ==> SpanFrom(ts, i, [], false) == Err(r.error)
    ensures r.Ok? ==> (j < next && At(tk, ts, next) &&
      Filling(g, ts, i, next, span, items + [q], acc + [ItemOf(q)], base, lo0))
    decreases |ts| - (j + 1), 6
  {
    ghost var cs, lo := g.cells, g.lo;
    ghost var f := VariantFrom(ts, j + 1, [], false);
    BraceRead(ts, i, j, acc);
    var v;
    v, q := ParseVariant(tk, g, ts, j + 1);
    if v.Err? {
      ExtendsTrans(base, cs, g.cells);
      return Err(v.error), q, j;
    }
    assert f.Ok?;
    next := f.value.next;
    ExtendsTrans(base, cs, g.cells);
    AppendItem(g, span, v.value, items, q, cs, lo, j, base);
    ItemsOfSnoc(items, q);
    return Ok(v.value), q, next;
  }

  /** One pass of the loop of parse_span: the next token is read and
      either appended to the span or it ends the span, which is then
      returned, or an error. */
  method SpanStep(tk: Tokenizer, g: Graph, span: nat, ghost ts: seq<Token>, ghost i: nat, ghost j: nat,
                  ghost items: seq<Placed>, ghost acc: seq<Item>, ghost base: seq<Cell>, ghost lo0: seq<nat>)
    returns (step: Step<Parsed>, ghost items': seq<Placed>, ghost acc': seq<Item>, ghost j': nat)
    requires At(tk, ts, j) && Filling(g, ts, i, j, span, items, acc, base, lo0)
    modifies tk, g
    ensures step.Going? ==> j < j' && At(tk, ts, j') && Filling(g, ts, i, j', span, items', acc', base, lo0)
    ensures step.Stopped? ==> tk.Valid() && g.Valid() && Extends(base, g.cells) && lo0 <= g.lo
    ensures step.Stopped? && SpanFrom(ts, i, [], false).Err? ==> step.result == Err(SpanFrom(ts, i, [], false).error)
    ensures step.Stopped? && SpanFrom(ts, i, [], false).Ok? ==>
      var f := SpanFrom(ts, i, [], false).value;
      step.result == Ok(Parsed(span, f.stop)) && At(tk, ts, f.next) && LiteralsBefore(g.cells, g.lo, f.next) &&
      ItemsOf(items') == f.items && Made(g.cells, g.lo, PSpan(span, items'), |base|, i)
    decreases |ts| - j, 0
  {
    ghost var pos := tk.pos;
    var token := tk.NextToken();
    ScanStep(tk.s, pos, ts, j);
    if token.kind == Literal {
      ghost var q := AppendLiteral(g, span, token.value, ts, i, j, items, acc, base, lo0);
      return Going, items + [q], acc + [Lit(token.value)], j + 1;
    } else if token.kind == LeftBrace {
      var v, q, next := AppendVariant(tk, g, span, ts, i, j, items, acc, base, lo0);
      if v.Err? {
        return Stopped(Err(v.error)), items + [q], acc + [ItemOf(q)], next;
      }
      return Going, items + [q], acc + [ItemOf(q)], next;
    }
    SpanEnds(g, ts, i, j, span, items, acc, base, lo0);
    if g.cells[span].first == Empty {
      return Stopped(Err(EmptySpan)), items, acc, j;
    }
    return Stopped(Ok(Parsed(span, token))), items, acc, j;
  }

  /** parse_span: appends literals and variants to a new span until a token
      that ends it; an empty span is an error. */
  method ParseSpan(tk: Tokenizer, g: Graph, ghost ts: seq<Token>, ghost i: nat)
    returns (r: Result<Parsed>, ghost p: Placed)
    requires At(tk, ts, i) && g.Valid() && |ts| < g.bound && LiteralsBefore(g.cells, g.lo, i)
    modifies tk, g
    ensures tk.Valid() && g.Valid() && Extends(old(g.cells), g.cells) && old(g.lo) <= g.lo
    ensures SpanFrom(ts, i, [], false).Err? ==> r == Err(SpanFrom(ts, i, [], false).error)
    ensures SpanFrom(ts, i, [], false).Ok? ==>
      var f := SpanFrom(ts, i, [], false).value;
      r == Ok(Parsed(p.id, f.stop)) && At(tk, ts, f.next) && LiteralsBefore(g.cells, g.lo, f.next) &&
      p.PSpan? && ItemsOf(p.items) == f.items && Made(g.cells, g.lo, p, old(|g.cells|), i)
    decreases |ts| - i, 1
  {
    SpanBegins(g.cells);
    var span := g.NewSpan(i);
    ghost var j := i;
    ghost var items: seq<Placed> := [];
    ghost var acc: seq<Item> := [];
    while true
      invariant At(tk, ts, j) && Filling(g, ts, i, j, span, items, acc, old(g.cells), old(g.lo))
      decreases |ts| - j
    {
      var step;
      step, items, acc, j := SpanStep(tk, g, span, ts, i, j, items, acc, old(g.cells), old(g.lo));
      if step.Stopped? {
        return step.result, PSpan(span, items);
      }
    }
  }

  /** The loop of parse_variant after parse_span returned: its error, or
      the span added to the alternatives and then the next one read, the
      variant finished or an error for the token that ended the span. */
  lemma AltRead(ts: seq<Token>, i: nat, j: nat, spans: seq<Span>)
    requires i <= j <= |ts| && VariantFrom(ts, i, [], false) == VariantFrom(ts, j, spans, false)
    ensures SpanFrom(ts, j, [], false).Err? ==>
      VariantFrom(ts, i, [], false) == Err(SpanFrom(ts, j, [], false).error)
    ensures SpanFrom(ts, j, [], false).Ok? ==>
      var sp := SpanFrom(ts, j, [], false).value;
      var spans' := spans + [Span(sp.items)];
      VariantFrom(ts, i, [], false) ==
        if sp.stop.kind == Comma then VariantFrom(ts, sp.next, spans', false)
        else if sp.stop.kind == RightBrace then Ok(VariantParse(Var(spans'), sp.next))
        else if sp.stop.kind == End then Err(MissingRightBrace)
        else Err(UnexpectedToken(sp.stop.value))
  {
  }

  /** The state of the loop of parse_variant on the graph: the spans read
      so far, made since the cells were `base`, stand for `spans`. */
  ghost predicate Gathering(g: Graph, ts: seq<Token>, i: nat, j: nat, nodes: seq<nat>, alts: seq<Placed>,
                            spans: seq<Span>, base: seq<Cell>, lo0: seq<nat>)
    reads g
  {
    0 < i <= j <= |ts| && g.Valid() && |ts| < g.bound && Extends(base, g.cells) && lo0 <= g.lo &&
    Collecting(g.cells, |base|, alts) && nodes == IdsOf(alts) && SpansOf(alts) == spans &&
    (forall k :: 0 <= k < |nodes| ==> nodes[k] < |g.lo| && i <= g.lo[nodes[k]]) &&
    LiteralsBefore(g.cells, g.lo, j)
  }

  /** `span, token = parse_span(tokenizer); nodes.append(span)` in
      parse_variant. */
  method AddAlternative(tk: Tokenizer, g: Graph, nodes: seq<nat>, ghost ts: seq<Token>, ghost i: nat, ghost j: nat,
                        ghost alts: seq<Placed>, ghost spans: seq<Span>, ghost base: seq<Cell>, ghost lo0: seq<nat>)
    returns (r: Result<Token>, nodes': seq<nat>, ghost alts': seq<Placed>)
    requires At(tk, ts, j) && Gathering(g, ts, i, j, nodes, alts, spans, base, lo0)
    modifies tk, g
    ensures tk.Valid() && g.Valid() && Extends(base, g.cells) && lo0 <= g.lo
    ensures SpanFrom(ts, j, [], false).Err? ==> r == Err(SpanFrom(ts, j, [], false).error)
    ensures SpanFrom(ts, j, [], false).Ok? ==>
      var sp := SpanFrom(ts, j, [], false).value;
      r == Ok(sp.stop) && At(tk, ts, sp.next) &&
      Gathering(g, ts, i, sp.next, nodes', alts', spans + [Span(sp.items)], base, lo0)
    decreases |ts| - j, 2
  {
    ghost var cs, lo := g.cells, g.lo;
    var s, ps := ParseSpan(tk, g, ts, j);
    alts' := alts + [ps];
    if s.Err? {
      ExtendsTrans(base, cs, g.cells);
      return Err(s.error), nodes, alts';
    }
    ExtendsTrans(base, cs, g.cells);
    AltGrows(cs, |base|, alts, ps, g.cells);
    SpansOfSnoc(alts, ps);
    nodes' := nodes + [s.value.node];
    forall k | 0 <= k < |nodes| ensures g.lo[nodes[k]] == lo[nodes[k]] {
      assert g.lo[..|lo|][nodes[k]] == g.lo[nodes[k]];
    }
    r := Ok(s.value.stop);
  }

  /** `Variant(nodes)` at the right brace that ends parse_variant. */
  method MakeVariant(g: Graph, nodes: seq<nat>, ghost ts: seq<Token>, ghost i: nat, ghost j: nat,
                     ghost alts: seq<Placed>, ghost spans: seq<Span>, ghost base: seq<Cell>, ghost lo0: seq<nat>)
    returns (id: nat)
    requires Gathering(g, ts, i, j, nodes, alts, spans, base, lo0) && alts != []
    modifies g
    ensures g.Valid() && Extends(base, g.cells) && lo0 <= g.lo && LiteralsBefore(g.cells, g.lo, j)
    ensures Made(g.cells, g.lo, PVar(id, alts), |base|, i - 1)
  {
    VariantMade(g.cells, |base|, alts);
    id := g.NewVariant(nodes, i - 1);
  }

  /** One pass of the loop of parse_variant: a span is read and added to
      the alternatives; a comma goes on to the next one, a right brace
      makes the variant node, and anything else is an error. */
  method VariantStep(tk: Tokenizer, g: Graph, nodes: seq<nat>, ghost ts: seq<Token>, ghost i: nat, ghost j: nat,
                     ghost alts: seq<Placed>, ghost spans: seq<Span>, ghost base: seq<Cell>, ghost lo0: seq<nat>)
    returns (step: Step<nat>, nodes': seq<nat>, ghost alts': seq<Placed>, ghost spans': seq<Span>, ghost j': nat)
    requires At(tk, ts, j) && Gathering(g, ts, i, j, nodes, alts, spans, base, lo0)
    requires VariantFrom(ts, i, [], false) == VariantFrom(ts, j, spans, false)
    modifies tk, g
    ensures step.Going? ==> (j < j' && At(tk, ts, j') && Gathering(g, ts, i, j', nodes', alts', spans', base, lo0) &&
      VariantFrom(ts, i, [], false) == VariantFrom(ts, j', spans', false))
    ensures step.Stopped? ==> tk.Valid() && g.Valid() && Extends(base, g.cells) && lo0 <= g.lo
    ensures step.Stopped? && VariantFrom(ts, i, [], false).Err? ==> step.result == Err(VariantFrom(ts, i, [], false).error)
    ensures step.Stopped? && VariantFrom(ts, i, [], false).Ok? ==>
      var f := VariantFrom(ts, i, [], false).value;
      step.result.Ok? && At(tk, ts, f.next) && LiteralsBefore(g.cells, g.lo, f.next) &&
      ItemOf(PVar(step.result.value, alts')) == f.item &&
      Made(g.cells, g.lo, PVar(step.result.value, alts'), |base|, i - 1)
    decreases |ts| - j, 4
  {
    AltRead(ts, i, j, spans);
    var s;
    s, nodes', alts' := AddAlternative(tk, g, nodes, ts, i, j, alts, spans, base, lo0);
    if s.Err? {
      return Stopped(Err(s.error)), nodes', alts', spans, j;
    }
    var token := s.value;
    ghost var sp := SpanFrom(ts, j, [], false).value;
    spans', j' := spans + [Span(sp.items)], sp.next;
    if token.kind == Comma {
      return Going, nodes', alts', spans', j';
    }
    if token.kind != RightBrace {
      if token.kind == End {
        return Stopped(Err(MissingRightBrace)), nodes', alts', spans', j';
      }
      return Stopped(Err(UnexpectedToken(token.value))), nodes', alts', spans', j';
    }
    var id := MakeVariant(g, nodes', ts, i, j', alts', spans', base, lo0);
    return Stopped(Ok(id)), nodes', alts', spans', j';
  }

  /** parse_variant: collects spans separated by commas up to the closing
      brace; running out of input or meeting another token is an error. */
  method ParseVariant(tk: Tokenizer, g: Graph, ghost ts: seq<Token>, ghost i: nat)
    returns (r: Result<nat>, ghost q: Placed)
    requires At(tk, ts, i) && 0 < i && g.Valid() && |ts| < g.bound && LiteralsBefore(g.cells, g.lo, i)
    modifies tk, g
    ensures tk.Valid() && g.Valid() && Extends(old(g.cells), g.cells) && old(g.lo) <= g.lo
    ensures VariantFrom(ts, i, [], false).Err? ==> r == Err(VariantFrom(ts, i, [], false).error)
    ensures VariantFrom(ts, i, [], false).Ok? ==>
      var f := VariantFrom(ts, i, [], false).value;
      r == Ok(q.id) && At(tk, ts, f.next) && LiteralsBefore(g.cells, g.lo, f.next) &&
      q.PVar? && ItemOf(q) == f.item && Made(g.cells, g.lo, q, old(|g.cells|), i - 1)
    decreases |ts| - i, 5
  {
    var nodes: seq<nat> := [];
    ghost var alts: seq<Placed> := [];
    ghost var spans: seq<Span> := [];
    ghost var j := i;
    while true
      invariant At(tk, ts, j) && Gathering(g, ts, i, j, nodes, alts, spans, old(g.cells), old(g.lo))
      invariant VariantFrom(ts, i, [], false) == VariantFrom(ts, j, spans, false)
      decreases |ts| - j
    {
      var step;
      step, nodes, alts, spans, j := VariantStep(tk, g, nodes, ts, i, j, alts, spans, old(g.cells), old(g.lo));
      if step.Stopped? {
        r := step.result;
        return r, PVar(if r.Ok? then r.value else 0, alts);
      }
    }
  }

  /** parse: the root span of the stripped text, which must end at End.
      On success the graph `g` holds the nodes, and expanding the root
      yields the denotation of the tree `Grammar.Parse` reads. */
  method Parse(s: string) returns (r: Result<nat>, g: Graph)
    ensures Grammar.Parse(s).Err? ==> r == Err(Grammar.Parse(s).error)
    ensures Grammar.Parse(s).Ok? ==>
      r.Ok? && g.Valid() && g.Live(Node(r.value)) &&
      g.Strings(Node(r.value), "") == DenoteSpan(Grammar.Parse(s).value)
  {
    var tk := new Tokenizer(s);
    ghost var ts := Tokenize(tk.s);
    assert tk.s[tk.pos..] == tk.s;
    g := new Graph(|ts| + 1);
    var sp, p := ParseSpan(tk, g, ts, 0);
    if sp.Err? {
      return Err(sp.error), g;
    }
    if sp.value.stop.kind != End {
      return Err(TrailingToken(sp.value.stop.value)), g;
    }
    g.RootStrings(p, ItemsOf(p.items));
    return Ok(sp.value.node), g;
  }

  /** process_expression: the empty string expands to one empty string;
      any other input is parsed and its root expanded. */
  method ProcessExpression(s: string) returns (r: Result<seq<string>>)
    ensures r == Expand(s)
  {
    if s == "" {
      return Ok([""]);
    }
    var root, g := Parse(s);
    if root.Err? {
      return Err(root.error);
    }
    return Ok(g.Strings(Node(root.value), ""));
  }
}
