/** parse_span, parse_variant, parse and process_expression of __main__.py,
    as methods that drive the tokenizer and build the node graph of
    `MainNodes`. Each is proved to do what the function of the same loop in
    `Lenient` computes, messages included, and to leave behind nodes that
    represent the tree it read; process_expression then outputs what that
    tree denotes. */
module MainParser {
  import opened Lexing
  import opened Syntax
  import opened Grammar
  import opened Lenient
  import opened Placement
  import opened MainNodes
  import Parser
  import Language
  import LenientFacts

  /** A loop of parse_span that has already printed `ns`. */
  function NotedSpan(ns: seq<ParseError>, r: LooseSpan): LooseSpan {
    LooseSpan(r.items, r.stop, r.next, ns + r.notes)
  }

  /** A loop of parse_variant that has already printed `ns`. */
  function NotedVariant(ns: seq<ParseError>, r: LooseVariant): LooseVariant {
    LooseVariant(r.item, r.next, ns + r.notes)
  }

  // ---------------------------------------------------------------------------
  // Where the nodes lie. Each node is stamped with the token it was made
  // for: a literal with its token, a variant with its left brace and a span
  // with the first token it read. Successors then always point to nodes
  // made for later tokens, which is what keeps the output recursion finite.

  /** Every end of `p` was made for a token before the `j`-th, unless all
      `n` tokens have been read. */
  ghost predicate EndsBefore(lo: seq<nat>, p: Placed, j: nat, n: nat) {
    forall t :: t in Ends(p) ==> t < |lo| && (lo[t] < j || j == n)
  }

  /** The finished span or variant `p`, made for the token at `i`, fills
      the cells from `base` to the end of `cs`; reading went on at token `j`. */
  ghost predicate Finished(cs: seq<Cell>, lo: seq<nat>, p: Placed, base: nat, i: nat, j: nat, n: nat) {
    Laid(p, false) && Start(p, false) == base && Placement.End(p, false) == |cs| && |lo| == |cs| && p.id < |cs| &&
    lo[p.id] == i && EndsBefore(lo, p, j, n)
  }

  /** A finished node that is waiting for its successor. */
  ghost predicate InPlace(cs: seq<Cell>, q: Placed) {
    Laid(q, false) && Shape(cs, q) && Placement.End(q, false) <= |cs|
  }

  /** The items collected by parse_span since the cells numbered `base`,
      after `j` tokens. */
  ghost predicate Holding(cs: seq<Cell>, lo: seq<nat>, n: nat, i: nat, j: nat, items: seq<Placed>, base: nat) {
    |lo| == |cs| && Fills(items, base, |cs|, false) &&
    (forall m :: 0 <= m < |items| ==> !items[m].PSpan? && InPlace(cs, items[m])) &&
    (items != [] ==> i <= lo[items[0].id] && EndsBefore(lo, Last(items), j, n)) &&
    EndsPrecede(lo, items)
  }

  /** The alternatives collected by parse_variant since the cells numbered
      `base`, after `j` tokens. */
  ghost predicate Gathered(cs: seq<Cell>, lo: seq<nat>, n: nat, i: nat, j: nat, alts: seq<Placed>, base: nat) {
    |lo| == |cs| && Fills(alts, base, |cs|, false) &&
    forall m :: 0 <= m < |alts| ==>
      alts[m].PSpan? && InPlace(cs, alts[m]) && i <= lo[alts[m].id] && EndsBefore(lo, alts[m], j, n)
  }

  /** The cells `cs'` keep the cells `cs` as they were. */
  lemma KeptInPlace(cs: seq<Cell>, cs': seq<Cell>, q: Placed)
    requires InPlace(cs, q) && cs <= cs'
    ensures InPlace(cs', q)
  {
    forall c | Start(q, false) <= c < Placement.End(q, false) ensures cs'[c] == cs[c] {
      Bounds(q, false);
      assert cs'[..|cs|][c] == cs'[c];
    }
    ShapeFrame(cs, cs', q);
  }

  lemma FillsSnoc(ps: seq<Placed>, q: Placed, base: nat, mid: nat, to: nat)
    requires Fills(ps, base, mid, false) && Start(q, false) == mid && Placement.End(q, false) == to
    ensures Fills(ps + [q], base, to, false)
  {
    var ps' := ps + [q];
    forall j | 0 <= j < |ps'| - 1 ensures Placement.End(ps'[j], false) == Start(ps'[j + 1], false) {
      if j + 1 < |ps| {
        assert ps'[j] == ps[j] && ps'[j + 1] == ps[j + 1];
      }
    }
  }

  /** parse_span appends the finished item `q`, made for the token at `j`. */
  lemma HoldingGrows(cs: seq<Cell>, lo: seq<nat>, cs': seq<Cell>, lo': seq<nat>, n: nat, i: nat, j: nat, j': nat,
                     items: seq<Placed>, base: nat, q: Placed)
    requires Holding(cs, lo, n, i, j, items, base) && cs <= cs' && lo <= lo' && i <= j < n
    requires !q.PSpan? && Shape(cs', q) && Finished(cs', lo', q, |cs|, j, j', n)
    ensures Holding(cs', lo', n, i, j', items + [q], base)
  {
    var items' := items + [q];
    FillsSnoc(items, q, base, |cs|, |cs'|);
    forall m | 0 <= m < |items'| ensures !items'[m].PSpan? && InPlace(cs', items'[m]) {
      if m < |items| {
        assert items'[m] == items[m];
        KeptInPlace(cs, cs', items[m]);
      }
    }
    if items != [] {
      assert items'[0] == items[0];
      assert lo'[items[0].id] == lo'[..|lo|][items[0].id];
    }
    forall m, t | 0 <= m < |items'| - 1 && t in Ends(items'[m])
      ensures t < |lo'| && items'[m + 1].id < |lo'| && lo'[t] < lo'[items'[m + 1].id]
    {
      if m + 1 < |items| {
        assert items'[m] == items[m] && items'[m + 1] == items[m + 1];
        assert lo'[t] == lo'[..|lo|][t] && lo'[items[m + 1].id] == lo'[..|lo|][items[m + 1].id];
      } else {
        assert items'[m] == Last(items) && items'[m + 1] == q;
        assert lo'[t] == lo'[..|lo|][t];
      }
    }
  }

  /** parse_variant appends the finished span `q`, made for the token at `j`. */
  lemma GatheredGrows(cs: seq<Cell>, lo: seq<nat>, cs': seq<Cell>, lo': seq<nat>, n: nat, i: nat, j: nat, j': nat,
                      alts: seq<Placed>, base: nat, q: Placed)
    requires Gathered(cs, lo, n, i, j, alts, base) && cs <= cs' && lo <= lo' && i <= j <= j' <= n
    requires q.PSpan? && Shape(cs', q) && Finished(cs', lo', q, |cs|, j, j', n)
    ensures Gathered(cs', lo', n, i, j', alts + [q], base)
  {
    var alts' := alts + [q];
    FillsSnoc(alts, q, base, |cs|, |cs'|);
    forall m | 0 <= m < |alts'|
      ensures alts'[m].PSpan? && InPlace(cs', alts'[m]) && i <= lo'[alts'[m].id] && EndsBefore(lo', alts'[m], j', n)
    {
      if m < |alts| {
        assert alts'[m] == alts[m];
        KeptInPlace(cs, cs', alts[m]);
        assert lo'[alts[m].id] == lo'[..|lo|][alts[m].id];
        forall t | t in Ends(alts[m]) ensures t < |lo'| && (lo'[t] < j' || j' == n) {
          assert lo'[t] == lo'[..|lo|][t];
        }
      }
    }
  }

  // ---------------------------------------------------------------------------
  // parse_span

  /** The state of the loop of parse_span: `nodes` stand for `items`, which
      stand for `acc`, and the loop reading on from token `j` ends as it does
      from token `i`, once `notes` are added in front of its messages. */
  ghost predicate SpanLoop(g: Graph, ts: seq<Token>, i: nat, j: nat, nodes: seq<nat>, items: seq<Placed>,
                           acc: seq<Item>, notes: seq<ParseError>, base: seq<Cell>, lo0: seq<nat>)
    reads g
  {
    SpanState(g.cells, g.lo, g.bound, ts, i, j, nodes, items, acc, notes, base, lo0)
  }

  /** That state, over the cells `cs` stamped `lo`. */
  ghost predicate SpanState(cs: seq<Cell>, lo: seq<nat>, bound: nat, ts: seq<Token>, i: nat, j: nat,
                            nodes: seq<nat>, items: seq<Placed>, acc: seq<Item>, notes: seq<ParseError>,
                            base: seq<Cell>, lo0: seq<nat>)
  {
    i <= j <= |ts| && Ordered(cs, lo, bound) && |ts| < bound && base <= cs && lo0 <= lo && |lo0| == |base| &&
    nodes == IdsOf(items) && ItemsOf(items) == acc && Holding(cs, lo, |ts|, i, j, items, |base|) &&
    LooseSpanFrom(ts, i, []) == NotedSpan(notes, LooseSpanFrom(ts, j, acc))
  }

  /** `nodes.append(Literal(token.value))` in parse_span. */
  method AppendLiteral(g: Graph, nodes: seq<nat>, value: string, ghost ts: seq<Token>, ghost i: nat, ghost j: nat,
                       ghost items: seq<Placed>, ghost acc: seq<Item>, ghost notes: seq<ParseError>,
                       ghost base: seq<Cell>, ghost lo0: seq<nat>)
    returns (nodes': seq<nat>, ghost q: Placed)
    requires SpanLoop(g, ts, i, j, nodes, items, acc, notes, base, lo0) && TokenAt(ts, j) == Token(Literal, value)
    modifies g
    ensures j < |ts| && SpanLoop(g, ts, i, j + 1, nodes', items + [q], acc + [Lit(value)], notes, base, lo0)
  {
    ghost var cs, lo := g.cells, g.lo;
    var id := g.NewLiteral(value, j);
    q := PLit(id, value);
    nodes' := nodes + [id];
    HoldingGrows(cs, lo, g.cells, g.lo, |ts|, i, j, j + 1, items, |base|, q);
    ItemsOfSnoc(items, q);
  }

  /** `nodes.append(parse_variant(tokenizer))` in parse_span, after the left
      brace at token `j`. */
  method AppendVariant(tk: Tokenizer, g: Graph, nodes: seq<nat>, ghost ts: seq<Token>, ghost i: nat, ghost j: nat,
                       ghost items: seq<Placed>, ghost acc: seq<Item>, notes: seq<ParseError>,
                       ghost base: seq<Cell>, ghost lo0: seq<nat>)
    returns (nodes': seq<nat>, notes': seq<ParseError>, ghost q: Placed, ghost next: nat)
    requires Parser.At(tk, ts, j + 1) && TokenAt(ts, j).kind == LeftBrace
    requires SpanLoop(g, ts, i, j, nodes, items, acc, notes, base, lo0)
    modifies tk, g
    ensures j < next && Parser.At(tk, ts, next)
    ensures SpanLoop(g, ts, i, next, nodes', items + [q], acc + [ItemOf(q)], notes', base, lo0)
    decreases |ts| - (j + 1), 5
  {
    ghost var cs, lo := g.cells, g.lo;
    var id, found;
    id, found, q := ParseVariant(tk, g, ts, j + 1);
    next := LooseVariantFrom(ts, j + 1, []).next;
    nodes' := nodes + [id];
    notes' := notes + found;
    VariantAppended(cs, lo, g.cells, g.lo, g.bound, ts, i, j, nodes, items, acc, notes, base, lo0, q, found);
  }

  /** What parse_span holds after appending the variant `q` read from
      the left brace at token `j`. */
  lemma VariantAppended(cs: seq<Cell>, lo: seq<nat>, cs': seq<Cell>, lo': seq<nat>, bound: nat, ts: seq<Token>,
                        i: nat, j: nat, nodes: seq<nat>, items: seq<Placed>, acc: seq<Item>, notes: seq<ParseError>,
                        base: seq<Cell>, lo0: seq<nat>, q: Placed, found: seq<ParseError>)
    requires SpanState(cs, lo, bound, ts, i, j, nodes, items, acc, notes, base, lo0) && TokenAt(ts, j).kind == LeftBrace
    requires Ordered(cs', lo', bound) && cs <= cs' && lo <= lo'
    requires
      var v := LooseVariantFrom(ts, j + 1, []);
      found == v.notes && q.PVar? && ItemOf(q) == v.item && Shape(cs', q) && Finished(cs', lo', q, |cs|, j, v.next, |ts|)
    ensures
      var v := LooseVariantFrom(ts, j + 1, []);
      j < v.next &&
      SpanState(cs', lo', bound, ts, i, v.next, nodes + [q.id], items + [q], acc + [ItemOf(q)], notes + found, base, lo0)
  {
    var v := LooseVariantFrom(ts, j + 1, []);
    assert j < |ts|;
    HoldingGrows(cs, lo, cs', lo', |ts|, i, j, v.next, items, |base|, q);
    ItemsOfSnoc(items, q);
    LooseBraceRead(ts, i, j, acc, notes);
  }

  /** The loop of parse_span after a left brace at token `j`: the variant's
      messages come before the rest of the span's. */
  lemma LooseBraceRead(ts: seq<Token>, i: nat, j: nat, acc: seq<Item>, notes: seq<ParseError>)
    requires i <= j < |ts| && TokenAt(ts, j).kind == LeftBrace
    requires LooseSpanFrom(ts, i, []) == NotedSpan(notes, LooseSpanFrom(ts, j, acc))
    ensures
      var v := LooseVariantFrom(ts, j + 1, []);
      LooseSpanFrom(ts, i, []) == NotedSpan(notes + v.notes, LooseSpanFrom(ts, v.next, acc + [v.item]))
  {
    var v := LooseVariantFrom(ts, j + 1, []);
    var rest := LooseSpanFrom(ts, v.next, acc + [v.item]);
    assert notes + (v.notes + rest.notes) == notes + v.notes + rest.notes;
  }

  /** One pass of the loop of parse_span: the next token is read and its
      node appended, or it ends the span. */
  method SpanStep(tk: Tokenizer, g: Graph, nodes: seq<nat>, ghost ts: seq<Token>, ghost i: nat, ghost j: nat,
                  ghost items: seq<Placed>, ghost acc: seq<Item>, notes: seq<ParseError>,
                  ghost base: seq<Cell>, ghost lo0: seq<nat>)
    returns (done: bool, token: Token, nodes': seq<nat>, notes': seq<ParseError>,
             ghost items': seq<Placed>, ghost acc': seq<Item>, ghost j': nat)
    requires Parser.At(tk, ts, j) && SpanLoop(g, ts, i, j, nodes, items, acc, notes, base, lo0)
    modifies tk, g
    ensures SpanLoop(g, ts, i, j', nodes', items', acc', notes', base, lo0)
    ensures !done ==> j < j' && Parser.At(tk, ts, j')
    ensures done ==>
      var f := LooseSpanFrom(ts, i, []);
      Parser.At(tk, ts, f.next) && f.next == Advance(ts, j') && token == f.stop && notes' == f.notes && acc' == f.items
    decreases |ts| - j, 1
  {
    ghost var pos := tk.pos;
    token := tk.NextToken();
    Parser.ScanStep(tk.s, pos, ts, j);
    if token.kind == Literal {
      ghost var q;
      nodes', q := AppendLiteral(g, nodes, token.value, ts, i, j, items, acc, notes, base, lo0);
      return false, token, nodes', notes, items + [q], acc + [Lit(token.value)], j + 1;
    } else if token.kind == LeftBrace {
      ghost var q, next;
      nodes', notes', q, next := AppendVariant(tk, g, nodes, ts, i, j, items, acc, notes, base, lo0);
      return false, token, nodes', notes', items + [q], acc + [ItemOf(q)], next;
    }
    assert notes + [] == notes;
    return true, token, nodes, notes, items, acc, j;
  }

  /** `Span(nodes)` at the token that ends parse_span. */
  method FinishSpan(g: Graph, nodes: seq<nat>, ghost ts: seq<Token>, ghost i: nat, ghost j: nat,
                    ghost items: seq<Placed>, ghost acc: seq<Item>, ghost notes: seq<ParseError>,
                    ghost base: seq<Cell>, ghost lo0: seq<nat>)
    returns (span: nat, ghost p: Placed)
    requires SpanLoop(g, ts, i, j, nodes, items, acc, notes, base, lo0)
    requires LooseSpanFrom(ts, i, []).next == Advance(ts, j) && LooseSpanFrom(ts, i, []).items == acc
    modifies g
    ensures g.Valid() && base <= g.cells && lo0 <= g.lo
    ensures
      var f := LooseSpanFrom(ts, i, []);
      p.PSpan? && span == p.id && ItemsOf(p.items) == f.items &&
      Rep(g.cells, p, if p.items == [] then Unset else NoNode) &&
      Finished(g.cells, g.lo, p, |base|, i, f.next, |ts|)
  {
    ghost var cs, lo := g.cells, g.lo;
    forall m | 0 <= m < |items| ensures Path(cs, items[m]) {
      ShapePath(cs, items[m]);
    }
    span := g.NewSpan(nodes, i, items);
    p := PSpan(span, items);
    SpanMade(cs, lo, |ts|, i, j, Advance(ts, j), items, |base|, nodes);
    assert base == cs[..|base|] == g.cells[..|base|];
  }

  /** The span made at the end of parse_span over the `items` it holds
      represents them, and leaves the cells before `base` as they were. */
  lemma SpanMade(cs: seq<Cell>, lo: seq<nat>, n: nat, i: nat, j: nat, k: nat, items: seq<Placed>, base: nat,
                 nodes: seq<nat>)
    requires Holding(cs, lo, n, i, j, items, base) && nodes == IdsOf(items)
    requires i <= j <= n && k == (if j < n then j + 1 else n) && base <= |cs|
    ensures
      var cs' := Linked(cs + [SpanNode(nodes, Unset)], items, |items|);
      var p := PSpan(|cs|, items);
      |cs'| == |cs| + 1 && cs'[..base] == cs[..base] &&
      Rep(cs', p, if items == [] then Unset else NoNode) && Finished(cs', lo + [i], p, base, i, k, n)
  {
    var cs1 := cs + [SpanNode(nodes, Unset)];
    var cs' := Linked(cs1, items, |items|);
    var p := PSpan(|cs|, items);
    var lo' := lo + [i];
    assert cs <= cs1;
    forall m | 0 <= m < |items| ensures !items[m].PSpan? && Shape(cs1, items[m]) {
      KeptInPlace(cs, cs1, items[m]);
    }
    assert Laid(p, false);
    SpanLinked(cs1, p);
    assert Start(p, false) == base;
    forall c | 0 <= c < base ensures cs'[c] == cs[c] {
      assert cs1[c] == cs[c];
    }
    forall t | t in Ends(p) ensures t < |lo'| && (lo'[t] < k || k == n) {
      if items != [] {
        assert lo'[t] == lo[t];
      }
    }
  }

  /** parse_span: appends literals and variants until a token that ends
      the span, then makes the span, which links each item to the next. */
  method ParseSpan(tk: Tokenizer, g: Graph, ghost ts: seq<Token>, ghost i: nat)
    returns (span: nat, token: Token, notes: seq<ParseError>, ghost p: Placed)
    requires Parser.At(tk, ts, i) && g.Valid() && |ts| < g.bound
    modifies tk, g
    ensures g.Valid() && old(g.cells) <= g.cells && old(g.lo) <= g.lo
    ensures
      var f := LooseSpanFrom(ts, i, []);
      token == f.stop && notes == f.notes && Parser.At(tk, ts, f.next) &&
      p.PSpan? && span == p.id && ItemsOf(p.items) == f.items &&
      Rep(g.cells, p, if p.items == [] then Unset else NoNode) &&
      Finished(g.cells, g.lo, p, old(|g.cells|), i, f.next, |ts|)
    decreases |ts| - i, 2
  {
    var nodes: seq<nat> := [];
    ghost var items: seq<Placed> := [];
    ghost var acc: seq<Item> := [];
    ghost var j := i;
    notes := [];
    assert Fills([], |g.cells|, |g.cells|, false);
    assert NotedSpan([], LooseSpanFrom(ts, i, [])) == LooseSpanFrom(ts, i, []);
    while true
      invariant Parser.At(tk, ts, j) && SpanLoop(g, ts, i, j, nodes, items, acc, notes, old(g.cells), old(g.lo))
      decreases |ts| - j
    {
      var done;
      done, token, nodes, notes, items, acc, j := SpanStep(tk, g, nodes, ts, i, j, items, acc, notes, old(g.cells), old(g.lo));
      if done {
        span, p := FinishSpan(g, nodes, ts, i, j, items, acc, notes, old(g.cells), old(g.lo));
        return;
      }
    }
  }

  // ---------------------------------------------------------------------------
  // parse_variant

  /** The state of the loop of parse_variant: `nodes` stand for `alts`,
      which stand for `spans`, and the loop reading on from token `j` ends
      as it does from token `i`, once `notes` are added in front. */
  ghost predicate VariantLoop(g: Graph, ts: seq<Token>, i: nat, j: nat, nodes: seq<nat>, alts: seq<Placed>,
                              spans: seq<Span>, notes: seq<ParseError>, base: seq<Cell>, lo0: seq<nat>)
    reads g
  {
    VariantHeld(g, ts, i, j, nodes, alts, spans, base, lo0) &&
    LooseVariantFrom(ts, i, []) == NotedVariant(notes, LooseVariantFrom(ts, j, spans))
  }

  /** The graph part of that state. */
  ghost predicate VariantHeld(g: Graph, ts: seq<Token>, i: nat, j: nat, nodes: seq<nat>, alts: seq<Placed>,
                              spans: seq<Span>, base: seq<Cell>, lo0: seq<nat>)
    reads g
  {
    HeldState(g.cells, g.lo, g.bound, ts, i, j, nodes, alts, spans, base, lo0)
  }

  /** The same, over the cells `cs` stamped `lo`. */
  ghost predicate HeldState(cs: seq<Cell>, lo: seq<nat>, bound: nat, ts: seq<Token>, i: nat, j: nat,
                            nodes: seq<nat>, alts: seq<Placed>, spans: seq<Span>, base: seq<Cell>, lo0: seq<nat>)
  {
    0 < i <= j <= |ts| && Ordered(cs, lo, bound) && |ts| < bound && base <= cs && lo0 <= lo && |lo0| == |base| &&
    nodes == IdsOf(alts) && SpansOf(alts) == spans && Gathered(cs, lo, |ts|, i, j, alts, |base|)
  }

  /** One pass of the loop of parse_variant: a span is read and added to
      the alternatives; the variant goes on after a comma. */
  method VariantStep(tk: Tokenizer, g: Graph, nodes: seq<nat>, ghost ts: seq<Token>, ghost i: nat, ghost j: nat,
                     ghost alts: seq<Placed>, ghost spans: seq<Span>, notes: seq<ParseError>,
                     ghost base: seq<Cell>, ghost lo0: seq<nat>)
    returns (done: bool, token: Token, nodes': seq<nat>, notes': seq<ParseError>,
             ghost alts': seq<Placed>, ghost spans': seq<Span>, ghost j': nat)
    requires Parser.At(tk, ts, j) && VariantLoop(g, ts, i, j, nodes, alts, spans, notes, base, lo0)
    modifies tk, g
    ensures Parser.At(tk, ts, j') && VariantHeld(g, ts, i, j', nodes', alts', spans', base, lo0)
    ensures alts' != [] && (done <==> token.kind != Comma)
    ensures !done ==> j < j' && LooseVariantFrom(ts, i, []) == NotedVariant(notes', LooseVariantFrom(ts, j', spans'))
    ensures done ==>
      var f := LooseVariantFrom(ts, i, []);
      f.next == j' && f.item == Var(spans') && f.notes == notes' + VariantNote(token)
    decreases |ts| - j, 3
  {
    ghost var cs, lo := g.cells, g.lo;
    var span, found;
    ghost var p;
    span, token, found, p := ParseSpan(tk, g, ts, j);
    ghost var sp := LooseSpanFrom(ts, j, []);
    nodes', notes' := nodes + [span], notes + found;
    alts', spans', j' := alts + [p], spans + [Span(sp.items)], sp.next;
    done := token.kind != Comma;
    SpanAdded(cs, lo, g.cells, g.lo, g.bound, ts, i, j, nodes, alts, spans, base, lo0, p);
    LooseAltRead(ts, i, j, spans, notes);
  }

  /** What parse_variant holds after adding the span `p` read from token `j`. */
  lemma SpanAdded(cs: seq<Cell>, lo: seq<nat>, cs': seq<Cell>, lo': seq<nat>, bound: nat, ts: seq<Token>,
                  i: nat, j: nat, nodes: seq<nat>, alts: seq<Placed>, spans: seq<Span>,
                  base: seq<Cell>, lo0: seq<nat>, p: Placed)
    requires HeldState(cs, lo, bound, ts, i, j, nodes, alts, spans, base, lo0)
    requires Ordered(cs', lo', bound) && cs <= cs' && lo <= lo'
    requires
      var sp := LooseSpanFrom(ts, j, []);
      p.PSpan? && ItemsOf(p.items) == sp.items && Rep(cs', p, if p.items == [] then Unset else NoNode) &&
      Finished(cs', lo', p, |cs|, j, sp.next, |ts|)
    ensures
      var sp := LooseSpanFrom(ts, j, []);
      HeldState(cs', lo', bound, ts, i, sp.next, nodes + [p.id], alts + [p], spans + [Span(sp.items)], base, lo0)
  {
    var sp := LooseSpanFrom(ts, j, []);
    RepShape(cs', p, if p.items == [] then Unset else NoNode);
    GatheredGrows(cs, lo, cs', lo', |ts|, i, j, sp.next, alts, |base|, p);
    SpansOfSnoc(alts, p);
  }

  /** The loop of parse_variant after parse_span returned at token `j`. */
  lemma LooseAltRead(ts: seq<Token>, i: nat, j: nat, spans: seq<Span>, notes: seq<ParseError>)
    requires i <= j <= |ts| && LooseVariantFrom(ts, i, []) == NotedVariant(notes, LooseVariantFrom(ts, j, spans))
    ensures
      var sp := LooseSpanFrom(ts, j, []);
      var spans', notes' := spans + [Span(sp.items)], notes + sp.notes;
      var f := LooseVariantFrom(ts, i, []);
      if sp.stop.kind == Comma then f == NotedVariant(notes', LooseVariantFrom(ts, sp.next, spans'))
      else f.next == sp.next && f.item == Var(spans') && f.notes == notes' + VariantNote(sp.stop)
  {
    var sp := LooseSpanFrom(ts, j, []);
    var spans', notes' := spans + [Span(sp.items)], notes + sp.notes;
    if sp.stop.kind == Comma {
      var rest := LooseVariantFrom(ts, sp.next, spans');
      assert notes + (sp.notes + rest.notes) == notes' + rest.notes;
    } else {
      assert notes + (sp.notes + VariantNote(sp.stop)) == notes' + VariantNote(sp.stop);
    }
  }

  /** The end of parse_variant, whose left brace was the token before the
      `i`-th: the message for the token that ended the last span, if any,
      then `Variant(nodes)`. */
  method CloseVariant(g: Graph, nodes: seq<nat>, token: Token, notes: seq<ParseError>, ghost ts: seq<Token>,
                      ghost i: nat, ghost j: nat, ghost alts: seq<Placed>, ghost spans: seq<Span>,
                      ghost base: seq<Cell>, ghost lo0: seq<nat>)
    returns (id: nat, notes': seq<ParseError>, ghost q: Placed)
    requires VariantHeld(g, ts, i, j, nodes, alts, spans, base, lo0) && alts != []
    requires
      var f := LooseVariantFrom(ts, i, []);
      f.next == j && f.item == Var(spans) && f.notes == notes + VariantNote(token)
    modifies g
    ensures g.Valid() && base <= g.cells && lo0 <= g.lo
    ensures
      var f := LooseVariantFrom(ts, i, []);
      notes' == f.notes && q.PVar? && id == q.id && ItemOf(q) == f.item &&
      Shape(g.cells, q) && Finished(g.cells, g.lo, q, |base|, i - 1, f.next, |ts|)
  {
    notes' := notes + VariantNote(token);
    ghost var cs, lo := g.cells, g.lo;
    id := g.NewVariant(nodes, i - 1);
    q := PVar(id, alts);
    assert cs <= g.cells;
    forall m | 0 <= m < |alts| ensures Shape(g.cells, alts[m]) {
      KeptInPlace(cs, g.cells, alts[m]);
    }
    assert Laid(q, false);
    forall t | t in Ends(q) ensures t < |g.lo| && (g.lo[t] < j || j == |ts|) {
      InAltEnds(alts, t);
      var m :| 0 <= m < |alts| && t in Ends(alts[m]);
      assert g.lo[t] == lo[t];
    }
  }

  /** parse_variant: collects spans separated by commas; a span that ends
      on anything but a right brace gets a message, and the variant is made
      all the same. */
  method ParseVariant(tk: Tokenizer, g: Graph, ghost ts: seq<Token>, ghost i: nat)
    returns (id: nat, notes: seq<ParseError>, ghost q: Placed)
    requires Parser.At(tk, ts, i) && 0 < i && g.Valid() && |ts| < g.bound
    modifies tk, g
    ensures g.Valid() && old(g.cells) <= g.cells && old(g.lo) <= g.lo
    ensures
      var f := LooseVariantFrom(ts, i, []);
      notes == f.notes && Parser.At(tk, ts, f.next) && q.PVar? && id == q.id && ItemOf(q) == f.item &&
      Shape(g.cells, q) && Finished(g.cells, g.lo, q, old(|g.cells|), i - 1, f.next, |ts|)
    decreases |ts| - i, 4
  {
    var nodes: seq<nat> := [];
    ghost var alts: seq<Placed> := [];
    ghost var spans: seq<Span> := [];
    ghost var j := i;
    notes := [];
    assert Fills([], |g.cells|, |g.cells|, false);
    assert NotedVariant([], LooseVariantFrom(ts, i, [])) == LooseVariantFrom(ts, i, []);
    while true
      invariant Parser.At(tk, ts, j) && VariantLoop(g, ts, i, j, nodes, alts, spans, notes, old(g.cells), old(g.lo))
      decreases |ts| - j
    {
      var done, token;
      done, token, nodes, notes, alts, spans, j := VariantStep(tk, g, nodes, ts, i, j, alts, spans, notes, old(g.cells), old(g.lo));
      if done {
        id, notes, q := CloseVariant(g, nodes, token, notes, ts, i, j, alts, spans, old(g.cells), old(g.lo));
        return;
      }
    }
  }

  // ---------------------------------------------------------------------------
  // parse and process_expression

  /** What output_node gives for the root span of the tree `xs`: its
      denotation, or, for an empty root, a stop with an error, since the
      successor of that span is never assigned. */
  function Shown(xs: seq<Item>): Emitted {
    if xs == [] then Emitted([], true) else Emitted(DenoteSpan(xs), false)
  }

  /** What process_expression of __main__.py passes to `output_func` for the
      line `s`, and the messages that parse prints. */
  function Outcome(s: string): (Emitted, seq<ParseError>) {
    var (xs, notes) := LooseParse(s);
    (Shown(xs), notes)
  }

  /** parse: the root span of the stripped text; a token left over gets a
      message. The root node is returned whatever was printed. */
  method Parse(s: string) returns (root: nat, notes: seq<ParseError>, g: Graph)
    ensures notes == LooseParse(s).1
    ensures g.Valid() && g.Live(To(root)) && g.Output(To(root), "") == Shown(LooseParse(s).0)
  {
    var tk := new Tokenizer(s);
    ghost var ts := Tokenize(tk.s);
    assert tk.s[tk.pos..] == tk.s;
    g := new Graph(|ts| + 1);
    var token;
    ghost var p;
    root, token, notes, p := ParseSpan(tk, g, ts, 0);
    if token.kind != End {
      notes := notes + [TrailingToken(token.value)];
    }
    g.RootOutput(p, ItemsOf(p.items));
  }

  /** process_expression: output_node on the root with an empty prefix. */
  method ProcessExpression(s: string) returns (out: Emitted, notes: seq<ParseError>)
    ensures (out, notes) == Outcome(s)
  {
    var root, g;
    root, notes, g := Parse(s);
    out := g.Output(To(root), "");
  }

  // ---------------------------------------------------------------------------
  // The two parsers compared.

  /** On any non-empty line that myparser.py expands, __main__.py prints no
      message and outputs the same strings in the same order. */
  lemma StrictAgrees(s: string)
    ensures s != "" && Expand(s).Ok? ==> Outcome(s) == (Emitted(Expand(s).value, false), [])
  {
    if s != "" && Expand(s).Ok? {
      var xs := Grammar.Parse(s).value;
      Language.ParseTextExact(Strip(s), false, xs);
      LenientFacts.StrictIsLoose(Strip(s));
    }
  }
}
