/** How the node graph grows while myparser.py parses: a parse only adds
    cells, and appending an item to a span keeps the span a representation
    of its placed tree. */
module Building {
  import opened Placement
  import opened Nodes
  import opened Syntax

  /** `cs2` holds the cells of `cs` unchanged and possibly more. */
  predicate Extends(cs: seq<Cell>, cs2: seq<Cell>) {
    |cs| <= |cs2| && cs2[..|cs|] == cs
  }

  lemma ExtendsTrans(a: seq<Cell>, b: seq<Cell>, c: seq<Cell>)
    requires Extends(a, b) && Extends(b, c)
    ensures Extends(a, c)
  {
    assert c[..|a|] == c[..|b|][..|a|];
  }

  /** Adding cells keeps a tree laid out below the old length. */
  lemma RepExtends(cs: seq<Cell>, cs2: seq<Cell>, p: Placed, k: Ref)
    requires Rep(cs, p, k) && Laid(p, true) && End(p, true) <= |cs| && Extends(cs, cs2)
    ensures Rep(cs2, p, k)
  {
    forall c | Start(p, true) <= c < End(p, true) ensures cs2[c] == cs[c] {
      assert cs2[..|cs|][c] == cs2[c];
    }
    RepFrame(cs, cs2, p, k);
  }

  /** The cells after `Span.append(q)` on the span `span` holding `items`. */
  ghost function Appended(cs2: seq<Cell>, span: nat, items: seq<Placed>, q: Placed): seq<Cell>
    requires span < |cs2| && cs2[span].SpanCell?
  {
    if items == [] then cs2[span := SpanCell(Node(q.id), Node(q.id))]
    else Retarget(cs2, Tails(Last(items)), Node(q.id))[span := SpanCell(cs2[span].first, Node(q.id))]
  }

  /** A span whose items lie in the block after it. */
  ghost predicate Growing(cs: seq<Cell>, span: nat, items: seq<Placed>) {
    var p := PSpan(span, items);
    Rep(cs, p, Empty) && Laid(p, true) && End(p, true) == |cs| &&
    forall j :: 0 <= j < |items| ==> Closed(items[j])
  }

  /** Appending a node laid out after the span's block. */
  lemma SpanGrows(cs: seq<Cell>, span: nat, items: seq<Placed>, q: Placed, cs2: seq<Cell>)
    requires Growing(cs, span, items) && Extends(cs, cs2)
    requires !q.PSpan? && Closed(q) && Rep(cs2, q, Empty) && Laid(q, true)
    requires Start(q, true) == |cs| && End(q, true) == |cs2|
    ensures cs2[span].SpanCell? && Growing(Appended(cs2, span, items, q), span, items + [q])
    ensures Appended(cs2, span, items, q)[..span] == cs2[..span]
  {
    var p, p' := PSpan(span, items), PSpan(span, items + [q]);
    Bounds(p, true);
    assert cs2[span] == cs2[..|cs|][span];
    if items != [] {
      ItemBlock(span, items, |items| - 1);
      TailsWithin(Last(items), true);
    }
    assert Appended(cs2, span, items, q)[..span] == cs2[..span];
    GrowLaid(span, items, q);
    var cs3 := Appended(cs2, span, items, q);
    var items' := items + [q];
    forall j | 0 <= j < |items'| ensures !items'[j].PSpan? && Rep(cs3, items'[j], After(items', j, Empty)) {
      GrowItem(cs, span, items, q, cs2, j);
    }
    assert forall j :: 0 <= j < |items'| ==> Closed(items'[j]);
  }

  lemma GrowItem(cs: seq<Cell>, span: nat, items: seq<Placed>, q: Placed, cs2: seq<Cell>, j: nat)
    requires Growing(cs, span, items) && Extends(cs, cs2)
    requires !q.PSpan? && Rep(cs2, q, Empty) && Laid(q, true)
    requires Start(q, true) == |cs| && End(q, true) == |cs2| && j <= |items|
    ensures cs2[span].SpanCell?
    ensures !(items + [q])[j].PSpan?
    ensures Rep(Appended(cs2, span, items, q), (items + [q])[j], After(items + [q], j, Empty))
  {
    assert cs2[span] == cs2[..|cs|][span];
    if j == |items| {
      GrowNew(cs, span, items, q, cs2);
    } else if j + 1 == |items| {
      GrowLast(cs, span, items, q, cs2);
    } else {
      GrowEarly(cs, span, items, q, cs2, j);
    }
  }

  lemma GrowLaid(span: nat, items: seq<Placed>, q: Placed)
    requires Laid(PSpan(span, items), true) && Laid(q, true)
    requires Start(q, true) == End(PSpan(span, items), true)
    ensures Laid(PSpan(span, items + [q]), true)
    ensures End(PSpan(span, items + [q]), true) == End(q, true)
  {
    var items' := items + [q];
    assert Last(items') == q;
    assert forall j :: 0 <= j < |items| ==> items'[j] == items[j];
    assert Chained(items', true);
  }

  /** The new item keeps what it had: its block lies past the old cells. */
  lemma GrowNew(cs: seq<Cell>, span: nat, items: seq<Placed>, q: Placed, cs2: seq<Cell>)
    requires Growing(cs, span, items) && Extends(cs, cs2)
    requires Rep(cs2, q, Empty) && Laid(q, true)
    requires Start(q, true) == |cs| && End(q, true) == |cs2|
    ensures cs2[span].SpanCell? && Rep(Appended(cs2, span, items, q), q, Empty)
  {
    var p := PSpan(span, items);
    Bounds(p, true);
    assert cs2[span] == cs2[..|cs|][span];
    var cs3 := Appended(cs2, span, items, q);
    if items != [] {
      assert Children(p)[|items| - 1] == Last(items);
      TailsWithin(Last(items), true);
    }
    RepFrame(cs2, cs3, q, Empty);
  }

  /** The old last item now leads to the new one. */
  lemma GrowLast(cs: seq<Cell>, span: nat, items: seq<Placed>, q: Placed, cs2: seq<Cell>)
    requires Growing(cs, span, items) && Extends(cs, cs2) && items != []
    ensures cs2[span].SpanCell?
    ensures Rep(Appended(cs2, span, items, q), Last(items), Node(q.id))
  {
    var p, n := PSpan(span, items), |items| - 1;
    Bounds(p, true);
    assert cs2[span] == cs2[..|cs|][span];
    assert Children(p)[n] == Last(items);
    var prev := Last(items);
    assert Rep(cs, prev, Empty);
    RepExtends(cs, cs2, prev, Empty);
    RepRetarget(cs2, prev, Empty, Node(q.id), Tails(prev));
    var cs4 := Retarget(cs2, Tails(prev), Node(q.id));
    RepFrame(cs4, Appended(cs2, span, items, q), prev, Node(q.id));
  }

  /** Where the block of one item of a span lies. */
  lemma ItemBlock(span: nat, items: seq<Placed>, j: nat)
    requires Laid(PSpan(span, items), true) && j < |items|
    ensures span < Start(items[j], true) < End(items[j], true) <= End(PSpan(span, items), true)
    ensures j + 1 < |items| ==> End(items[j], true) <= Start(Last(items), true)
  {
    var p := PSpan(span, items);
    Bounds(p, true);
    Bounds(items[j], true);
    assert Children(p) == items;
    assert Start(items[0], true) == span + 1;
    assert Start(items[0], true) <= Start(items[j], true);
    if j + 1 < |items| {
      assert End(items[j], true) <= Start(items[|items| - 1], true);
    }
  }

  /** The other items are not touched. */
  lemma GrowEarly(cs: seq<Cell>, span: nat, items: seq<Placed>, q: Placed, cs2: seq<Cell>, j: nat)
    requires Growing(cs, span, items) && Extends(cs, cs2) && j + 1 < |items|
    ensures cs2[span].SpanCell?
    ensures Rep(Appended(cs2, span, items, q), items[j], Node(items[j + 1].id))
  {
    var p, n := PSpan(span, items), |items| - 1;
    assert cs2[span] == cs2[..|cs|][span];
    ItemBlock(span, items, j);
    TailsWithin(Last(items), true);
    assert Rep(cs, items[j], Node(items[j + 1].id));
    var cs3 := Appended(cs2, span, items, q);
    forall c | Start(items[j], true) <= c < End(items[j], true) ensures cs3[c] == cs[c] {
      assert cs2[..|cs|][c] == cs2[c];
    }
    RepFrame(cs, cs3, items[j], Node(items[j + 1].id));
  }

  /** A fresh span cell is an empty span in the making. */
  lemma SpanBegins(cs: seq<Cell>)
    ensures Growing(cs + [SpanCell(Empty, Empty)], |cs|, [])
  {
    assert Fills([], |cs| + 1, |cs| + 1, true);
  }

  /** What `Span.append(node)` needs of the span: `node` starts no earlier
      than every tail of the current last item. */
  lemma AppendReady(cs: seq<Cell>, lo: seq<nat>, span: nat, items: seq<Placed>,
                    cs2: seq<Cell>, lo2: seq<nat>, node: nat, i: nat)
    requires Growing(cs, span, items) && Extends(cs, cs2)
    requires |lo| == |cs| && |lo2| == |cs2| && lo <= lo2
    requires forall c :: 0 <= c < |cs| && cs[c].LiteralCell? ==> lo[c] < i
    requires node < |lo2| && i <= lo2[node]
    ensures cs2[span] == SpanCell(FirstRef(items), LastRef(items))
    ensures items != [] ==>
      TailShape(cs2, Last(items)) &&
      forall t :: t in Tails(Last(items)) ==> t < |lo2| && lo2[t] < lo2[node]
  {
    var p := PSpan(span, items);
    assert cs2[span] == cs2[..|cs|][span];
    if items != [] {
      var prev := Last(items);
      assert Rep(cs, prev, After(items, |items| - 1, Empty));
      ItemBlock(span, items, |items| - 1);
      RepExtends(cs, cs2, prev, Empty);
      ShapeOfRep(cs2, prev, Empty);
      ShapeOfRep(cs, prev, Empty);
      TailsLive(cs, prev);
      forall t | t in Tails(prev) ensures t < |lo2| && lo2[t] < lo2[node] {
        assert lo2[..|lo|][t] == lo2[t];
      }
    }
  }

  /** The alternatives a variant has collected so far: spans laid out one
      after another from `base` to the end of the cells. */
  ghost predicate Collecting(cs: seq<Cell>, base: nat, alts: seq<Placed>) {
    Fills(alts, base, |cs|, true) &&
    forall j :: 0 <= j < |alts| ==>
      alts[j].PSpan? && Closed(alts[j]) && Laid(alts[j], true) && Rep(cs, alts[j], Empty)
  }

  lemma AltGrows(cs: seq<Cell>, base: nat, alts: seq<Placed>, ps: Placed, cs2: seq<Cell>)
    requires Collecting(cs, base, alts) && Extends(cs, cs2)
    requires ps.PSpan? && Closed(ps) && Laid(ps, true) && Rep(cs2, ps, Empty)
    requires Start(ps, true) == |cs| && End(ps, true) == |cs2|
    ensures Collecting(cs2, base, alts + [ps])
  {
    var alts' := alts + [ps];
    assert Last(alts') == ps;
    forall j | 0 <= j < |alts| ensures Rep(cs2, alts[j], Empty) {
      AltBlock(cs, base, alts, j);
      RepExtends(cs, cs2, alts[j], Empty);
    }
    assert forall j :: 0 <= j < |alts| ==> alts'[j] == alts[j];
    assert Chained(alts', true);
  }

  /** Each collected alternative lies below the end of the cells. */
  lemma AltBlock(cs: seq<Cell>, base: nat, alts: seq<Placed>, j: nat)
    requires Collecting(cs, base, alts) && j < |alts|
    ensures End(alts[j], true) <= |cs|
  {
    forall m | 0 <= m < |alts| ensures Start(alts[m], true) < End(alts[m], true) {
      Bounds(alts[m], true);
    }
    ChainOrder(alts, true);
  }

  /** `Variant(nodes)` over the collected alternatives. */
  lemma VariantMade(cs: seq<Cell>, base: nat, alts: seq<Placed>)
    requires Collecting(cs, base, alts) && alts != []
    ensures var q := PVar(|cs|, alts);
      Rep(cs + [VariantCell(IdsOf(alts))], q, Empty) && Laid(q, true) && Closed(q) &&
      Start(q, true) == base && End(q, true) == |cs| + 1
  {
    var cs2 := cs + [VariantCell(IdsOf(alts))];
    assert Extends(cs, cs2);
    forall j | 0 <= j < |alts| ensures Rep(cs2, alts[j], Empty) {
      AltBlock(cs, base, alts, j);
      RepExtends(cs, cs2, alts[j], Empty);
    }
  }
}
