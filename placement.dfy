/** Bookkeeping that ties the node objects a parser creates to the tree they
    stand for. Nodes are numbered in the order they are created; a placed
    tree records which node stands for which part of the tree. */
module Placement {
  import opened Syntax

  /** A node and the part of the tree it stands for: a literal, a span of
      items or a variant of spans. */
  datatype Placed =
    | PLit(id: nat, text: string)
    | PSpan(id: nat, items: seq<Placed>)
    | PVar(id: nat, alts: seq<Placed>)

  function Last(ps: seq<Placed>): Placed
    requires ps != []
  {
    ps[|ps| - 1]
  }

  /** The numbers of the nodes of a list. */
  function IdsOf(ps: seq<Placed>): (r: seq<nat>)
    ensures |r| == |ps| && forall j :: 0 <= j < |ps| ==> r[j] == ps[j].id
  {
    seq(|ps|, j requires 0 <= j < |ps| => ps[j].id)
  }

  // ---------------------------------------------------------------------------
  // The tree a placed tree stands for. Spans only occur as alternatives of a
  // variant, and literals and variants only as items of a span.

  function ItemOf(p: Placed): Item
    decreases p
  {
    match p
    case PLit(_, t) => Lit(t)
    case PVar(_, alts) => Var(SpansOf(alts))
    case PSpan(_, items) => Var([Span(ItemsOf(items))])
  }

  function ItemsOf(ps: seq<Placed>): (r: seq<Item>)
    ensures |r| == |ps|
    decreases ps
  {
    seq(|ps|, j requires 0 <= j < |ps| => ItemOf(ps[j]))
  }

  function SpansOf(ps: seq<Placed>): (r: seq<Span>)
    ensures |r| == |ps|
    decreases ps
  {
    seq(|ps|, j requires 0 <= j < |ps| =>
      Span(if ps[j].PSpan? then ItemsOf(ps[j].items) else [ItemOf(ps[j])]))
  }

  /** What a node expands to: a span its items' product, any other node
      the denotation of its item. */
  function Meaning(p: Placed): seq<string> {
    if p.PSpan? then DenoteSpan(ItemsOf(p.items)) else DenoteItem(ItemOf(p))
  }

  lemma ItemsOfSnoc(ps: seq<Placed>, q: Placed)
    ensures ItemsOf(ps + [q]) == ItemsOf(ps) + [ItemOf(q)]
  {
    assert forall j :: 0 <= j < |ps| ==> (ps + [q])[j] == ps[j];
  }

  lemma SpansOfSnoc(ps: seq<Placed>, q: Placed)
    requires q.PSpan?
    ensures SpansOf(ps + [q]) == SpansOf(ps) + [Span(ItemsOf(q.items))]
  {
    assert forall j :: 0 <= j < |ps| ==> (ps + [q])[j] == ps[j];
  }

  /** Every span of the tree has at least one item. */
  predicate Closed(p: Placed)
    decreases p
  {
    match p
    case PLit(_, _) => true
    case PSpan(_, items) => items != [] && forall j :: 0 <= j < |items| ==> Closed(items[j])
    case PVar(_, alts) => forall j :: 0 <= j < |alts| ==> Closed(alts[j])
  }

  // ---------------------------------------------------------------------------
  // The literal nodes whose successor set_next changes: a literal itself,
  // the last item of a span, every alternative of a variant.

  function Tails(p: Placed): set<nat>
    decreases p
  {
    match p
    case PLit(id, _) => {id}
    case PSpan(_, items) => if items == [] then {} else Tails(Last(items))
    case PVar(_, alts) => AltTails(alts)
  }

  function AltTails(alts: seq<Placed>): set<nat>
    decreases alts
  {
    if alts == [] then {} else AltTails(alts[..|alts| - 1]) + Tails(Last(alts))
  }

  lemma AltTailsSnoc(alts: seq<Placed>, j: nat)
    requires j < |alts|
    ensures AltTails(alts[..j + 1]) == AltTails(alts[..j]) + Tails(alts[j])
  {
    assert alts[..j + 1][..j] == alts[..j];
  }

  lemma {:induction false} InAltTails(alts: seq<Placed>, t: nat)
    requires t in AltTails(alts)
    ensures exists j :: 0 <= j < |alts| && t in Tails(alts[j])
    decreases alts
  {
    if t !in Tails(Last(alts)) {
      InAltTails(alts[..|alts| - 1], t);
      var j :| 0 <= j < |alts| - 1 && t in Tails(alts[..|alts| - 1][j]);
      assert alts[..|alts| - 1][j] == alts[j];
    }
  }

  lemma {:induction false} AltTailsHas(alts: seq<Placed>, j: nat, t: nat)
    requires j < |alts| && t in Tails(alts[j])
    ensures t in AltTails(alts)
    decreases alts
  {
    if j < |alts| - 1 {
      assert alts[..|alts| - 1][j] == alts[j];
      AltTailsHas(alts[..|alts| - 1], j, t);
    }
  }

  // ---------------------------------------------------------------------------
  // Where a tree's nodes lie in creation order. `Laid` says that every
  // subtree occupies a contiguous block of numbers, from `Start` up to but
  // excluding `End`. How the blocks of a node's children sit relative to
  // the node itself depends on which parser built it, so it is a parameter:
  // with `spanFirst` the span node is created before its items (myparser.py),
  // otherwise after them (__main__.py). A variant is always created after
  // its alternatives.

  function Start(p: Placed, spanFirst: bool): nat
    decreases p
  {
    match p
    case PLit(id, _) => id
    case PSpan(id, items) => if spanFirst || items == [] then id else Start(items[0], spanFirst)
    case PVar(id, alts) => if alts == [] then id else Start(alts[0], spanFirst)
  }

  function End(p: Placed, spanFirst: bool): nat
    decreases p
  {
    match p
    case PLit(id, _) => id + 1
    case PSpan(id, items) => if spanFirst && items != [] then End(Last(items), spanFirst) else id + 1
    case PVar(id, _) => id + 1
  }

  /** Each block of a list starts where the one before it ends. */
  predicate Chained(ps: seq<Placed>, spanFirst: bool) {
    forall j :: 0 <= j < |ps| - 1 ==> End(ps[j], spanFirst) == Start(ps[j + 1], spanFirst)
  }

  /** The children of a node occupy the block between `from` and `to`. */
  predicate Fills(ps: seq<Placed>, from: nat, to: nat, spanFirst: bool) {
    Chained(ps, spanFirst) &&
    (ps == [] ==> from == to) &&
    (ps != [] ==> Start(ps[0], spanFirst) == from && End(Last(ps), spanFirst) == to)
  }

  predicate Laid(p: Placed, spanFirst: bool)
    decreases p
  {
    match p
    case PLit(_, _) => true
    case PSpan(id, items) =>
      (if spanFirst then Fills(items, id + 1, End(p, spanFirst), spanFirst)
       else Fills(items, Start(p, spanFirst), id, spanFirst)) &&
      forall j :: 0 <= j < |items| ==> Laid(items[j], spanFirst)
    case PVar(id, alts) =>
      Fills(alts, Start(p, spanFirst), id, spanFirst) &&
      forall j :: 0 <= j < |alts| ==> Laid(alts[j], spanFirst)
  }

  /** The children of a laid node, in order. */
  function Children(p: Placed): seq<Placed> {
    match p
    case PLit(_, _) => []
    case PSpan(_, items) => items
    case PVar(_, alts) => alts
  }

  /** The block of a laid tree holds its own node, and its children's blocks
      lie inside it, in order and apart from each other and from the node. */
  lemma {:induction false} Bounds(p: Placed, spanFirst: bool)
    requires Laid(p, spanFirst)
    ensures Start(p, spanFirst) <= p.id < End(p, spanFirst)
    ensures forall j :: 0 <= j < |Children(p)| ==>
      Start(p, spanFirst) <= Start(Children(p)[j], spanFirst) &&
      End(Children(p)[j], spanFirst) <= End(p, spanFirst) &&
      (Start(Children(p)[j], spanFirst) <= p.id ==> End(Children(p)[j], spanFirst) <= p.id)
    ensures forall j, m :: 0 <= j < m < |Children(p)| ==>
      End(Children(p)[j], spanFirst) <= Start(Children(p)[m], spanFirst)
    decreases p
  {
    var cs := Children(p);
    forall j | 0 <= j < |cs| ensures Start(cs[j], spanFirst) < End(cs[j], spanFirst) {
      Bounds(cs[j], spanFirst);
    }
    if cs != [] {
      ChainOrder(cs, spanFirst);
    }
  }

  /** In a chain of non-empty blocks, later blocks start after earlier ones end. */
  lemma ChainOrder(ps: seq<Placed>, spanFirst: bool)
    requires ps != [] && Chained(ps, spanFirst)
    requires forall j :: 0 <= j < |ps| ==> Start(ps[j], spanFirst) < End(ps[j], spanFirst)
    ensures forall j, m :: 0 <= j < m < |ps| ==> End(ps[j], spanFirst) <= Start(ps[m], spanFirst)
    ensures forall j :: 0 <= j < |ps| ==>
      Start(ps[0], spanFirst) <= Start(ps[j], spanFirst) && End(ps[j], spanFirst) <= End(Last(ps), spanFirst)
  {
    forall j, m | 0 <= j < m < |ps| ensures End(ps[j], spanFirst) <= Start(ps[m], spanFirst) {
      ChainGap(ps, spanFirst, j, m);
    }
    forall j | 0 <= j < |ps|
      ensures Start(ps[0], spanFirst) <= Start(ps[j], spanFirst) && End(ps[j], spanFirst) <= End(Last(ps), spanFirst)
    {
      if 0 < j {
        ChainGap(ps, spanFirst, 0, j);
      }
      if j < |ps| - 1 {
        ChainGap(ps, spanFirst, j, |ps| - 1);
      }
    }
  }

  lemma {:induction false} ChainGap(ps: seq<Placed>, spanFirst: bool, j: nat, m: nat)
    requires j < m < |ps| && Chained(ps, spanFirst)
    requires forall q :: 0 <= q < |ps| ==> Start(ps[q], spanFirst) < End(ps[q], spanFirst)
    ensures End(ps[j], spanFirst) <= Start(ps[m], spanFirst)
    decreases m - j
  {
    if j + 1 < m {
      ChainGap(ps, spanFirst, j + 1, m);
    }
  }

  /** The tails of a laid tree lie in its block. */
  lemma {:induction false} TailsWithin(p: Placed, spanFirst: bool)
    requires Laid(p, spanFirst)
    ensures forall t :: t in Tails(p) ==> Start(p, spanFirst) <= t < End(p, spanFirst)
    decreases p
  {
    Bounds(p, spanFirst);
    match p
    case PLit(_, _) =>
    case PSpan(_, items) =>
      if items != [] {
        assert Children(p)[|items| - 1] == Last(items);
        TailsWithin(Last(items), spanFirst);
      }
    case PVar(_, alts) =>
      assert Children(p) == alts;
      forall t | t in Tails(p) ensures Start(p, spanFirst) <= t < End(p, spanFirst) {
        InAltTails(alts, t);
        var j :| 0 <= j < |alts| && t in Tails(alts[j]);
        TailsWithin(alts[j], spanFirst);
      }
  }
}
