/** The node objects of myparser.py. Every `Literal`, `Span` and `Variant`
    object is a cell of an arena, numbered in order of creation; a successor
    or child reference is the number of the cell it points to, and
    `Empty.node` is the reference `Empty`. `Graph` holds the cells and has
    the objects' methods, taking the number of the object they are called
    on. */
module Nodes {
  import opened Syntax
  import opened Placement

  /** A reference to a node: `Empty.node`, or a cell of the graph. */
  datatype Ref = Empty | Node(id: nat)

  /** The fields of one node object. */
  datatype Cell =
    | LiteralCell(value: string, next: Ref)
    | SpanCell(first: Ref, last: Ref)
    | VariantCell(nodes: seq<nat>)

  // ---------------------------------------------------------------------------
  // Order: every link leads to a node that starts at a later token, except
  // that a span shares its first token with its first item. `lo[c]` is the
  // index of the token at which node `c` starts, below `bound`.

  /** `r` is a child of the span `c`: a literal or variant no earlier than it. */
  ghost predicate Inside(cs: seq<Cell>, lo: seq<nat>, c: nat, r: Ref)
    requires |lo| == |cs| && c < |cs|
  {
    r == Empty || (r.id < |cs| && lo[c] <= lo[r.id] && !cs[r.id].SpanCell?)
  }

  ghost predicate LinkedAt(cs: seq<Cell>, lo: seq<nat>, c: nat)
    requires |lo| == |cs| && c < |cs|
  {
    match cs[c]
    case LiteralCell(_, next) => next == Empty || (next.id < |cs| && lo[c] < lo[next.id])
    case SpanCell(first, last) => Inside(cs, lo, c, first) && Inside(cs, lo, c, last)
    case VariantCell(nodes) => forall j :: 0 <= j < |nodes| ==> nodes[j] < |cs| && lo[c] < lo[nodes[j]]
  }

  ghost predicate Ordered(cs: seq<Cell>, lo: seq<nat>, bound: nat) {
    |lo| == |cs| && forall c :: 0 <= c < |cs| ==> lo[c] < bound && LinkedAt(cs, lo, c)
  }

  /** A new node may be added when its own links are in order. */
  lemma OrderedAppend(cs: seq<Cell>, lo: seq<nat>, bound: nat, cell: Cell, at: nat)
    requires Ordered(cs, lo, bound) && at < bound
    requires LinkedAt(cs + [cell], lo + [at], |cs|)
    ensures Ordered(cs + [cell], lo + [at], bound)
  {
    var cs', lo' := cs + [cell], lo + [at];
    forall c | 0 <= c < |cs| ensures LinkedAt(cs', lo', c) {
      assert cs'[c] == cs[c] && lo'[c] == lo[c];
      assert LinkedAt(cs, lo, c);
      if cs[c].VariantCell? {
        var nodes := cs[c].nodes;
        forall j | 0 <= j < |nodes| ensures nodes[j] < |cs'| && lo'[c] < lo'[nodes[j]] {
          assert lo'[nodes[j]] == lo[nodes[j]];
        }
      }
    }
  }

  /** A node may be rewritten, keeping its class, when its own links are in
      order. */
  lemma OrderedUpdate(cs: seq<Cell>, lo: seq<nat>, bound: nat, c: nat, cell: Cell)
    requires Ordered(cs, lo, bound) && c < |cs| && cell.SpanCell? == cs[c].SpanCell?
    requires LinkedAt(cs[c := cell], lo, c)
    ensures Ordered(cs[c := cell], lo, bound)
  {
    var cs' := cs[c := cell];
    forall d | 0 <= d < |cs| && d != c ensures LinkedAt(cs', lo, d) {
      assert cs'[d] == cs[d];
      assert LinkedAt(cs, lo, d);
    }
  }

  // ---------------------------------------------------------------------------
  // Representation: the cells that stand for a placed tree.

  function FirstRef(items: seq<Placed>): Ref {
    if items == [] then Empty else Node(items[0].id)
  }

  function LastRef(items: seq<Placed>): Ref {
    if items == [] then Empty else Node(Last(items).id)
  }

  /** The successor of the `j`-th item of a span whose own successor is `k`. */
  function After(items: seq<Placed>, j: nat, k: Ref): Ref
    requires j < |items|
  {
    if j + 1 < |items| then Node(items[j + 1].id) else k
  }

  /** The cells `cs` hold the placed tree `p`, and the node that follows it
      is `k`: each item of a span is followed by the next item, the last one
      by what follows the span, and every alternative of a variant by what
      follows the variant. */
  ghost predicate Rep(cs: seq<Cell>, p: Placed, k: Ref)
    decreases p
  {
    p.id < |cs| &&
    match p
    case PLit(id, t) => cs[id] == LiteralCell(t, k)
    case PSpan(id, items) =>
      cs[id] == SpanCell(FirstRef(items), LastRef(items)) &&
      forall j :: 0 <= j < |items| ==> !items[j].PSpan? && Rep(cs, items[j], After(items, j, k))
    case PVar(id, alts) =>
      cs[id] == VariantCell(IdsOf(alts)) &&
      forall j :: 0 <= j < |alts| ==> alts[j].PSpan? && Rep(cs, alts[j], k)
  }

  /** What set_next needs: the path from a node to its tails, through the
      last item of each span and every alternative of each variant, with no
      empty span on it. */
  ghost predicate TailShape(cs: seq<Cell>, p: Placed)
    decreases p
  {
    p.id < |cs| &&
    match p
    case PLit(id, _) => cs[id].LiteralCell?
    case PSpan(id, items) =>
      items != [] && cs[id].SpanCell? && cs[id].last == Node(Last(items).id) &&
      TailShape(cs, Last(items))
    case PVar(id, alts) =>
      cs[id] == VariantCell(IdsOf(alts)) &&
      forall j :: 0 <= j < |alts| ==> TailShape(cs, alts[j])
  }

  /** The cells after every literal numbered in `tails` has been given the
      successor `k`. */
  ghost function Retarget(cs: seq<Cell>, tails: set<nat>, k: Ref): (r: seq<Cell>)
    ensures |r| == |cs|
    ensures forall c :: 0 <= c < |cs| ==>
      r[c] == (if c in tails && cs[c].LiteralCell? then cs[c].(next := k) else cs[c])
  {
    seq(|cs|, c requires 0 <= c < |cs| =>
      if c in tails && cs[c].LiteralCell? then cs[c].(next := k) else cs[c])
  }

  lemma RetargetTwice(cs: seq<Cell>, a: set<nat>, b: set<nat>, k: Ref)
    ensures Retarget(Retarget(cs, a, k), b, k) == Retarget(cs, a + b, k)
  {
  }

  lemma {:induction false} ShapeOfRep(cs: seq<Cell>, p: Placed, k: Ref)
    requires Rep(cs, p, k) && Closed(p)
    ensures TailShape(cs, p)
    decreases p
  {
    match p
    case PLit(_, _) =>
    case PSpan(_, items) =>
      ShapeOfRep(cs, Last(items), After(items, |items| - 1, k));
    case PVar(_, alts) =>
      forall j | 0 <= j < |alts| ensures TailShape(cs, alts[j]) {
        ShapeOfRep(cs, alts[j], k);
      }
  }

  /** Retargeting keeps every node's class, so it keeps the path to the
      tails. */
  lemma {:induction false} ShapeRetarget(cs: seq<Cell>, p: Placed, tails: set<nat>, k: Ref)
    requires TailShape(cs, p)
    ensures TailShape(Retarget(cs, tails, k), p)
    decreases p
  {
    match p
    case PLit(_, _) =>
    case PSpan(_, items) =>
      ShapeRetarget(cs, Last(items), tails, k);
    case PVar(_, alts) =>
      forall j | 0 <= j < |alts| ensures TailShape(Retarget(cs, tails, k), alts[j]) {
        ShapeRetarget(cs, alts[j], tails, k);
      }
  }

  /** A tree is kept by any change outside its block of cells. */
  lemma {:induction false} RepFrame(cs: seq<Cell>, cs': seq<Cell>, p: Placed, k: Ref)
    requires Rep(cs, p, k) && Laid(p, true) && End(p, true) <= |cs| && End(p, true) <= |cs'|
    requires forall c :: Start(p, true) <= c < End(p, true) ==> cs'[c] == cs[c]
    ensures Rep(cs', p, k)
    decreases p
  {
    Bounds(p, true);
    match p
    case PLit(_, _) =>
    case PSpan(_, items) =>
      assert Children(p) == items;
      forall j | 0 <= j < |items| ensures Rep(cs', items[j], After(items, j, k)) {
        RepFrame(cs, cs', items[j], After(items, j, k));
      }
    case PVar(_, alts) =>
      assert Children(p) == alts;
      forall j | 0 <= j < |alts| ensures Rep(cs', alts[j], k) {
        RepFrame(cs, cs', alts[j], k);
      }
  }

  /** Giving the tails of a tree the successor `k'` makes `k'` what follows
      the tree; `tails` may name other cells too, as long as none of them
      lies in the tree's block. */
  lemma {:induction false} RepRetarget(cs: seq<Cell>, p: Placed, k: Ref, k': Ref, tails: set<nat>)
    requires Rep(cs, p, k) && Laid(p, true) && End(p, true) <= |cs|
    requires forall c :: Start(p, true) <= c < End(p, true) ==> (c in tails <==> c in Tails(p))
    ensures Rep(Retarget(cs, tails, k'), p, k')
    decreases p, 1
  {
    match p
    case PLit(_, _) =>
    case PSpan(_, items) => SpanRetarget(cs, p, k, k', tails);
    case PVar(_, alts) => VariantRetarget(cs, p, k, k', tails);
  }

  lemma {:induction false} SpanRetarget(cs: seq<Cell>, p: Placed, k: Ref, k': Ref, tails: set<nat>)
    requires p.PSpan? && Rep(cs, p, k) && Laid(p, true) && End(p, true) <= |cs|
    requires forall c :: Start(p, true) <= c < End(p, true) ==> (c in tails <==> c in Tails(p))
    ensures Rep(Retarget(cs, tails, k'), p, k')
    decreases p, 0
  {
    var items := p.items;
    Bounds(p, true);
    assert Children(p) == items;
    if items != [] {
      var n := |items| - 1;
      forall j | 0 <= j < n ensures Rep(Retarget(cs, tails, k'), items[j], After(items, j, k')) {
        EarlyItemRetarget(cs, p, j, k, k', tails);
      }
      RepRetarget(cs, items[n], k, k', tails);
    }
  }

  /** An item of a span other than the last holds none of the span's tails. */
  lemma EarlyItemRetarget(cs: seq<Cell>, p: Placed, j: nat, k: Ref, k': Ref, tails: set<nat>)
    requires p.PSpan? && Rep(cs, p, k) && Laid(p, true) && End(p, true) <= |cs| && j + 1 < |p.items|
    requires forall c :: Start(p, true) <= c < End(p, true) ==> (c in tails <==> c in Tails(p))
    ensures Rep(Retarget(cs, tails, k'), p.items[j], After(p.items, j, k'))
  {
    var items, n, cs' := p.items, |p.items| - 1, Retarget(cs, tails, k');
    Bounds(p, true);
    assert Children(p) == items;
    TailsWithin(items[n], true);
    forall c | Start(items[j], true) <= c < End(items[j], true) ensures cs'[c] == cs[c] {
      assert c !in Tails(items[n]);
    }
    RepFrame(cs, cs', items[j], After(items, j, k));
  }

  lemma {:induction false} VariantRetarget(cs: seq<Cell>, p: Placed, k: Ref, k': Ref, tails: set<nat>)
    requires p.PVar? && Rep(cs, p, k) && Laid(p, true) && End(p, true) <= |cs|
    requires forall c :: Start(p, true) <= c < End(p, true) ==> (c in tails <==> c in Tails(p))
    ensures Rep(Retarget(cs, tails, k'), p, k')
    decreases p, 0
  {
    var cs' := Retarget(cs, tails, k');
    var alts := p.alts;
    Bounds(p, true);
    assert Children(p) == alts;
    forall j | 0 <= j < |alts| ensures Rep(cs', alts[j], k') {
      AltTailsExact(p, tails, j);
      RepRetarget(cs, alts[j], k, k', tails);
    }
  }

  /** Within the cells of one alternative, the tails of the variant are the
      tails of that alternative. */
  lemma AltTailsExact(p: Placed, tails: set<nat>, j: nat)
    requires p.PVar? && Laid(p, true) && j < |p.alts|
    requires forall c :: Start(p, true) <= c < End(p, true) ==> (c in tails <==> c in Tails(p))
    ensures forall c :: Start(p.alts[j], true) <= c < End(p.alts[j], true) ==> (c in tails <==> c in Tails(p.alts[j]))
  {
    var alts := p.alts;
    Bounds(p, true);
    assert Children(p) == alts;
    forall c | Start(alts[j], true) <= c < End(alts[j], true)
      ensures c in tails <==> c in Tails(alts[j])
    {
      if c in Tails(alts[j]) {
        AltTailsHas(alts, j, c);
      }
      if c in Tails(p) {
        InAltTails(alts, c);
        var m :| 0 <= m < |alts| && c in Tails(alts[m]);
        TailsWithin(alts[m], true);
      }
    }
  }

  /** The tails are literals of the graph. */
  lemma {:induction false} TailsLive(cs: seq<Cell>, p: Placed)
    requires TailShape(cs, p)
    ensures forall t :: t in Tails(p) ==> t < |cs| && cs[t].LiteralCell?
    decreases p
  {
    match p
    case PLit(_, _) =>
    case PSpan(_, items) => TailsLive(cs, Last(items));
    case PVar(_, alts) =>
      forall t | t in Tails(p) ensures t < |cs| && cs[t].LiteralCell? {
        InAltTails(alts, t);
        var m :| 0 <= m < |alts| && t in Tails(alts[m]);
        TailsLive(cs, alts[m]);
      }
  }

  // ---------------------------------------------------------------------------

  class Graph {
    var cells: seq<Cell>
    /** For each node, the index of the token at which it starts. */
    ghost var lo: seq<nat>
    /** A bound on those indices. */
    ghost const bound: nat

    ghost predicate Valid()
      reads this
    {
      Ordered(cells, lo, bound)
    }

    predicate Live(r: Ref)
      reads this
    {
      r == Empty || r.id < |cells|
    }

    /** Decreases along every link that the expansion follows. */
    ghost function Rank(r: Ref): nat
      requires Valid() && Live(r)
      reads this
    {
      match r
      case Empty => 0
      case Node(id) => 2 * (bound - lo[id]) + (if cells[id].SpanCell? then 1 else 0)
    }

    constructor (ghost bound: nat)
      ensures Valid() && cells == [] && lo == [] && this.bound == bound
    {
      cells := [];
      lo := [];
      this.bound := bound;
    }

    // -------------------------------------------------------------------------
    // Expansion: the `strings` methods.

    /** The strings the node `r` yields for `prefix`. */
    function Strings(r: Ref, prefix: string): seq<string>
      requires Valid() && Live(r)
      reads this
      decreases Rank(r), 1, 0
    {
      match r
      case Empty => [prefix]
      case Node(id) =>
        assert LinkedAt(cells, lo, id);
        match cells[id]
        case LiteralCell(value, next) => Strings(next, prefix + value)
        case SpanCell(first, _) => Strings(first, prefix)
        case VariantCell(_) => AltStrings(id, 0, prefix)
    }

    /** The strings of the alternatives of variant `id` from the `j`-th on. */
    function AltStrings(id: nat, j: nat, prefix: string): seq<string>
      requires Valid() && id < |cells| && cells[id].VariantCell? && j <= |cells[id].nodes|
      reads this
      decreases Rank(Node(id)), 0, |cells[id].nodes| - j
    {
      if j == |cells[id].nodes| then []
      else
        assert LinkedAt(cells, lo, id);
        Strings(Node(cells[id].nodes[j]), prefix) + AltStrings(id, j + 1, prefix)
    }

    /** Each string of `ws`, appended to `prefix`, continued with what `k`
        yields for it. */
    ghost function Follow(ws: seq<string>, k: Ref, prefix: string): seq<string>
      requires Valid() && Live(k)
      reads this
    {
      if ws == [] then [] else Strings(k, prefix + ws[0]) + Follow(ws[1..], k, prefix)
    }

    lemma {:induction false} FollowAppend(a: seq<string>, b: seq<string>, k: Ref, prefix: string)
      requires Valid() && Live(k)
      ensures Follow(a + b, k, prefix) == Follow(a, k, prefix) + Follow(b, k, prefix)
      decreases a
    {
      if a == [] {
        assert a + b == b;
      } else {
        assert (a + b)[1..] == a[1..] + b;
        FollowAppend(a[1..], b, k, prefix);
      }
    }

    lemma {:induction false} FollowPrefixed(a: string, ws: seq<string>, k: Ref, prefix: string)
      requires Valid() && Live(k)
      ensures Follow(Prefixed(a, ws), k, prefix) == Follow(ws, k, prefix + a)
      decreases ws
    {
      if ws != [] {
        assert Prefixed(a, ws)[1..] == Prefixed(a, ws[1..]);
        assert prefix + (a + ws[0]) == prefix + a + ws[0];
        FollowPrefixed(a, ws[1..], k, prefix);
      }
    }

    /** Following `heads` into a node that yields `tails` and then `k`
        follows the product into `k`. */
    lemma {:induction false} FollowProduct(heads: seq<string>, tails: seq<string>, c: Ref, k: Ref, prefix: string)
      requires Valid() && Live(c) && Live(k)
      requires forall q :: Strings(c, q) == Follow(tails, k, q)
      ensures Follow(heads, c, prefix) == Follow(Product(heads, tails), k, prefix)
      decreases heads
    {
      if heads != [] {
        FollowProduct(heads[1..], tails, c, k, prefix);
        FollowPrefixed(heads[0], tails, k, prefix);
        FollowAppend(Prefixed(heads[0], tails), Product(heads[1..], tails), k, prefix);
      }
    }

    lemma {:induction false} FollowEmpty(ws: seq<string>, prefix: string)
      requires Valid()
      ensures Follow(ws, Empty, prefix) == Prefixed(prefix, ws)
      decreases ws
    {
      if ws != [] {
        FollowEmpty(ws[1..], prefix);
      }
    }

    /** The expansion of a node that represents part of a tree: each string
        of that part's denotation, continued with what follows the node. */
    lemma {:induction false} NodeStrings(p: Placed, k: Ref, prefix: string)
      requires Valid() && Rep(cells, p, k) && Closed(p) && Live(k)
      ensures Strings(Node(p.id), prefix) == Follow(Meaning(p), k, prefix)
      decreases p, 2, 0
    {
      match p
      case PLit(_, t) =>
      case PSpan(_, items) =>
        ChainStrings(p, 0, k, prefix);
        assert ItemsOf(items)[0..] == ItemsOf(items);
      case PVar(_, alts) =>
        AltsStrings(p, 0, k, prefix);
        assert SpansOf(alts)[0..] == SpansOf(alts);
    }

    lemma {:induction false} ChainStrings(p: Placed, j: nat, k: Ref, prefix: string)
      requires Valid() && p.PSpan? && Rep(cells, p, k) && Closed(p) && Live(k)
      requires j < |p.items| && p.items[j].id < |cells|
      ensures Strings(Node(p.items[j].id), prefix) == Follow(DenoteSpan(ItemsOf(p.items)[j..]), k, prefix)
      decreases p, 1, |p.items| - j
    {
      var items := p.items;
      var xs := ItemsOf(items);
      var c := After(items, j, k);
      NodeStrings(items[j], c, prefix);
      assert xs[j..][1..] == xs[j + 1..];
      if j + 1 < |items| {
        forall q ensures Strings(c, q) == Follow(DenoteSpan(xs[j + 1..]), k, q) {
          ChainStrings(p, j + 1, k, q);
        }
        FollowProduct(DenoteItem(xs[j]), DenoteSpan(xs[j + 1..]), c, k, prefix);
      } else {
        assert xs[j + 1..] == [];
        ProductUnit(DenoteItem(xs[j]));
      }
    }

    lemma {:induction false} AltsStrings(p: Placed, j: nat, k: Ref, prefix: string)
      requires Valid() && p.PVar? && Rep(cells, p, k) && Closed(p) && Live(k) && j <= |p.alts|
      ensures AltStrings(p.id, j, prefix) == Follow(DenoteAlts(SpansOf(p.alts)[j..]), k, prefix)
      decreases p, 1, |p.alts| - j
    {
      var spans := SpansOf(p.alts);
      if j < |p.alts| {
        NodeStrings(p.alts[j], k, prefix);
        AltsStrings(p, j + 1, k, prefix);
        assert spans[j..][1..] == spans[j + 1..];
        FollowAppend(DenoteSpan(spans[j].items), DenoteAlts(spans[j + 1..]), k, prefix);
      }
    }

    /** The expansion of a root span that represents the tree `xs` and is
        followed by nothing is the denotation of `xs`. */
    lemma RootStrings(p: Placed, xs: seq<Item>)
      requires Valid() && p.PSpan? && Rep(cells, p, Empty) && Closed(p) && ItemsOf(p.items) == xs
      ensures Strings(Node(p.id), "") == DenoteSpan(xs)
    {
      NodeStrings(p, Empty, "");
      FollowEmpty(DenoteSpan(xs), "");
      PrefixedNothing(DenoteSpan(xs));
    }

    // -------------------------------------------------------------------------
    // Construction and linking.

    /** `Literal(value)`: a literal whose successor is `Empty.node`. */
    method NewLiteral(value: string, ghost at: nat) returns (id: nat)
      requires Valid() && at < bound
      modifies this
      ensures Valid() && id == old(|cells|)
      ensures cells == old(cells) + [LiteralCell(value, Empty)] && lo == old(lo) + [at]
    {
      OrderedAppend(cells, lo, bound, LiteralCell(value, Empty), at);
      id := |cells|;
      cells := cells + [LiteralCell(value, Empty)];
      lo := lo + [at];
    }

    /** `Span()`: an empty span, whose first and last nodes are `Empty.node`. */
    method NewSpan(ghost at: nat) returns (id: nat)
      requires Valid() && at < bound
      modifies this
      ensures Valid() && id == old(|cells|)
      ensures cells == old(cells) + [SpanCell(Empty, Empty)] && lo == old(lo) + [at]
    {
      OrderedAppend(cells, lo, bound, SpanCell(Empty, Empty), at);
      id := |cells|;
      cells := cells + [SpanCell(Empty, Empty)];
      lo := lo + [at];
    }

    /** `Variant(nodes)`. */
    method NewVariant(nodes: seq<nat>, ghost at: nat) returns (id: nat)
      requires Valid() && at < bound
      requires forall j :: 0 <= j < |nodes| ==> nodes[j] < |cells| && at < lo[nodes[j]]
      modifies this
      ensures Valid() && id == old(|cells|)
      ensures cells == old(cells) + [VariantCell(nodes)] && lo == old(lo) + [at]
    {
      OrderedAppend(cells, lo, bound, VariantCell(nodes), at);
      id := |cells|;
      cells := cells + [VariantCell(nodes)];
      lo := lo + [at];
    }

    /** `set_next` on the node `id`, which stands for the placed tree `p`:
        a literal takes `k` as its successor, a span passes it to its last
        node, a variant to each of its alternatives. So exactly the tails of
        `p` get the successor `k`. */
    method SetNext(id: nat, k: Ref, ghost p: Placed)
      requires Valid() && TailShape(cells, p) && p.id == id && Live(k)
      requires k != Empty ==> forall t :: t in Tails(p) ==> t < |lo| && lo[t] < lo[k.id]
      modifies this
      ensures Valid() && lo == old(lo)
      ensures cells == Retarget(old(cells), Tails(p), k)
      decreases p
    {
      match cells[id]
      case LiteralCell(value, _) =>
        OrderedUpdate(cells, lo, bound, id, LiteralCell(value, k));
        cells := cells[id := LiteralCell(value, k)];
      case SpanCell(_, last) =>
        SetNext(last.id, k, Last(p.items));
      case VariantCell(nodes) =>
        ghost var cells0 := cells;
        for j := 0 to |nodes|
          invariant Valid() && lo == old(lo)
          invariant cells == Retarget(cells0, AltTails(p.alts[..j]), k)
          invariant TailShape(cells, p)
        {
          var alt := p.alts[j];
          forall t | t in Tails(alt) ensures t in Tails(p) {
            AltTailsHas(p.alts, j, t);
          }
          ghost var before := cells;
          SetNext(nodes[j], k, alt);
          ShapeRetarget(before, p, Tails(alt), k);
          RetargetTwice(cells0, AltTails(p.alts[..j]), Tails(alt), k);
          AltTailsSnoc(p.alts, j);
        }
        assert p.alts[..|nodes|] == p.alts;
    }

    /** `Span.append(node)` on the span `span` whose last item is the placed
        tree `prev`: a first node becomes both first and last; otherwise the
        old last node's tails get `node` as successor and `node` becomes the
        last. */
    method Append(span: nat, node: nat, ghost prev: Placed)
      requires Valid() && span < |cells| && node < |cells| && cells[span].SpanCell?
      requires !cells[node].SpanCell? && lo[span] <= lo[node]
      requires cells[span].last != Empty ==>
        TailShape(cells, prev) && prev.id == cells[span].last.id &&
        forall t :: t in Tails(prev) ==> t < |lo| && lo[t] < lo[node]
      modifies this
      ensures Valid() && lo == old(lo)
      ensures old(cells[span].last) == Empty ==>
        cells == old(cells)[span := SpanCell(Node(node), Node(node))]
      ensures old(cells[span].last) != Empty ==>
        cells == Retarget(old(cells), Tails(prev), Node(node))[span := SpanCell(old(cells[span].first), Node(node))]
    {
      var last := cells[span].last;
      if last != Empty {
        SetNext(last.id, Node(node), prev);
        var first := cells[span].first;
        OrderedUpdate(cells, lo, bound, span, SpanCell(first, Node(node)));
        cells := cells[span := SpanCell(first, Node(node))];
      } else {
        OrderedUpdate(cells, lo, bound, span, SpanCell(Node(node), Node(node)));
        cells := cells[span := SpanCell(Node(node), Node(node))];
      }
    }
  }
}
