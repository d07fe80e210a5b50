/** The node objects of __main__.py, in an arena like the one of `Nodes`.
    Here a `Span` keeps the list of its items and gets a successor of its
    own only when it is empty, and a `Variant` never gets one. A successor
    attribute that was never assigned is the link `Unset`: reading it is
    the error that stops the output. */
module MainNodes {
  import opened Syntax
  import opened Placement

  /** A successor attribute: never assigned, `None`, or a node. */
  datatype Link = Unset | NoNode | To(id: nat)

  /** The attributes of one node object. */
  datatype Cell =
    | LiteralNode(value: string, next: Link)
    | SpanNode(nodes: seq<nat>, next: Link)
    | VariantNode(nodes: seq<nat>, next: Link)

  /** What `output_func` received, in order, and whether the output stopped
      at a successor that was never assigned. */
  datatype Emitted = Emitted(lines: seq<string>, failed: bool)

  /** One output followed by another, which does not happen if the first
      one stopped. */
  function Then(a: Emitted, b: Emitted): (r: Emitted)
    // a stopped output absorbs whatever was to follow it
    ensures a.failed ==> r == a
    // emitting nothing is a unit on either side
    ensures a == Emitted([], false) ==> r == b
    ensures b == Emitted([], false) ==> r == a
    // what was already emitted is never taken back
    ensures a.lines <= r.lines
  {
    if a.failed then a else Emitted(a.lines + b.lines, b.failed)
  }

  lemma ThenAssoc(a: Emitted, b: Emitted, c: Emitted)
    ensures Then(Then(a, b), c) == Then(a, Then(b, c))
  {
    if !a.failed && !b.failed {
      assert a.lines + b.lines + c.lines == a.lines + (b.lines + c.lines);
    }
  }

  // ---------------------------------------------------------------------------
  // Order, as in `Nodes`: every link leads to a node that starts at a later
  // token, except that a span shares its first token with its first item.

  /** `r` may be the successor of `c`. */
  ghost predicate Later(cs: seq<Cell>, lo: seq<nat>, c: nat, r: Link)
    requires |lo| == |cs| && c < |cs|
  {
    r.To? ==> r.id < |cs| && lo[c] < lo[r.id]
  }

  ghost predicate LinkedAt(cs: seq<Cell>, lo: seq<nat>, c: nat)
    requires |lo| == |cs| && c < |cs|
  {
    Later(cs, lo, c, cs[c].next) &&
    match cs[c]
    case LiteralNode(_, _) => true
    case SpanNode(nodes, _) =>
      nodes != [] ==> nodes[0] < |cs| && lo[c] <= lo[nodes[0]] && !cs[nodes[0]].SpanNode?
    case VariantNode(nodes, _) =>
      forall j :: 0 <= j < |nodes| ==> nodes[j] < |cs| && lo[c] < lo[nodes[j]]
  }

  ghost predicate Ordered(cs: seq<Cell>, lo: seq<nat>, bound: nat) {
    |lo| == |cs| && forall c :: 0 <= c < |cs| ==> lo[c] < bound && LinkedAt(cs, lo, c)
  }

  lemma OrderedAppend(cs: seq<Cell>, lo: seq<nat>, bound: nat, cell: Cell, at: nat)
    requires Ordered(cs, lo, bound) && at < bound
    requires LinkedAt(cs + [cell], lo + [at], |cs|)
    ensures Ordered(cs + [cell], lo + [at], bound)
  {
    var cs', lo' := cs + [cell], lo + [at];
    forall c | 0 <= c < |cs| ensures LinkedAt(cs', lo', c) {
      assert cs'[c] == cs[c] && lo'[c] == lo[c];
      assert LinkedAt(cs, lo, c);
      if cs[c].VariantNode? {
        var nodes := cs[c].nodes;
        forall j | 0 <= j < |nodes| ensures nodes[j] < |cs'| && lo'[c] < lo'[nodes[j]] {
          assert lo'[nodes[j]] == lo[nodes[j]];
        }
      } else if cs[c].SpanNode? && cs[c].nodes != [] {
        var n := cs[c].nodes[0];
        assert cs'[n] == cs[n] && lo'[n] == lo[n];
      }
      if cs[c].next.To? {
        assert lo'[cs[c].next.id] == lo[cs[c].next.id];
      }
    }
  }

  /** A node may get a new successor when it comes later. */
  lemma OrderedUpdate(cs: seq<Cell>, lo: seq<nat>, bound: nat, c: nat, k: Link)
    requires Ordered(cs, lo, bound) && c < |cs| && Later(cs, lo, c, k)
    ensures Ordered(cs[c := cs[c].(next := k)], lo, bound)
  {
    var cs' := cs[c := cs[c].(next := k)];
    assert LinkedAt(cs, lo, c);
    assert LinkedAt(cs', lo, c);
    forall d | 0 <= d < |cs| && d != c ensures LinkedAt(cs', lo, d) {
      assert cs'[d] == cs[d];
      assert LinkedAt(cs, lo, d);
    }
  }

  // ---------------------------------------------------------------------------
  // The nodes whose successor set_next assigns: a literal, an empty span,
  // the ends of the last item of a span and of every alternative of a
  // variant.

  function Ends(p: Placed): set<nat>
    decreases p
  {
    match p
    case PLit(id, _) => {id}
    case PSpan(id, items) => if items == [] then {id} else Ends(Last(items))
    case PVar(_, alts) => AltEnds(alts)
  }

  function AltEnds(alts: seq<Placed>): set<nat>
    decreases alts
  {
    if alts == [] then {} else AltEnds(alts[..|alts| - 1]) + Ends(Last(alts))
  }

  lemma AltEndsSnoc(alts: seq<Placed>, j: nat)
    requires j < |alts|
    ensures AltEnds(alts[..j + 1]) == AltEnds(alts[..j]) + Ends(alts[j])
  {
    assert alts[..j + 1][..j] == alts[..j];
  }

  lemma {:induction false} InAltEnds(alts: seq<Placed>, t: nat)
    requires t in AltEnds(alts)
    ensures exists j :: 0 <= j < |alts| && t in Ends(alts[j])
    decreases alts
  {
    if t !in Ends(Last(alts)) {
      InAltEnds(alts[..|alts| - 1], t);
      var j :| 0 <= j < |alts| - 1 && t in Ends(alts[..|alts| - 1][j]);
      assert alts[..|alts| - 1][j] == alts[j];
    }
  }

  lemma {:induction false} AltEndsHas(alts: seq<Placed>, j: nat, t: nat)
    requires j < |alts| && t in Ends(alts[j])
    ensures t in AltEnds(alts)
    decreases alts
  {
    if j < |alts| - 1 {
      assert alts[..|alts| - 1][j] == alts[j];
      AltEndsHas(alts[..|alts| - 1], j, t);
    }
  }

  /** The ends of a laid tree lie in its block. */
  lemma {:induction false} EndsWithin(p: Placed)
    requires Laid(p, false)
    ensures forall t :: t in Ends(p) ==> Start(p, false) <= t < End(p, false)
    decreases p
  {
    Bounds(p, false);
    match p
    case PLit(_, _) =>
    case PSpan(_, items) =>
      if items != [] {
        assert Children(p)[|items| - 1] == Last(items);
        EndsWithin(Last(items));
      }
    case PVar(_, alts) =>
      assert Children(p) == alts;
      forall t | t in Ends(p) ensures Start(p, false) <= t < End(p, false) {
        InAltEnds(alts, t);
        var j :| 0 <= j < |alts| && t in Ends(alts[j]);
        EndsWithin(alts[j]);
      }
  }

  // ---------------------------------------------------------------------------
  // Representation.

  /** The successor of the `j`-th item of a span whose own successor is `k`. */
  function Succ(items: seq<Placed>, j: nat, k: Link): Link
    requires j < |items|
  {
    if j + 1 < |items| then To(items[j + 1].id) else k
  }

  /** The cells `cs` hold the placed tree `p`, and the node that follows it
      is `k`: each item of a span is followed by the next item, the last one
      by what follows the span, and every alternative of a variant by what
      follows the variant. An empty span holds its successor itself. */
  ghost predicate Rep(cs: seq<Cell>, p: Placed, k: Link)
    decreases p
  {
    p.id < |cs| &&
    match p
    case PLit(id, t) => cs[id] == LiteralNode(t, k)
    case PSpan(id, items) =>
      cs[id] == SpanNode(IdsOf(items), if items == [] then k else Unset) &&
      forall j :: 0 <= j < |items| ==> !items[j].PSpan? && Rep(cs, items[j], Succ(items, j, k))
    case PVar(id, alts) =>
      cs[id] == VariantNode(IdsOf(alts), Unset) && alts != [] &&
      forall j :: 0 <= j < |alts| ==> alts[j].PSpan? && Rep(cs, alts[j], k)
  }

  /** As `Rep`, except that the successors of the ends of `p` may be
      anything: a tree that no set_next has reached yet. */
  ghost predicate Shape(cs: seq<Cell>, p: Placed)
    decreases p
  {
    p.id < |cs| &&
    match p
    case PLit(id, t) => cs[id].LiteralNode? && cs[id].value == t
    case PSpan(id, items) =>
      cs[id].SpanNode? && cs[id].nodes == IdsOf(items) &&
      (forall j :: 0 <= j < |items| ==> !items[j].PSpan?) &&
      (forall j :: 0 <= j < |items| - 1 ==> Rep(cs, items[j], To(items[j + 1].id))) &&
      (items != [] ==> cs[id].next == Unset && Shape(cs, Last(items)))
    case PVar(id, alts) =>
      cs[id] == VariantNode(IdsOf(alts), Unset) && alts != [] &&
      forall j :: 0 <= j < |alts| ==> alts[j].PSpan? && Shape(cs, alts[j])
  }

  /** What set_next needs: the path from a node to its ends, through the
      last item of each span and every alternative of each variant. */
  ghost predicate Path(cs: seq<Cell>, p: Placed)
    decreases p
  {
    p.id < |cs| &&
    match p
    case PLit(id, _) => cs[id].LiteralNode?
    case PSpan(id, items) =>
      cs[id].SpanNode? && cs[id].nodes == IdsOf(items) && (items != [] ==> Path(cs, Last(items)))
    case PVar(id, alts) =>
      cs[id].VariantNode? && cs[id].nodes == IdsOf(alts) && alts != [] &&
      forall j :: 0 <= j < |alts| ==> Path(cs, alts[j])
  }

  /** The cells after every node numbered in `tails` has been given the
      successor `k`. */
  ghost function Retarget(cs: seq<Cell>, tails: set<nat>, k: Link): (r: seq<Cell>)
    ensures |r| == |cs|
    ensures forall c :: 0 <= c < |cs| ==> r[c] == (if c in tails then cs[c].(next := k) else cs[c])
  {
    seq(|cs|, c requires 0 <= c < |cs| => if c in tails then cs[c].(next := k) else cs[c])
  }

  lemma RetargetTwice(cs: seq<Cell>, a: set<nat>, b: set<nat>, k: Link)
    ensures Retarget(Retarget(cs, a, k), b, k) == Retarget(cs, a + b, k)
  {
  }

  lemma {:induction false} RepShape(cs: seq<Cell>, p: Placed, k: Link)
    requires Rep(cs, p, k)
    ensures Shape(cs, p)
    decreases p
  {
    match p
    case PLit(_, _) =>
    case PSpan(_, items) =>
      if items != [] {
        forall j | 0 <= j < |items| - 1 ensures Rep(cs, items[j], To(items[j + 1].id)) {
          assert Succ(items, j, k) == To(items[j + 1].id);
        }
        RepShape(cs, Last(items), k);
      }
    case PVar(_, alts) =>
      forall j | 0 <= j < |alts| ensures Shape(cs, alts[j]) {
        RepShape(cs, alts[j], k);
      }
  }

  lemma {:induction false} ShapePath(cs: seq<Cell>, p: Placed)
    requires Shape(cs, p)
    ensures Path(cs, p)
    decreases p
  {
    match p
    case PLit(_, _) =>
    case PSpan(_, items) =>
      if items != [] {
        ShapePath(cs, Last(items));
      }
    case PVar(_, alts) =>
      forall j | 0 <= j < |alts| ensures Path(cs, alts[j]) {
        ShapePath(cs, alts[j]);
      }
  }

  /** Assigning successors keeps every node's class and items. */
  lemma {:induction false} PathRetarget(cs: seq<Cell>, p: Placed, tails: set<nat>, k: Link)
    requires Path(cs, p)
    ensures Path(Retarget(cs, tails, k), p)
    decreases p
  {
    match p
    case PLit(_, _) =>
    case PSpan(_, items) =>
      if items != [] {
        PathRetarget(cs, Last(items), tails, k);
      }
    case PVar(_, alts) =>
      forall j | 0 <= j < |alts| ensures Path(Retarget(cs, tails, k), alts[j]) {
        PathRetarget(cs, alts[j], tails, k);
      }
  }

  /** A tree is kept by any change outside its block of cells. */
  lemma {:induction false} RepFrame(cs: seq<Cell>, cs': seq<Cell>, p: Placed, k: Link)
    requires Rep(cs, p, k) && Laid(p, false) && End(p, false) <= |cs| && End(p, false) <= |cs'|
    requires forall c :: Start(p, false) <= c < End(p, false) ==> cs'[c] == cs[c]
    ensures Rep(cs', p, k)
    decreases p
  {
    Bounds(p, false);
    match p
    case PLit(_, _) =>
    case PSpan(_, items) =>
      assert Children(p) == items;
      forall j | 0 <= j < |items| ensures Rep(cs', items[j], Succ(items, j, k)) {
        RepFrame(cs, cs', items[j], Succ(items, j, k));
      }
    case PVar(_, alts) =>
      assert Children(p) == alts;
      forall j | 0 <= j < |alts| ensures Rep(cs', alts[j], k) {
        RepFrame(cs, cs', alts[j], k);
      }
  }

  lemma {:induction false} ShapeFrame(cs: seq<Cell>, cs': seq<Cell>, p: Placed)
    requires Shape(cs, p) && Laid(p, false) && End(p, false) <= |cs| && End(p, false) <= |cs'|
    requires forall c :: Start(p, false) <= c < End(p, false) ==> cs'[c] == cs[c]
    ensures Shape(cs', p)
    decreases p, 1
  {
    Bounds(p, false);
    match p
    case PLit(_, _) =>
    case PSpan(_, items) => SpanShapeFrame(cs, cs', p);
    case PVar(_, alts) =>
      assert Children(p) == alts;
      forall j | 0 <= j < |alts| ensures Shape(cs', alts[j]) {
        ShapeFrame(cs, cs', alts[j]);
      }
  }

  lemma {:induction false} SpanShapeFrame(cs: seq<Cell>, cs': seq<Cell>, p: Placed)
    requires p.PSpan? && Shape(cs, p) && Laid(p, false) && End(p, false) <= |cs| && End(p, false) <= |cs'|
    requires forall c :: Start(p, false) <= c < End(p, false) ==> cs'[c] == cs[c]
    ensures Shape(cs', p)
    decreases p, 0
  {
    var items := p.items;
    Bounds(p, false);
    assert Children(p) == items;
    forall j | 0 <= j < |items| - 1 ensures Rep(cs', items[j], To(items[j + 1].id)) {
      RepFrame(cs, cs', items[j], To(items[j + 1].id));
    }
    if items != [] {
      assert Children(p)[|items| - 1] == Last(items);
      ShapeFrame(cs, cs', Last(items));
    }
  }

  /** Giving the ends of a tree the successor `k` makes `k` what follows the
      tree; `tails` may name other cells too, as long as none of them lies
      in the tree's block. */
  lemma {:induction false} ShapeRetarget(cs: seq<Cell>, p: Placed, k: Link, tails: set<nat>)
    requires Shape(cs, p) && Laid(p, false) && End(p, false) <= |cs|
    requires forall c :: Start(p, false) <= c < End(p, false) ==> (c in tails <==> c in Ends(p))
    ensures Rep(Retarget(cs, tails, k), p, k)
    decreases p, 2
  {
    match p
    case PLit(_, _) =>
    case PSpan(_, items) => SpanRetarget(cs, p, k, tails);
    case PVar(_, alts) => VariantRetarget(cs, p, k, tails);
  }

  lemma {:induction false} SpanRetarget(cs: seq<Cell>, p: Placed, k: Link, tails: set<nat>)
    requires p.PSpan? && Shape(cs, p) && Laid(p, false) && End(p, false) <= |cs|
    requires forall c :: Start(p, false) <= c < End(p, false) ==> (c in tails <==> c in Ends(p))
    ensures Rep(Retarget(cs, tails, k), p, k)
    decreases p, 1
  {
    var items, cs' := p.items, Retarget(cs, tails, k);
    if items == [] {
      assert p.id in Ends(p) && IdsOf(items) == [];
      assert cs'[p.id] == SpanNode([], k);
    } else {
      forall j | 0 <= j < |items| ensures Rep(cs', items[j], Succ(items, j, k)) {
        if j + 1 < |items| {
          EarlyItemRetarget(cs, p, j, k, tails);
        } else {
          LastItemRetarget(cs, p, k, tails);
        }
      }
      SpanNodeKept(cs, p, k, tails);
    }
  }

  /** A non-empty span's own node is none of its ends. */
  lemma SpanNodeKept(cs: seq<Cell>, p: Placed, k: Link, tails: set<nat>)
    requires p.PSpan? && p.items != [] && Laid(p, false) && p.id < |cs|
    requires forall c :: Start(p, false) <= c < End(p, false) ==> (c in tails <==> c in Ends(p))
    ensures Retarget(cs, tails, k)[p.id] == cs[p.id]
  {
    var n := |p.items| - 1;
    Bounds(p, false);
    assert Children(p)[n] == p.items[n];
    Bounds(p.items[n], false);
    EndsWithin(p.items[n]);
    assert End(p.items[n], false) <= p.id;
    assert p.id !in Ends(p);
    assert p.id !in tails;
  }

  lemma LastItemRetarget(cs: seq<Cell>, p: Placed, k: Link, tails: set<nat>)
    requires p.PSpan? && p.items != [] && Shape(cs, p) && Laid(p, false) && End(p, false) <= |cs|
    requires forall c :: Start(p, false) <= c < End(p, false) ==> (c in tails <==> c in Ends(p))
    ensures Rep(Retarget(cs, tails, k), Last(p.items), k)
    decreases p, 0
  {
    var n := |p.items| - 1;
    Bounds(p, false);
    assert Children(p)[n] == p.items[n];
    ShapeRetarget(cs, p.items[n], k, tails);
  }

  /** An item of a span other than the last holds none of the span's ends. */
  lemma EarlyItemRetarget(cs: seq<Cell>, p: Placed, j: nat, k: Link, tails: set<nat>)
    requires p.PSpan? && Shape(cs, p) && Laid(p, false) && End(p, false) <= |cs| && j + 1 < |p.items|
    requires forall c :: Start(p, false) <= c < End(p, false) ==> (c in tails <==> c in Ends(p))
    ensures Rep(Retarget(cs, tails, k), p.items[j], Succ(p.items, j, k))
  {
    var items, n, cs' := p.items, |p.items| - 1, Retarget(cs, tails, k);
    Bounds(p, false);
    assert Children(p) == items;
    EndsWithin(items[n]);
    forall c | Start(items[j], false) <= c < End(items[j], false) ensures cs'[c] == cs[c] {
      assert c !in Ends(items[n]);
    }
    RepFrame(cs, cs', items[j], Succ(items, j, k));
  }

  lemma {:induction false} VariantRetarget(cs: seq<Cell>, p: Placed, k: Link, tails: set<nat>)
    requires p.PVar? && Shape(cs, p) && Laid(p, false) && End(p, false) <= |cs|
    requires forall c :: Start(p, false) <= c < End(p, false) ==> (c in tails <==> c in Ends(p))
    ensures Rep(Retarget(cs, tails, k), p, k)
    decreases p, 1
  {
    var alts := p.alts;
    Bounds(p, false);
    assert Children(p) == alts;
    if p.id in Ends(p) {
      InAltEnds(alts, p.id);
      var m :| 0 <= m < |alts| && p.id in Ends(alts[m]);
      EndsWithin(alts[m]);
    }
    forall j | 0 <= j < |alts| ensures Rep(Retarget(cs, tails, k), alts[j], k) {
      forall c | Start(alts[j], false) <= c < End(alts[j], false)
        ensures c in tails <==> c in Ends(alts[j])
      {
        if c in Ends(alts[j]) {
          AltEndsHas(alts, j, c);
        }
        if c in Ends(p) {
          InAltEnds(alts, c);
          var m :| 0 <= m < |alts| && c in Ends(alts[m]);
          EndsWithin(alts[m]);
        }
      }
      ShapeRetarget(cs, alts[j], k, tails);
    }
  }

  // ---------------------------------------------------------------------------
  // The constructor of Span: each item is given the next item as its
  // successor, the last item `None`.

  /** The cells after set_next has been called on the first `n` items. */
  ghost function Linked(cs: seq<Cell>, items: seq<Placed>, n: nat): (r: seq<Cell>)
    requires n <= |items|
    ensures |r| == |cs|
  {
    if n == 0 then cs
    else Retarget(Linked(cs, items, n - 1), Ends(items[n - 1]), Succ(items, n - 1, NoNode))
  }

  /** How far the first `n` items of the span `p` reach. */
  function Reach(p: Placed, n: nat): nat
    requires p.PSpan? && n <= |p.items|
  {
    if n == 0 then Start(p, false) else End(p.items[n - 1], false)
  }

  /** After `n` steps of the constructor, the first `n` items are linked,
      the others are as they were, and nothing outside the items has
      changed. */
  ghost predicate LinkedUpTo(cs: seq<Cell>, p: Placed, n: nat)
    requires p.PSpan? && n <= |p.items|
  {
    var items, cs' := p.items, Linked(cs, p.items, n);
    (forall j :: 0 <= j < n ==> Rep(cs', items[j], Succ(items, j, NoNode))) &&
    (forall j :: n <= j < |items| ==> Shape(cs', items[j])) &&
    (forall c :: 0 <= c < |cs| && !(Start(p, false) <= c < Reach(p, n)) ==> cs'[c] == cs[c])
  }

  /** The constructor of a span whose items were already built leaves the
      span holding them, followed by `None`; an empty span's successor stays
      unassigned. Nothing outside the span's items changes. */
  lemma SpanLinked(cs: seq<Cell>, p: Placed)
    requires p.PSpan? && p.id < |cs| && cs[p.id] == SpanNode(IdsOf(p.items), Unset) && Laid(p, false)
    requires forall j :: 0 <= j < |p.items| ==> !p.items[j].PSpan? && Shape(cs, p.items[j])
    ensures Rep(Linked(cs, p.items, |p.items|), p, if p.items == [] then Unset else NoNode)
    ensures forall c :: 0 <= c < |cs| && !(Start(p, false) <= c < p.id) ==>
      Linked(cs, p.items, |p.items|)[c] == cs[c]
  {
    Bounds(p, false);
    assert Children(p) == p.items;
    for n := 0 to |p.items|
      invariant LinkedUpTo(cs, p, n)
    {
      LinkStep(cs, p, n);
    }
    if p.items != [] {
      assert Reach(p, |p.items|) == End(Last(p.items), false) == p.id;
    }
  }

  lemma LinkStep(cs: seq<Cell>, p: Placed, n: nat)
    requires p.PSpan? && p.id < |cs| && Laid(p, false) && n < |p.items| && LinkedUpTo(cs, p, n)
    ensures LinkedUpTo(cs, p, n + 1)
  {
    var items, cs1 := p.items, Linked(cs, p.items, n);
    var cs2 := Linked(cs, items, n + 1);
    assert cs2 == Retarget(cs1, Ends(items[n]), Succ(items, n, NoNode));
    Bounds(p, false);
    assert Children(p) == items;
    LinkEarlier(cs1, p, n);
    LinkLater(cs1, p, n);
    assert Reach(p, n + 1) == End(items[n], false);
    assert Reach(p, n) <= Start(items[n], false) by {
      if n > 0 {
        assert End(items[n - 1], false) <= Start(items[n], false);
      }
    }
    Bounds(items[n], false);
    EndsWithin(items[n]);
    assert Start(p, false) <= Start(items[n], false) <= End(items[n], false);
    RetargetFrame(cs, cs1, Ends(items[n]), Succ(items, n, NoNode),
                  Start(p, false), Reach(p, n), Start(items[n], false), End(items[n], false));
  }

  /** Linking the `n`-th item leaves it and the items before it linked. */
  lemma LinkEarlier(cs: seq<Cell>, p: Placed, n: nat)
    requires p.PSpan? && Laid(p, false) && End(p, false) <= |cs| && n < |p.items|
    requires forall j :: 0 <= j < n ==> Rep(cs, p.items[j], Succ(p.items, j, NoNode))
    requires Shape(cs, p.items[n])
    ensures forall j :: 0 <= j < n + 1 ==>
      Rep(Retarget(cs, Ends(p.items[n]), Succ(p.items, n, NoNode)), p.items[j], Succ(p.items, j, NoNode))
  {
    var items, k := p.items, Succ(p.items, n, NoNode);
    var cs2 := Retarget(cs, Ends(items[n]), k);
    Bounds(p, false);
    assert Children(p) == items;
    EndsWithin(items[n]);
    RetargetOutside(cs, Ends(items[n]), k, Start(items[n], false), End(items[n], false));
    ShapeRetarget(cs, items[n], k, Ends(items[n]));
    forall j | 0 <= j < n ensures Rep(cs2, items[j], Succ(items, j, NoNode)) {
      assert End(items[j], false) <= Start(items[n], false);
      RepFrame(cs, cs2, items[j], Succ(items, j, NoNode));
    }
  }

  /** Linking the `n`-th item leaves the items after it as they were. */
  lemma LinkLater(cs: seq<Cell>, p: Placed, n: nat)
    requires p.PSpan? && Laid(p, false) && End(p, false) <= |cs| && n < |p.items|
    requires forall j :: n < j < |p.items| ==> Shape(cs, p.items[j])
    ensures forall j :: n < j < |p.items| ==>
      Shape(Retarget(cs, Ends(p.items[n]), Succ(p.items, n, NoNode)), p.items[j])
  {
    var items, k := p.items, Succ(p.items, n, NoNode);
    var cs2 := Retarget(cs, Ends(items[n]), k);
    Bounds(p, false);
    assert Children(p) == items;
    EndsWithin(items[n]);
    RetargetOutside(cs, Ends(items[n]), k, Start(items[n], false), End(items[n], false));
    forall j | n < j < |items| ensures Shape(cs2, items[j]) {
      assert End(items[n], false) <= Start(items[j], false);
      ShapeFrame(cs, cs2, items[j]);
    }
  }

  /** Retargeting cells of the block `[a, b)` keeps every cell outside it. */
  lemma RetargetOutside(cs: seq<Cell>, tails: set<nat>, k: Link, a: nat, b: nat)
    requires forall t :: t in tails ==> a <= t < b
    ensures forall c :: 0 <= c < |cs| && !(a <= c < b) ==> Retarget(cs, tails, k)[c] == cs[c]
  {
    forall c | 0 <= c < |cs| && !(a <= c < b) ensures Retarget(cs, tails, k)[c] == cs[c] {
      assert c !in tails;
    }
  }

  /** Retargeting cells of the block `[a, b)` right after the block
      `[s, m)` keeps every cell outside `[s, b)`. */
  lemma RetargetFrame(cs: seq<Cell>, cs1: seq<Cell>, tails: set<nat>, k: Link, s: nat, m: nat, a: nat, b: nat)
    requires |cs1| == |cs| && s <= a && m <= a <= b
    requires forall t :: t in tails ==> a <= t < b
    requires forall c :: 0 <= c < |cs| && !(s <= c < m) ==> cs1[c] == cs[c]
    ensures forall c :: 0 <= c < |cs| && !(s <= c < b) ==> Retarget(cs1, tails, k)[c] == cs[c]
  {
    forall c | 0 <= c < |cs| && !(s <= c < b) ensures Retarget(cs1, tails, k)[c] == cs[c] {
      assert c !in tails;
      assert !(s <= c < m);
    }
  }

  // ---------------------------------------------------------------------------

  class Graph {
    var cells: seq<Cell>
    /** For each node, the index of the token at which it starts. */
    ghost var lo: seq<nat>
    /** A bound on those indices. */
    ghost const bound: nat

    ghost predicate Valid()
      reads this
    {
      Ordered(cells, lo, bound)
    }

    predicate Live(r: Link)
      reads this
    {
      r.To? ==> r.id < |cells|
    }

    /** Decreases along every link that the output follows. */
    ghost function Rank(r: Link): nat
      requires Valid() && Live(r)
      reads this
    {
      match r
      case To(id) => 2 * (bound - lo[id]) + (if cells[id].SpanNode? then 2 else 1)
      case _ => 0
    }

    constructor (ghost bound: nat)
      ensures Valid() && cells == [] && lo == [] && this.bound == bound
    {
      cells := [];
      lo := [];
      this.bound := bound;
    }

    // -------------------------------------------------------------------------
    // Output: output_node and the `output` methods.

    /** What output_node gives `output_func` for `r` and `prefix`: the
        prefix for `None`, a stop for a successor never assigned, and
        otherwise what the node's `output` gives. */
    function Output(r: Link, prefix: string): Emitted
      requires Valid() && Live(r)
      reads this
      decreases Rank(r), 1, 0
    {
      match r
      case Unset => Emitted([], true)
      case NoNode => Emitted([prefix], false)
      case To(id) =>
        assert LinkedAt(cells, lo, id);
        match cells[id]
        case LiteralNode(value, next) => Output(next, prefix + value)
        case SpanNode(nodes, next) => if nodes != [] then Output(To(nodes[0]), prefix) else Output(next, prefix)
        case VariantNode(nodes, next) => if nodes != [] then AltOutput(id, 0, prefix) else Output(next, prefix)
    }

    /** The output of the alternatives of variant `id` from the `j`-th on. */
    function AltOutput(id: nat, j: nat, prefix: string): Emitted
      requires Valid() && id < |cells| && cells[id].VariantNode? && j <= |cells[id].nodes|
      reads this
      decreases Rank(To(id)), 0, |cells[id].nodes| - j
    {
      if j == |cells[id].nodes| then Emitted([], false)
      else
        assert LinkedAt(cells, lo, id);
        Then(Output(To(cells[id].nodes[j]), prefix), AltOutput(id, j + 1, prefix))
    }

    /** Each string of `ws`, appended to `prefix`, continued with what `k`
        outputs for it. */
    ghost function Follow(ws: seq<string>, k: Link, prefix: string): Emitted
      requires Valid() && Live(k)
      reads this
    {
      if ws == [] then Emitted([], false) else Then(Output(k, prefix + ws[0]), Follow(ws[1..], k, prefix))
    }

    lemma {:induction false} FollowAppend(a: seq<string>, b: seq<string>, k: Link, prefix: string)
      requires Valid() && Live(k)
      ensures Follow(a + b, k, prefix) == Then(Follow(a, k, prefix), Follow(b, k, prefix))
      decreases a
    {
      if a == [] {
        assert a + b == b;
        assert Follow(b, k, prefix).lines == [] + Follow(b, k, prefix).lines;
      } else {
        assert (a + b)[1..] == a[1..] + b;
        FollowAppend(a[1..], b, k, prefix);
        ThenAssoc(Output(k, prefix + a[0]), Follow(a[1..], k, prefix), Follow(b, k, prefix));
      }
    }

    lemma {:induction false} FollowPrefixed(a: string, ws: seq<string>, k: Link, prefix: string)
      requires Valid() && Live(k)
      ensures Follow(Prefixed(a, ws), k, prefix) == Follow(ws, k, prefix + a)
      decreases ws
    {
      if ws != [] {
        assert Prefixed(a, ws)[1..] == Prefixed(a, ws[1..]);
        assert prefix + (a + ws[0]) == prefix + a + ws[0];
        FollowPrefixed(a, ws[1..], k, prefix);
      }
    }

    /** Following `heads` into a node that outputs `tails` and then `k`
        follows the product into `k`. */
    lemma {:induction false} FollowProduct(heads: seq<string>, tails: seq<string>, c: Link, k: Link, prefix: string)
      requires Valid() && Live(c) && Live(k)
      requires forall q :: Output(c, q) == Follow(tails, k, q)
      ensures Follow(heads, c, prefix) == Follow(Product(heads, tails), k, prefix)
      decreases heads
    {
      if heads == [] {
        assert Product(heads, tails) == [];
      } else {
        var h, rest := heads[0], heads[1..];
        FollowProduct(rest, tails, c, k, prefix);
        FollowPrefixed(h, tails, k, prefix);
        FollowAppend(Prefixed(h, tails), Product(rest, tails), k, prefix);
        calc {
          Follow(heads, c, prefix);
          Then(Output(c, prefix + h), Follow(rest, c, prefix));
          { assert Output(c, prefix + h) == Follow(tails, k, prefix + h); }
          Then(Follow(Prefixed(h, tails), k, prefix), Follow(Product(rest, tails), k, prefix));
          Follow(Prefixed(h, tails) + Product(rest, tails), k, prefix);
          { assert Product(heads, tails) == Prefixed(h, tails) + Product(rest, tails); }
          Follow(Product(heads, tails), k, prefix);
        }
      }
    }

    /** Following into `None` outputs each string once, after the prefix. */
    lemma {:induction false} FollowNone(ws: seq<string>, prefix: string)
      requires Valid()
      ensures Follow(ws, NoNode, prefix) == Emitted(Prefixed(prefix, ws), false)
      decreases ws
    {
      if ws != [] {
        FollowNone(ws[1..], prefix);
      }
    }

    /** Following a non-empty list into a successor never assigned stops at
        once. */
    lemma FollowUnset(ws: seq<string>, prefix: string)
      requires Valid() && ws != []
      ensures Follow(ws, Unset, prefix) == Emitted([], true)
    {
    }

    /** The output of a node that represents part of a tree: each string of
        that part's denotation, continued with what follows the node. */
    lemma {:induction false} NodeOutput(p: Placed, k: Link, prefix: string)
      requires Valid() && Rep(cells, p, k) && Live(k)
      ensures Output(To(p.id), prefix) == Follow(Meaning(p), k, prefix)
      decreases p, 2, 0
    {
      match p
      case PLit(_, t) =>
        assert Output(k, prefix + t).lines == Output(k, prefix + t).lines + [];
      case PSpan(_, items) =>
        if items == [] {
          assert prefix + "" == prefix && ItemsOf(items) == [];
          assert Output(k, prefix).lines == Output(k, prefix).lines + [];
        } else {
          ChainOutput(p, 0, k, prefix);
          assert ItemsOf(items)[0..] == ItemsOf(items);
        }
      case PVar(_, alts) =>
        AltsOutput(p, 0, k, prefix);
        assert SpansOf(alts)[0..] == SpansOf(alts);
    }

    lemma {:induction false} ChainOutput(p: Placed, j: nat, k: Link, prefix: string)
      requires Valid() && p.PSpan? && Rep(cells, p, k) && Live(k)
      requires j < |p.items| && p.items[j].id < |cells|
      ensures Output(To(p.items[j].id), prefix) == Follow(DenoteSpan(ItemsOf(p.items)[j..]), k, prefix)
      decreases p, 1, |p.items| - j
    {
      var items := p.items;
      var xs := ItemsOf(items);
      var c := Succ(items, j, k);
      NodeOutput(items[j], c, prefix);
      assert xs[j..][1..] == xs[j + 1..];
      if j + 1 < |items| {
        forall q ensures Output(c, q) == Follow(DenoteSpan(xs[j + 1..]), k, q) {
          ChainOutput(p, j + 1, k, q);
        }
        FollowProduct(DenoteItem(xs[j]), DenoteSpan(xs[j + 1..]), c, k, prefix);
      } else {
        assert xs[j + 1..] == [];
        ProductUnit(DenoteItem(xs[j]));
      }
    }

    lemma {:induction false} AltsOutput(p: Placed, j: nat, k: Link, prefix: string)
      requires Valid() && p.PVar? && Rep(cells, p, k) && Live(k) && j <= |p.alts|
      ensures AltOutput(p.id, j, prefix) == Follow(DenoteAlts(SpansOf(p.alts)[j..]), k, prefix)
      decreases p, 1, |p.alts| - j
    {
      var spans := SpansOf(p.alts);
      if j < |p.alts| {
        NodeOutput(p.alts[j], k, prefix);
        AltsOutput(p, j + 1, k, prefix);
        assert spans[j..][1..] == spans[j + 1..];
        FollowAppend(DenoteSpan(spans[j].items), DenoteAlts(spans[j + 1..]), k, prefix);
      }
    }

    /** The output of a root span that represents the tree `xs`: each string
        of the denotation once, in order, if the span has items; otherwise
        the unassigned successor of the span stops it before anything is
        output. */
    lemma RootOutput(p: Placed, xs: seq<Item>)
      requires Valid() && p.PSpan? && ItemsOf(p.items) == xs
      requires Rep(cells, p, if xs == [] then Unset else NoNode)
      ensures Output(To(p.id), "") == if xs == [] then Emitted([], true) else Emitted(DenoteSpan(xs), false)
    {
      if xs == [] {
        assert Output(To(p.id), "") == Output(Unset, "");
      } else {
        NodeOutput(p, NoNode, "");
        FollowNone(DenoteSpan(xs), "");
        PrefixedNothing(DenoteSpan(xs));
      }
    }

    // -------------------------------------------------------------------------
    // Construction and linking.

    /** `Literal(value)`: its successor is not assigned yet. */
    method NewLiteral(value: string, ghost at: nat) returns (id: nat)
      requires Valid() && at < bound
      modifies this
      ensures Valid() && id == old(|cells|)
      ensures cells == old(cells) + [LiteralNode(value, Unset)] && lo == old(lo) + [at]
    {
      OrderedAppend(cells, lo, bound, LiteralNode(value, Unset), at);
      id := |cells|;
      cells := cells + [LiteralNode(value, Unset)];
      lo := lo + [at];
    }

    /** `Variant(nodes)`. */
    method NewVariant(nodes: seq<nat>, ghost at: nat) returns (id: nat)
      requires Valid() && at < bound
      requires forall j :: 0 <= j < |nodes| ==> nodes[j] < |cells| && at < lo[nodes[j]]
      modifies this
      ensures Valid() && id == old(|cells|)
      ensures cells == old(cells) + [VariantNode(nodes, Unset)] && lo == old(lo) + [at]
    {
      OrderedAppend(cells, lo, bound, VariantNode(nodes, Unset), at);
      id := |cells|;
      cells := cells + [VariantNode(nodes, Unset)];
      lo := lo + [at];
    }

    /** `set_next` on the node `id`, which stands for the placed tree `p`:
        a literal takes `k` as its successor, a span passes it to its last
        item or, when empty, takes it itself, a variant passes it to each
        of its alternatives. So exactly the ends of `p` get `k`. */
    method SetNext(id: nat, k: Link, ghost p: Placed)
      requires Valid() && Path(cells, p) && p.id == id && Live(k)
      requires k.To? ==> forall t :: t in Ends(p) ==> t < |lo| && lo[t] < lo[k.id]
      modifies this
      ensures Valid() && lo == old(lo)
      ensures cells == Retarget(old(cells), Ends(p), k)
      decreases p
    {
      match cells[id]
      case LiteralNode(value, _) =>
        OrderedUpdate(cells, lo, bound, id, k);
        cells := cells[id := LiteralNode(value, k)];
      case SpanNode(nodes, _) =>
        if nodes != [] {
          SetNext(nodes[|nodes| - 1], k, Last(p.items));
        } else {
          OrderedUpdate(cells, lo, bound, id, k);
          cells := cells[id := SpanNode(nodes, k)];
        }
      case VariantNode(nodes, _) =>
        ghost var cells0 := cells;
        for j := 0 to |nodes|
          invariant Valid() && lo == old(lo)
          invariant cells == Retarget(cells0, AltEnds(p.alts[..j]), k)
          invariant Path(cells, p)
        {
          var alt := p.alts[j];
          forall t | t in Ends(alt) ensures t in Ends(p) {
            AltEndsHas(p.alts, j, t);
          }
          ghost var before := cells;
          SetNext(nodes[j], k, alt);
          PathRetarget(before, p, Ends(alt), k);
          RetargetTwice(cells0, AltEnds(p.alts[..j]), Ends(alt), k);
          AltEndsSnoc(p.alts, j);
        }
        assert p.alts[..|nodes|] == p.alts;
    }

    /** `Span(nodes)`, where `nodes` stand for `items`: the new span node,
        then set_next on each item with the next item, and on the last item
        with `None`. */
    method NewSpan(nodes: seq<nat>, ghost at: nat, ghost items: seq<Placed>) returns (id: nat)
      requires Valid() && at < bound && nodes == IdsOf(items)
      requires nodes != [] ==> nodes[0] < |cells| && at <= lo[nodes[0]] && !cells[nodes[0]].SpanNode?
      requires forall j :: 0 <= j < |items| ==> Path(cells, items[j])
      requires EndsPrecede(lo, items)
      modifies this
      ensures Valid() && id == old(|cells|) && lo == old(lo) + [at]
      ensures cells == Linked(old(cells) + [SpanNode(nodes, Unset)], items, |items|)
    {
      OrderedAppend(cells, lo, bound, SpanNode(nodes, Unset), at);
      id := |cells|;
      cells := cells + [SpanNode(nodes, Unset)];
      lo := lo + [at];
      ghost var cells0 := cells;
      forall j | 0 <= j < |items| ensures Path(cells, items[j]) {
        PathFrame(old(cells), cells, items[j]);
      }
      for j := 0 to |nodes|
        invariant Valid() && lo == old(lo) + [at] && EndsPrecede(lo, items)
        invariant cells == Linked(cells0, items, j)
        invariant forall m :: j <= m < |items| ==> Path(cells, items[m])
      {
        LinkItem(nodes, items, j, cells0);
      }
    }

    /** One step of the span constructor: the `j`-th item gets the next
        item, or `None` when it is the last. */
    method LinkItem(nodes: seq<nat>, ghost items: seq<Placed>, j: nat, ghost cells0: seq<Cell>)
      requires Valid() && nodes == IdsOf(items) && j < |items| && EndsPrecede(lo, items)
      requires cells == Linked(cells0, items, j)
      requires forall m :: j <= m < |items| ==> Path(cells, items[m])
      modifies this
      ensures Valid() && lo == old(lo)
      ensures cells == Linked(cells0, items, j + 1)
      ensures forall m :: j + 1 <= m < |items| ==> Path(cells, items[m])
    {
      ghost var before := cells;
      var next := if j + 1 < |nodes| then To(nodes[j + 1]) else NoNode;
      assert next == Succ(items, j, NoNode);
      assert next.To? ==> forall t :: t in Ends(items[j]) ==> t < |lo| && lo[t] < lo[next.id];
      SetNext(nodes[j], next, items[j]);
      forall m | j + 1 <= m < |items| ensures Path(cells, items[m]) {
        PathRetarget(before, items[m], Ends(items[j]), next);
      }
    }
  }

  /** Every end of an item starts earlier than the item after it. */
  ghost predicate EndsPrecede(lo: seq<nat>, items: seq<Placed>) {
    forall j, t :: 0 <= j < |items| - 1 && t in Ends(items[j]) ==>
      t < |lo| && items[j + 1].id < |lo| && lo[t] < lo[items[j + 1].id]
  }

  /** Appending cells keeps a path. */
  lemma {:induction false} PathFrame(cs: seq<Cell>, cs': seq<Cell>, p: Placed)
    requires Path(cs, p) && |cs| <= |cs'| && cs'[..|cs|] == cs[..]
    ensures Path(cs', p)
    decreases p
  {
    assert cs'[p.id] == cs'[..|cs|][p.id];
    match p
    case PLit(_, _) =>
    case PSpan(_, items) =>
      if items != [] {
        PathFrame(cs, cs', Last(items));
      }
    case PVar(_, alts) =>
      forall j | 0 <= j < |alts| ensures Path(cs', alts[j]) {
        PathFrame(cs, cs', alts[j]);
      }
  }
}
