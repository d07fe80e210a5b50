/** The parser of __main__.py, written as functions over tokens. It never
    gives up: where myparser.py raises, it prints a message and carries on
    with what it has, and it lets spans be empty. `notes` lists the
    messages printed, in order. */
module Lenient {
  import opened Lexing
  import opened Syntax
  import opened Grammar

  /** A span as parse_span returns it, with the messages printed while it
      was read. */
  datatype LooseSpan = LooseSpan(items: seq<Item>, stop: Token, next: nat, notes: seq<ParseError>)

  /** A variant as parse_variant returns it, with the messages printed. */
  datatype LooseVariant = LooseVariant(item: Item, next: nat, notes: seq<ParseError>)

  /** What parse_variant prints when the span it read ended on `stop`. */
  function VariantNote(stop: Token): seq<ParseError> {
    if stop.kind == RightBrace || stop.kind == Comma then []
    else if stop.kind == End then [MissingRightBrace]
    else [UnexpectedToken(stop.value)]
  }

  /** parse_span, after it has collected `acc` and read `i` tokens. */
  function LooseSpanFrom(ts: seq<Token>, i: nat, acc: seq<Item>): (r: LooseSpan)
    requires i <= |ts|
    ensures i <= r.next <= |ts| && Stops(r.stop)
    ensures r.stop.kind != End ==> i < r.next
    decreases |ts| - i, 0
  {
    var t := TokenAt(ts, i);
    if t.kind == Literal then
      LooseSpanFrom(ts, i + 1, acc + [Lit(t.value)])
    else if t.kind == LeftBrace then
      var v := LooseVariantFrom(ts, i + 1, []);
      var r := LooseSpanFrom(ts, v.next, acc + [v.item]);
      r.(notes := v.notes + r.notes)
    else
      LooseSpan(acc, t, Advance(ts, i), [])
  }

  /** parse_variant, after it has collected `alts` and read `i` tokens. */
  function LooseVariantFrom(ts: seq<Token>, i: nat, alts: seq<Span>): (r: LooseVariant)
    requires i <= |ts|
    ensures i <= r.next <= |ts| && r.item.Var? && r.item.alts != []
    decreases |ts| - i, 1
  {
    var sp := LooseSpanFrom(ts, i, []);
    var alts' := alts + [Span(sp.items)];
    if sp.stop.kind == Comma then
      var r := LooseVariantFrom(ts, sp.next, alts');
      r.(notes := sp.notes + r.notes)
    else
      LooseVariant(Var(alts'), sp.next, sp.notes + VariantNote(sp.stop))
  }

  /** parse, on stripped text: the root span and every message printed. */
  function LooseParseText(t: string): (seq<Item>, seq<ParseError>) {
    var r := LooseSpanFrom(Tokenize(t), 0, []);
    (r.items, r.notes + (if r.stop.kind != End then [TrailingToken(r.stop.value)] else []))
  }

  /** parse: the tokenizer strips the input first. */
  function LooseParse(s: string): (seq<Item>, seq<ParseError>) {
    LooseParseText(Strip(s))
  }
}
