/** The parser of myparser.py, written as functions over the tokens of the
    stripped text: `SpanFrom` is the loop of parse_span and `VariantFrom` the
    loop of parse_variant, each carrying what the loop has collected so far
    and how many tokens have been read. */
module Grammar {
  import opened Lexing
  import opened Syntax

  /** The ValueErrors the parser raises. */
  datatype ParseError =
    | EmptySpan
    | MissingRightBrace
    | UnexpectedToken(value: string)
    | TrailingToken(value: string)
  {
    function Message(): string {
      match this
      case EmptySpan => "Empty span is not allowed"
      case MissingRightBrace => "Missing right brace at the end of string"
      case UnexpectedToken(v) => "Unexpected token '" + v + "'"
      case TrailingToken(v) => "Unexpected token '" + v + "', parsing terminated"
    }
  }

  datatype Result<T> = Ok(value: T) | Err(error: ParseError)

  /** A parsed span, the token that ended it and the index of the token
      after that one. */
  datatype SpanParse = SpanParse(items: seq<Item>, stop: Token, next: nat)

  /** A parsed variant and the index of the token after its closing brace. */
  datatype VariantParse = VariantParse(item: Item, next: nat)

  /** A token that may end a span. */
  predicate Stops(t: Token) {
    t.kind == Comma || t.kind == RightBrace || t.kind == End
  }

  /** What next_token returns when `i` tokens of the list `ts` have been
      read: End once the list is used up. */
  function TokenAt(ts: seq<Token>, i: nat): Token {
    if i < |ts| then ts[i] else Token(End, "")
  }

  /** How many tokens have been read after one more call of next_token:
      End does not advance. */
  function Advance(ts: seq<Token>, i: nat): nat {
    if i < |ts| then i + 1 else i
  }

  /** parse_span, after it has appended `acc` and read `i` tokens of `ts`.
      With `emptyOk` false this is the loop of myparser.py, which rejects an
      empty span; with `emptyOk` true it is the loop of __main__.py on input
      that it reports no error for. */
  function SpanFrom(ts: seq<Token>, i: nat, acc: seq<Item>, emptyOk: bool): (r: Result<SpanParse>)
    requires i <= |ts|
    ensures r.Ok? ==> i <= r.value.next <= |ts| && Stops(r.value.stop)
    ensures r.Ok? && r.value.stop.kind != End ==> i < r.value.next
    ensures r.Ok? ==> |acc| < |r.value.items| || (r.value.items == acc && (emptyOk || acc != []))
    decreases |ts| - i, 0
  {
    var t := TokenAt(ts, i);
    if t.kind == Literal then
      SpanFrom(ts, i + 1, acc + [Lit(t.value)], emptyOk)
    else if t.kind == LeftBrace then
      match VariantFrom(ts, i + 1, [], emptyOk)
      case Err(e) => Err(e)
      case Ok(v) => SpanFrom(ts, v.next, acc + [v.item], emptyOk)
    else if acc == [] && !emptyOk then Err(EmptySpan)
    else Ok(SpanParse(acc, t, Advance(ts, i)))
  }

  /** parse_variant, after it has collected the alternatives `alts` and read
      `i` tokens of `ts`. */
  function VariantFrom(ts: seq<Token>, i: nat, alts: seq<Span>, emptyOk: bool): (r: Result<VariantParse>)
    requires i <= |ts|
    ensures r.Ok? ==> i < r.value.next <= |ts| && r.value.item.Var?
    decreases |ts| - i, 1
  {
    match SpanFrom(ts, i, [], emptyOk)
    case Err(e) => Err(e)
    case Ok(sp) =>
      var alts' := alts + [Span(sp.items)];
      if sp.stop.kind == Comma then VariantFrom(ts, sp.next, alts', emptyOk)
      else if sp.stop.kind == RightBrace then Ok(VariantParse(Var(alts'), sp.next))
      else if sp.stop.kind == End then Err(MissingRightBrace)
      else Err(UnexpectedToken(sp.stop.value))
  }

  /** parse, on text that is already stripped. */
  function ParseText(t: string, emptyOk: bool): Result<seq<Item>> {
    match SpanFrom(Tokenize(t), 0, [], emptyOk)
    case Err(e) => Err(e)
    case Ok(sp) =>
      if sp.stop.kind != End then Err(TrailingToken(sp.stop.value)) else Ok(sp.items)
  }

  /** parse: the tokenizer strips the input first. */
  function Parse(s: string): Result<seq<Item>> {
    ParseText(Strip(s), false)
  }

  /** process_expression: the empty string is answered without parsing. */
  function Expand(s: string): Result<seq<string>> {
    if s == "" then Ok([""])
    else match Parse(s)
      case Err(e) => Err(e)
      case Ok(xs) => Ok(DenoteSpan(xs))
  }
}
