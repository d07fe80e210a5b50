# Brace expansion, modelled in Dafny

The repository expands bash-style brace expressions: `a{b,{c,d}e}` stands
for `ab`, `ace` and `ade`. It holds two copies of the expander:

- `myparser.py`, the strict one. A tokenizer splits the stripped line into
  literals, braces and commas. A recursive-descent parser (`parse_span`,
  `parse_variant`, `parse`) builds a graph of `Literal`, `Span` and `Variant`
  objects linked through their successors. `strings` walks that graph to
  generate the expansions. Malformed input raises `ValueError`.
- `__main__.py`, an older and lenient one with the same tokenizer. Its
  parser prints a message and carries on where `myparser.py` raises, and it
  allows empty alternatives. Its nodes hand each expansion to a callback
  (`output`, `output_node`).

The model keeps both copies, side by side:

- `lexing.dfy`: the tokenizer, as a class with the stripped text and the
  position it updates. Beside it, the pure tokenizing function and its
  properties: the tokens spell the text back, and the tokens are lexical.
- `syntax.dfy`: expression trees (a span of items; an item is a literal or
  a variant of spans). For each tree it defines the printed text, the
  tokens, well-formedness and the meaning, which is the list of expansions.
- `grammar.dfy`: the parser of `myparser.py` as functions over tokens, and
  `Expand`, the reference meaning of `process_expression`.
  `grammar_facts.dfy` and `language.dfy` prove that the parser accepts
  exactly the printed forms of well-formed trees and gives back that tree.
- `nodes.dfy` and `parser.dfy`: the node objects of `myparser.py` as a
  class `Graph` over an arena of cells. A reference to an object is the
  number of its cell. The parsing routines are methods that drive the
  `Tokenizer` and build the graph in place. They are proved against the
  functional parser, and the linked traversal is proved to equal the
  meaning of the parsed tree.
- `lenient.dfy`, `lenient_facts.dfy`, `main_nodes.dfy` and
  `main_parser.dfy` do the same for `__main__.py`. Printed messages are
  returned as a list of `ParseError`s. What reaches `output_func` is an
  `Emitted` value: the lines, in order, and whether output stopped. It
  stops at a successor attribute that was never assigned, which raises in
  Python. The lenient parser is proved to agree with the strict one
  whenever it prints nothing.
- `examples.dfy`: lines of the test table, worked through both copies.
  Each is stated for arbitrary words in place of the test's letters.

Where the code and its test table disagree, the model follows the code.
The one such case is listed under "## Findings".

## Model

| member | source | states |
|---|---|---|
| Lexing.Tokenizer.constructor | myparser.py:27-29 | the tokenizer holds the input stripped of blanks at both ends and starts at position 0 |
| Lexing.Strip | myparser.py:28 | the result is the input minus its leading blanks and a blank-only tail; a non-empty result neither starts nor ends with a blank |
| Lexing.StripKeeps | myparser.py:28 | a text with no blank at either end is not changed by stripping |
| Lexing.StripIdempotent | myparser.py:28 | stripping a stripped text changes nothing |
| Lexing.Tokenizer.NextToken | myparser.py:41-55 | the token returned and the new position are one step of the scanner from the old position: End without moving once the text is used up, otherwise the longest literal run or one special character; __main__.py, lines 41-55, has the same method |
| Lexing.EndIsStable | myparser.py:42-43 | at the end of the text every further call returns End and stays put |
| Lexing.JoinTokens | myparser.py:41-55 | joining the values of all tokens gives back the stripped text: nothing is lost or repeated |
| Lexing.TokensAreLexical | myparser.py:46-55 | every literal token is non-empty and free of special characters, every symbol token carries its own character, and two literals never follow each other |
| Syntax.ProductLength | myparser.py:106-109 | prefixing every tail with every head yields heads times tails strings |
| Syntax.SpanCount | myparser.py:95-109 | the number of expansions of a tree is the product over a span's items and the sum over a variant's alternatives |
| Syntax.ProductUnit | myparser.py:60-61 | following every string with the end node, which yields its prefix unchanged, gives back the same strings |
| Syntax.PrefixedNothing | myparser.py:149 | starting `strings` from the empty prefix leaves every expansion as it is |
| Syntax.ProductAssoc | myparser.py:74-75 | passing a longer prefix on node by node is associative: expanding the expansions of a and b by c is expanding a by the expansions of b and c |
| Syntax.DenoteSpanAppend | myparser.py:85-96 | a span written after another expands to every expansion of the first followed by every expansion of the second, the first varying slowest |
| Syntax.DenoteAltsAppend | myparser.py:106-109 | a variant's expansions split between any two groups of its alternatives: all of the first group's, then all of the second's |
| Syntax.PrintAltsAppend | myparser.py:127-130 | two non-empty groups of alternatives are written with one comma between them |
| Syntax.WellFormedAppend | myparser.py:46-50 | a span written after another is one the parser can produce exactly when both are and no two literal runs meet where they join |
| Grammar.SpanFrom | myparser.py:111-122 | the loop of parse_span: it reads forward, stops at a comma, right brace or End, and without empty spans allowed returns at least one item |
| Grammar.VariantFrom | myparser.py:124-139 | the loop of parse_variant: a successful read moves past the closing brace and yields a variant |
| GrammarFacts.SpanSound | myparser.py:111-122 | what parse_span returns is the collected items followed by well-formed items whose tokens, plus the stop token, are exactly the tokens read |
| GrammarFacts.VariantSound | myparser.py:124-139 | what parse_variant returns is well-formed alternatives whose tokens, joined by commas and closed by a brace, are exactly the tokens read |
| GrammarFacts.SpanComplete | myparser.py:111-122 | on the tokens of a well-formed span followed by a comma, brace or the end, parse_span returns exactly that span and stops on that token |
| GrammarFacts.VariantComplete | myparser.py:124-139 | on the tokens of well-formed alternatives followed by a right brace, parse_variant returns exactly that variant |
| Language.ParseTextExact | myparser.py:141-145 | parse accepts a stripped text with result `xs` if and only if the text is the printed form of the well-formed tree `xs` |
| Nodes.Graph.NewLiteral | myparser.py:66-69 | adds a literal object whose successor is `Empty.node`; nothing else changes |
| Nodes.Graph.NewSpan | myparser.py:79-80 | adds a span object whose first and last node are `Empty.node` |
| Nodes.Graph.NewVariant | myparser.py:98-100 | adds a variant object holding the given alternatives |
| Nodes.Graph.Append | myparser.py:85-90 | into an empty span the node becomes first and last; otherwise every tail of the old last node is linked to the node and it becomes the last |
| Nodes.Graph.SetNext | myparser.py:71-104 | a literal takes the given successor (lines 71-72), a span passes it to its last node (lines 92-93), a variant passes it to every alternative (lines 102-104); exactly the tails of the node are relinked and no other cell changes |
| Nodes.Graph.NodeStrings | myparser.py:74-75 | the strings of a node linked on to `k` are its meaning, each followed by the strings of `k` |
| Nodes.Graph.ChainStrings | myparser.py:95-96 | the strings from the j-th item of a span are the meaning of the items from j on, followed by what comes after |
| Nodes.Graph.AltsStrings | myparser.py:106-109 | a variant yields the strings of its alternatives one alternative after another, in order |
| Nodes.Graph.RootStrings | myparser.py:147-149 | `strings("")` of a root span ending in `Empty.node` is the meaning of its tree |
| Parser.AppendLiteral | myparser.py:115-116 | a literal token appends a literal node, and the span built so far still matches the items read |
| Parser.AppendVariant | myparser.py:117-118 | a left brace appends the variant parse_variant builds, or passes on its error |
| Parser.SpanStep | myparser.py:113-122 | one turn of the loop keeps the graph matching the items read so far; at a stop it returns the span or the "Empty span" error exactly as the functional parser does |
| Parser.ParseSpan | myparser.py:111-122 | fails exactly when the functional parse_span fails, with the same error; otherwise returns the stop token, leaves the tokenizer after it and has built a span node for the parsed items |
| Parser.AddAlternative | myparser.py:127-128 | parses one more alternative and adds it, or passes on its error |
| Parser.MakeVariant | myparser.py:139 | builds the variant object over the gathered alternatives |
| Parser.VariantStep | myparser.py:127-137 | one turn of parse_variant's loop: a comma continues; a right brace finishes the variant; End or another token gives the error the functional parser gives |
| Parser.ParseVariant | myparser.py:124-139 | fails exactly when the functional parse_variant fails, with its error; otherwise builds a variant node for the parsed item |
| Parser.Parse | myparser.py:141-145 | errors are those of the functional parse, including "parsing terminated" for a leftover token; on success the root's `strings("")` is the meaning of the parsed tree |
| Parser.ProcessExpression | myparser.py:147-151 | the expansions, or the error raised, are those of `Expand`: `[""]` for the empty line, otherwise the meaning of the parsed tree |
| Lenient.LooseSpanFrom | __main__.py:120-129 | parse_span of the lenient copy stops at a comma, right brace or End and always returns a span |
| Lenient.LooseVariantFrom | __main__.py:131-146 | parse_variant of the lenient copy always returns a variant with at least one alternative |
| LenientFacts.LooseSpanAgrees | __main__.py:120-129 | the lenient parse_span prints nothing exactly when the strict loop with empty spans allowed succeeds; then both give the same span, otherwise the first message is the strict error |
| LenientFacts.LooseVariantAgrees | __main__.py:131-146 | the same agreement for parse_variant, whose messages are "Missing right brace" and "Unexpected token" |
| LenientFacts.LooseParseAgrees | __main__.py:148-152 | the lenient parse prints nothing exactly when the strict reading with empty spans allowed accepts, and then gives its tree; otherwise its first message is that reading's error |
| LenientFacts.LooseParseExact | __main__.py:148-152 | the lenient parse gives the tree `xs` with no message if and only if the text is the printed form of `xs`, well formed with empty spans allowed |
| LenientFacts.StrictIsLoose | __main__.py:148-152 | whatever myparser.py accepts, the lenient copy reads into the same tree and prints nothing |
| MainNodes.Then | __main__.py:109-112 | one output after another: an output that stopped absorbs what was to follow, emitting nothing is a unit on either side, and lines already emitted are never taken back |
| MainNodes.ThenAssoc | __main__.py:109-112 | chaining outputs is associative |
| MainNodes.Graph.NewLiteral | __main__.py:63-65 | adds a literal object whose successor was never assigned |
| MainNodes.Graph.NewSpan | __main__.py:77-82 | adds a span object over the given nodes and links each node to the next one, the last to `None` |
| MainNodes.Graph.LinkItem | __main__.py:81-82 | one pair of adjacent nodes: the first is linked to the second, or the last to `None` |
| MainNodes.Graph.NewVariant | __main__.py:98-100 | adds a variant object holding the given alternatives |
| MainNodes.Graph.SetNext | __main__.py:67-107 | a literal takes the given successor (lines 67-68), a span passes it to its last node or keeps it when it has none (lines 84-88), a variant passes it to every alternative (lines 102-105); exactly the ends of the node are relinked |
| MainNodes.Graph.FollowUnset | __main__.py:57-61 | moving on to a successor that was never assigned stops the output with nothing more emitted |
| MainNodes.Graph.NodeOutput | __main__.py:70-71 | the output of a node linked on to `k` is its meaning, each followed by what `k` outputs, stopping where an unassigned successor is reached |
| MainNodes.Graph.ChainOutput | __main__.py:90-92 | a span outputs the meaning of its items from the j-th on, followed by its successor |
| MainNodes.Graph.AltsOutput | __main__.py:109-112 | a variant outputs its alternatives one after another, in order |
| MainNodes.Graph.RootOutput | __main__.py:154-155 | a root span outputs the meaning of its tree, or stops at once when it is empty, since its successor is never assigned |
| MainParser.AppendLiteral | __main__.py:124-125 | a literal token appends a literal node, keeping the graph matching the items read |
| MainParser.AppendVariant | __main__.py:126-127 | a left brace appends the variant parse_variant builds and adds its messages |
| MainParser.SpanStep | __main__.py:122-129 | one turn of the loop keeps the graph matching what was read; at a stop it has the items, stop token and messages of the functional parse_span |
| MainParser.FinishSpan | __main__.py:129 | the span object is built over the nodes read and linked to the functional span's items |
| MainParser.ParseSpan | __main__.py:120-129 | returns the functional parse_span's stop token and messages, leaves the tokenizer after the stop, and builds a span node for its items |
| MainParser.VariantStep | __main__.py:133-144 | one turn of parse_variant's loop: a comma continues; otherwise the variant is complete, with "Missing right brace" for End and "Unexpected token" for any other token |
| MainParser.CloseVariant | __main__.py:139-146 | adds the message for the token that ended the variant and builds the variant object |
| MainParser.ParseVariant | __main__.py:131-146 | returns the functional parse_variant's messages and builds a variant node for its item |
| MainParser.Parse | __main__.py:148-152 | the messages are those of the functional parse, with "parsing terminated" for a leftover token; the root's output is the meaning of the tree, or a stop when the root span is empty |
| MainParser.ProcessExpression | __main__.py:154-155 | what reaches `output_func`, and the messages, are `Outcome` of the line |
| MainParser.StrictAgrees | __main__.py:154-155 | on every non-empty line myparser.py expands, the lenient copy outputs the same expansions, in the same order, and prints nothing |
| Examples.ChoiceMeaning | tests.py:22 | a variant whose alternatives are single words, like `{a,b,c}`, expands to those words in the order written |
| Examples.ExpandNested | tests.py:19 | `a{b,{c,d}e}` expands to ab, ace, ade in that order |
| Examples.ExpandProduct | tests.py:18 | `{a,b}{c,d}` expands to ac, ad, bc, bd |
| Examples.StrictStopsAtStart | tests.py:28 | every line whose stripped text starts with `}` or `,` is rejected with "Empty span is not allowed" |
| Examples.StrictMissingBrace | tests.py:29 | `{abc` is rejected with "Missing right brace at the end of string" |
| Examples.StrictTrailingComma | tests.py:32 | `a,b,c` is rejected at its first comma with "parsing terminated" |
| Examples.StrictRejectsEmptyVariant | myparser.py:120-121 | `{}` is rejected with "Empty span is not allowed" |
| Examples.StrictRejectsEmptyLast | myparser.py:120-121 | `{a,}` is rejected with "Empty span is not allowed" |
| Examples.RootStops | __main__.py:90-92 | the lenient copy stops output without emitting anything exactly when the stripped line is empty or starts with `}` or `,` |
| Examples.LooseEmptyVariant | __main__.py:120-129 | the lenient copy outputs the empty string for `{}` and prints nothing |
| Examples.LooseEmptyLast | __main__.py:120-129 | the lenient copy outputs a and then the empty string for `{a,}` and prints nothing |
| Examples.LooseMissingBrace | __main__.py:141-142 | for `{abc` the lenient copy prints "Missing right brace" and still outputs abc |
| Examples.LooseTrailingComma | __main__.py:150-151 | for `a,b,c` the lenient copy outputs a and prints "parsing terminated" for the comma |

## Left out

- The stdin loop of `__main__.py` (lines 157-159) and the streams the messages go to. Messages are returned as a list in order; which of stdout and stderr each goes to is not modelled.
- Generators: `strings` yields lazily in Python. The model computes the whole list, in the same order.
- The `__str__` methods of both copies: they are debugging aids and play no part in expansion.
- MainNodes.Graph.SetNext: for a variant with no alternatives it changes nothing. `__main__.py`, lines 106-107, would raise there, because the name `node` is undefined. `parse_variant` always adds at least one span, so no such variant is ever built. The matching `Variant.output` branch (lines 113-114) is modelled.
- The `UnexpectedToken` error of `parse_variant` in `myparser.py` (line 137) is not reachable. Every span stops at a comma, right brace or End, so that branch is modelled but never taken.
- Object identity is modelled by cell numbers in an arena. Aliasing between separately built graphs is not modelled.
- The tests whose expected result is a set (tests.py, lines 14-34) are compared as lists in written order, which is stronger. Lines 15-17, 20 and 22-27 and 33 are not worked through individually. Their behaviour follows from `Language.ParseTextExact` and `Parser.ProcessExpression`.
- `Examples` lemmas state the test lines for arbitrary words in place of the single letters. Words are non-empty, free of `{`, `}` and `,`, and, where they stand at either end of the line, free of blanks at that end.

## Findings

| source | as written | input that shows it | evidently intended | confidence | as-written member | corrected member |
|---|---|---|---|---|---|---|
| myparser.py:120-121 | `parse_span` raises "Empty span is not allowed" for every empty span, so an empty alternative is rejected | `{}` and `{a,}` | `[""]` and `["a", ""]`, as tests.py, lines 31 and 34, expect; an empty alternative reads as the empty string | not executed; the tests contradict the code, so the intent is inferred from them | Examples.StrictRejectsEmptyVariant, Examples.StrictRejectsEmptyLast | Examples.LooseEmptyVariant, Examples.LooseEmptyLast |

The corrected behaviour is that of `Grammar.ParseText` with empty spans
allowed, which `LenientFacts.LooseParseAgrees` shows `__main__.py`
follows. `Parser.ProcessExpression` keeps the code as written.
