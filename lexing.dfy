/** The tokenizer shared, character for character, by both copies of the
    expander (myparser.py and __main__.py). */
module Lexing {

  datatype TokenKind = LeftBrace | RightBrace | Comma | Literal | End

  /** A token; `value` is the text it was scanned from ("" for End). */
  datatype Token = Token(kind: TokenKind, value: string)

  /** The characters that the constructor strips from both ends. */
  predicate IsBlank(c: char) {
    c == ' ' || c == '\t' || c == '\n' || c == '\r'
  }

  /** The characters of the token map; end of input counts as special too. */
  predicate IsSpecial(c: char) {
    c == '{' || c == '}' || c == ','
  }

  /** The token map: the kind of each special character. */
  function KindOf(c: char): (k: TokenKind)
    requires IsSpecial(c)
    ensures k != Literal && k != End
  {
    if c == '{' then LeftBrace else if c == '}' then RightBrace else Comma
  }

  /** The number of blanks at the front of `s`. */
  function LeadingBlanks(s: string): (n: nat)
    ensures n <= |s|
    ensures forall k :: 0 <= k < n ==> IsBlank(s[k])
    ensures n < |s| ==> !IsBlank(s[n])
  {
    if s != [] && IsBlank(s[0]) then 1 + LeadingBlanks(s[1..]) else 0
  }

  /** Removes trailing blanks. */
  function StripRight(s: string): (r: string)
    ensures |r| <= |s| && r == s[..|r|]
    ensures forall k :: |r| <= k < |s| ==> IsBlank(s[k])
    ensures r != [] ==> !IsBlank(r[|r| - 1])
  {
    if s != [] && IsBlank(s[|s| - 1]) then StripRight(s[..|s| - 1]) else s
  }

  /** `s.strip(" \t\n\r")`: what lies between the leading blanks and a
      blank-only suffix; interior characters are kept as they are. */
  function Strip(s: string): (r: string)
    ensures LeadingBlanks(s) + |r| <= |s|
    ensures r == s[LeadingBlanks(s)..LeadingBlanks(s) + |r|]
    ensures forall k :: LeadingBlanks(s) + |r| <= k < |s| ==> IsBlank(s[k])
    ensures r != [] ==> !IsBlank(r[0]) && !IsBlank(r[|r| - 1])
  {
    var i := LeadingBlanks(s);
    var r := StripRight(s[i..]);
    assert forall k :: i + |r| <= k < |s| ==> IsBlank(s[k]) by {
      forall k | i + |r| <= k < |s| ensures IsBlank(s[k]) {
        assert s[k] == s[i..][k - i];
      }
    }
    r
  }

  /** A text with no blank at either end is left as it is. */
  lemma StripKeeps(s: string)
    requires s != [] ==> !IsBlank(s[0]) && !IsBlank(s[|s| - 1])
    ensures Strip(s) == s
  {
    assert s[0..] == s;
  }

  /** Stripping twice strips no more than stripping once. */
  lemma StripIdempotent(s: string)
    ensures Strip(Strip(s)) == Strip(s)
  {
    StripKeeps(Strip(s));
  }

  /** The length of the run of non-special characters that `t` starts with. */
  function RunLength(t: string): (n: nat)
    ensures n <= |t|
    ensures forall k :: 0 <= k < n ==> !IsSpecial(t[k])
    ensures n < |t| ==> IsSpecial(t[n])
  {
    if t != [] && !IsSpecial(t[0]) then 1 + RunLength(t[1..]) else 0
  }

  /** The token that the text `t` starts with and how many characters it
      takes. */
  function ScanText(t: string): (Token, nat) {
    if t == [] then (Token(End, ""), 0)
    else
      var n := RunLength(t);
      if n > 0 then (Token(Literal, t[..n]), n)
      else (Token(KindOf(t[0]), [t[0]]), 1)
  }

  /** One step of the tokenizer on the text `s`: the token found at `pos` and
      the position after it. */
  function Scan(s: string, pos: nat): (r: (Token, nat))
    requires pos <= |s|
    ensures pos <= r.1 <= |s|
  {
    var (t, n) := ScanText(s[pos..]);
    (t, pos + n)
  }

  /** The tokens of `t` before End. */
  function Tokenize(t: string): seq<Token>
    decreases |t|
  {
    if t == [] then []
    else
      var (tok, n) := ScanText(t);
      [tok] + Tokenize(t[n..])
  }

  function Join(ts: seq<Token>): string {
    if ts == [] then "" else ts[0].value + Join(ts[1..])
  }

  /** Joining the values of the tokens gives back the text. */
  lemma {:induction false} JoinTokens(t: string)
    ensures Join(Tokenize(t)) == t
    decreases |t|
  {
    if t != [] {
      var (tok, n) := ScanText(t);
      JoinTokens(t[n..]);
      assert tok.value == t[..n];
      assert t == t[..n] + t[n..];
    }
  }

  /** Once the input is exhausted every further step yields End again and
      stays put. */
  lemma EndIsStable(s: string)
    ensures Scan(s, |s|) == (Token(End, ""), |s|)
  {
    assert s[|s|..] == [];
  }

  lemma {:induction false} JoinAppend(a: seq<Token>, b: seq<Token>)
    ensures Join(a + b) == Join(a) + Join(b)
    decreases a
  {
    if a == [] {
      assert a + b == b;
    } else {
      assert (a + b)[1..] == a[1..] + b;
      JoinAppend(a[1..], b);
    }
  }

  // ---------------------------------------------------------------------------
  // The shape of token lists

  /** The text of a literal token: a non-empty run of non-special characters. */
  predicate LiteralText(t: string) {
    t != [] && forall k :: 0 <= k < |t| ==> !IsSpecial(t[k])
  }

  /** The text of the token of a special character. */
  function Symbol(k: TokenKind): string {
    match k
    case LeftBrace => "{"
    case RightBrace => "}"
    case Comma => ","
    case _ => ""
  }

  /** A token the tokenizer can return before End. */
  predicate WellFormedToken(t: Token) {
    if t.kind == Literal then LiteralText(t.value)
    else t.kind != End && t.value == Symbol(t.kind)
  }

  /** Token lists as the tokenizer produces them: well-formed tokens, and
      never two literals in a row (a literal is a maximal run). */
  predicate Lexical(ts: seq<Token>) {
    ts != [] ==>
      WellFormedToken(ts[0]) &&
      (|ts| > 1 && ts[0].kind == Literal ==> ts[1].kind != Literal) &&
      Lexical(ts[1..])
  }

  /** Every token list the tokenizer produces is lexical. */
  lemma {:induction false} TokensAreLexical(t: string)
    ensures Lexical(Tokenize(t))
    decreases |t|
  {
    if t != [] {
      var (tok, n) := ScanText(t);
      var after := t[n..];
      TokensAreLexical(after);
      var ts := Tokenize(t);
      assert ts[1..] == Tokenize(after);
      if tok.kind == Literal {
        assert LiteralText(tok.value) by {
          forall k | 0 <= k < |tok.value| ensures !IsSpecial(tok.value[k]) {
            assert tok.value[k] == t[k];
          }
        }
        if after != [] {
          assert after[0] == t[n];
        }
      }
    }
  }

  /** What a lexical list says about one position of it. */
  lemma {:induction false} LexicalAt(ts: seq<Token>, i: nat)
    requires Lexical(ts) && i < |ts|
    ensures WellFormedToken(ts[i])
    ensures i + 1 < |ts| && ts[i].kind == Literal ==> ts[i + 1].kind != Literal
    decreases i
  {
    if i > 0 {
      LexicalAt(ts[1..], i - 1);
    }
  }

  class Tokenizer {
    /** The stripped input. */
    const s: string
    var pos: nat

    ghost predicate Valid()
      reads this
    {
      pos <= |s|
    }

    constructor (input: string)
      ensures s == Strip(input) && pos == 0 && Valid()
    {
      s := Strip(input);
      pos := 0;
    }

    /** Returns the next token and advances past it; at the end of input it
        returns End and leaves `pos` alone. */
    method NextToken() returns (t: Token)
      requires Valid()
      modifies this
      ensures Valid()
      ensures (t, pos) == Scan(s, old(pos))
    {
      if pos >= |s| {
        return Token(End, "");
      }
      var initial := pos;
      while pos < |s| && !IsSpecial(s[pos])
        invariant initial <= pos <= |s|
        invariant forall k :: initial <= k < pos ==> !IsSpecial(s[k])
        decreases |s| - pos
      {
        pos := pos + 1;
      }
      RunLengthIs(s[initial..], pos - initial);
      if pos > initial {
        assert s[initial..][..pos - initial] == s[initial..pos];
        return Token(Literal, s[initial..pos]);
      }
      var c := s[pos];
      t := Token(KindOf(c), [c]);
      pos := pos + 1;
    }
  }

  /** The run is as long as the non-special characters before the first
      special one (or the end). */
  lemma {:induction false} RunLengthIs(t: string, n: nat)
    requires n <= |t|
    requires forall k :: 0 <= k < n ==> !IsSpecial(t[k])
    requires n < |t| ==> IsSpecial(t[n])
    ensures RunLength(t) == n
    decreases n
  {
    if n > 0 {
      RunLengthIs(t[1..], n - 1);
    }
  }
}
