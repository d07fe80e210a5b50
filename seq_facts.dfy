/** Small facts about sequences, stated once so that the proofs about the
    parser and the tokenizer can cite them instead of searching for them. */
module SeqFacts {

  lemma Assoc<T>(a: seq<T>, b: seq<T>, c: seq<T>)
    ensures a + b + c == a + (b + c)
  {
  }

  lemma Assoc3<T>(a: seq<T>, b: seq<T>, c: seq<T>, d: seq<T>)
    ensures a + b + c + d == a + (b + (c + d))
  {
  }

  lemma Assoc4<T>(a: seq<T>, b: seq<T>, c: seq<T>, d: seq<T>, e: seq<T>)
    ensures a + b + c + d + e == a + (b + (c + (d + e)))
  {
  }

  /** Splitting the rest of a sequence. */
  lemma Cut<T>(s: seq<T>, pos: nat, a: seq<T>, b: seq<T>)
    requires pos <= |s| && s[pos..] == a + b
    ensures pos + |a| <= |s| && s[pos + |a|..] == b
    ensures a != [] ==> s[pos] == a[0]
  {
    assert s[pos + |a|..] == s[pos..][|a|..];
    if a != [] {
      assert s[pos] == s[pos..][0];
    }
  }

  lemma Split<T>(s: seq<T>, i: nat, j: nat, k: nat)
    requires i <= j <= k <= |s|
    ensures s[i..k] == s[i..j] + s[j..k]
  {
  }

  /** Appending the first element and then the rest appends the whole. */
  lemma SnocCons<T>(acc: seq<T>, xs: seq<T>)
    requires xs != []
    ensures acc + [xs[0]] + xs[1..] == acc + xs
  {
    assert xs == [xs[0]] + xs[1..];
  }

  /** An accumulator that ended in `x`, seen from before `x`. */
  lemma Unsnoc<T>(acc: seq<T>, x: T, items: seq<T>)
    requires |acc| + 1 <= |items| && items[..|acc| + 1] == acc + [x]
    ensures items[..|acc|] == acc && items[|acc|..] == [x] + items[|acc| + 1..]
  {
    assert items[..|acc|] == items[..|acc| + 1][..|acc|];
  }
}
