/** Cutting a byte stream into tokens as far as it can be read.

    `first(s)` is the length of the token `s` begins with, or 0 while more input is needed to tell.
    Both escape-sequence filters of the program work this way, and both are fed in arbitrary reads:
    what matters is that a token, once found, stays the same whatever input follows. */
module Tokens {
  import opened Bytes

  type First = seq<byte> -> nat

  ghost predicate PrefixStable(first: First) {
    && (forall s :: first(s) <= |s|)
    && (forall s, t :: first(s) > 0 ==> first(s + t) == first(s))
  }

  datatype Scanned = Scanned(tokens: seq<seq<byte>>, tail: seq<byte>)

  /** The whole tokens of `s`, and the unfinished tail behind them. */
  function Tokenise(first: First, s: seq<byte>): Scanned
    decreases |s|
  {
    var n := first(s);
    if n == 0 || n > |s| then Scanned([], s)
    else
      var rest := Tokenise(first, s[n..]);
      Scanned([s[..n]] + rest.tokens, rest.tail)
  }

  lemma TokeniseStep(first: First, s: seq<byte>)
    ensures var n := first(s);
            Tokenise(first, s) ==
            if n == 0 || n > |s| then Scanned([], s)
            else Scanned([s[..n]] + Tokenise(first, s[n..]).tokens, Tokenise(first, s[n..]).tail)
  {
  }

  /** Reading on after a cut looks again only at the tail the cut left. */
  lemma {:induction false} TokeniseSplit(first: First, a: seq<byte>, b: seq<byte>)
    requires PrefixStable(first)
    ensures var before := Tokenise(first, a);
            var after := Tokenise(first, before.tail + b);
            Tokenise(first, a + b) == Scanned(before.tokens + after.tokens, after.tail)
    decreases |a|
  {
    var n := first(a);
    if n == 0 {
      var more := Tokenise(first, a + b).tokens;
      assert [] + more == more;
    } else {
      var a' := a[n..];
      assert (a + b)[..n] == a[..n] && (a + b)[n..] == a' + b;
      TokeniseSplit(first, a', b);
      var before := Tokenise(first, a');
      var more := Tokenise(first, before.tail + b).tokens;
      assert ([a[..n]] + before.tokens) + more == [a[..n]] + (before.tokens + more);
    }
  }

  /** Nothing is lost: the tokens and the tail are the stream. */
  lemma {:induction false} TokensAreTheStream(first: First, s: seq<byte>)
    ensures Concat(Tokenise(first, s).tokens) + Tokenise(first, s).tail == s
    decreases |s|
  {
    var n := first(s);
    if n == 0 || n > |s| {
    } else {
      TokensAreTheStream(first, s[n..]);
      var rest := Tokenise(first, s[n..]);
      assert s == s[..n] + s[n..];
      assert ([s[..n]] + rest.tokens)[1..] == rest.tokens;
      assert s[..n] + (Concat(rest.tokens) + rest.tail) == (s[..n] + Concat(rest.tokens)) + rest.tail;
    }
  }

  /** The tail is the beginning of a token, and every token is what some input begins with. */
  lemma {:induction false} TailIsUnfinished(first: First, s: seq<byte>)
    requires PrefixStable(first)
    ensures first(Tokenise(first, s).tail) == 0
    decreases |s|
  {
    var n := first(s);
    if n == 0 {
    } else {
      TailIsUnfinished(first, s[n..]);
    }
  }
}
