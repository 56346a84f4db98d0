/** The token estimator `count_tokens`. The tokenizer itself is foreign and
    is a parameter: any total function from a text to its token count. */
module Tokens {
  import opened Messages

  type Tokenizer = string -> nat

  /** Sum of the token counts of the messages' contents; roles cost nothing.
      The empty thread is free and a single message costs its content; with
      `CountAppend` this fixes the estimate for every thread. */
  function CountTokens(tok: Tokenizer, m: Thread): (r: nat)
    ensures m == [] ==> r == 0
    ensures |m| == 1 ==> r == tok(m[0].content)
  {
    if m == [] then 0 else tok(m[0].content) + CountTokens(tok, m[1..])
  }

  /** No single message costs more than the total, and the total is zero
      exactly when every message is free. */
  lemma {:induction false} CountBounds(tok: Tokenizer, m: Thread)
    ensures forall i :: 0 <= i < |m| ==> tok(m[i].content) <= CountTokens(tok, m)
    ensures CountTokens(tok, m) == 0 <==> forall i :: 0 <= i < |m| ==> tok(m[i].content) == 0
  {
    if m != [] {
      CountBounds(tok, m[1..]);
      assert forall i :: 1 <= i < |m| ==> m[i] == m[1..][i - 1];
    }
  }

  /** The estimate is additive over concatenation. */
  lemma {:induction false} CountAppend(tok: Tokenizer, a: Thread, b: Thread)
    ensures CountTokens(tok, a + b) == CountTokens(tok, a) + CountTokens(tok, b)
  {
    if a != [] {
      assert (a + b)[0] == a[0];
      assert (a + b)[1..] == a[1..] + b;
      CountAppend(tok, a[1..], b);
    } else {
      assert a + b == b;
    }
  }

  /** Two threads whose contents agree position by position cost the same,
      whatever their roles. */
  lemma {:induction false} CountIgnoresRole(tok: Tokenizer, a: Thread, b: Thread)
    requires |a| == |b|
    requires forall i :: 0 <= i < |a| ==> a[i].content == b[i].content
    ensures CountTokens(tok, a) == CountTokens(tok, b)
  {
    if a != [] {
      assert a[0].content == b[0].content;
      CountIgnoresRole(tok, a[1..], b[1..]);
    }
  }
}
