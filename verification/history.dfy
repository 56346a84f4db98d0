/** The history budget: `summarize_history` (the compactor) and
    `manage_history` (the manager), with the summariser's reply as a
    parameter: `Some(text)` is what the completion call returned, `None`
    means it raised. */
module History {
  import opened Wrappers
  import opened Messages
  import opened Tokens
  import opened PySlice
  import opened PyStr

  /** Number of recent messages the compactor keeps verbatim (B). */
  const BufferMessages: int := 5

  /** The budget every caller in the bot passes. */
  const MaxTokens: nat := 8000

  const SummaryPrefix := "Previous conversation summary: "
  const FallbackSummary := "Error in summarization. Truncating history instead."
  const PromptHead := "Summarize the following conversation concisely, retaining key points and context:\n\n"
  const PromptTail := "\n\nSummary:"

  /** One replaced message as it appears in the summary prompt. */
  function Render(msg: Message): string {
    RoleName(msg.role) + ": " + msg.content
  }

  /** The messages the summary stands in for: `messages[1:-B]`. */
  function Replaced(m: Thread): Thread {
    Slice(m, 1, -BufferMessages)
  }

  /** The messages kept verbatim after the summary: `messages[-B:]`. */
  function Kept(m: Thread): Thread {
    SliceFrom(m, -BufferMessages)
  }

  /** The single user message sent to the summariser: the fixed instruction,
      the replaced messages one per line, and the fixed tail. */
  function SummaryPrompt(m: Thread): (r: string)
    ensures |PromptHead| + |PromptTail| <= |r|
    ensures r[..|PromptHead|] == PromptHead
    ensures r[|r| - |PromptTail|..] == PromptTail
    ensures |Replaced(m)| == 1 ==> r == PromptHead + Render(Replaced(m)[0]) + PromptTail
  {
    var rendered := seq(|Replaced(m)|, i requires 0 <= i < |Replaced(m)| => Render(Replaced(m)[i]));
    PromptHead + Join("\n", rendered) + PromptTail
  }

  /** A thread with at most B + 1 messages has nothing to replace, yet the
      summariser is still asked, with an empty conversation. */
  lemma SummaryPromptWhenNothingReplaced(m: Thread)
    requires |m| <= BufferMessages + 1
    ensures Replaced(m) == []
    ensures SummaryPrompt(m) == PromptHead + PromptTail
  {
    Middle(m, BufferMessages);
    assert PromptHead + "" + PromptTail == PromptHead + PromptTail;
  }

  /** A longer thread has exactly its messages strictly between the system
      message and the last B rendered into the prompt, one line each. */
  lemma SummaryPromptCoversMiddle(m: Thread)
    requires |m| > BufferMessages + 1
    ensures Replaced(m) == m[1..|m| - BufferMessages]
    ensures |Replaced(m)| == |m| - BufferMessages - 1
    ensures SummaryPrompt(m) == PromptHead
      + Join("\n", seq(|m| - BufferMessages - 1, i requires 0 <= i < |m| - BufferMessages - 1 => Render(m[1 + i])))
      + PromptTail
  {
    Middle(m, BufferMessages);
    var n := |m| - BufferMessages - 1;
    var rendered := seq(|Replaced(m)|, i requires 0 <= i < |Replaced(m)| => Render(Replaced(m)[i]));
    var direct := seq(n, i requires 0 <= i < n => Render(m[1 + i]));
    assert rendered == direct by {
      forall i | 0 <= i < n ensures rendered[i] == direct[i] {
        assert Replaced(m)[i] == m[1 + i];
      }
    }
  }

  /** The text after the summary prefix: the stripped reply, or the fixed
      fallback when the summariser raised. */
  function SummaryText(outcome: Option<string>): string {
    match outcome
    case Some(reply) => Strip(reply)
    case None => FallbackSummary
  }

  /** `summarize_history`: the system message, one assistant message carrying
      the summary, then the last min(B, |m|) messages of `m` in order. The
      length is always 2 + min(B, |m|), whatever the summariser answered. */
  function SummarizeHistory(m: Thread, outcome: Option<string>): (r: Thread)
    requires m != []
    ensures |r| == 2 + Min(BufferMessages, |m|)
    ensures r[0] == m[0]
    ensures r[1] == Message(Assistant, SummaryPrefix + SummaryText(outcome))
    ensures r[2..] == m[|m| - Min(BufferMessages, |m|)..]
  {
    LastElements(m, BufferMessages);
    [m[0], Message(Assistant, SummaryPrefix + SummaryText(outcome))] + Kept(m)
  }

  /** Compaction shrinks a thread exactly when it has more than B + 2
      messages; at B + 1 messages it grows by one, and below that by two. */
  lemma SummarizeShrinksIff(m: Thread, outcome: Option<string>)
    requires m != []
    ensures |SummarizeHistory(m, outcome)| < |m| <==> |m| > BufferMessages + 2
    ensures |m| == BufferMessages + 1 ==> |SummarizeHistory(m, outcome)| == |m| + 1
    ensures |m| <= BufferMessages ==> |SummarizeHistory(m, outcome)| == |m| + 2
  {
  }

  /** For a thread of at most B messages the kept tail is the whole thread,
      so the system message appears twice: at index 0 and again at index 2. */
  lemma SummarizeRepeatsSystemMessage(m: Thread, outcome: Option<string>)
    requires 0 < |m| <= BufferMessages
    ensures SummarizeHistory(m, outcome)[2] == m[0]
    ensures SummarizeHistory(m, outcome)[2..] == m
  {
  }

  /** For a thread longer than B, every input message either survives
      verbatim (index 0, or one of the last B) or is one of the replaced
      messages the prompt renders, and none is both. */
  lemma SummarizeLosesOnlyReplaced(m: Thread, outcome: Option<string>)
    requires |m| > BufferMessages
    ensures m == [SummarizeHistory(m, outcome)[0]] + Replaced(m) + SummarizeHistory(m, outcome)[2..]
  {
    Partition(m, BufferMessages);
    LastElements(m, BufferMessages);
  }

  /** Popping down to the full length pops nothing. */
  lemma PoppedFull(s: Thread)
    requires |s| >= 2
    ensures Popped(s, |s|) == s
  {
  }

  /** Popping the third message and then down to length j is popping down to
      length j directly. */
  lemma PoppedStep(s: Thread, lo: int)
    requires |s| >= 3 && lo >= 2
    ensures forall j :: lo < j < |s| ==> Popped(s[..2] + s[3..], j) == Popped(s, j)
  {
    var s' := s[..2] + s[3..];
    forall j | lo < j < |s|
      ensures Popped(s', j) == Popped(s, j)
    {
      assert s'[..2] == s[..2];
      assert s'[|s'| - (j - 2)..] == s[|s| - (j - 2)..];
    }
  }

  /** The thread the loop leaves at length `j` (2 <= j <= |s|): the first two
      messages and the last j - 2. */
  function Popped(s: Thread, j: int): Thread
    requires 2 <= j <= |s|
  {
    s[..2] + s[|s| - (j - 2)..]
  }

  /** The `while` loop of `manage_history`: drop the message at index 2 while
      the thread is over budget and longer than B + 2. It never shortens a
      thread below B + 2, keeps the first two messages, keeps a suffix of the
      rest, and stops within budget or at the floor. */
  function DropOldest(tok: Tokenizer, s: Thread, maxTokens: nat): (r: Thread)
    ensures |r| <= |s|
    ensures |s| <= BufferMessages + 2 ==> r == s
    ensures |s| > BufferMessages + 2 ==>
      |r| >= BufferMessages + 2 && r == s[..2] + s[|s| - (|r| - 2)..]
    ensures CountTokens(tok, r) <= maxTokens || |r| <= BufferMessages + 2
    ensures CountTokens(tok, s) <= maxTokens ==> r == s
    ensures forall j :: |r| < j <= |s| ==> CountTokens(tok, Popped(s, j)) > maxTokens
    decreases |s|
  {
    if CountTokens(tok, s) > maxTokens && |s| > BufferMessages + 2 then
      var s' := s[..2] + s[3..];
      var r := DropOldest(tok, s', maxTokens);
      assert s'[..2] == s[..2];
      assert s'[|s'| - (|r| - 2)..] == s[|s| - (|r| - 2)..];
      PoppedFull(s);
      PoppedStep(s, |r|);
      r
    else
      s
  }

  /** `manage_history`. Within budget the thread comes back unchanged. Over
      budget the result is exactly one compaction: the compactor always
      returns at most B + 2 messages, so the truncation loop never runs. */
  function ManageHistory(tok: Tokenizer, m: Thread, maxTokens: nat, outcome: Option<string>): (r: Thread)
    ensures CountTokens(tok, m) <= maxTokens ==> r == m
    ensures CountTokens(tok, m) > maxTokens ==> m != [] && r == SummarizeHistory(m, outcome)
  {
    if CountTokens(tok, m) > maxTokens then
      DropOldest(tok, SummarizeHistory(m, outcome), maxTokens)
    else
      m
  }

  /** Within budget the summariser is never consulted: its answer cannot
      change the result. */
  lemma ManageWithinBudgetIgnoresSummarizer(tok: Tokenizer, m: Thread, maxTokens: nat, o1: Option<string>, o2: Option<string>)
    requires CountTokens(tok, m) <= maxTokens
    ensures ManageHistory(tok, m, maxTokens, o1) == ManageHistory(tok, m, maxTokens, o2) == m
  {
  }

  /** The manager never loses the system message, and never returns an
      empty thread for a non-empty one. */
  lemma ManageKeepsHead(tok: Tokenizer, m: Thread, maxTokens: nat, outcome: Option<string>)
    requires m != []
    ensures ManageHistory(tok, m, maxTokens, outcome) != []
    ensures ManageHistory(tok, m, maxTokens, outcome)[0] == m[0]
  {
  }

  /** The manager keeps the last min(B, |m|) messages at the end of the thread,
      whether or not it compacted. */
  lemma ManageKeepsRecent(tok: Tokenizer, m: Thread, maxTokens: nat, outcome: Option<string>)
    requires m != []
    ensures var r := ManageHistory(tok, m, maxTokens, outcome);
      var k := Min(BufferMessages, |m|);
      |r| >= k && r[|r| - k..] == m[|m| - k..]
  {
    var r := ManageHistory(tok, m, maxTokens, outcome);
    var k := Min(BufferMessages, |m|);
    if CountTokens(tok, m) > maxTokens {
      assert r[|r| - k..] == r[2..];
    }
  }

  /** The last two messages survive management. */
  lemma ManageKeepsLastTwo(tok: Tokenizer, m: Thread, maxTokens: nat, outcome: Option<string>)
    requires |m| >= 2
    ensures var r := ManageHistory(tok, m, maxTokens, outcome);
      |r| >= 2 && r[|r| - 2..] == m[|m| - 2..] && r[0] == m[0]
  {
    var r := ManageHistory(tok, m, maxTokens, outcome);
    if CountTokens(tok, m) > maxTokens {
      var k := Min(BufferMessages, |m|);
      assert r[2..] == m[|m| - k..];
      assert r[|r| - 2..] == r[2..][k - 2..];
    }
  }

  /** The manager shortens a thread only when it was over budget and had
      more than B + 2 messages. */
  lemma ManageShrinksOnlyWhenLong(tok: Tokenizer, m: Thread, maxTokens: nat, outcome: Option<string>)
    ensures |ManageHistory(tok, m, maxTokens, outcome)| < |m| <==>
      CountTokens(tok, m) > maxTokens && |m| > BufferMessages + 2
  {
  }

  /** A result that meets the budget is a fixed point of the manager. */
  lemma ManageIdempotentWithinBudget(tok: Tokenizer, m: Thread, maxTokens: nat, o1: Option<string>, o2: Option<string>)
    requires CountTokens(tok, ManageHistory(tok, m, maxTokens, o1)) <= maxTokens
    ensures ManageHistory(tok, ManageHistory(tok, m, maxTokens, o1), maxTokens, o2) == ManageHistory(tok, m, maxTokens, o1)
  {
  }

  /** A text one token over the budget when every character is a token. */
  const LongText: string := seq(MaxTokens + 1, _ => 'x')

  /** Character count: a tokenizer to build concrete witnesses with. */
  function CharCount(s: string): nat {
    |s|
  }

  /** The budget is not guaranteed after management, and managing twice is
      not managing once: a one-message thread of 8001 tokens, over the bot's
      budget of 8000, comes back with three messages, still over budget, and
      a second pass gives five. */
  lemma ManageBudgetNotGuaranteed()
    ensures var m := [Message(System, LongText)];
      var r := ManageHistory(CharCount, m, MaxTokens, None);
      && CountTokens(CharCount, r) > MaxTokens
      && |r| == 3
      && |ManageHistory(CharCount, r, MaxTokens, None)| == 5
  {
    var m := [Message(System, LongText)];
    assert CountTokens(CharCount, m) == MaxTokens + 1;
    var r := ManageHistory(CharCount, m, MaxTokens, None);
    assert r[0] == m[0];
    CountBounds(CharCount, r);
  }
}
