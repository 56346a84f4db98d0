/** The per-user chat store: the active chat's name and an insertion-ordered
    dictionary from chat names to threads, with the transitions the bot's
    handlers apply to it. */
module ChatStore {
  import opened Wrappers
  import opened Messages
  import opened Tokens
  import opened PyStr
  import opened OrderedDict
  import opened History

  datatype UserState = UserState(active: string, chats: Dict<string, Thread>)

  const DefaultChat := "default"

  /** The record a user gets on first contact: one chat, "default", holding
      only the persona, and active. */
  const DefaultState := UserState(DefaultChat, [Entry(DefaultChat, [Persona])])

  /** What a handler raised: a missing chat key, a failed completion call, or
      an attribute error from replying through `update.message` to a button
      press, whose update carries no message. */
  datatype Failure = KeyError(key: string) | GatewayError | NoMessage

  /** Why a handler answered with a message and left the record alone. */
  datatype Refusal = DefaultProtected | NameTaken | NothingToSummarize

  datatype Outcome =
    | Applied(state: UserState)
    | Refused(reason: Refusal)
    | Raised(failure: Failure)

  /** The record after an outcome: refusals and exceptions leave it unchanged. */
  function After(u: UserState, o: Outcome): UserState {
    if o.Applied? then o.state else u
  }

  /** What the handlers keep true of a record: names are unique, "default"
      exists, and every thread is non-empty and opens with the persona. The
      active name is NOT required to be a key: selecting a chat does not
      check that it exists. */
  ghost predicate Inv(u: UserState) {
    && Valid(u.chats)
    && DefaultChat in Keys(u.chats)
    && forall k :: Get(u.chats, k).Some? ==> StartsWithPersona(Get(u.chats, k).value)
  }

  lemma DefaultStateInv()
    ensures Inv(DefaultState)
    ensures Keys(DefaultState.chats) == [DefaultChat]
  {
  }

  /** The name `new_chat` picks: "Chat " followed by the decimal numeral. */
  function NewChatName(n: nat): string {
    "Chat " + NatToString(n)
  }

  /** Chat names made from distinct numbers are distinct, and none of them
      is "default". */
  lemma NewChatNameInjective(a: nat, b: nat)
    ensures NewChatName(a) == NewChatName(b) ==> a == b
    ensures NewChatName(a) != DefaultChat
  {
    assert NewChatName(a)[0] == 'C';
    if NewChatName(a) == NewChatName(b) {
      assert NatToString(a) == NewChatName(a)[5..];
      assert NatToString(b) == NewChatName(b)[5..];
      NatToStringInjective(a, b);
    }
  }

  /** The `new_chat` button: a chat named after the current chat count plus
      one, holding only the persona, becomes active. A chat of that name is
      overwritten in place; otherwise the name is appended. */
  function NewChat(u: UserState): (r: UserState)
    ensures r.active == NewChatName(|u.chats| + 1)
    ensures Get(r.chats, r.active) == Some([Persona])
    ensures forall k :: k != r.active ==> Get(r.chats, k) == Get(u.chats, k)
    ensures Keys(r.chats) == if r.active in Keys(u.chats) then Keys(u.chats) else Keys(u.chats) + [r.active]
    ensures Inv(u) ==> Inv(r)
  {
    var name := NewChatName(|u.chats| + 1);
    NewChatNameInjective(|u.chats| + 1, 0);
    PutSpec(u.chats, name, [Persona]);
    PutKeepsInv(u, name, [Persona], name);
    UserState(name, Put(u.chats, name, [Persona]))
  }

  /** The `select_chat:<name>` button: the name becomes active, with no check
      that such a chat exists; the chats are untouched. */
  function SelectChat(u: UserState, name: string): (r: UserState)
    ensures r.active == name && r.chats == u.chats
    ensures Inv(u) ==> Inv(r)
  {
    u.(active := name)
  }

  /** `rename_chat`: refused for "default" and for a name already in use
      (including the active name itself); raises when the active chat does
      not exist; otherwise the thread moves to the new name, which goes last
      and becomes active, and every other chat is untouched. */
  function RenameChat(u: UserState, newName: string): (r: Outcome)
    ensures u.active == DefaultChat ==> r == Refused(DefaultProtected)
    ensures u.active != DefaultChat && newName in Keys(u.chats) ==> r == Refused(NameTaken)
    ensures r.Raised? <==> u.active != DefaultChat && newName !in Keys(u.chats) && u.active !in Keys(u.chats)
    ensures r.Refused? <==> u.active == DefaultChat || newName in Keys(u.chats)
    ensures r.Applied? ==>
      && r.state.active == newName
      && Get(r.state.chats, newName) == Get(u.chats, u.active)
      && (forall k :: k != newName && k != u.active ==> Get(r.state.chats, k) == Get(u.chats, k))
  {
    if u.active == DefaultChat then Refused(DefaultProtected)
    else if newName in Keys(u.chats) then Refused(NameTaken)
    else match Get(u.chats, u.active)
      case None => Raised(KeyError(u.active))
      case Some(t) =>
        var rest := Remove(u.chats, u.active);
        assert newName != u.active;
        PutSpec(rest, newName, t);
        Applied(UserState(newName, Put(rest, newName, t)))
  }

  /** On a well-formed store a rename drops the old name and appends the new
      one at the end of the insertion order, and the store invariant holds
      afterwards. */
  lemma RenameChatKeepsInv(u: UserState, newName: string)
    requires Valid(u.chats)
    ensures RenameChat(u, newName).Applied? ==>
      && Get(RenameChat(u, newName).state.chats, u.active) == None
      && Keys(RenameChat(u, newName).state.chats) == Without(Keys(u.chats), u.active) + [newName]
    ensures Inv(u) ==> Inv(After(u, RenameChat(u, newName)))
  {
    var r := RenameChat(u, newName);
    if r.Applied? {
      var t := Get(u.chats, u.active).value;
      var rest := Remove(u.chats, u.active);
      assert r.state.chats == Put(rest, newName, t);
      PutSpec(rest, newName, t);
      assert newName !in Keys(rest) by {
        assert Get(rest, newName) == Get(u.chats, newName);
      }
      if Inv(u) {
        assert DefaultChat in Keys(r.state.chats) by {
          assert Get(r.state.chats, DefaultChat) == Get(u.chats, DefaultChat);
        }
        forall k | Get(r.state.chats, k).Some?
          ensures StartsWithPersona(Get(r.state.chats, k).value)
        {
          if k != newName {
            assert Get(r.state.chats, k) == Get(u.chats, k);
          }
        }
      }
    }
  }

  /** `delete_chat`: refused for "default"; raises for a name that does not
      exist; otherwise removes exactly that chat and makes "default" active. */
  function DeleteChat(u: UserState, target: string): (r: Outcome)
    ensures target == DefaultChat ==> r == Refused(DefaultProtected)
    ensures r.Raised? <==> target != DefaultChat && target !in Keys(u.chats)
    ensures r.Refused? <==> target == DefaultChat
    ensures r.Applied? ==>
      && r.state.active == DefaultChat
      && (forall k :: k != target ==> Get(r.state.chats, k) == Get(u.chats, k))
      && |r.state.chats| == |u.chats| - 1
    ensures r.Applied? && Valid(u.chats) ==>
      Get(r.state.chats, target) == None && Keys(r.state.chats) == Without(Keys(u.chats), target)
    ensures Inv(u) ==> Inv(After(u, r))
  {
    if target == DefaultChat then Refused(DefaultProtected)
    else if target !in Keys(u.chats) then Raised(KeyError(target))
    else Applied(UserState(DefaultChat, Remove(u.chats, target)))
  }

  /** The record with the active chat's thread replaced by `t` (created at
      the end if the active name is not a key); nothing else changes. */
  function WithActive(u: UserState, t: Thread): (r: UserState)
    ensures r.active == u.active
    ensures Get(r.chats, u.active) == Some(t)
    ensures forall k :: k != u.active ==> Get(r.chats, k) == Get(u.chats, k)
    ensures Keys(r.chats) == if u.active in Keys(u.chats) then Keys(u.chats) else Keys(u.chats) + [u.active]
    ensures Inv(u) && StartsWithPersona(t) ==> Inv(r)
  {
    PutSpec(u.chats, u.active, t);
    PutKeepsInv(u, u.active, t, u.active);
    u.(chats := Put(u.chats, u.active, t))
  }

  /** Storing a thread that opens with the persona keeps the store invariant,
      whichever chat is active afterwards. */
  lemma PutKeepsInv(u: UserState, name: string, t: Thread, active: string)
    ensures Inv(u) && StartsWithPersona(t) ==> Inv(UserState(active, Put(u.chats, name, t)))
  {
    if Inv(u) && StartsWithPersona(t) {
      var d := Put(u.chats, name, t);
      PutSpec(u.chats, name, t);
      assert DefaultChat in Keys(d);
      forall k | Get(d, k).Some?
        ensures StartsWithPersona(Get(d, k).value)
      {
        if k != name {
          assert Get(d, k) == Get(u.chats, k);
        }
      }
    }
  }

  /** `/clear`: the active chat is reset to the persona alone. If the active
      name is not a key (after selecting a deleted chat) the assignment
      creates it at the end. Nothing else changes. */
  function ClearHistory(u: UserState): (r: UserState)
    ensures r.active == u.active
    ensures Get(r.chats, u.active) == Some([Persona])
    ensures forall k :: k != u.active ==> Get(r.chats, k) == Get(u.chats, k)
    ensures Keys(r.chats) == if u.active in Keys(u.chats) then Keys(u.chats) else Keys(u.chats) + [u.active]
    ensures Inv(u) ==> Inv(r)
  {
    WithActive(u, [Persona])
  }

  /** `/summarize`: raises when the active chat does not exist; refused when
      it holds a single message; otherwise the active thread is compacted
      once, whatever its token count, and nothing else changes. */
  function ManualSummarize(u: UserState, outcome: Option<string>): (r: Outcome)
    ensures r.Raised? <==> u.active !in Keys(u.chats)
    ensures r.Refused? ==> r.reason == NothingToSummarize && |Get(u.chats, u.active).value| <= 1
    ensures r.Applied? ==>
      && r.state.active == u.active
      && Keys(r.state.chats) == Keys(u.chats)
      && |Get(u.chats, u.active).value| > 1
      && Get(r.state.chats, u.active) == Some(SummarizeHistory(Get(u.chats, u.active).value, outcome))
      && (forall k :: k != u.active ==> Get(r.state.chats, k) == Get(u.chats, k))
    ensures Inv(u) ==> Inv(After(u, r))
  {
    match Get(u.chats, u.active)
    case None => Raised(KeyError(u.active))
    case Some(t) =>
      if |t| > 1 then Applied(WithActive(u, SummarizeHistory(t, outcome)))
      else Refused(NothingToSummarize)
  }

  /** The result of one text turn. `notices` counts the "history was
      summarized" messages sent: one for each of the two management passes
      that shortened the thread. */
  datatype Turn =
    | Silent
    | Answered(state: UserState, reply: string, notices: nat)
    | Failed(state: UserState, failure: Failure)

  function TurnState(u: UserState, t: Turn): UserState {
    if t.Silent? then u else t.state
  }

  /** The user message appended to the active thread and the thread managed:
      the thread `bot_reply` sends to the completion service. It still opens
      with the thread's first message and ends with the user's message. */
  function Ask(tok: Tokenizer, t: Thread, text: string, outcome: Option<string>): (r: Thread)
    ensures |r| > 0 && r[|r| - 1] == Message(User, text)
    ensures t != [] ==> r[0] == t[0]
    ensures |r| < |t| + 1 <==> CountTokens(tok, t + [Message(User, text)]) > MaxTokens && |t| + 1 > BufferMessages + 2
    ensures CountTokens(tok, t + [Message(User, text)]) <= MaxTokens ==> r == t + [Message(User, text)]
    ensures CountTokens(tok, t + [Message(User, text)]) > MaxTokens ==> r == SummarizeHistory(t + [Message(User, text)], outcome)
  {
    var asked := t + [Message(User, text)];
    ManageKeepsRecent(tok, asked, MaxTokens, outcome);
    ManageKeepsHead(tok, asked, MaxTokens, outcome);
    ManageShrinksOnlyWhenLong(tok, asked, MaxTokens, outcome);
    ManageHistory(tok, asked, MaxTokens, outcome)
  }

  /** The thread after the reply is appended and managed again: it still
      opens with the first message of the asked thread, and the user's
      message and the reply are its last two messages. */
  function Answer(tok: Tokenizer, asked: Thread, reply: string, outcome: Option<string>): (r: Thread)
    requires |asked| > 0
    ensures |r| >= 2 && r[0] == asked[0]
    ensures r[|r| - 2..] == [asked[|asked| - 1], Message(Assistant, reply)]
    ensures CountTokens(tok, asked + [Message(Assistant, reply)]) <= MaxTokens ==> r == asked + [Message(Assistant, reply)]
    ensures CountTokens(tok, asked + [Message(Assistant, reply)]) > MaxTokens ==>
      r == SummarizeHistory(asked + [Message(Assistant, reply)], outcome)
  {
    var full := asked + [Message(Assistant, reply)];
    LastTwoOfAppend(asked, Message(Assistant, reply));
    ManageKeepsLastTwo(tok, full, MaxTokens, outcome);
    ManageHistory(tok, full, MaxTokens, outcome)
  }

  /** Appending to a non-empty thread keeps its head and makes its last
      message the second to last. */
  lemma LastTwoOfAppend(t: Thread, x: Message)
    requires |t| > 0
    ensures (t + [x])[0] == t[0]
    ensures (t + [x])[|t + [x]| - 2..] == [t[|t| - 1], x]
  {
  }

  /** The thread's last two messages are the user's text and the reply. */
  predicate EndsWithExchange(t: Thread, text: string, reply: string) {
    |t| >= 2 && t[|t| - 2..] == [Message(User, text), Message(Assistant, reply)]
  }

  /** `bot_reply` on a text message, given the two summariser answers (one
      per management pass) and the completion service's answer (`None` when
      the call raised). An empty text is ignored. A missing active chat
      raises before anything changes. A failed completion leaves the user's
      message appended and the thread managed. Otherwise the user's message
      and the reply end the active thread, and no other chat changes. */
  function BotReply(tok: Tokenizer, u: UserState, text: string,
                    before: Option<string>, reply: Option<string>, after: Option<string>): (r: Turn)
    ensures text == "" <==> r.Silent?
    ensures r.Failed? && r.failure.KeyError? ==> u.active !in Keys(u.chats) && r.state == u
    ensures r.Failed? && r.failure.GatewayError? ==> reply.None?
    ensures r.Failed? && r.failure.GatewayError? ==>
      && Get(u.chats, u.active).Some?
      && Get(r.state.chats, u.active) == Some(Ask(tok, Get(u.chats, u.active).value, text, before))
    ensures r.Failed? ==> r.failure.KeyError? || r.failure.GatewayError?
    ensures r.Answered? ==> Some(r.reply) == reply && r.notices <= 2
    ensures r.Answered? ==>
      && Get(r.state.chats, u.active).Some?
      && EndsWithExchange(Get(r.state.chats, u.active).value, text, r.reply)
    ensures !r.Silent? ==>
      && r.state.active == u.active
      && (forall k :: k != u.active ==> Get(r.state.chats, k) == Get(u.chats, k))
  {
    if text == "" then Silent
    else match Get(u.chats, u.active)
      case None => Failed(u, KeyError(u.active))
      case Some(t) =>
        var asked := Ask(tok, t, text, before);
        match reply
        case None =>
          var next := WithActive(u, asked);
          Failed(next, GatewayError)
        case Some(a) =>
          var kept := Answer(tok, asked, a, after);
          var notices := (if |asked| < |t| + 1 then 1 else 0) + (if |kept| < |asked| + 1 then 1 else 0);
          var next := WithActive(u, kept);
          assert EndsWithExchange(kept, text, a);
          Answered(next, a, notices)
  }

  /** What an answered turn stores: the active thread with the user's
      message appended and managed, then the reply appended and managed
      again. Chat names and their order never change. */
  lemma BotReplyStoresTurn(tok: Tokenizer, u: UserState, text: string,
                           before: Option<string>, reply: Option<string>, after: Option<string>)
    ensures var r := BotReply(tok, u, text, before, reply, after);
      r.Answered? ==>
        && Get(u.chats, u.active).Some?
        && Get(r.state.chats, u.active) == Some(Answer(tok, Ask(tok, Get(u.chats, u.active).value, text, before), r.reply, after))
    ensures Keys(TurnState(u, BotReply(tok, u, text, before, reply, after)).chats) == Keys(u.chats)
  {
    var r := BotReply(tok, u, text, before, reply, after);
    if !r.Silent? && Get(u.chats, u.active).Some? {
      assert u.active in Keys(u.chats);
    }
  }

  /** A text turn keeps the store's invariant, whatever the completion
      service and the summariser answered. */
  lemma BotReplyKeepsInv(tok: Tokenizer, u: UserState, text: string,
                         before: Option<string>, reply: Option<string>, after: Option<string>)
    requires Inv(u)
    ensures Inv(TurnState(u, BotReply(tok, u, text, before, reply, after)))
  {
  }

  /** The management pass `load_chat_history` runs over one user's stored
      chats, with the summariser's answer for each chat given by name: names
      and order are kept, and each thread is replaced by its managed form. */
  function ManageAll(tok: Tokenizer, d: Dict<string, Thread>, summaries: string -> Option<string>): (r: Dict<string, Thread>)
    ensures Keys(r) == Keys(d)
    ensures forall i :: 0 <= i < |d| ==> r[i].value == Managed(tok, d[i], summaries)
  {
    if d == [] then []
    else
      var rest := ManageAll(tok, d[1..], summaries);
      var r := [Entry(d[0].key, Managed(tok, d[0], summaries))] + rest;
      assert r[1..] == rest;
      assert Keys(r) == [d[0].key] + Keys(rest);
      r
  }

  /** One stored chat as `load_chat_history` loads it: its thread, managed
      against the budget with the summariser's answer for that chat. */
  function Managed(tok: Tokenizer, e: Entry<string, Thread>, summaries: string -> Option<string>): Thread {
    ManageHistory(tok, e.value, MaxTokens, summaries(e.key))
  }

  /** Chats already within budget are loaded exactly as stored. */
  lemma ManageAllKeepsWithinBudget(tok: Tokenizer, d: Dict<string, Thread>, summaries: string -> Option<string>, i: nat)
    requires i < |d| && CountTokens(tok, d[i].value) <= MaxTokens
    ensures ManageAll(tok, d, summaries)[i] == d[i]
  {
    var r := ManageAll(tok, d, summaries);
    var e := d[i];
    assert Keys(r)[i] == r[i].key;
    assert Keys(d)[i] == e.key;
    assert r[i].value == ManageHistory(tok, e.value, MaxTokens, summaries(e.key));
    assert ManageHistory(tok, e.value, MaxTokens, summaries(e.key)) == e.value;
    assert r[i] == Entry(e.key, e.value);
  }

  /** Process-wide records by user id. A missing user reads as the default
      record, as with the bot's `defaultdict`. */
  type Users = map<int, UserState>

  /** Every stored record satisfies the store invariant. */
  ghost predicate AllInv(users: Users) {
    forall id :: id in users ==> Inv(users[id])
  }

  /** Reading a user's record: a stored record, or the fresh one. Whatever
      is read from a store whose records all keep the invariant keeps it. */
  function Lookup(users: Users, uid: int): (u: UserState)
    ensures uid !in users ==> u == DefaultState
    ensures uid in users ==> u == users[uid]
    ensures AllInv(users) ==> Inv(u)
  {
    DefaultStateInv();
    if uid in users then users[uid] else DefaultState
  }

  /** A handler's effect on the store: the user's record is replaced (and
      thereby created), every other user's record is untouched. */
  function Store(users: Users, uid: int, u: UserState): (r: Users)
    ensures Lookup(r, uid) == u
    ensures forall other :: other != uid ==> Lookup(r, other) == Lookup(users, other)
    ensures AllInv(users) && Inv(u) ==> AllInv(r)
  {
    users[uid := u]
  }
}
