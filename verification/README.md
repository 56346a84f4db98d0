# History budget and chat store of the LM-Studio Telegram bot, in Dafny

The bot relays each Telegram text message to a language model. It keeps several
named conversation threads per user. Before and after every completion call it
checks the active thread against a token budget. Over budget, it replaces the
older messages with one summary message that the model itself writes. This is
an attempt to get back under the budget, not a guarantee: the compacted thread
can still be over it.

This project models that core as pure functions:

- **Token estimator** (`count_tokens`): `Tokens.CountTokens`. The tokenizer is
  a parameter of type `string -> nat`.
- **Compactor** (`summarize_history`): `History.SummarizeHistory`. Python list
  slicing is modelled exactly in `PySlice`, and `str.strip()` in `PyStr`. The
  summariser's answer is a parameter: `Some(text)` is what the completion call
  returned, and `None` means the call raised, which selects the fixed fallback
  text.
- **Manager** (`manage_history`): `History.ManageHistory`, with its truncation
  loop as `History.DropOldest`.
- **Chat store**: a user's record holds the active chat name and an
  insertion-ordered dictionary from chat names to threads (`OrderedDict`).
  Python dicts keep insertion order, and renaming a chat moves it to the end.
  The store transitions are `new_chat`, `select_chat:`, `rename_chat`,
  `delete_chat`, `/clear`, `/summarize` and the text turn of `bot_reply`. The
  callback dispatcher `button_callback` is modelled with admin membership as a
  boolean parameter.

The main result is this. `summarize_history` always returns exactly
`2 + min(5, n)` messages for an `n`-message thread. That is never more than
the loop floor `B + 2`, so the truncation loop in `manage_history` can never
run. Over budget, managing a thread is exactly one summarisation, and the
result may still be over budget (`History.ManageBudgetNotGuaranteed`).

## Model

| member | source | states |
|---|---|---|
| `PySlice.Bound` | main.py:65 | a slice bound in a list of n elements: a bound in 0..n is itself, a negative bound counts from the end, and bounds past either end clamp to 0 or n |
| `PySlice.SliceLaws` | main.py:65 | `s[a:b]`: adjacent slices concatenate (`s[a:b] + s[b:c] == s[a:c]`), `s[0:n]` is `s`, a negative bound reads from the end, a bound past either end is clamped, and the length is the gap between the clamped bounds (0 when they cross) |
| `PySlice.SliceFrom` | main.py:85 | `s[start:]` is `s[start:len(s)]` |
| `PySlice.LastElements` | main.py:85 | `messages[-B:]` with B > 0 is the last min(B, n) messages |
| `PySlice.Middle` | main.py:65 | `messages[1:-B]` is empty exactly when n <= B + 1; otherwise it is everything strictly between index 0 and the last B |
| `PySlice.Partition` | main.py:65-85 | for n > B, the head, `messages[1:-B]` and `messages[-B:]` split the thread exactly, in order |
| `PyStr.Strip` | main.py:76 | `strip()` is never longer than its input and neither starts nor ends with Python whitespace |
| `PyStr.StripSpec` | main.py:76 | `strip()` returns the text framed by two runs of Python whitespace, and that text neither starts nor ends with whitespace |
| `PyStr.StripRecovers` | main.py:76 | any text without surrounding whitespace, framed by whitespace, is exactly what `strip()` returns |
| `PyStr.StripIdempotent` | main.py:76 | stripping a summary twice is stripping it once |
| `PyStr.Split` | main.py:171 | `split(":")` gives at least two fields when a colon occurs; no field holds a colon; the first field is the text before the first colon |
| `PyStr.JoinSplit` | main.py:171 | joining the fields of `split(sep)` with `sep` gives the original text back |
| `PyStr.NatToString` | main.py:164-165 | `str(n)` is a non-empty run of decimal digits with no leading zero |
| `PyStr.ParseNatToString` | main.py:164-165 | reading the numeral of `n` back gives `n` |
| `PyStr.NatToStringInjective` | main.py:164-165 | distinct chat numbers give distinct numerals |
| `Tokens.CountTokens` | main.py:61-62 | the empty thread costs nothing and a single message costs its content's tokens, whatever its role (with `CountAppend` this determines every thread's cost) |
| `Tokens.CountBounds` | main.py:61-62 | no single message costs more than the total, and the total is zero exactly when every content costs zero |
| `Tokens.CountAppend` | main.py:61-62 | the estimate is additive over concatenation |
| `Tokens.CountIgnoresRole` | main.py:61-62 | threads with the same contents, position by position, cost the same whatever their roles |
| `History.SummaryPrompt` | main.py:65-67 | the prompt opens with the fixed instruction and ends with the fixed tail; a single replaced message is rendered between them as `role: content` (the general case is `SummaryPromptCoversMiddle`) |
| `History.SummaryPromptWhenNothingReplaced` | main.py:65-67 | with at most B + 1 messages nothing is replaced, and the summariser is still sent the prompt with an empty conversation |
| `History.SummaryPromptCoversMiddle` | main.py:65-67 | with more, `messages[1:-B]` is the n - B - 1 messages strictly between index 0 and the last B, and the prompt is the instruction, those messages rendered as `role: content` and joined with newlines, then the tail |
| `History.SummarizeHistory` | main.py:64-85 | the result has 2 + min(B, n) messages: `messages[0]`, then an assistant message "Previous conversation summary: " + the stripped reply (or the fallback text when the call raised), then the last min(B, n) input messages in order |
| `History.SummarizeShrinksIff` | main.py:82-85 | compaction shortens a thread exactly when n > B + 2; at n = B + 1 it grows by one, and below that by two |
| `History.SummarizeRepeatsSystemMessage` | main.py:82-85 | for n <= B the whole thread, system message included, reappears after the summary |
| `History.SummarizeLosesOnlyReplaced` | main.py:64-85 | for n > B, each input message is either kept verbatim or one of the messages rendered into the prompt |
| `History.DropOldest` | main.py:92-94 | the loop pops only while the thread is over budget (a thread within budget is returned unchanged, and every intermediate length it passed through was over budget), never goes below B + 2 messages, keeps the first two messages and a suffix of the rest, leaves a thread of at most B + 2 alone, and stops within budget or at the floor |
| `History.ManageHistory` | main.py:87-96 | within budget the thread is returned unchanged; over budget the result is exactly one `summarize_history` of it, because the loop never runs |
| `History.ManageKeepsLastTwo` | main.py:87-96 | a thread of two or more messages keeps its first message and its last two messages through management |
| `History.ManageWithinBudgetIgnoresSummarizer` | main.py:87-89 | within budget the summariser's answer cannot affect the result |
| `History.ManageKeepsHead` | main.py:87-96 | management never empties a thread and never changes its first message |
| `History.ManageKeepsRecent` | main.py:87-96 | management keeps the last min(B, n) messages at the end of the thread |
| `History.ManageShrinksOnlyWhenLong` | main.py:87-96 | management shortens a thread exactly when it is over budget and has more than B + 2 messages |
| `History.ManageIdempotentWithinBudget` | main.py:87-96 | a managed thread that meets the budget is left alone by a second pass |
| `History.ManageBudgetNotGuaranteed` | main.py:91-95 | at the bot's budget of 8000, a one-message thread of 8001 tokens is still over budget after management, and a second pass changes it again |
| `OrderedDict.Get` | main.py:334-335 | `chats[name]` finds a value exactly when the name is present; an absent name gives `None`, which the handlers turn into `KeyError` |
| `OrderedDict.GetFinds` | main.py:334-335 | the value found is the one stored in the first entry under the key, and with unique keys the one stored under it anywhere |
| `OrderedDict.Put` | main.py:166 | assignment adds one entry for a new key and none for an existing one |
| `OrderedDict.PutSpec` | main.py:166 | assignment stores the value under the key and leaves other keys alone; an existing key keeps its place and a new key goes last |
| `OrderedDict.Remove` | main.py:313 | `del` removes exactly that key, keeps the others' values and order, and keeps keys unique |
| `ChatStore.DefaultStateInv` | main.py:33-38 | a fresh record has the single chat "default", holding the persona, and satisfies the store invariant |
| `ChatStore.Lookup` | main.py:33-38 | an unknown user reads as the fresh record, and a store whose records all keep the store invariant only ever yields records that keep it |
| `ChatStore.Store` | main.py:33-38 | writing a user's record changes what that user reads and nothing any other user reads, and keeps the invariant of every record |
| `ChatStore.PutKeepsInv` | main.py:166 | storing a thread that opens with the persona keeps unique names, the "default" chat and the persona heads |
| `ChatStore.NewChatNameInjective` | main.py:164-165 | "Chat N" names differ for different N and are never "default" |
| `ChatStore.NewChat` | main.py:163-169 | "Chat " + (count + 1) becomes active with only the persona; a chat of that name is overwritten in place; other chats are untouched |
| `ChatStore.SelectChat` | main.py:170-174 | the selected name becomes active without any existence check, and the chats are untouched |
| `ChatStore.RenameChat` | main.py:288-306 | refused exactly when the active chat is "default" or the new name is in use; raises when the active chat is missing; otherwise the thread moves to the new name, which becomes active, and the others are untouched |
| `ChatStore.RenameChatKeepsInv` | main.py:300-304 | on a store with unique names a rename drops the old name and appends the new one last, and unique names, the "default" chat and the persona heads are kept |
| `ChatStore.DeleteChat` | main.py:308-317 | refused exactly when the target is "default"; raises for a missing name; otherwise removes exactly that chat, keeps the others and their order, and makes "default" active |
| `ChatStore.ClearHistory` | main.py:324-329 | only the active chat changes, to the persona alone, and a missing active chat is created at the end |
| `ChatStore.ManualSummarize` | main.py:331-339 | raises for a missing active chat; refused for a single-message thread; otherwise compacts the active thread once, regardless of budget |
| `ChatStore.Ask` | main.py:351-357 | the thread sent to the model is the old thread plus the user's message when that is within budget, and exactly one compaction of it otherwise; it keeps its first message, ends with the user's message, and is shorter than before only when over budget with more than B + 2 messages |
| `ChatStore.Answer` | main.py:367-371 | the stored thread is the asked thread plus the reply when that is within budget, and exactly one compaction of it otherwise; the user's message and the reply are the last two messages and the first message is kept |
| `ChatStore.BotReply` | main.py:341-381 | an empty text does nothing; a missing active chat raises with the record unchanged; a failed completion leaves the active chat holding the appended, managed thread; an answered turn ends the active thread with the user's text and the reply; the active chat stays active and no other chat changes |
| `ChatStore.BotReplyStoresTurn` | main.py:351-371 | an answered turn stores in the active chat exactly the old thread with the user's message appended and managed, then the reply appended and managed again; chat names and their order never change |
| `ChatStore.BotReplyKeepsInv` | main.py:348-376 | a text turn keeps unique names, the "default" chat, and the persona at the head of every thread |
| `ChatStore.ManageAll` | main.py:107-108 | loading keeps chat names and order and replaces each thread by its managed form |
| `ChatStore.ManageAllKeepsWithinBudget` | main.py:107-108 | a stored chat within budget is loaded exactly as stored |
| `Menu.SelectRoundTrip` | main.py:170-172 | a chat's select button selects that chat exactly when its name has no colon |
| `Menu.ChatsKeyboard` | main.py:130-153 | the menu offers new chat, one select button per chat in order, rename and delete only off "default", and the admin menu only to admins |
| `Menu.ParseToken` | main.py:163-202 | callback data is recognised in the handler's order: exactly the literal tokens give their branches, select data is any other text with the `select_chat:` prefix, an admin token is read only from that admin button's data, and anything else falls through |
| `Menu.ParseAdminData` | main.py:188-202 | each admin button's data is read back as that admin action |
| `Menu.ParseSelectData` | main.py:170-172 | each select button's data is read back as a selection |
| `Menu.ButtonCallback` | main.py:156-205 | new chat creates and activates "Chat N"; select activates the name; delete is ignored on "default", otherwise removes the active chat and returns to "default", raising when it is missing; rename enters `RENAME_CHAT` off "default"; admin tokens from non-admins and unknown tokens return to `CHOOSING` unchanged; "back" from an admin raises; the store invariant is kept |
| `Menu.AdminButtons` | main.py:188-202 | an admin's menu, broadcast, changelog, help and statistics buttons reach their screens with the record unchanged, "back" raises because `chats_command` replies through the absent `update.message` (main.py:152), and a non-admin's admin button returns to `CHOOSING` |
| `Menu.RenameInput` | main.py:288-306 | a taken name keeps the user in `RENAME_CHAT`; a missing active chat raises; every other outcome ends the conversation with the record `rename_chat` leaves |
| `Scenarios.RenameOntoTakenName` | main.py:297-299 | after two new chats from a fresh record, renaming "Chat 2" to "Chat 3" is refused |
| `Scenarios.NewChatNameCollision` | main.py:163-167 | after "Chat 2" is deleted, the next new chat is "Chat 3" again, replaces that chat's history and adds no chat |
| `Scenarios.NewChatOverwritesTakenName` | main.py:163-167 | when the computed name is taken, new chat overwrites instead of adding |
| `Scenarios.DefaultIsProtected` | main.py:293-311 | "default" can be neither renamed nor deleted |

## Behaviour worth knowing

- Compaction does not always shorten a thread longer than B. At B + 1 messages
  it returns B + 2 messages.
- The last-resort truncation loop never runs, so the budget is not restored
  after one compaction.
- Selecting a chat does not check that the chat exists. Only a later handler
  finds out: `bot_reply`, `/summarize`, rename and delete raise `KeyError`, and
  `/clear` creates the chat.
- Creating a chat never reports a name conflict. A taken "Chat N" name is
  overwritten.
- Managing a thread twice is not managing it once when the first result is
  still over budget.
- "Back" in the admin menu does not return to the chat menu. It re-runs
  `chats_command`, which replies through `update.message` (main.py:152), and a
  button press carries no message, so the handler raises and the
  conversation stays in the admin menu (`Menu.AdminButtons`).

## Left out

- Telegram I/O is not modelled: replies, message edits, `ForceReply`, keyboard
  labels and the `ConversationHandler` wiring in `main()`. The model covers
  only the callback data, the conversation state returned and the record
  change.
- The completion calls and `tiktoken` are foreign. They are parameters: the
  tokenizer is a function, and each call's answer is an `Option<string>`. The
  model name, temperatures, the summary's `max_tokens = 1000` and the exact
  prompt sent for an ordinary reply are not modelled.
- JSON persistence (`save_chat_history`, file reading in `load_chat_history`)
  is file I/O and is not modelled. Only the per-chat management pass at load is
  modelled (`ChatStore.ManageAll`).
- `send_broadcast`, `update_changelog`, `update_help_menu`,
  `changelog_command`, `start`, `help_command` and `cancel` only do network
  calls, clock reads or global text updates, and are not modelled.
- `admin_stats` is not modelled because it uses float division and formatting.
- Admin membership (`ADMIN_IDS` is a placeholder) is a boolean parameter.
- Logging is not modelled.
- `History.ManageHistory`: the budget is a `nat`. Every call in the bot passes
  8000. With a negative budget, Python would raise `IndexError` on an empty
  thread.
- `History.SummarizeHistory` requires a non-empty thread, where Python raises
  `IndexError`. The bot only calls it on non-empty threads.
- `OrderedDict.Remove` on an absent key returns the dictionary unchanged, where
  Python raises. Every caller in the model checks first and models the
  `KeyError` itself.
- `Tokens.CountTokens` takes the tokenizer to be total. `tiktoken`'s
  `encode` raises `ValueError` on a text holding a special token such as
  `<|endoftext|>`, so such a message makes the token count raise.
- `ChatStore.BotReply` does not model that `ValueError`. In the bot it is
  raised after the user's message has been appended (main.py:351-355), so
  every later turn on that chat raises too. The model's failures are only
  `KeyError` and the completion error.
- `ChatStore.BotReply` takes each foreign answer as a free parameter, so no
  answer depends on the prompt it was given: the model covers every
  combination of answers, but does not relate an answer to its prompt. A completion that fails leaves the in-memory
  record changed and unsaved; persistence is not modelled.
