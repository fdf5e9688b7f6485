# ChatGpt-LineBot turn handler in Dafny

A model of the per-message turn handler of a LINE chat bot that relays user
text to an OpenAI chat-completion endpoint. The handler keeps two pieces of
process state: a global activation flag (`working_status`) and a dictionary
of per-user conversation histories (`user_sessions`). Each inbound text event
is handled in one of four ways:

- the reserved command `啟動` switches the bot on and acknowledges;
- the reserved command `安靜` switches it off and acknowledges;
- any other text is dropped silently while the bot is off;
- otherwise it goes to `get_ai_response`.

`get_ai_response` seeds the user's history with the fixed copywriting
directive on first contact and appends the user entry. It then trims the
history with `[h[0]] + h[-10:]` and submits it to the completion endpoint. A
successful answer is stripped, recorded as an assistant entry and returned.
A failure is returned as `OpenAI API 錯誤: <message>` for an `OpenAIError`, or
as `未知錯誤: <message>` for any other exception. A failure records nothing
further.

The model is a pure step function `Handler.Step(state, event, oracle)`. It
returns the new state and an optional reply. The completion endpoint is the
`oracle` parameter: a total function from the submitted history to
`Ok(content)` or `Err(kind, message)`.

Modules, leaf first:

- `Wrappers`: `Option`.
- `Text`: Python's `str.strip()`, using the code points `str.isspace()` accepts.
- `Chat`: roles, messages and the directive.
- `Window`: the slice on line 120, exactly as Python evaluates it.
- `Completion`: the oracle type and the error replies.
- `Session`: `get_ai_response`.
- `Handler`: `handle_message`, the invariant on states between events, and
  runs over sequences of events.

## The history window as written

The comment on api/index.py line 119 says the context keeps at most ten
conversation entries, not counting the system prompt. Line 120 computes
`[h[0]] + h[-10:]`, and the model follows line 120.

- **The directive is repeated.** Python's `h[-10:]` keeps the whole of a
  history of at most ten entries, the directive in front included. So
  `[h[0]] + h[-10:]` puts the directive in front twice. A first contact
  submits `[directive, directive, user]`. The second turn after a successful
  answer submits `[directive, directive, directive, user, assistant, user]`.
  These extra copies count against the ten entries.
- **The stored history exceeds the window.** A submitted list has up to 11
  entries: the first entry and ten more. The assistant entry is appended
  after the trim, so a stored history has up to 12 entries between events.
- **Error replies are not recorded.** On a failure, only the trimmed history
  with the user entry is kept. No assistant entry holding the error text is
  added.

The handler itself uses the window as written. `Window.Intended` and
`Session.IntendedSubmitted` define the window the comment describes, and
"## Findings" sets the two side by side.

## Model

| member | source | states |
|---|---|---|
| Text.Strip | api/index.py:89 | the stripped text has no whitespace at either end and is no longer than the input |
| Text.StripCutsOnlySpace | api/index.py:89 | the stripped text is a contiguous piece of the input, and only whitespace is cut away on either side |
| Text.StripRecovers | api/index.py:89 | surrounding a string that has no edge whitespace by any whitespace runs, `strip()` gives back exactly that string |
| Text.StripIdempotent | api/index.py:128 | stripping twice gives the same result as stripping once |
| Text.StripOfTrimmed | api/index.py:89 | a string without edge whitespace is left unchanged by `strip()` |
| Window.Last | api/index.py:120 | Python's `h[-k:]` has `min(len(h), k)` entries, and they are the last entries of `h` in order |
| Window.Trim | api/index.py:119-120 | the trimmed history has `1 + min(len(h), 10)` entries, keeps `h[0]` in front and ends with `h`'s last entry |
| Window.TrimKeepsSuffix | api/index.py:120 | after the first entry, the trimmed history is exactly the last `min(len(h), 10)` entries of `h`, in order |
| Window.TrimShortDuplicatesFirst | api/index.py:119-120 | a history of at most ten entries is kept whole behind a second copy of its first entry |
| Window.TrimLongDropsOldest | api/index.py:120 | a history of more than ten entries keeps its first entry and its last ten entries, eleven in all |
| Window.TrimIdempotentWhenFull | api/index.py:120 | once a history has at least ten entries, trimming the trimmed history changes nothing |
| Window.TrimAppendBounded | api/index.py:117-120 | after appending an entry and trimming, the list has at most eleven entries, ends with the appended entry and starts with the old first entry |
| Completion.ErrorReply | api/index.py:134-139 | the error reply is the kind's prefix followed by the exception text verbatim |
| Completion.ErrorReplyDeterminesKind | api/index.py:134-139 | two equal error replies come from the same error kind and the same message, so the two prefixes cannot be confused |
| Session.Submitted | api/index.py:112-120 | the submitted list has `2 + min(len(opening), 9)` entries, at most 11, and ends with the new user entry. A first contact gives `[directive, directive, user]`. An existing history keeps its first entry and is never re-seeded |
| Session.SubmittedIsWindow | api/index.py:113-120 | the submitted list is the first entry of the opening history plus the user entry, followed by the last `min(len, 10)` entries of that list |
| Session.Record | api/index.py:128-139 | a success appends exactly one assistant entry holding the stripped content and returns that text. A failure keeps the submitted list and returns the prefixed error. Nothing else in the map changes |
| Session.Respond | api/index.py:107-139 | one call submits `Submitted`. It records and replies as `Record` does for the oracle's answer. The key set grows by at most the caller, and every other user's history is unchanged |
| Session.SubmittedShortHistory | api/index.py:117-120 | a stored history with fewer than ten entries is submitted whole, behind one more copy of its first entry, followed by the new user entry |
| Session.SubmittedLongHistory | api/index.py:117-120 | a stored history with ten or more entries is submitted as its first entry, then its last nine entries, then the new user entry |
| Session.RespondDependsOnlyOnSubmitted | api/index.py:123-126 | two oracles that give the same answer to the submitted list produce the same call outcome |
| Session.RespondDistinctUsersCommute | api/index.py:113-131 | calls for two different users can be taken in either order: the sessions end the same, and each user gets the same submitted list and reply |
| Handler.Init | api/index.py:31 | the process starts with the flag from `DEFAULT_TALKING`, no sessions, and a valid state |
| Handler.Step | api/index.py:80-105 | no reply means the state is unchanged. The flag moves only on a reserved command. Only a dispatched event touches the sessions, and a dispatched event always replies. No user disappears and no other user's history changes |
| Handler.StepActivate | api/index.py:89-95 | stripped text `啟動` sets the flag and replies with the fixed acknowledgement, whatever the state. The sessions are unchanged and the outcome does not depend on the oracle |
| Handler.StepDeactivate | api/index.py:96-98 | stripped text `安靜` clears the flag and replies with the fixed acknowledgement, whatever the state. The sessions are unchanged and the outcome does not depend on the oracle |
| Handler.CommandIdempotent | api/index.py:93-98 | sending the same reserved command twice leaves the state as the first left it, and both calls give the same reply |
| Handler.StepSilentWhenInactive | api/index.py:99-102 | with the flag off, a message that is not a reserved command gives no reply and changes nothing |
| Handler.StepIgnoresNonText | api/index.py:86-87 | a non-text event gives no reply and changes nothing |
| Handler.StepDispatched | api/index.py:99-100 | a dispatched event keeps the flag set and changes only the sender's history. On success it replies with the stripped content and stores the submitted list plus that assistant entry. On failure it replies with the prefixed error and stores the submitted list |
| Handler.StepPreservesValid | api/index.py:113-131 | every step keeps each stored history at 3 to 12 entries, starting with the directive |
| Handler.RunPreservesValid | api/index.py:80-139 | any sequence of events, each answered by any oracle, keeps a valid state valid |
| Handler.ReachableSubmittedBounded | api/index.py:119-125 | in every state reachable from process start, the list submitted for any user has 3 to 11 entries and starts with the directive |
| Handler.DistinctUsersCommute | api/index.py:99-131 | two dispatched events from different users can be handled in either order, with the same final state and the same reply to each user |
| Handler.FirstContact | api/index.py:113-131 | a first contact from a fresh process is dispatched and submits `[directive, directive, user]`. The new state holds exactly that user's stored history |
| Handler.FirstContactSuccess | api/index.py:113-133 | on a first contact from a fresh process whose answer is whitespace-padded text `a`, the reply is `a` and the history is `[directive, directive, user, assistant a]` |
| Handler.FirstContactFailure | api/index.py:134-139 | on a first contact from a fresh process whose call fails, the reply is the kind's prefix and the message, and the history is `[directive, directive, user]` |
| Handler.RateLimitReply | api/index.py:99-136 | when a dispatched event's call fails with the provider error `rate limit exceeded`, the handler replies `OpenAI API 錯誤: rate limit exceeded` |
| Handler.SecondTurnRepeatsDirective | api/index.py:113-131 | after a successful first contact, the second turn submits `[directive, directive, directive, user, assistant, user]`, so the system entry is not alone in front |
| Session.SecondSubmissionRepeatsDirective | api/index.py:117-120 | a stored `[directive, directive, user, assistant]` is submitted as the same list behind a third copy of the directive, followed by the new user entry |
| Window.TrimRepeatsSystemEntry | api/index.py:119-120 | a history of at most ten entries whose only system entry is the first comes back from the line-120 slice with that system entry twice |
| Window.Intended | api/index.py:119 | the window the comment describes keeps the first entry and then `min(len(h) - 1, 10)` entries |
| Window.IntendedKeepsSuffix | api/index.py:119 | after the first entry, the intended window is exactly the last `min(len(h) - 1, 10)` entries of `h`, in order |
| Window.IntendedKeepsSystemOnlyInFront | api/index.py:119 | if the only system entry of a history is its first, the same holds after the intended window |
| Window.IntendedShortUnchanged | api/index.py:119 | the intended window leaves a history of at most ten entries after its first unchanged |
| Session.IntendedSubmitted | api/index.py:113-119 | with the intended window, the submitted list has `1 + min(len(opening), 10)` entries, at most 11 |
| Session.IntendedSubmittedSystemOnlyInFront | api/index.py:113-119 | with the intended window, a history with the directive alone in front is submitted with one system entry, ending with the new user entry |
| Session.IntendedFirstContact | api/index.py:113-119 | with the intended window, a first contact submits `[directive, user]` |

## Findings

| source | as written | input that shows it | evidently intended | confidence | as-written member | corrected member |
|---|---|---|---|---|---|---|
| api/index.py:119-120 | `[h[0]] + h[-10:]` keeps the whole of a short history behind its first entry, so the system prompt is sent twice or more, and the copies count against the ten entries | a second turn after a successful first answer submits `[directive, directive, directive, user, assistant, user]` | the system prompt once in front, followed by at most ten conversation entries, which is `[h[0]] + h[1:][-10:]` | not executed | Window.TrimRepeatsSystemEntry, Handler.SecondTurnRepeatsDirective | Window.Intended, Window.IntendedKeepsSystemOnlyInFront, Session.IntendedSubmittedSystemOnlyInFront |

## Left out

- The Flask routes, the webhook signature check and `abort(400)` (lines 58-78): HTTP plumbing outside the handler.
- LINE client setup and `send_line_reply` (lines 21-22, 141-147): foreign I/O. The model returns the reply text, and the caller delivers it. A failed delivery is only logged in the source.
- Environment loading and the start-up `ValueError` checks (lines 9-18): process bootstrap. `Handler.Init` takes the parsed `DEFAULT_TALKING` flag as a parameter.
- The construction of `openai.OpenAI()` (line 110): treated as never failing. The call itself, `response.choices[0].message.content` included, is the oracle. Any exception raised in it is an `Err` of the matching kind.
- The `print` logging (lines 132, 135, 138): it has no effect on state or replies.
- api/chatgpt.py: a wrapper around the legacy completion API and a `Prompt` class. That class is not part of this model, and the wrapper is not used by the handler.
- Concurrent webhook deliveries on the shared globals: the model is sequential. `Handler.DistinctUsersCommute` covers only the order of turns from different users.
- The wording of the directive (lines 34-53): `Chat.SystemPrompt` stands for it with a placeholder text, because no property depends on the wording, only on its being one fixed system message.
