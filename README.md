# Streaming chat client: session model

This project models the session logic of `app.py`, a small chat page for a local Ollama server.
The page keeps a module-level chat history and a module-level stop flag. On send, it strips the
prompt, appends a user turn and an empty assistant turn, and posts the history to the chat
endpoint with streaming on. It then reads the newline-delimited JSON reply line by line and
appends every non-empty `message.content` to the assistant turn, re-rendering the history as
markdown after each token. The stop button raises the flag, and the reader checks it before each
line.

Modules, one per concern of the file:

- `Wrappers`: the `Option` type for a field that may be missing.
- `Text`: Python's argument-less `str.strip()`. It removes the characters for which
  `str.isspace()` holds, and the whole Unicode list is written out.
- `Transcript`: history entries (`Turn`), the markdown rendering (`Render`), the update
  `history[-1]['content'] += text` (`AppendToLast`) and token joining (`Concat`).
- `Ollama`: response lines, the request body, and the generator's line loop as a pure function.
  `Tokens(lines, flags)` gives the tokens yielded, `Reads` the lines taken, `Processed` the lines
  processed. `Accepted` is an independent reference: the non-empty contents of all lines.
- `Session`: the class `ChatSession`, holding `history`, `stopSignal` and `display` (the markdown
  widget's text). It has the three handlers, each checked against the functions above.

Modelling choices:

- A response line is one of `Empty` (the empty string), `Malformed` (`json.loads` raises) or
  `Obj(content, done)`. Here `content` is `message.content` if present, and `done` is the truth
  value of the `done` field.
- The stop flag is written by another task of the event loop. `Send` therefore takes
  `clicks: seq<bool>`, one entry per response line. `clicks[i]` says whether `on_stop_click` ran
  while the stream waited for line `i`. The loop calls `OnStop()` for such a click and then reads
  the flag, as the generator does. `Observed(stopSignal, clicks)` is the sequence of flag values
  the generator sees.
- The generator and the `async for` that consumes it run interleaved. `StreamReply` models them as
  one loop, `ReadStream`. `NextLine` is one pass of it: the stop check, then `TakeLine`, the
  generator's per-line body. `ReceiveToken` is the consumer's body.
- As written, the request's `messages` are the history at generator start (already ending with
  the new user turn and the empty assistant turn), followed by the prompt once more. So the prompt
  is sent twice, and `Send` states exactly that.
- Nothing resets the stop flag. After one stop, every later stream ends at its first line with
  no token (`StoppedStreamIsEmpty`).
- The code reports no connection failure, has no guard against overlapping sends and does not
  check which turn is mutated. The model has none of these either.

## Model

| member | source | states |
|---|---|---|
| `Text.IsSpace` | app.py:42 | definition: the characters Python's `str.isspace()` accepts, which `strip()` removes; used by the trimming members' contracts |
| `Text.TrimStart` | app.py:42 | the result is a suffix of the input, everything removed is whitespace, and the result does not start with whitespace |
| `Text.TrimEnd` | app.py:42 | the result is a prefix of the input, everything removed is whitespace, and the result does not end with whitespace |
| `Text.Strip` | app.py:42 | the stripped prompt is no longer than the input and neither starts nor ends with whitespace |
| `Text.StripInfix` | app.py:42 | the stripped prompt is the infix of the input that starts after its leading whitespace, and everything outside it, on either side, is whitespace |
| `Text.StripBlank` | app.py:42-44 | the prompt strips to empty exactly when every character is whitespace, so an all-blank prompt is ignored |
| `Text.StripIdempotent` | app.py:42 | stripping the stripped prompt changes nothing |
| `Transcript.RoleLabel` | app.py:66 | definition: `User` for a user turn and `Assistant` for any other role |
| `Transcript.Entry` | app.py:67 | definition: one entry's markdown block; spelled out by `EntryText` |
| `Transcript.Render` | app.py:63-68 | definition: the entries' blocks in history order, `""` for an empty history; characterised by `RenderConcat`, `EntryText` and `RenderHistory` |
| `Transcript.Concat` | app.py:51-52 | definition: the tokens joined in order, as repeated `+=` from `''` builds them; characterised by `ConcatAppend`, `ConcatAt` and `ConcatBlank` |
| `Transcript.AppendToLast` | app.py:52 | `+=` on the last entry keeps the length, the role and every earlier entry, and the content becomes the old content followed by the text |
| `Transcript.AppendNothing` | app.py:35 | a line that yields nothing leaves the history as it was |
| `Transcript.AppendTwice` | app.py:51-52 | two successive appends to the last turn equal one append of the two texts in order, so content only grows |
| `Transcript.AppendToFreshTurn` | app.py:48-52 | streaming into the fresh empty assistant turn gives history + [user turn, assistant turn holding exactly the streamed text] |
| `Transcript.ConcatAppend` | app.py:51-52 | the joined text of two token runs is the first run's text followed by the second's |
| `Transcript.ConcatBlank` | app.py:51-52 | when no token is empty, the joined text is empty exactly when no token arrived |
| `Transcript.ConcatAt` | app.py:51-52 | each token appears in the joined text at the offset given by the tokens before it, in receipt order |
| `Transcript.RenderConcat` | app.py:63-68 | rendering a history split in two gives the first part's markdown followed by the second's |
| `Transcript.EntryText` | app.py:66-67 | one entry renders as `**User:** content` for user turns and `**Assistant:** content` otherwise, followed by a blank line |
| `Transcript.RenderAfterSend` | app.py:63-68 | after a send the page shows the earlier markdown, then the user block, then the assistant block |
| `Ollama.Payload` | app.py:18-22 | definition: URL, model `gemma3:1b`, the history plus one user turn with the prompt, and `stream` true; `StreamReply` and `Send` state the request it gives |
| `Ollama.Yielded` | app.py:34-36 | definition: the line's `message.content` when it is present and non-empty, nothing otherwise |
| `Ollama.EndsStream` | app.py:37-38 | definition: a parsed object whose `done` is true |
| `Ollama.Tokens` | app.py:25-38 | definition: the loop's three exits (flag seen, response exhausted, `done` line) as recursion; characterised by `TokensAreAccepted`, `NoiseIgnored`, `DoneEndsStream` and `StopDiscards` |
| `Ollama.Delta` | app.py:34-36 | the text one line adds is its content when it yields a token, and empty when it yields none |
| `Ollama.Reads` | app.py:25-38 | the loop never takes more lines than the response has |
| `Ollama.ReadsProcessed` | app.py:25-38 | the lines taken are the processed lines, plus the line on which the stop flag was seen when that ended the loop (not after a `done` line) |
| `Ollama.Accepted` | app.py:34-36 | the reference token list consists only of non-empty strings |
| `Ollama.Processed` | app.py:25-38 | the number of processed lines is a stop point: no processed line saw the flag, only the last may end the stream, and the loop ends there |
| `Ollama.StopPointUnique` | app.py:25-38 | the stop point is unique, so the processed prefix is well defined |
| `Ollama.TokensAreAccepted` | app.py:25-38 | the tokens yielded are exactly the non-empty contents of the processed lines, in order |
| `Ollama.TokensNonEmpty` | app.py:35-36 | no yielded token is empty |
| `Ollama.NoiseIgnored` | app.py:28-33 | inserting an empty or unparsable line anywhere leaves the yielded tokens unchanged |
| `Ollama.DoneEndsStream` | app.py:37-38 | after a line with `done`, no later line contributes a token or is read |
| `Ollama.DoneYieldsOwnContent` | app.py:34-38 | a `done` line still yields its own non-empty content before the loop ends |
| `Ollama.StopDiscards` | app.py:25-27 | if the flag is seen when line `j` arrives, line `j` and all later lines are discarded and nothing past line `j` is read |
| `Ollama.LoopStep` | app.py:25-38 | one iteration: a raised flag ends the loop; otherwise the line's token is yielded, and the loop goes on unless the line is `done` |
| `Ollama.StreamedReply` | app.py:25-38 | two chunks with noise between them, then a `done` object, yield exactly the two chunks, and later lines are ignored |
| `Ollama.StoppedReply` | app.py:25-27 | a stop seen at the second line keeps only the first token, after two lines read |
| `Session.Observed` | app.py:59-61 | the flag seen at line `i` is raised exactly when it started raised or a stop click came at or before line `i` |
| `Session.StoppedStreamIsEmpty` | app.py:25-27 | once the flag is raised, a stream yields nothing and reads at most its first line |
| `Session.ChatSession.constructor` | app.py:12-13 | the session starts with an empty history, the flag clear and empty markdown (the widget is created with `''` at app.py:80) |
| `Session.ChatSession.OnStop` | app.py:59-61 | the flag is raised and nothing else changes; raising it again changes nothing |
| `Session.ChatSession.RenderHistory` | app.py:63-68 | the loop builds exactly `Render(history)` into the markdown widget and leaves the history alone |
| `Session.ChatSession.ReceiveToken` | app.py:51-53 | the token is appended to the last turn's content and the page shows the new history |
| `Session.ChatSession.TakeLine` | app.py:28-38 | a line that yields no token (empty, malformed, or without content) changes neither the history nor the page; otherwise its content is appended to the last turn and the page re-rendered; the loop continues unless the object is `done` |
| `Session.ChatSession.NextLine` | app.py:25-38 | one pass over line `i`: a click raises the flag first; a raised flag finishes the loop with the received text unchanged; otherwise the received text grows by exactly the line's text, and the loop finishes exactly when the line is `done`; the lines read, the flag and the page advance by that one line |
| `Session.ChatSession.ReadStream` | app.py:25-38 | the last turn grows by exactly the joined tokens; the flag ends raised exactly when it started raised or a click came within the lines read; the page is untouched when no text arrived and shows the history otherwise |
| `Session.ChatSession.StreamReply` | app.py:15-38 | the request is the history at stream start plus the prompt; the last turn grows by exactly the joined tokens; the flag ends raised exactly when it started raised or a click came within the lines read; the page is re-rendered exactly when some token arrived |
| `Session.ChatSession.OpenTurns` | app.py:48-50 | the user turn and an empty assistant turn are appended, in that order, and the page shows the new history |
| `Session.ChatSession.SendPrompt` | app.py:48-57 | the history grows by a user turn and an assistant turn holding the joined tokens; the request carries the prompt twice; the page shows the final history |
| `Session.ChatSession.Send` | app.py:40-57 | a blank prompt changes nothing and sends nothing; otherwise the effect of `SendPrompt` on the stripped prompt, with model `gemma3:1b`, the chat URL and `stream` true |

## Left out

- Networking: the `httpx` client, the POST and the response status are not modelled. The response
  arrives as a given sequence of lines. The code handles no connection errors (exceptions
  propagate), so the model has no error path for them.
- JSON parsing: `json.loads` is abstracted to the three kinds of `Line`. Some inputs would raise
  at app.py:34 or app.py:52, and these are outside the model: a top-level value that is not an
  object, a `message` that is not an object, and a `content` that is truthy but not a string.
  A line of only whitespace is not empty for `if not line`; it is one of the lines `json.loads`
  rejects, i.e. `Malformed`.
- Truthiness: `if token` is modelled as "present and not the empty string"; `data.get('done')` is
  modelled as a boolean.
- Async scheduling: `await asyncio.sleep(0)` and the event loop are not modelled. A stop click
  is modelled only at the points where the flag is read, via `clicks`. In the source, a click
  during the last `await asyncio.sleep(0)` (app.py:54), or after the response has ended, still
  raises the flag. That stream never reads the flag, but the next stream is empty. Such a click
  has no slot in `clicks`, so within `Send` the flag cannot end raised because of it. The model
  reaches that state as `Send` followed by `OnStop`. "Exactly when" in the flag clauses of
  `Send`, `StreamReply` and `ReadStream` refers to the clicks in `clicks` only.
- Send: requires `|clicks| == |lines|`, one click slot per response line. This is how the model
  encodes the interleaving; it constrains no caller of the source.
- The serialisation of the payload: the request is a value snapshot. In the source the list
  shares its dictionaries with the history, but the body is encoded before any token arrives.
- UI plumbing: clearing the textarea (app.py:45), enabling and disabling the buttons, the
  scroll-to-bottom script, the keyboard shortcuts and `ui.run()` are not modelled.
- The source has no per-send reset of the stop flag, no connection-failure report, no
  completion callback and no guard against overlapping sends, so neither does the model.
