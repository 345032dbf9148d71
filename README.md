# tt-t gateway: a Dafny model

tt-t is a small HTTP-to-IRC gateway. Two routes, `/time/<username>` and
`/weather/<username>`, turn a request into a bot command (`,time alice`),
queue it for a single task that owns an IRC session, and answer the HTTP
caller with the bot's reply. The worker takes the queued commands one at a
time. For each it drains the inbound frames already waiting, sends the
command to `tildebot` and takes the next frame as the reply. It cuts the
reply text out of that frame and hands it back through a one-shot slot. The
handler then removes the per-route marker the bot puts in front of its answer.

The model has four modules:

- `Strings` (strings.dfy): the two pieces of Rust's `str` the code relies on.
  `strip_prefix` and `split(pattern).last()` are defined here, together with
  the occurrence predicates used to say what they compute.
- `Reply` (reply.dfy): extraction of the answer from a rendered frame.
  The answer is the last piece of the frame split on `"tt-t-bot "`.
- `IrcTask` (irctask.dfy): the worker's loop.
  - The functions `DrainEnd`, `Serve`, `Advance` and `RunFrom` say what one
    drain, one command, one turn of the loop and a whole run do.
  - The class `Session` carries the queue, the stream position, the slots
    and the log of sent messages as fields.
  - The methods `Drain`, `Step` and `Run` are proved to do exactly what those
    functions say.
- `Gateway` (gateway.dfy): the handler body generated by
  `irc_command_handler!`. It covers rendering a command from its template,
  marker removal and the choice of the text returned to the caller. It also
  contains an end-to-end `Handle` method over a `Session`.

Time and concurrency are parameters of the model:

- The inbound stream is the finite sequence of items it will ever yield.
  Reaching its end means the stream has ended.
- For each command an `Env` gives two facts: how many items have arrived
  when the drain polls, and whether `send_privmsg` succeeds.
- The ten-second timeout is a flag, `inTime`, that says whether the worker
  settled the slot in time.
- Whether the worker survived its start-up `unwrap()`s is the flag
  `Session.alive`. Without it the queue's receiver is gone and every
  submission fails.

Behaviour of the code worth knowing:

- Connecting, identifying and opening the stream all `unwrap()`, so a
  failure there ends the worker for good and every later submission fails.
- Queueing a command waits while the 100-entry channel is full.
- The `"Failed to receive reply"` fallback is unreachable
  (`ExtractReplyIsLastPiece`). A frame without the nickname is returned
  whole (`ExtractReplyWithoutTag`).
- The markers are `":[\u{3}03Time\u{3}] "` and
  `":[\u{3}03Weather\u{3}] "`.
- An `Err` item that is already waiting stops the drain after it is consumed.
  A frame that arrived before the command was sent can then be taken as its
  reply (`StaleAnswerExample`). Conversely, a frame that had arrived can only
  answer when the drain stopped at an `Err` (`StaleAnswerNeedsDrainError`).
- The wait for the reply ends at an `Err` item or at the end of the stream
  and leaves the slot unwritten. The caller then sees the same text as for a
  timeout (`DroppedLooksLikeTimeout`).

## Model

| member | source | states |
|---|---|---|
| `Strings.StripPrefix` | src/main.rs:43 | yields a value exactly when the marker starts the response, and then marker followed by the value is the response |
| `Strings.Split` | src/main.rs:103 | a split always has at least one piece, which is why `.last()` always yields one |
| `Strings.FindFromFirst` | src/main.rs:103 | the search `split` uses finds an occurrence whenever there is one at or after the start, and none earlier than the one it finds |
| `Strings.SplitJoin` | src/main.rs:103 | joining the pieces back together with the pattern gives the original text |
| `Strings.SplitPiecesHaveNoOccurrence` | src/main.rs:103 | no piece of a split contains the pattern |
| `Strings.SplitLast` | src/main.rs:103-104 | the last piece contains no occurrence and is either the whole text or is preceded in the text by the pattern |
| `Strings.NoOverlap` | src/main.rs:103 | two occurrences of a pattern whose last character is unique in it never overlap |
| `Strings.AfterLastOccurrence` | src/main.rs:103-104 | for such a pattern, a suffix without occurrences that is the whole text or follows the pattern is exactly the text after the last occurrence |
| `Reply.ExtractReplyIsLastPiece` | src/main.rs:103-107 | the `"Failed to receive reply"` branch is dead; the answer is a suffix of the frame that contains no `"tt-t-bot "` and is the whole frame or follows that tag |
| `Reply.ExtractReplyWithoutTag` | src/main.rs:103-107 | a frame that does not contain the tag is answered whole |
| `Reply.ExtractReplyAfterLastTag` | src/main.rs:103-107 | the answer is exactly the text after the last `"tt-t-bot "` of the frame |
| `IrcTask.DrainEnd` | src/main.rs:90-92 | the drain consumes only items that have arrived, every consumed item but the last is an `Ok` frame, and it stops at an `Err` (consumed), an item not yet there, or the end; these facts fix the stop position uniquely |
| `IrcTask.DrainSkipsBacklog` | src/main.rs:90-92 | any number of waiting frames are all discarded and the drain stops at the first one that had not arrived |
| `IrcTask.DrainDependsOnWindow` | src/main.rs:90-92 | where the drain stops depends only on the items from the start position up to the stop |
| `IrcTask.SendFailureReadsNothing` | src/main.rs:96-112 | after a failed send the slot holds exactly `"Failed to send IRC command"` and no item past the drain is read |
| `IrcTask.AnswerIsFirstFrameAfterDrain` | src/main.rs:96-109 | after a successful send the slot is answered exactly when the first item after the drain is an `Ok` frame, with that frame's extracted text, and reading stops right after it; otherwise the slot is dropped unwritten |
| `IrcTask.StaleAnswerNeedsDrainError` | src/main.rs:90-99 | a frame that had already arrived before the send can answer the command only when the drain stopped at an `Err` item |
| `IrcTask.StaleAnswerExample` | src/main.rs:90-107 | with an `Err` item and then a frame both waiting before the send, the drain stops after the `Err`, and the waiting frame is taken as the command's reply |
| `IrcTask.ReplyFollowsBacklog` | src/main.rs:88-109 | with any backlog of waiting frames, the caller gets the extraction of the frame that follows the backlog, never a backlog frame |
| `IrcTask.AnswerDependsOnWindow` | src/main.rs:90-109 | an answered command's outcome does not depend on any item before its start or after its reply |
| `IrcTask.Advance` | src/main.rs:86-113 | one turn of the loop keeps the worker's invariant: the read position stays within the stream and the queued commands own distinct slots that are still waiting |
| `IrcTask.AdvanceSettlesHead` | src/main.rs:86-113 | one turn dequeues exactly the head, settles its slot (which was waiting) and leaves every other slot untouched |
| `IrcTask.RunFrom` | src/main.rs:86-116 | serving the whole queue keeps the invariant and leaves the queue empty |
| `IrcTask.RunSettlesEachQueuedSlot` | src/main.rs:86-116 | after a run every queued slot holds a settled value and every other slot keeps its value; since each turn writes only a slot that is still waiting (`AdvanceSettlesHead`, `Wf`), no slot is written twice |
| `IrcTask.RunSendsAtMostQueued` | src/main.rs:86-96 | a run only appends to the messages sent, at most one per queued command |
| `IrcTask.RunSendsSucceededInQueueOrder` | src/main.rs:86-112 | for any mix of successful and failed sends, the bot receives exactly the queued commands whose send succeeded, in queue order; a failed send adds nothing and serving goes on with the next command |
| `IrcTask.RunSendsInQueueOrder` | src/main.rs:86-96 | when every send succeeds the bot receives exactly the queued commands, in queue order (a corollary of the above) |
| `IrcTask.Session.constructor` | src/main.rs:65-84 | a fresh task: stream unread, nothing queued, no slots, nothing sent |
| `IrcTask.Session.Submit` | src/main.rs:24-37 | a live task gets a fresh waiting slot and the command at the back of the queue; a dead one gets nothing and nothing changes |
| `IrcTask.Session.PollNow` | src/main.rs:90 | a poll that does not wait takes an item that has arrived, and reports a missing item or the end without consuming |
| `IrcTask.Session.Next` | src/main.rs:98 | a waiting read takes the next item, or reports the end |
| `IrcTask.Session.Drain` | src/main.rs:90-92 | the loop leaves the stream position exactly where `DrainEnd` says and changes nothing else |
| `IrcTask.Session.Step` | src/main.rs:87-113 | the worker's state after one turn is `Advance` of the state before it |
| `IrcTask.Session.Run` | src/main.rs:86-116 | the worker's state after serving the queue is `RunFrom` of the state before it |
| `Gateway.FormatFills` | src/main.rs:27 | `format!` puts the username verbatim in place of `{}` and keeps the text around it |
| `Gateway.RenderCommand` | src/main.rs:55-61 | the command is the route's keyword, one space, then the username verbatim |
| `Gateway.ParseRender` | src/main.rs:55-61 | reading a rendered command back gives the route and the username exactly, whatever the username holds |
| `Gateway.RenderParse` | src/main.rs:55-61 | every command that reads back is the rendering of what it reads back to |
| `Gateway.RenderInjective` | src/main.rs:55-61 | different requests give different commands |
| `Gateway.TimeCommandExample` | src/main.rs:55 | the time request for `alice` is `,time alice` |
| `Gateway.ProcessResponse` | src/main.rs:43-47 | a response that starts with the marker is marker followed by the result, any other response comes back unchanged, and the result is always a suffix of the response |
| `Gateway.MarkedResponse` | src/main.rs:43-44 | a response made of the marker and a body comes back as exactly the body |
| `Gateway.HandlerTextForms` | src/main.rs:30-50 | the handler answers with the queueing failure text, the receive failure text, or a received text with its marker removed when it starts with the marker and returned whole when it does not |
| `Gateway.DroppedLooksLikeTimeout` | src/main.rs:40-49 | a dropped slot gives the caller the same text as a timeout, `"Failed to receive response from tildebot"` |
| `Gateway.SendFailureReachesCaller` | src/main.rs:111-112 | a failed IRC send reaches the caller as `"Failed to send IRC command"`, unchanged by marker removal |
| `Gateway.ReplyReachesCaller` | src/main.rs:98-107 | after a successful send, the caller who is still waiting gets the first frame past the drain, cut after its last `"tt-t-bot "` and with the marker removed |
| `Gateway.ReplyAfterAddressee` | src/main.rs:103-105 | in a frame of the form head, `"tt-t-bot "`, body, where the body has no `t`, the answer is the body |
| `Gateway.TimeReplyExample` | src/main.rs:103-107 | the frame `:tt-t-bot PRIVMSG tt-t-bot :[\u{3}03Time\u{3}] 14:02 UTC` reaches the time caller as `14:02 UTC` |
| `Gateway.Handle` | src/main.rs:23-50 | one request end to end: a dead task gives the queueing failure text; a live one appends one slot holding the served outcome, moves the stream position to where serving the command leaves it, sends the rendered command when the send succeeds, and answers with the handler text of that slot |

## Left out

- Rocket routing, the `#[get]` attributes, `State` injection and launching
  the server (src/main.rs:22-23, 119-123). They hold no logic of their own.
- IRC configuration, TLS, connecting, `identify()` and `stream()`
  (src/main.rs:70-84). These are library calls. Their only effect on the
  model is the `alive` flag, because each failure panics through `unwrap()`.
- `reply.to_string()` (src/main.rs:100): frames are modelled as text that is
  already rendered.
- `println!` logging (src/main.rs:91, 93, 102): output only.
- tokio scheduling, the 10-second timer and the interleaving of concurrent
  handlers. Timing becomes the `Env` and `inTime` parameters, and the model
  serves the queue one command at a time in a fixed order.
- IrcTask.Session.Submit: does not block when 100 commands are already
  queued, because waiting on a full channel is a scheduling effect a
  sequential model cannot express.
- Commands queued before a start-up panic: the real task drops them with the
  receiver, and their callers then get the receive failure text. The model
  decides `alive` once, when the session is created.
- A stream that stays silent forever without ending. The real task would
  then wait forever and every later command would hang. In the model each
  stream is finite, so the only trace of this case is the handler's
  `inTime` flag being false.
- `let _ = response_tx.send(..)` ignores a reader that has already given up.
  The model always writes the slot; a reader that gave up is the handler's
  `inTime` being false.
- Gateway.Handle: models a request whose command is the only one queued.
  Requests that overlap are covered by `Session.Run` and the `RunFrom` lemmas.
- Gateway.Format: only templates with one `{}` and no brace escapes are
  modelled, which covers both templates in the code.
- Strings.Split: only non-empty patterns are modelled; the code splits on one
  fixed non-empty nickname.
