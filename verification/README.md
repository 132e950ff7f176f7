# Verified model of an asynchronous LSP server connection

The repository is a Rust library for Language Server Protocol connections, with a formatter server as its main
example. This project models its three hard parts in Dafny and proves what they promise, from bytes to messages,
from messages to requests, and from requests to documents.

**Documents** (`Utf8`, `Positions`, `FormatterServer`, `DocumentMirror`). A text is a byte sequence that is well-formed
by the grammar of section 4 of RFC 3629. `Positions` defines what an LSP position means in a text, token by token and
again line by line: lines end at `\n`, `\r\n` or `\r`, a character offset counts UTF-16 code units. The two directions,
offset to position and position to offset, form a Galois connection. The three hand-written scanners of the formatter
server are loops proved against these functions, with their `u32` counters. On top of them stand incremental edits, the map of
open documents, and whole editing sessions, after each notification of which the server holds what the client holds.

**Frames** (`Framing`, `Codec`, `Pipeline`, `DrainTask`, `Messages`). `Codec` is the resumable decoder and the encoder, working
in place on buffers; `Framing` is the same on values, with subsequence search, decimal numbers, header lines and a
one-shot splitter that the decoder amounts to under every chunking. `Pipeline` is the way from a cloned sender
through the channel, the drain task and a transport that may break at any byte to the peer's decoder, as a step
system. `Messages` is the encoding of messages as JSON objects and the try-order by which they are read back.

**Requests** (`ClientSender`, `RequestQueue`, `Connection`, `Correlation`, `Interleaving`, `CounterCollision`,
`Linearization`, `Cancellation`, `Handshake`). The classes follow the source's structs and their fields. `Correlation` is the step system of everything that
may happen to requests in flight: every lock acquisition and every atomic operation is one step, all callers and the
router interleave freely, and a request may end at any time by timeout, abort or disconnect. `Interleaving` takes
these steps on the real objects, so what is proved of every run holds of the maps, guards, counters and receivers.
`Linearization` shows that routing a response, which takes up to three lock acquisitions, behaves like one atomic
step. `Cancellation` says which tokens are cancelled at the end of a run, in terms of the run alone, and the
invariant of `Connection` ties the real tokens to it. `EndToEnd` puts the layers together.

What the outside world supplies is a parameter or a choice left open: JSON text is a pair of functions `write` and
`read`, body parsing an arbitrary partial function, the upper-casing of a text an arbitrary function on bytes;
what a send answers, when a wait ends and which step comes next is not determined.

Where documentation and code disagree, the model follows the code:

- `examples/formatter_server.rs` says that edits assume ASCII content. The code handles all of Unicode, and that is
  what is proved.
- `src/codec.rs` says that header names are matched case-sensitively. The code ignores the case of ASCII letters
  (`FirstMatchDecides`).
- `src/message.rs` says that a notification has no `id`. An object with a method and an `id` that is
  `null` or out of range is read as a notification; `NotificationDespiteIdIff` says for all objects when.
- `src/client_sender.rs` calls generated ids unique. Every `client_sender()` result counts from 1 over the same map, and a
  guard removes an entry by id alone. `TwoCountersCollide` is a run in which one request takes away the entry of
  another; `GuardRemovesAnotherIff` says exactly when that happens, and `LiveIdsEqualIff` when two requests have the
  same id, on one handle or on several.
- An editor that cuts between `\r` and `\n` is not mirrored. `RecoveredIffSafe` and `SpliceMirroredIff` say
  exactly when offsets and edits survive.
- `src/connection.rs` says that an exit succeeds if a shutdown was received first. A second exit fails, and so
  does one after a handshake completed late (`ShutdownFirstDoesNotSuffice`); `ExitSucceedsIff` says when.

## Model

| member | source | states |
|---|---|---|
| `Utf8.FirstScalar` | examples/formatter_server.rs:437-440 | a scalar takes exactly the bytes that its UTF-8 width says, so stepping by `len_utf8` stays on boundaries |
| `Utf8.EncodedValue` | examples/formatter_server.rs:437-440 | the bytes of a scalar are those of UTF-8: the leading byte tells their number, the rest carry six bits each, and there are no fewer that would do |
| `Utf8.Utf16IsUtf16` | examples/formatter_server.rs:406 | the units counted are those of UTF-16: a scalar below 0x1_0000 is its own unit, any other is a high and a low surrogate that carry its bits |
| `Utf8.Utf16UnitsConcat` | examples/formatter_server.rs:401-413 | the units of a text are those of its scalars, one after the other |
| `Utf8.FirstScalarEncodes` | examples/formatter_server.rs:476-481 | the first scalar of a text, encoded again, is the bytes it was read from |
| `Utf8.EncodedScalarDecodes` | examples/formatter_server.rs:401-413 | an encoded scalar is read back whatever follows it, in `len_utf8` bytes |
| `Utf8.EncodeScalars` | examples/formatter_server.rs:401-413 | bytes are well-formed text exactly when encoding the scalars read from them gives them back |
| `Utf8.ScalarsEncode` | examples/formatter_server.rs:401-413 | every scalar sequence encodes to a text that reads as that sequence |
| `Utf8.ValidConcat` | examples/formatter_server.rs:375-381 | joining texts gives a text |
| `Utf8.CharBoundarySplits` | examples/formatter_server.rs:378-380 | slicing a text at an offset is allowed exactly where both halves are texts |
| `Positions.TokenBoundaryIsSafe` | examples/formatter_server.rs:423-443 | the offsets at which the byte scan can stop are exactly the scalar boundaries that are not inside a `\r\n` |
| `Positions.ExtentBound` | examples/formatter_server.rs:452-487 | lines and characters together never exceed the bytes, which is why `u32` counters suffice below 4 GiB |
| `Positions.OffsetIsBoundary` | examples/formatter_server.rs:392-416 | every position denotes an offset within the text, between scalars and not inside a `\r\n` |
| `Positions.Galois` | examples/formatter_server.rs:392-487 | the position of offset `o` is at or before `p` if and only if `o` is at or before the offset of `p`: the two conversions are adjoint |
| `Positions.RecoveredIffSafe` | examples/formatter_server.rs:392-487 | converting an offset to a position and back gives the offset if and only if it is not inside a `\r\n`; there it gives the offset after the `\n` |
| `Positions.OffsetMonotone` | examples/formatter_server.rs:392-416 | later positions denote later offsets |
| `Positions.BackwardsIff` | examples/formatter_server.rs:374 | the guard of an edit fails exactly when a boundary of the text lies after the end of the range but not after its start |
| `Positions.OffsetClamps` | examples/formatter_server.rs:394-396 | a position denotes the end of the text exactly when the text ends at or before it |
| `Positions.LinesCutText` | examples/formatter_server.rs:418-450 | the lines of a text hold no byte 10 or 13, each but the last is closed by `\n`, `\r\n` or `\r`, and no `\r\n` is cut in two |
| `Positions.LinesJoin` | examples/formatter_server.rs:418-450 | lines and their ends, put together, are the text |
| `Positions.ExtentByLines` | examples/formatter_server.rs:452-487 | the end position is the number of line ends and the number of UTF-16 code units of the last line |
| `Positions.OffsetByLines` | examples/formatter_server.rs:392-450 | the offset of a position is the start of its line plus the longest run of scalars that fits into the character; past the last line it is the end of the text |
| `Positions.FitIsGreatest` | examples/formatter_server.rs:401-413 | a cut of a line is within that run exactly when it takes no more UTF-16 code units than the character, so a position inside a surrogate pair rounds down |
| `FormatterServer.LineStartOffset` | examples/formatter_server.rs:418-450 | the byte scan finds the offset of position `(line, 0)`, for all texts and all `u32` lines |
| `FormatterServer.OffsetByLineStart` | examples/formatter_server.rs:392-416 | finding the line first and the character from there gives the offset of the position |
| `FormatterServer.PositionToOffset` | examples/formatter_server.rs:392-416 | the scalar scan finds the offset of every position for which its `u32` counter does not overflow |
| `FormatterServer.LocatableIf` | examples/formatter_server.rs:392-416 | it does not in any text below 4 GiB, nor for any but the last two characters that a `u32` can name |
| `FormatterServer.EndPositionUtf16` | examples/formatter_server.rs:452-487 | the mixed scan computes the end position of every text whose positions fit the `u32` counters |
| `FormatterServer.ShortTextFits` | examples/formatter_server.rs:452-487 | those of every text below 4 GiB do |
| `FormatterServer.ApplyChangeKeepsText` | examples/formatter_server.rs:367-388 | a change turns a text into a text, whatever its range |
| `FormatterServer.OrderedEditSplices` | examples/formatter_server.rs:369-383 | for a range whose end is not before its start the guard passes and the result is prefix, new text and suffix, cut at scalar boundaries |
| `FormatterServer.OtherChanges` | examples/formatter_server.rs:374-387 | a range that runs backwards in offsets changes nothing, and a change without a range replaces everything |
| `FormatterServer.ChangesInOrder` | examples/formatter_server.rs:367-389 | changes apply one after the other, each to what the earlier ones left |
| `FormatterServer.ApplyIncrementalChanges` | examples/formatter_server.rs:363-390 | the document becomes what its changes, applied one after the other, make of it, and stays a text |
| `FormatterServer.CreateUppercaseEdit` | examples/formatter_server.rs:292-309 | the formatting edit ranges from (0,0) to the end position and, applied as a change, yields exactly the new text; an empty document gets no edit |
| `FormatterServer.HandleKeepsTexts` | examples/formatter_server.rs:312-345 | every notification leaves every open document a text |
| `FormatterServer.HandleAt` | examples/formatter_server.rs:312-345 | for every URI, what a notification makes of the document there: only the one it names is opened, changed if it is open, or closed, with its version; malformed and unknown notifications do nothing |
| `FormatterServer.ServerState.HandleNotification` | examples/formatter_server.rs:312-345 | each notification changes the map of documents as `Handle` says: one entry, or nothing when it is malformed, unknown or for a document that is not open; no two URIs ever share a document |
| `DocumentMirror.ReportedEdit` | examples/formatter_server.rs:363-390 | a splice is reported as the range of the positions it replaces, and the server makes of it what the client did to its own copy |
| `DocumentMirror.SpliceMirroredIff` | examples/formatter_server.rs:363-416 | any splice at scalar boundaries, reported as a range, is mirrored if and only if neither end is inside a `\r\n`, or both are and the new text is a run of `\n` |
| `DocumentMirror.InsertionMirroredIff` | examples/formatter_server.rs:363-416 | so an insertion is mirrored if and only if it is not inside a `\r\n`, or its text is a run of `\n` |
| `DocumentMirror.NotMirroredInside` | examples/formatter_server.rs:363-416 | a concrete insertion between `\r` and `\n` that is not mirrored |
| `DocumentMirror.ShortTextNameable` | examples/formatter_server.rs:392-487 | in a text below 4 GiB every offset between scalars has a position that fits the wire and that the server can scan for |
| `DocumentMirror.ReportedEdits` | examples/formatter_server.rs:363-390 | the same for any number of edits in one notification, each reported on the text that the earlier ones left |
| `DocumentMirror.MirrorStep` | examples/formatter_server.rs:312-345 | opens, edits and closes are sent as didOpen, didChange and didClose, edits by their changes only, and each keeps both maps of documents equal |
| `DocumentMirror.Mirror` | examples/formatter_server.rs:312-390 | after every notification of every session of opens, edits and closes over any documents, the server's map is the client's |
| `Framing.FindSubsequence` | src/codec.rs:152-156 | finds the first occurrence, and finds one exactly when there is one |
| `Framing.HeaderText` | src/codec.rs:139-171 | the header names are `Content-Length: ` as sent and `content-length:` as compared, and lines end at bytes 13, 10 |
| `Framing.ParseDigitsIff` | src/codec.rs:174-177 | number parsing accepts exactly the digit strings whose value fits a `usize`, and yields that value |
| `Framing.ValueOfDigits` | src/codec.rs:174-177 | the value of a digit string is that of its decimal digits |
| `Framing.ParseUsizeIff` | src/codec.rs:174-177 | a length is one digit or more, after a `+` or not, whose value fits 64 bits; anything else, also nothing, is an error |
| `Framing.WhitespaceIs` | src/codec.rs:175 | white space is what Unicode says |
| `Framing.TrimRemoves` | src/codec.rs:175 | trimming removes the white space at both ends, all of it and nothing else |
| `Framing.DecimalDigits` | src/codec.rs:139 | lengths are printed in base ten, most significant digit first |
| `Framing.ContentLengthNames` | src/codec.rs:168-171 | a line tells the length exactly if it starts with the fifteen bytes of the name, each letter small or capital |
| `Framing.DecimalReadsBack` | src/codec.rs:139 | a printed length is read back, if and only if it fits a `usize` |
| `Framing.FirstMatchDecides` | src/codec.rs:168-184 | among any header lines the first of the right name decides; without one there is no length |
| `Framing.ReadHeaderAt` | src/codec.rs:90-103 | a header ends at the first 13, 10, 13, 10, is read from what comes before, and is waited for if there is none |
| `Framing.HeaderOfLines` | src/codec.rs:163-185 | a header of any lines is read as the length that its first line of the right name tells, and is an error without such a line, with another value, or if it is no UTF-8 |
| `Framing.HeaderInAnyCase` | src/codec.rs:169-173 | a length announced under a name of any letter case is read |
| `Framing.HeaderParses` | src/codec.rs:139 | the header that the encoder writes is read as the length it was written for |
| `Framing.ReadHeaderExtends` | src/codec.rs:90-103 | a header that has been read is not read differently when more bytes arrive |
| `Framing.FrameHeader` | src/codec.rs:92-103 | the first terminator of a frame is its header's, even if the body holds terminators of its own |
| `Framing.PartialFrame` | src/codec.rs:92-114 | a frame cut short at any byte is no header yet, or its own header with the body outstanding |
| `Framing.PartialFrameWaits` | src/codec.rs:92-114 | so it yields nothing and is no error |
| `Framing.DrainIsSplit` | src/codec.rs:88-124 | calling the decoder until it returns nothing is the one-shot splitting of the buffer |
| `Framing.DrainMore` | src/codec.rs:88-124 | draining before and after more bytes arrive is draining once after they have arrived |
| `Framing.ChunkingInvariance` | src/codec.rs:88-124 | for every stream and every way to cut it into chunks the decoder yields the messages and body errors of the one-shot splitter, up to the first header error, and its pending length and buffer are exactly the unconsumed suffix |
| `Framing.HeaderErrorStays` | src/codec.rs:96-98 | a header error consumes nothing, and no later bytes repair it |
| `Framing.SplitMore` | src/codec.rs:88-124 | splitting may be interrupted anywhere and continued from the waiting decoder |
| `Framing.FrameRoundTrip` | src/codec.rs:96-123 | decoding an encoded frame consumes exactly that frame and leaves the rest, whether its body parses or not |
| `Codec.LspCodec.Decode` | src/codec.rs:88-124 | one in-place call has the outcome, the hidden state and the remaining buffer of the decoder on values |
| `Codec.LspCodec.Encode` | src/codec.rs:130-145 | exactly the header with the length in decimal, an empty line and the body are appended to the buffer |
| `Pipeline.OutboundStep` | src/connection.rs:104-111 | in every step, what is written and what is queued is all that was enqueued, in order, until the transport breaks |
| `Pipeline.InboundStep` | src/codec.rs:88-124 | in every step, the peer's decoder stands where the splitter ends on the bytes delivered so far |
| `Pipeline.SplitFrames` | src/codec.rs:88-145 | a sequence of frames cut off at any byte splits into exactly the complete ones, without an error |
| `Pipeline.RunKeeps` | src/connection.rs:94-114 | both invariants hold after every run |
| `Pipeline.FifoPrefix` | src/connection.rs:94-114 | in every interleaving of sends, drain steps, a break at any byte and any chunking, the peer has decoded in order exactly the messages whose frames have arrived completely, a prefix of those enqueued, if on the messages enqueued parsing inverts printing |
| `Pipeline.NothingLost` | src/connection.rs:104-111 | while the transport holds, an empty queue and a fully read wire mean that the peer has every message |
| `Pipeline.AllArrive` | src/connection.rs:104-111 | for any messages on which parsing inverts printing there is a run that enqueues them and in which the peer decodes all of them |
| `Pipeline.BreaksAnywhere` | src/connection.rs:106-109 | for every byte of the frames of any messages there is a run in which the transport breaks there, and then the peer has exactly the messages whose frames end before |
| `DrainTask.Run` | src/connection.rs:104-111 | the drain task writes the frames of what it receives, in order, up to the byte at which the transport breaks |
| `DrainTask.UpToBreak` | src/connection.rs:107-109 | a break within one frame leaves exactly the prefix of all frames that the transport could take |
| `Messages.RequestRoundTrip` | src/message.rs:72-111 | a serialised request is read as that request, with `params: null` read as absent |
| `Messages.ErrorRoundTrip` | src/error.rs:100-110 | a serialised error is read as that error, with `data: null` read as absent |
| `Messages.ResponseRoundTrip` | src/message.rs:177-270 | a serialised response is read as that response, and not as a request |
| `Messages.NotificationRoundTrip` | src/message.rs:394-430 | a serialised notification is read as that notification, and not as a request or a response |
| `Messages.RoundTrip` | src/message.rs:432-477 | every message survives serialising and the try-order, in its own variant |
| `Messages.DeserialisedIsNormal` | src/message.rs:468-477 | whatever is read is in normal form, so writing and reading it again changes nothing |
| `Messages.FieldsRead` | src/message.rs:89-270 | every field of a message that is read is the member of its object: id, name and params, and of a response the result when `error` is absent or `null`, else the error with its code, message and data |
| `Messages.RequestWritten` | src/message.rs:72-87 | the object of a request has exactly the members `jsonrpc`, `id`, `method` and, if there are any, `params` |
| `Messages.ResponseWritten` | src/message.rs:177-194 | that of a response exactly `jsonrpc`, `id`, which may be `null`, and `result` or `error` |
| `Messages.ErrorWritten` | src/error.rs:100-110 | that of an error exactly `code`, `message` and, if there is any, `data` |
| `Messages.NotificationWritten` | src/message.rs:394-408 | that of a notification exactly `jsonrpc`, `method` and, if there are any, `params` |
| `Messages.Discrimination` | src/message.rs:432-477 | for every object, which variant it becomes, if any, in terms of its members |
| `Messages.NotificationDespiteIdIff` | src/message.rs:437-446 | an object with an `id` is read as a notification if and only if its id is not valid, it has a method, and it is not a response with a `null` id |
| `Messages.NullIdNotification` | src/message.rs:437-446 | a concrete object with an `id` that is read as a notification |
| `Messages.CancelParamsRoundTrip` | src/request_queue.rs:95-107 | the notification that cancels a request is `$/cancelRequest` with its id and names it at the peer too, for every integer and string id |
| `ClientSender.ResponseMap.TryRegister` | src/client_sender.rs:34-43 | registers a new slot exactly when the id is free, and changes nothing otherwise |
| `ClientSender.ResponseMap.Deliver` | src/client_sender.rs:49-56 | removes the entry and gives its receiver the response; reports whether there was one |
| `ClientSender.PendingResponseGuard.Drop` | src/client_sender.rs:82-88 | an armed guard removes the entry under its id, a disarmed one nothing |
| `ClientSender.ClientSender.constructor` | src/client_sender.rs:107-118 | a new handle shares the map and counts from 1 on a counter of its own |
| `ClientSender.ClientSender.NextId` | src/client_sender.rs:179-201 | the counter goes round 1 to `i32::MAX`, so neither panic can happen |
| `ClientSender.CyclicIs` | src/client_sender.rs:179-190 | the `k`-th id from a counter is that many steps on in the cycle of `i32::MAX` ids |
| `ClientSender.ClientSender.ReserveRequestSlot` | src/client_sender.rs:203-214 | run alone it takes the first free of the 1000 ids from the counter on, fails if and only if all of them are pending, and so succeeds whenever fewer than 1000 requests are pending |
| `ClientSender.Pigeonhole` | src/client_sender.rs:203-214 | if `n` consecutive ids, across wraparound, are all pending then at least `n` requests are |
| `ClientSender.WindowSize` | src/client_sender.rs:179-201 | `n` consecutive ids across wraparound are `n` different ids |
| `Correlation.StepKeeps` | src/client_sender.rs:34-88 | every step of every caller and of the router keeps the correlation invariant |
| `Correlation.RunKeeps` | src/client_sender.rs:227-255 | so does every run |
| `Correlation.Correlated` | src/client_sender.rs:227-255 | over all interleavings: every entry belongs to a request in flight with that id, none is left when none is in flight, every `Ok` response carries the id the caller sent, no response reaches two receivers of either kind, and every response that has left the router is found where exactly one fate puts it: with a caller or lost with the receiver it was for, with an outgoing receiver, or among those handed back |
| `Correlation.NothingIsStuck` | src/client_sender.rs:179-255 | in every reachable state each call can take its next step and end in either way, the router can go on, any response may arrive, and a caller that draws an id finds its counter in range |
| `Correlation.DrawsKept` | src/client_sender.rs:179-201 | in every run each counter stands where its number of draws puts it, and no draw is used by two live requests |
| `Correlation.LiveIdsEqualIff` | src/client_sender.rs:179-201 | two live requests, on whatever handles, have the same id if and only if a multiple of `i32::MAX` lies between their draws; so with fewer draws during any life all ids on one handle are different |
| `Correlation.DeliveredTo` | src/connection.rs:496-504 | a response is delivered to a live request with its id; another live request has that id if and only if its draw is such a multiple apart, so with short lives none on the same handle has |
| `Correlation.GuardRemovesAnotherIff` | src/client_sender.rs:82-88 | dropping a guard removes the entry of another request if and only if their draws are such a multiple apart; with short lives never that of a request on the same handle |
| `CounterCollision.TwoCountersCollide` | src/connection.rs:572-588 | a concrete run of two `client_sender()` results in which the first request's guard removes the second's entry, whose response is then handed back as unknown |
| `Interleaving.Callers.NewHandle` | src/connection.rs:572-588 | a new sender on the real map and a new counter is the step of the same name |
| `Interleaving.Callers.NewCall` | src/client_sender.rs:149-156 | so is starting a request on one of the handles |
| `Interleaving.Callers.Draw` | src/client_sender.rs:179-201 | drawing an id on the real counter is the step of the same name |
| `Interleaving.Callers.Register` | src/client_sender.rs:206-210 | so is registering it; the call holds a receiver and an armed guard exactly if the id was free |
| `Interleaving.Callers.GiveUp` | src/client_sender.rs:211-213 | so is giving up after 1000 ids, which leaves no entry behind |
| `Interleaving.Callers.Enqueue` | src/client_sender.rs:234-239 | so is enqueuing the request under its id, or finding the channel closed |
| `Interleaving.Callers.Receive` | src/client_sender.rs:241-248 | so is returning the response; it carries the id of the request, and the disarmed guard leaves the map alone |
| `Interleaving.Callers.End` | src/client_sender.rs:249-253 | so is ending without a response |
| `Interleaving.Callers.DropGuard` | src/client_sender.rs:82-88 | so is dropping the armed guard, which removes the entry under its id |
| `Interleaving.Callers.Look` | src/connection.rs:496-501 | so is asking the real map for an id |
| `Interleaving.Callers.Deliver` | src/client_sender.rs:49-56 | so is delivering to whatever entry stands in the real map by then |
| `Interleaving.Callers.FallBack` | src/connection.rs:506-514 | so is completing the entry of the outgoing table, or handing the response back |
| `Interleaving.Callers.OutRegister` | src/request_queue.rs:266-270 | so is registering a request in the outgoing table, with a receiver that nobody else holds |
| `Interleaving.Callers.OutCancel` | src/request_queue.rs:294-296 | so is cancelling one |
| `Interleaving.Callers.EntriesAreGuarded` | src/client_sender.rs:227-255 | after every run every entry of the real map belongs to a call that waits for it with its guard armed, and the map is empty when no call is in flight |
| `Linearization.RouteConsumesOne` | src/connection.rs:496-518 | the atomic step consumes exactly one entry, of the response map if that has one, or hands the response back intact and changes no table |
| `Linearization.StepRefines` | src/connection.rs:496-518 | each step of routing is observed as nothing or as the atomic step, whatever callers do in between |
| `Linearization.RunRefines` | src/connection.rs:496-518 | every run is observed as a run in which routing a response is one atomic step |
| `Cancellation.PendingIff` | src/request_queue.rs:161-171 | a routed request is in the table under its id exactly until that id is completed or registered anew |
| `Cancellation.CancelledIff` | src/request_queue.rs:185-192 | its own token is cancelled exactly when a cancellation of its id reached it while it was in the table |
| `Cancellation.CancellationTrace` | src/connection.rs:474-495 | the token of the request routed at `k` is cancelled if and only if a shutdown occurs anywhere in the run, or a cancellation of its id follows `k` with no completion or new registration of the id in between |
| `Connection.Connection.TokenCancelledIff` | src/connection.rs:962-967 | the real token of every routed request is cancelled exactly when the run says so |
| `Connection.Connection.RouteRequest` | src/connection.rs:476-482 | a routed request gets a fresh token below the shutdown token, known under its id |
| `Connection.Connection.CancelIncoming` | src/connection.rs:548-550 | cancels the pending request with that id, and reports whether there was one |
| `Connection.EventOfIs` | src/connection.rs:483-495 | a notification cancels request `id` if and only if its method is `$/cancelRequest` and its params are an object whose `id` is that integer or string |
| `Connection.Connection.RouteNotification` | src/connection.rs:483-495 | such a notification cancels the pending request and is swallowed; any other is handed on and touches no token and no entry |
| `Connection.Connection.RouteResponse` | src/connection.rs:496-518 | a response goes to the entry of the response map, else to that of the outgoing table, else back as it came; no other entry or receiver is touched |
| `Connection.Connection.Route` | src/connection.rs:474-520 | each kind of message is recorded and answered as the source does: a fresh token, a cancellation or the notification itself, or a routed response, and the invariant on tokens holds on |
| `Connection.Connection.CancelOutgoing` | src/connection.rs:698-712 | tells the peer and forgets the receiver, or does neither when the channel is closed |
| `Connection.Connection.GetClientSender` | src/connection.rs:572-588 | every handle works on the one response map of the connection and counts from 1 on its own |
| `Connection.Connection.HandleShutdown` | src/connection.rs:962-976 | cancels every token through the shutdown token, changes the state even if the reply cannot be sent, and replies `null` under the id |
| `Connection.Connection.HandleExit` | src/connection.rs:997-1006 | the code is the one that the shutdowns, exits and handshake phases so far determine, and the state becomes Exited |
| `Handshake.ExitSucceedsIff` | src/connection.rs:978-1006 | an exit is a success if and only if a shutdown came before it with no other lifecycle step in between |
| `Handshake.ShutdownFirstDoesNotSuffice` | src/connection.rs:980-981 | concrete runs with a shutdown before an exit that is an error |
| `Connection.Connection.InitializeStart` | src/connection.rs:754-793 | returns the first `initialize`, having rejected exactly the requests before it, and does so if and only if that comes before an `exit`, an error and the end of the stream, unless a send fails; on failure exactly the requests up to there have been rejected |
| `Connection.Connection.InitializeFinish` | src/connection.rs:834-882 | sends the result, rejects exactly the requests before the first `initialized`, and reaches Running; if no send fails and the wait does not time out, it does so if and only if `initialized` comes before an error and the end of the stream; on failure the state stays, and what was sent and what is still to come are told |
| `Connection.Connection.Initialize` | src/connection.rs:918-928 | a successful handshake has sent one rejection for each request other than the accepted `initialize`, in order of arrival, and between the two phases the one result, under its id; if no send fails and the wait does not time out, it succeeds if and only if `initialize` and then `initialized` are received |
| `Connection.ParamsHandedOn` | src/connection.rs:762 | missing params are handed on as `null` |
| `Handshake.StartEnd` | src/connection.rs:757-791 | the first phase ends at the first `initialize`, `exit` or error |
| `Handshake.FinishEnd` | src/connection.rs:848-878 | the second phase ends at the first `initialized` or error |
| `Handshake.PhaseEnds` | src/connection.rs:757-878 | these are the messages named `initialize`, `exit` and `initialized` on the wire |
| `Handshake.FailuresMean` | src/connection.rs:770-790 | the phases fail as disconnected at an `exit` (the first only) or the end of the stream, and with an I/O error at an error or a failed send |
| `Handshake.RequestsCounted` | src/connection.rs:765-773 | the answers are counted by the requests, one each |
| `Handshake.EachRequestRejectedOnce` | src/connection.rs:765-773 | every request is answered exactly once, at its place in the order of arrival, with error -32002 under its own id |
| `EndToEnd.MessageFormatIsLawful` | src/codec.rs:120-132 | if the texts of some messages are read back, so are these messages |
| `EndToEnd.MessagesArrive` | src/connection.rs:94-114 | whatever happens on the way, what the peer has decoded is a prefix of the messages enqueued, in normal form, if their texts are read back |
| `EndToEnd.TextExists` | src/codec.rs:120-132 | there are such texts for any messages |
| `EndToEnd.DocumentsArrive` | examples/formatter_server.rs:312-390 | of a client that edits its documents and reports every step over a wire that may break, in any chunks, the server has at any time decoded the notifications of the first so many steps, and holds the documents that the client had after as many |
| `EndToEnd.RoutedInOrder` | src/connection.rs:474-520 | the peer routes what it has decoded in the order of sending, whatever it is told locally in between |
| `EndToEnd.CancelReachesPeer` | src/connection.rs:698-712 | a cancellation sent after a request cancels the token of that very request at the peer once both are routed, unless the peer completed or re-registered the id in between; for every kind of id |
| `EndToEnd.CancelDoesReach` | src/connection.rs:698-712 | for every request there is a run that meets these conditions, and in it the token is cancelled |

## Left out

- JSON text: number formatting, escapes, duplicate keys and structs read from arrays belong to serde_json; a JSON object is the map of its members, and text is a pair of parameters.
- The tokio runtime, wakers, real time, stdio and duplex streams: waits end when the model chooses, a transport is a number of bytes it takes.
- The end of a stream inside the framing adapter (`decode_eof`) and what the adapter does after a decode error: they belong to tokio-util.
- FormatterServer.PositionToOffset: does not say what a build with or without overflow checks does where the source's `u32` counter overflows; `Locatable` says where that is.
- FormatterServer.EndPositionUtf16: the same, of its two counters; `CountersFit` says where they overflow.
- FormatterServer.ApplyIncrementalChanges: the same, of the positions of its ranges.
- FormatterServer.CreateUppercaseEdit: the Unicode tables of `to_uppercase` are a parameter, and the text is one that `EndPositionUtf16` covers.
- DocumentMirror.Mirror: the client cuts where the position fits the wire and the server's scan for it does not overflow, which is everywhere in texts below 4 GiB.
- ClientSender.ClientSender.ReserveRequestSlot: states the loop run alone; with other callers in between it is the steps `Draw`, `Register` and `GiveUp`.
- Connection.CancellationToken and the token tree: children are one level below the shutdown token, as `route` makes them; tokens that a user puts into the public `request_queue` fields or supplies with a queue of their own are not covered.
- The asynchronous functions `request`, `request_timeout` and `send_registered_request` as single methods: they are the methods of `Interleaving.Callers`, one between each two points of interruption, in any order that `Correlation.Enabled` allows.
- Interleaving.Callers.OutRegister, Interleaving.Callers.OutCancel: the receivers of outgoing requests are kept by their users.
- A receiver of a call whose message could not be enqueued counts as gone at once; in the source it goes right after the guard, and is not looked at in between.
- A channel that is found closed by a send stays closed; when the drain task closes it is left open.
- `usize` has 64 bits.
- The tables of `src/lifecycle.rs`, accessors, constructors and error-code tables: one-branch facts, which `route` does not consult.
- The deprecated `send_request` and `handle_cancel_request`: superseded by `ClientSender` and `route`.
- Logging, process exit, the order of document versions, and the formatting command around the edit.
