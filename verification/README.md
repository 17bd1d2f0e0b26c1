# A verified model of the gRPC message path

This project models, in Dafny, how the `trillium-grpc` crates carry gRPC messages, and proves what a
caller relies on. It follows one message path in both directions: the frame writer, the server's
response bodies, the resumable frame reader and the client call, together with the header codecs that
carry the verdict, the deadline and the metadata, the conformance suite's bidi responder, and the
module tree of the macro front end.

| file | what it models |
|---|---|
| `Bytes`, `Decimal`, `Utf8`, `Base64`, `Headers` | text as UTF-8 bytes, number printing and parsing, lossy UTF-8, unpadded Base64, header blocks |
| `Metadata`, `Status`, `Timeout`, `Encoding` | the header codecs and the negotiation of an encoding |
| `Wire`, `ContentType` | the texts and bytes that the protocol fixes, spelled out and proved to be what those codecs write and read |
| `Frames`, `FrameReader` | the length-prefixed format as a recursive parser, and the in-place reader proved equal to it |
| `Body` | the lazy streaming body and the one-shot body |
| `ClientSpec`, `ClientRuns`, `ClientConn` | the client call: a relation per operation, theorems over every run, and the class that implements the relation |
| `Typed`, `Streaming` | the unary call and the stream view of a call, on top of the client |
| `ClientHeads`, `ClientRequests` | the response head as the client takes it, and the request as the server gets it, over every run |
| `Dispatch`, `EndToEnd` | the server's half-duplex dispatch, and both ends together |
| `Bidi`, `Conformance` | the server's bidi channel, and the conformance responder across the prologue's seam |
| `ModTree` | the trie built through a mutable cursor, and its emission |

## How to read it

*Reading.* `Frames.Items` says, by plain recursion, what a byte string and the way it ends mean to a
reader. `FrameReader.MessageStream` is the state machine over arrays. `Todo()` is everything the object
is still going to answer; every method is proved to answer from the front of it and to leave the rest.

*The client.* `ClientSpec.Performs` relates the state before and after one operation, its answer
included. It is nondeterministic wherever the network, the clock or a cancelling thread is.
`ClientConn.GrpcClientConn` implements it method by method on mutable fields, with loops that poll a
race; each method ensures `Performs(call, old(State()), op, out, State())`. `ClientRuns` then proves
properties of `Run`, that is of any operations in any order in any world, and `Typed.DriveCall` says
that every use of the class is such a run. `StreamingCalls.RecvFuture` takes the steps of a `recv` one
poll at a time, with the engine's own races; however it is suspended, it counts as one `recv` of the run,
from the state in which it began.

*The environment* is made of small classes which choose freely: `ByteSource` (short reads, waiting, an
I/O error or EOF at any point), `World` (a clock that never runs backwards, a cancel flag that is never
lowered), `Transport`, `ItemStream`, `CancelSignal`, `Sink`. A source may make its caller wait at any
poll; a `patience` counter bounds how often it still does, so that a caller who keeps polling gets on.
Nothing is assumed about a server's reply except where a theorem says what the server did.

*Messages.* What the framework says itself in a status is a constructor of `Statuses.Message`;
`Statuses.Wording` spells each of them out, and that text is what goes on the wire.

*The wire.* A round trip says nothing about the form in between: a codec and its inverse can both have
the bytes of a length in the wrong order. `Frames.FrameSpelled` and `Frames.FrameRead`, `Wire` and
`ContentTypes` therefore state each form against a reference of its own: literal texts, tables, alphabets
and the arithmetic of the standards.

*Foreign code.* The message codec and the compression libraries are function parameters. Where a
theorem needs that they undo themselves, it says so (`Frames.Agreed`, `Encodings.Lossless`,
`EndToEnd.Peers`).

## Where the code and its comments differ

The model follows the code.

- A message that cannot be decompressed or decoded does not finish the reader: it goes on at the next
  prefix (`src/frame/reader.rs:200-218`, against the comment at 110-111).
- `send` on a call that has not fired only buffers, also for bidi calls (`src/client/conn.rs:333-339`,
  against `src/client/typed.rs:469-470`).
- The timeout parser accepts more than eight digits (`src/timeout.rs:47-50`); `Timeout.ParseAccepts`
  states its exact domain.
- A payload length is cast to 32 bits (`src/frame/writer.rs:35`), so the frame round trip holds if and
  only if the message fits; `Frames.FrameRoundTrip` gives the condition.
- `grpc-status` is parsed as a `u8`, so leading zeros and a leading plus sign are accepted
  (`src/status.rs:205`); `Statuses.ReadCodeExact` states this.
- A second call of the streaming body's `trailers` would report success (`src/server/body.rs:180-188`);
  the contract of `StreamBody.Trailers` shows it in its new state.
- After an oversize message or a truncated frame a fresh reader over the same bytes is *not* in step:
  `Frames.SeamExact` gives the exact condition and `Frames.SeamBreaksAfterOversize` the bytes, for
  every cap.
- A live `send` that fails may leave part of its frame on the wire, before the frames of later sends
  (`src/client/conn.rs:340-350`): `ClientRuns.ConservedExactly` gives the exact condition.
- Stickiness of a passed deadline needs that nobody sets a new one: `ClientRuns.NewDeadlineLifts`, and
  `ClientRuns.LiftsExactly` for the exact condition.

## Model

| member | source | states |
|---|---|---|
| Frames.LengthRoundTrip | src/frame/writer.rs:34-35 | the four length bytes read back as the length modulo 2^32, for every length |
| Frames.WritePayload | src/frame/writer.rs:27-38 | the buffer built by pushes is the frame of the format: flag, length, body; compression errors pass through |
| Frames.FrameSpelled | src/frame/writer.rs:27-38 | the frame byte by byte: flag 0 or 1, the length in four bytes with the most significant first, then the packed payload |
| Frames.FrameRead | src/frame/reader.rs:158-200 | five prefix bytes spelled out: the length is read most significant byte first, an uncompressed payload within the cap reaches the codec as it is and leaves what follows, a longer one is ResourceExhausted |
| Frames.CodecInput | src/frame/reader.rs:200-216 | every byte string handed to the codec is within the message cap, decompressed ones included; a compressed flag without an encoding is an Internal error |
| Frames.StepConsumesOneFrame | src/frame/reader.rs:132-218 | an outcome that keeps the reader going consumed exactly one whole frame and nothing beyond; only errors finish it: Internal for a short prefix or payload, Unavailable if the transport failed there, ResourceExhausted for an oversize length |
| Frames.SeamExact | src/server/grpc_conn.rs:100-110 | handing the stream to a fresh reader after an outcome is transparent if and only if that outcome kept the reader in step or nothing is left |
| Frames.SeamExactOnBytes | src/server/grpc_conn.rs:100-110 | the same as a condition on the bytes: a whole frame within the cap is at the front, or the stream ends cleanly and there is no whole prefix with a length above the cap |
| Frames.SeamBreaksAfterOversize | src/frame/reader.rs:158-166 | for every cap that a length can exceed, bytes for which the hand-off after an oversize message takes what is left of it for a frame, where one reader would have ended |
| Frames.SafeSeam | src/server/bidi.rs:31-33 | after any number of in-step messages a fresh reader yields exactly what the first one would have gone on to yield |
| Frames.FrameRoundTrip | src/frame/writer.rs:17-38 | a written frame followed by anything is read back whole, leaving exactly what follows, if and only if its length fits 32 bits and the reader's cap before and after decompression |
| Frames.ParseOfFrame | src/frame/reader.rs:132-200 | what a reader makes of any frame: its message, an oversize error, or a wrong cut when the length does not fit 32 bits |
| Frames.ItemsOfWire | src/frame/reader.rs:117-222 | the frames of any list of fitting messages are read back as that list, in order, and then whatever follows |
| FrameReader.MessageStream.constructor | src/frame/reader.rs:47-86 | a new reader stands at a frame boundary and is going to answer the parse of everything unread |
| FrameReader.MessageStream.Fill | src/frame/reader.rs:133-157 | filling resumes where the last poll left off: bytes in the buffer plus bytes unread never change, whatever the cuts, and why it stopped is exact |
| FrameReader.MessageStream.FinishPrefix | src/frame/reader.rs:132-173 | the prefix phase: waiting changes nothing to be answered, EOF and errors finish the reader with the parser's item, a whole prefix leads to the payload phase |
| FrameReader.MessageStream.FinishPayload | src/frame/reader.rs:175-218 | the payload phase: the item and the bytes left unread are those of the pure parser, and the reader is back at a boundary unless it finished |
| FrameReader.MessageStream.PollNext | src/frame/reader.rs:117-222 | one poll, in any state and for any schedule: waiting keeps what is to be answered, an answer is the next item of the pure parse, and exactly the bytes after that frame stay unread |
| FrameReader.MessageStream.PollMany | src/frame/reader.rs:88-106 | schedule independence: after any number of polls the items answered followed by the items to come are the parse of the whole byte string; until the end every poll answers or waits, and only as often as the source makes it |
| FrameReader.MessageStream.Receive | src/server/streaming.rs:72-80 | polling to completion terminates with the next item of the parse and leaves exactly the rest |
| FrameReader.HandOver | src/server/streaming.rs:115-154 | reading up to k messages, dropping the reader and starting a fresh one over the same source together read what one reader would have read, unless an error ended the first |
| ResponseBody.PlayStops | src/server/body.rs:137-169 | the messages sent up to the place where the stream stops, and the reason it stops there, are those of the reference meaning of the script |
| ResponseBody.StreamBody.PollRead | src/server/body.rs:116-172 | bytes emitted plus bytes pending are always the frames of the items encoded; EOF falls only on a frame boundary after the status was decided; after the end neither the user's stream nor the cancel future is polled |
| ResponseBody.StreamBody.NextFrame | src/server/body.rs:137-169 | cancellation is polled once and first, the stream only while it waits; end, item error, encode failure and cancellation each decide the status of the reference meaning |
| ResponseBody.StreamBody.Trailers | src/server/body.rs:180-188 | the trailers are the recorded status written over the handler's own, and both are given away |
| ResponseBody.StreamBody.Serve | src/server/body.rs:112-188 | for any buffer sizes, waiting and cancellation, the transport reads exactly the frames of the messages of the reference meaning, then trailers with its reason |
| ResponseBody.OneShotBody.PollRead | src/server/body.rs:49-61 | the bytes come out in order in pieces of any size, and zero only at the end |
| ResponseBody.OneShotBody.Serve | src/server/body.rs:49-68 | reading to EOF gives exactly the bytes, and the trailers once |
| ClientRuns.StepLifecycle | src/client/conn.rs:87-103 | what every operation keeps: at most one request, no way back to gathering, an ended call stays ended, a failed open is reported once by the operation that fired, metadata once visible never changes |
| ClientRuns.Lifecycle | src/client/conn.rs:303-321 | over any part of any run: at most one request is ever made, the call never returns to gathering, `headers()` and `trailers()` never vanish or change |
| ClientRuns.OverIsAbsorbing | src/client/conn.rs:391-419 | once ended, every later `recv` of any run reports the end of the stream |
| ClientRuns.FailureDeliveredTwice | src/client/conn.rs:564-570 | a failed open is returned by the firing operation, once more by the next `recv`, and then only the end of the stream follows, in every run |
| ClientRuns.StepAnswers | src/client/conn.rs:422-475 | an operation takes at most one answer off the list of the response's answers, only `recv` does, and a `recv` that does not was interrupted |
| ClientRuns.RecvRefines | src/client/conn.rs:391-475 | in every run without a failed open, what was heard followed by what is left is the list of answers given by head, body and trailers alone |
| ClientRuns.HeardAll | src/client/conn.rs:454-525 | a run that reached the end has heard all of these answers, each once, in order |
| ClientRuns.RecvsReturnAnswers | src/client/conn.rs:391-475 | in a run that nobody cancels and whose deadline has not come, what the `recv`s returned is what was heard, followed by ends of the stream once the call is over |
| ClientRuns.NothingFails | src/client/conn.rs:529-608 | such a run with nothing wrong put into the request, against a server whose head is accepted, has no failed open |
| ClientRuns.AnswersOfMessages | src/client/conn.rs:454-474 | good messages are answered in order, before what follows them |
| ClientRuns.AnswersUpToError | src/client/conn.rs:468-471 | the first bad item ends the answers with its own error, in place of the verdict and of whatever follows |
| ClientRuns.VerdictPrecedence | src/client/conn.rs:495-525 | any status in the real trailers decides, whatever the head announced, and one that a server wrote is delivered; else the head's decides; else the verdict is Unknown |
| ClientRuns.RequestsConserved | src/client/conn.rs:328-353 | once fired, request body and live writes are exactly the frames of every buffered or successfully sent message, in call order, in every run in which no failed send left part of its frame behind |
| ClientRuns.ConservedExactly | src/client/conn.rs:328-353 | that law holds if and only if no failed live send left part of its frame on the wire |
| ClientRuns.FailedSendMayStray | src/client/conn.rs:340-350 | a failed live send can leave the first byte of its frame behind, so the condition is needed |
| ClientRuns.ConservedWhileSendsSucceed | src/client/conn.rs:328-353 | in terms of what a caller sees: as long as every live send of a message that can be framed returned Ok, the law holds |
| ClientRuns.FirstBrokenSend | src/client/conn.rs:340-350 | after the first such send that failed, the wire is the accepted frames, then a front part of its frame |
| ClientRuns.LiveSendExtends | src/client/conn.rs:340-350 | a live send adds its whole frame or, when it fails, at most a front part of its own frame |
| ClientRuns.DoomedCall | src/client/conn.rs:529-532 | a call with a recorded construction error never makes a request and keeps the first error, in every run |
| ClientRuns.FirstErrorSurfaces | src/client/conn.rs:195-241 | the first rejected metadata entry, as InvalidArgument, or unframeable message is the error that the firing operation returns |
| ClientRuns.BarredIsSticky | src/client/conn.rs:649-685 | after `cancel()`, or strictly past the deadline while nobody sets a new one, no `recv` yields a message, nothing is written, and a gathering call never fires |
| ClientRuns.CancelIsFinal | src/client/conn.rs:112-117 | after `cancel()` the same holds even if new deadlines are set |
| ClientRuns.NewDeadlineLifts | src/client/conn.rs:220-222 | setting a new deadline does lift a deadline that has passed, so the guard above is needed |
| ClientRuns.LiftsExactly | src/client/conn.rs:649-685 | one step lifts the bar if and only if it sets a deadline on a call that is not cancelled |
| ClientRuns.FrameworkHeadersSurvive | src/client/conn.rs:620-645 | custom metadata can neither hide nor change a header that the framework puts on the request |
| ClientHeads.HeadRefused | src/client/conn.rs:699-773 | which response heads are refused and as what: by the table for their HTTP status, as Unknown when the content type is not gRPC, as Internal for an encoding not in the build |
| ClientHeads.RefusedCall | src/client/conn.rs:529-608 | against such a head, or a transport that fails, whatever operation fires the call returns an error with that code unless interrupted, and the call has failed with it |
| ClientHeads.AcceptedOpens | src/client/conn.rs:727-744 | an accepted head goes live with all items of the body to come, keeping a status it has for the end |
| ClientHeads.TrailersOnlyAnswers | src/client/conn.rs:454-525 | a head with a status and no trailing one: its status is the one answer if there is no body, a message is an Internal violation, an unreadable one its own error |
| ClientHeads.TrailersOnlyHeard | src/client/conn.rs:487-525 | in every run that reaches the end, that answer was heard, and `trailers()` shows the head |
| ClientHeads.HeadersAreTheHead | src/client/conn.rs:300-312 | in every run without a failed open, `headers()` is the head of the response from the opening on |
| ClientHeads.TrailersAreTheWires | src/client/conn.rs:314-321 | at the end of a normal response with good messages, `trailers()` is what was on the wire |
| ClientRequests.MetadataArrives | src/client/conn.rs:618-645 | in every run, the request once made carries under each key the values given at first, then those of every legal entry added before the call fired, in call order, and nothing else |
| ClientRequests.RequestMetadata | src/client/conn.rs:641-644 | any peer reads the gathered metadata off the request's headers unchanged |
| ClientRequests.RequestFired | src/client/conn.rs:527-563 | the one request of a run was made by an operation that needs a response, from the state before it: body, upgrade, metadata, each of the protocol's headers and the time left until the deadline |
| ClientRequests.FiringOps | src/client/conn.rs:246-256 | `open_head`, `close_send` and `recv` never leave a call gathering; when they succeed exactly one request was made, and a recorded error is what they return |
| ClientRequests.CloseSeals | src/client/conn.rs:355-385 | a `close_send` that answers Ok has ended the request: a gathering call is fired and live, an upgraded one closed, its reading half still open |
| ClientRequests.ClosedByCloseSend | src/client/conn.rs:355-385 | in every run the sending half stays closed once closed, and only a `close_send` answering Ok on a full-duplex call closes it |
| ClientRequests.ClosedArrives | src/client/conn.rs:355-385 | in every run, after such a `close_send` the server has been told that the request is complete |
| ClientRequests.LateSendRefused | src/client/conn.rs:332-352 | a send after closing or after the response started is refused as Internal and changes nothing |
| ClientRequests.LiveSendErrors | src/client/conn.rs:340-350 | a live send fails only as Cancelled when cancelled, as DeadlineExceeded at or past the deadline, or as Unavailable |
| ClientRequests.LateMetadataIgnored | src/client/conn.rs:195-218 | metadata added once the call has fired changes nothing |
| ClientRequests.BarredRecv | src/client/conn.rs:649-685 | a `recv` on a cancelled or overdue call fails as Cancelled or DeadlineExceeded, each only with its cause, and takes no item |
| ClientRequests.CancelStops | src/client/conn.rs:112-117 | from a `cancel` on, in every run, nothing is received, written or fired, and each `recv` fails unless the call had ended |
| ClientConn.GrpcClientConn.constructor | src/client/conn.rs:156-190 | a new call is fresh: empty body, nothing fired, the metadata that was given, the deadline from now |
| ClientConn.GrpcClientConn.AddAscii | src/client/conn.rs:195-205 | performs the specified operation: stored, or the first error recorded, or nothing once fired |
| ClientConn.GrpcClientConn.AddBinary | src/client/conn.rs:208-217 | the same for binary entries |
| ClientConn.GrpcClientConn.SetDeadline | src/client/conn.rs:220-222 | performs the specified operation |
| ClientConn.GrpcClientConn.Buffer | src/client/conn.rs:228-241 | the frame joins the body of a gathering call, or its error is recorded |
| ClientConn.GrpcClientConn.OpenHead | src/client/conn.rs:246-256 | fires a gathering call, and nothing otherwise |
| ClientConn.GrpcClientConn.Send | src/client/conn.rs:328-353 | buffers, writes live, or refuses, as specified for each phase |
| ClientConn.GrpcClientConn.CloseSend | src/client/conn.rs:361-385 | fires or closes, as specified for each phase; `ClientRequests.CloseSeals` says that it ends the request |
| ClientConn.GrpcClientConn.Recv | src/client/conn.rs:391-419 | opens if needed, reads, reports the end, or gives a remembered failure once, as specified |
| ClientConn.GrpcClientConn.Cancel | src/client/conn.rs:112-117 | raises the cancel flag and changes nothing else |
| ClientConn.GrpcClientConn.RaceExchange | src/client/conn.rs:649-685 | the race around the exchange: at most one request, none at all if cancelled or strictly late at the start, and an error only if a stop applies |
| ClientConn.GrpcClientConn.RaceWrite | src/client/conn.rs:340-350 | the race around `write_all`: a front part of the frame is on the wire, all of it on success, none if barred at the start |
| ClientConn.GrpcClientConn.RaceRead | src/client/conn.rs:422-453 | the race around a read: an interrupted read keeps everything still to be answered, a won read takes exactly the next item |
| ClientConn.GrpcClientConn.TakeRequest | src/client/conn.rs:529-534 | a recorded error fails the call before anything else; otherwise the body is taken and the request built from it |
| ClientConn.GrpcClientConn.Materialize | src/client/conn.rs:529-616 | firing: the recorded error first, else one request built from the gathered body, then the head decides |
| ClientConn.GrpcClientConn.BuildRequest | src/client/conn.rs:618-645 | the request has the framework headers, then the metadata, and the gathered body; `ClientRequests.MetadataArrives` and `RequestFired` say what that request carries |
| ClientConn.GrpcClientConn.OnReply | src/client/conn.rs:546-563 | an accepted head makes the call live with a fresh reader, any other outcome is remembered as the failure; `ClientHeads` says which heads, and what a status in one means |
| ClientConn.GrpcClientConn.Finish | src/client/conn.rs:495-525 | ends the call with the verdict and the trailers of the precedence rule |
| ClientConn.GrpcClientConn.Deliver | src/client/conn.rs:454-474 | an item becomes a message, an error that ends the call, or the verdict; a message under a Trailers-Only head is an error |
| ClientConn.GrpcClientConn.ReadOne | src/client/conn.rs:422-475 | one live read as specified: interrupted with the reader untouched, or one item delivered |
| Typed.UnaryExact | src/client/typed.rs:170-178 | a message comes out of the two reads if and only if the response was exactly that message, with an OK verdict, under a head without a status |
| Typed.UnaryErrors | src/client/typed.rs:170-236 | what a unary call returns otherwise: the first bad answer, the verdict's error, and Internal for no message, several messages, or a call not awaited |
| Typed.TwoReads | src/client/typed.rs:214-236 | two `recv`s of a live call, interruptible at any time, give the outcome of the first two answers of the response, or an interruption before or between them |
| Typed.OutcomeExact | src/client/typed.rs:170-178 | of any such outcome: a message only for a response of exactly that message, and always one unless interrupted |
| Typed.UnaryConn.Await | src/client/typed.rs:189-206 | on success one request carries everything buffered and every message of the source, and the outcome is that of the response's answers or of an interruption; an error is that of the first message that cannot be framed, with those before it buffered, or of an opening that failed, and leaves no outcome |
| Typed.FiringFailures | src/client/typed.rs:192-201 | such an error has one of four causes: that message, the recorded construction error, the transport or the head, an interruption; the first leaves the call gathering, the others are remembered |
| Typed.UnaryConn.ReadUnary | src/client/typed.rs:214-236 | the outcome is that of the first two answers, whichever error they hold, after which the call is over unless there was a second message; or that of an interruption; no further request is made |
| Typed.DriveCall | src/client/conn.rs:127-141 | any sequence of operations on the real object is a run of the specification, from its old state to its new one |
| StreamingCalls.PollHead | src/client/conn.rs:536-541 | one poll of the race around the exchange, wherever it was suspended: cancellation wins at once, the request is made by the first poll and never again, and an answer makes the whole one `recv` |
| StreamingCalls.PollItem | src/client/conn.rs:422-453 | one poll of the race around the reader: waiting loses no item, an answer makes the whole one `recv` |
| StreamingCalls.HaltedSuspends | src/client/conn.rs:391-475 | what a suspended `recv` may have changed: clock and flag, exactly one request of a gathering call and its head, nothing on a live one; nothing barred it when it began |
| StreamingCalls.RecvFuture.PollRecv | src/client/conn.rs:391-475 | however often it was suspended and whatever happened meanwhile, the poll that answers completes one `recv` from the state in which the first one began; a waiting poll gets nearer |
| StreamingCalls.StreamingConn.PollNext | src/client/typed.rs:344-368 | the engine is there whenever a new `recv` begins and is given back with the answer; a waiting poll leaves a suspended `recv`, which for a gathering call has made the request; a cancelled one answers Cancelled at its next poll; the answering poll is exactly one `recv` from where that one began |
| StreamingCalls.StreamingConn.Next | src/client/typed.rs:344-368 | polling until an item comes terminates and is one `recv`, whatever happens between the polls |
| StreamingCalls.StreamingConn.PollMany | src/client/typed.rs:337-368 | any number of polls, with time passing and cancellation between them, extend a run by one `recv` per item, none lost and none repeated; a `recv` still suspended is not counted yet; every poll yields an item or waits, and only as often as transport and body make it |
| StreamingCalls.StreamingConn.constructor | src/client/typed.rs:264-281 | the single request is buffered and nothing fires |
| Dispatch.OneRequestExact | src/server/dispatch.rs:215-232 | the server accepts a request if and only if the body parses to exactly one good message and then ends cleanly; a bad item is the error, none or several messages are Unimplemented |
| Dispatch.PrepareExactly | src/server/dispatch.rs:337-363 | a request is let through if and only if its content type names this codec and a `te` token is `trailers`; else 415 or 400, in that order; the response head names codec and encodings and no status |
| Dispatch.TimeoutRefused | src/server/dispatch.rs:124-127 | a timeout header is read, its absence is no timeout, and one that cannot be read is refused as InvalidArgument |
| Dispatch.ReadOne | src/server/dispatch.rs:215-232 | the method's answer is that rule applied to everything the reader had to answer, with its error for each other case |
| EndToEnd.RequestUnderstood | src/server/dispatch.rs:337-363 | the preflight accepts the head of every client request whatever its metadata, with the same codec list and the timeout that was advertised |
| EndToEnd.RequestEncodingAgrees | src/server/dispatch.rs:367-377 | the server decompresses with the client's encoding, or refuses with Unimplemented exactly when its build lacks it |
| EndToEnd.RequestsArrive | src/client/conn.rs:574-616 | the server reads exactly the messages that the client's sends accepted, in order, then how the bytes end, which is cleanly only once the request is complete |
| EndToEnd.ClosedRequestArrives | src/client/conn.rs:355-385 | after a `close_send` that answered Ok the server can read every accepted message and then the end |
| EndToEnd.DeadlineArrives | src/client/conn.rs:636-640 | the timeout that the server reads, from when the request was made, ends at or after the client's deadline if and only if that was at most 99,999,999 hours ahead, and after it by less than 1000 parts in 99,999,999 |
| EndToEnd.ResponseUnderstood | src/client/conn.rs:699-744 | every client understands the server's head, as no Trailers-Only one, with the encoding that the frames are written in, and reads its initial metadata back |
| EndToEnd.ResponseEndToEnd | src/client/conn.rs:422-525 | the answers to a response made of frames and a status are the messages in order, then the verdict which that status delivers |
| EndToEnd.ResponseCap | src/client/conn.rs:422-451 | the call's message cap is that of its reader: up to it a message and the reader goes on, beyond it ResourceExhausted and nothing more |
| EndToEnd.UndecodableResponse | src/client/conn.rs:750-760 | bytes that the codec rejects are an Internal error with the codec's message, and the reader goes on behind them |
| EndToEnd.MetadataEndToEnd | src/client/conn.rs:300-321 | in every run, `headers()` is read as the server's initial metadata, and at the end `trailers()` as the handler's trailing metadata followed by the status's |
| EndToEnd.TrailersOnlyEndToEnd | src/client/conn.rs:729-744 | a status that a server puts onto its response head without a body is heard with its code, message and metadata |
| EndToEnd.StreamEnds | src/server/body.rs:137-169 | what ends a stream: success after good items, the first error with its code, the first message that cannot be framed, or a cut with its status |
| EndToEnd.StreamingEndToEnd | src/server/body.rs:116-188 | server streaming: for every script, cut and run, the client hears a front part of the items the server pulled and encoded followed by the recorded status, and all of it when the call has ended |
| EndToEnd.StreamYieldsAnswers | src/client/typed.rs:337-368 | in terms of what the stream yields, if nobody disturbs the call: a front part of the server's messages and verdict, or all of them and then only ends |
| EndToEnd.ServeStream | src/server/dispatch.rs:189-208 | serving the real body object with any buffer sizes yields exactly the reply of the previous theorem |
| EndToEnd.ServeUnary | src/server/dispatch.rs:236-256 | serving the one-shot body of a single result with any buffer sizes yields exactly the reply of the unary theorem |
| EndToEnd.UnaryEndToEnd | src/server/dispatch.rs:236-256 | whatever awaiting a unary call comes to: its outcome gives the handler's message, or the handler's error with code, message and metadata as delivered, unless interrupted; awaiting itself fails only for a message that cannot be framed, a recorded error or an interruption |
| EndToEnd.ExpectedSpelled | src/server/dispatch.rs:236-256 | what the handler's result comes to: the message if it can be framed, else the error with its code, its message and the merged metadata |
| EndToEnd.AwaitUnary | src/client/typed.rs:189-206 | the same on the real call object, by awaiting it: the outcome when it succeeds, the causes when it fails |
| EndToEnd.ContentTypeRoundTrip | src/content_type.rs:18-33 | a content type with any plain codec suffix is read back as that suffix |
| ContentTypes.ContentTypeExactly | src/content_type.rs:18-33 | the content types that name gRPC and a codec: letters of any case, `proto` when none is named, blanks around, parameters behind, and no others |
| ContentTypes.TeExactly | src/content_type.rs:40-49 | a `te` header passes if and only if one of its listed names is `trailers`, in any case and with any blanks |
| Encodings.TokenRoundTrip | src/encoding.rs:60-86 | the token maps are inverse on the codecs of the build, and nothing else is recognised |
| Encodings.DecompressOfCompress | src/encoding.rs:101-131 | decompressing a compressed message returns it if and only if it is within the cap, and is an oversize error otherwise |
| Encodings.DecompressRefuses | src/encoding.rs:116-131 | foreign data: ResourceExhausted exactly when more than the cap comes out, Internal exactly when it fails before that, else the data |
| Encodings.SplitOfJoin | src/encoding.rs:89-98 | splitting at commas undoes joining with commas |
| Encodings.AcceptedListsExactly | src/encoding.rs:89-98 | a peer reads out of the announced list exactly the codecs of the build |
| Wire.AcceptWritten | src/encoding.rs:89-98 | the announced list as literal text for every build |
| Wire.ListRead | src/server/dispatch.rs:489-500 | a list in a header names exactly the parts between its commas, however blanks are put around them |
| Encodings.NegotiateSpec | src/server/dispatch.rs:489-500 | for any header the choice is Identity or the first of the server's codecs that the client listed, and Identity only when it listed none |
| Encodings.BuildsAgree | src/server/dispatch.rs:489-500 | for any two builds the choice is a codec of both, recognised by the client, and Identity if and only if they share no other |
| Timeout.ParseOfFormat | src/timeout.rs:30-66 | every formatted timeout parses, to its value times its unit |
| Timeout.ChosenUnique | src/timeout.rs:30-39 | smallest fitting unit, rounded up or saturated, determines the printed value |
| Timeout.FormatIsShort | src/timeout.rs:13-39 | at most eight digits and a unit are emitted |
| Timeout.NeverTightens | src/timeout.rs:13-39 | the wire timeout is never shorter if and only if the duration is at most 99,999,999 hours; it is longer by less than 1000 parts in 99,999,999; beyond, it saturates |
| Timeout.FormatMonotone | src/timeout.rs:30-66 | a longer timeout is never advertised as a shorter one |
| Timeout.FormatIdempotent | src/timeout.rs:30-66 | formatting what was parsed gives the same text |
| Timeout.ParseAccepts | src/timeout.rs:44-66 | the exact domain of the parser: u64 digits, a known unit, a total in range |
| Wire.TimeoutRead | src/timeout.rs:44-66 | digits and a letter are read as that many hours, minutes, seconds, milliseconds, microseconds or nanoseconds; other letters are refused |
| Wire.TimeoutWritten | src/timeout.rs:30-39 | what is written: a number below a hundred million and the letter of the finest unit in which it fits, rounded up, or the saturated hours |
| Statuses.PercentEncodeLoop | src/status.rs:239-252 | the loop computes the encoding whose properties are below |
| Statuses.PercentDecodeLoop | src/status.rs:257-277 | the scanning loop computes the decoding whose properties are below |
| Statuses.PercentRoundTrip | src/status.rs:239-277 | every UTF-8 message survives, and its encoding is printable ASCII |
| Statuses.PercentDecodeUnchanged | src/status.rs:257-277 | decoding, lossy step included, leaves a text alone if and only if it contains no well-formed escape |
| Wire.ByteEscaped | src/status.rs:239-252 | each byte of a message is written as itself, or as a percent sign and two upper-case hex digits, high one first |
| Wire.HexRead | src/status.rs:287-294 | the hex digits that are read, of either case, with their values |
| Wire.EscapeRead | src/status.rs:257-272 | an escape in front of anything is read as its byte |
| Wire.MessageWritten | src/status.rs:189-195 | the trailers hold the message in that form, once, and none if it is empty |
| Wire.MessageRead | src/status.rs:213-216 | a message in trailers is read from that form |
| Wire.HeaderRead | src/status.rs:202-205 | a header read as one text was sent once, as that text |
| Statuses.TrailersDeliver | src/status.rs:189-223 | a status written over any preset trailers is read back with its own code, its message or else the preset one, and its metadata after the preset one's |
| Statuses.RoundTrip | src/status.rs:181-223 | through fresh trailers every error status comes back whole: code, metadata key by key, and the message as the text it was |
| Statuses.FromTrailersProper | src/status.rs:202-223 | whatever a peer sends, the status read is one a program could have built |
| Statuses.ReadCodeExact | src/status.rs:202-207 | the exact texts that read as a given code: an optional plus sign, any zeros, the digits of its number; a text that is none of these for any code reads as Unknown |
| Wire.CodeWritten | src/status.rs:189-190 | the trailers name each of the 17 codes by its literal number, whatever was preset |
| Wire.CodeRead | src/status.rs:202-211 | each literal number is read as its code, 0 as success |
| Decimal.ParseExact | src/status.rs:205 | integer parsing accepts for a number exactly these spellings, within the range of the type |
| CustomMetadata.Metadata.InsertAscii | src/metadata.rs:93-112 | stored if and only if key and value are legal, else nothing changes and the error names the first rule broken; well-formedness and printability are kept |
| CustomMetadata.Metadata.InsertBinary | src/metadata.rs:117-132 | the same for binary values, whose keys must end in `-bin` |
| CustomMetadata.Metadata.WriteTo | src/metadata.rs:190-201 | appending the entries one by one extends each key's values by the stored ones, in order |
| CustomMetadata.Metadata.ReadFrom | src/metadata.rs:164-186 | reading a header block in any order of names gives a well-formed map with each key's readable values in order |
| CustomMetadata.FromHeadersWellFormed | src/metadata.rs:164-186 | whatever a peer sends, the map read has only legal, unreserved keys, binary values exactly under `-bin` |
| CustomMetadata.FromHeadersOfWriteInto | src/metadata.rs:164-201 | metadata written onto any header block is read back per key after what the block already carried |
| CustomMetadata.RoundTrip | src/metadata.rs:164-201 | a well-formed map survives fresh headers unchanged |
| CustomMetadata.NormaliseIdempotent | src/metadata.rs:164-201 | normalising any header block twice is the same as once |
| CustomMetadata.ReservedUntouched | src/metadata.rs:227-233 | metadata never touches a header that it may not use as a key |
| CustomMetadata.WrittenPrintable | src/metadata.rs:190-222 | every header value that metadata built by inserts adds is printable ASCII, binary values included |
| Wire.KeysSpelled | src/metadata.rs:212-233 | the legal keys, character by character, and the names that are kept from them |
| Wire.TextsSpelled | src/metadata.rs:219-221 | the legal text values, byte by byte |
| Wire.BinaryKeysSpelled | src/metadata.rs:126-128 | binary keys are those that end in `-bin` |
| Wire.ValueWritten | src/metadata.rs:190-201 | a text value is written as it is, a binary one in Base64 by the bits of RFC 4648, after what the block held, in order |
| Base64.DecodeOfEncode | src/metadata.rs:190-201 | binary values survive their Base64 form |
| Base64.EncodeOfDecode | src/metadata.rs:164-186 | the strict decoder accepts only the canonical encoding |
| Wire.Base64Written | src/metadata.rs:196-198 | symbol i is that of the i-th group of six bits in the alphabet of section 4 of RFC 4648, and there are as many as needed, without padding |
| Utf8.LossyIdentity | src/status.rs:273-276 | lossy decoding changes nothing if and only if the bytes are UTF-8 |
| Utf8.ValidExactly | src/status.rs:273-276 | the byte strings taken as text are those that spell Unicode scalar values by the table in section 3 of RFC 3629 |
| Bidi.Channel.Recv | src/server/streaming.rs:146-154 | the next item of everything still to be read, leaving the rest |
| Bidi.Channel.Send | src/server/streaming.rs:157-164 | a whole frame is appended to the wire, or an error is returned, Unavailable when the transport failed; without a transport failure the wire is always the frames of the responses sent |
| Bidi.Channel.Conclude | src/server/bidi.rs:151-158 | the result's status is written over the trailing metadata and sent once, after everything written |
| Conformance.ResponsesConserved | conformance/src/service.rs:228-330 | absent errors the responses carry the response data in order, and echoed requests plus the leftover are all requests read: everything in half duplex, all but at most the last in full duplex |
| Conformance.EchoedFull | conformance/src/service.rs:245-284 | the first n full-duplex responses echo the first n requests, as far as there are any |
| Conformance.EchoedHalf | conformance/src/service.rs:286-309 | half-duplex responses echo every request once |
| Conformance.ObservedOnce | conformance/src/service.rs:260-309 | what the server observed goes out with the first response and no other |
| Conformance.AnsweredBeforeError | conformance/src/service.rs:243-284 | a request error costs half duplex all its responses; in full duplex every good request before it was echoed |
| Conformance.EndsAsDefined | conformance/src/service.rs:311-328 | a request error met is the result; else the call fails if and only if the definition has an error, with the code of that number, its message, and details in the trailers that decode to what the service made of it |
| Conformance.Responder.ReadRequests | conformance/src/service.rs:245-284 | the receive loop ends having answered exactly the requests it was to answer, or gives up with the request error it ran into or at a response that cannot be framed |
| Conformance.Responder.Flush | conformance/src/service.rs:286-309 | the responses owed are sent, so that what was sent is the closed form, or a front part of it up to one that cannot be framed |
| Conformance.Responder.Respond | conformance/src/service.rs:229-330 | absent transport failures, responses sent, end result and error details are the closed forms, for every request stream, erroneous ones included; the first response that cannot be framed ends the call there with its error; otherwise it ends as the definition says |
| Conformance.ServeBidi | conformance/src/service.rs:425-454 | prologue and responder over one byte source: the first request decides definition, mode and trailing metadata, the wire carries the closed form for the items of that source, then trailers exactly once, from which the client reads the defined code, message, details and metadata; a bad first request is rejected with nothing written |
| Conformance.ReadFirst | conformance/src/service.rs:436-440 | the prologue's dropped reader leaves exactly the items after the first |
| ModTree.DottedOfSegments | macros/src/lib.rs:184-186 | splitting a stem at its dots loses nothing, so packages and paths correspond one to one |
| ModTree.SegmentsExactly | macros/src/lib.rs:184-186 | the segments of a stem are the only pieces without dots that make it when joined by dots |
| ModTree.DistinctPairs | macros/src/lib.rs:174-195 | the success condition means: every file has a name and no two share one |
| ModTree.FlatAt | macros/src/lib.rs:174-195 | with distinct names each file's contents are at its own path in the flat map |
| ModTree.Descend | macros/src/lib.rs:183-186 | the cursor's walk ends at the node of the path, creating only empty nodes |
| ModTree.Replace | macros/src/lib.rs:187-192 | the contents change at one path only, and a collision is noticed if and only if there was one |
| ModTree.BuildTree | macros/src/lib.rs:174-195 | building succeeds if and only if the names are distinct, and then the tree holds the flat map: each file at its path, nothing anywhere else; otherwise the complaint is about the first file without a name or with one already seen |
| ModTree.Find | macros/src/lib.rs:165-195 | following a path in the tree finds exactly what the flat map has there |
| ModTree.EmitTree | macros/src/lib.rs:197-215 | everything held at or below a node is emitted exactly once, nested under its own path |
| ModTree.Expand | macros/src/lib.rs:174-215 | building then emitting puts each file's contents into the code once, under its module path, and nothing else |

## Left out

Simplifications of what is modelled:

- Client operations run to completion, except for the `recv` behind a stream, which is modelled poll by
  poll. A future dropped in the middle of an await, and an accessor called while one is suspended, are
  not modelled.
- Header blocks are maps from lower-case names to value sequences: order across names is not kept, and
  `get_str` yields a value only for a header that occurs once. Metadata order is per key.
- Texts that interpolate debug output or a foreign error (the content type found, an encoding's name,
  metadata error wording) are abbreviated or replaced by the foreign text alone.
- `trim` removes ASCII white space only.
- Timers may ring at any poll once the deadline is reached, and are polled between cancellation and
  work; the runtime's own timer is not modelled.
- ClientRuns.RecvRefines: speaks about calls whose open did not fail; `FailureDeliveredTwice` covers the others.
- EndToEnd.StreamingEndToEnd: needs messages within the client's limits, codecs that undo themselves and texts
  in UTF-8, because otherwise the items are errors as `ParseOfFrame` and `DecompressOfCompress` say.
- Conformance.ServeBidi: says only that one set of trailers is sent when the transport fails during a
  write.
- The message cap, 4 MiB by default, is a parameter of every reader.
- `read_capped` and the compressors are values of a foreign library, not loops over a reader.
- The reply of the server to a client is fixed per run, but arbitrary; a full-duplex server that reacts
  to live writes is covered only in that its reply may be any.

Not modelled:

- HTTP/2, TLS, connection pooling, and the inside of trillium's `Conn` and `Upgrade`.
- The bodies of gzip, deflate, zstd and prost; the response delays of the conformance service.
- `Cancellation::race` on the server: a cancelled handler appears as its error result; the streaming
  body's own cancellation future is modelled.
- A client's default headers and a handler's own response headers beyond custom metadata.
- The conformance service's unary, client-streaming and server-streaming methods: one response each.
- `BidiConn`: the same hand-over as `StreamingConn`, over the same engine.
- The order in which the children of a module are emitted; identifiers and token parsing in emission.
- Code generation, the rest of the macros, the `Status` constructors, display code and configuration.
