# rti-gw gateway core in Dafny

rti-gw is a small HTTP-to-TCP gateway, `app.go`. An HTTP handler, `Collector`, accepts
POST requests. It strips the slashes from both ends of the request path and sends the
result on a buffered channel, `queue`, of capacity 100. A background routine,
`QueueHandler`, binds a TCP listener and accepts exactly one connection. It then writes
every message it takes off the channel to that connection, followed by CRLF.

This project models that sequential behaviour. The concurrency is not modelled.

- `message.dfy`, module `Message`: `strings.Trim(path, "/")` as pure functions. It also
  gives an independent description of a trim (`IsTrimOf`) and proves that the two agree.
- `queue.dfy`, module `Queue`: the channel buffer. `BoundedQueue` is a class over a
  fixed array of 100 slots used as a ring buffer. Its ghost `Contents` is the queued
  messages, oldest first. A send or receive that would block is "not enabled", which
  `CanSend` and `CanReceive` express. `Run` gives the same channel a value-level
  semantics over whole histories of sends and receives; its outcome is Blocked for a
  history that would wait forever. `Enqueue` and `Dequeue` are specified by the same
  one-step functions `After` and `Taken` that `Run` is built from. FIFO order and
  backpressure are proved about `Run`.
- `framing.dfy`, module `Framing`: the wire format `msg + "\r\n"` and the stream of a
  run of messages. `Delivered` is what the peer receives when each write gets only some
  of its frame out. `Lines` is the line splitter a consumer applies, used to prove the
  round trip.
- `collector.dfy`, module `Collector`: the handler. `Decide` is the decision as a value.
  `Collect` is the handler acting on the shared queue.
- `relay.dfy`, module `Relay`: `QueueHandler`. `Step` and `Replay` form the phase
  machine Starting → Listening → Draining, or Terminated on a fatal error. The `Relay`
  class holds the phase, the characters received by the peer, and ghost logs of every
  network answer, every drained message and every write result. Its invariant ties the
  received characters to those logs, and the write results to the write events of the
  network history.
- `seqs.dfy`, module `Seqs`, and `wrappers.dfy`, module `Wrappers`: small sequence facts
  used by the proofs, and an `Option` datatype.
- `gateway.dfy`, module `Gateway`: two clients that wire one queue to the collector and
  the relay, as `main` does. `RefusedScenario` sends a GET, which is refused with 405 and
  `Allow: POST` while nothing is queued. `AlertScenario` sends a POST of
  `/alerts/cpu-high/`, and the connected peer receives exactly `alerts/cpu-high\r\n`.

Network outcomes are parameters: the result of `net.Listen`, the result of `ln.Accept`,
and how much of its frame each `conn.Write` got out. The connection is the string its
peer has received. A character of a message stands for one byte on the wire. The loop ignores the write result, exactly as the source does, so a
failed write drops the rest of its frame and the loop goes on.

## Model

| member | source | states |
|---|---|---|
| Message.Trim | app.go:28 | the message has no '/' at either end and is the slice the independent description `IsTrimOf` allows; `TrimCharacterized` adds that it is the only such slice |
| Message.TrimLeft | app.go:28 | the result is a suffix of the input; everything cut off is '/'; the result does not start with '/' |
| Message.TrimRight | app.go:28 | the result is a prefix of the input; everything cut off is '/'; the result does not end with '/' |
| Message.TrimCharacterized | app.go:28 | a string is the slice left after cutting a slash run from each end, with no slash at its own ends, if and only if it is `Trim(path)` |
| Message.TrimOfSlice | app.go:28 | any slice of the path between two slash runs that has no slash at its ends is exactly what Trim returns |
| Message.TrimIdempotent | app.go:28 | the message neither starts nor ends with '/', and trimming it again returns it unchanged |
| Message.TrimIsSlice | app.go:28 | the message is a contiguous slice of the path |
| Queue.BoundedQueue.constructor | app.go:17 | a new channel buffer has 100 slots and is empty |
| Queue.BoundedQueue.CanSend | app.go:30 | a send is enabled exactly when fewer than 100 messages are buffered |
| Queue.BoundedQueue.CanReceive | app.go:65 | a receive is enabled exactly when some message is buffered |
| Queue.BoundedQueue.Enqueue | app.go:30 | the message is appended at the tail, as `After` of a send says, nothing else changes, and the buffer stays within capacity |
| Queue.BoundedQueue.Dequeue | app.go:65 | the oldest message is removed and returned, as `Taken` and `After` of a receive say, and the rest keep their order |
| Queue.Run | app.go:17-30 | a history of sends and receives, each enabled only when the buffer has room or a message, that does not block neither creates nor loses a message; `RunIsFifo`, `RunIsBounded` and `SendBeyondCapacityBlocks` state its order, bound and blocking |
| Queue.StepIsFifo | app.go:30 | one enabled send or receive keeps the received-then-buffered messages equal to the buffered-then-sent ones |
| Queue.RunIsFifo | app.go:17 | along any history that does not block, the messages received followed by those still buffered equal the initial buffer followed by the messages sent: no reordering, loss or duplication |
| Queue.RunIsBounded | app.go:17 | along any history that does not block, the buffer never holds more than 100 messages |
| Queue.SendsFit | app.go:30 | sends that fit in the buffer never block and append their messages in order |
| Queue.SendBeyondCapacityBlocks | app.go:17-30 | after 100 sends into an empty buffer, a 101st send blocks; after one receive, that send completes and the first message is the one received |
| Framing.Frame | app.go:66 | one message goes out as its characters followed by exactly CR LF; `FindLineEndOfFrame` shows a consumer finds that line end first |
| Framing.Stream | app.go:65-67 | the characters written for a run of messages are empty exactly when there is none, and otherwise end with CR LF; `StreamAppend` and `LinesOfStream` give its concatenation and its inverse |
| Framing.Delivered | app.go:65-67 | what the peer receives when each write gets only part of its frame out is never longer than the full stream; `DeliveredInFull` and `DeliveredSnoc` give its value |
| Framing.FindLineEnd | app.go:66 | the position found holds CRLF, and no earlier position does; None means the string has no CRLF |
| Framing.StreamAppend | app.go:65-68 | the characters written for two runs of messages are the first run's followed by the second's |
| Framing.LinesOfStream | app.go:66 | splitting the written stream at CRLF gives back exactly the messages, in order, when no message holds a CRLF of its own |
| Framing.DeliveredInFull | app.go:67 | when every write gets its whole frame out, the peer receives exactly m1+CRLF+…+mn+CRLF |
| Framing.DeliveredAppend | app.go:65-68 | what the peer receives over two runs of writes is what the first run delivers followed by what the second delivers |
| Framing.DeliveredSnoc | app.go:65-68 | one more write appends its frame, cut to what it got out, at the end of what the peer has received |
| Framing.ConsumerReadsMessagesInOrder | app.go:65-68 | with full writes and no CRLF inside a message, a line-reading peer gets exactly the drained messages, in order |
| Collector.Decide | app.go:21-31 | a message is produced if and only if the method is POST; a non-POST request gets 405 with `Allow: POST`; a POST gets the default 200 with no header set, and its message is the path trimmed of '/' at both ends |
| Collector.Collect | app.go:21-31 | a non-POST request leaves the queue unchanged; a POST appends exactly `Trim(path)` at the tail; the response is the one `Decide` gives |
| Relay.Step | app.go:49-67 | no step returns to Starting, a terminated relay takes no step, and a draining relay takes exactly the write steps and stays draining |
| Relay.Replay | app.go:45-69 | a history leaves the relay in Starting only when it is empty; `DrainingOnlyAfterBindAndConnect`, `TerminatedOnlyOnFatalError` and `AtMostOneConnection` state where the other histories lead |
| Relay.DrainingIsClosed | app.go:57-68 | from Draining, a history is possible if and only if it consists only of writes, and it keeps the relay Draining, so no further accept ever happens |
| Relay.DrainingOnlyAfterBindAndConnect | app.go:49-65 | Draining is reached only by a successful listen, then a successful accept, then writes |
| Relay.TerminatedOnlyOnFatalError | app.go:49-60 | Terminated is reached only by a failed listen, or by a successful listen then a failed accept |
| Relay.AtMostOneConnection | app.go:57-60 | any possible history accepts at most one connection, and accepts one exactly when it ends in Draining |
| Relay.Relay.constructor | app.go:45 | a new relay is Starting, shares the given queue and has sent nothing |
| Relay.Relay.Listen | app.go:49-52 | a successful listen moves Starting to Listening and a failed one to Terminated; nothing is sent |
| Relay.Relay.Accept | app.go:57-60 | a successful accept moves Listening to Draining and a failed one to Terminated; nothing is sent |
| Relay.Relay.DrainStep | app.go:65-68 | the oldest message leaves the queue and its frame, cut to what the write got out, is appended to what the peer has received; the write is logged as the next event of the history; the queue and phase advance the same way whatever the write result |
| Relay.Relay.Drain | app.go:65-68 | n turns of the loop take the next n messages in order and deliver their frames in that order; the queue keeps its buffer, so the collector can go on sending into it |
| Relay.Relay.QueueHandler | app.go:45-69 | the relay drains if and only if listen and accept both succeed, and then delivers the oldest messages in order; otherwise it terminates with the queue untouched and nothing sent; the queue keeps its buffer, so the collector can go on sending into it |
| Gateway.RefusedScenario | app.go:22-26 | a GET is answered 405 with `Allow: POST` and nothing is queued |
| Gateway.AlertScenario | app.go:21-68 | a POST to `/alerts/cpu-high/` makes the connected peer receive exactly `alerts/cpu-high\r\n` |
| Gateway.AlertPathTrim | app.go:28 | the message derived from `/alerts/cpu-high/` is `alerts/cpu-high` |

## Left out

- Goroutines and scheduling (app.go:72): the collector and the relay are methods on one shared queue object, called one at a time.
- Channel blocking and wake-up (app.go:30, app.go:65): a send on a full buffer and a receive on an empty one are disabled by preconditions, or make `Run` end Blocked; no caller is ever suspended.
- Queue.BoundedQueue.Enqueue and Collector.Collect: a POST on a full queue is not modelled as waiting until space appears. Only the enabled case is modelled.
- Relay.Relay.Drain: models a finite number of loop turns, one per given write result. The source loop never ends, because the channel is never closed.
- `LogHandler` and every `log.Printf` (app.go:34-41, app.go:29, app.go:54, app.go:62): logging side effects with no behaviour to state.
- `main`, `http.HandleFunc` and `http.ListenAndServe` (app.go:71-80): HTTP server plumbing in a library outside this model.
- Port strings built with `fmt.Sprintf(":%v", …)` (app.go:46, app.go:74): configuration constants.
- Sockets: `net.Listen`, `Accept` and `conn.Write` become given outcomes. The string-to-bytes conversion at app.go:67 is not modelled: a character stands for a byte, so a partial write that splits a multi-byte UTF-8 character cannot be represented.
- `log.Fatal` exiting the process: modelled only as the Terminated phase, from which no step is possible.
- HTTP header handling beyond the one header the handler sets: header-name canonicalisation and headers set by the server are not modelled. A response's header map starts empty.
- Percent-decoding of the URL path belongs to `net/http` and is not modelled. The path is given already decoded. A decoded path can contain CR LF, and then the CRLF framing no longer separates messages. For this reason the round-trip lemmas require messages with no CRLF of their own; a lone CR or LF is allowed.
