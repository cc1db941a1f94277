# e-puck asynchronous command manager

A model of the bookkeeping inside `AsyncComm`, the manager in
`epuck/comm/async.py` that talks to an e-puck robot over a serial line.
Callers hand it commands and get back a `RequestHandler`. The manager's
event loop then:

- transmits each command;
- waits for the robot's reply;
- decodes the reply frame;
- gives the payload to the oldest in-flight request that owns the frame;
- sends again every request it skipped, and every request that waited
  longer than the timeout.

Everything in it happens on the loop's one thread, over plain queues. The
model takes that thread's state:

- the request queue;
- the response queue of `(send time, request)` entries;
- the wake channel, as a sequence of `NEW`/`STOP` markers;
- the `running` flag;
- the connection, as the bytes still to be read plus a log of writes.

Each operation is a method on that state, proved against functions. The
invariant `AsyncComm.Valid` holds across every operation:

- the response queue is in send-time order;
- every request waiting for transmission has exactly one `NEW` marker in
  the wake channel, so a `NEW` never finds the request queue empty;
- no request is outstanding twice.

Modules:

- `Frames`: the wire format of responses, and decoding as a function of
  the bytes delivered. It also has round trips from an encoder, the frame
  boundaries, and the two length computations (as written and corrected).
- `Request`: the `RequestHandler` class and the ownership test.
- `Wake`: the wake-channel markers and how to count them.
- `Queues`: entries, oldest-first correlation, and the expired prefix. It
  also holds the timeout scan as the source writes it.
- `Transport`: the connection's contract, meaning what `write`, `read(n)`
  and `readline` do to the byte streams.
- `Comm`: the `AsyncComm` class. It has one method per manager operation
  and `Step`, one iteration of the main loop.
- `Scenarios`: whole exchanges that use nothing but the operations'
  contracts. They cover a text reply, a binary reply, a resend after a
  timeout, and two requests answered out of order.

Modelling choices:

- **The clock.** Every operation that reads `time.time()` takes `now`
  instead. The precondition `ClockAtLeast(now)` says the clock never runs
  backwards. With it, the priority queue's `put` is an append.
- **Blocking reads.** The connection holds every byte that will ever
  arrive. A read that needs more than that is a read that waits forever.
  The model reports it as `Starved`/`Waiting`, and the read takes every
  byte it was offered.
- **What `select` reports** is a parameter of `Step`.
- **The text payload keeps its newline.** The text branch keeps whatever
  follows the first comma, and that includes the trailing newline that
  `readline` returns. A reply `1` `10,OK\n` delivers `OK\n`, not `OK`.
  The model follows the code here (`Scenarios.TextResponseDelivered`).
- **The timeout scan stops when the response queue runs empty**, instead
  of waiting forever in `get()`. The source's behaviour is modelled
  separately and reported under Findings.

## Model

| member | source | states |
|---|---|---|
| Request.RequestHandler.constructor | epuck/comm/async.py:30-35 | a new handler keeps its command, response code and timestamp, and has no response yet (`response_received` is false) |
| Request.RequestHandler.SetResponse | epuck/comm/async.py:47-65 | after `set_response(r)`, `response_received` holds and `get_response` returns `r`; only the response field changes, and code, timestamp and command are constants |
| Request.RequestHandler.GetCommand | epuck/comm/async.py:39-41 | defines `get_command`: the command the handler was created with |
| Request.RequestHandler.OwnResponse | epuck/comm/async.py:43-45 | defines `own_response` with the timestamp compared as a number: the frame's code is the handler's response code and its timestamp is the handler's timestamp |
| Request.RequestHandler.GetResponse | epuck/comm/async.py:59-61 | defines `get_response`: the payload delivered so far, or none |
| Request.RequestHandler.ResponseReceived | epuck/comm/async.py:63-65 | defines `response_received`: whether a payload has been delivered |
| Request.OwnResponseAsWritten | epuck/comm/async.py:43-45 | defines `own_response` as the source evaluates it on Python 2 values: the timestamp matches only an integer equal to the handler's, never the one-character string line 190 produces |
| Request.OwnershipIsExclusive | epuck/comm/async.py:43-45 | two handlers with different (code, timestamp) pairs never own the same frame |
| Request.BinaryTimestampNeverMatchesAsWritten | epuck/comm/async.py:189-190 | as written, a binary frame's timestamp is a one-character string, so no handler with an integer timestamp ever owns it |
| Request.BinaryEchoReachesItsRequest | epuck/comm/async.py:186-200 | with the timestamp compared as the byte's value, a binary frame echoing a handler's code and timestamp decodes whole and is owned by that handler |
| Frames.IsBinaryCode | epuck/comm/async.py:189 | defines the branch test: a code byte of 127 or more starts a binary frame |
| Frames.LineLength | epuck/comm/async.py:220 | a line is available exactly when a newline has arrived; its length counts up to and including the first newline |
| Frames.FrameLength | epuck/comm/async.py:209-210 | the payload length read first-byte-low is below 65536 and has `lo` as its low byte and `hi` as its high byte |
| Frames.LengthBytes | epuck/comm/async.py:209-210 | every length below 65536 has two length bytes that decode back to it |
| Frames.FrameLengthInjective | epuck/comm/async.py:209-210 | two length fields that decode to the same length are the same two bytes |
| Frames.LengthAsWritten | epuck/comm/async.py:210 | defines the length as written, `hi << (8 + lo)`, over the bytes' values |
| Frames.LengthAsWrittenMisreadsShortPayloads | epuck/comm/async.py:210 | as written (`hi << (8 + lo)`), the length is 0 or at least 256, so every payload of 1 to 255 bytes is read with the wrong length |
| Frames.ParseInt | epuck/comm/async.py:195 | defines Python 2's `int()` in base 10 on the timestamp text: whitespace around the number and after the sign is skipped, then an optional sign and at least one decimal digit; any other text has no value (`None`) |
| Frames.ParseIntDecimal | epuck/comm/async.py:195 | `int()` of the decimal text of any integer, negative ones included, gives that integer back |
| Frames.SpaceAfterSign | epuck/comm/async.py:195 | like Python 2's `int()`, the parse skips whitespace around the number and between the sign and the digits: ` - 5 ` reads as -5 |
| Frames.DecimalHasNoDelimiters | epuck/comm/async.py:194-195 | a timestamp's decimal text contains neither the comma nor the newline that delimit it |
| Frames.BinaryData | epuck/comm/async.py:202-212 | the binary body is two length bytes followed by exactly that many payload bytes; when fewer have arrived the read waits and takes everything delivered |
| Frames.TextData | epuck/comm/async.py:214-221 | the text body is the bytes up to and including the first newline, so a whole line is exactly `LineLength` bytes long; it waits exactly when no newline has arrived |
| Frames.SplitAtComma | epuck/comm/async.py:194 | splitting at the first comma: the head holds no comma, and head, comma and tail put back together give the line again |
| Frames.ParseTextLine | epuck/comm/async.py:194-196 | once a line is complete, it never waits; a parsed frame carries the line's code |
| Frames.DecodeFrame | epuck/comm/async.py:184-196 | decoding takes no more than was delivered; it waits only after taking every delivered byte; a decoded frame carries the first byte as its code |
| Frames.BinaryFrameBoundary | epuck/comm/async.py:186-212 | a binary frame is the code, one timestamp byte, two length bytes and exactly `FrameLength` payload bytes; the timestamp is the byte's value |
| Frames.TextFrameBoundary | epuck/comm/async.py:186-221 | a text frame, parsed or malformed, ends at the first newline after the code byte |
| Frames.BinaryRoundTrip | epuck/comm/async.py:186-212 | a binary frame decodes to the code, timestamp and payload that were sent, however the stream continues |
| Frames.TextLineOf | epuck/comm/async.py:220 | the line read from `<timestamp>,<payload>` ends at the payload's own newline |
| Frames.SplitAfterTimestamp | epuck/comm/async.py:194 | the split of `<timestamp>,<payload>` comes at the comma after the timestamp, and leaves the payload whole |
| Frames.TextRoundTrip | epuck/comm/async.py:186-196 | a text frame decodes to the code, timestamp and payload (newline included) that were sent, however the stream continues |
| Frames.BinaryDataExtend | epuck/comm/async.py:209-211 | once the length bytes and the whole payload have arrived, bytes arriving later change neither the payload nor how much is read |
| Frames.TextDataExtend | epuck/comm/async.py:220 | once a newline has arrived, bytes arriving later change neither the line nor how much is read |
| Frames.BinaryIgnoresLaterBytes | epuck/comm/async.py:186-212 | bytes that arrive after a whole binary frame change neither the frame nor how much it takes |
| Frames.TextIgnoresLaterBytes | epuck/comm/async.py:186-221 | bytes that arrive after a whole text line change neither the result nor how much it takes |
| Frames.DecodeIgnoresLaterBytes | epuck/comm/async.py:184-221 | frame boundaries in general: once one whole frame has been delivered, later bytes do not change how it decodes |
| Wake.NewMarkers | epuck/comm/async.py:261 | `k` enqueues write exactly `k` markers, every one of them `NEW` |
| Wake.CountAfterNewMarkers | epuck/comm/async.py:258-261 | writing `k` `NEW` markers adds exactly `k` to the count waiting in the channel |
| Queues.FirstMatch | epuck/comm/async.py:230-234 | the position of the oldest in-flight entry that owns the frame: no entry before it owns the frame, and the entry there does (or there is none) |
| Queues.MovePrefixKeepsPending | epuck/comm/async.py:236-238 | moving the oldest `k` entries to the tail of the request queue keeps the outstanding requests, and their order, exactly as they were |
| Queues.MatchRemovesOnlyMatched | epuck/comm/async.py:228-238 | re-queueing the entries before the match and removing the match loses exactly the matched request and nothing else |
| Queues.SuffixInOrder | epuck/comm/async.py:100 | what is left of a queue in send-time order is still in send-time order |
| Queues.ExpiredPrefix | epuck/comm/async.py:249-256 | the length of the longest run of expired entries (`now - sent > timeout`, strictly) at the old end; the entry after that run is within the window |
| Queues.YoungerEntriesWithinWindow | epuck/comm/async.py:242-256 | in send-time order, no entry after the expired prefix has expired, so stopping at the first young entry misses none |
| Queues.ScanAsWritten | epuck/comm/async.py:249-256 | defines the timeout scan as written: entries are popped oldest first while they have expired, the scan stops at the first entry within the window, and a `get()` on the empty queue waits forever |
| Queues.ScanAsWrittenBlocksWhenAllExpired | epuck/comm/async.py:249-256 | as written, the scan waits forever exactly when every entry has expired, the empty queue included; otherwise it moves exactly the expired prefix |
| Queues.OneExpiredRequestBlocks | epuck/comm/async.py:251 | a single request sent at 0 and scanned at 1 with timeout 0.2 blocks the loop thread forever instead of being sent again |
| Comm.AsyncComm.constructor | epuck/comm/async.py:96-105 | a new manager has empty queues, an empty wake channel, the given timeout, and the invariant |
| Comm.AsyncComm.Start | epuck/comm/async.py:107-110 | `start` sets `running` |
| Comm.AsyncComm.Stop | epuck/comm/async.py:112-114 | `stop` writes one `STOP` marker and keeps the invariant |
| Comm.AsyncComm.StopMainLoop | epuck/comm/async.py:143-145 | clears `running` |
| Comm.AsyncComm.SendCommand | epuck/comm/async.py:165-170 | returns a fresh handler with the given command, code and timestamp and no response; the handler joins the request queue's tail with one `NEW` marker, and the invariant holds (the new handler was in neither queue before the call) |
| Comm.AsyncComm.EnqueueRequest | epuck/comm/async.py:258-261 | appends the request to the request queue, writes exactly one `NEW` marker, and leaves the response queue untouched |
| Comm.AsyncComm.WriteRequest | epuck/comm/async.py:172-182 | removes exactly the head of the request queue, writes its command, and appends `(now, head)` to the response queue; the multiset of outstanding requests is unchanged and send-time order is kept |
| Comm.AsyncComm.GetRequest | epuck/comm/async.py:228-240 | entries are popped oldest first, and the ones before the first owner are re-queued in the same order with one marker each; the owner is returned and the younger entries stay in place; without an owner, every entry is re-queued and the result is the error; only the returned request leaves the outstanding set |
| Comm.AsyncComm.SaveResponse | epuck/comm/async.py:223-226 | the owner found by correlation, and only it, receives the payload; every other in-flight handler keeps the response it had; when there is no owner, the correlation error is raised after every entry was re-queued |
| Comm.AsyncComm.CheckRequestsTimeout | epuck/comm/async.py:242-256 | moves exactly the expired prefix to the request queue, in order and with their markers; puts the first young entry back with its original send time; keeps the outstanding requests as a sequence; afterwards no in-flight entry has expired |
| Comm.AsyncComm.ProcessInterrupt | epuck/comm/async.py:147-163 | exactly one marker is consumed; `NEW` transmits the head of the request queue at `now`; `STOP` clears `running` without touching the queues or the write log; any other marker is the KeyError and changes nothing else |
| Comm.AsyncComm.ReadBinaryData | epuck/comm/async.py:202-212 | reads what `BinaryData` describes and takes exactly those bytes off the connection |
| Comm.AsyncComm.ReadTextData | epuck/comm/async.py:214-221 | reads what `TextData` describes and takes exactly those bytes off the connection |
| Comm.AsyncComm.ReadFrame | epuck/comm/async.py:186-196 | the reads of `_read_response` give what `DecodeFrame` says about the bytes delivered, and take exactly as many bytes as it says |
| Comm.AsyncComm.ReadResponse | epuck/comm/async.py:184-200 | decodes one frame; a read that waits or a malformed line leaves the queues and every response alone; a whole frame goes through correlation with the effects of `SaveResponse`, and in-flight handlers other than its owner keep their responses; the outcome is `Done` exactly when a whole frame reached an owner; the invariant holds |
| Comm.AsyncComm.Step | epuck/comm/async.py:125-141 | one loop iteration. Once `running` is false it does nothing. When nothing is ready, it runs the timeout scan. When the wake channel alone is ready, its oldest marker is handled: `NEW` transmits, `STOP` clears `running`, anything else is the KeyError. When the connection is ready, one frame is read and correlated; if the wake channel is ready too and the frame reached its owner, the marker is then handled on the queues the read left. `running` only goes false by consuming `STOP`, and the invariant holds |
| Comm.AsyncComm.ServeConnection | epuck/comm/async.py:134-141 | the connection is served before the wake channel: exactly the bytes of one frame are consumed. Without a ready wake channel, or when the read did not reach an owner, the effect is that of `ReadResponse` and `running` stays true. Otherwise, after the read the request queue has gained the entries older than the owner and the wake channel their markers, the younger entries are in flight, and the oldest marker is then handled on that state. `running` goes false only through a `STOP` marker |
| Comm.AsyncComm.FoundOwner | epuck/comm/async.py:230-234 | when the scan stops at an owner with no owner before it, the lookup is complete as `GetRequest` states it, the invariant holds, and only the owner has left the outstanding requests |
| Comm.AsyncComm.NoOwner | epuck/comm/async.py:230-240 | when the scan empties the response queue without an owner, the lookup is complete, the invariant holds, and the outstanding requests are unchanged in content and order |
| Comm.AsyncComm.KeepsValidMatched | epuck/comm/async.py:230-238 | re-queueing the entries older than the owner, with a marker each, and taking the owner out keeps the invariant, and removes the owner and nothing else from the outstanding requests |
| Comm.AsyncComm.KeepsValidMoved | epuck/comm/async.py:249-256 | re-queueing the oldest entries in order, with a marker each, keeps the invariant and the outstanding requests in order |
| Queues.FirstMatchAt | epuck/comm/async.py:230-234 | an owner at position `k` with no owner before it is the one `FirstMatch` finds |

## Left out

- Threads, `select`, the pipe and the sockets. The loop's events are
  parameters of `Step`. `epuck/comm/socketpair.py` is not part of this
  model.
- Markers merging in the pipe. The markers are discrete. One `os.read` of
  up to 255 bytes can return `NEWNEW` or `NEWSTOP`, which has no handler
  (line 156). The model does not capture this.
- The connection. `serial.Serial` and `TestConnection` (lines 87-91) are
  not part of this model. `Transport.Connection` states only what the
  manager relies on from `write`, `read(n)` and `readline`.
- Blocking reads. A read with too few bytes waits forever. A serial port
  with a read timeout would instead return a short read; that is not
  modelled.
- `RequestHandler.join` and the condition variable `set_response`
  notifies. Waking the waiting threads has no state the loop can see.
- The queues' internal locks, and `logging`.
- `time.time()`. It is the parameter `now`, read once per operation, and
  the clock is a real number rather than a float.
- Ties in the priority queue. Entries with equal send times are kept in
  arrival order. The source's `PriorityQueue` would compare the
  `RequestHandler`s to break the tie.
- The `__main__` driver (lines 265-273).
- Python 2's str/int comparison. It is modelled only for the binary
  timestamp (`Request.OwnResponseAsWritten`).
- Comm.AsyncComm.WriteRequest requires a non-empty request queue. The
  source's `get()` would wait there. The invariant rules this out whenever
  `WriteRequest` runs for a `NEW` marker.
- Comm.AsyncComm.CheckRequestsTimeout stops on an empty response queue,
  where the source waits forever. See the Findings below.
- Request.RequestHandler.SetResponse does not make the response
  one-shot. A second `set_response` overwrites the first, as in the
  source.
- Comm.AsyncComm.Step. When the connection is ready and its read waits,
  fails to parse or fails to correlate, the step returns that outcome and
  skips the wake channel. In the source, the thread is blocked or ended
  at that point.
- Markers left in the wake channel after `STOP` are never read. The
  model keeps them, and `Step` is a no-op once `running` is false.

## Findings

| source | as written | input that shows it | evidently intended | confidence | as-written member | corrected member |
|---|---|---|---|---|---|---|
| epuck/comm/async.py:249-256 | the timeout scan calls the response queue's blocking `get()` until it meets a young entry | an idle timeout with nothing in flight, or one request sent at 0 with timeout 0.2 and scanned at 1: the queue runs empty and the loop thread waits forever | stop scanning when the queue is empty | high; not executed | Queues.ScanAsWrittenBlocksWhenAllExpired | Comm.AsyncComm.CheckRequestsTimeout |
| epuck/comm/async.py:209-210 | `size = hi << 8 + lo` parses as `hi << (8 + lo)` | line 209 leaves `lo` and `hi` as one-character strings, so `8 + lo` raises TypeError on every binary frame; over the bytes' values, which is what `Frames.LengthAsWritten` computes, length bytes lo = 3, hi = 0 give 0 instead of 3 | `lo + 256 * hi` over the bytes' values | high; not executed | Frames.LengthAsWrittenMisreadsShortPayloads | Frames.FrameLength |
| epuck/comm/async.py:190 | the binary timestamp stays the one-character string `read(1)` returned, while handlers hold integer timestamps (line 195, line 272); this is latent behind the previous row, because line 210 raises before line 200 is reached | a handler with code 200 and timestamp 5, and the frame 200, 5, length 3, `xyz`: once the length is computed, `own_response` is False | compare the byte's value | medium; not executed | Request.BinaryTimestampNeverMatchesAsWritten | Request.BinaryEchoReachesItsRequest |
