# Halmos verified

A Dafny model of the parts of the Halmos web server in which several state machines share
state over partial input and output, with proofs of what they keep over every run. Each
operation that the server performs by changing state is a method over the same fields,
buffers and loops, proved against a function on values; the properties of the protocols are
lemmas about those functions and invariants of those methods.

`dafny verify dfyconfig.toml` checks everything.

## What is modelled

- **Connections** (`ConnTable`, `Ownership`, `Service`): the slot table with its 32-bit
  generations, and one epoll thread, any number of workers and an outside closer interleaved one
  atomic step at a time: accept, count, activate, arm, wake, push, pop, check, lock, recheck,
  dispatch, rearm or cleanup. `Ownership` has what is never lost, `Service` what is always served.
- **Worker pool** (`TaskQueue`, `WorkerPool`, `PoolService`): the linked task queue and its
  counters as one critical section per method, then every interleaving of producers, workers,
  upscaling threads and shutdown.
- **FastCGI** (`FastCgiRecords`, `FastCgiEncoder`, `FastCgiRelay`, `FastCgiRelayLoop`,
  `FastCgiStatus`, `FastCgiAnswers`, `Chunked`): records and name-value pairs, the PARAMS and
  STDIN encoders, the relay of a record stream into a chunked HTTP/1.1 response, the status it
  gets and whether the page behind the header is passed on.
- **HTTP/2** (`Http2Framing`, `Http2Streams`, `Http2FlowControl`, `Http2Session`, `Http2Windows`,
  `Http2Data`): the write backlog, the resumable frame reader, the bucket table of streams, the
  flow-control windows and the file pump.
- **HPACK** (`Huffman`, `HpackCodec`, `HpackRequests`, `Hpack`): integers, strings, the
  nibble-driven Huffman decoder, both tables, the block parser, the blocks any peer may send it,
  and the header block of a response.
- **WebSocket** (`WsFrames`, `WsReceiver`, `WsTunnel`, `WsRegistry`, `WsRegistryTables`,
  `WsRegistryEffects`): the resumable receiver, frames inside HTTP/2 DATA, and the registry of
  clients.
- **Rate limiter** (`RateLimiter`, `RateLimiterExact`, with the hash it shares with the registry
  in `Djb2`) and **HTTP/1.1 senders** (`Http1Response`).

`Bytes`, `Options`, `Sockets` and `Resources` hold what the others share, and `WireLayouts` the
byte layouts of three protocols. A socket takes or delivers any amount, or refuses, at every call;
memory and files may be refused at every call. So whatever is proved about their callers holds for
every schedule of partial reads and writes. Each counts, in ghost fields, the calls that did less
than was asked and the calls that failed. A method over them that asks its caller to wait, or gives
up, says in its contract which counter has grown, so it does neither without a cause; `Backend` in
`FastCgiEncoder` has `broken` for the same end.

Where one long function of the code keeps its state in locals (the relay, the block parser), the
locals are fields of a class and its phases methods.

## Where the code is not what one would expect

The model follows the code. The departures that shape the statements are:

- SETTINGS and SETTINGS acknowledgements are written past the backlog
  (`src/protocol/http2/halmos_http2_frame.c:74`, `:79`), so the framing result is about frames
  sent by `http2_frame_send`. Once a write has failed, frames may still follow the gap.
- `http2_response_send_data` looks at no window and debits none; the flow-control ledger is
  about file bytes only.
- Streams are marked with the raw states 2 and 4, which are not the value the pump compares with.
- A payload read that would block with nothing to write makes the session loop go round at once
  (`src/protocol/http2/halmos_http2_manager.c:69`); the model's turn ends and the next begins.
- The generation of a slot wraps after 2^32 lifetimes, and a remembered generation is valid again
  exactly a multiple of them later (`GenerationWraps`). The same wrap refuses the connection that
  draws 0.
- A running pool can fall below its minimum, for instance when a thread creation fails after
  another worker has timed out against the reservation (`MinimumCanBeLost`); `StepKeepsMinimum`
  has the three steps that do it. An initial thread that could not be created stays counted for ever.
- The status of a FastCGI response is looked for in all of the header buffer, so without a
  status in the header it can depend on how the output was split (`SplitsAgreeOnStatus` says
  exactly when). The redirect path stops before END_REQUEST (`RedirectHasNoBody`), the padding of
  END_REQUEST is never read, output without a blank line counts as a success
  (`NoBlankLineNoResponse`), and if it overruns the buffer its rest is read as records
  (`OverflowIsReadAsRecords`).
- A header name of 127 bytes or more loses its length on the way (`LongNameLosesItsLength`,
  `PlainHeaderSurvives`); empty values are dropped by the decoder. The block of a response makes
  room for a line by one doubling only (`OneDoublingIsEnough`).
- A sweep may let an address in again in the same second (`SweepLetsInAgain`). The limiter's clock
  is read before its lock is taken (`src/security/halmos_sec_traffic.c:41`, `:43`), so a later
  reading can get the lock first, and then the limit is exceeded (`LateReadingAdmitsMore`).
- A registry client that joined more than sixteen buckets is still mentioned after its removal
  (`RemoveLeavesNoMention` and `TopicsStayLive` say exactly when).
- The TLS sender reports success for a file that was cut short while it was being sent
  (`Tls` says exactly when).

## Model

| member | source | states |
|---|---|---|
| ConnTable.Table.Activate | src/core/halmos_core_conn_table.c:92-118 | the slot gets the next generation modulo 2^32, becomes active and reading; a descriptor outside the table gives 0 and changes nothing |
| ConnTable.Table.Deactivate | src/core/halmos_core_conn_table.c:120-140 | the slot becomes inactive and dead, and keeps its generation |
| ConnTable.Table.IsValid | src/core/halmos_core_conn_table.c:142-158 | valid exactly when in range, active, of the expected generation and neither closing nor dead |
| ConnTable.StaleGenerationIsInvalid | src/core/halmos_core_conn_table.c:150-155 | a generation remembered from an earlier lifetime is not valid in a later one fewer than 2^32 lifetimes on, nor ever in a slot that has been killed |
| ConnTable.GenerationWraps | src/core/halmos_core_conn_table.c:99-99 | in an active, reading slot it is valid exactly if a multiple of 2^32 lifetimes have gone by |
| Ownership.DispatchExclusion | src/core/halmos_core_thread_pool.c:36-114 | in every behaviour, outside closes included, a dispatching worker holds the lock of its slot, which is active with the task's generation, and is the very lifetime the task was queued for if fewer than 2^32 have begun since; no other thread holds that lock, under which the server dispatches on, activates, kills and closes a slot (a cleanup's uncounting and EPOLL_CTL_DEL are outside it) |
| Ownership.DispatchIsUndisturbed | src/core/halmos_core_thread_pool.c:47-69 | while a worker dispatches, no step of another thread changes its slot or takes its lock |
| Ownership.BehavioursKeepExclusion | src/core/halmos_core_conn_table.c:97-115 | locks, generations and dispatches agree in every reachable state |
| Ownership.BehavioursKeepOwnership | src/core/halmos_core_event_loop.c:97-226 | in every interleaving every open connection is in exactly one of epoll, the wake batch, the queue or a thread; active_connections is the number of live connections; closes never exceed accepts and each lifetime is closed once |
| Ownership.OwnershipConsequences | src/core/halmos_core_event_loop.c:184-223 | a live descriptor has at most one task, a carried task is never stale, the loop never meets an inactive slot, and close is only called on an open descriptor |
| Ownership.LoopTransfers | src/core/halmos_core_event_loop.c:141-222 | every step of the event loop hands a connection from one place to one other; which steps it takes is in `Service` |
| Ownership.WorkerTransfers | src/core/halmos_core_thread_pool.c:23-121 | so does every step of a worker |
| Ownership.CleanupTransfers | src/core/halmos_core_event_loop.c:295-338 | so does every step of a cleanup, which ends in no place |
| Ownership.StepKeepsOwnership | src/core/halmos_core_event_loop.c:277-338 | ownership, the counter and the close ledger survive every step |
| Service.BehavioursRefuseOnlyWraps | src/core/halmos_core_event_loop.c:145-152 | in every behaviour, outside closes included, only the event loop refuses a connection, and only in a lifetime of its descriptor that is a multiple of 2^32 |
| Service.CountedIsArmed | src/core/halmos_core_event_loop.c:143-172 | from any reachable state an accepted, counted connection whose lifetime is no such multiple is, by the next three steps of the loop, activated with its generation, added to epoll and armed; nothing else changes |
| Service.ReadyIsQueued | src/core/halmos_core_event_loop.c:182-216 | a ready connection that has not hung up ends, by take and accepted push, at the tail of the queue with the generation of its slot |
| Service.CleanupHasCause | src/core/halmos_core_event_loop.c:165-222 | the loop starts a cleanup only after a hang-up, a refused push or a failed add, a worker only after its dispatch |
| Service.PoppedIsDispatched | src/core/halmos_core_thread_pool.c:35-69 | with closes by the server alone a popped task is never dropped: check, lock and recheck lead to its dispatch |
| Service.KeptIsArmed | src/core/halmos_core_thread_pool.c:87-106 | a connection that a worker keeps is armed again |
| Service.NobodyIsStuck | src/core/halmos_core_event_loop.c:141-338 | in every reachable state each busy thread can take its next step, or waits for a slot lock whose holder can |
| Service.FirstIsServed | src/core/halmos_core_thread_pool.c:23-121 | a behaviour from the start in which a connection is accepted, armed, queued, dispatched in generation 1 and armed again |
| TaskQueue.LockedQueue.Push | src/core/halmos_core_queue.c:43-99 | the task goes to the tail of the linked list unless the queue is full or memory is short, and up to four workers are reserved past half capacity |
| TaskQueue.LockedQueue.Pop | src/core/halmos_core_queue.c:135-204 | one pass of a worker: leave, wait, or take the task at the head |
| TaskQueue.LockedQueue.GiveBack | src/core/halmos_core_queue.c:115-119 | failed reservations are returned |
| TaskQueue.LockedQueue.Drain | src/core/halmos_core_queue.c:221-237 | the remaining tasks are taken out, in order |
| TaskQueue.LockedQueue.MarkIdle | src/core/halmos_core_thread_pool.c:137-142 | one active worker less, and nothing else |
| WorkerPool.BehavioursKeepAccounts | src/core/halmos_core_queue.c:43-130 | in every interleaving total_workers is the live workers plus the reservations not yet spawned, never above the maximum; active_workers is the workers between pop and idle; accepted tasks are, in order, popped once, drained or still queued |
| WorkerPool.StopFindsNoWorker | src/core/halmos_core_queue.c:210-219 | shutdown returns only when no worker is live and none is reserved |
| WorkerPool.NothingPoppedAfterStopRequest | src/core/halmos_core_queue.c:179-184 | once stop is requested no step pops anything |
| WorkerPool.StepKeepsMinimum | src/core/halmos_core_queue.c:100-176 | a step takes a running pool from its minimum or more to less exactly if it gives back failed reservations that the minimum needs, fails to create an initial thread that it needs, or is a timeout judged by a total that counts initial threads which never came up |
| WorkerPool.MinimumHolds | src/core/halmos_core_queue.c:100-176 | over any run the pool has its minimum for as long as it runs exactly if no step of the run loses it; so it does while no creation has failed |
| WorkerPool.MinimumCanBeLost | src/core/halmos_core_queue.c:114-119 | a run of the first kind, after which a running pool has no workers at all |
| PoolService.RefusedExactly | src/core/halmos_core_queue.c:46-59 | a task is refused exactly if the queue is full or there is no memory for it, and then nothing changes |
| PoolService.GrowsExactly | src/core/halmos_core_queue.c:74-95 | the pool grows exactly if more than half the queue is used, it has room and nobody else makes it grow: by four, or by the room it has |
| PoolService.PopsExactly | src/core/halmos_core_queue.c:142-184 | a worker leaves exactly if the pool stops, or if nothing came while it waited and there are more workers than the minimum; otherwise it takes the oldest task if there is one |
| PoolService.IdleWorkerServes | src/core/halmos_core_queue.c:186-204 | any idle worker of a running pool with tasks takes the oldest, and is idle again afterwards |
| PoolService.FirstTaskIsServed | src/core/halmos_core_queue.c:24-204 | a behaviour from the start in which the first task is accepted and popped by a worker that is idle again |
| FastCgiRecords.ParseInvertsEncode | src/fastcgi/halmos_fcgi_proto.c:194-211 | a record laid out by the encoders is read back whole, with what follows it |
| FastCgiRecords.ParseAllInvertsEncodeAll | src/fastcgi/halmos_fcgi_proto.c:187-230 | so is a stream of records |
| WireLayouts.RecordLayout | src/fastcgi/halmos_fcgi_proto.c:194-211 | version 1, kind, identifier, content length, padding length, zero, content, padding, with the numbers of the kinds used |
| FastCgiRecords.LengthRoundTrip | src/fastcgi/halmos_fcgi_proto.c:505-523 | one-byte and four-byte lengths decode to the length |
| FastCgiRecords.PairsRoundTrip | src/fastcgi/halmos_fcgi_proto.c:487-534 | a run of name-value pairs decodes to the pairs, in order |
| FastCgiEncoder.AddPair | src/fastcgi/halmos_fcgi_proto.c:487-534 | a pair that fits is appended, one that does not leaves the buffer as it was |
| FastCgiEncoder.AllFitted | src/fastcgi/halmos_fcgi_proto.c:499-503 | no pair is left out while all of them fit |
| FastCgiEncoder.FittedFits | src/fastcgi/halmos_fcgi_proto.c:97-102 | what is kept never passes the end of the buffer |
| FastCgiEncoder.ParamsRoundTrip | src/fastcgi/halmos_fcgi_proto.c:153-178 | the PARAMS stream decodes to the pairs that fitted; its 16-bit length is exact, the record is a multiple of 8 bytes, and an empty record follows |
| FastCgiEncoder.BuildParams | src/fastcgi/halmos_fcgi_proto.c:58-179 | the gather buffer ends with exactly those two records |
| FastCgiEncoder.StdinRoundTrip | src/fastcgi/halmos_fcgi_proto.c:185-230 | for every length the STDIN records give back the body, each is a multiple of 8 bytes, and the only empty record is the last |
| FastCgiEncoder.SafeSendAll | src/fastcgi/halmos_fcgi_proto.c:463-481 | everything is sent whatever partial and interrupted sends come first, or a prefix and the connection is broken |
| FastCgiEncoder.SendStdin | src/fastcgi/halmos_fcgi_proto.c:181-232 | the wire carries the STDIN records, or a prefix of them if the connection broke |
| Chunked.DechunkChunk | src/fastcgi/halmos_fcgi_proto.c:347-351 | a chunk in front adds its data to the front of the decoded body (section 4.1 of RFC 7230) |
| Chunked.DechunkLast | src/fastcgi/halmos_fcgi_proto.c:430-430 | the last chunk ends the body and leaves what follows |
| Chunked.HexPrefixInvertsHex | src/fastcgi/halmos_fcgi_proto.c:348-348 | the hexadecimal size reads back as the size |
| FastCgiRelay.RelayPreservesBody | src/fastcgi/halmos_fcgi_proto.c:240-442 | for any split into STDOUT records, any padding and any STDERR between, the client gets the CGI header and a chunked body that decodes to exactly the bytes after the blank line, ended once; only the padding of END_REQUEST is left unread |
| FastCgiRelay.RedirectHasNoBody | src/fastcgi/halmos_fcgi_proto.c:309-342 | a redirect is answered with its first lines and its CGI header alone, and success |
| FastCgiRelay.RedirectDrainsItsRecord | src/fastcgi/halmos_fcgi_proto.c:309-342 | a redirect whose header comes whole in its first record reads that record to the end, and leaves its padding and what follows |
| FastCgiRelay.NoBlankLineNoResponse | src/fastcgi/halmos_fcgi_proto.c:293-295 | output of at most 8191 bytes without a blank line is lost: success, and nothing for the client |
| FastCgiRelay.OverflowIsReadAsRecords | src/fastcgi/halmos_fcgi_proto.c:284-295 | output that fills the 8192-byte buffer before a blank line: the rest of the record that fills it is read as the records that follow, and the client gets nothing |
| FastCgiRelay.FullBufferSendsNothing | src/fastcgi/halmos_fcgi_proto.c:284-295 | once the buffer is full without a blank line the client never gets anything, whatever the backend sends |
| FastCgiRelay.FindIsFirst | src/fastcgi/halmos_fcgi_proto.c:293-298 | the search finds the first match, and no NUL comes before it |
| FastCgiStatus.HeaderDecidesStatus | src/fastcgi/halmos_fcgi_proto.c:295-299 | the status is the same whatever body follows the header in the buffer exactly if the header names a status and more than space follows the name in it |
| FastCgiStatus.SplitsAgreeOnStatus | src/fastcgi/halmos_fcgi_proto.c:284-299 | any two splits of any output with this header get the same status exactly if the header decides it, or leaves too little of the 8191 bytes for anything that could change it |
| FastCgiStatus.StatusDependsOnSplit | src/fastcgi/halmos_fcgi_proto.c:284-299 | otherwise one output with this header has two splits that get two statuses |
| FastCgiAnswers.PlainStatus | src/fastcgi/halmos_fcgi_proto.c:295-299 | 200 if the buffer names neither a status nor a location before its first NUL, in letters of either case |
| FastCgiAnswers.LocationStatus | src/fastcgi/halmos_fcgi_proto.c:295-299 | 302 if it names a location and no status |
| FastCgiAnswers.NumberedStatus | src/fastcgi/halmos_fcgi_proto.c:295-299 | the number of three digits behind the first status named, after one byte and any spaces |
| FastCgiAnswers.PlainPageIsPassedOn | src/fastcgi/halmos_fcgi_proto.c:293-442 | an ordinary page, which names neither of them in its first 8191 bytes, gets 200, its header, and a chunked body that decodes to all that comes behind the first blank line, for any split |
| FastCgiAnswers.NumberedPageIsPassedOn | src/fastcgi/halmos_fcgi_proto.c:293-442 | so does a page with a three-digit status in its header that does not begin with 3, with that status |
| FastCgiAnswers.LocationIsRedirected | src/fastcgi/halmos_fcgi_proto.c:293-342 | a page with a location in its header and no status gets 302 and its header alone |
| FastCgiAnswers.NumberedIsRedirected | src/fastcgi/halmos_fcgi_proto.c:293-342 | so does one with a status of the 300s, with that status |
| FastCgiRelayLoop.Relay.Run | src/fastcgi/halmos_fcgi_proto.c:240-458 | the record loop gives 0 exactly when the relay on values succeeds, and then client and backend are where that says; otherwise -2 |
| FastCgiRelayLoop.Relay.GatherHeader | src/fastcgi/halmos_fcgi_proto.c:284-366 | a record before the blank line is kept in the 8192-byte buffer, or completes the header and starts the response |
| FastCgiRelayLoop.Relay.StreamBody | src/fastcgi/halmos_fcgi_proto.c:367-412 | a body record becomes one chunk, through the pipe or the copy buffer, however the splices split it |
| Http2Framing.HeadRoundTrip | src/protocol/http2/halmos_http2_parser.c:37-44 | the nine header bytes parse back to length, kind, flags and stream (section 4.1 of RFC 7540) |
| WireLayouts.FrameLayout | src/protocol/http2/halmos_http2_frame.c:12-53 | three bytes of length, kind, flags, four of stream identifier, most significant first, and the payload |
| Http2Framing.NextFrameExactly | src/protocol/http2/halmos_http2_manager.c:199-312 | a frame ends the session exactly if its announced length is over the limit or it is a whole frame of kind 7; otherwise it is taken as soon as its bytes are in |
| Http2Framing.DeframeInvertsEncode | src/protocol/http2/halmos_http2_frame.c:12-53 | the encoding of any frames is read back as those frames |
| Http2Framing.DeframeResumes | src/protocol/http2/halmos_http2_manager.c:199-253 | reading in two parts is reading at once, whatever the cut |
| Http2Framing.Writer.WriteOrBuffer | src/protocol/http2/halmos_http2_socket.c:24-86 | wire and backlog together grow by exactly the data, unless a write error is noted, which takes a failed write or refused memory |
| Http2Framing.Writer.FlushPending | src/protocol/http2/halmos_http2_socket.c:93-130 | flushing changes nothing of wire plus backlog, 0 means nothing is left, and anything else has a cause in the socket |
| Http2Framing.Writer.SendFrame | src/protocol/http2/halmos_http2_frame.c:12-53 | the frame joins the frames submitted, in order, or is dropped if over 16384 bytes |
| Http2Framing.Reader.Iterate | src/protocol/http2/halmos_http2_manager.c:41-75 | after any turn the frames dispatched are those of one pass over all bytes received; a turn waits only after a short read, closes only after a failed one or for a frame that ends the session, and otherwise has read something |
| Http2Framing.FramesArriveInOrder | src/protocol/http2/halmos_http2_socket.c:24-130 | any part of the wire holds a prefix of the frames sent, all of it all of them |
| Http2Framing.EndToEnd | src/protocol/http2/halmos_http2_manager.c:34-81 | under any partial writes, refusals and partial reads the frames dispatched are a prefix of the frames sent, and all of them once flushed and read |
| Http2Streams.LookupPut | src/protocol/http2/halmos_http2_stream.c:16-27 | replacing a stream changes what is found under its id and nothing else |
| Http2Streams.LookupAdd | src/protocol/http2/halmos_http2_stream.c:37-86 | adding a new stream adds its id and changes nothing else; ids stay unique |
| Http2Streams.LookupPointwise | src/protocol/http2/halmos_http2_manager.c:292-295 | changing every stream in place is changing every value of the map |
| Http2FlowControl.LedgerIsExact | src/protocol/http2/halmos_http2_manager.c:288-297 | a 32-bit window equals initial window plus credits minus file bytes exactly when that sum fits |
| Http2Windows.SettingsAreRead | src/protocol/http2/halmos_http2_manager.c:283-301 | the payload of any settings sets the initial window to each value given for identifier 4, in order, and nothing else |
| Http2Windows.IncrementIsRead | src/protocol/http2/halmos_http2_frame.c:91-99 | the increment is the four bytes without the highest bit |
| Http2Windows.WindowsMove | src/protocol/http2/halmos_http2_manager.c:283-301 | every window starts at 65535 and moves, in 32 bits, by the difference of a setting, by a credit of its own or by the DATA sent on it, and by nothing else |
| Http2FlowControl.PumpLeavesWindowsNonNegative | src/protocol/http2/halmos_http2_response.c:394-430 | a frame of the pump leaves both windows at least 0, less exactly its length |
| Http2FlowControl.SentIsPrefix | src/protocol/http2/halmos_http2_response.c:397-436 | over any run the DATA payloads of a stream are a prefix of its file |
| Http2Session.Session.GetOrCreate | src/protocol/http2/halmos_http2_stream.c:37-86 | a known id changes nothing; a new one starts with the peer's initial window and no other stream changes |
| Http2Session.Session.Find | src/protocol/http2/halmos_http2_stream.c:16-27 | the bucket walk finds the one stream of the map |
| Http2Session.Session.ApplySettings | src/protocol/http2/halmos_http2_manager.c:283-301 | each initial-window entry, in order, moves every window by the difference, and the ledger stays exact |
| Http2Session.Session.WindowUpdate | src/protocol/http2/halmos_http2_frame.c:91-123 | the connection or a known stream is credited with the increment, an unknown stream or zero with nothing |
| Http2Session.Session.Reset | src/protocol/http2/halmos_http2_manager.c:263-282 | RST_STREAM closes the file and the stream and leaves every window |
| Http2Session.ActiveAreListed | src/protocol/http2/halmos_http2_response.c:313-329 | in terms of the fields: each stream with an open file being sent and state other than 6, or with FastCGI, is listed at its place in table order, nothing else is, and the pump takes the first 256 |
| Http2Session.ListedById | src/protocol/http2/halmos_http2_response.c:313-329 | by id: a stream is listed exactly if it is such a stream, and once |
| Http2Session.Session.PumpOne | src/protocol/http2/halmos_http2_response.c:374-437 | the next bytes of the file go to the frame writer as one DATA frame with END_STREAM exactly on the last; the disk is asked for exactly the least of 16384, both windows and what is left, and the file is given up only if it gives nothing; a stream that may not send is left alone |
| Http2Session.Session.CollectActive | src/protocol/http2/halmos_http2_response.c:313-329 | the list of `ActiveAreListed` |
| Http2Session.Session.Flush | src/protocol/http2/halmos_http2_response.c:304-440 | the frames that go to the writer are those of the DATA added to the run, in order; with at most 256 active streams each that has an open file with bytes left, state other than 6 and both windows positive sends some, unless the disk failed it or the connection window is used up; less is left to send |
| Http2Session.Session.HasActive | src/protocol/http2/halmos_http2_response.c:442-464 | true exactly if some stream has an open file being sent and state other than 6, or FastCGI |
| Http2Data.DataFramesCarryBody | src/protocol/http2/halmos_http2_response.c:89-139 | the frames carry the body whole and in order, none over 16384 bytes, END_STREAM on the last and only there |
| Http2Data.SendData | src/protocol/http2/halmos_http2_response.c:89-139 | exactly those frames are submitted, and a write error has a cause in socket or memory |
| Huffman.Decode | src/protocol/http2/halmos_http2_hpack.c:5117-5145 | for every input the two-nibble loop gives what a bit-by-bit walk of the code tree gives, and succeeds exactly when that leaves room for the NUL |
| Huffman.OneSymbolAtMost | src/protocol/http2/halmos_http2_hpack.c:5127-5140 | with words of five bits or more a nibble emits at most one symbol |
| Huffman.DecodedInvertsEncode | src/protocol/http2/halmos_http2_hpack.c:5117-5145 | decoding a text encoded with the code and padded with the start of the end-of-string word gives the text (section 5.2 of RFC 7541) |
| HpackCodec.IntRoundTrip | src/protocol/http2/halmos_http2_hpack.c:4930-4954 | every 32-bit integer survives every prefix (section 5.1 of RFC 7541) |
| HpackCodec.StringRoundTrip | src/protocol/http2/halmos_http2_hpack.c:4992-5018 | a NUL-free string that fits the buffer survives |
| HpackRequests.SpelledRoundTrip | src/protocol/http2/halmos_http2_hpack.c:4992-5018 | every NUL-free string that fits its buffer, plain or Huffman-coded with the code of the tree, comes back, and just its bytes are taken |
| HpackCodec.HeaderRoundTrip | src/protocol/http2/halmos_http2_response.c:254-286 | a literal header with a name of 1 to 126 bytes and a value of 1 to 511 survives |
| HpackCodec.LongNameLosesItsLength | src/protocol/http2/halmos_http2_response.c:256-267 | the decoder gets a name, and takes for it just the bytes that were written, exactly if the name is shorter than 127 bytes and NUL-free; for a longer one it takes bytes of the name for the length |
| HpackCodec.PlainHeaderSurvives | src/protocol/http2/halmos_http2_response.c:254-286 | a header whose value has no byte above 127 survives, with any code, any dynamic table and whatever follows, exactly if its name has 1 to 126 bytes and its value 1 to 511, all without a NUL |
| HpackCodec.HeaderSurvives | src/protocol/http2/halmos_http2_response.c:254-286 | with any value, it survives everywhere exactly under that condition |
| HpackCodec.StatusRoundTrip | src/protocol/http2/halmos_http2_response.c:186-208 | every three-digit status survives, by index or as a literal |
| HpackCodec.BlockRoundTrip | src/protocol/http2/halmos_http2_response.c:186-291 | the block of a response decodes, with any dynamic table, to the status and the headers in order, as far as the handler accepts them |
| HpackCodec.BlockUpTo | src/protocol/http2/halmos_http2_response.c:186-291 | whatever stands behind them in the block, the status and the headers before the first that does not survive are handed over in order |
| HpackRequests.FieldRoundTrip | src/protocol/http2/halmos_http2_parser.c:157-225 | any field of section 6 of RFC 7541 (by index or in full, kept or not, either string plain or Huffman-coded) has its meaning, and takes just its bytes |
| HpackRequests.BlockOfFields | src/protocol/http2/halmos_http2_parser.c:133-233 | a block of any such fields tells the handler what they mean, in order, and leaves the dynamic table they make, as far as the handler lets it |
| HpackRequests.FirstRequest | src/protocol/http2/halmos_http2_parser.c:133-233 | the request of section C.3.1 of RFC 7541, byte for byte |
| HpackCodec.FilledHoldsTheLast | src/protocol/http2/halmos_http2_hpack.c:4974-4990 | after any run of insertions the table holds the last 128, newest first |
| HpackCodec.DynamicIndex | src/protocol/http2/halmos_http2_hpack.c:4956-4972 | index 62 + k is the k-th most recent insertion, and no other index above 61 is there, nor 0 |
| HpackCodec.NextField | src/protocol/http2/halmos_http2_parser.c:157-225 | a field takes at least one byte and never more than there are, for every input |
| Hpack.DecodeInt | src/protocol/http2/halmos_http2_hpack.c:4930-4954 | the cursor loop computes the integer of the specification modulo 2^32 and stays inside the block |
| Hpack.DynamicTable.Add | src/protocol/http2/halmos_http2_hpack.c:4974-4990 | the shifted array is the old contents with the new pair in front, 128 at most |
| Hpack.DynamicTable.GetHeader | src/protocol/http2/halmos_http2_hpack.c:4956-4972 | static, dynamic or no entry, index 0 wrapping to none |
| Hpack.Coding.DecodeString | src/protocol/http2/halmos_http2_hpack.c:4992-5018 | the text left in the buffer, plain or Huffman-coded (`SpelledRoundTrip` has which), and where the cursor goes in every error case |
| Hpack.Parser.ReadField | src/protocol/http2/halmos_http2_parser.c:157-225 | one pass of the loop has the effect of the field on the request and on the dynamic table |
| Hpack.Parser.ParseHeader | src/protocol/http2/halmos_http2_parser.c:133-233 | the loop takes the whole block, or stops at the first header refused |
| Hpack.BuildBlock | src/protocol/http2/halmos_http2_response.c:141-291 | the growing buffer ends up with the status and every header line but the status line, for all lines that fit it after at most one doubling each |
| Hpack.OneDoublingIsEnough | src/protocol/http2/halmos_http2_response.c:246-286 | one doubling makes room for a line exactly if its code fits twice the capacity |
| Hpack.ShortLinesFit | src/protocol/http2/halmos_http2_response.c:246-286 | it does for all lines of at most 16368 bytes |
| WsFrames.ParseInvertsEncode | src/protocol/websocket/halmos_ws_system.c:234-359 | a masked final frame in any length form is read as its opcode and its unmasked payload (section 5.2 of RFC 6455) |
| WsFrames.RefusedExactly | src/protocol/websocket/halmos_ws_system.c:252-309 | a frame is refused exactly if it is a fragment, unmasked, a control frame over 125 bytes, or of an extended length over 10 MiB |
| WsFrames.WholeExactly | src/protocol/websocket/halmos_ws_system.c:234-359 | it is whole exactly when its head, length, key and payload are in |
| WireLayouts.FrameIsUnmasked | src/protocol/websocket/halmos_ws_system.c:252-367 | its payload is what follows the key, each byte exclusive-or the byte of the key in turn |
| WireLayouts.XorIsBitwise | src/protocol/websocket/halmos_ws_system.c:362-367 | exclusive-or is bit by bit |
| WsFrames.ParseAllResumes | src/protocol/websocket/halmos_ws_system.c:234-377 | parsing in two parts is parsing at once |
| WsFrames.MaskTwice | src/protocol/websocket/halmos_ws_system.c:362-367 | masking twice with one key is the identity (section 5.3 of RFC 6455) |
| WsReceiver.Receiver.RecvFrame | src/protocol/websocket/halmos_ws_system.c:234-377 | under any reads, OK delivers the next message of the stream and leaves the receiver as new, AGAIN loses nothing and comes only after a short read; a connection is dropped only after a failed read, a refused allocation, or for a frame that a parser of all the bytes refuses |
| WsReceiver.Receiver.Deliver | src/protocol/websocket/halmos_ws_system.c:361-377 | the payload is unmasked in place, handed over, and the state reset |
| WsReceiver.HonestIsNotRefused | src/protocol/websocket/halmos_ws_system.c:234-359 | a client that sends proper frames is never refused, whatever part of its bytes is in |
| WsReceiver.DeliversWhatWasSent | src/protocol/websocket/halmos_ws_system.c:234-377 | the messages delivered are the first of those sent, and all of them once every byte is read |
| WsTunnel.OutgoingFrame.LowLevelSend | src/protocol/websocket/halmos_ws_system.c:610-636 | the offset moves by what the wire took, 0 means all of it is out, and anything else has a cause in the socket |
| WsTunnel.SendText | src/protocol/websocket/halmos_ws_system.c:682-738 | the text frame inside a DATA frame goes out, or the rest of it waits |
| WireLayouts.TextFrameLayout | src/protocol/websocket/halmos_ws_system.c:682-738 | the text frame in the shortest of the three length forms, unmasked |
| WsTunnel.HandlePayload | src/protocol/http2/halmos_http2_parser.c:362-411 | the text a DATA payload hands over, for every payload |
| WsTunnel.ChecksKeepInside | src/protocol/http2/halmos_http2_parser.c:390-395 | exactly the payloads that lie inside the frame pass the 64-bit check and the allocation |
| WsTunnel.TextRoundTrip | src/protocol/websocket/halmos_ws_system.c:682-738 | every text whose frame is under 2^24 bytes survives sender, HTTP/2 header parser and tunnel parser |
| WsTunnel.MaskedRoundTrip | src/protocol/http2/halmos_http2_parser.c:362-411 | the tunnel parser undoes the mask of any client text frame |
| WsRegistry.RunIsCoherent | src/protocol/websocket/halmos_ws_registry.c:57-215 | over any sequence of calls with free descriptors and names of at most 63 bytes, slots, descriptor map, count and user map agree, and every client is in the topic buckets it has recorded, and in no others while there is room to record them |
| WsRegistry.TopicsStayLive | src/protocol/websocket/halmos_ws_registry.c:57-406 | over any such sequence the topic buckets list live clients alone exactly if no client was removed that had joined more than sixteen of them |
| WsRegistry.AddKeepsCoherence | src/protocol/websocket/halmos_ws_registry.c:57-92 | adding keeps them in agreement exactly if the descriptor was free |
| WsRegistry.SetUserKeepsCoherence | src/protocol/websocket/halmos_ws_registry.c:440-480 | naming does exactly if the stored name has the hash of the given one |
| WsRegistry.SubscribeKeepsCoherence | src/protocol/websocket/halmos_ws_registry.c:354-406 | subscribing does |
| WsRegistry.RemoveKeepsCoherence | src/protocol/websocket/halmos_ws_registry.c:152-215 | removing does; RemoveLeavesNoMention says when the removed client stays in a topic bucket |
| WsRegistry.RemoveLeavesNoMention | src/protocol/websocket/halmos_ws_registry.c:182-201 | after a removal nothing mentions the client exactly if it had joined at most sixteen buckets |
| WsRegistry.LookupFindsLatest | src/protocol/websocket/halmos_ws_registry.c:503-524 | a lookup by name finds the latest live client to have taken it, or none if nobody holds it |
| WsRegistryEffects.AddTakesEffect | src/protocol/websocket/halmos_ws_registry.c:57-92 | a valid descriptor is added exactly while there are fewer than 1024 clients; it is then found, in a slot that was free, with no name and no topics, and no other descriptor is affected |
| WsRegistryEffects.NameTakesEffect | src/protocol/websocket/halmos_ws_registry.c:440-480 | a client that takes a name of at most 63 bytes is found by it |
| WsRegistryEffects.OtherNamesStay | src/protocol/websocket/halmos_ws_registry.c:440-480 | and no other lookup changes but the one of its old name |
| WsRegistryEffects.SubscriptionTakesEffect | src/protocol/websocket/halmos_ws_registry.c:354-406 | a client that subscribes is in the bucket of its topic, once, and no other entry of any bucket changes |
| WsRegistryEffects.SubscriptionIsRecorded | src/protocol/websocket/halmos_ws_registry.c:354-406 | the topic is recorded exactly if the client was not in the bucket and has recorded fewer than sixteen |
| WsRegistryEffects.RemovalTakesEffect | src/protocol/websocket/halmos_ws_registry.c:152-215 | a removed client is gone from clients, count and descriptors, and no other client loses or gains a descriptor or a topic |
| WsRegistryEffects.RemovalKeepsNames | src/protocol/websocket/halmos_ws_registry.c:152-215 | nor a name |
| WsRegistryTables.Registry.AddClient | src/protocol/websocket/halmos_ws_registry.c:57-129 | the slot scan takes the first free slot or gives -1 |
| WsRegistryTables.Registry.SetUserId | src/protocol/websocket/halmos_ws_registry.c:440-480 | the old node is unlinked and the new one put in front of its bucket |
| WsRegistryTables.Registry.AddToTopic | src/protocol/websocket/halmos_ws_registry.c:354-406 | one node per client and bucket, and the topic recorded while there is room |
| WsRegistryTables.Registry.RemoveClient | src/protocol/websocket/halmos_ws_registry.c:152-215 | the client is unlinked from user map, recorded buckets, slot and descriptor map |
| WsRegistryTables.Registry.GetSessionInfo | src/protocol/websocket/halmos_ws_registry.c:503-524 | the list walk gives what the lookup on values gives |
| RateLimiter.Limiter.IsRequestAllowed | src/security/halmos_sec_traffic.c:37-91 | the probing loop answers and changes the table as the specification of one request says |
| RateLimiter.Limiter.CleanOldRateLimits | src/security/halmos_sec_traffic.c:194-213 | every slot idle for more than ten seconds is freed, and no other |
| RateLimiterExact.NobodyIsAllowed | src/security/halmos_sec_traffic.c:37-91 | without an address, or with all 10007 slots taken by others, a request is allowed and nothing is noted |
| RateLimiterExact.NewcomerIsAllowed | src/security/halmos_sec_traffic.c:49-60 | a new address takes the first free slot from its home slot on, and is allowed |
| RateLimiterExact.KnownIsCounted | src/security/halmos_sec_traffic.c:62-84 | a known address starts at one in a later second, and otherwise is allowed exactly while its count is below the limit; the count stops one above it |
| RateLimiterExact.SweepFreesIdle | src/security/halmos_sec_traffic.c:194-213 | a slot is freed exactly if its second is eleven or more ago |
| RateLimiterExact.ExactlyTheLimit | src/security/halmos_sec_traffic.c:37-91 | with readings in order, no sweeps and room in the table an address is admitted in each second exactly as often as it asks, up to the limit |
| RateLimiter.RateBoundAnyClock | src/security/halmos_sec_traffic.c:37-91 | in whatever order clock readings get the lock, an address is admitted in one second at most limit times one more than the sweeps between its first and last request of that second, and limit - 1 times more for each of its requests with a later reading that resets the window between them, plus the requests that met a full table |
| RateLimiter.RateBound | src/security/halmos_sec_traffic.c:37-91 | with readings in order nothing is reset, and only the sweeps of that second count |
| RateLimiter.LateReadingAdmitsMore | src/security/halmos_sec_traffic.c:41-73 | the resets belong in the bound, for every limit: with limit 2, readings 10, 10, 11, 10 admit three in second 10 without a sweep or a full table |
| RateLimiter.SweepLetsInAgain | src/security/halmos_sec_traffic.c:194-213 | a sweep lets a refused address in exactly if it frees a slot on its probe path; a sweep of the same second, a slot ahead of its own |
| RateLimiter.SweepDoublesLimit | src/security/halmos_sec_traffic.c:37-213 | the sweeps belong in the bound, for every limit: from the empty table, an address behind an idle one with the same home slot is admitted twice its limit in a second with one sweep |
| RateLimiter.LongAddressIsNeverLimited | src/security/halmos_sec_traffic.c:52-60 | an address of more than 45 bytes would always be admitted; the only caller passes at most 44 (include/halmos/halmos_http1_header.h, line 40) |
| RateLimiter.RequestRefinesMap | src/security/halmos_sec_traffic.c:46-87 | without sweeps a request does to the probed table what it does to a map |
| RateLimiter.RunRefinesMap | src/security/halmos_sec_traffic.c:37-91 | over any such run the table is that map, with one slot per address on its own probe path |
| Http1Response.Session.Plain | src/protocol/http1/halmos_http1_response.c:109-146 | over any partial sends and resumptions the wire is a prefix of header and file, offset plus remaining is the file size, 1 means exactly that all is sent, waiting means a short write and giving up a failed one or a file that has become shorter |
| Http1Response.Session.Tls | src/protocol/http1/halmos_http1_response.c:148-204 | the same for TLS, where 1 also comes exactly when the file has been cut short at the offset reached |

## Left out

- Sockets, epoll, TLS, splice, sendfile, memory and files themselves: partial reads and writes
  and refusals with any outcome. EINTR and EAGAIN loops that may spin for ever are bounded by a number of
  interruptions (`Backend` in `FastCgiEncoder`) or skipped (splice).
- The reaper's closes and other closes outside the server's own path: only as the outside step
  of `DispatchExclusion`, not in the ownership results. A failing EPOLL_CTL_MOD, the shutdown
  branch of the wake loop and descriptors beyond the connection table are not part of `Ownership`.
- Upscaling inside `core_queue_push` waits for no one; the adaptive pop timeout is any timeout.
- The choice and wording of the CGI parameters and of the first response lines: parameters of
  `BuildParams` and of the relay. Writes to the relay's client are assumed to succeed, memory to
  be there for STDERR text, and nothing to stand behind a `Status:` at the very end of the buffer.
- FastCgiEncoder.BuildParams: assumes room in the gather buffer for the padding and the empty
  record (`Room`), which the code does not check.
- FastCGI sessions over non-blocking sockets and over HTTP/2, and the connection pool and its counters.
- The concrete Huffman table: any table whose entries are four steps of the tree of any code
  with words of at least five bits.
- HPACK size-based eviction is not in the code either. The request fields the header handler
  fills are one parameter, which may refuse any header; routing after the block is left out, and
  so are continuation frames.
- Hpack.BuildBlock: takes the status and the header lines already parsed, with a status below
  1000, and assumes the buffer can grow. Lines for which one doubling gives too little room have
  no result here.
- Http2Session.Session.Flush: FastCGI streams are skipped where the code takes a FastCGI step.
- Http2Framing.Reader.Iterate: the file pump, the backlog flush and the frame handlers that run in
  the same turn are the methods of `Http2Session` and `Writer`.
- WebSocket fragmentation (refused by the code), the HTTP/1.1 handshake, JSON messages, publishing
  and broadcasting.
- WsRegistry.RunIsCoherent: clients are known by numbers and their records kept in a map, so reuse
  of freed memory is not modelled; calls are sequential. `since` orders names and is not in the code.
- The limits of `RateLimiter` are at least 1, as its caller sees to
  (`src/protocol/http2/halmos_http2_parser.c:348`).
- HTTP/1.1 header parsing, virtual hosts, configuration, logging, MIME types, multipart bodies,
  the accumulation of request bodies and the sample applications would add only easy members.
