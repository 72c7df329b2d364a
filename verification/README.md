# A verified model of AstraAPI's Python layer

AstraAPI is an ASGI-style web framework whose HTTP parser and router live in a C++ core,
and whose connection handling, WebSocket protocol, routing tables, encoders and
multi-worker master are written in Python. This project models that Python layer in
Dafny and proves what it is for: that bytes written to a WebSocket decode to the messages
sent, that generated URLs lead back to their routes, that the encoder ends on every object
graph, that connections and workers are accounted for over every run.

`dafny verify dfyconfig.toml` checks everything. Each module stands for one component:

| file | component |
|---|---|
| `WsFrames.dfy`, `WebSocketSend.dfy` | frame builder, an RFC 6455 decoder as its specification, and the send path with cork buffer, pending queue and close |
| `WsChannel.dfy` | the single-consumer receive channel with back-pressure |
| `HttpHead.dfy` | the request-head parser and the header injector, over `Text.dfy` (searching, trimming, decimals) |
| `LruCache.dfy`, `RouteCache.dfy` | the LRU route cache against its trace, and against the linear scan of the routes |
| `Connections.dfy`, `KeepAlive.dfy` | protocol pool, connection counter and pressure flag; the keep-alive sweep |
| `Templates.dfy`, `PathCompiler.dfy`, `ReplaceParams.dfy`, `ReplaceOrder.dfy`, `Routes.dfy`, `UrlInverse.dfy`, `Mounts.dfy`, `MountUrls.dfy` | path templates and their matching, `compile_path`, `replace_params`, routes with matching and URL generation in both orders, mounts, and URLs through nested mounts |
| `Encoder.dfy` | `jsonable_encoder` on shared and cyclic object graphs |
| `Headers.dfy`, `Sse.dfy`, `SseArrival.dfy` | `MutableHeaders`, and the server-sent-events printer against the WHATWG HTML event-stream interpretation, for clean events and for all others |
| `RoundRobin.dfy`, `Supervisor.dfy` | the accept loop of the master, and the restart machine that runs beside it |

Components that work by changing fields are classes whose methods are proved against
functions on values; whole runs are sequences of events folded by those functions. Random
choices, clocks, process ids and peers appear as parameters of the events.

## What the proofs found

Where a natural property fails, the model keeps the code's behaviour and the exact
condition is proved:

- A close frame is one that sections 5.5 and 7.4 of RFC 6455 allow exactly when its status
  code is one a server may send and its reason is UTF-8 of at most 123 bytes. The code
  rewrites 1006 to 1000 with a longer reason (118 bytes are left), and checks nothing else:
  0, 1005, 1010, 2000 go out as they are (`WebSocketSend.CloseConformantIff`,
  `WebSocketSend.ForbiddenCodesAreSent`, `WebSocketSend.Close1005`).
- Frames that `_feed_frames` appends are subtracted from the byte counter when read but
  never added: the counter is too small by exactly those bytes, for ever
  (`WsChannel.CounterExactIff`, `WsChannel.BatchEscapesBound`), which is also how far an
  unpaused channel can exceed its marks (`WsChannel.EscapeIsBounded`).
- A request whose other parts print and parse back is read exactly when its request line
  fits the 4096-byte window; otherwise all of it is taken for more of the body before
  (`HttpHead.HeadRoundTrip`, `HttpHead.LongPathIsLost`).
- Injected header names and values are not checked for line breaks. The head of the response
  still ends where it did exactly when none brings a blank line of its own
  (`HttpHead.InjectionPreservesMessage`, `HttpHead.BlankValueEndsHead`).
- A body that arrives in several chunks is kept whole exactly when no chunk looks like the
  start of a request (`HttpHead.BodyIntactIff`, `HttpHead.ChunkTakenForRequest`).
- Python's `$` also matches before a final newline, and the template matcher models that. A
  mount hands its child the captured path exactly when the path does not end in a newline
  and the root path is empty or a prefix of the path at a slash (or the captured path is
  the whole one). Behind a proxy that strips the root path, a mounted application does not
  get its own path (`Mounts.MountChildIff`, `Mounts.NewlineReachesChild`,
  `Mounts.StrippedRootReachesChild`).
- With at most one capture that contains braces, a matched path is generated again from its
  parameters in every order exactly when that capture disturbs no placeholder, no int has
  a leading zero and no final newline was dropped; with several such captures the three
  conditions suffice (`UrlInverse.MatchThenUrlIff`). In one given order the condition on
  braces is that each placeholder is in turn (`UrlInverse.MatchThenUrlInOrderIff`). The
  failing inputs are `UrlInverse.BraceIsReplaced`, `UrlInverse.LeadingZeroIsLost` and
  `UrlInverse.NewlineIsLost`.
- The outcome of `replace_params` depends on the order of the dict. For any template
  without '{' in its literals and any dict in which one value may contain braces, all orders agree exactly when no
  placeholder occurs beyond the places the template names
  (`ReplaceOrder.OrderIrrelevantIff`); when no other text has braces, exactly when the
  value does not contain the placeholder of another parameter
  (`ReplaceOrder.OrderIrrelevantIffNotSpelled`, `ReplaceOrder.BracesMakeOrderMatter`).
- Encoding the output again, with any options, changes it exactly when they drop one of
  its members; never so with the options it was made with, unless they are
  `exclude_none` (`Encoder.ReencodeSameIff`). With `exclude_none` it changes exactly when
  the graph has a path without repetition that ends with a dict entry leading back into it
  (`Encoder.ReencodeChangesIffBackMember`, `Encoder.ExcludeNoneNotIdempotent`).
- Deleting a header whose name occurs twice removes the name from the index while the list
  still holds it (`Headers.DeleteCompleteIff`, `Headers.DeletedNameStays`). The comment on
  `append` says that the index tracks the first occurrence; the constructor indexes the
  last one (`Headers.IndexOfIsLast`). The model follows the code.
- An SSE stream whose events without data are clean arrives as meant exactly when all its
  events are: no carriage return in the data, no line break in type or id, no NUL in an id
  (`Sse.StreamArrivesIff`, `Sse.UncleanIsLost`). For every stream, it arrives as meant at each
  moment between two events exactly when events with data are clean and events without
  data are quiet: no line of theirs is a data line, and the id and reconnection time are
  left as meant (`SseArrival.EveryPrefixArrivesIff`, `SseArrival.HiddenDataArrives`).
- With a connection limit of one the pressure threshold is zero, and the flag is never set
  (`Connections.PressureExactIff`).
- The back-off of the supervisor multiplies 0.1 by a power of two. At a streak of 1029 the
  power no longer fits a double and the supervisor dies of an `OverflowError`; up to 1028
  the delays are as intended (`Supervisor.DelayTable`, `Supervisor.CrashLoopCost`).
- The keep-alive sweep reads the clock once, pauses after every 512 connections, and closes at
  its end what it has listed. A connection that is active in the pause behind its check, or
  whose pooled object serves a new connection by then, is closed all the same; without lag
  between clock and check that is exactly when one is closed too early
  (`KeepAlive.ClosedEarlyIff`, `KeepAlive.RenewedButClosed`). Behind a pause the check uses an
  old clock, and deadlines are early by as much (`KeepAlive.OldClockClosesEarly`). The
  comment above the sweep speaks of 5 seconds, the code sleeps 10; the theorems hold for
  every period.

## Model

| member | source | states |
|---|---|---|
| `WsFrames.ParseBuilt` | astraapi/_cpp_server.py:1161-1175 | decoding a built frame followed by any bytes yields the message and consumes exactly the frame, for all three length forms |
| `WsFrames.DecodeAppend` | astraapi/_cpp_server.py:1161-1175 | decoding a stream in two segments, the unread rest carried over, equals decoding it whole |
| `WsFrames.DecodeBuilt` | astraapi/_cpp_server.py:1161-1175 | the concatenation of built frames decodes to exactly those messages in order, nothing left over |
| `WsFrames.DecodeMany` | astraapi/_cpp_server.py:1161-1175 | appending further built frames to a fully decoded wire appends exactly their messages |
| `WsFrames.DecodePrefix` | astraapi/_cpp_server.py:1161-1175 | any prefix of the bytes decodes to a prefix of the messages |
| `WsFrames.ConformantFrame` | astraapi/_cpp_server.py:1161-1175 | a built frame obeys RFC 6455 if and only if a text is UTF-8 and a close payload is empty or a status code that a server may send with a UTF-8 reason, in at most 125 bytes |
| `WebSocketSend.StepKeeps` | astraapi/_cpp_server.py:766-842 | every operation keeps the invariant that ties the wire, the cork buffer and the accepted messages |
| `WebSocketSend.RunKeeps` | astraapi/_cpp_server.py:766-939 | the invariant over every run |
| `WebSocketSend.WireCorrect` | astraapi/_cpp_server.py:855-939 | over every run on an open transport the bytes written plus the corked remainder decode to exactly the accepted messages in call order; the pending queue is empty and no flush is scheduled in every reachable state |
| `WebSocketSend.SendWrites` | astraapi/_cpp_server.py:855-939 | on an idle connection a text is written at once as a frame that starts with 0x81, binary data with 0x82, JSON by its mode, with the length and the data behind |
| `WebSocketSend.LengthBytes` | astraapi/_cpp_server.py:1161-1175 | the bytes of the length field in its three forms |
| `WebSocketSend.CorkHoldsBack` | astraapi/_cpp_server.py:1080-1105 | behind a cork any number of sends leave the wire as it is, and uncorking writes all their frames in call order |
| `WebSocketSend.RaisesIff` | astraapi/_cpp_server.py:766-893 | a call raises if and only if it sends on a closed connection, which then changes nothing, or closes with a code that does not fit two bytes |
| `WebSocketSend.EverySegmentIsAPrefix` | astraapi/_cpp_server.py:805-842 | even with a lost transport and any segmentation the peer has always seen a prefix of the accepted messages |
| `WebSocketSend.SilentWhenClosed` | astraapi/_cpp_server.py:766-772 | after close nothing is written and nothing accepted by any further operations |
| `WebSocketSend.SilentWhenLost` | astraapi/_cpp_server.py:805-893 | whatever is called after the transport is lost, nothing more is written; after a close by the peer every send raises |
| `WebSocketSend.CloseOnceAndLast` | astraapi/_cpp_server.py:766-802 | over every run at most one close frame, it is the last message, and the wire never changes after it |
| `WebSocketSend.CloseConformantIff` | astraapi/_cpp_server.py:775-788 | the close frame is legal on the wire if and only if its code is 1006 or one that a server may send, and its reason is UTF-8 of at most 123 bytes, 118 for code 1006 |
| `WebSocketSend.CloseCarries` | astraapi/_cpp_server.py:766-802 | a first close writes 0x88, the length, the two bytes of the code given and the reason; for 1006 those of 1000 and "1006:" in front of the reason; a code out of range raises and leaves the connection closed |
| `WebSocketSend.ForbiddenCodesAreSent` | astraapi/_cpp_server.py:766-788 | codes such as 0, 1005, 1010, 1015 and 2000 are accepted, and their close frame is not legal, however short the reason |
| `WebSocketSend.Close1005` | astraapi/_cpp_server.py:766-793 | the bytes that `close(1005)` puts on the wire |
| `WebSocketSend.Transport.Write` | astraapi/_cpp_server.py:805-815 | bytes are appended in order; a closing transport drops them |
| `WebSocketSend.CppWebSocket.constructor` | astraapi/_cpp_server.py:710-752 | a fresh connection with nothing buffered |
| `WebSocketSend.CppWebSocket.WriteBatch` | astraapi/_cpp_server.py:1119-1125 | the loop writes exactly the frames of the entries, in order |
| `WebSocketSend.CppWebSocket.FlushEntries` | astraapi/_cpp_server.py:1116-1136 | mixing pre-built frames and batches of raw entries writes the frames of all messages in their original order |
| `WebSocketSend.CppWebSocket.FlushCorkBuffer` | astraapi/_cpp_server.py:1107-1137 | refines the flush of the cork buffer: all of it written, or dropped on a closing transport |
| `WebSocketSend.CppWebSocket.FlushPendingSends` | astraapi/_cpp_server.py:820-842 | refines the flush of the pending queue |
| `WebSocketSend.CppWebSocket.Enqueue` | astraapi/_cpp_server.py:805-818 | refines the queueing step: direct write on an idle queue, else append and schedule |
| `WebSocketSend.CppWebSocket.SendData` | astraapi/_cpp_server.py:855-893 | refines sending a text or binary message in every state, with the error after close |
| `WebSocketSend.CppWebSocket.SendJsonFrame` | astraapi/_cpp_server.py:895-939 | refines sending JSON in all three branches: a pre-built frame written or corked, or a serialised text queued like any other |
| `WebSocketSend.CppWebSocket.StartCork` | astraapi/_cpp_server.py:1080-1091 | refines cork |
| `WebSocketSend.CppWebSocket.StopCork` | astraapi/_cpp_server.py:1093-1105 | refines uncork: flush, then stop buffering |
| `WebSocketSend.CppWebSocket.CloseWith` | astraapi/_cpp_server.py:766-802 | refines close: cork buffer, pending queue and close frame go out in this order, once; a code outside 16 bits raises |
| `WsChannel.StepFifo` | astraapi/_cpp_server.py:214-261 | one feed, batch or get: what is delivered plus what is in flight afterwards is what was in flight plus what was fed |
| `WsChannel.Fifo` | astraapi/_cpp_server.py:214-261 | over every run the frames received, then the resolved but unread one, then the buffer are the sequence fed; a pending waiter implies an empty buffer |
| `WsChannel.NeverStuck` | astraapi/_cpp_server.py:223-257 | over every run a paused channel is above a low mark, an empty buffer or a suspended consumer is never paused, pauses and resumes strictly alternate |
| `WsChannel.Hysteresis` | astraapi/_cpp_server.py:223-257 | over every run, batches included: a call pauses the transport if and only if it buffers a frame in an unpaused channel and thereby reaches a high mark, and resumes it if and only if it takes a frame from a paused channel and leaves at most both low marks; no other call of the transport is made |
| `WsChannel.QuietBelowHigh` | astraapi/_cpp_server.py:226-234 | a run whose states are all below both high marks makes no call at all |
| `WsChannel.PausedAtHighMark` | astraapi/_cpp_server.py:200-234 | fed while nobody reads, a channel with the default marks is paused once, by the 256th frame or the frame that makes 8 MB, and not before |
| `WsChannel.ResumedAtLowMark` | astraapi/_cpp_server.py:236-257 | read out again, it is resumed once, by the read that leaves at most 64 frames and 2 MB, and not before |
| `WsChannel.CountsData` | astraapi/_cpp_server.py:221-225 | a buffered text or binary frame adds its size to the counter, a parsed one nothing |
| `WsChannel.CounterExactIff` | astraapi/_cpp_server.py:625-655 | the counter differs from the buffered total by exactly the bytes batches put into the buffer, and is exact if and only if there were none |
| `WsChannel.BoundedWhenUnpaused` | astraapi/_cpp_server.py:214-234 | fed frame by frame the counter is exact and an unpaused channel is below both high marks |
| `WsChannel.EscapeIsBounded` | astraapi/_cpp_server.py:214-261 | over every run, batches included, the bytes and the frames in an unpaused channel are below the high marks plus those that batches put in |
| `WsChannel.BatchEscapesBound` | astraapi/_cpp_server.py:625-655 | a concrete batch above the byte mark that does not pause, and then a negative counter |
| `WsChannel.UpToCloseSplit` | astraapi/_cpp_server.py:634-655 | a batch is taken up to and including its first close frame, whole if it has none |
| `WsChannel.FastChannel.FeedFrame` | astraapi/_cpp_server.py:214-234 | refines the feeding step on the shared future and buffer |
| `WsChannel.FastChannel.Offer` | astraapi/_cpp_server.py:640-654 | one frame of a batch goes to the remembered waiter if pending, else to the buffer |
| `WsChannel.FastChannel.FeedBatch` | astraapi/_cpp_server.py:625-655 | refines the batch step; true exactly when the batch has a close frame |
| `WsChannel.FastChannel.StartGet` | astraapi/_cpp_server.py:236-259 | takes the head of the buffer, with the resume of the transport, or suspends on a fresh future |
| `WsChannel.FastChannel.ResumeGet` | astraapi/_cpp_server.py:259-261 | a resolved future hands its frame to the consumer |
| `HttpHead.ParseHeaders` | astraapi/_cpp_server.py:1688-1701 | the index loop ends and yields the headers of the block read line by line |
| `HttpHead.ReceiveChunk` | astraapi/_cpp_server.py:1655-1719 | the nested searches compute the line-based reading of a chunk in every case, malformed ones included |
| `HttpHead.NewIsStart` | astraapi/_cpp_server.py:1659-1669 | the nested tests for a new request are one condition on the first line |
| `HttpHead.StartsRequestIff` | astraapi/_cpp_server.py:1659-1669 | a chunk starts a request if and only if it begins with one of the nine methods and a space and a line break ends within its first 4096 bytes |
| `HttpHead.LineIsRead` | astraapi/_cpp_server.py:1670-1707 | method, path and query are read from any request line that fits, with or without a version, whatever follows; without a blank line there are no headers and no body |
| `HttpHead.HeaderLineRead` | astraapi/_cpp_server.py:1692-1699 | a header line is the trimmed, lower-case name and the trimmed value around its first colon; a line without a colon or with an empty name is none |
| `HttpHead.HeadersAppend` | astraapi/_cpp_server.py:1688-1701 | reading two header blocks joined by a line break reads one, then the other |
| `HttpHead.HeadRoundTrip` | astraapi/_cpp_server.py:1655-1705 | parsing a printed request returns the same method, path, query, header list and body, whatever came before, if and only if the request line fits the window; otherwise all of it joins the body before |
| `HttpHead.LongPathIsLost` | astraapi/_cpp_server.py:1659-1719 | a request for a path of any length beyond the window prints, and is taken for more of the body before |
| `HttpHead.BodyIntactIff` | astraapi/_cpp_server.py:1706-1719 | chunks after a request make up exactly its body if and only if none starts like a request |
| `HttpHead.ChunkTakenForRequest` | astraapi/_cpp_server.py:1659-1669 | the concrete failing chunk, for every request before it |
| `HttpHead.InjectHeaders` | astraapi/_cpp_server.py:1237-1252 | the loop computes the injected response |
| `HttpHead.InjectedSelects` | astraapi/_cpp_server.py:1244-1249 | the injected headers are the given ones at exactly the positions whose name is not content-length in any case, in increasing order |
| `HttpHead.InjectedCounts` | astraapi/_cpp_server.py:1244-1249 | each header is injected as often as it is given, and content-length never |
| `HttpHead.InjectOne` | astraapi/_cpp_server.py:1237-1252 | one header goes on a line of its own in front of the first blank line; with content-length, or without a blank line, the response is returned as it is |
| `HttpHead.InjectionPreservesMessage` | astraapi/_cpp_server.py:1237-1252 | for any names and values: everything before and behind the injected headers, minus content-length, is unchanged, and the first blank line ends the old head followed by them if and only if they bring no blank line, as none does without line breaks; without a blank line the input is returned |
| `HttpHead.BlankValueEndsHead` | astraapi/_cpp_server.py:1237-1252 | a value with a blank line in it ends the head early, whatever the response |
| `HttpHead.InjectionAppendsHeaders` | astraapi/_cpp_server.py:1237-1252 | as long as the injected lines bring no blank line, a parser of the result reads the old headers followed by what those lines read as, one header each if they have no line breaks |
| `Text.FindFirst` | astraapi/_cpp_server.py:1659-1692 | a bounded search returns the first occurrence, or none when there is none |
| `Text.StripSpec` | astraapi/_cpp_server.py:1695-1699 | trimming takes the six ASCII blanks from both ends, all of them and nothing else |
| `Text.LowerLetters` | astraapi/_cpp_server.py:1697 | lowering moves the letters A to Z by 32 code points and changes nothing else |
| `Text.UpperLetters` | astraapi/_routing_base.py:429 | upper-casing moves the letters a to z by 32 code points and changes nothing else |
| `Text.DecimalRoundTrip` | astraapi/_routing_base.py:81-90 | printing and parsing a natural number in decimal are inverse |
| `LruCache.LruTrace` | astraapi/_cpp_server.py:86-101 | after any run the ordered contents are the most recently touched distinct keys that fit, in order of last touch, each bound to its last put value |
| `LruCache.GetIsLastPut` | astraapi/_cpp_server.py:86-92 | after any run a lookup returns the value of the last put of a key that is cached, and nothing for any other key |
| `LruCache.PutThenGet` | astraapi/_cpp_server.py:86-101 | after any run a put succeeds if and only if the capacity is not zero, and the next lookup finds its value |
| `LruCache.AnsweredByCacheIff` | astraapi/_cpp_server.py:2193-2205 | under lookup-else-insert a lookup is answered from the cache if and only if its key was resolved before and fewer than `cap` different keys were resolved since; it then gives the value resolved at the time whatever resolver is at hand, and the answer of that resolver otherwise |
| `LruCache.ServeRecent` | astraapi/_cpp_server.py:2193-2205 | under lookup-else-insert the contents are the most recent resolved keys with their resolved values |
| `LruCache.LookupIsResolve` | astraapi/_cpp_server.py:2193-2205 | every lookup, hit or miss, at any capacity, returns what resolving would return |
| `LruCache.LargerNeverWorse` | astraapi/_cpp_server.py:78-113 | on the same requests a larger cache never misses where a smaller one hits |
| `LruCache.LruRouteCache.constructor` | astraapi/_cpp_server.py:82-84 | an empty cache of the given capacity |
| `LruCache.LruRouteCache.MoveToEnd` | astraapi/_cpp_server.py:86-92 | the key becomes the most recent, the order of the others is kept |
| `LruCache.LruRouteCache.Find` | astraapi/_cpp_server.py:86-92 | refines the lookup: value and touch on a hit, nothing on a miss |
| `LruCache.LruRouteCache.Store` | astraapi/_cpp_server.py:94-101 | refines the insertion with eviction of the oldest key; with capacity zero eviction from the empty dict raises |
| `RouteCache.KeyIsExact` | astraapi/_cpp_server.py:2193-2194 | method, space and path determine each other through the cache key |
| `RouteCache.CachedLookupIsScan` | astraapi/_cpp_server.py:2193-2205 | for a fixed table of HTTP routes, mounts and WebSocket routes every cached lookup equals the linear scan, whatever was looked up before |
| `RouteCache.ScanIsFirstFull` | astraapi/_cpp_server.py:2199-2205 | the scan over routes and mounts yields the first full match, and one if and only if there is one that no exception precedes |
| `RouteCache.ScanTakesFirst` | astraapi/_cpp_server.py:2196-2205 | the scan returns the first entry whose own match is full: a route that matches fully or a mount that matches, never a WebSocket route; nothing if an entry raises before |
| `Connections.ThresholdPositiveIff` | astraapi/_cpp_server.py:1214-1218 | the pressure threshold is positive if and only if the limit is not one, and below every configured limit |
| `Connections.ForcedAboveEightyPercent` | astraapi/_cpp_server.py:1214-1218 | over every run connections are forced to close if and only if more than 80 % of a limit above one are active, or more than 16384 without a limit |
| `Connections.RefusedIffFull` | astraapi/_cpp_server.py:3516-3529 | over every run a connection is turned away, without any effect, if and only if as many are active as the limit allows; otherwise exactly one more is active |
| `Connections.TrimKeepsOldest` | astraapi/_cpp_server.py:3634-3640 | a trim keeps the first objects of the pool, half as many as there are connections and at least 64, and changes nothing else |
| `Connections.CreatedIsPeak` | astraapi/_cpp_server.py:1192-1203 | objects are reused: in a run without trims and within the room of the pool, exactly as many objects were ever constructed as were pre-warmed or in use at one time, and those not in use are all pooled |
| `Connections.LastReleasedIsNext` | astraapi/_cpp_server.py:1192-1203 | the object released last is handed out next: a lost connection followed by a new one leaves pool and active set as they were |
| `Connections.AcceptKeeps` | astraapi/_cpp_server.py:3516-3529 | accepting keeps counter, limit, separation of pool and active set, and pressure flag |
| `Connections.DisconnectKeeps` | astraapi/_cpp_server.py:1596-1605 | so does losing a connection |
| `Connections.TrimKeeps` | astraapi/_cpp_server.py:1204-1210 | so does trimming, which leaves a prefix of the pool within the target |
| `Connections.AccountsBalance` | astraapi/_cpp_server.py:3516-3529 | over every run the counter is the size of the active set, within the limit, and no protocol object is pooled twice or pooled while active |
| `Connections.PressureExactIff` | astraapi/_cpp_server.py:3520-3523 | over every run force_close holds exactly above the threshold if and only if the limit is not one or nothing is connected |
| `Connections.LimitOneNeverForced` | astraapi/_cpp_server.py:3522-3523 | the concrete failing run with a limit of one |
| `Connections.ActiveIsAcceptedMinusLost` | astraapi/_cpp_server.py:3516-3529 | conservation: active connections are those accepted and not yet lost |
| `Connections.ConnectionTable.constructor` | astraapi/_cpp_server.py:3453-3463 | the pre-warmed pool: fresh objects up to the pool's maximum |
| `Connections.ConnectionTable.AcquireProtocol` | astraapi/_cpp_server.py:1192-1198 | the last pooled object, else a new one |
| `Connections.ConnectionTable.ProtocolFactory` | astraapi/_cpp_server.py:3516-3529 | refuses exactly at the limit; else a protocol that was not active becomes active |
| `Connections.ConnectionTable.ConnectionLost` | astraapi/_cpp_server.py:1596-1605 | refines the loss of a connection |
| `Connections.ConnectionTable.PoolTrim` | astraapi/_cpp_server.py:3634-3640 | refines the trim to half the active connections, at least 64, and returns how many were freed |
| `KeepAlive.NeverClosedEarly` | astraapi/_cpp_server.py:3608-3631 | for sweeps without a pause, over every interleaving, a connection is closed only later than the timeout after its last completed batch |
| `KeepAlive.ClosedEarlyIff` | astraapi/_cpp_server.py:3611-3631 | with pauses: a connection not renewed since its check is closed later than the timeout after its last renewal, up to the lag of the checks; one renewed since is closed early unless the sweep outlasts the timeout; without lag it is closed early if and only if it was renewed since its check |
| `KeepAlive.RenewedButClosed` | astraapi/_cpp_server.py:3620-3631 | the failing runs: active, or its object reused, between check and close |
| `KeepAlive.OldClockClosesEarly` | astraapi/_cpp_server.py:3611-3622 | the failing run of a check behind a pause: a deadline from the old clock |
| `KeepAlive.IdleClosedInTime` | astraapi/_cpp_server.py:3608-3631 | with sweeps that begin at most P apart and end within D no connection is open more than timeout + 2P + D after its last renewal |
| `KeepAlive.BoundIsReached` | astraapi/_cpp_server.py:3620-3624 | for every start, timeout, period and length of a sweep a run in which a connection stays open until exactly that bound |
| `KeepAlive.StaysOnSchedule` | astraapi/_cpp_server.py:3620-3624 | the invariant behind it: listed only by the sweep under way, not checked since the last renewal, or with a near deadline that no sweep has passed |
| `KeepAlive.LostIsLeftAlone` | astraapi/_cpp_server.py:2820-2822 | after a connection is lost no event short of its reuse gives the object a deadline, reconnects or closes it |
| `KeepAlive.RemadeIsNew` | astraapi/_cpp_server.py:1506-1536 | whatever an object went through, a new connection of it is open with the deadline one timeout ahead |
| `KeepAlive.HttpProtocol.constructor` | astraapi/_cpp_server.py:1560 | a made connection has its deadline one timeout ahead |
| `KeepAlive.HttpProtocol.BatchDone` | astraapi/_cpp_server.py:1729-1731 | a completed batch only raises the lazy flag |
| `KeepAlive.HttpProtocol.ConnectionLost` | astraapi/_cpp_server.py:2820-2822 | a lost connection has no deadline |
| `KeepAlive.HttpProtocol.Reuse` | astraapi/_cpp_server.py:1506-1536 | the pooled object of a lost connection serves a new one, still in the list of a sweep that has listed it |
| `KeepAlive.CheckAll` | astraapi/_cpp_server.py:3616-3624 | the loop does to every connection exactly the single-connection check, and lists exactly the expired ones |
| `KeepAlive.SweepAll` | astraapi/_cpp_server.py:3611-3631 | a sweep without a pause checks and closes every connection at once |
| `KeepAlive.CloseAll` | astraapi/_cpp_server.py:3628-3631 | every listed connection that is still connected is closed, whatever happened to it since, and nothing else changes |
| `Templates.MatchSound` | astraapi/_routing_base.py:252-284 | captures fit their convertors and fill the template to the path, up to one final newline |
| `Templates.AcceptsIff` | astraapi/_routing_base.py:68-114 | what each convertor takes: non-empty text without a slash, one or more ASCII digits, text without a newline |
| `Templates.MatchComplete` | astraapi/_routing_base.py:252-284 | a path that can be read as the template matches |
| `Templates.MatchIff` | astraapi/_routing_base.py:252-284 | a path matches if and only if some values fill the template to it |
| `Templates.MatchFilled` | astraapi/_routing_base.py:68-114 | on a separated template matching recovers exactly the values filled in |
| `Templates.TryDown` | astraapi/_routing_base.py:68-114 | greedy: a capture is at least as long as any with which the rest can match |
| `Templates.AdjacentRecoveredIff` | astraapi/_routing_base.py:68-79 | two adjacent str parameters are recovered if and only if the second value has one character |
| `PathCompiler.CompilePath` | astraapi/_routing_base.py:232-284 | the loop over parameter matches builds the scanned template, its format and its convertors, and reports exactly the repeated names or the first unknown convertor |
| `PathCompiler.CompileRoundTrip` | astraapi/_routing_base.py:228-284 | compiling a printed declaration gives back the template, or exactly its duplicated names |
| `PathCompiler.ParamAtSound` | astraapi/_routing_base.py:229 | whatever is read as a parameter is one by the expression: braces around an identifier, and possibly a colon and another |
| `PathCompiler.IdentifierIff` | astraapi/_routing_base.py:229 | the characters of an identifier |
| `PathCompiler.DeclaredConvertors` | astraapi/_routing_base.py:127-133 | for every name: {n} and {n:str} declare a str parameter, {n:int} an int and {n:path} a path |
| `PathCompiler.OtherConvertorRefused` | astraapi/_routing_base.py:254-255 | a convertor that is not one of the five in the table is refused under its name |
| `PathCompiler.ConvertorsKeys` | astraapi/_routing_base.py:268-271 | the convertor table has exactly the parameter names |
| `ReplaceParams.ReplaceParamsLoop` | astraapi/_routing_base.py:213-225 | the loop computes the one-at-a-time replacement, the parameters left over and every error |
| `ReplaceParams.ReplaceIsSimultaneous` | astraapi/_routing_base.py:213-225 | replacing one parameter at a time equals simultaneous substitution and uses up exactly the parameters the template names |
| `ReplaceParams.IntTextSpec` | astraapi/_routing_base.py:81-90 | an integer is written as sign and decimal digits that parse back to it, up to 4300 digits |
| `ReplaceParams.ToTextIff` | astraapi/_routing_base.py:68-114 | which values each convertor writes, and the errors of all others |
| `ReplaceOrder.OrderDoesNotMatter` | astraapi/_routing_base.py:213-225 | without '{' in the texts neither the path nor the set of leftover parameters depends on the order of the dict |
| `ReplaceOrder.UndisturbedIsSimultaneous` | astraapi/_routing_base.py:213-225 | whatever the values contain, if no placeholder occurs beyond its named places once the other texts are in, every order gives the simultaneous substitution and leaves exactly the unnamed parameters |
| `ReplaceOrder.OrderIrrelevantIff` | astraapi/_routing_base.py:213-225 | for any template and any dict with one value that may contain braces, all orders have the same outcome if and only if no placeholder is disturbed that way |
| `ReplaceOrder.InTurnIsSimultaneous` | astraapi/_routing_base.py:213-225 | whatever the values contain, an order in which each placeholder occurs exactly at its named places when its turn comes gives the simultaneous substitution |
| `ReplaceOrder.GivenOrderIff` | astraapi/_routing_base.py:213-225 | for one given order and one value that may contain braces, the outcome is the simultaneous substitution if and only if each placeholder is in turn; otherwise it has fewer braces or other leftovers |
| `ReplaceOrder.OrderIrrelevantIffNotSpelled` | astraapi/_routing_base.py:213-225 | with no other braces around, all orders have the same outcome if and only if that value contains no placeholder of another parameter |
| `ReplaceOrder.TwoOrdersAgreeIff` | astraapi/_routing_base.py:213-225 | the format {a}{b} in both orders, for every value of a: what each gives, and that they agree if and only if the value does not contain {b} |
| `ReplaceOrder.BracesMakeOrderMatter` | astraapi/_routing_base.py:213-225 | for any two names the value that spells the other placeholder gives two different paths, both computed |
| `Routes.ConvertText` | astraapi/_routing_base.py:68-114 | the text of a good value is accepted by its convertor and converts back to it |
| `Routes.ConvertSpec` | astraapi/_routing_base.py:68-114 | a capture converts to itself, or to the number it writes, and raises only beyond 4300 digits |
| `Routes.RoutePathSpec` | astraapi/_routing_base.py:189-201 | the route path is what follows the root path, if nothing or a slash follows it; any other path is left whole |
| `Routes.MethodDecides` | astraapi/_routing_base.py:426-451 | for every declaration and every HTTP request whose path matches and converts: full if no methods are declared, if the method is one of them in upper case, or if it is HEAD and GET is one; partial otherwise; with the parameters added to those of the scope |
| `Routes.NoMatchIff` | astraapi/_routing_base.py:435-451 | no match if and only if the request is not HTTP or its route path does not match |
| `Routes.NoMatchFoundIff` | astraapi/_routing_base.py:453-458 | `url_path_for` reports NoMatchFound if and only if the name is another or the keys given are not exactly the parameters |
| `Routes.UrlIsFilled` | astraapi/_routing_base.py:453-462 | `url_path_for` succeeds with the template filled with the texts of the values |
| `Routes.Recover` | astraapi/_routing_base.py:435-446 | matching the substituted path recovers and converts all values |
| `Routes.UrlRoundTrip` | astraapi/_routing_base.py:435-462 | the generated URL matches the same route and yields the same parameters, ints included, full or partial by method |
| `UrlInverse.DecimalOfDigits` | astraapi/_routing_base.py:81-90 | printing a parsed digit string never lengthens it, and changes nothing if and only if it has no leading zero |
| `UrlInverse.UrlOfMatch` | astraapi/_routing_base.py:453-462 | from the parameters of a match, in any order, `url_path_for` generates the template filled with the canonical captures unless a capture disturbs a placeholder |
| `UrlInverse.MatchThenUrlIff` | astraapi/_routing_base.py:435-462 | for every matched path: it is generated again in every order of its parameters if no capture disturbs a placeholder, no int had a leading zero and no final newline was dropped; and only if so when at most one capture has braces |
| `UrlInverse.MatchThenUrlInOrderIff` | astraapi/_routing_base.py:435-462 | the same for the order in which the parameters are given: each placeholder in turn, no leading zero, no dropped newline |
| `UrlInverse.PlainMatchThenUrlIff` | astraapi/_routing_base.py:435-462 | for a path without '{' generation succeeds in the given order, and gives the path if and only if no int had a leading zero and no final newline was dropped |
| `UrlInverse.BraceIsReplaced` | astraapi/_routing_base.py:435-462 | the route /{a}/{b}, for all names: the path "/{b}/w" matches, and the URL of its parameters is "/w/w" |
| `UrlInverse.LeadingZeroIsLost` | astraapi/_routing_base.py:435-462 | the route /{n:int}, for every name and every number with superfluous zeros, such as "/007": it matches, and the URL of its parameter is the shorter decimal |
| `UrlInverse.NewlineIsLost` | astraapi/_routing_base.py:435-462 | a request for "/a" with a newline behind matches the route /a, whose URL is "/a" |
| `Mounts.MountShape` | astraapi/_routing_base.py:599-620 | a match splits the route path into front, captured path and possibly a newline; what the child's scope holds |
| `Mounts.NoMountIff` | astraapi/_routing_base.py:599-620 | no match if and only if the request is neither HTTP nor WebSocket or its route path does not match |
| `Mounts.MountChildIff` | astraapi/_routing_base.py:189-201 | for every scope: the child's route path is exactly the captured rest if and only if the path does not end in a newline and the root path is empty or a prefix of it at a slash, or the rest is the whole path |
| `Mounts.NewlineReachesChild` | astraapi/_routing_base.py:599-620 | the mount /a and the path "/a/b" with a newline behind: the child's route path is the whole path |
| `Mounts.StrippedRootReachesChild` | astraapi/_routing_base.py:599-620 | root path "/api", path "/a/b" and the mount /a: the child's route path is "/a/b" and not "/b" |
| `Mounts.ChainComposes` | astraapi/_routing_base.py:599-620 | at any depth the path is unchanged, root_path stays a growing prefix of it at a slash, and the child sees exactly what its parent captured |
| `MountUrls.ChildOfFullName` | astraapi/_routing_base.py:630-634 | the full name of a route loses exactly the name of the outermost mount on the way in |
| `MountUrls.LeftMap` | astraapi/_routing_base.py:635-641 | the parameters handed to a mount's routes are all but its own, a "path" of theirs included |
| `MountUrls.MountReplace` | astraapi/_routing_base.py:622-640 | replacing in a mount's format fills its front with the values' texts, followed by the path |
| `MountUrls.MountRecover` | astraapi/_routing_base.py:599-620 | a mount matches its generated front followed by any newline-free rest, and hands on its values and that rest |
| `MountUrls.ChainRoundTrip` | astraapi/_routing_base.py:599-650 | through nested mounts of any depth `url_path_for` succeeds and a request for its result is handed down the same mounts to the same route with the same parameters |
| `MountUrls.OwnUrlRoundTrip` | astraapi/_routing_base.py:622-629 | the URL of a mount itself hands the given path, without leading slashes, to the mounted application |
| `MountUrls.NameDecides` | astraapi/_routing_base.py:622-650 | a mount's own name with a "path" asks for its own URL; its name without one, and any name that does not start with its name and a colon, is not found |
| `MountUrls.NotFoundBelow` | astraapi/_routing_base.py:642-650 | what is not found below a mount is not found through it, named or not |
| `MountUrls.OwnUrlNeedsText` | astraapi/_routing_base.py:623-624 | a "path" that is not a text raises |
| `MountUrls.OwnUrlTooMany` | astraapi/_routing_base.py:622-650 | with any parameter that the mount does not have its own URL is not found |
| `Encoder.JsonableEncoder` | astraapi/encoders.py:226-343 | the recursion with its accumulating loops ends on every finite graph, cyclic or not, and computes the encoding |
| `Encoder.OutputIsUnrolledGraph` | astraapi/encoders.py:226-343 | a path of keys and indices exists in the output if and only if it exists in the graph without entering a container twice, and leads to the encoding of what it reaches |
| `Encoder.NoneExactlyAtBackEdges` | astraapi/encoders.py:226-235 | a container is output as None exactly where the path closes a cycle; a primitive as itself |
| `Encoder.RecordEncodesAsDict` | astraapi/encoders.py:266-280 | a dataclass instance encodes as the dict that binds the name of field i to the value of field i, in declaration order |
| `Encoder.FieldEncoded` | astraapi/encoders.py:266-325 | the value of field i is found in the output under the name of field i, encoded without include and exclude, if and only if the name does not start with "_sa" (when safe), the value is not None (under exclude_none), and the name is in include and not in exclude |
| `Encoder.EntryEncoded` | astraapi/encoders.py:289-325 | the same for every entry of a dict with distinct keys |
| `Encoder.NoOtherKey` | astraapi/encoders.py:289-325 | the output dict has no key that the dict does not have |
| `Encoder.ItemEncoded` | astraapi/encoders.py:326-343 | a sequence is encoded position by position, and include and exclude reach its items |
| `Encoder.AcyclicIsStructural` | astraapi/encoders.py:226-343 | on acyclic graphs, shared parts included, the result is the structural encoding without a seen set |
| `Encoder.SaKeysGone` | astraapi/encoders.py:289-306 | with the default safety no string key starting with "_sa" survives at any depth |
| `Encoder.ReencodeSameIff` | astraapi/encoders.py:289-343 | encoding the output again with any options, include and exclude among them, changes nothing if and only if they drop no member of it; always so with the same options without exclude_none |
| `Encoder.ReencodeChangesIffBackMember` | astraapi/encoders.py:289-343 | with exclude_none a second encoding changes the output if and only if some path through the graph, entering no container twice, ends with a dict entry that leads back to a container on it |
| `Encoder.ReencodeTree` | astraapi/encoders.py:289-343 | an object tree, shared objects included, is encoded to itself if and only if the options keep all its members |
| `Encoder.ExcludeNoneNotIdempotent` | astraapi/encoders.py:299-306 | a dict that contains itself: with exclude_none a second encoding differs |
| `Headers.IndexOfIsLast` | astraapi/_response.py:55-59 | the constructor indexes exactly the names present, each at its last position |
| `Headers.SetKeeps` | astraapi/_response.py:110-120 | setting keeps the index sound and complete, and the value is found afterwards |
| `Headers.SetThenGet` | astraapi/_response.py:66-120 | what is set is found under every spelling of its name that differs in case only; every other name keeps its value |
| `Headers.AppendThenGet` | astraapi/_response.py:152-161 | an appended header stands last; a lookup finds it if its name is new, and otherwise what it found before |
| `Headers.AppendThenGetList` | astraapi/_response.py:152-161 | the appended value is the last of its name in getlist, and no other name gets one |
| `Headers.DeleteTakesFound` | astraapi/_response.py:129-138 | a deletion takes out the very entry that a lookup finds, and fails if and only if a lookup finds none |
| `Headers.AppendKeeps` | astraapi/_response.py:152-161 | appending keeps the index sound and complete |
| `Headers.DeleteSound` | astraapi/_response.py:129-138 | deleting keeps every index entry on a header of its name |
| `Headers.DeleteCompleteIff` | astraapi/_response.py:129-138 | after a deletion all names present are indexed if and only if the deleted name was not duplicated |
| `Headers.DeletedNameStays` | astraapi/_response.py:129-138 | two headers of one name, one deleted: getlist still has the other, get does not |
| `Headers.IndexSoundOverRuns` | astraapi/_response.py:66-84 | over every run the index is sound; if no deletion hits a duplicated name, membership agrees with getlist |
| `Headers.RefinesOrderedMap` | astraapi/_response.py:110-161 | over unique names get, set, delete, contains and append are those of an ordered map, the order of untouched headers included |
| `Headers.RunRefinesOrderedMap` | astraapi/_response.py:110-169 | the same over every run that appends only new names |
| `Headers.ConstructedExact` | astraapi/_response.py:44-59 | the constructor over unique names gives such a table |
| `Headers.UniqueKept` | astraapi/_response.py:110-161 | uniqueness of names is kept |
| `Headers.ShiftIndex` | astraapi/_response.py:135-138 | the loop moves exactly the positions behind the deleted one |
| `Headers.MutableHeaders.constructor` | astraapi/_response.py:44-59 | the loop builds the index of the list |
| `Headers.MutableHeaders.SetItem` | astraapi/_response.py:110-120 | refines setting: in place or at the end |
| `Headers.MutableHeaders.AppendItem` | astraapi/_response.py:152-161 | refines appending |
| `Headers.MutableHeaders.DeleteItem` | astraapi/_response.py:129-138 | refines deleting; an unknown name is reported and changes nothing |
| `Headers.MutableHeaders.UpdateItems` | astraapi/_response.py:163-169 | refines setting all pairs in order |
| `Sse.FormatEvent` | astraapi/_response.py:563-583 | the accumulating code prints the event's lines joined and ended by a blank line |
| `Sse.AppendData` | astraapi/_response.py:578-580 | one data line for each line of the text |
| `Sse.JoinSplit` | astraapi/_response.py:578-580 | splitting at line feeds and joining again is the identity |
| `Sse.StreamRoundTrip` | astraapi/_response.py:563-608 | interpreting the concatenated output by WHATWG HTML sections 9.2.5 and 9.2.6 dispatches exactly the events with data, in order, with type, data, last id and reconnection time |
| `Sse.ItemArrives` | astraapi/_response.py:596-608 | what a client gets from one clean dict item: its data under its event as type with its id, "message" without one, its reconnection time; an event object is the same and a plain item is data alone |
| `Sse.EventText` | astraapi/_response.py:563-583 | the six lines of an event with one line of data and all fields |
| `Sse.StreamArrivesIff` | astraapi/_response.py:563-608 | a stream of any number of events, those without data clean, arrives as meant if and only if every event is clean: no CR in data, no line break in type or id, no NUL in an id |
| `Sse.UncleanIsLost` | astraapi/_response.py:563-583 | three events that do not arrive as meant: a CR in the data, a line feed in the type, a NUL in the id |
| `SseArrival.EveryPrefixArrivesIff` | astraapi/_response.py:563-608 | for every list of items: at every moment between two events the stream has arrived as meant if and only if each event with data is clean and each without data is quiet |
| `SseArrival.ArrivesIff` | astraapi/_response.py:563-583 | one event takes a client that got the events before it to its meaning if and only if it is clean, or quiet when it has no data |
| `SseArrival.HiddenDataArrives` | astraapi/_response.py:568-583 | an event without data whose type goes on with a data line is not quiet |
| `RoundRobin.NextTarget` | astraapi/_multiworker.py:185-197 | the probing loop computes the dispatch, an empty table included |
| `RoundRobin.AcceptLoop` | astraapi/_multiworker.py:171-204 | the nested loops compute the trace of targets for any sequence of slot tables |
| `RoundRobin.ProbeFirstLive` | astraapi/_multiworker.py:192-197 | the target is the first live slot from the running index on, cyclically |
| `RoundRobin.DispatchFindsLive` | astraapi/_multiworker.py:187-197 | a dead slot is never chosen, and a target is found if and only if a slot is live |
| `RoundRobin.RunFindsLive` | astraapi/_multiworker.py:176-204 | the same for every accept of a run |
| `RoundRobin.TurnsApart` | astraapi/_multiworker.py:192-194 | of two slots the earlier has had one turn more exactly while the index stands between them |
| `RoundRobin.CountIsTurns` | astraapi/_multiworker.py:176-204 | a slot live throughout a run is chosen once for each of its turns |
| `RoundRobin.Fair` | astraapi/_multiworker.py:170-204 | from any index over any number of accepts, two slots live throughout are chosen equally often up to one, whatever the others do |
| `RoundRobin.EarlierNotBehind` | astraapi/_multiworker.py:171 | from index zero the earlier of two such slots is never behind |
| `Supervisor.DelayTable` | astraapi/_multiworker.py:405-408 | every delay: none below five, five doublings from 0.1, then 2.0, and the overflow beyond 1028 |
| `Supervisor.DelayMonotone` | astraapi/_multiworker.py:405-408 | the delay grows with the streak, is at most 2 s, and exists if and only if the streak is at most 1028 |
| `Supervisor.TotalClosedForm` | astraapi/_multiworker.py:405-411 | the sleep of the first n restarts of a crash loop in closed form |
| `Supervisor.StepKeeps` | astraapi/_multiworker.py:384-480 | every exit, slot change, fork and accept keeps the pid map, slot table and phase consistent |
| `Supervisor.PidMapIsBijection` | astraapi/_multiworker.py:384-480 | over every run the pid map is one-to-one; between iterations it is onto all workers and every slot is filled |
| `Supervisor.TablesHoldLastFork` | astraapi/_multiworker.py:290-480 | in every reachable state a worker's slot is empty or holds the socket of its last fork, its start time is that of its last fork, and only the process of that fork goes by its id |
| `Supervisor.StartedIsBirth` | astraapi/_multiworker.py:398-478 | the recorded start of a worker is the fork time of its present process |
| `Supervisor.StreakIsTrailingShort` | astraapi/_multiworker.py:398-403 | over every run a worker's streak is the number of its last consecutive process lifetimes under 10 s |
| `Supervisor.CrashLoopCost` | astraapi/_multiworker.py:398-411 | at any time and whatever the others do, a block of k short lives of one worker after a long one costs nothing up to four, 0.1(2^(k-4) - 1) s up to eight, 3.1 + 2(k - 9) s from nine to 1028, and the 1029th ends the supervisor |
| `Supervisor.StayingWorkersServedEvenly` | astraapi/_multiworker.py:159-204 | over every interleaving of accepts with exits, back-offs and restarts, workers that stay up are served equally often up to one |
| `Supervisor.AcceptFindsTargetIff` | astraapi/_multiworker.py:444-476 | in every reachable state an accept finds a target unless the only worker is being forked anew |
| `Supervisor.ForkSupervisor.constructor` | astraapi/_multiworker.py:290-370 | the fork loop registers every worker once |
| `Supervisor.ForkSupervisor.HandleExit` | astraapi/_multiworker.py:392-411 | refines the handling of a reaped process: streak, delay, or the overflow; an unknown pid changes nothing |
| `Supervisor.ForkSupervisor.EmptySlot` | astraapi/_multiworker.py:444-448 | refines closing the slot of the dead worker |
| `Supervisor.ForkSupervisor.Refork` | astraapi/_multiworker.py:450-478 | refines the restart: new pid, new socket in the slot, new start time |
| `Supervisor.ForkSupervisor.AcceptOne` | astraapi/_multiworker.py:170-204 | refines one accept at any point of the loop, and when it finds a target |

## Left out

- The C++ core: HTTP parser, trie router, ring buffer, JSON serialiser, batch frame builder. The batch builder is modelled by its Python fallback loop, JSON payloads are opaque bytes.
- Sockets, fork, signals, affinity, TCP options, garbage-collector tuning, file serving, templates, the test client and the reloader.
- WebSocket echo detection, group broadcasts through `_write_frame`, heartbeats, pongs and `_send_close_response`: they bypass the cork buffer.
- The wait for the peer's close answer, and cancellation of the one consumer of a channel.
- WebSocketSend.Transport.Write: a closing transport drops every later write in the model. An asyncio transport that is closed with a non-empty buffer still queues them, and `close()` writes without asking `is_closing()`; nor is an exception of `transport.write` itself modelled.
- PathCompiler.CompilePath: knows the str, int and path convertors only, and no host patterns.
- Float and UUID convertors, and host patterns of `compile_path` (a path that does not start with a slash).
- Routers with several routes below one mount: `MountUrls` follows one chain of mounts to one route, so shadowing by earlier routes is not covered.
- ReplaceParams.ReplaceParamsLoop: an int convertor given a str is an error in the model, while Python's `int()` accepts some strings; path parameters are `str` and `int` values only.
- Routes.UrlRoundTrip: values must have the convertor's own type; an int given to a str parameter comes back as text.
- Routes.MethodDecides: `Text.Upper` changes ASCII letters only.
- MountUrls.ChainRoundTrip: values and literals without newlines, since a mount's path parameter matches none.
- HttpHead.HeadRoundTrip: for header lines as the parser normalises them (lower-case, trimmed names) and a target without spaces.
- Sse.StreamArrivesIff: is about the end of a stream, where events without data must be clean, since a later event can make up for an identifier left wrong; `SseArrival.EveryPrefixArrivesIff` has no such condition.
- UrlInverse.MatchThenUrlIff: with braces in several captures the condition is only sufficient, since disturbances can cancel out.
- Headers: names and values are characters of latin-1 strings; the bytes/str distinction is not modelled. `Text.Lower` lowers ASCII letters only, as `bytes.lower` does; `str.lower`, which is applied to str keys, also changes the other Latin-1 letters.
- Pydantic models, custom encoders, generators, enums and the type tables of the encoder.
- The one-second poll and the shutdown of the supervisor, and its SO_REUSEPORT mode, which has the same restart bookkeeping and no slots.
- Loss of connections sent to the socket of a worker that has died but whose slot is still filled during the back-off.
- KeepAlive: the keep-alive rule of upgraded WebSocket connections is not modelled.
- The `_PREWARM` count of the pool is a parameter; the garbage collection that follows a trim is left out.
- GZip streaming, WebSocket re-accept, HEAD handling, and everything in `applications.py`.
