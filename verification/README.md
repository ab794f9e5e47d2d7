# A model of the pinpoint C agent and its collector, with proofs

The pinpoint C agent is a library inside an application process. It records *traces* (trees of timed
nodes kept in a node pool), turns each finished trace into JSON text, frames the text and writes it to a
local socket. The collector agent, written in Go, reads the frames back out of the byte stream, hands
each span to the agent of its application, and registers names with a backend. This project models that
path from end to end and proves what it promises: which bytes reach which side in which order, which
nodes are in use, and which text stands for which value.

The model keeps the form of the code. Objects that are updated in place are classes (`Chunks`, `Pipe`,
`TransLayer`, `PoolManager`, `Agent`, `BuiltStyledStreamWriter`, `OurReader`, `SpanSender`), fixed buffers
are arrays, loops are loops. Each is proved against a specification on values (a byte queue, a reference
parser, a forest, a grammar), and the laws are proved about those values. Code that threads run
concurrently is a state machine over atomic steps. What the environment decides is a parameter: the
answers of `send` and `Write`, the sizes in which bytes arrive, the outcome of `select` and of a
connection attempt, the clock, and the answers of message handlers, which may depend on all calls so far.

## Layout

| file | subject |
|---|---|
| `Bytes.dfy` | bytes, 32-bit words, sequence laws |
| `Framing.dfy` | the 8-byte header and the reference parser of a byte stream |
| `SendPipe.dfy` | writing to a socket that takes less than offered, would block or fails |
| `Chunk.dfy` | the chunked send buffer as a FIFO byte queue |
| `Connection.dfy` | what a connection carries and hears, and the state a poll leaves, on values |
| `TransLayer.dfy` | queueing frames, polling, receiving, resetting a connection |
| `Collector.dfy` | the collector's receive loop and its responses |
| `Delivery.dfy` | agent and collector together, over whole runs |
| `Annotations.dfy` | the annotations of a node, and the clues an application adds |
| `TraceForest.dfy` | trees of trace nodes and their encoding |
| `TracePool.dfy` | the node pool |
| `TraceAgent.dfy` | starting, ending and force-ending traces |
| `TraceBrackets.dfy` | nested thread-local start/end pairs |
| `TraceRuns.dfy` | any run of calls, and what a caller can tell from the results |
| `PoolSteps.dfy` | the locked pool under interleaving |
| `AgentRouter.dfy` | the collector's agent map under interleaving |
| `MetaCache.dfy` | metadata ids of one sender |
| `JsonNumber.dfy`, `JsonString.dfy` | integers and strings in JSON text |
| `JsonValue.dfy`, `JsonWriter.dfy` | values, the compact printer, the styled writer |
| `JsonGrammar.dfy`, `JsonReader.dfy` | the reader as functions of the text, and the reader |
| `JsonSyntax.dfy`, `JsonTree.dfy` | the texts that are read, as syntax trees |
| `JsonRoundTrip.dfy`, `JsonDocument.dfy` | writing and reading back |
| `SpanText.dfy` | the span of a trace as a JSON value |
| `TraceDelivery.dfy` | from the trace to the collector and back to the trace |

## Main results

- Delivery (`Delivery.EndToEnd`): for every schedule of submissions, polls, partial writes, errors and
  resets, the state of the agent is given step by step: what each poll wrote, read and reset, and that a span is
  accepted as a whole or refused because the buffer may be full. Every connection carries a prefix of the
  whole frames queued for it, and every accepted span belongs to exactly one connection, in order. The
  collector, reading in any pieces, dispatches those spans in order: at the end of its input all whole frames
  before the first that its buffer cannot hold. It turns the connection away only where some cutting of the same
  bytes would be turned away, and never when every frame has at most half the size of its buffer. After any
  run, a poll that finds the socket writable and keeps the connection hands the collector every span accepted
  since the last reset (`Delivery.FlushDelivery`); after a run that meets no error, with frames of at most half
  the collector's buffer, it dispatches every accepted span unless `parsePacket` refuses one
  (`Delivery.CalmDelivery`).
- From trace to trace (`TraceDelivery.CallsArrive`, `TraceDelivery.BracketsArrive`): any calls of the tracing
  interface, annotations included, become spans, JSON text, frames on the wire and packets of the collector. With
  polls that meet no error the i-th packet is the text of the i-th accepted span, and reads back as that span
  exactly when its annotations are valid UTF-8 and its names within the reader's limit. A span is refused only when
  those before it may have filled the send buffer, and when each is flushed only when its own frame is over the
  difference of the buffer's two limits. With room for all frames, frames of at most half the collector's buffer and
  no refusal by `parsePacket`, as many packets arrive as spans were sent. Over any polls, errors and resets
  included, the packets the collector gets after a flush are still texts of spans that were sent, in order,
  none twice (`TraceDelivery.DeliverSpans`).
- JSON (`JsonDocument.WriteThenRead`): every value without reals is read back unless it exceeds the
  reader's limits, in which case the reader throws; what is read equals what was written, integers compared
  by value, exactly when all strings and names are valid UTF-8. The styled writer, whatever line layout it
  picks, prints the compact text. The reader accepts exactly the texts that start with a syntax tree, white space,
  escapes and trailing commas included, and reads the value of that tree (`JsonTree.DocumentIffTree`).
- Traces (`TraceRuns.RunCalls`): over any calls with any ids, every result is the one the results before it
  call for: a start succeeds exactly under 0 or a live node while fewer than 12928 nodes are live, an end
  returns the node it was started under, ending a root takes exactly its descendants and sends a span that holds
  the root's annotations and one event for each descendant, in the order of their starts, with its number, its
  depth, its annotations and the time from its start to its last end. The pool holds exactly the trees a caller can put together from the results, as
  disjoint acyclic chains, and reports that all nodes are back exactly when no root is open.
- Nesting (`TraceBrackets.RunBracket`): nested thread-local pairs come back to where they started exactly when
  the pool can hold all their nodes, with every node under the one it was started in, in the order of the
  starts, and ended; if the pool cannot hold them, the forest that is left is stated.
- Receiving: the agent's handler calls depend on the bytes only, not on how they were cut
  (`TransLayer.TransLayer.RecvByteStream`). The collector's do not: what it dispatches is always the reference
  parse of what it has read (`Collector.ServeExplained`), but whether it reads to the end can depend on the cuts.
  `Collector.TurnedAwayIff` says of every stream whether some cutting of it is turned away, and
  `Collector.CuttingIrrelevant` that for all other streams the cuts do not matter.
- Concurrency (`PoolSteps.InvAlways`, `AgentRouter.InvAlways`): invariants of every interleaving; a step of
  the pool keeps them exactly when it is no forced return of a referenced node.

Some things the code does that a reader may not expect are proved as such, each at an input and with the
exact condition.

- `checkCapacity` refuses lengths that would fit and lets in lengths that wrap a 32-bit sum
  (`Chunk.RefusesWhatFits`, `Chunk.AdmitsWrappedSum`; condition in `Chunk.Chunks.CheckCapacity`). Where its
  comment and its code disagree, the model follows the code.
- The collector can turn a client away for how its bytes were cut: with a buffer of 100 bytes, frames of 20 and
  85 bytes are dispatched when they are read one by one and not when the second header is read with the first
  frame (`Collector.CuttingMatters`; condition in `Collector.TurnedAwayIff`).
- A response body above 4088 bytes costs the agent its connection although the collector sends bodies up to
  2^31 - 1 bytes (`Delivery.LargestResponse`; condition in `Delivery.ResponsesHeard`).
- A root that was annotated under the name `event` and has a node under it cannot be ended while its status lets it
  pass: the end fails and all its nodes stay (`TraceRuns.TakenName`; condition in `TraceRuns.RunCall`).
- A node whose end came to -1 milliseconds, by a clock that was set back, counts as open and is ended again when
  its root is (`TraceForest.OneMillisecondBack`; condition in `TraceForest.EndStands`).
- A thread-local start that finds the pool full leaves the thread at -1 for good and the nodes started so far
  in use (`TraceBrackets.LeakingBracket`; condition in `TraceBrackets.RunBracket`).
- `FreeNodeTree` of a node inside a chain breaks its tree (`TraceAgent.FreedInside`; condition in
  `TracePool.PoolManager.FreeNodeTree`).
- A forced return of a referenced node lets the next `GetNode` clear a live count
  (`PoolSteps.ForcedReturnReached`; condition in `PoolSteps.InvStep`).
- A dispatch can hold an agent that was meanwhile stopped (`AgentRouter.StaleHolder`; condition in
  `AgentRouter.HeldRunsIffMapped`).

## Model

| member | source | states |
|---|---|---|
| Bytes.GetAfterPut | collector-agent/server/Server.go:278-283 | a big-endian word is read back as it was put, at any offset |
| Framing.FrameLayout | common/src/ConnectionPool/TransLayer.cpp:257-268 | a frame byte by byte: type and body length as four bytes each, most significant first, then the body |
| Framing.FirstMsgIs | common/src/ConnectionPool/TransLayer.h:177-192 | which message a stream starts with, by its bytes, and exactly when an announced length is too large |
| Framing.ParseCovers | common/src/ConnectionPool/TransLayer.h:177-206 | the reference parser loses nothing: a stream is its messages, framed again, and a tail without a whole message |
| Framing.ParseAppend | common/src/ConnectionPool/TransLayer.h:177-206 | parsing a prefix and then its tail with the rest appended finds the messages of the whole stream |
| Framing.ParseRejected | common/src/ConnectionPool/TransLayer.h:184-187 | once a length is too large, every continuation of the stream is rejected with the same messages |
| Framing.ParseFrames | common/src/ConnectionPool/TransLayer.cpp:256-272 | parsing undoes framing, also when more bytes follow the frames |
| Framing.ParseCut | common/src/ConnectionPool/TransLayer.cpp:256-272 | a stream of frames, cut off anywhere, parses to the whole frames before the first body over the limit, which is rejected once its header is there, and leaves exactly the bytes behind them |
| SendPipe.Pipe.WriteData | common/src/ConnectionPool/TransLayer.h:117-145 | the bytes written, the result and the writing flag are those of sending until all is taken or an answer is no progress |
| SendPipe.DrainEndedBy | common/src/Cache/Chunk.cpp:204-235 | a drain sends everything, or its last answer was would-block or an error |
| SendPipe.DrainRefused | common/src/Cache/Chunk.cpp:211-232 | a drain that ends blocked was refused when it offered a block or what was left of one: of a block partly taken the rest is offered again |
| SendPipe.DrainTakes | common/src/Cache/Chunk.cpp:204-235 | a socket that keeps taking bytes gets a whole drain |
| SendPipe.UnsentTotal | common/src/Cache/Chunk.cpp:216-231 | what is left of the blocks when some bytes were taken off the front has the other bytes and no empty block |
| Chunk.DataChunk.Append | common/src/Cache/Chunk.cpp:34-42 | a copy into a chunk extends its unread data by exactly the bytes and keeps its block |
| Chunk.CeilToK | common/src/Cache/Chunk.cpp:83-93 | 1024 below the threshold, else more than the size and at most twice the size, for sizes below 2^31 |
| Chunk.CeilToKIs | common/src/Cache/Chunk.cpp:83-93 | between two powers of two the size is rounded to the upper one, from the threshold on and below 2^31 |
| Chunk.NewChunkSize | common/src/Cache/Chunk.cpp:83-93 | the rounded size is a power of two, the next above the size, and fits an int exactly below 2^30 |
| Chunk.TopPowerUnique | common/src/Cache/Chunk.cpp:83-93 | the single bit found by shifting is the largest power of two in the size |
| Chunk.CeilToKByShifting | common/src/Cache/Chunk.cpp:83-93 | the shifting loop computes `CeilToK`; from 2^31 on the result wraps to 0 |
| Chunk.Chunks.constructor | common/src/Cache/Chunk.cpp:131-137 | a new buffer is empty and keeps its two limits |
| Chunk.NewChunks | common/src/Cache/Chunk.cpp:131-137 | construction fails exactly when the maximum is below the resident size |
| Chunk.Chunks.CopyIntoReady | common/src/Cache/Chunk.cpp:24-45 | appends to the pending bytes what fits behind the last ready chunk and returns the rest |
| Chunk.Chunks.CopyIntoFree | common/src/Cache/Chunk.cpp:47-81 | appends what fits into the free chunks; a rest means none is left |
| Chunk.Chunks.CopyIntoNew | common/src/Cache/Chunk.cpp:95-111 | appends all bytes in a new chunk whose memory, header included, is the next power of two and at least 1024; changes nothing exactly when header and bytes reach 2^30, where that size is negative as an int |
| Chunk.Chunks.CopyDataIntoChunks | common/src/Cache/Chunk.cpp:173-202 | the queue grows by exactly the bytes; memory grows by one rounded chunk and only when nothing existing holds them |
| Chunk.Chunks.CheckWaterLevel | common/src/Cache/Chunk.cpp:113-127 | free chunks are given back oldest first, no more than the resident size requires |
| Chunk.Chunks.ResetChunks | common/src/Cache/Chunk.cpp:237-247 | nothing is pending, memory is within the resident size, and below it every chunk is kept, emptied |
| Chunk.Chunks.DrainFront | common/src/Cache/Chunk.cpp:211-232 | one turn of the drain removes from the front exactly what the socket took |
| Chunk.Chunks.DrainOutWithPipe | common/src/Cache/Chunk.cpp:204-235 | the bytes sent are the front of the queue and the rest stays pending, chunk by chunk; a queue that was not empty leaves the writing flag set exactly when the socket would block, and an emptied one is trimmed |
| Chunk.Chunks.CheckCapacity | common/src/Cache/Chunk.h:98-111 | for every 32-bit length: accepted exactly when the allocation stays within the maximum, an idle buffer holds it, it exactly fills the last ready chunk, or the sum wraps to within the maximum |
| Chunk.RefusesWhatFits | common/src/Cache/Chunk.cpp:154-171 | a buffer with 1011 bytes of room refuses 2 bytes |
| Chunk.AdmitsWrappedSum | common/src/Cache/Chunk.h:104-111 | the same buffer lets in 2^32 - 1024 bytes |
| TransLayer.TransLayer.constructor | common/src/ConnectionPool/TransLayer.h:39-41 | a new connection is idle, without descriptor, with empty buffers of the fixed sizes |
| TransLayer.TransLayer.CopyIntoSendBuffer | common/src/ConnectionPool/TransLayer.cpp:256-272 | header and body are queued as one frame or nothing changes, with the exact condition; allocation stays within twice the maximum plus 2048 |
| TransLayer.TransLayer.QueueFrame | common/src/ConnectionPool/TransLayer.cpp:265-268 | after the capacity check both copies succeed and the queue grows by the frame |
| Connection.StreamSnoc | common/src/ConnectionPool/TransLayer.cpp:256-272 | accepting a span extends the connection's stream by its frame |
| Connection.AllSpansClosed | common/src/ConnectionPool/TransLayer.h:101-115 | closing a connection moves its spans into the history, in order, and loses none |
| TransLayer.TransLayer.ResetRemote | common/src/ConnectionPool/TransLayer.h:101-115 | the next connection starts with empty buffers on a frame boundary; an open descriptor is closed and its flags are cleared |
| TransLayer.TransLayer.ConnectRemote | common/src/ConnectionPool/TransLayer.cpp:142-184 | an attempt sets the descriptor and all flags, anything else changes nothing |
| TransLayer.TransLayer.SendMsgToCollector | common/src/ConnectionPool/TransLayer.h:96-99 | the wire grows by what the drain sent and stays a prefix of whole frames, what was sent comes off the pending chunks, and the flag says whether the socket would block |
| TransLayer.TransLayer.HandleMsgStream | common/src/ConnectionPool/TransLayer.h:177-206 | one pass over the buffer makes the calls and reaches the offset of the recursive walk |
| Connection.WalkIsParse | common/src/ConnectionPool/TransLayer.h:177-206 | the walk finds the messages of the reference parser and makes their handler calls |
| Connection.DispatchConcat | common/src/ConnectionPool/TransLayer.h:193-203 | calls for two runs of messages are the calls for the first, then for the second unless the first failed |
| Connection.HeardNoMore | common/src/ConnectionPool/TransLayer.h:153-155 | after an oversized length or a failing handler nothing that follows matters |
| Connection.PassIsWholeStream | common/src/ConnectionPool/TransLayer.h:147-175 | leftover plus new bytes are handled as the whole stream would be, and the leftover is shorter than the buffer |
| TransLayer.TransLayer.RecvPiece | common/src/ConnectionPool/TransLayer.h:149-161 | one read, one pass, and the leftover moved to the front keep the buffer equal to the parser's tail |
| TransLayer.TransLayer.RecvByteStream | common/src/ConnectionPool/TransLayer.h:147-175 | for every fragmentation the calls are those of parsing the stream once, and the result is success exactly when all was well; the full-buffer exit is never taken |
| Connection.DispatchIs | common/src/ConnectionPool/TransLayer.h:189-203 | the calls are those for the messages with a handler, looked up by the type as a signed number, in order: all of them, or up to and with the first that fails |
| Connection.HeardWhole | common/src/ConnectionPool/TransLayer.h:147-175 | whole messages after whole messages, with handlers that do not fail, leave the connection alive and nothing in the buffer |
| TransLayer.TransLayer.HandleEvents | common/src/ConnectionPool/TransLayer.cpp:224-243 | read and write events happen in order and leave the state that the connection as a value says; they fail exactly on an exceptional condition, on bytes that end the stream, are too long a message or fail a handler, and on a write that fails; after an error, the calls and the wire are stated |
| TransLayer.TransLayer.PollConnected | common/src/ConnectionPool/TransLayer.cpp:194-254 | with a descriptor: given up, closed and recorded, or handled, each with its whole new state |
| Connection.PollKeepsTaken | common/src/ConnectionPool/TransLayer.cpp:186-254 | whatever a poll meets, every span accepted before stays accounted for, under one connection and in order |
| Connection.PollEffect | common/src/ConnectionPool/TransLayer.cpp:186-254 | every poll, part by part and without its branches: the connection is closed, recorded and opened again exactly on an exceptional condition, a fatal read or a failed write with the flag set; else descriptor and accepted spans stay, and read and write have their exact effect; without a descriptor, or when `select` fails, nothing changes; a descriptor that cannot be watched is closed |
| Connection.PollsAre | common/src/ConnectionPool/TransLayer.h:70-78 | the polls of a flush come one after the other while the flag is set, 20 at most |
| Connection.SelectKeepsOk | common/src/ConnectionPool/TransLayer.cpp:194-254 | after every branch of a poll what is written and what is pending make up the stream, and pending bytes are flagged |
| Connection.CalmOutcome | common/src/ConnectionPool/TransLayer.cpp:194-254 | a poll that meets no error closes nothing, and what it reads is whole messages |
| Connection.CalmStays | common/src/ConnectionPool/TransLayer.cpp:186-254 | after such a poll the next one meets the same conditions, on the same connection |
| Connection.StaysWatchable | common/src/ConnectionPool/TransLayer.cpp:186-254 | attempts that yield descriptors `select` can watch leave such a descriptor or none |
| Connection.FlushOutcome | common/src/ConnectionPool/TransLayer.cpp:186-254 | a poll that finds the socket writable and taking bytes is handled exactly when the descriptor can be watched, nothing is exceptional and what is read leaves the connection alive; then nothing is pending and the wire is the whole stream |
| TransLayer.TransLayer.PoolEventOnce | common/src/ConnectionPool/TransLayer.cpp:186-254 | a poll returns what it should and leaves exactly the state of `PollEffect`: descriptor, flag, pending chunks, wire, accepted spans, closed connections, bytes received and calls made; it keeps the invariant and loses no accepted span |
| TransLayer.TransLayer.SyncSendAll | common/src/ConnectionPool/TransLayer.h:70-78 | exactly the state after one poll after the other while there is something to write, at most 20 |
| Collector.MatchFullPacket | collector-agent/server/Server.go:285-304 | packet size and body, bytes missing, or refusal, as the reference parser says of the window |
| Collector.InStepMore | collector-agent/server/Server.go:376-389 | a read extends the window and keeps it the unparsed rest of the stream |
| Collector.InStepPacket | collector-agent/server/Server.go:414-431 | taking a packet keeps dispatched packets a prefix of the reference parse |
| Collector.ParseAgain | collector-agent/server/Server.go:391-432 | with the buffer, its two offsets and the move to the front, the part behind the label takes the packets, makes the decision and gives the reason to stop that the loop on stream positions does |
| Collector.HandleClient | collector-agent/server/Server.go:369-434 | for every input and every fragmentation the packets dispatched, the reason to stop and the bytes read are those of the loop on stream positions |
| Collector.TakeExplained | collector-agent/server/Server.go:391-432 | taking packets off a window that holds the unparsed rest of what was read leaves such a window, or a stop that the reference parse explains |
| Collector.ServeExplained | collector-agent/server/Server.go:369-434 | for every fragmentation the dispatched packets are those of the reference parse of what was read, `parsePacket` accepted every one but a last one that stops the loop, and each reason to stop holds of what was read; an overlap of the bytes of the packet that are there, behind the packets still in the buffer |
| Collector.TurnedAwayOnly | collector-agent/server/Server.go:399-411 | whoever is turned away had sent a stream that meets the condition of `TurnedAwayIff` |
| Collector.CutFrom | collector-agent/server/Server.go:376-411 | for a stream with a packet that can be cut so, a cutting that is turned away |
| Collector.TurnedAwayIff | collector-agent/server/Server.go:369-434 | some cutting of a stream is turned away (ended neither by the end of input nor by `parsePacket`) exactly when the buffer size is 0, or behind accepted packets a body over the buffer size is announced, or behind accepted packets comes one of these: a packet whose body is over half the buffer and that does not fit behind packets that leave room for its header; a packet that does not fit the buffer and fills it; in a buffer below 14 bytes, a packet whose header does not fit behind others |
| Collector.CuttingIrrelevant | collector-agent/server/Server.go:369-434 | every other stream has the same packets dispatched and ends the same way however it is cut: all packets at the end of input, or those up to the first that `parsePacket` refuses |
| Collector.HalfBufferSuffices | collector-agent/server/Server.go:399-411 | with at least 16 bytes of buffer and packets of at most half of it, no cutting is turned away |
| Collector.CuttingMatters | collector-agent/server/Server.go:399-411 | a buffer of 100 bytes and frames of 20 and 85 bytes: both dispatched when read one by one, turned away after the first when the second header is read with it |
| Collector.WrittenIs | collector-agent/server/Server.go:318-327 | how many answers of `Write` are used, that all is written exactly when each of them makes progress and nothing is left, and that what a failing one took counts |
| Collector.RespToClient | collector-agent/server/Server.go:306-330 | the wire gets the frame, or the prefix that was taken together with an error; an oversized body is skipped |
| Delivery.ParseCutStream | common/src/ConnectionPool/TransLayer.cpp:256-272 | for every buffer size a cut-off stream of span frames parses to the whole ones before the first the buffer cannot hold |
| Delivery.DeliveredInOrder | collector-agent/server/Server.go:369-434 | fed a prefix of whole frames in any pieces, the collector dispatches spans in order, all that arrived at the end of input; it is turned away only where `TurnedAwayIff` allows it, and not when every frame fits half the buffer |
| Delivery.AllArrived | common/src/ConnectionPool/TransLayer.cpp:256-272 | of a whole stream of frames that fit half the buffer every one arrives |
| Delivery.ResponsesHeard | common/src/ConnectionPool/TransLayer.h:177-206 | of the collector's responses, cut off anywhere, the handlers see the whole ones before the first body above 4088 bytes, which ends the connection once its header is there |
| Delivery.Respond | collector-agent/server/Server.go:306-330 | one response after the other puts a prefix of their frames on the wire, all of them unless a write fails |
| Delivery.HearResponses | common/src/ConnectionPool/TransLayer.h:147-206 | what the collector writes and the agent reads, in any pieces, leads to exactly the handler calls of the whole responses that fit |
| Delivery.LargestResponse | collector-agent/server/Server.go:306-330 | a response of n bytes reaches its handler exactly when n is at most 4088; a longer one costs the connection |
| Delivery.StepTaken | common/src/ConnectionPool/TransLayer.cpp:186-272 | a submission adds its span or nothing to the spans accepted, a poll nothing |
| Delivery.RanWithin | common/src/ConnectionPool/TransLayer.cpp:256-272 | over any run memory is bounded by what was submitted, two chunks each, so a span is refused only when the submissions before it may have filled the buffer |
| Delivery.RanCalm | common/src/ConnectionPool/TransLayer.cpp:186-254 | a run that meets no error stays on its first connection |
| Delivery.FlushStep | common/src/Cache/Chunk.cpp:113-127 | an operation whose first poll flushes without error leaves nothing pending and memory within the resident size |
| Delivery.RunOp | common/src/ConnectionPool/TransLayer.cpp:186-272 | a submission is accepted as a whole or refused because memory and frame exceed the maximum, with nothing changed; a poll or a round of polls leaves exactly the state the connection as a value says; an idle buffer is within the resident size |
| Delivery.RunAgent | common/src/ConnectionPool/TransLayer.cpp:186-272 | over any schedule the invariant holds and every step is of that kind, from a new connection to the final state |
| Delivery.EndToEnd | collector-agent/server/Server.go:352-437 | any connection of any run, read by the collector in any pieces, delivers its spans in order: at the end of input all that arrived whole before the first its buffer cannot hold; it is turned away only where `TurnedAwayIff` allows it, and not when every frame fits half the buffer |
| Delivery.Flush | common/src/ConnectionPool/TransLayer.cpp:186-254 | from any valid state a poll that finds the socket writable and taking bytes succeeds exactly when the descriptor can be watched, nothing is exceptional and what is read leaves the connection alive, and then nothing is pending, the wire is the whole stream and memory is within the resident size |
| Delivery.FlushDelivery | common/src/ConnectionPool/TransLayer.cpp:186-272 | after any run such a poll, if it succeeds, hands the collector every span accepted since the last reset; it does succeed when all descriptors can be watched and nothing is to be read, and when neither the run nor the poll met an error, and then there was no reset |
| Delivery.CalmDelivery | common/src/ConnectionPool/TransLayer.cpp:186-272 | after a run that meets no error, reading whole messages included, and such a poll, with frames of at most half its buffer, the collector dispatches every accepted span unless `parsePacket` stops it |
| Delivery.SubmitAfterFlush | common/src/Cache/Chunk.h:98-111 | once everything pending is written, a frame of at most the maximum less the resident size is accepted, whatever was submitted before: the spans of the connection are then those of the run and the new one |
| Annotations.GetInsert | common/src/NodePool/TraceNode.h:184-191 | an annotation sets one name and no other |
| Annotations.InsertOrdered | common/jsoncpp/lib_json/json_value.cpp:295-311 | the members of an object stay in strict order of their names |
| Annotations.Spelled | common/src/common.cpp:226-253 | how the names under which clues, times and events are kept are spelled |
| Annotations.ClueMeans | common/src/common.cpp:212-254 | every clue, name by name: a key holds its string; the list has one more line of key, colon and value; `ERR` holds message, file and line; `EXP_V2` holds text, class and the time since the root started; no other name changes, and exactly an internal key or a list that is none is refused |
| Annotations.Words | common/src/NodePool/TraceNode.cpp:56-60 | times as 64-bit words: kept when they fit, and up to multiples of 2^64 |
| Annotations.ClueKept | common/src/common.cpp:212-254 | what an application adds can be stored, and touches nothing the tracer records of an event |
| Annotations.AlikeClue | common/src/common.cpp:212-254 | what a clue adds depends only on annotations an application has made |
| TraceForest.TraceNode.End | common/src/NodePool/TraceNode.cpp:56-70 | an ended node has the time since its start as a 64-bit integer; its links are untouched |
| TraceForest.EndNotes | common/src/NodePool/TraceNode.cpp:56-70 | an ended node carries that time, its start relative to the node before, and unless it is a root its sequence number and depth; an exception is marked, and every other annotation stays |
| TraceForest.EndKept | common/src/NodePool/TraceNode.cpp:56-70 | ending a node keeps its annotations storable |
| TraceForest.PlantRootValid | common/src/common.cpp:141-145 | a new root keeps the forest well formed |
| TraceForest.AppendValid | common/src/NodePool/PoolManager.cpp:43-68 | linking a node behind its root's chain keeps chains disjoint, acyclic and ending in `last`, with sequence, depth and previous start time right |
| TraceForest.ChainLinks | common/src/NodePool/PoolManager.cpp:34-41 | following `next` from a root visits its whole chain once and ends |
| TraceForest.MembersAre | common/src/NodePool/PoolManager.cpp:34-41 | a live node is on a root's chain exactly when it names that root |
| TraceForest.FellValid | common/src/NodePool/PoolManager.cpp:34-41 | giving a tree back leaves a well-formed forest |
| TraceForest.RestLinks | common/src/NodePool/PoolManager.cpp:34-41 | following `next` from any live node visits the rest of its chain once and ends |
| TraceForest.BrokenTree | common/src/NodePool/PoolManager.cpp:34-41 | once the end of a chain has been given back, no choice of trees makes the nodes a well-formed forest |
| TraceForest.ChainBound | common/src/NodePool/PoolManager.cpp:43-68 | a chain has fewer nodes than the pool |
| TraceForest.DepthBound | common/src/NodePool/PoolManager.cpp:43-68 | a node is no deeper than its place in the chain |
| TraceForest.EncodeStep | common/src/NodePool/PoolManager.cpp:164-181 | one turn of the encoder closes the node at its place and appends its record to the root's events |
| TraceForest.JamValid | common/src/NodePool/PoolManager.cpp:164-181 | where the encoder throws, the first node of the chain has been closed and nothing else has changed |
| TraceForest.EventsAreTheChain | common/src/NodePool/PoolManager.cpp:157-186 | the k-th event is the record of the node with sequence number k: as its last end left it, and ended now only if nobody has ended it; with its times, sequence and depth |
| TraceForest.EndStands | common/src/NodePool/PoolManager.cpp:168-171 | the time of an end stands when the root is encoded, exactly unless it came to -1 milliseconds |
| TraceForest.OneMillisecondBack | common/src/NodePool/PoolManager.cpp:168-171 | a node started at 5 and ended at 4 has taken 95 when it is encoded at 100 |
| TraceForest.EmptyIffUnused | common/src/NodePool/PoolManager.h:58-65 | there is a tree exactly when a node is in use |
| TracePool.NodeCells.Set | common/src/NodePool/PoolManager.cpp:123-123 | writing a node in its cell changes that index and no other |
| TracePool.PopPartition | common/src/NodePool/PoolManager.cpp:135-137 | taking the top of the free stack keeps free and used a partition |
| TracePool.SeenZeroIff | common/src/NodePool/PoolManager.cpp:72-81 | a count of 0 at one of a thousand looks is found, and otherwise the last look counts |
| TracePool.PoolManager.constructor | common/src/NodePool/PoolManager.h:97-103 | a new pool has one cell, all free |
| TracePool.PoolManager.ExpandOnce | common/src/NodePool/PoolManager.cpp:141-155 | one more cell of 128 free nodes, the rest unchanged |
| TracePool.PoolManager.ExhaustedIffFull | common/src/NodePool/PoolManager.cpp:126-133 | nothing is free and the pool may not grow exactly when 12928 nodes are live |
| TracePool.PoolManager.TakeFree | common/src/NodePool/PoolManager.cpp:135-138 | the top of the stack is marked used and its node reset |
| TracePool.PoolManager.GetReadyNode | common/src/NodePool/PoolManager.cpp:126-139 | fails exactly when nothing is free and the limit is passed; else hands out an unused node |
| TracePool.PoolManager.ReferNode | common/src/NodePool/PoolManager.h:45-48 | a live node gets one more reference, a dead one an exception |
| TracePool.PoolManager.ReturnOnce | common/src/NodePool/PoolManager.cpp:84-107 | refuses exactly a live referenced node when not forced; else frees it and yields its successor |
| TracePool.PoolManager.ReturnNode | common/src/NodePool/PoolManager.cpp:70-82 | whatever the looks at its count find, a live node is freed, by force exactly when a thousand looks find it referenced |
| TracePool.PoolManager.AppendToRootTrace | common/src/NodePool/PoolManager.cpp:43-68 | the pool becomes the forest with the node appended; a node that has a root is left alone |
| TracePool.PoolManager.FreeNodeTree | common/src/NodePool/PoolManager.cpp:34-41 | for a root exactly it and the nodes under it become free, for a dead id nothing changes, for any other node the rest of its chain; the pool stays well formed exactly in the first two cases, and in the third no choice of trees makes it so |
| TracePool.PoolManager.EncodeTraceToJsonSpan | common/src/NodePool/PoolManager.cpp:157-186 | a root's span holds one event per node of its chain in order, an open node being ended at its time and an ended one left as it is; any other node yields its own record; it throws exactly for a root with a chain whose name for events is taken |
| TracePool.FreeCount | common/src/NodePool/PoolManager.h:58-65 | the number of free indices equals the number of indices exactly when none is used |
| TracePool.PoolManager.NoNodesLeak | common/src/NodePool/PoolManager.h:58-65 | true exactly when no trace is open |
| TraceAgent.Agent.StartRoot | common/src/common.cpp:141-145 | a fresh root, complete in every field, or failure exactly on exhaustion; no other node changes |
| TraceAgent.Agent.StartChild | common/src/common.cpp:146-163 | a fresh node under a live parent, complete in every field; failure exactly for a dead parent or exhaustion; references are dropped again |
| TraceAgent.Agent.StartTrace | common/src/common.cpp:138-164 | root or child by the parent id, `E_INVALID_NODE` and no change on every error |
| TraceAgent.Agent.EndTrace | common/src/common.cpp:166-191 | an event is ended and its parent returned; a root sends one span if its status lets it pass and frees exactly its tree either way, unless putting the span together throws: then -1 is returned, nothing is sent and nothing freed; a dead id changes nothing |
| TraceAgent.Agent.SendRoot | common/src/common.cpp:173-187 | the span sent is the root's record and one event per node, and no other tree changes; fails exactly when the root may pass, has events to collect and their name is taken |
| TraceAgent.Agent.ChangeTraceStatus | common/src/common.cpp:203-210 | only the status of the node's root changes, the old one is returned as an unsigned word |
| TraceAgent.Agent.Annotate | common/src/common.cpp:212-254 | node by node and name by name: errors go to the root, exceptions to the node, the rest where asked, with the values of `ClueMeans`; an exception is marked on node and root; exactly a dead id, an internal key and a list that is none are refused, and change nothing |
| TraceAgent.NotedValid | common/src/common.cpp:212-254 | annotations keep the forest well formed and storable |
| TraceAgent.JammedTidy | common/src/common.cpp:166-191 | an end that throws changes no link and no other tree, and leaves the name taken |
| TraceAgent.SpanIsKept | common/src/NodePool/TraceNode.cpp:56-70 | a span that is sent can be stored, with fewer events than the pool has nodes |
| TraceAgent.FreedInside | common/src/NodePool/PoolManager.cpp:34-41 | a root, a node under it and `FreeNodeTree` of that node leave a root whose successor is not in use |
| TraceAgent.EndedPathNodes | common/src/common.cpp:474-478 | ending the nodes of a path changes no link and no other node |
| TraceAgent.Agent.ForceEndTrace | common/src/common.cpp:471-490 | terminates, visits exactly the ancestors up to the root, frees the whole tree and nothing else, sends exactly the root's span with the visited nodes ended if its status lets it pass, returns `E_ROOT_NODE`; where ending the root throws it returns -1 and frees nothing; a dead id changes nothing |
| TraceAgent.ParentIsLower | common/src/common.cpp:471-490 | a parent is live, in the same tree and earlier in the chain, so climbing ends |
| TraceAgent.Agent.StartLocal | src/PY/_pinpoint_py.cpp:181-185 | the thread moves to the new node, or to `E_INVALID_NODE` |
| TraceAgent.Agent.EndLocal | src/PY/_pinpoint_py.cpp:203-208 | the thread moves to what the end returned, and the span of an ended root is sent |
| TraceBrackets.HangDepth | common/src/NodePool/PoolManager.cpp:43-68 | the nodes of a chain have the depths their brackets have |
| TraceBrackets.SpanHasShape | common/src/NodePool/PoolManager.cpp:157-186 | the events of a bracket's span are its inner brackets in the order of their starts, with their sequence numbers and depths |
| TraceBrackets.RunBracket | src/PY/_pinpoint_py.cpp:181-208 | the thread is back exactly when the live nodes and those of the bracket are at most 12928: at a live node its chain has grown by the bracket's nodes in preorder, each under the node of the bracket around it and ended; at id 0 nothing is left and one span was sent, with the bracket's events; else it is at -1, the pool is full and the first nodes in preorder stay in use, each under its node |
| TraceBrackets.RunBrackets | src/PY/_pinpoint_py.cpp:181-208 | the same for one bracket after the other: below a live node their nodes follow each other, at id 0 each must find room by itself |
| TraceBrackets.LeakingBracket | src/PY/_pinpoint_py.cpp:181-208 | a bracket of 12929 nodes leaves the thread at -1, all 12928 nodes in use and nothing sent |
| TraceRuns.TreeCount | common/src/NodePool/PoolManager.cpp:43-68 | the nodes a caller knows under a root are the root and its chain |
| TraceRuns.SeesNoted | common/src/common.cpp:212-254 | an annotation reaches the node the caller means, with the value the caller expects |
| TraceRuns.SeesSpanNow | common/src/NodePool/PoolManager.cpp:157-186 | the span of a root holds the annotations the caller made, the mark of an exception, the agent's type, when it started and how long it took; and for each node under it, in the order of their starts, its annotations, number, depth, start relative to the node before, and the time from its start to its last end, or to now if nobody has ended it |
| TraceRuns.SeesStuck | common/src/common.cpp:166-191 | an end that throws has ended the root, and the first node under it unless it was ended before |
| TraceRuns.SeesPath | common/src/common.cpp:471-490 | a forced end has ended the node and those above it, the k-th at the k-th reading of the clock |
| TraceRuns.SeesWayUp | common/src/common.cpp:471-490 | the way a forced end takes is the one the caller knows, as long as the node is deep |
| TraceRuns.SeesUnendable | common/src/common.cpp:166-191 | ending a root throws exactly when the caller knows it may pass, has nodes under it and was annotated under `event` |
| TraceRuns.SeesFelled | common/src/common.cpp:166-191 | ending a root takes from the caller's view exactly its descendants and adds the span it expects if it passes |
| TraceRuns.RunCall | common/src/common.cpp:388-519 | the result of any call is the one the caller's view calls for, and the view after it, times of ends and marks of exceptions included, again fits the pool and what was sent |
| TraceRuns.RunCalls | common/src/common.cpp:388-519 | over any calls with any ids, annotations included, every result follows from the ones before it, the agent's pool holds exactly the trees put together from them, every span sent is the one they call for, and no node leaks exactly when no root is open |
| TraceRuns.TakenName | common/src/common.cpp:166-191 | a root with a node under it, annotated under `event`: the end returns -1, nothing is sent and its nodes stay |
| PoolSteps.InvWork | common/src/NodePool/PoolManager.h:142-156 | a turn of the thread inside the mutex keeps counts, flags and free stack consistent exactly when it is no forced return of a held node |
| PoolSteps.InvDrop | common/src/NodePool/TraceNode.h:263-263 | dropping a wrapper outside the mutex keeps the invariant at every point |
| PoolSteps.HandedOutOnce | common/src/NodePool/PoolManager.cpp:126-139 | a node is handed out only when not in use, and resetting it finds a count of 0 |
| PoolSteps.GiveBackExact | common/src/NodePool/PoolManager.cpp:84-107 | giving a used node back keeps the invariant exactly when its count is 0 |
| PoolSteps.ForcedReturnLosesCount | common/src/NodePool/PoolManager.cpp:79-81 | after a forced return of a held node the next `GetNode` hands it out and clears the count of its live wrapper |
| PoolSteps.ForcedReturnReached | common/src/NodePool/PoolManager.cpp:79-81 | a schedule from the start in which this happens |
| PoolSteps.InvStep | common/src/NodePool/PoolManager.h:126-160 | any step keeps the invariant exactly when it is no forced return of a held node |
| PoolSteps.ReferAlone | common/src/NodePool/PoolManager.h:142-145 | a reference with nobody in between: a wrapper of a node in use and its count, or nothing |
| PoolSteps.ReturnAlone | common/src/NodePool/PoolManager.cpp:84-107 | an unforced return frees exactly a node in use that no wrapper holds, and else nothing happens |
| PoolSteps.ForceReturnAlone | common/src/NodePool/PoolManager.cpp:84-107 | a forced one frees any node in use |
| PoolSteps.GetAlone | common/src/NodePool/PoolManager.cpp:126-155 | a node nobody uses is handed out with a count of 0, from a new cell of 128 when all are in use; none exactly when all of more than 12800 are; no other node changes |
| PoolSteps.MovedOrDropped | common/src/NodePool/TraceNode.h:254-263 | moving a wrapper leaves two of the same node, destroying one takes it away, and the counts follow |
| PoolSteps.InvAlways | common/src/NodePool/PoolManager.h:126-160 | in every interleaving without such a return counts equal live wrappers, referenced nodes are in use, and free and used partition the pool |
| AgentRouter.InvCreate | collector-agent/agent/AgentRouter.go:291-315 | creating an agent under the write lock gives it the counter's value and keeps agents in one place |
| AgentRouter.InvClean | collector-agent/agent/AgentRouter.go:201-226 | taking expired agents out of the map makes them pending, no matter which |
| AgentRouter.InvAlways | collector-agent/agent/AgentRouter.go:201-315 | under any interleaving each started agent is in exactly one of map, pending and stopped, has the ping id of its birth, and a call holds an agent of its application |
| AgentRouter.DispatchHolds | collector-agent/agent/AgentRouter.go:291-322 | a dispatch with nobody in between gets the running agent of its application: the one in the map, or a new one with the next ping id |
| AgentRouter.CleanTakes | collector-agent/agent/AgentRouter.go:201-226 | a clean takes exactly the expired agents out of the map, to be stopped by the thread that took them, one by one |
| AgentRouter.PingIdsRepeat | collector-agent/agent/AgentRouter.go:30-38 | ping ids are shared exactly when the 32-bit counter went round, so not among the first 2^32 agents |
| AgentRouter.StoppedOnce | collector-agent/agent/AgentRouter.go:223-243 | no agent is stopped twice |
| AgentRouter.OnePerApplication | collector-agent/agent/AgentRouter.go:291-315 | never two running agents for one application |
| AgentRouter.SecondLookFinds | collector-agent/agent/AgentRouter.go:297-315 | two callers that both missed share one agent |
| AgentRouter.HeldRunsIffMapped | collector-agent/agent/AgentRouter.go:291-322 | a call's agent is running exactly as long as the map has it |
| AgentRouter.StaleHolder | collector-agent/agent/AgentRouter.go:291-322 | a run in which a call holds a stopped agent |
| MetaCache.Counter.Next | collector-agent/agent/SpanSender.go:35-35 | the n-th id is the 32-bit counter after n increments |
| Bytes.NthRepeats | collector-agent/agent/SpanSender.go:161-161 | a 32-bit counter repeats exactly when it went round |
| MetaCache.SpanSender.SenderGrpcMetaData | collector-agent/agent/SpanSender.go:468-573 | for the kinds 0 to 4 a registration with the key's id per reachable backend, and a confirmation clears the pending mark; any other kind does nothing; for a pending key the record stays straight |
| MetaCache.SpanSender.GetMetaApiId | collector-agent/agent/SpanSender.go:147-167 | a new key draws the next id of the process, a known key none; an unconfirmed use of a kind from 0 to 4 that reaches the backend registers the id, a confirmed use and any other kind register nothing |
| MetaCache.SpanSender.GetSqlUidMetaApiId | collector-agent/agent/SpanSender.go:169-189 | the same for the hash of a statement |
| MetaCache.SpanSender.CleanAllMetaData | collector-agent/agent/SpanSender.go:135-141 | ids and pending marks are dropped together |
| MetaCache.SpanSender.IdsDistinct | collector-agent/agent/SpanSender.go:147-167 | distinct keys share an id exactly when the counter went round between them, so not within 2^32 ids of a clean |
| MetaCache.RunUse | collector-agent/agent/SpanSender.go:135-189 | any use, clean or draw by another sender adds at most one id, keeps every known id, and registers exactly an unconfirmed name that reaches the backend |
| MetaCache.RunUses | collector-agent/agent/SpanSender.go:135-189 | over any run, between cleans, a key always has the same id and different names have different ids, as long as the run has at most 2^32 uses; the backend sees exactly the uses of the kinds 0 to 4 that reach it before it confirmed the key since the last clean, each with its id; and a statement's id is its hash |
| JsonNumber.HornerOfDecimal | common/jsoncpp/lib_json/json_tool.h:81-87 | the decimal numeral of a number has its value |
| JsonNumber.DecimalStart | common/jsoncpp/lib_json/json_tool.h:81-87 | a numeral has no leading zero |
| JsonNumber.UInt64Length | common/jsoncpp/lib_json/json_tool.h:67-74 | a 64-bit number has at most 20 digits |
| JsonNumber.UIntToString | common/jsoncpp/lib_json/json_tool.h:81-87 | the buffer ends in the numeral and a NUL, within 21 bytes |
| JsonNumber.ValueToString | common/jsoncpp/lib_json/json_writer.cpp:94-116 | every 64-bit integer prints within the 25-byte buffer as its sign and numeral |
| JsonNumber.TooLarge | common/jsoncpp/lib_json/json_reader.cpp:1606-1618 | giving up at a digit is right: the whole is above the limit |
| JsonNumber.DecodeNumber | common/jsoncpp/lib_json/json_reader.cpp:1556-1634 | the integer path is taken exactly for digits with an optional minus whose value fits, with that value and without overflow |
| JsonNumber.IntRoundTrip | common/jsoncpp/lib_json/json_reader.cpp:1556-1634 | every 64-bit integer reads back as itself |
| JsonString.HexRoundTrip | common/jsoncpp/lib_json/json_reader.cpp:1747-1771 | four written hex digits read back |
| JsonString.OneRoundTrip | common/jsoncpp/lib_json/json_writer.cpp:290-345 | every written code point reads back as its effective scalar, whatever follows |
| JsonString.UnescapeEscape | common/jsoncpp/lib_json/json_reader.cpp:1669-1771 | for every byte string decoding the written text succeeds and yields its meaning |
| JsonString.UnitIsScalar | common/jsoncpp/lib_json/json_writer.cpp:186-235 | a well-formed UTF-8 unit is decoded to the scalar that encodes to it |
| JsonString.FrontIs | common/jsoncpp/lib_json/json_writer.cpp:186-235 | what the writer makes of any bytes at the front: the announced length, the value bits, and one replacement character for a unit that is cut off, too long or of a surrogate, or that nothing announces |
| JsonString.ScalarIsUnit | common/jsoncpp/lib_json/json_tool.h:39-65 | every scalar is encoded as a well-formed unit |
| JsonString.MeaningIsValid | common/jsoncpp/lib_json/json_reader.cpp:1669-1720 | what is decoded is valid UTF-8 |
| JsonString.MeaningOfValid | common/jsoncpp/lib_json/json_writer.cpp:273-348 | valid UTF-8 means itself |
| JsonString.StringRoundTrip | common/jsoncpp/lib_json/json_writer.cpp:273-348 | decode after quote always yields valid UTF-8, is the identity exactly on valid UTF-8, and is idempotent |
| JsonString.QuoteIsOneToken | common/jsoncpp/lib_json/json_reader.cpp:1416-1426 | quoted output is printable ASCII and scans as one string token |
| JsonString.PlainIsItself | common/jsoncpp/lib_json/json_writer.cpp:278-279 | a string that needs no escaping is its own escaped text |
| JsonString.EscapeNext | common/jsoncpp/lib_json/json_writer.cpp:290-345 | one turn of the escaping loop writes the escape of the next code point |
| JsonString.ValueToQuotedString | common/jsoncpp/lib_json/json_writer.cpp:273-348 | fast path and loop both produce the quoted text |
| JsonString.DecodeString | common/jsoncpp/lib_json/json_reader.cpp:1669-1720 | the decoding loop computes the unescaped string or fails with it |
| JsonSyntax.PieceReads | common/jsoncpp/lib_json/json_reader.cpp:1669-1771 | each piece of a string reads as what it means: a plain byte, one of the eight two-character escapes, a unit of four hexadecimal digits of either case, a surrogate pair |
| JsonSyntax.PieceOf | common/jsoncpp/lib_json/json_reader.cpp:1669-1771 | whatever the decoder takes in one turn is such a piece |
| JsonSyntax.PiecesRead | common/jsoncpp/lib_json/json_reader.cpp:1416-1426 | a string ends at the first quotation mark behind its pieces, and means what they mean |
| JsonSyntax.PiecesOf | common/jsoncpp/lib_json/json_reader.cpp:1669-1720 | every string token that decodes is made of pieces |
| JsonSyntax.WrittenPiece | common/jsoncpp/lib_json/json_writer.cpp:290-345 | how each code point is written: a two-character escape for exactly seven, itself in printable ASCII, else lower-case hexadecimal, as a pair from U+10000 on |
| JsonValue.LessIff | common/jsoncpp/lib_json/json_value.cpp:295-311 | names are ordered by the first byte that differs, a proper prefix first |
| JsonValue.TextSize | common/jsoncpp/lib_json/json_writer.cpp:940-1051 | the compact text has one character between its parts and no white space |
| JsonWriter.BuiltStyledStreamWriter.IsMultilineArray | common/jsoncpp/lib_json/json_writer.cpp:1053-1078 | an array kept on one line has one buffered text per element |
| JsonWriter.BuiltStyledStreamWriter.WriteArrayValue | common/jsoncpp/lib_json/json_writer.cpp:1003-1051 | every layout of an array yields the compact text |
| JsonWriter.BuiltStyledStreamWriter.WriteValue | common/jsoncpp/lib_json/json_writer.cpp:940-1001 | every value is pushed as its compact text |
| JsonWriter.BuiltStyledStreamWriter.Write | common/src/Cache/NodeTreeWriter.h:37-47 | with empty indentation the writer prints the compact text of the value |
| JsonReader.OurReader.SkipSpaces | common/jsoncpp/lib_json/json_reader.cpp:1263-1271 | the cursor moves past exactly the leading spaces |
| JsonReader.OurReader.ReadString | common/jsoncpp/lib_json/json_reader.cpp:1416-1426 | finds the closing quote of the string token, or fails when there is none |
| JsonReader.OurReader.ReadNumber | common/jsoncpp/lib_json/json_reader.cpp:1390-1415 | the cursor moves past integral, fractional and exponential part |
| JsonReader.OurReader.Match | common/jsoncpp/lib_json/json_reader.cpp:1283-1292 | comparing from the back decides whether the word is a prefix |
| JsonReader.OurReader.ReadToken | common/jsoncpp/lib_json/json_reader.cpp:1152-1261 | kind, text and rest are those of the grammar's token |
| JsonReader.OurReader.ReadArray | common/jsoncpp/lib_json/json_reader.cpp:1504-1544 | reads what the grammar says of an array, errors and exceptions included |
| JsonReader.OurReader.ReadObject | common/jsoncpp/lib_json/json_reader.cpp:1440-1502 | reads what the grammar says of an object, errors and exceptions included |
| JsonReader.OurReader.ReadValue | common/jsoncpp/lib_json/json_reader.cpp:1050-1140 | reads what the grammar says of a value, restoring the depth unless it throws |
| JsonTree.TreeReads | common/jsoncpp/lib_json/json_reader.cpp:1050-1544 | every syntax tree, with any white space between tokens and a comma before a closing bracket, reads as its value and leaves what follows |
| JsonTree.TreeOf | common/jsoncpp/lib_json/json_reader.cpp:1050-1544 | every text that is read starts with such a tree of the value |
| JsonTree.ReadIffTree | common/jsoncpp/lib_json/json_reader.cpp:1050-1544 | a value is read, leaving a rest, exactly when the text is a tree of it and then the rest; only a number has to be set off from it |
| JsonTree.DocumentIffTree | common/jsoncpp/lib_json/json_reader.cpp:1004-1048 | the same for a document, which a byte order mark may precede |
| JsonTree.LastCounts | common/jsoncpp/lib_json/json_reader.cpp:1440-1502 | of members with the same name the last one counts, and the members are in the order of their names |
| JsonReader.OurReader.Parse | common/jsoncpp/lib_json/json_reader.cpp:1004-1048 | a document is read exactly when it starts, after an optional byte order mark, with a syntax tree, and then as the value of that tree; errors and exceptions as the grammar says |
| JsonRoundTrip.InsertLast | common/jsoncpp/lib_json/json_value.cpp:295-311 | inserting a name above all others appends it |
| JsonRoundTrip.IntToken | common/jsoncpp/lib_json/json_reader.cpp:1390-1415 | the text of an integer is one number token before any delimiter |
| JsonRoundTrip.ParseText | common/jsoncpp/lib_json/json_reader.cpp:1050-1140 | inside any text a value is read back, leaving what follows, or the limits of the reader are exceeded and it throws |
| JsonRoundTrip.ParseMembersText | common/jsoncpp/lib_json/json_reader.cpp:1440-1502 | members are read back one after the other into the ordered map |
| JsonRoundTrip.ReadIsNorm | common/jsoncpp/lib_json/json_reader.cpp:1440-1544 | what is read equals what was written exactly when all strings and names are valid UTF-8 |
| JsonRoundTrip.DocumentRoundTrip | common/jsoncpp/lib_json/json_reader.cpp:1004-1048 | the text of every value parses to that value with nothing left, or throws exactly beyond the limits |
| JsonDocument.WriteThenRead | common/src/Cache/NodeTreeWriter.h:42-47 | the writer's output, read by the reader, gives the value back under the exact conditions |
| SpanText.SpanStorable | common/src/NodePool/PoolManager.cpp:157-186 | the value of a span has its members in the order of their names and its integers in range |
| SpanText.SpanFits | common/jsoncpp/lib_json/json_reader.cpp:1440-1502 | the reader takes the text of a span exactly when no name is beyond its limit |
| SpanText.SpanTells | common/src/NodePool/TraceNode.h:184-195 | the value of a span, and what is read back of it, tells every annotation of its root and of every event in its place |
| SpanText.TextBulk | common/src/Cache/NodeTreeWriter.h:42-47 | the text of a value takes at most 12 bytes per character, 21 per number and the punctuation |
| TraceDelivery.WriteSpans | common/src/common.cpp:94-100 | each span is written as the text of its value |
| TraceDelivery.ReadsBack | common/src/common.cpp:94-100 | the text of a span is read exactly when its names are within the limit, and as its value exactly when all its annotations are valid UTF-8 |
| TraceDelivery.Accepted | common/src/common.cpp:77-92 | the spans accepted are some of those submitted, in order, none twice; each other one found memory and its frame over the maximum |
| TraceDelivery.FlushedBefore | common/src/common.cpp:77-92 | polls that each flush keep memory within the resident size, over any number of spans |
| TraceDelivery.RefusalsHold | common/src/common.cpp:77-92 | a span is refused only when those before it may have filled the buffer, and when each is flushed only when its own frame is over the difference of the limits |
| TraceDelivery.DeliverSpans | common/src/common.cpp:77-105 | for any polls after each span, given step by step, and a flush: it keeps the connection under the exact conditions of `Flush`, and then the collector is handed the frames accepted since the last reset; the packets it dispatches are their texts, in order, and read back as them; all of them when frames fit half its buffer, unless `parsePacket` refuses one it has been given |
| TraceDelivery.EveryOneArrives | common/src/common.cpp:77-105 | with room for all frames every span is accepted, and with half the collector's buffer for each and every packet accepted as many packets arrive as spans were sent |
| TraceDelivery.BracketsArrive | common/src/common.cpp:77-105 | nested thread-local pairs from a new agent, polls without error: one span per outermost bracket the pool has room for, with an event per inner bracket at its place and depth; the collector's packets are the texts of the accepted ones, in order, and read back as them; all arrive under the conditions of `EveryOneArrives` |
| TraceDelivery.CallsArrive | common/src/common.cpp:77-105 | any calls of the tracing interface from a new agent, polls without error: the spans are those the results call for, annotations included, and arrive in the same way |

## Left out

- Chunk.DataChunk.Append: a chunk is a value in the one list that holds it, so the identity of chunks and their sharing between lists are not captured
- Chunk.Chunks.CopyIntoNew: stated below 2^31 bytes with the chunk header, from where on the rounded 32-bit size wraps to 0; memory is taken to be available for every size
- Chunk.Chunks.CopyDataIntoChunks: stated below 2^31 bytes with the chunk header, for the same reason; what `checkCapacity` lets in without wrapping is far below
- Chunk.HasBit: bit tests and shifts are written as quotients and remainders
- TransLayer.TransLayer.CopyIntoSendBuffer: stated for spans whose size and the allocation bound fit 32 bits together, about 4.27 gigabytes; beyond, the 32-bit sum of the capacity check wraps
- TransLayer.TransLayer.ConnectRemote: addresses, sockets, name resolution and the reconnect delay are reduced to whether an attempt was made and what descriptor it yielded
- TransLayer.TransLayer.HandleEvents: `select` timing is a parameter; the status callback of a reset is not modelled
- Collector.MatchFullPacket: buffer sizes are below 2^31 - 8, where the `int32` offsets of the source do not wrap
- TraceDelivery.DeliverSpans: stated for texts that can be submitted, below about 4.27 gigabytes, like TransLayer.TransLayer.CopyIntoSendBuffer
- TraceAgent.Agent.Annotate: a null key, which the source itself reads, and the asynchronous context are not modelled
- Delivery.CalmDelivery: a run without error reads whole messages in each poll; messages that two polls share are covered by `Delivery.FlushDelivery`, which has no such premise
- TraceAgent.Agent.ChangeTraceStatus: a status outside the enumeration, which C++ leaves undefined, is converted like an `int`
- Collector.HandleClient: the handshake, logging, deadlines and the parsing of a packet's JSON are not modelled
- PoolSteps.InvAlways: per-root locks and the reuse of a freed root id during a child's start are not modelled
- MetaCache.SpanSender.GetMetaApiId: one consumer per sender, and a kind other than the one reserved for statement hashes, for which the source's type assertion fails
- MetaCache.Counter.Next: concurrent increments by other senders are left to the atomicity of the counter
- AgentRouter.InvClean: which agents have been idle long enough is arbitrary
- JsonReader.OurReader.ReadToken: a comment reads as an error token
- JsonReader.OurReader.ReadArray: comments, the values of reals, and error messages with the recovery after them are not modelled
- JsonReader.OurReader.ReadObject: comments, the values of reals, and error messages with the recovery after them are not modelled
- JsonReader.OurReader.ReadValue: comments, the values of reals, and error messages with the recovery after them are not modelled; a number that is not read as an integer is only reported as real
- JsonReader.OurReader.Parse: comments, the values of reals, and error messages with the recovery after them are not modelled
- JsonWriter.BuiltStyledStreamWriter.Write: comments, reals, non-empty indentation and the option to emit UTF-8 unescaped are not modelled
- TraceAgent.Agent.EndTrace: a span is the record handed to the connection; user trace options and contexts are not modelled
- Request counters, URL templates, error analysis and the trace limit: simple counters
- `compare_version`: a short comparison loop that would add only easy members
- The PHP extension and the Python binding beyond the thread-local start/end pair
- gRPC streams, server start-up and shutdown, configuration and logging
