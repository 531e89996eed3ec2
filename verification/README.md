# EventDance: a verified model of its state machines and wire formats

EventDance is an event and inter-process-communication library in C on top of GLib. This project models the parts of
it that decide something and proves what they keep:

- **The streaming JSON splitter** (`JsonAutomaton`, `JsonGrammar`, `JsonContext`, `JsonCompleteness`, `JsonSoundness`,
  `JsonStream`, `JsonFilter`). The pushdown automaton with its table of 30 states and 31 character classes is compared
  with a grammar of JSON trees and their renderings. A character string is emitted as one packet exactly when it is a
  text of the grammar, and any division of a stream into buffers gives the same packets. `JsonFilter.Filter` is the
  object with its mode stack in an array and its cache.
- **The poll thread** (`Poll`, `PollSafety`, `PollDelivery`). The epoll thread and the main-loop thread as interleaved
  steps over two locks, the shared event array and reference-counted sessions. What is promised is said about the log of
  events alone; separate theorems say that no report of epoll is dropped and when nobody can be left waiting.
- **HTTP framing** (`Hex`, `ChunkedDecoder`, `ChunkedEncoder`, `ChunkedGrammar`, `ChunkedEquivalence`, `HttpChunked`,
  `HttpHeaders`, `HttpContent`). The chunked decoder is compared with a grammar of chunked bodies and with the encoder;
  the search for the end of the headers, whose index moves both ways, with a naive search; and the assembly of a body
  from short reads with what the connection gave.
- **JSON-RPC** (`JsonRpc`, `JsonRpcPair`, `JsonRpcProgress`). Two endpoints, each with one table and one counter for
  both directions, over transports that lose, repeat, reorder and fail: what may happen, and what every step must do.
- **The connection pool** (`ConnectionPool`, `ConnectionPoolObject`, `ConnectionPoolRuns`). The pool object with the
  nested calls between streams and groups is proved against functions on its state, and those functions are proved to
  keep order, wake-ups and limits in every run.
- **Rate limiting and streams** (`Throttle`, `ThrottledStream`, `BufferedOutput`, `BufferedInput`, `SocketInput`).
  Bandwidth per clock second under any sharing of throttles, and bytes that are neither lost nor repeated. What a call
  tells its caller is said in terms of what the stream below answered, which is kept as history.
- **Long-polling frames** (`LongPolling`), also carried over the chunked encoding.

Code that updates fields in place is a class whose methods are proved against functions on values. The poll protocol
is a step relation, because two threads interleave inside its functions. The clock, the kernel, base streams, sockets
and clients are nondeterministic. All integers are unbounded except where a width matters: JSON-RPC ids, the target of
`%x` conversions and the `(guint)` casts have 32 bits.

`dafny verify dfyconfig.toml` checks the project.

## What the code does that one might not expect

- The number rows of the JSON table accept "1." and reject "0e1", unlike section 6 of RFC 8259; the grammar follows
  the table.
- Resetting the JSON filter does not empty its cache, so after a rejected character a filter that held an unfinished
  packet is not a fresh one; `JsonFilter.Filter.FeedLen` says exactly when it is.
- Dispatch tells the wake-up event from a session by comparing the descriptor of the interrupt pipe with the first
  field of the session, its reference count. `PollSafety.HangsIff`: the protocol can hang exactly when that descriptor
  is 2 or 3, which needs a process that closed its standard streams.
- The chunked branch of `process_read_content` shadows its result, so it never reports an error to its caller;
  `HttpChunked.ProcessChunkedBlock` returns true always, as the code does.
- The search for the end of the headers resumes three bytes before the end of the buffer. After blocks of fewer than
  three bytes that is a negative number, which the loop compares as an unsigned one: the next block is not searched at
  all. If that block completes the section, the end is found with the block after it if the search then resumes in the
  blank line, that is if at most two bytes of the body came too (`HttpHeaders.Resuming`); otherwise it is missed if the
  body has no CR or LF (`HttpHeaders.ResumingIff`). `HttpHeaders.ShortFirstBlock` gives inputs that are missed. The first
  search starts at position 12, so it misses a section that ends before that (`HttpHeaders.SectionAlone`).
- Outside the form of a header section the search can run in a circle for ever (`HttpHeaders.SearchCycles`);
  `HttpHeaders.SearchExact` says how it is told from one that ends.
- Within 256 bytes of the limit on headers a block is cut by what it lacks of a full one, so bytes are dropped:
  `HttpHeaders.HeaderReader.Receive` says how many, `HttpHeaders.ReceivedIff` when none are.
- A body that starts with CRLF can make the search end two bytes too late, namely when it arrives in the second half of
  the blank line (`HttpHeaders.BodyStartingWithBlankLine`, `HttpHeaders.ArrivalInSecondHalf`).
- A connection that the pool gives to a waiting request stays in the pool's group, because the removal is nested in an
  addition; recycling it is then refused (`ConnectionPoolRuns.GroupAfterGiving`). Moving a connection to another group
  leaves it in the idle queue exactly when it is idle and the group is not the pool (`ConnectionPoolRuns.RegroupingIff`);
  recycling it then lists it twice (`ConnectionPoolRuns.RecyclingTwiceIff`), which clients can bring about
  (`ConnectionPoolRuns.RegroupingAnIdleConnection`). Order, wake-ups and the maximum are kept even then.
- A pool can be left short of its minimum with no timer armed, because a socket that connects cancels the timer of one
  that failed: `ConnectionPoolRuns.ProvidedIff` says exactly when, `ConnectionPoolRuns.LeftShort` gives a run.
- A size field of a chunk is read as far as its first numeral, modulo 2^32, and a field of blanks is read as zero and
  ends the body; the grammar of `ChunkedGrammar` follows the code. `ChunkedEquivalence.DecodesIff` holds on all inputs.
- The distance of two times adds the absolute differences of their seconds and of their microseconds. Across the end of a
  second it is too large when the microseconds have fallen behind, so transfers may be closer than the latency
  (`Throttle.LatencyIff`), and the wait it advises may be too short (`Throttle.LatencyWaitTooShort`).
- Taking the minimum of a size and a call evaluates the call twice; the second result counts
  (`ThrottledStream.AskTwice`, `ThrottledStream.Limit`).
- After a transfer the advised wait is enough exactly when every throttle that has no room left will be in a later
  second by then (`ThrottledStream.ReliefIff`, `ThrottledStream.Transfer`). That is so after every refusal, and after a
  cut if the clock stays within one second until the last report; otherwise a throttle can be left full in the new
  second (`ThrottledStream.CutAcrossSeconds`).
- The length of a long-polling frame above 0xFFFF bytes is scanned on into the hexadecimal digits that follow the
  header. `LongPolling.HeaderBackIff` says exactly which frames come back, and `LongPolling.FramesBackIff` which
  sequences do; a payload that starts with no such digit is always among them.
- A base stream that is asked to flush while it flushes turns the request down, and the report of that makes the buffered
  output stream abort. `BufferedOutput.Stream.Run` shows that this cannot happen when callers go through the stream
  interface, which lets nobody in while an operation is in progress.
- The socket input stream uses one byte of the caller's buffer beyond the size it is asked for, exactly when it ends up
  holding a byte back; it leaves a zero there (`SocketInput.Stream.Read`).

## Model

| member | source | states |
|---|---|---|
| `JsonAutomaton.ProcessKeepsInv` | evd/evd-json-filter.c:271-459 | every transition of the table and every action keeps the mode stack in order: "done" only at the bottom, a key mode only on top, state and top mode in agreement, depth within the bound |
| `JsonAutomaton.RunSplit` | evd/evd-json-filter.c:307-459 | a run over a concatenation is the run over its parts in turn |
| `JsonCompleteness.TextIsAccepted` | evd/evd-json-filter.c:149-188 | every rendering of a JSON object or array within the depth bound, with any blanks, takes the automaton from its start to the end of one value |
| `JsonSoundness.Advance` | evd/evd-json-filter.c:149-188 | every move of the automaton inside a packet extends an unfinished text of the grammar by that character, or completes it |
| `JsonStream.FeedConcat` | evd/evd-json-filter.c:496-559 | feeding a concatenation emits the packets of the parts in order, up to the first rejected character |
| `JsonStream.AcceptedIsStream` | evd/evd-json-filter.c:496-559 | what is accepted from a fresh filter is grammar texts separated by blanks, then the unfinished packet; the packets emitted are those texts |
| `JsonStream.StreamIsAccepted` | evd/evd-json-filter.c:496-559 | every stream of grammar texts with blanks around them is accepted and emits exactly those texts |
| `JsonStream.OnePacketIffText` | evd/evd-json-filter.c:149-188 | a string is emitted as one packet by a fresh filter if and only if it is a text of the grammar of depth at most 127 |
| `JsonStream.PacketsIffStream` | evd/evd-json-filter.c:496-559 | a fresh filter ends between packets having emitted ps if and only if the input is a stream of ps |
| `JsonFilter.Filter.constructor` | evd/evd-json-filter.c:236-251 | a new filter is the fresh splitter |
| `JsonFilter.Filter.Push` | evd/evd-json-filter.c:271-283 | pushes onto the array stack as the automaton does; fails exactly when the bound is reached |
| `JsonFilter.Filter.Pop` | evd/evd-json-filter.c:285-296 | pops exactly when the top mode is the expected one |
| `JsonFilter.Filter.Reset` | evd/evd-json-filter.c:482-494 | everything but the cache goes back to the start |
| `JsonFilter.Filter.ProcessChar` | evd/evd-json-filter.c:306-459 | one character moves the object as the automaton moves, and notes where content starts |
| `JsonFilter.Filter.FeedLen` | evd/evd-json-filter.c:496-559 | a feed emits what the splitter emits; between feeds content started, cache not empty and state not GO coincide; after a rejection the object is valid exactly when nothing stale is cached |
| `JsonFilter.Filter.FeedDivided` | evd/evd-json-filter.c:496-559 | any division into buffers gives the packets, the position of the first error and the final state of the undivided stream |
| `Poll.Scrub` | evd/evd-poll.c:604-606 | exactly the events of the deleted session become null |
| `PollSafety.Processed` | evd/evd-poll.c:242-290 | a reported session that is not mistaken for the wake-up event survives the trial drop of a reference, gathers conditions that mean exactly what was reported (In for EPOLLIN or EPOLLPRI, Out, Hup, Err each for its own) and has exactly one callback scheduled |
| `PollSafety.Wrapped` | evd/evd-poll.c:176-199 | the wrapper drops the reference of the source and takes all conditions |
| `PollSafety.Dropped` | evd/evd-poll.c:608-628 | deleting takes the count to zero exactly at its last reference, whether or not a callback was scheduled |
| `PollSafety.StepKeeps` | evd/evd-poll.c:136-634 | every step of either thread keeps locks, counts, pointers and log in agreement, whatever the descriptor of the pipe |
| `PollSafety.Safety` | evd/evd-poll.c:136-634 | in every interleaving dispatch follows no pointer to a freed session, each session is freed once, no callback runs after del returns, and each callback gets the conditions that mean exactly the flags epoll reported for its session since the callback before |
| `PollSafety.NoCallbackAfterDel` | evd/evd-poll.c:581-634 | in every run a callback for a session comes before the return of the del that deletes it |
| `PollSafety.FreedOnce` | evd/evd-poll.c:146-174 | in every run a session is freed at most once |
| `PollSafety.ReferenceCount` | evd/evd-poll.c:136-174 | a live session's count is 2, plus 1 if a callback is scheduled; its pending conditions mean exactly the flags reported and not yet taken; if there are any, a callback is scheduled |
| `PollDelivery.StepKeepsOwed` | evd/evd-poll.c:206-298 | in every step of either thread a flag that epoll reported of a session and dispatch has not taken up is still ahead in the event array, unless the session is gone or being dropped |
| `PollDelivery.NothingDropped` | evd/evd-poll.c:206-298 | in every run with any descriptor but 2 and 3: when dispatch is done it has taken up every flag that epoll reported of every session not gone or being dropped, and while any was not given to a callback one is scheduled |
| `PollDelivery.PipeIsRead` | evd/evd-poll.c:206-222 | what is taken for the wake-up event empties a pipe rung at most 1024 times; nothing else reads it |
| `PollSafety.UrgentHelps` | evd/evd-poll.c:581-634 | short of quiet some thread can step, and its step brings the end of what is in progress nearer |
| `PollSafety.AlwaysQuiet` | evd/evd-poll.c:581-634 | from every state of the invariant a run ends every operation in progress: no deadlock on the two locks |
| `PollSafety.NeverHangs` | evd/evd-poll.c:225-298 | no reachable state is one that cannot be left |
| `PollSafety.HangsIff` | evd/evd-poll.c:206-222 | the protocol can hang if and only if the descriptor of the pipe is 2 or 3 |
| `Hex.ValuePrint` | evd/evd-http-connection.c:816-816 | the digits printed for a number denote it |
| `Hex.ScanPrint` | evd/evd-http-chunked-decoder.c:141-143 | scanning what was printed gives the number back when no digit follows within the field |
| `Hex.SpellsIff` | evd/evd-http-chunked-decoder.c:141-143 | a byte string spells a number, with digits of either case and any leading zeros, if and only if it consists of hexadecimal digits and its scanned value is that number |
| `Hex.PrintIs` | evd/evd-http-connection.c:816-816 | what is printed spells the number, in lower-case digits and without a leading zero |
| `ChunkedDecoder.DecodeIsPart` | evd/evd-http-chunked-decoder.c:119-238 | decoding into a bounded buffer is the beginning of decoding the whole input |
| `ChunkedDecoder.DecodeConcat` | evd/evd-http-chunked-decoder.c:119-238 | decoding a concatenation is decoding its parts in turn |
| `ChunkedDecoder.BulkCopy` | evd/evd-http-chunked-decoder.c:214-236 | copying n bytes at once is n single bytes |
| `ChunkedDecoder.SessionIsPart` | evd/evd-http-connection.c:611-631 | calls on any pieces with any room only ever do part of the whole run |
| `ChunkedDecoder.SessionEnds` | evd/evd-http-connection.c:611-631 | enough calls, each shown at least one byte and given room for one, do the whole run |
| `ChunkedEncoder.ChunkDecodes` | evd/evd-http-connection.c:804-841 | a chunk decodes to its content and leaves the decoder fresh |
| `ChunkedEncoder.RunDecodes` | evd/evd-http-connection.c:1061-1080 | every run of writes that ends the content decodes to the concatenated content, with the final CRLF unread |
| `ChunkedEncoder.RoundTrip` | evd/evd-http-connection.c:804-841 | the same for any input pieces and any positive output sizes |
| `ChunkedEncoder.SizeLineExact` | evd/evd-http-connection.c:816-816 | the size line tells the size if and only if it is below 2^32 |
| `ChunkedEquivalence.FieldTells` | evd/evd-http-chunked-decoder.c:124-148 | every size field that the decoder accepts says, by the grammar, the size that the decoder reads |
| `ChunkedEquivalence.FieldIsRead` | evd/evd-http-chunked-decoder.c:124-148 | whatever a size field says by the grammar, in either case and with blanks and zeros, the decoder reads |
| `ChunkedEquivalence.BodyRead` | evd/evd-http-chunked-decoder.c:100-249 | every chunked body of the grammar is decoded to its content, and nothing behind it is consumed |
| `ChunkedEquivalence.BodyFound` | evd/evd-http-chunked-decoder.c:100-249 | whenever the decoder finishes, the input begins with a chunked body of the grammar with that content and of that length |
| `ChunkedEquivalence.DecodesIff` | evd/evd-http-chunked-decoder.c:100-249 | a fresh decoder finishes with a content and a number of bytes consumed if and only if the input begins with a chunked body for this content of this length |
| `ChunkedEquivalence.FailsIff` | evd/evd-http-chunked-decoder.c:100-249 | it fails if and only if no continuation of what it has seen begins with a chunked body: never too early and never too late |
| `ChunkedEquivalence.BodyFits` | evd/evd-http-chunked-decoder.c:124-134 | a body whose size fields have at most nine characters stays within the header buffer |
| `HttpChunked.Converter.Reset` | evd/evd-http-chunked-decoder.c:251-263 | the decoder is fresh again |
| `HttpChunked.Converter.CopyContent` | evd/evd-http-chunked-decoder.c:214-236 | moves the most that chunk, input and room allow into the output array, after what is there |
| `HttpChunked.Converter.Turn` | evd/evd-http-chunked-decoder.c:119-238 | each turn of the loop consumes input, or ends the size field, which consumes nothing |
| `HttpChunked.Converter.Convert` | evd/evd-http-chunked-decoder.c:100-249 | terminates and does what the byte-at-a-time automaton does: state, bytes read, bytes written, verdict |
| `HttpChunked.ProcessChunkedBlock` | evd/evd-http-connection.c:603-645 | the do-while loop terminates and appends exactly the content of the block; done on the end and on an error |
| `HttpChunked.ReadBody` | evd/evd-http-connection.c:595-645 | blocks of any sizes give what decoding them all at once gives; reading is done exactly when that ends or fails |
| `HttpChunked.ReadChunkedBody` | evd/evd-http-connection.c:595-645 | blocks of any sizes of any chunked body of the grammar with short size fields, and of anything behind it, give a body equal to the content |
| `HttpChunked.ReadWritten` | evd/evd-http-connection.c:595-645 | blocks of any sizes of what any run of writes put on the wire give a body equal to the concatenated content |
| `HttpChunked.Writer.WriteChunk` | evd/evd-http-connection.c:804-841 | writes one encoded chunk by three writes, or a beginning of it when one of them fails |
| `HttpChunked.Writer.WriteContent` | evd/evd-http-connection.c:1052-1106 | a chunk unless empty, and the last chunk unless more is to come |
| `HttpChunked.Writer.WriteRun` | evd/evd-http-connection.c:1052-1106 | a run of writes puts the encoded run on the wire |
| `HttpHeaders.FirstMark` | evd/evd-http-connection.c:374-405 | the naive search: the first CRLFCRLF and no earlier one |
| `HttpHeaders.TurnAdvances` | evd/evd-http-connection.c:382-402 | on a header section every jump, forward or back, finds the end or gets nearer to it, and never passes it |
| `HttpHeaders.SearchExact` | evd/evd-http-connection.c:382-402 | on any buffer the search ends if and only if it has ended after as many turns as there are bytes |
| `HttpHeaders.SearchFinds` | evd/evd-http-connection.c:374-405 | on a header section, from any position up to the blank line, the search ends with what the naive search gives; from a negative one it gives nothing |
| `HttpHeaders.SectionAlone` | evd/evd-http-connection.c:374-405 | in a buffer that is just the section the end is found if and only if the start lies in the buffer |
| `HttpHeaders.FindEndHeadersMark` | evd/evd-http-connection.c:374-405 | the loop on any buffer and any start: its answer, or that it never ends; on a header section, the naive answer |
| `HttpHeaders.ResumePoint` | evd/evd-http-connection.c:456-459 | where a search that found nothing leaves off is not behind the end of the blank line |
| `HttpHeaders.CompletingIsEnough` | evd/evd-http-connection.c:407-459 | the blocks up to the one that completes the section determine where it ends |
| `HttpHeaders.HeaderReader.Receive` | evd/evd-http-connection.c:420-426 | the buffer grows by the bytes read, less what the limit makes it lose |
| `HttpHeaders.ReceivedIff` | evd/evd-http-connection.c:489-506 | nothing is lost if and only if the block does not start within 256 bytes of the limit |
| `HttpHeaders.HeaderReader.OnBlock` | evd/evd-http-connection.c:407-459 | any block is searched from where the last search left off; in a header section the answer is that of the naive search of the buffer if and only if the block is searched or there is nothing to find |
| `HttpHeaders.HeaderReader.ReadHeaders` | evd/evd-http-connection.c:407-459 | over any blocks, reads until a search answers, gives back all bytes read after the end it finds and says how many blocks it read |
| `HttpHeaders.Resuming` | evd/evd-http-connection.c:428-459 | for every division of a header section: the end that one naive search of everything finds is found in the block that completes the section if that block is searched, else in the next block if at most two bytes came after the section, and not at all if there is no next block; where there is no end none is found |
| `HttpHeaders.ResumingIff` | evd/evd-http-connection.c:428-459 | for bodies without CR and LF the end is found if and only if the first or the second of these holds |
| `HttpHeaders.ShortFirstBlock` | evd/evd-http-connection.c:458-458 | any one-line section whose first bytes, at most two, come by themselves is missed when it is complete and nothing follows |
| `HttpHeaders.BodyStartingWithBlankLine` | evd/evd-http-connection.c:382-402 | for every buffer whose body starts with CRLF: the answer is right from the first two bytes of the blank line and two bytes too long from the last two |
| `HttpHeaders.ArrivalInSecondHalf` | evd/evd-http-connection.c:382-402 | text two bytes before such a blank line leads to the wrong answer |
| `HttpHeaders.SearchCycles` | evd/evd-http-connection.c:382-402 | outside the form the search can run in a circle: after any text byte followed by six line feeds |
| `HttpContent.ContentReader.ReadNextContentBlock` | evd/evd-http-connection.c:561-593 | each block is placed at offset exactly content_read, whatever the short reads |
| `HttpContent.ContentReader.ReadBlock` | evd/evd-http-connection.c:646-661 | the data of a block follows what was read before; done if and only if the last read gave nothing or an error, the connection was closed, or the length is reached |
| `HttpContent.ContentReader.ReadAllContent` | evd/evd-http-connection.c:705-711 | the final buffer is the bytes read, in order, and never more than content_len; every read asked for the rest up to a block and followed one after which reading was not over, and the last one ended it; an empty body changes nothing |
| `JsonRpc.Endpoint.OnTransportError` | evd/evd-jsonrpc.c:618-658 | removes the invocation and ends it if it is an outgoing call |
| `JsonRpc.Endpoint.CallMethod` | evd/evd-jsonrpc.c:664-728 | refuses without a transport, else registers under the next id and writes the request, ending it if the write fails |
| `JsonRpc.Endpoint.OnMessage` | evd/evd-jsonrpc.c:227-358 | a request is registered under an own id and handed on; a response removes the entry it names and ends it with the outcome that its payload tells, or dereferences null if the entry is an incoming call |
| `JsonRpc.Endpoint.RespondFull` | evd/evd-jsonrpc.c:515-576 | answers with the remote id and removes the entry, only if it exists and has a context |
| `JsonRpcPair.ResponseFinds` | evd/evd-jsonrpc.c:316-328 | a response that finds an entry finds the outgoing call whose request brought it about, never an incoming call |
| `JsonRpcPair.HandedIsIncoming` | evd/evd-jsonrpc.c:532-571 | an id handed to the method callback never names an outgoing call |
| `JsonRpcPair.StepKeeps` | evd/evd-jsonrpc.c:227-728 | every call, delivery, answer and error at either endpoint keeps tables and log in agreement |
| `JsonRpcPair.Correlation` | evd/evd-jsonrpc.c:227-728 | in every run of fewer than 2^32 invocations each: calls end once, at their caller, by a transport error or by an answer to themselves with what it says (its result if that is not null and the error is null, its error if the result is null, a protocol error if both are not null); ids are fresh; no null result is dereferenced |
| `JsonRpcPair.CompletesOnce` | evd/evd-jsonrpc.c:303-358 | two completions of one call are the same event |
| `JsonRpcProgress.ResponseEnds` | evd/evd-jsonrpc.c:303-358 | a response that arrives for an open call ends it with what it tells; for any other call it does nothing |
| `JsonRpcProgress.ErrorEnds` | evd/evd-jsonrpc.c:618-658 | an error report ends the open call that has its id, and nothing else |
| `JsonRpcProgress.StepWaits` | evd/evd-jsonrpc.c:227-728 | every step keeps an entry in the table for every open call |
| `JsonRpcProgress.StepDoes` | evd/evd-jsonrpc.c:227-728 | every step does what it must: a call is refused for want of a transport or written, a request is handed on, a response ends its open call, an answer is sent as given under the id of the caller, an error ends its call |
| `JsonRpcProgress.EveryStepDoes` | evd/evd-jsonrpc.c:227-728 | the same for each step that can follow any run |
| `JsonRpcProgress.AnsweredOnce` | evd/evd-jsonrpc.c:515-658 | in every run an invocation that was answered, or whose transport failed, is never answered again |
| `ConnectionPoolObject.PoolObject.constructor` | evd/evd-connection-pool.c:136-166 | a new pool connects up to its minimum |
| `ConnectionPoolObject.PoolObject.CreateMinConns` | evd/evd-connection-pool.c:425-438 | connecting plus idle reach the minimum and nothing else changes but the retry id |
| `ConnectionPoolObject.PoolObject.SetStreamGroup` | evd/evd-io-stream.c:315-367 | only the stream's group changes: what the groups call back is without effect |
| `ConnectionPoolObject.PoolObject.GroupAdd` | evd/evd-io-stream-group.c:186-207 | nothing inside another add or remove; else the stream joins, unless it is a member |
| `ConnectionPoolObject.PoolObject.GroupRemove` | evd/evd-io-stream-group.c:213-234 | nothing inside another add or remove; else the stream leaves, unless it is in no group |
| `ConnectionPoolObject.PoolObject.GroupAddStream` | evd/evd-connection-pool.c:373-391 | a stream that joins is given to the first waiting request or becomes idle |
| `ConnectionPoolObject.PoolObject.GroupRemoveStream` | evd/evd-connection-pool.c:393-412 | a stream that leaves is no longer watched nor idle |
| `ConnectionPoolObject.PoolObject.ConnectionAvailable` | evd/evd-connection-pool.c:306-328 | serves the head of the queue and refills, or queues the connection |
| `ConnectionPoolObject.PoolObject.FinishRequest` | evd/evd-connection-pool.c:293-304 | the connection leaves the group only when no addition is in progress |
| `ConnectionPoolObject.PoolObject.GetConnection` | evd/evd-connection-pool.c:546-577 | the oldest idle connection at once, or a place at the end of the queue |
| `ConnectionPoolObject.PoolObject.SocketOnConnect` | evd/evd-connection-pool.c:440-483 | a connected socket joins and cancels the known timer; a failed one arms a timer |
| `ConnectionPoolObject.PoolObject.OnTimer` | evd/evd-connection-pool.c:425-438 | a timer that fires is spent, and the pool refills |
| `ConnectionPoolObject.PoolObject.Close` | evd/evd-io-stream.c:243-257 | a closed idle connection leaves the pool, which refills |
| `ConnectionPoolObject.PoolObject.Recycle` | evd/evd-connection-pool.c:612-626 | succeeds exactly for an open connection that is not in the pool's group while below the maximum |
| `ConnectionPoolRuns.StepFlows` | evd/evd-connection-pool.c:268-626 | every event, whatever clients do with groups, keeps order, wake-ups and limits |
| `ConnectionPoolRuns.StepKeeps` | evd/evd-connection-pool.c:268-626 | every event keeps the whole invariant, unless a client moves an idle connection out of the pool's group |
| `ConnectionPoolRuns.EveryRun` | evd/evd-connection-pool.c:293-328 | in every run requests are served in the order made, nothing waits while something is idle, what waits has a connecting socket or an armed timer, and connecting plus idle stay within the maximum |
| `ConnectionPoolRuns.EveryConsiderateRun` | evd/evd-connection-pool.c:293-412 | in every run in which no client moves an idle connection out of the group, idle connections are listed once, are open members and are on loan to nobody |
| `ConnectionPoolRuns.StepHappens` | evd/evd-connection-pool.c:268-626 | what each event does to queue, idle list, timers and served requests, said without the operations |
| `ConnectionPoolRuns.Refills` | evd/evd-connection-pool.c:425-438 | after every get, every timer, every close of a watched connection and every request served, connecting plus idle reach the minimum; no event leaves more sockets connecting than before or than the minimum |
| `ConnectionPoolRuns.ProvidedIff` | evd/evd-connection-pool.c:440-483 | that the minimum is there or a timer is armed is lost exactly when a socket connects while nobody waits, the minimum is not there and the timer it cancels is the only one |
| `ConnectionPoolRuns.LeftShort` | evd/evd-connection-pool.c:456-460 | a run of a new pool that ends below its minimum with nothing connecting and no timer |
| `ConnectionPoolRuns.GivenOnce` | evd/evd-connection-pool.c:293-304 | a connection is given only when nobody holds it, or by the recycling that returns it |
| `ConnectionPoolRuns.GroupAfterGiving` | evd/evd-connection-pool.c:293-328 | a connection given at once is in no group; one given to a waiting request stays in the pool's and cannot be recycled |
| `ConnectionPoolRuns.RegroupingIff` | evd/evd-io-stream.c:315-367 | moving a connection to a group keeps the invariant if and only if it is not idle or the group is the pool |
| `ConnectionPoolRuns.RecyclingTwiceIff` | evd/evd-connection-pool.c:612-626 | recycling it after that lists a connection twice if and only if it was idle |
| `ConnectionPoolRuns.RegroupingAnIdleConnection` | evd/evd-io-stream.c:328-340 | a run of a new pool that ends with a connection listed twice |
| `Throttle.TickSound` | evd/evd-stream-throttle.c:192-210 | a look at a clock that does not go back keeps the meaning of the counters; when the second has changed, the reported actual bandwidth is what went through in the second before |
| `Throttle.GrantCovers` | evd/evd-stream-throttle.c:256-262 | what is granted fits the bandwidth left in the second |
| `Throttle.ReportSound` | evd/evd-stream-throttle.c:304-321 | reporting what fits keeps every second within the bandwidth, the total equal to the sum and the time of the last transfer right |
| `Throttle.WaitEndsSecond` | evd/evd-stream-throttle.c:264-267 | the advised wait ends after the second in which a transfer was refused or cut |
| `Throttle.WaitNoLonger` | evd/evd-stream-throttle.c:264-267 | it ends at most 1001 microseconds into the next second; nothing is advised for a transfer granted in full; the larger of two waits is kept |
| `Throttle.GrantedIff` | evd/evd-stream-throttle.c:256-262 | later a request gets something if and only if there was room or the second has changed |
| `Throttle.LatencyIff` | evd/evd-stream-throttle.c:239-255 | the latency refuses a transfer if and only if the time since the last one, with twice what the microseconds have fallen behind, is less than the latency; it advises at most two milliseconds more than is missing and changes nothing otherwise |
| `Throttle.LatencyOverIff` | evd/evd-stream-throttle.c:212-221 | exactly from which moments on the latency refuses nothing any more |
| `Throttle.LatencyWaitIsEnough` | evd/evd-stream-throttle.c:251-254 | the advised wait ends a refusal by the latency if the microseconds have not fallen behind |
| `Throttle.LatencyWaitTooShort` | evd/evd-stream-throttle.c:212-221 | an input for which it does not |
| `Throttle.StreamThrottle.UpdateCurrentTime` | evd/evd-stream-throttle.c:192-210 | starts the counter again exactly when the second has changed |
| `Throttle.StreamThrottle.Request` | evd/evd-stream-throttle.c:223-302 | brings the counters up to date and answers with the grant and the larger of the two waits |
| `Throttle.StreamThrottle.ReportSize` | evd/evd-stream-throttle.c:304-321 | adds to the counter of the current second and to the total |
| `ThrottledStream.MaxTransferable` | evd/evd-throttled-input-stream.c:117-140 | the size left is the most that fits every throttle of the list; if it is zero, from the end of the advised wait on every throttle grants something; and once every throttle would, the fold over the whole list does |
| `ThrottledStream.ReliefIff` | evd/evd-stream-throttle.c:256-267 | waiting until a moment is enough if and only if every throttle has room or its second is over by then |
| `ThrottledStream.Limit` | evd/evd-throttled-output-stream.c:121-176 | the same over the double evaluation of the fold, which carries the first wait over on input and not on output; after a cut the wait outlasts the second it began in |
| `ThrottledStream.ReportAll` | evd/evd-throttled-input-stream.c:110-115 | every throttle's total grows by the size of the transfer, and its bandwidth is kept |
| `ThrottledStream.Transfer` | evd/evd-throttled-input-stream.c:142-202 | the stream below is asked exactly once, for what is granted, or not at all, and its answer is the result; what is moved is reported to all throttles; a transfer would block only when some throttle has nothing left; the advised wait is enough after a refusal, after a cut within one second, and in general exactly when every full throttle's second is over by then; a transfer begun when it is enough is granted at least one byte |
| `ThrottledStream.TryAgain` | evd/evd-throttled-output-stream.c:159-210 | after a refusal, the advised wait and no other traffic, the next transfer of at least one byte is granted at least one byte by the whole list |
| `ThrottledStream.TransferAmong` | evd/evd-throttled-output-stream.c:159-210 | an operation of one stream changes the totals of its own throttles and the stream below it only, and keeps all throttles in order |
| `ThrottledStream.RunStreams` | evd/evd-throttled-output-stream.c:159-210 | any sequence of operations of any streams sharing throttles: no throttle's bandwidth is exceeded in any second, and every total grows by exactly what the operations through that throttle moved |
| `ThrottledStream.CutAcrossSeconds` | evd/evd-stream-throttle.c:256-267 | a transfer cut in the last microsecond of a second and reported in the next one leaves a throttle refusing after the advised wait if and only if the transfer fills that throttle |
| `BufferedOutput.Stream.Fill` | evd/evd-buffered-output-stream.c:217-238 | appends all, or what the room allows when it may not grow |
| `BufferedOutput.Stream.Write` | evd/evd-buffered-output-stream.c:259-307 | tries the base stream exactly when nothing is buffered and flushing is automatic; the result is an error exactly when that failed, and else what it took and all of the rest that the room allows |
| `BufferedOutput.Stream.WriteAsync` | evd/evd-buffered-output-stream.c:309-362 | the same; the operation stays unfinished exactly when not all was accepted |
| `BufferedOutput.Stream.Flush` | evd/evd-buffered-output-stream.c:434-502 | tries a buffer that is not empty once; what the base stream takes leaves it from the front; a failure, exactly when the base stream failed or would block, ends the operation in progress |
| `BufferedOutput.Stream.FlushAsync` | evd/evd-buffered-output-stream.c:504-540 | a flush in progress covers all that was accepted before it and is sure to be driven on |
| `BufferedOutput.Stream.OnBaseStreamFlushed` | evd/evd-buffered-output-stream.c:381-415 | a flush succeeds only when every byte accepted before it was handed down; the code aborts exactly when a flush was turned down and its report comes while the base stream is flushing |
| `BufferedOutput.Stream.NotifyWrite` | evd/evd-buffered-output-stream.c:667-677 | tries the buffer exactly when a flush is in progress or flushing is automatic; accepts nothing and loses nothing |
| `BufferedOutput.Stream.SetAutoFlush` | evd/evd-buffered-output-stream.c:647-657 | switching flushing on tries the buffer at once |
| `BufferedOutput.Stream.Run` | evd/evd-buffered-output-stream.c:259-540 | in every interleaving the bytes accepted are those that the results told the callers, and are the bytes handed down followed by the buffer; every flush that succeeded was covered; nothing aborts when callers respect the operation in progress |
| `BufferedInput.Stream.Read` | evd/evd-buffered-input-stream.c:131-198 | pops from the front of the buffer followed by the base stream; the base stream is read exactly for what the buffer lacks, and the result is what the buffer had and what that read gave, or an error when both gave nothing |
| `BufferedInput.Stream.Unread` | evd/evd-buffered-input-stream.c:363-396 | pushes onto the front, exactly when there is room |
| `BufferedInput.Stream.Peek` | evd/evd-buffered-input-stream.c:363-396 | unreading what was just read with a request within the capacity works and restores the stream |
| `SocketInput.Stream.Settle` | evd/evd-socket-input-stream.c:213-246 | a full buffer gives its last byte to the bag, anything else empties the bag |
| `SocketInput.Stream.Read` | evd/evd-socket-input-stream.c:177-262 | bytes received are bytes delivered followed by the held byte, whatever the socket gives; the socket is asked for one byte ahead; the result, the held byte and whether the socket is drained follow from its answer alone; the byte of the buffer behind what was asked for is written to exactly when one is held |
| `LongPolling.WriteHeader` | evd/evd-longpolling-server.c:393-426 | the bytes of the header array |
| `LongPolling.ParseContent` | evd/evd-longpolling-server.c:220-234 | the loop terminates on any content and hands on what the headers say |
| `LongPolling.HeaderBack` | evd/evd-longpolling-server.c:149-189 | the reader recovers the length that the writer wrote, in all three forms, for frames that start with no digit when they are long |
| `LongPolling.HeaderSays` | evd/evd-longpolling-server.c:393-426 | what the writer writes says the length by the definition of the format |
| `LongPolling.ReadsWhatIsSaid` | evd/evd-longpolling-server.c:149-189 | the reader takes every header of the format, in digits of either case and with blanks or zeros, and ignores the bit for more fragments |
| `LongPolling.NoNumberKeepsLast` | evd/evd-longpolling-server.c:149-189 | a long header without a number leaves the length as it was for the frame before |
| `LongPolling.HeaderBackIff` | evd/evd-longpolling-server.c:149-189 | it recovers the length of any frame before anything if and only if the frame has at most 0xFFFF bytes or the digits behind the header leave the length as it is modulo 2^32 |
| `LongPolling.FramesBack` | evd/evd-longpolling-server.c:220-234 | for every sequence of frames of at most 0xFFFF bytes, or longer and starting with no digit, the parse loop recovers the same frames in order and consumes all bytes |
| `LongPolling.FramesBackIff` | evd/evd-longpolling-server.c:220-234 | for every sequence of frames it does so if and only if each length survives what is written after it |
| `LongPolling.LongFrameOfDigits` | evd/evd-longpolling-server.c:187-187 | every frame of more than 0xFFFF and less than 2^28 bytes that starts with exactly one hexadecimal digit is misread, and as what |
| `LongPolling.FramesOverChunks` | evd/evd-longpolling-server.c:449-540 | frames sent in a chunked response are recovered by decoding and parsing |

## Left out

- HttpChunked.Converter.Convert: size fields of more than nine characters, because the header buffer has ten.
- HttpChunked.ProcessChunkedBlock: the same size fields.
- HttpHeaders.Resuming: the outcome when the completing block was not searched, brought three or more bytes of a body with CR or LF in it, and more blocks follow: the search then starts in the body, and `HttpHeaders.HeaderReader.ReadHeaders` says what it does there but not whether that is right.
- HttpHeaders.HeaderReader.ReadHeaders: blocks that start within 256 bytes of the limit and lose bytes; `OnBlock` covers them one by one.
- SocketInput.Stream.Read: a buffer without room for the byte ahead, which the code may use.
- Hex.ScanPrint: the sign and the "0x" prefix that scanf also accepts cannot be printed by the writers and are not modelled.
- `evd_poll_stop`, `evd_poll_mod` and failing `epoll_ctl`: shutdown and error paths; callers of the modelled functions run on one main-loop thread.
- The JSON filter after its first error, characters above 127, and feeding it from its own packet callback.
- JSON-RPC ids are numbers here; the code prints them in decimal as keys and compares the strings, which comes to the same.
- Notifications and malformed JSON-RPC messages: they touch neither the table nor the counter.
- TLS in the pool, its disposal, and clients that add streams through the group interface instead of recycling.
- Changing the bandwidth or latency of a throttle in use, and what throttles with a latency do as a list: `Throttle.LatencyIff` and what follows it are about one throttle.
- Reading content in pieces chosen by the caller, asynchronous reads of the buffered input stream, and closing streams.
- libsoup's parsing of headers and URIs, cookies, authentication, the daemon, D-Bus, resolver and PKI files, peers, services and promises: foreign parsers or smaller list logic.
