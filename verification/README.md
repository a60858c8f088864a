# Verified model of the terminal transport, the server protocol and the terminal pools

The remote runner talks to a Python server through a pseudo-terminal that loses
and garbles bytes. Four layers make calls out of that, and this project models
each of them in the form the code has it and proves what the layer is for.
A second part covers the allocator of terminals, a third one the reader on top
of a Paramiko channel.

| files | what they model |
|---|---|
| tokenspec.dfy, tokenreader.dfy | the search for a token that may be split by one gap: what a match is, the automaton, and the matcher objects |
| sharedio.dfy, decimals.dfy, chunkspec.dfy, chunkcomm.dfy | the byte queue with two cursors, `int()` and padded numbers, frames with their acknowledgements, and the length-prefixed messages on top: as functions of the wire's content, and as objects that read in pieces of any size |
| transport.dfy, readerrors.dfy, stopandwait.dfy | what comes out of these layers: the byte queue over noisy frames, the round trip of messages, the error that reading ends with, and writer and reader as two processes |
| encodings.dfy, msgs.dfy | UTF-8, base64, and messages as text |
| cachespec.dfy, timedcache.dfy, caches.dfy | the cache that repeats unacknowledged replies, without and with its clock, and the set of retired uids |
| servers.dfy, clients.dfy, protocol.dfy | the server, the client, and both together over two queues that keep the order and may lose any message |
| servercomm.dfy | the server's reader, which repeats replies while it waits; its frames, its waits for acknowledgements, and what its output consists of |
| poolspec.dfy, pools.dfy, terminalpools.dfy | pools of terminals, and the allocator over all pools |
| paramikospawn.dfy | reading from a queue that another thread fills |

Objects of the code are classes with the same fields, and their methods are
proved against functions or relations on values; the larger results are lemmas
about those. `dafny verify dfyconfig.toml` checks everything.

## How the parts fit

- A class method that says `Outcome(r) == ...` equals the function of the same
  name in ChunkSpec for every content of the wire. Transport then proves what
  these functions do on a wire with frames, and EndToEnd composes all layers.
- `Servers.MsgServer` is proved to be where `Servers.Run` is after the same
  events; AtMostOnce and OneReply are about all such runs, and say what a reply
  is by the positions of the commands among the handled messages. `Clients.React`
  and `Servers.Step` are also the steps of the system in Protocol; what they send
  is said by CallSends and by NewRequest, RepeatedRequest and AcknowledgedOnceEach.
- TimedCache is the cache as a value, with its countdowns. `Caches.MsgCaches`
  keeps it in objects; `ServerComms.ServerComm` holds it beside the wire and
  writes the frames of what is due. In both a pass may be cut short.
- `Allocator.TerminalPools` keeps its pools as objects and as values; the
  invariant that every terminal is in the pool of its own key is part of
  `Valid()` and so holds after every operation.

## Where the code differs from what it says

- `_is_reply` looks at the request instead of the answer
  (`terminalclient.py:116-117`), so an acknowledgement may be returned as the
  answer. AckMayBeReturned gives such a run for every retry schedule, and
  AckReturnedExactlyWhen the condition on the events of a call.
- `set_maxsize` of a pool counts the surplus from the free terminals alone
  (`_pool.py:79`), so an accepted limit may be exceeded. LimitExceeded gives a
  pool, WithinNewSize the exact condition.
- `decr_shared` may take the counter below zero (`_pool.py:82-87`,
  `_pool.py:125-128`), as unsharing twice does (`_process.py:219-233`). Below zero
  counts as shared, and a share added then leaves the terminal free to be
  evicted: SharedButEvictable is the case, EvictableExactlyWhen the condition.
- A send may raise in the middle of `send_expired` (`msgcaches.py:24-29`), which
  then leaves its lap where it was. The entry that was sent, and every entry
  counted down before it, may go out before its wait is over, also after later
  whole passes: ThirdSendTooEarly, CountedTwice and EarlyAfterWholePass.
  EarlyExactlyWhen gives the times after any history, EarlyIffInDebt the
  condition, EarlyAfterCut the pass right behind the raise.
- While a reply of more than one frame waits for an acknowledgement the cache is
  not woken up (`servercomm.py:53`), so without input the repetitions need not
  end: `ServerComm.Drain` is the condition, TwoFramesAreLong a reply that fails it.
- The token finder asks for distinct bytes (`tokenreader.py:118-122`). It needs
  less: CorrectExactlyWhen is what one gap needs, DetectedExactly what is enough
  for all gaps, and WarnedToken the token that the finder does miss.
- An `ExecCommandReply` without argument sends the text of the placeholder
  object, so it does not come back as it was (`msgs.py:171-182`);
  RestoredExactlyWhen says which messages do.
- An exit request raises inside the loop's own `except`, so that a
  `FatalPythonErrorReply` goes out before serving ends (`servers.py:72-87`):
  ExitIsFatal, and ServingEndsExactlyWhen for all messages.
- A chunk length that `int()` refuses is a `ValueError`, which `read_str` does
  not catch (`chunkcomm.py:128`, `msgmanager.py:58-64`): LettersAsLength, and
  LengthRefusedExactlyWhen.

## Model

| member | source | states |
|---|---|---|
| TokenSpec.CorrectExactlyWhen | src/crl/interactivesessions/shells/remotemodules/tokenreader.py:169-230 | for every token and every gap g: the automaton reports a full match for exactly the streams that hold token[:g] and, later and without overlap, token[g:], if and only if in either group every border of a beginning goes on like that beginning does |
| TokenSpec.MatcherCorrect | src/crl/interactivesessions/shells/remotemodules/tokenreader.py:169-230 | for such a token and gap: full match if and only if the stream holds the two groups in order; the start is then the first occurrence of token[:g] |
| TokenSpec.DistinctIsFindable | src/crl/interactivesessions/shells/remotemodules/tokenreader.py:118-122 | tokens of distinct bytes, which the docstring asks for, are such tokens at every gap |
| TokenSpec.EqualBytesAreFindable | src/crl/interactivesessions/shells/remotemodules/tokenreader.py:118-122 | so are tokens of one repeated byte: distinct bytes are not needed |
| TokenSpec.HitIsMatch | src/crl/interactivesessions/shells/remotemodules/tokenreader.py:190-230 | for every token whatever: a full match at a gap is there, and the reported start is an occurrence of token[:g] |
| TokenSpec.DetectedExactly | src/crl/interactivesessions/shells/remotemodules/tokenreader.py:131-162 | for every token what the finder over all gaps detects is in the stream; and when the condition of CorrectExactlyWhen holds at each gap it detects every token there is, the latest gap included |
| TokenSpec.WarnedToken | src/crl/interactivesessions/shells/remotemodules/tokenreader.py:118-122 | the docstring's own example: a token that is in the stream and that the finder over all gaps does not detect |
| TokenSpec.MaxPassFull | src/crl/interactivesessions/shells/remotemodules/tokenreader.py:128-150 | for every token the maximum over all gaps reaches the token length exactly when some gap reports a full match |
| TokenSpec.PassGrows | src/crl/interactivesessions/shells/remotemodules/tokenreader.py:190-222 | no byte moves a matcher by more than one |
| TokenSpec.BlockIsSafe | src/crl/interactivesessions/shells/remotemodules/tokenreader.py:35-41 | for every token: a block shorter than len(token) - max_pass is not enough for a full match, so no block reads past the end of a token |
| TokenSpec.BlockIsLongest | src/crl/interactivesessions/shells/remotemodules/tokenreader.py:35-41 | for every token that block length is the largest safe one: some continuation of exactly that length completes the token |
| TokenSpec.TokenReadExists | src/crl/interactivesessions/shells/remotemodules/tokenreader.py:35-43 | a stream that holds the token has a shortest prefix that does, and a text before the token in it |
| TokenSpec.TokenReadUnique | src/crl/interactivesessions/shells/remotemodules/tokenreader.py:35-43 | the consumed length and the returned text are determined by the stream |
| TokenSpec.Resynchronises | src/crl/interactivesessions/shells/remotemodules/tokenreader.py:35-43 | if no proper prefix of r + token holds the token, reading r + token + rest consumes r + token and returns r |
| TokenSpec.ReadAgainFromToken | src/crl/interactivesessions/shells/remotemodules/tokenreader.py:35-43 | the returned text holds no token, and reading again from where the match starts returns nothing and consumes the same bytes |
| TokenFinder.FixedGapMatcher.Find | src/crl/interactivesessions/shells/remotemodules/tokenreader.py:194-222 | any block split gives the state of the byte-by-byte automaton, and under the condition of CorrectExactlyWhen full_match and match_start mean what MatcherCorrect says |
| TokenFinder.FixedGapMatcher.UpdateLast | src/crl/interactivesessions/shells/remotemodules/tokenreader.py:202-208 | the state after the second group's step, with the restart on a wrong byte |
| TokenFinder.FixedGapMatcher.UpdateFirst | src/crl/interactivesessions/shells/remotemodules/tokenreader.py:210-222 | the state after the first group's step, with the recursive retry of the byte that broke the match |
| TokenFinder.SingleGapMatcher.Find | src/crl/interactivesessions/shells/remotemodules/tokenreader.py:158-162 | for every token and any block split: a match is found if and only if the automaton of some gap is complete on the whole stream, although matchers with an earlier gap are skipped once a later one has matched; it is then in the stream, and with DetectedExactly's condition none is missed |
| TokenFinder.SingleGapMatcher.MaxPass | src/crl/interactivesessions/shells/remotemodules/tokenreader.py:128-150 | the maximum over the matchers, also when some of them lag behind |
| TokenFinder.SingleGapMatcher.MatchStart | src/crl/interactivesessions/shells/remotemodules/tokenreader.py:140-146 | an occurrence of the first group of the latest gap that reported a match; with that condition the first occurrence, for the latest gap that matches |
| TokenFinder.SingleGapMatcher.Reset | src/crl/interactivesessions/shells/remotemodules/tokenreader.py:164-166 | back to the state before any byte |
| TokenFinder.TokenReader.Accept | src/crl/interactivesessions/shells/remotemodules/tokenreader.py:37-41 | one round of the loop: remaining is what the token certainly still needs, and 0 exactly when it is detected |
| TokenFinder.TokenReader.Prefix | src/crl/interactivesessions/shells/remotemodules/tokenreader.py:42-43 | what is returned ends where the first group of the latest reported gap stands |
| SharedIo.SharedBytesIO.Read | src/crl/interactivesessions/shells/remotemodules/chunkcomm.py:191-195 | takes exactly the next bytes of the queue; bytes read so far are a prefix of the bytes written; what stays stored of them is at most max(MAX_BUFFER_SIZE, size) |
| SharedIo.SharedBytesIO.Write | src/crl/interactivesessions/shells/remotemodules/chunkcomm.py:202-203 | appends to the queue wherever the reading cursor stands in the shared stream |
| SharedIo.SharedBytesIO.CleanAlreadyRead | src/crl/interactivesessions/shells/remotemodules/chunkcomm.py:197-200 | compaction drops everything already read and is invisible to readers |
| SharedIo.SharedBytesIO.ReadableSize | src/crl/interactivesessions/shells/remotemodules/chunkcomm.py:205-207 | the difference of the cursors is what was written minus what was read |
| Decimals.PaddedParses | src/crl/interactivesessions/shells/remotemodules/chunkcomm.py:30-36 | a zero-padded number of any width is read back by int() |
| Decimals.PaddedLength | src/crl/interactivesessions/shells/remotemodules/chunkcomm.py:30-36 | a number below 10^w takes exactly w characters |
| Decimals.StrParses | src/crl/interactivesessions/shells/remotemodules/msgs.py:96-108 | str() of any integer, negative ones included, is read back by int() |
| ChunkIo.ChunkComm.ReadToken | src/crl/interactivesessions/shells/remotemodules/chunkcomm.py:147-154 | for every content of the wire, and every fragmentation of the reads: consumes the shortest prefix with the token and returns what stood before it, or times out when there is none |
| ChunkIo.ChunkComm.ReadFrame | src/crl/interactivesessions/shells/remotemodules/chunkcomm.py:123-133 | one round of the loop: header, payload, tokens and acknowledgement, with every error where the code raises it and what it leaves behind |
| ChunkIo.ChunkComm.ReadUntilSize | src/crl/interactivesessions/shells/remotemodules/chunkcomm.py:122-134 | unpacks frames until n bytes are there; the result, the buffer, the wire and the acknowledgements written are those of the specification |
| ChunkIo.ChunkComm.ReadRaw | src/crl/interactivesessions/shells/remotemodules/chunkcomm.py:140-145 | exactly n raw bytes, however they arrive |
| ChunkIo.ChunkComm.ReadAck | src/crl/interactivesessions/shells/remotemodules/chunkcomm.py:80-100 | four raw bytes that int() must read as the id of the frame, else ChunkReaderError |
| ChunkIo.ChunkComm.Write | src/crl/interactivesessions/shells/remotemodules/chunkcomm.py:55-78 | 2000 bytes a frame, ids modulo 10000, an acknowledgement awaited after every frame whose id is not 0 |
| Transport.FrameReads | src/crl/interactivesessions/shells/remotemodules/chunkcomm.py:122-159 | a frame with quiet rubbish before it is unpacked, acknowledged unless its id is 0, and nothing behind it is touched |
| Transport.UnpacksNext | src/crl/interactivesessions/shells/remotemodules/chunkcomm.py:122-134 | unpacking keeps the queue: buffer plus payloads to come |
| Transport.TakesFromQueue | src/crl/interactivesessions/shells/remotemodules/chunkcomm.py:122-134 | read_until_size takes the next n bytes of the queue and acknowledges exactly the frames that it unpacked |
| Transport.PiecesConcatenate | src/crl/interactivesessions/shells/remotemodules/chunkcomm.py:122-145 | for every sequence of read sizes the pieces concatenate to what was written, with quiet rubbish before any frame |
| Transport.WritesChunks | src/crl/interactivesessions/shells/remotemodules/chunkcomm.py:55-78 | write() puts all frames on the wire and takes exactly their acknowledgements off it |
| Transport.ChunksCoverAll | src/crl/interactivesessions/shells/remotemodules/chunkcomm.py:57-60 | the chunks concatenate to the string, and each fits the four digits of the header |
| StopAndWait.RunIsSafe | src/crl/interactivesessions/shells/remotemodules/chunkcomm.py:55-94 | over every interleaving of writer and reader on empty pipes, the reader taking byte after byte: no read raises, the acknowledgements agree across the wrap of the ids at 10000, at most 2 x 2068 bytes are written and not unpacked at any step, what was delivered is a prefix, and the run is finite |
| Transport.FrameWaits | src/crl/interactivesessions/shells/remotemodules/chunkcomm.py:122-145 | reading a frame waits for more until the last byte of the frame is there |
| StopAndWait.RunEndsWell | src/crl/interactivesessions/shells/remotemodules/chunkcomm.py:55-94 | some step is possible until everything is written, delivered and acknowledged |
| StopAndWait.NextKeeps | src/crl/interactivesessions/shells/remotemodules/chunkcomm.py:122-176 | every step keeps the invariant and decreases the measure |
| StopAndWait.AtMostTwoUnread | src/crl/interactivesessions/shells/remotemodules/chunkcomm.py:57-63 | two neighbouring frames cannot both go without acknowledgement |
| ChunkIo.StrComm.WriteStr | src/crl/interactivesessions/shells/remotemodules/msgmanager.py:54-56 | token, eleven digits of length, and the message, through the chunk writer |
| ChunkIo.StrComm.ReadToken | src/crl/interactivesessions/shells/remotemodules/tokenreader.py:35-43 | the token reader over the chunk reader: blocks of the missing length until the token is there |
| ChunkIo.StrComm.ReadStr | src/crl/interactivesessions/shells/remotemodules/msgmanager.py:58-71 | starts again after a length that is no number or rubbish among the chunks; any other error goes up |
| Transport.StrTokenFromQueue | src/crl/interactivesessions/shells/remotemodules/msgmanager.py:58-64 | reading the token through the chunk layer stops right behind it, though it reads in blocks |
| Transport.MessageFromQueue | src/crl/interactivesessions/shells/remotemodules/msgmanager.py:58-71 | rubbish without the token is skipped, and the next message is returned as written, tokens in it included |
| ReadErrors.LengthRefusedExactlyWhen | src/crl/interactivesessions/shells/remotemodules/chunkcomm.py:124-128 | behind any quiet rubbish, with anything after it: unpacking raises ValueError if and only if int() refuses the length in the header |
| ReadErrors.ErrorIsWireEnd | src/crl/interactivesessions/shells/remotemodules/msgmanager.py:58-71 | whatever is on the wire and already unpacked, and however many messages come out first: an error of read_str is the first one met by unpacking the wire frame by frame that is not misplaced rubbish |
| ReadErrors.ReadingEnds | src/crl/interactivesessions/shells/remotemodules/msgmanager.py:58-71 | reading message after message does come to that error, so it ends in ValueError exactly when the frames do |
| ReadErrors.LengthErrorGoesUp | src/crl/interactivesessions/shells/remotemodules/msgmanager.py:58-64 | behind any good frames and any buffer, a header whose length int() refuses makes reading fail with ValueError and nothing else |
| ReadErrors.LettersAsLength | src/crl/interactivesessions/shells/remotemodules/msgmanager.py:58-64 | a frame with letters for its length, on which read_str raises ValueError |
| ReadErrors.RubbishRefusedExactlyWhen | src/crl/interactivesessions/shells/remotemodules/chunkcomm.py:156-159 | where a token must stand, quiet rubbish before it raises ChunkReaderError, and nothing before it raises nothing |
| ReadErrors.FrameRefusedExactlyWhen | src/crl/interactivesessions/shells/remotemodules/chunkcomm.py:119-134 | a whole frame with rubbish before it, behind its header and behind its payload is unpacked if and only if the last two are empty, and else raises ChunkReaderError; the acknowledgement goes out unless the id is 0000 |
| ReadErrors.AckRefusedExactlyWhen | src/crl/interactivesessions/shells/remotemodules/chunkcomm.py:84-103 | four bytes are an acknowledgement if and only if int() reads them as the id, and any others raise ChunkReaderError; of the ids as frames carry them only the id itself is |
| ReadErrors.WriteRefusedExactlyWhen | src/crl/interactivesessions/shells/remotemodules/chunkcomm.py:60-68 | for every string and wire content: writing succeeds if and only if the wire begins with the acknowledgements of all its frames but those with id 0, in order |
| Transport.EndToEnd | src/crl/interactivesessions/shells/remotemodules/msgmanager.py:54-71 | any messages below 10^11 bytes written at one end are returned at the other in order and unchanged, one per call, with quiet rubbish before any frame; the writer consumes exactly the acknowledgements that the reader sends |
| Msgs.MsgMap.AddMsgcls | src/crl/interactivesessions/shells/remotemodules/msgs.py:30-33 | a class gets the next number and is found under it again |
| Msgs.SetMsgclses | src/crl/interactivesessions/shells/remotemodules/msgs.py:272-281 | every class of the protocol is numbered, consistently in both directions |
| Msgs.RoundTrip | src/crl/interactivesessions/shells/remotemodules/msgs.py:93-135 | whatever can be serialised is parsed into the same class, uid (negative ones included) and the received form of the argument; no argument, empty bytes and empty text stay distinct |
| Msgs.RestoredExactlyWhen | src/crl/interactivesessions/shells/remotemodules/msgs.py:93-183 | the message is restored if and only if it is no FatalPythonErrorReply and its argument is bytes, text, or absent in a message other than ExecCommandReply |
| Msgs.SerializesExactlyWhen | src/crl/interactivesessions/shells/remotemodules/msgs.py:93-183 | None and other objects can be sent as the result of a command only, and arrive as no bytes and as their text; everything else can be sent |
| Msgs.OnTheWire | src/crl/interactivesessions/shells/remotemodules/msgs.py:93-135 | two messages letter by letter |
| Encodings.TextRoundTrip | src/crl/interactivesessions/shells/remotemodules/msgs.py:120-135 | UTF-8 decoding undoes encoding |
| Encodings.Base64RoundTrip | src/crl/interactivesessions/shells/remotemodules/msgs.py:120-135 | base64 (section 4 of RFC 4648) decoding undoes encoding |
| Caches.ConsecutiveSet.Add | src/crl/interactivesessions/shells/remotemodules/msgcaches.py:86-96 | adds to a set of integers that is stored as its ends and its gaps |
| Caches.ConsecutiveSet.Contains | src/crl/interactivesessions/shells/remotemodules/msgcaches.py:98-100 | membership holds exactly for the integers that were added |
| Caches.ConsecutiveSet.Len | src/crl/interactivesessions/shells/remotemodules/msgcaches.py:102-103 | the stored size is max - min + 1 minus the number of distinct integers added |
| Caches.Monotonic.Time | src/crl/interactivesessions/shells/remotemodules/msgcaches.py:140-148 | the clock advances by exactly the raw step when the raw clock advances, and by 0.01 when it does not |
| Caches.MsgCache.SendExpired | src/crl/interactivesessions/shells/remotemodules/msgcaches.py:123-131 | counts down, or sends and takes the next wait of the schedule, the first of those left, or gives up after the last |
| Caches.MsgCaches.SendExpired | src/crl/interactivesessions/shells/remotemodules/msgcaches.py:24-29 | exactly the visited entries whose wait is over are sent or retired, none twice; a whole pass visits all of them and moves the lap; a send that raises ends the pass and leaves the lap where it was; either is a step of the histories of EarlyExactlyWhen |
| Caches.MsgCaches.Visit | src/crl/interactivesessions/shells/remotemodules/msgcaches.py:25-28 | one entry: the countdown from the lap, the send or the move to the retired uids, and every other entry unchanged |
| Caches.MsgCaches.Remove | src/crl/interactivesessions/shells/remotemodules/msgcaches.py:31-37 | an acknowledged entry leaves the cache and is remembered |
| Caches.MsgCaches.PushMsg | src/crl/interactivesessions/shells/remotemodules/msgcaches.py:21-22 | a fresh schedule with no wait before its first send |
| Caches.MsgCaches.MinTimeout | src/crl/interactivesessions/shells/remotemodules/msgcaches.py:46-58 | the shortest wait, infinite exactly when nothing is cached |
| TimedCache.NoneEarly | src/crl/interactivesessions/shells/remotemodules/msgcaches.py:24-29 | in a pass over a cache that is on time, whole or not, nothing is sent before the wait after its last send is over |
| TimedCache.PassOnTime | src/crl/interactivesessions/shells/remotemodules/msgcaches.py:24-29 | after a whole pass over a cache that is on time it is on time again |
| TimedCache.ScheduleFollowed | src/crl/interactivesessions/shells/remotemodules/msgcaches.py:106-131 | over every history: a reply that the schedule has sent k times since its push has the waits of the schedule from the k-th on left, in their order, and the wait that runs is the k-th: interval after each send but the last, timeout after the last, from that send on |
| TimedCache.NeverEarly | src/crl/interactivesessions/shells/remotemodules/msgcaches.py:24-29 | over every history in which no send has raised, and in the first pass in which one does: a reply is sent at its first visit, then at least interval after the send before and as often as tries says, and retired at least timeout after the last send |
| TimedCache.BooksBalance | src/crl/interactivesessions/shells/remotemodules/msgcaches.py:123-131 | over every history of pushes, acknowledgements, whole passes and passes cut short by a send that raises, the countdown of each reply ends before its wait does by the sum, over the passes that visited it since its last send, of the time from the lap after the pass to the visit |
| TimedCache.EarlyExactlyWhen | src/crl/interactivesessions/shells/remotemodules/msgcaches.py:24-29 | after any such history, in the next pass behind any other entries, a reply with a send left goes out early exactly at the times from the end of its wait less that sum to the end of its wait, which is interval, or timeout after the last, behind its last send |
| TimedCache.EarlyIffInDebt | src/crl/interactivesessions/shells/remotemodules/msgcaches.py:24-29 | so it can still go out early if and only if it has a send left, was sent, that sum is positive and its wait is not over |
| TimedCache.EarlyAfterCut | src/crl/interactivesessions/shells/remotemodules/msgcaches.py:24-29 | the times at which any entry of a pass that was cut short goes out early in the next: for one sent at n with wait w, from w behind the old lap to w behind n; for one only counted down at n, from where its countdown ends when the time up to n counts twice to the end of its wait |
| TimedCache.ThirdSendTooEarly | src/crl/interactivesessions/shells/remotemodules/msgcaches.py:24-29 | a schedule of ten seconds whose second send raises and whose third follows after 0.01 seconds |
| TimedCache.CountedTwice | src/crl/interactivesessions/shells/remotemodules/msgcaches.py:24-29 | a reply that another's raise made go out 3.97 seconds early |
| TimedCache.EarlyAfterWholePass | src/crl/interactivesessions/shells/remotemodules/msgcaches.py:24-29 | a reply that a whole pass after the raise did not put right |
| TimedCache.VisitsAreWakeUps | src/crl/interactivesessions/shells/remotemodules/msgcaches.py:24-29 | a pass wakes up exactly the entries whose wait is over |
| TimedCache.ShortestWaitWorks | src/crl/interactivesessions/shells/remotemodules/servercomm.py:50-54 | a pass after the shortest wait sends or retires some entry and strictly decreases the work left |
| TimedCache.TwoFramesAreLong | src/crl/interactivesessions/shells/remotemodules/chunkcomm.py:40-78 | a reply of 1970 bytes takes two frames, which is more than Drain allows |
| ServerComms.ServerComm.Drain | src/crl/interactivesessions/shells/remotemodules/servercomm.py:50-54 | with no input, frames and waits for acknowledgements included: the wake-ups end, each reply sent as often as its schedule still says and then retired, if and only if every reply that is still to be sent fits one frame; otherwise a wait for an acknowledgement lasts for any number of selects |
| CacheSpec.ExpireWorks | src/crl/interactivesessions/shells/remotemodules/msgcaches.py:123-131 | a due entry uses up exactly one unit of the sum of (sends left + 1) |
| CacheSpec.NoWorkLeft | src/crl/interactivesessions/shells/remotemodules/msgcaches.py:46-58 | that sum is 0 exactly when nothing is cached, which is when the timeout is infinite |
| CacheSpec.ExpireAllConserves | src/crl/interactivesessions/shells/remotemodules/msgcaches.py:24-37 | for every reply, sends made plus sends left is constant |
| CacheSpec.WholeSchedule | src/crl/interactivesessions/shells/remotemodules/msgcaches.py:106-131 | an unacknowledged reply is sent by its schedule exactly max(1, tries) times before it is retired |
| CacheSpec.ExpireAllRemembers | src/crl/interactivesessions/shells/remotemodules/msgcaches.py:24-37 | nothing leaves the cache without being remembered as removed |
| Servers.StepRemembers | src/crl/interactivesessions/shells/remotemodules/servers.py:72-111 | every event keeps: executed uids are cached or removed forever, each executed once, and everything sent is an acknowledgement, the last message, or the reply of that execution |
| Servers.AtMostOnce | src/crl/interactivesessions/shells/remotemodules/servers.py:72-111 | for every sequence of arrivals and wake-ups the handler of a replying request runs at most once per uid |
| Servers.OneReply | src/crl/interactivesessions/shells/remotemodules/servers.py:93-111 | all replies ever sent for a uid are the same, the answer to its one execution: for a command an ExecCommandReply with the value of all commands up to it, those without a reply included, in the order of their execution; for a request of the server id a ServerIdReply with that id |
| Servers.OneAnswer | src/crl/interactivesessions/shells/remotemodules/msghandlers.py:44-65 | what the answer to a request must be is determined by the requests handled up to it |
| Servers.NewRequest | src/crl/interactivesessions/shells/remotemodules/servers.py:72-104 | a request that is not known: one acknowledgement, one execution, and with the next wake-up its answer |
| Servers.RepeatedRequest | src/crl/interactivesessions/shells/remotemodules/servers.py:89-97 | a copy of a request whose reply is cached: one more acknowledgement and the same answer, without an execution |
| Servers.CommandWithoutReply | src/crl/interactivesessions/shells/remotemodules/msghandlers.py:67-70 | a command without a reply is executed each time it comes, and nothing is sent |
| Servers.AcknowledgedOnceEach | src/crl/interactivesessions/shells/remotemodules/servers.py:72-91 | over every run: of the messages with a uid that arrive while the server runs, acknowledgements, commands without a reply and errors aside, each is acknowledged exactly once, and nothing else is |
| Servers.AcknowledgedIsSilent | src/crl/interactivesessions/shells/remotemodules/msgcaches.py:31-37 | over every run: behind the acknowledgement of a cached reply nothing with its uid is sent again but acknowledgements and a fatal error |
| Servers.Announced | src/crl/interactivesessions/shells/remotemodules/servers.py:56-70 | the first thing sent is the server id, under uid -1 |
| Servers.ServingEndsExactlyWhen | src/crl/interactivesessions/shells/remotemodules/servers.py:72-111 | a received message ends serving if and only if it is an error, or no acknowledgement, not cached, and retired, no request or an exit request; and then the message of a fatal error goes out last |
| Servers.RaisingEndsServing | src/crl/interactivesessions/shells/remotemodules/servers.py:56-87 | an exception while a message is read or handled sends the fatal error and ends serving |
| Servers.EndedForGood | src/crl/interactivesessions/shells/remotemodules/servers.py:56-70 | when serving has ended nothing is executed or sent any more |
| Servers.ExitIsFatal | src/crl/interactivesessions/shells/remotemodules/servers.py:72-87 | an exit request to a new server: an acknowledgement, then a fatal error |
| Servers.HandlerRemembers | src/crl/interactivesessions/shells/remotemodules/msghandlers.py:44-70 | running a handler for an unknown uid keeps that |
| Servers.MsgServer.constructor | src/crl/interactivesessions/shells/remotemodules/servers.py:56-70 | serving starts with the server id in the cache, under uid -1, sent at once |
| Servers.MsgServer.HandleNextMsg | src/crl/interactivesessions/shells/remotemodules/servers.py:72-91 | the server object is where the specification is after the same events, a message that cannot be read or parsed and a send that raises included; when a request was executed its answer is among what was sent, unless a send raised |
| Servers.MsgServer.WakeUp | src/crl/interactivesessions/shells/remotemodules/servercomm.py:50-54 | the same for the wake-ups while it waits for a message, also when one of them raises; unless one does, every entry that is due is woken up |
| Servers.MsgServer.ReplyCachedOrHandleMsg | src/crl/interactivesessions/shells/remotemodules/servers.py:93-97 | the cached reply again; the end of serving when it was removed; the handler otherwise |
| Servers.MsgServer.HandleMsg | src/crl/interactivesessions/shells/remotemodules/servers.py:99-108 | each request class with its handler, whose answer is sent, and any other class ends serving |
| Servers.WokenByEvents | src/crl/interactivesessions/shells/remotemodules/msgcaches.py:24-29 | a pass over the cache is a run of single wake-ups |
| Clients.TerminalClient.SendAndReceive | src/crl/interactivesessions/shells/terminalclient.py:64-88 | a fresh uid; the request is written, then what CallSends says for the messages and timers of the call; the result is that of the first event that ends a call, which is the last; the timers are the waits of the schedule, one for each try, and the timeout of the caller once the request is acknowledged or all tries are over |
| Clients.TerminalClient.TryEach | src/crl/interactivesessions/shells/terminalclient.py:64-79 | the tries of a call, each with the next wait of the schedule, and the wait for the reply behind them |
| Clients.CallSends | src/crl/interactivesessions/shells/terminalclient.py:73-128 | for every call and whatever happens during it, what it sends behind its first send: the request once more for each timer that runs out while the call goes on unacknowledged and a send is left, and one acknowledgement for each message that is neither an acknowledgement nor a fatal error, whatever its uid, in the order of the events, and nothing else |
| Clients.TerminalClient.ReceiveUntilCondition | src/crl/interactivesessions/shells/terminalclient.py:105-128 | starts one timer; what comes is answered as CallSends says, whatever its uid, until something with the uid of the request comes, a fatal error does, or the timer runs out |
| Clients.TerminalClient.NextTry | src/crl/interactivesessions/shells/terminalclient.py:73-79 | the request goes out again while the schedule lasts |
| Clients.TerminalClient.ReceiveUntilReply | src/crl/interactivesessions/shells/terminalclient.py:81-99 | which exception the timer becomes, before and after the last try |
| Protocol.MoveKeeps | src/crl/interactivesessions/shells/terminalclient.py:64-128 | every step of client, server and lossy queues keeps the system invariant |
| Protocol.AnswerIntegrity | src/crl/interactivesessions/shells/terminalclient.py:64-121 | whatever a call returns carries its uid, and if it is no acknowledgement it answers the only execution of that call's request: an ExecCommandReply with the value of exactly the commands executed up to it, in order, its own last, or a ServerIdReply with the server id |
| Protocol.ExecutedInOrder | src/crl/interactivesessions/shells/remotemodules/servers.py:93-104 | requests are executed in the order of their calls, each at most once, and none that was not called |
| Protocol.NoRequestBehindAck | src/crl/interactivesessions/shells/terminalclient.py:105-128 | no copy of a request follows its acknowledgement in the queue to the server |
| Protocol.NoFalseAlreadyRemoved | src/crl/interactivesessions/shells/remotemodules/msgcaches.py:31-44 | a repeated request finds its reply removed, and so ends serving, only after the reply's whole schedule, max(1, tries) sends, had run out unacknowledged |
| Protocol.ScheduleKept | src/crl/interactivesessions/shells/remotemodules/msgcaches.py:106-131 | in every reachable state: sends made by the schedule plus sends left is max(1, tries), and a reply that left the cache unacknowledged was sent that often |
| Protocol.AckMayBeReturned | src/crl/interactivesessions/shells/terminalclient.py:116-117 | with every schedule some run, in which every new reply goes out at once, returns an acknowledgement as the answer of a call |
| Clients.AckReturnedExactlyWhen | src/crl/interactivesessions/shells/terminalclient.py:64-121 | for every call and whatever happens during it: an acknowledgement is the answer if and only if one for this call comes, before anything else ended the call, after another one or after the timers of all sends |
| Clients.CallStands | src/crl/interactivesessions/shells/terminalclient.py:64-128 | how a call ends, and where it stands before: the first event that can end it decides its outcome |
| ServerComms.ServerComm.Read | src/crl/interactivesessions/shells/remotemodules/servercomm.py:50-64 | at most one such call is active inside another, and only in an acknowledgement wait, which makes no pass and takes only its own bytes; outside one each select is followed by a pass over the cache, whole unless the call ends in it, so that what is due when the wait begins is written or retired before anything is read; a select that saw input is followed by a read |
| ServerComms.ServerComm.SendExpired | src/crl/interactivesessions/shells/remotemodules/msgcaches.py:24-29 | the entries whose wait is over are written or retired, each once; the lap moves only after a whole pass, and either kind of pass is a step of the histories of EarlyExactlyWhen; all messages are whole unless an acknowledgement is garbled or does not come |
| ServerComms.ServerComm.WriteStr | src/crl/interactivesessions/shells/remotemodules/chunkcomm.py:55-78 | nothing comes between the frames of a message; a message of one frame is always written whole; without input a longer one never is |
| ServerComms.ServerComm.ReadAck | src/crl/interactivesessions/shells/remotemodules/chunkcomm.py:167-172 | the wait takes four bytes and writes nothing; the flag is up as long as it lasts and down when it has ended, however it ended |
| ServerComms.ServerComm.WriteChunkAck | src/crl/interactivesessions/shells/remotemodules/chunkcomm.py:174-176 | the four bytes of the header's field go out as they are, and without the token's last byte they are a step of a run of RunIsProper |
| ServerComms.LogReadsBack | src/crl/interactivesessions/shells/remotemodules/chunkcomm.py:122-176 | an end that reads such output gets exactly the messages, in order, whatever acknowledgements stand between them |
| ServerComms.RunIsProper | src/crl/interactivesessions/shells/remotemodules/chunkcomm.py:55-78 | every run of calls that came to an end, and of acknowledgements without the token's last byte, wrote such output |
| ServerComms.ServerComm.OutputReadsBack | src/crl/interactivesessions/shells/remotemodules/chunkcomm.py:122-176 | so after such a run the output reads back as the messages that were sent, in order |
| Pools.Pool.Get | src/crl/interactivesessions/_pool.py:104-112 | a free terminal if there is one, else a new one while fewer than maxsize are in use; refused exactly otherwise |
| Pools.Pool.SetMaxsize | src/crl/interactivesessions/_pool.py:64-80 | refused exactly when more are in use or shared; else the limit is set and as many free unshared terminals go as the code counts |
| PoolSpec.TooLowExactlyWhen | src/crl/interactivesessions/_pool.py:75-78 | a limit is refused exactly when more terminals are in use or shared |
| PoolSpec.WithinNewSize | src/crl/interactivesessions/_pool.py:75-80 | the pool is within the limit just set if and only if nothing is in use or all was within it before |
| PoolSpec.LimitExceeded | src/crl/interactivesessions/_pool.py:75-80 | a pool of two terminals that accepts the limit 1 and keeps both |
| PoolSpec.EvictableExactlyWhen | src/crl/interactivesessions/_pool.py:119-128 | a free terminal may be evicted exactly when it was unshared without a share as often as it has shares now; with a share it is so kept if and only if its counter is not 0 |
| PoolSpec.SharedButEvictable | src/crl/interactivesessions/_pool.py:119-128 | unshared once too often and then put back as shared, a terminal has a share and may be evicted |
| Pools.Pool.RemoveNFree | src/crl/interactivesessions/_pool.py:170-191 | closes the smaller of n and the number of free unshared terminals, and nothing else |
| Pools.Pool.Put | src/crl/interactivesessions/_pool.py:114-117 | from in use to free; a KeyError, and no change, for any other terminal |
| Pools.Pool.PutIncrShared | src/crl/interactivesessions/_pool.py:119-123 | the same, with one share more |
| Pools.Pool.DecrShared | src/crl/interactivesessions/_pool.py:125-128 | one share less, below zero included |
| Pools.Pool.Remove | src/crl/interactivesessions/_pool.py:147-156 | a terminal of any state goes, and its shares with it |
| Allocator.TerminalPools.Size | src/crl/interactivesessions/_terminalpools.py:95-100 | the sum over the pools is the number of different terminals |
| Allocator.TerminalPools.GetPool | src/crl/interactivesessions/_terminalpools.py:117-131 | a new target gets a pool; the limit of the pool is set or refused |
| Allocator.TerminalPools.CleanFreeInRandomOrder | src/crl/interactivesessions/_terminalpools.py:153-164 | fails if and only if no pool has a free unshared terminal; a pool that lost its last terminal goes |
| Allocator.TerminalPools.CleanIfNeeded | src/crl/interactivesessions/_terminalpools.py:139-164 | fails if and only if the target has nothing free, the limit is reached and nothing is free and unshared; else, if room is needed, every pool loses half of its free terminals, or what of them is not shared, and no pool goes; only where that is nothing in every pool, one pool loses all that are not shared, and goes exactly if nothing is left in it |
| Allocator.TerminalPools.Get | src/crl/interactivesessions/_terminalpools.py:102-107 | exactly when it is refused, and otherwise whose terminal it gives; only free unshared terminals are closed, by the new limit of the target and then as CleanIfNeeded says; the terminals in use grow by just the one given; the common limit is kept |
| Allocator.TerminalPools.PutOp | src/crl/interactivesessions/_terminalpools.py:187-192 | putting back a terminal in use, or unsharing one that is still there, never fails; what each operation does to its pool; what shall not be stored is closed |
| Allocator.TerminalPools.Remove | src/crl/interactivesessions/_terminalpools.py:194-196 | the terminal goes if its pool is there |
| Allocator.TerminalPools.Close | src/crl/interactivesessions/_terminalpools.py:204-207 | every terminal is closed, in use or not |
| PoolSpec.CleanedItems | src/crl/interactivesessions/_terminalpools.py:143-159 | eviction takes exactly the closed terminals away |
| PoolSpec.CleanedInUse | src/crl/interactivesessions/_terminalpools.py:143-159 | no eviction, and no deletion of a pool, touches a terminal in use |
| PoolSpec.CleanedOn | src/crl/interactivesessions/_terminalpools.py:143-159 | successive evictions are one eviction |
| PoolSpec.InUseAtHome | src/crl/interactivesessions/_terminalpools.py:133-137 | a terminal in use is in the pool of its own key, which exists |
| Allocator.StepKeeps | src/crl/interactivesessions/_terminalpools.py:85-207 | every operation keeps the common limit and every terminal in the pool of its own target, and changes the terminals in use by just what it gives or takes back |
| Allocator.RunIsSafe | src/crl/interactivesessions/_terminalpools.py:85-207 | over every run of get, the put operations, remove, close, and limits not set below what there is: the limit is kept, the terminals in use are exactly those given and not yet back, and each is in use in the pool of its own target |
| Allocator.SharesOfStep | src/crl/interactivesessions/_terminalpools.py:166-196 | no operation changes the shares of a terminal that stays, but putting it back as shared and unsharing it, by one |
| Allocator.SharedOverRun | src/crl/interactivesessions/_terminalpools.py:143-196 | over every run: a free terminal that was there without a share may be evicted exactly when it has since been unshared as often as it was put back as shared |
| Allocator.TerminalPools.SetMaxsize | src/crl/interactivesessions/_terminalpools.py:85-86 | the new limit, a step of such a run when it is not below what there is |
| ParamikoReads.ParamikoSpawn.ReadNonblocking | src/crl/interactivesessions/shells/paramikospawn.py:55-65 | returned bytes are always the output so far without loss or repetition, for every timing of the filling thread; end of file is raised only when everything was returned, and then always; the timeout only with an empty buffer, and without taking anything |
| ParamikoReads.ParamikoSpawn.ReadQueueAndBuf | src/crl/interactivesessions/shells/paramikospawn.py:67-79 | one read of a positive size: something whenever the buffer holds something |
| ParamikoReads.ParamikoSpawn.ReadFromQueueUntilEndOrSize | src/crl/interactivesessions/shells/paramikospawn.py:104-116 | items are taken from the queue, in order, exactly as long as the bytes are too few, the end of file is not reached, and the queue is not found empty |

## Left out

- TokenFinder.SingleGapMatcher.Find: that no token is missed is stated under the condition of CorrectExactlyWhen at every gap, which both tokens in use meet. Over all gaps together some more tokens are never missed, such as aab, whose fault at one gap another gap makes up for; which ones is not stated.
- ServerComms.ServerComm.OutputReadsBack: nothing is said behind a message that was cut short, nor for acknowledgements that hold the last byte of the token.
- Protocol.AnswerIntegrity: does not exclude that the answer is an acknowledgement, because the code does not.
- Transport.EndToEnd: one direction at a time. An acknowledgement is read as four raw bytes, so two ends that write at once may take each other's data for it.
- StopAndWait.RunIsSafe: the pipes are empty at the start, and the four bytes of an acknowledgement come together, as they are written.
- Allocator.RunIsSafe: the common limit may be lowered below the present size, after which nothing is claimed until the pools are within it again.
- Servers.MsgServer.constructor: asks that the announcement of the server id fits one frame, which holds 32 hexadecimal digits. Acknowledgements of messages fit one frame too, so that sending them never raises.
- ServerComms.ServerComm.Drain: select returns when the shortest wait is over on the corrected clock; setting the raw clock back meanwhile is left out.
- Matchers are shared between readers of one token in the code; here each reader has its own. Every read starts with a reset.
- The read callback of the token reader: the loop of `read_until_token` stands at its two callers, over raw bytes and over the chunk layer.
- In the chunk and message layers running out of input is an error that loses the bytes read so far, as a timeout of the terminal is.
- An end of input that `os.read` reports as empty bytes, on which the code loops.
- Base64 input with characters outside the alphabet, which Python skips; lone surrogates; Python 2.
- What a command does: the reply is an unspecified function of the arguments of all commands executed so far. An exception of the command is one of its values.
- Contents and uid of the fatal error message, which are a parameter.
- Exit requests and commands without a reply in the two-sided system of Protocol; the server alone is modelled with them. The start-up exchange of the server id is there without its client half.
- Exceptions other than timeouts and the server's fatal error that end a call of the client.
- Messages of 10^11 bytes and more, whose length does not fit its eleven digits.
- Rounding of floating point: times are reals.
- Terminals: shells, properties, and what closing one does. Whether a terminal shall be stored is a parameter, a failing factory a possible outcome; identities of objects are not reused.
- Decoders, ANSI stripping and sending of `paramikospawn.py`; its thread is the order in which items can be taken.
- Interactive sessions, prompts, remote proxies, file transfer, logging and the Robot Framework keywords.
