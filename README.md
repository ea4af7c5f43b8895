# Protohackers servers, modelled in Dafny

This project models the core of five TCP/UDP servers written in Rust for the Protohackers
challenges. Each server has its own module:

- `PrimeServer` (protohacker1): a "prime time" server. It reads newline-terminated JSON
  requests into a growable, compacting byte buffer, decides primality by trial division, and
  answers each request. On the first malformed request it sends the error reply and hangs up.
- `PriceStore` (protohacker2): a "means to an end" server. It reads fixed 9-byte big-endian
  frames that either insert a timestamped price into the session's own store or query the mean
  price over a timestamp range. Each query is answered with a 4-byte big-endian mean.
- `Chat` (protohacker3): a "budget chat" room. A client sends a username, which is validated
  and checked for uniqueness. The client then receives the roster. Joins, messages and leaves
  are broadcast to every other member by a sender thread that drains a FIFO channel.
- `KvStore` (protohacker4): a "unusual database" UDP key/value store. `key=value` inserts,
  anything else is a query answered with `key=value`, and the `version` key cannot be changed.
- `Proxy` (protohacker5): a "mob in the middle" proxy. It forwards chat lines, replacing each
  accepted Boguscoin address with Tony's address.

Three modules are shared:

- `Bytes`: bytes, `Option`/`Result`, a first-index search, and an array copy.
- `Stream`: a connection's input as a sequence of reads. `Data(bytes)` is one successful
  `read`. `Failed` is a read error. The end of the sequence is end-of-file. A read never returns
  more bytes than the buffer has room for, so the remainder stays queued (`Pull`).
- `LineFramer`: the `readline` function used by both protohacker3 and protohacker5. Their
  copies are the same apart from the file they live in.

Data are bytes (`seq<byte>` with `byte = 0..255`), not Rust `String`s. The sockets are the
`seq<Read>` input and the byte sequences each method returns or appends. The chat room is
modelled as one sequential `Room` object:

- `clients` maps each member's name to the lines written to that member;
- `queue` is the channel of pending events;
- `ProcessOne` is one step of the sender thread.

Each imperative loop of the source is a `method` with a `while` loop. It is proved against a
specification function: `ReadLineSpec`, `Run`, `Session`, `Forwarded`, `AfterRead`,
`Rewrite`. The properties that matter are proved as lemmas about those functions. The one
exception is the sender thread's loop (protohacker3/src/main.rs:76-100): `ProcessOne` is one
pass of it, with no loop, and draining the whole channel is stated by `BroadcastOrder` over
the specification functions `Broadcast` and `Observed`.

Where the code and the written description of the system disagree, the model follows the code:

- the roster line starts with the separator (`"*Welcome. Users in room: , alice, bob\n"`);
- a rejected username closes the connection without sending anything;
- a query with `mintime > maxtime` answers 0;
- `readline` drops whatever follows the first newline in the same read;
- only the first insert of a timestamp counts (`or_insert`).

## Model

| member | source | states |
|---|---|---|
| Stream.Pull | protohacker3/src/main.rs:36-40 | one `read` into a buffer with `room` free bytes returns at most `room` bytes and consumes input; on end-of-file it returns an empty read |
| Stream.PullDelivered | protohacker3/src/main.rs:36-40 | what a read returns, followed by what is still queued, is exactly what the stream delivers; a failed or empty read means nothing more is delivered, and the stream's ending (failure or close) is kept |
| Stream.SplitChunkDelivered | protohacker3/src/main.rs:36-40 | splitting an oversize chunk at the buffer size keeps both the delivered bytes and the way the stream ends |
| Bytes.FirstIndex | protohacker4/src/main.rs:10-25 | the search finds nothing exactly when the byte is absent; otherwise it gives the position of the byte's first occurrence |
| Bytes.FirstIndexAppend | protohacker1/src/main.rs:126 | searching `a + b` finds the first occurrence in `a` if there is one, otherwise `|a|` plus the first occurrence in `b` |
| Bytes.CopyInto | protohacker4/src/main.rs:36-37 | copying `d` into an array at `at` writes exactly `d` there and leaves every other cell unchanged |
| LineFramer.ReadLineFrom | protohacker3/src/main.rs:33-53 | one `readline` call consumes at least one read whenever it returns a line, and never more input than it was given |
| LineFramer.FrameOfMeaning | protohacker3/src/main.rs:33-53 | the outcome of reading a line from delivered bytes `s`: a line exactly when a newline is among the first 1024 bytes (the line is then shorter than 1024, has no newline, and is followed by one in `s`); "message too large" exactly when the first 1024 bytes hold no newline; otherwise a read error or hang-up, according to how the stream ended |
| LineFramer.ReadLineFromIsFrameOf | protohacker3/src/main.rs:33-53 | the chunk-by-chunk loop gives the same outcome as framing everything the stream delivers at once |
| LineFramer.ChunkWithNewline | protohacker3/src/main.rs:41-46 | a chunk that holds a newline ends the line at that newline, whatever is delivered later |
| LineFramer.ChunkFillsBuffer | protohacker3/src/main.rs:49-52 | 1024 bytes without a newline mean "message too large" |
| LineFramer.ReadLineMatchesStream | protohacker3/src/main.rs:33-53 | `readline` on a stream is the framing of its delivered bytes, ended by failure or by close |
| LineFramer.ReadLineOkIsLine | protohacker3/src/main.rs:41-46 | a returned line is shorter than 1024 bytes, has no newline, and is followed by a newline in the stream |
| LineFramer.ReadLineDropsRestOfRead | protohacker3/src/main.rs:41-46 | bytes after the newline in the same read are dropped: the next call starts with the next read |
| LineFramer.LinesStep | protohacker3/src/main.rs:128-135 | the lines a loop of `readline` calls receives are the first line followed by the lines of the remaining input, until the first error |
| LineFramer.LinesAdvance | protohacker3/src/main.rs:128-135 | after one successful line, the lines received so far followed by the remaining lines are unchanged |
| LineFramer.ReadLineFromChunk | protohacker3/src/main.rs:35-48 | one iteration of the loop: a newline in the chunk ends the line, a full buffer fails with "message too large", otherwise reading continues with the buffer extended |
| LineFramer.ReadChunk | protohacker3/src/main.rs:35-48 | the array version of one iteration agrees with `ReadLineFrom`: the outcome it decides now, or the bytes it has buffered so far |
| LineFramer.ReadLine | protohacker3/src/main.rs:33-53 | the imperative `readline` over a 1024-byte array returns exactly the line and remaining input of `ReadLineSpec` |
| Chat.ValidateUsername | protohacker3/src/main.rs:55-65 | a username is valid exactly when it is non-empty and every byte is an ASCII letter or digit |
| Chat.AlphanumericAt | protohacker3/src/main.rs:60-64 | the byte-by-byte loop accepts exactly when every byte is ASCII alphanumeric |
| Chat.UsernameExamples | protohacker3/src/main.rs:55-65 | the empty name, `a b`, `a_b` and a name with a non-ASCII letter are rejected; `alice123` is accepted |
| Chat.RejectedAt | protohacker3/src/main.rs:60-64 | a single non-alphanumeric byte anywhere rejects the name |
| Chat.RenderIsOneLine | protohacker3/src/main.rs:82-95 | every rendered event of a valid user with a newline-free message is one line ending in a newline |
| Chat.NameOnOneLine | protohacker3/src/main.rs:55-65 | a valid username holds no newline |
| Chat.SplitAtName | protohacker3/src/main.rs:82-95 | a valid name followed by a non-alphanumeric byte can be split off a rendered line in one way only |
| Chat.SentInjective | protohacker3/src/main.rs:91-93 | `[name] text` determines both the sender and the text |
| Chat.AnnounceInjective | protohacker3/src/main.rs:83-90 | `* name …` determines the name |
| Chat.RenderInjective | protohacker3/src/main.rs:82-95 | two well-formed events that render to the same line are the same event, so a receiver can tell who joined, left or sent what |
| Chat.JoinNamesCons | protohacker3/src/main.rs:149-151 | the fold puts `", " + name` before the names that follow |
| Chat.SplitJoinNames | protohacker3/src/main.rs:149-151 | joining valid names with the leading-separator fold and splitting at the separators gives the names back |
| Chat.RosterRoundTrip | protohacker3/src/main.rs:149-153 | the names can be read back from the roster line, in the map's order |
| Chat.RosterExamples | protohacker3/src/main.rs:149-153 | the empty room's roster is `"*Welcome. Users in room: \n"`; a room with one member starts the list with `", "` |
| Chat.BroadcastOrder | protohacker3/src/main.rs:76-100 | after the sender thread drains a sequence of events, each member has received, in order, the rendering of every event it did not cause; the set of members is unchanged |
| Chat.FanOutMember | protohacker3/src/main.rs:68-74 | one broadcast appends the message to every member but the originator, and leaves the originator's output unchanged |
| Chat.ObservedExcludesOwn | protohacker3/src/main.rs:70-72 | a member sees one line for each event it did not cause; when the events are well-formed, no rendering of its own events is among them |
| Chat.ObservedCount | protohacker3/src/main.rs:70-72 | a member sees as many lines as there are events by others |
| Chat.ObservedFrom | protohacker3/src/main.rs:70-72 | every line a member sees is the rendering of some event by another user |
| Chat.SentAll | protohacker3/src/main.rs:132 | each received line becomes one `Sent` event of that user, in order |
| Chat.AddThenRemove | protohacker3/src/main.rs:137-138 | inserting a new member and later removing it restores the map |
| Chat.Room.constructor | protohacker3/src/main.rs:188-189 | the room starts with no members and an empty channel |
| Chat.Room.Handshake | protohacker3/src/main.rs:103-119 | the handshake reads one line; a framing error is passed on; the line is accepted exactly when it is a valid name not yet in the room; an accepted name was sent by the client, followed by a newline |
| Chat.Room.RoomDescription | protohacker3/src/main.rs:143-156 | the roster sent lists exactly the current members, in the map's iteration order |
| Chat.Room.Register | protohacker3/src/main.rs:170-180 | the member is inserted with the welcome and roster lines already written to it, and a `Joined` event is queued |
| Chat.Room.Admit | protohacker3/src/main.rs:168-180 | the roster sent to a newcomer lists the other members and not the newcomer; the newcomer is then registered and announced |
| Chat.Room.Post | protohacker3/src/main.rs:132 | a received message is queued as a `Sent` event and the members are unchanged |
| Chat.Room.Leave | protohacker3/src/main.rs:137-139 | the member is removed and a `Left` event is queued |
| Chat.Room.SendToAllBut | protohacker3/src/main.rs:68-74 | the message is written to every member but one; that member and the channel are unchanged; no member is added or dropped |
| Chat.Room.ProcessOne | protohacker3/src/main.rs:76-100 | one step of the sender thread takes the oldest event from the channel and fans its rendering out to everyone but its originator |
| Chat.Room.ReceiveMessages | protohacker3/src/main.rs:122-140 | every line until the first read error or hang-up is queued as `Sent`, in order, and then the member is removed and `Left` is queued |
| Chat.Room.HandleStream | protohacker3/src/main.rs:158-183 | a rejected client leaves the room and the channel unchanged; an accepted one queues `Joined`, its messages and `Left`, and leaves the member map as it found it |
| Chat.Room.TryAdmit | protohacker3/src/main.rs:112 | the corrected admission: validation, the uniqueness check and the insertion happen in one step, so a name is admitted exactly when it is valid and not present |
| Chat.AdmissionRace | protohacker3/src/main.rs:111-116 | two clients that both send `carol` both pass the handshake before either is inserted; the second roster lists `carol`, and after the first `carol` leaves, the second one is no longer in the map |
| Chat.CarolSendsHerName | protohacker3/src/main.rs:106 | a client that sends `carol\n` is read as the line `carol` |
| Chat.AtomicAdmission | protohacker3/src/main.rs:112 | with the corrected admission, the second `carol` is refused |
| PriceStore.ParseType | protohacker2/src/main.rs:13-19 | `I` is an insert, `Q` a query, and every other byte is invalid |
| PriceStore.SliceToI32Be | protohacker2/src/main.rs:80-86 | four bytes are read as a big-endian two's-complement 32-bit integer: negative exactly when the top bit is set |
| PriceStore.ToBeBytes | protohacker2/src/main.rs:119 | the reply is the four big-endian bytes of the mean, with the sign in the top bit |
| PriceStore.DecodeEncode | protohacker2/src/main.rs:80-86 | decoding the big-endian encoding of any `i32` gives it back |
| PriceStore.EncodeDecode | protohacker2/src/main.rs:80-86 | encoding the decoding of any 4 bytes gives them back |
| PriceStore.EncodeCommand | protohacker2/src/main.rs:33-44 | an insert or query frame is 9 bytes |
| PriceStore.ParseEncode | protohacker2/src/main.rs:33-44 | parsing the frame of any insert or query gives the command back |
| PriceStore.EncodeParse | protohacker2/src/main.rs:33-44 | a 9-byte frame whose type byte is `I` or `Q` is the encoding of its parse |
| PriceStore.Count | protohacker2/src/main.rs:53-61 | an empty or inverted range selects nothing, and a range selects at most one price per timestamp |
| PriceStore.CountIsSelected | protohacker2/src/main.rs:53-61 | the count is the number of stored timestamps within the inclusive range |
| PriceStore.SumWithin | protohacker2/src/main.rs:53-61 | when every selected price lies between `low` and `high`, the sum lies between count times `low` and count times `high` |
| PriceStore.SumFitsI64 | protohacker2/src/main.rs:56-59 | the `i64` accumulator of the query cannot overflow |
| PriceStore.TruncDiv | protohacker2/src/main.rs:64 | `i64` division truncates toward zero |
| PriceStore.TruncDivWithin | protohacker2/src/main.rs:64 | the truncated average of values between `low` and `high` lies between them |
| PriceStore.Mean | protohacker2/src/main.rs:48-67 | a query that selects nothing (including `mintime > maxtime`) answers 0 |
| PriceStore.MeanIsTruncatedAverage | protohacker2/src/main.rs:62-66 | otherwise the answer is the sum divided by the count, truncated toward zero |
| PriceStore.MeanWithinPrices | protohacker2/src/main.rs:62-66 | the mean lies between the smallest and largest price selected, so the `as i32` cast does not wrap |
| PriceStore.EmptyQuery | protohacker2/src/main.rs:53-61 | an inverted range, or one holding no stored timestamp, answers 0 |
| PriceStore.Respond | protohacker2/src/main.rs:46-77 | only queries are answered, with the mean over the range; queries and invalid frames leave the store unchanged; an insert adds its timestamp if it was absent and never changes an existing price |
| PriceStore.Commands | protohacker2/src/main.rs:102-122 | a byte stream is cut into one command per complete 9-byte frame |
| PriceStore.StoredIsFirstInsert | protohacker2/src/main.rs:69-74 | after a session, each timestamp holds the price of its first insert, and one never inserted is absent |
| PriceStore.RepliesPerQuery | protohacker2/src/main.rs:116-120 | the session sends exactly 4 bytes per query and nothing for inserts or invalid frames |
| PriceStore.RunFirstFrame | protohacker2/src/main.rs:110-121 | the replies of a session are the reply to its first frame followed by the replies to the rest |
| PriceStore.Datastore.constructor | protohacker2/src/main.rs:98 | each session starts with an empty store |
| PriceStore.Datastore.GenerateResponse | protohacker2/src/main.rs:46-77 | applying a command to the store answers and updates it as `Respond` says |
| PriceStore.ReadInto | protohacker2/src/main.rs:103-108 | a read into the 9-byte frame buffer either hits end-of-file or adds at least one byte, preserving the bytes the frame holds followed by the bytes still to come |
| PriceStore.ExecuteFrame | protohacker2/src/main.rs:110-121 | executing a full frame sends its reply and leaves the remaining replies owed by the rest of the stream |
| PriceStore.Step | protohacker2/src/main.rs:102-122 | one loop iteration keeps "replies sent so far, then the replies of the pending bytes and the unread stream, equal the session's replies" |
| PriceStore.HandleClient | protohacker2/src/main.rs:97-123 | the server sends exactly the replies that the session defines for the complete frames delivered before end-of-file, starting from an empty store |
| PriceStore.ShortPending | protohacker2/src/main.rs:102-122 | an incomplete frame left at end-of-file produces no reply |
| PriceStore.SessionExample | protohacker2/src/main.rs:46-77 | a query on the empty store, an insert of (5, 100) and the same query again answer 0, then 100 |
| KvStore.IndexOfEqual | protohacker4/src/main.rs:10-25 | the first `=` among the received bytes, or none exactly when there is no `=` |
| KvStore.ReplySplits | protohacker4/src/main.rs:27-40 | a query reply is the key, `=`, then the stored value (empty when the key is missing); the first `=` comes right after the key |
| KvStore.Inserted | protohacker4/src/main.rs:42-51 | an insert splits at the first `=`; `version` is never changed; any other key is set to everything after that `=`, and every other key is unchanged |
| KvStore.Handle | protohacker4/src/main.rs:62-81 | a datagram is an insert exactly when it holds `=`, and gets no reply; a query leaves the store unchanged and is answered `key=value`, cut to 1000 bytes |
| KvStore.Received | protohacker4/src/main.rs:63 | a datagram larger than the 1000-byte buffer is truncated to its first 1000 bytes |
| KvStore.VersionAlwaysOne | protohacker4/src/main.rs:44-46 | no sequence of datagrams changes the `version` value |
| KvStore.Queries | protohacker4/src/main.rs:65-75 | the queries are a subsequence of the datagrams |
| KvStore.OneReplyPerQuery | protohacker4/src/main.rs:65-75 | one reply per query, in order, addressed to the query's sender and at most 1000 bytes long |
| KvStore.InsertThenQuery | protohacker4/src/main.rs:42-51 | a query after `key=value` answers `key=value`, even when the value holds `=`, unless the key is `version` |
| KvStore.KeyValueStore.constructor | protohacker4/src/main.rs:55-56 | the store starts holding only `version` |
| KvStore.KeyValueStore.Insert | protohacker4/src/main.rs:42-51 | the in-place insert updates the store as `Inserted` says and keeps `version` fixed |
| KvStore.KeyValueStore.Query | protohacker4/src/main.rs:27-40 | the reply is written at the start of the send buffer, cut to 1000 bytes; the rest of the buffer is untouched |
| KvStore.ResetPrefix | protohacker4/src/main.rs:77-80 | the first `sz` bytes of the receive buffer are zeroed and the rest are kept |
| KvStore.Turn | protohacker4/src/main.rs:62-81 | one receive, dispatch and zeroing turn does what `Handle` says and leaves the receive buffer all zero again |
| KvStore.Serve | protohacker4/src/main.rs:53-82 | the server's replies and final store are those of the session |
| KvStore.TurnAdvancesSession | protohacker4/src/main.rs:62-81 | a session is its first turn followed by the session of the remaining datagrams |
| PrimeServer.ISqrt | protohacker1/src/main.rs:43 | the exact integer square root |
| PrimeServer.NoSmallDivisorIsPrime | protohacker1/src/main.rs:43-52 | a number of at least 2 with no divisor up to its square root is prime |
| PrimeServer.SmallDivisor | protohacker1/src/main.rs:43-52 | a composite number has a divisor no larger than its square root |
| PrimeServer.SqrtBelow | protohacker1/src/main.rs:43-45 | from 3 on, the square root is below the number, so the trial range excludes the number itself |
| PrimeServer.DumbIsPrime | protohacker1/src/main.rs:34-53 | trial division returns true exactly when the 64-bit number is prime |
| PrimeServer.SmallNumbers | protohacker1/src/main.rs:37-41 | 0, 1 and 4 are not prime; 2 and 3 are |
| PrimeServer.CheckWellFormedRequest | protohacker1/src/main.rs:55-66 | a method other than `isPrime` is an error with the invalid-method message; otherwise the answer is true exactly when the number is integral and its truncation is prime |
| PrimeServer.GenerateResponse | protohacker1/src/main.rs:70-105 | the reply sent is the one the request calls for, success means a well-formed `isPrime` request, and a malformed request gets `{"method":"invalid","prime":false}` |
| PrimeServer.Compacted | protohacker1/src/main.rs:131-134 | compaction keeps the buffer's length |
| PrimeServer.CompactedRegions | protohacker1/src/main.rs:131-134 | moving the bytes after the line to the front leaves the line's tail in place and zeroes the bytes it copied from |
| PrimeServer.PendingMovesToFront | protohacker1/src/main.rs:131-136 | after compaction the `w - (p + 1)` pending bytes are at the front of the buffer |
| PrimeServer.RequestBuffer.constructor | protohacker1/src/main.rs:108-114 | the buffer starts as 1024 zero bytes, with nothing written |
| PrimeServer.RequestBuffer.Receive | protohacker1/src/main.rs:119-124 | a read appends its bytes at `w` and advances `w` by their number |
| PrimeServer.RequestBuffer.FindNewline | protohacker1/src/main.rs:126 | the search, as written, finds the first newline of the whole buffer, written or not |
| PrimeServer.RequestBuffer.FindLineEnd | protohacker1/src/main.rs:126 | the corrected search finds the first newline among the `w` written bytes |
| PrimeServer.RequestBuffer.ConsumeLine | protohacker1/src/main.rs:131-136 | handling a line compacts the buffer and lowers `w` by the line and its newline; a newline beyond `w` marks the subtraction that would underflow |
| PrimeServer.RequestBuffer.Compact | protohacker1/src/main.rs:131-134 | the in-place compaction loop leaves exactly `Compacted` in the array |
| PrimeServer.RequestBuffer.Grow | protohacker1/src/main.rs:142-150 | without a newline the buffer doubles, keeping its bytes and padding with zeros; past 32768 bytes the thread gives up |
| PrimeServer.HandleRead | protohacker1/src/main.rs:119-153 | one pass through the loop leaves exactly the answered line, next step, buffer and fill level of `AfterRead`: a failed read, or an empty read with nothing pending, ends the thread; otherwise the bytes are appended and the first newline's line is answered, or the buffer grows |
| PrimeServer.AnswerOrGrow | protohacker1/src/main.rs:126-150 | after the bytes are in, the pass answers the line ending at the first newline of the buffer, or grows the buffer when there is none |
| PrimeServer.AnswerLine | protohacker1/src/main.rs:126-140 | a line is answered with the reply its request calls for; a malformed one ends the thread and leaves the buffer as it was; a well-formed one compacts the buffer, and the thread reads again exactly when nothing is pending, unless the newline lay beyond `w` |
| PrimeServer.AfterReadProgress | protohacker1/src/main.rs:119-153 | every pass keeps the buffer a valid capacity, answers each line with the reply its request calls for, ends the thread on a malformed request, reads again after growing, and reads again after a line exactly when nothing is pending, with room to read into |
| PrimeServer.EmptyReadProgress | protohacker1/src/main.rs:119-150 | a pass that goes on without reading either consumed a line, lowering `w`, or grew the buffer |
| PrimeServer.OnePass | protohacker1/src/main.rs:119-153 | one pass of the loop as the loop relies on it: the reply and next-step facts, and progress for a pass without a read |
| PrimeServer.TakeRequests | protohacker1/src/main.rs:107-158 | every line handed to the request logic gets the reply it calls for; all lines but the last were well-formed, and the last one too unless the thread ended on it |
| PrimeServer.StaleNewline | protohacker1/src/main.rs:126-136 | after a line that filled at least half the buffer, the whole-buffer search finds that line's stale newline, although the pending bytes hold none |
| PrimeServer.PendingLineFound | protohacker1/src/main.rs:126-136 | searching only the pending bytes after compaction finds the newline the client actually sent |
| PrimeServer.PaddedRequest | protohacker1/src/main.rs:74-80 | the scenario's first line: `{"method":"isPrime","number":3}` padded with spaces to 600 bytes, with no newline in it |
| PrimeServer.ScenarioParse | protohacker1/src/main.rs:74 | the decoder of the scenario: the padded request decodes as `isPrime` of the integer 3, and any other line fails to decode |
| PrimeServer.FirstRead | protohacker1/src/main.rs:119 | the read of the stale-newline scenario: the padded request, a newline and `{` |
| PrimeServer.FirstPass | protohacker1/src/main.rs:119-140 | the first pass answers the padded request with `prime: true`, compacts the buffer, keeps `{` pending and goes on without reading |
| PrimeServer.StaleBuffer | protohacker1/src/main.rs:126-136 | after the first pass the first newline of the buffer is the stale one at 600, the pending byte holds none, and `{` is followed by a zero |
| PrimeServer.SecondPass | protohacker1/src/main.rs:119-140 | the second pass, reading nothing, answers a 600-byte line that starts with `{` and a zero as malformed and ends the thread |
| PrimeServer.StaleNewlineScenario | protohacker1/src/main.rs:119-140 | the two passes run through `HandleRead`: the padded request is answered as prime and the loop goes on without reading; one byte is pending and the corrected search finds no newline in it; the next pass answers a 600-byte "request" starting with `{` and a zero as malformed and ends the connection |
| Proxy.ReplaceAll | protohacker5/src/main.rs:76-77 | `str::replace`: every non-overlapping occurrence, from left to right |
| Proxy.ReplaceWithoutOccurrence | protohacker5/src/main.rs:76-77 | a text without the pattern is unchanged |
| Proxy.ReplacePattern | protohacker5/src/main.rs:76-77 | the pattern alone becomes the replacement |
| Proxy.ReplaceSplits | protohacker5/src/main.rs:76-77 | a byte that cannot be part of the pattern splits the replacement into independent halves |
| Proxy.ShortUnchanged | protohacker5/src/main.rs:76-77 | a text shorter than the pattern is unchanged |
| Proxy.Rewrite | protohacker5/src/main.rs:52-83 | the rewritten message always ends with a newline |
| Proxy.RewriteMessage | protohacker5/src/main.rs:52-83 | the loop over the regex matches computes `Rewrite`: each accepted match is replaced everywhere in the message, and a newline is appended |
| Proxy.NoAcceptedSpanUnchanged | protohacker5/src/main.rs:65-73 | matches that are not space-delimited change nothing |
| Proxy.NoAcceptedRewrite | protohacker5/src/main.rs:65-80 | a message with no accepted match is forwarded as it is, plus a newline |
| Proxy.RewriteWord | protohacker5/src/main.rs:52-83 | an address standing alone between spaces is replaced by Tony's and the rest of the message is kept |
| Proxy.ReplaceIsolatedWord | protohacker5/src/main.rs:76-77 | replacing a space-delimited word that occurs nowhere else touches only that word |
| Proxy.RewriteEveryCopy | protohacker5/src/main.rs:76-77 | one accepted match rewrites every copy of the address, including one at the start of the line |
| Proxy.GluedSpanRejected | protohacker5/src/main.rs:65-73 | a match glued to a non-space byte on its left is left alone |
| Proxy.ForwardedAppend | protohacker5/src/main.rs:126-137 | what is forwarded for a line is appended after what was forwarded for the earlier lines |
| Proxy.ProxyDirection | protohacker5/src/main.rs:101-139 | one direction of the proxy forwards exactly the rewritten lines the source sends, until its first read error or hang-up |

## Left out

- Sockets, writes and their failure panics (`send_to_socket`, `send_to_server`, `echo_back`,
  `expect`). Their output is the byte sequence a method returns or appends.
- Threads, the `Mutex`, the `mpsc` channel and the `alive` flag. The chat room is one
  sequential object whose channel is drained by `ProcessOne`. Interleavings other than the
  admission race are not explored.
- `main` in each server: listening, accepting, spawning threads, and the UDP `recv_from` error
  that ends protohacker4's `main`.
- protohacker0 (the echo server) is not part of this model.
- `tcp_to_tony`, which connects to the upstream chat server, is not modelled. Both proxy
  directions are the same `ProxyDirection` over a given input.
- JSON decoding and encoding (`serde_json`) are not modelled. A request arrives through a
  `parse` function the caller supplies. `Number` carries whether the `f64` is integral
  (`fract() == 0`) and its `as u64` truncation, not the floating-point value.
- The `f64` square root in `dumb_is_prime` is replaced by the exact integer square root; the
  rounding of `(number as f64).sqrt() as u64` is not modelled. A start above the exact root and
  below the number gives the same answer, since a divisor above the root pairs with one below
  it; a float root that rounded below the exact root would not.
- The regex of protohacker5 is not modelled. Its matches are given as spans by a matcher
  function that must return valid spans.
- UTF-8 decoding is not modelled, nor the `String::from_utf8(...).expect` panics. All text is
  bytes.
- `HashMap` iteration order is not modelled. The roster's order is a parameter (`order`, an
  enumeration of the map's keys). The broadcast loop `SendToAllBut` picks the next member with
  `:|`, in no fixed order, and its contract does not depend on the order.
- `println!` logging is left out.
- PrimeServer.RequestBuffer.ConsumeLine: the `w -= p + 1` underflow (a debug-build panic) is
  reported as a flag and ends the thread, not as a panic.
- PrimeServer.TakeRequests: does not state which lines the buffer yields for a given input,
  only what each yielded line is answered with. Splitting depends on the stale-newline
  behaviour, which the lemmas under Findings describe.
- Proxy.ProxyDirection: the `alive` flag shared with the other direction is not modelled. The
  direction stops only at its own read error or hang-up.

## Findings

| source | as written | input that shows it | evidently intended | confidence | as-written member | corrected member |
|---|---|---|---|---|---|---|
| protohacker3/src/main.rs:112 | `handshake` checks the name is not in the map and releases the lock; `handle_stream` inserts it later under a second lock (lines 168-180) | two clients that both send `carol\n` and both finish the handshake before either is inserted | a name is admitted only if no member holds it, checked and inserted atomically | not executed | Chat.AdmissionRace | Chat.Room.TryAdmit |
| protohacker1/src/main.rs:126 | the newline search covers the whole buffer, including bytes left behind by compaction (lines 131-134) | one read of `{"method":"isPrime","number":3}` padded with spaces to 600 bytes, `\n` and `{` into the 1024-byte buffer: the first request is answered correctly, then the search reports the stale newline at 600 although only `{` is pending, nothing new is read, the next "request" is `{` followed by zeros and stale padding, and the server answers it as malformed and hangs up before reading the rest of the client's second request | search only the `w` written bytes | not executed | PrimeServer.StaleNewlineScenario | PrimeServer.PendingLineFound |

In both rows the driving code models the source as written: `Chat.Room.HandleStream` uses the
separate `Handshake` and `Admit` steps, and `PrimeServer.TakeRequests` uses the whole-buffer
`FindNewline`. The corrected members are proved beside them.
