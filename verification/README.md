# A model of the data store and its protocol machinery

This project models the stateful core of a Redis-like server: the RESP2 parser and encoders (Redis
serialization protocol specification, sections "Bulk strings" and "Arrays"), the replication protocol built
on them, the append-only file, snapshots, and the data structures behind the commands whose state is the
hardest to keep right. Each file models one component and states what that component is for:

- `Bytes`, `Protocol`, `CommandParser`, `Commands`: encoders and the incremental parser. However a byte
  stream is cut, the same messages come out; exactly the replies without CR LF in a line survive a round trip.
- `Wire`: the same against literal bytes: what is written and read, and the messages of a replication link.
- `Wedging`, `AsWritten`: the parser where it fails. The first says exactly which unfinished input can never be
  completed; the second follows the program with offsets and byte counts as it computes them, negative ones
  included, and says exactly when `feed` never returns.
- `Aof`: the append-only file replays exactly what was appended, and of a torn file exactly what is whole.
- `Backlog`, `Replica`, `Replication`: master, link and replica as one transition system. In every run of
  writes, deliveries of any size, cuts, reconnections, restarts, failed snapshots and commands that throw on the
  replica, it has consumed exactly a stretch of the master's log; on a link the master has registered it catches
  up once everything in flight has arrived, if and only if no command delivered throws.
- `Dispatch`: when a forwarded command throws on the replica. The master keeps its databases apart by a prefix of
  every key and the replica does not, so that it may meet values of another kind.
- `Cuckoo`: a cuckoo filter conserves its ledger of fingerprints through every chain of evictions, and refuses an
  item only after the longest chain it allows, from bucket to full bucket.
- `HnswGraph`, `Hnsw`: the graph invariant of the vector index under insertion at random levels, what its two
  searches promise, and which vertices a new one is linked to.
- `Bitfield`, `SortedSet`, `Snapshot`, `Expiry`, `Streams`, `TimeSeries`, `DocIndex`, `JsonPath`, `GeoHash`:
  the parts of the data store that keep two forms of one thing in step, or that refine a simpler one.
- `Glob`, `Cli`: the pattern matcher of the access lists, and the client's way of printing and splitting.
- `Wrappers`, `Numbers`, `Ordering`, `Sorting`: an option type, powers of two and decimals, the order of
  strings, and stable sorting by a comparator.

Objects that the program updates in place are classes with its fields; each method is proved against a
function or an abstract view of the state, and the promises are proved about those. Values the program only
computes are functions. Sockets are byte queues, the clock is a parameter, hashing and distances are unknown
functions, and random choices are left open.

## Where the code falls short of what it is for

Each of these is stated with the exact condition under which the code does what it should, or with the inputs
for which it does not.

- A blank line where a message or an array's element should start stops the parser for good, and so does a bulk
  length of -4 that nothing can change any more inside an array with elements to come. The unfinished input that
  no continuation completes is exactly the input wedged in this sense (`Wedging.CompletableIff`,
  `Wedging.FeedRecoversIff`).
- A bulk header with a negative number larger than the header is long goes back to before its own start: it runs
  away (`AsWritten.RunawayIff`, for any header; of a length printed as usual that is one below -5). Then -6
  moves on by one byte, -7 stops the parser for good, less than -7 makes it report a message and rewind
  (`AsWritten.RunawayStep`, `AsWritten.PrintedLengths`, `AsWritten.ZeroCountStops`).
  `feed` never returns if and only if it reaches an element that goes back by at least what is in the buffer
  (`AsWritten.RunsForeverIff`, `AsWritten.StuckIff`). Inside an array the call stack can overflow; input overflows
  every stack if and only if it overflows one as deep as the buffer is long (`AsWritten.OverflowsAlwaysIff`,
  `AsWritten.RewoundArrayOverflows`).
- Of an append-only file that ends in the middle of a command the whole commands are replayed
  (`Aof.TornFileReplays`), but appending goes on behind the torn tail, which is read together with what follows
  (`Aof.TornTailIsReadFirst`): it may swallow the next command, whatever that is (`Aof.TornStarLosesOne`), or none
  (`Aof.TornOneLosesNothing`).
- A simple or error line that holds CR LF does not come back (`Protocol.RoundTripIff`).
- A link cut between the FULLRESYNC line and the snapshot loses the snapshot exactly if the backlog still covers
  the offset at the next PSYNC, which is then merely continued (`Replication.CutLosesSnapshotIff`,
  `Replication.AwaitingIsReachable`).
- A full resync from a store with an entry of a type the serializer does not know is answered with the line and an
  error: no snapshot comes, the replica keeps the announced offset, and its link is not registered, so that no
  later write reaches it (`Replication.WritesReachIff`, `Replication.AnswerLoadsIff`). These two events are all
  that can part a replica from its snapshot (`Replication.SnapshotFirstIff`).
- Nothing catches what the replica's dispatch throws, and the replica's process ends: the rest of the delivery is
  lost, and a write reaches an up-to-date replica if and only if its link is registered and the dispatch does not
  throw (`Replication.WritesReachIff`, `Replication.DeliveringAllCatchesUp`). A run of forwarded commands throws if
  and only if one of them pushes onto a value that the last command on its key left as another kind
  (`Dispatching.ReplayThrowsIff`). This cannot happen as long as clients keep to one database, without FLUSHDB and
  transactions (`Dispatching.OneDatabaseNeverThrows`); otherwise two ordinary writes are enough
  (`Dispatching.OrdinaryWritesEndTheReplica`). A replica that has ended starts afresh with a full resync
  (`Replication.EndedStartsAfresh`).
- A master restarted under the run id it had counts its offset from 0 again, and PSYNC continues a replica whose
  old offset falls into the new window, whatever it has consumed (`Replication.ReusedIdContinuesIff`,
  `Replication.ReusedIdMixesHistories`).
- The search of a layer of the vector index compares with a bound that it does not refresh while it looks at the
  neighbours of one vertex. It returns the nearest of what it has visited if and only if none of the neighbours it
  missed in this way is nearer than its last hit (`Hnsw.HnswIndex.NearestVisitedIff`,
  `Hnsw.HnswIndex.StaleBoundMisses`).
- The replica's offset counts a null argument as the word `null`, and does not count a command whose dispatch
  throws (`Replicas.OffsetCountsBytesIff`).
- The pattern matcher is right for every pattern exactly on the texts without `*`
  (`Glob.RightForAllPatternsIff`).
- RENAME of a key to itself loses the key (`Expiry.RenameKeepsEntryIff`).
- The sequence part of an automatic stream id never leaves 0, so ids made within one millisecond are equal
  (`Streams.AutoIdsCollideIff`); ids are compared as strings, and a group skips entries behind a larger id
  (`Streams.ReadsEverythingIff`).
- A time-series rule keeps counting a sample that has been replaced; after any later additions its rows agree with
  the source exactly if that sample would be redundant in its bucket as it then stands
  (`TimeSeries.ReplacementAgreesIff`). Redundancy lasts for sums, minima and maxima, but not for averages
  (`TimeSeries.RedundancyLastsIff`).
- XREADGROUP takes at most two streams: of more, the words are split in the wrong place, which is then a syntax
  error (`Streams.SplitWords`).
- XREADGROUP over several streams reports a missing group only when it comes to it: the entries of the streams
  before are then pending, but not in the reply (`Streams.ErrorLosesDeliveries`). A stream loses nothing that way
  if and only if there was nothing to read in it (`Streams.ErrorLosesNothingIff`).
- The client's `\u` escapes and its empty arguments are not read back (`Cli.PrintThenSplitIff`).

## Model

| member | source | states |
|---|---|---|
| Bytes.ParseIntDecimal | src/core/protocol.js:13-18 | the reader's parseInt gives back every integer a header was printed from, and a printed integer never breaks a line |
| Bytes.CrlfIndexIsFirst | src/core/protocol.js:95-102 | the line end found is the first one: none is missed, and none lies before it |
| Protocol.EncodeArrayOfBulkStrings | src/core/protocol.js:28-37 | the loop writes the header and then every item in order |
| Protocol.BulkRoundTrip | src/core/protocol.js:20-26 | any bytes, or null, encoded as a bulk string are read back whole, whatever follows them |
| Protocol.RoundTripIff | src/core/protocol.js:5-37 | a reply of any nesting is read back, consuming exactly its encoding, if and only if no simple or error line in it holds CR LF |
| Protocol.ParseExtend | src/core/protocol.js:66-184 | prefix stability: an answer given on some input stays the same on every longer input |
| Protocol.ParseItemsExtend | src/core/protocol.js:159-184 | the same for the elements of an array |
| Protocol.DrainConcat | src/core/protocol.js:44-64 | feeding a, then b returns the messages and leaves the bytes of feeding a followed by b |
| Protocol.DrainLeavesNoMessage | src/core/protocol.js:56-63 | the buffer kept after a feed holds no further complete message |
| Protocol.ChunkingIsInvisible | src/core/protocol.js:44-64 | however a stream is cut into chunks, the run of feeds returns the messages of the whole stream |
| Protocol.DrainEncoded | src/core/protocol.js:44-64 | encoded messages followed by any bytes come out first, then whatever those bytes give |
| Protocol.ProperPrefixIsIncomplete | src/core/protocol.js:66-184 | no proper prefix of an encoded message is taken for a message |
| Protocol.DrainPrefix | src/core/protocol.js:44-64 | any prefix of an encoded stream gives exactly the messages that lie wholly inside it and keeps the cut message's bytes |
| Protocol.EncodeArrayIsEncode | src/core/protocol.js:28-37 | a command's encoding is the encoding of an array of bulk strings, and always survives the round trip |
| Protocol.StringsOfBulkNodes | src/core/protocol.js:186-195 | the arguments of a parsed command are exactly those encoded |
| Wire.EncodersWrite | src/core/protocol.js:3-37 | every reply and command is the literal text of the protocol: its sign, printed lengths, the word ERR and CR LF |
| Wire.LinesRead | src/core/protocol.js:104-141 | the literal text of a simple line, an error with or without ERR, and a printed integer is read as that, whatever follows |
| Wire.BodiesRead | src/core/protocol.js:143-184 | so is the literal text of a bulk string of any bytes, of the two nulls, and of an array |
| Wire.UnknownPrefixReads | src/core/protocol.js:78-88 | any other first byte makes the line an error that names the byte |
| Wire.BadHeadersRead | src/core/protocol.js:125-166 | a header that is no number is an error of its own |
| Wire.CommandIff | src/core/protocol.js:186-194 | a message is a command if and only if it is an array of bulk strings, whose values are its arguments |
| Wire.DecimalIff | src/core/protocol.js:13-18 | a number is printed as its one numeral without needless zeros, by place value |
| Wire.ParseIntReads | src/core/protocol.js:125-133 | a text read as blanks, a sign, digits and a rest is the number of its digits by place value |
| Wire.ParseIntSplits | src/core/protocol.js:125-133 | every text that is a number can be read in this way |
| Wire.AnswerWrites | src/server/Server.js:467-494 | the master's answers to PSYNC byte by byte: +CONTINUE and the slice, or +FULLRESYNC with id and offset and the snapshot or the error behind it |
| Wire.ConnectAsks | src/server/Server.js:861-870 | the replica asks with its run id and offset, a question mark and -1 standing for unknown ones |
| Wire.ReplicaReads | src/server/Server.js:874-901 | what it makes of the lines CONTINUE and FULLRESYNC, and that a bulk string is taken for the snapshot if and only if it begins with a brace |
| Wire.StoredKeyIs | src/server/Server.js:1128-1131 | the prefix of a stored key |
| Wedging.CompletableIff | src/core/protocol.js:66-184 | unfinished input can be completed to a message by some continuation if and only if it is not wedged, which is read off the bytes already there |
| Wedging.FeedRecoversIff | src/core/protocol.js:44-64 | after any input, `feed` will some day return another message if and only if the bytes it kept are not wedged |
| Wedging.WedgedForGood | src/core/protocol.js:66-102 | wedged input yields no message, whatever follows |
| Wedging.LeavesBlankMeans | src/core/protocol.js:137-184 | a length of -4 that nothing can change any more ends its message before the CR LF of its own header, also as the last element of arrays |
| Wedging.Completion | src/core/protocol.js:66-184 | the bytes that complete any other unfinished input, leaving nothing over or one whole message |
| Wedging.WedgedExamples | src/core/protocol.js:66-88 | a blank line at the start, one where an element should be, and the length -4 in an array are wedged |
| AsWritten.NextAgrees | src/core/protocol.js:66-184 | up to a runaway header and as deep as the stack allows, the parse function of the model is the program's parser with its offsets and counts |
| AsWritten.LoopAgrees | src/core/protocol.js:44-64 | the program's loop returns the messages and keeps the bytes of the model's, and stops there unless a runaway header comes next |
| AsWritten.PrintedLengths | src/core/protocol.js:143-156 | of lengths printed as usual those below -5 run away: -6 moves on by one byte, -7 by none, less goes backwards |
| AsWritten.RunawayIff | src/core/protocol.js:137-156 | a bulk header, any line at all, runs away if and only if its number is so far below zero that it goes back past the header's own start |
| AsWritten.RunawayStep | src/core/protocol.js:151-156 | any such header yields a message whose content is cut from where the negative end points, and that byte count |
| AsWritten.ZeroCountStops | src/core/protocol.js:57-62 | any header whose number makes the byte count 0 stops the parser, whatever follows |
| AsWritten.RestShrinksUnlessStuck | src/core/protocol.js:57-62 | an iteration keeps the whole buffer if and only if the element goes back by at least its length, else a shorter end of it |
| AsWritten.RunsForeverIff | src/core/protocol.js:56-63 | `feed` never returns if and only if it reaches such a buffer |
| AsWritten.StuckIff | src/core/protocol.js:56-63 | for any bulk header at the start this is so if and only if its number goes back past everything that follows it |
| AsWritten.OverflowsAlwaysIff | src/core/protocol.js:174-183 | input overflows the stack however deep it is, if and only if it overflows one with as many levels as the buffer has bytes |
| AsWritten.RewoundArrayOverflows | src/core/protocol.js:174-183 | an element that goes back exactly to its array makes the recursion overflow any stack |
| AsWritten.MinusTwelveOverflows | src/core/protocol.js:174-183 | two announced elements of which the first has the length -12 are such input |
| AsWritten.FeedSteps | src/core/protocol.js:44-64 | the program's loop, run for any number of iterations and on behind runaway headers too, is the function that RunsForeverIff and LoopAgrees speak of |
| CommandParsing.CommandParser.Feed | src/core/protocol.js:44-64 | the messages and the buffer are those of the program's loop up to the first runaway header, which is reported; without one it is the whole loop, which ends there |
| CommandParsing.CommandParser.ParseNext | src/core/protocol.js:66-157 | reading at an offset is reading the unread bytes from there on, for every prefix, including unknown ones |
| CommandParsing.CommandParser.ParseArray | src/core/protocol.js:159-184 | the same for arrays; the nested recursion terminates |
| CommandParsing.CommandParser.ParseElements | src/core/protocol.js:174-183 | the element loop reads count consecutive elements or gives up with the first that is not there |
| CommandParsing.CommandParser.IndexOfCrlf | src/core/protocol.js:95-102 | the position of the first CR LF at or after the offset, -1 exactly when there is none |
| Commands.LogConcat | src/server/aof.js:19-22 | the bytes of two stretches of commands are the bytes of their concatenation |
| Commands.LogDrains | src/server/aof.js:24-45 | a log drains to exactly its own commands and leaves nothing unread |
| Aof.ExecutableCommands | src/server/aof.js:33-38 | of a log's commands only those without any word are not executed |
| Aof.TornFileReplays | src/server/aof.js:24-45 | of a file cut anywhere exactly the commands written whole are replayed, and less than one more command is left over |
| Aof.TornTailIsReadFirst | src/server/aof.js:19-45 | commands appended to a torn file are read together with its tail, and all of them run if it has none |
| Aof.TornStarLosesOne | src/server/aof.js:19-45 | a tail of one byte, the star, loses exactly the next command, whatever it is |
| Aof.TornOneLosesNothing | src/server/aof.js:19-45 | a tail of a star and the digit 1 loses nothing of a single word |
| Aof.AppendOnlyFile.AppendCommand | src/server/aof.js:19-22 | the file stays the encoding of all commands appended, the new one last |
| Aof.AppendOnlyFile.LoadAndReplay | src/server/aof.js:24-45 | whatever chunks the file is read in, and whatever it holds, exactly its whole executable messages run, in order; of a file that was only appended to, exactly the appended commands |
| Backlogs.AppendKeepsWindow | src/server/Server.js:1079-1087 | one append keeps the buffer the last min(total, max) bytes of the whole history |
| Backlogs.WindowAfterAnyAppends | src/server/Server.js:1079-1087 | the same after any sequence of appends |
| Backlogs.ContinueIff | src/server/Server.js:468-483 | PSYNC continues if and only if the run id matches and no requested byte is evicted or in the future, and the slice is the history from the requested offset |
| Backlogs.MasterBacklog.AppendToBacklog | src/server/Server.js:1079-1087 | the buffer and offset become those of the longer history |
| Backlogs.MasterBacklog.ReplBacklogStartOffset | src/server/Server.js:1089-1093 | of any history the backlog holds, one more than the bytes evicted, so that the buffer is the history from there on |
| Backlogs.MasterBacklog.Psync | src/server/Server.js:467-484 | the decision is the one of ContinueIff and the bytes sent are the history from the requested offset |
| Replicas.FullResyncLineReadsBack | src/server/Server.js:877-883 | splitting the FULLRESYNC line gives exactly the id and offset it was built from |
| Replicas.HandleAllConcat | src/server/Server.js:874-911 | handling messages in two batches is handling them in one |
| Replicas.ReplicaSession.OnData | src/server/Server.js:872-911 | a chunk has the effect of the messages it completes, in order, up to the first whose dispatch throws, those behind it being lost; the parser keeps the rest |
| Replicas.OffsetCountsBytesIff | src/server/Server.js:902-909 | a command is consumed unless its dispatch throws, and moves the offset by exactly the bytes it was sent in if and only if it does not throw and none of its arguments is null |
| Replication.HandleCommand | src/server/Server.js:902-909 | a logged command moves the applied offset from one command boundary to the next if and only if its dispatch does not throw; otherwise it changes nothing |
| Replication.BatchConsumes | src/server/Server.js:874-910 | of the commands behind a boundary, handled in one batch, exactly those before the one that throws are consumed, all of them if none does |
| Replication.WriteInv | src/server/Server.js:821-825 | a write keeps the invariant: log, backlog and bytes in flight grow by the same command |
| Replication.DeliverInv | src/server/Server.js:872-911 | delivering any number of bytes, even half a command, keeps the invariant, whether or not a dispatch throws |
| Replication.ContinueLinks | src/server/Server.js:472-483 | a +CONTINUE is sent only at the replica's own offset and is followed by exactly the commands it lacks |
| Replication.FullResyncReplays | src/server/Server.js:485-494 | the FULLRESYNC line brings a replica in any state into agreement at the present offset, and the snapshot or the error behind it leaves it there |
| Replication.StepInv | src/server/Server.js:467-494 | every event keeps the invariant; its strong form is broken only by a cut while a snapshot is owed and by a full resync that cannot be serialized |
| Replication.RunInv | src/server/Server.js:861-916 | the invariant holds throughout every run |
| Replication.ReplicaAgreesInEveryRun | src/server/Server.js:861-911 | safety: in every run, with commands that throw among its events, the replica has consumed exactly the log between its last full resync and its applied offset, in order, without gap or repeat, and both offsets are command boundaries |
| Replication.DeliveringAllCatchesUp | src/server/Server.js:821-911 | progress: with everything in flight delivered on a registered link the replica has the master's whole log and its offset if and only if no delivered command throws; otherwise it has ended |
| Replication.WritesReachIff | src/server/Server.js:821-911 | a write reaches an up-to-date replica if and only if its link is registered and its dispatch there does not throw |
| Replication.SnapshotFirstIff | src/server/Server.js:467-494 | throughout a run every answered link is registered and no command is consumed before the snapshot if and only if the run never cuts while a snapshot is owed and never answers a full resync from a store that cannot be serialized |
| Replication.SnapshotFirstFromTheStart | src/server/Server.js:861-916 | the same from the initial state |
| Replication.AnswerLoadsIff | src/server/Server.js:467-494 | an answer delivered in full leaves the replica without its snapshot if and only if it continues a replica that lacked it, no command throwing, or the store could not be serialized |
| Replication.CutLosesSnapshotIff | src/server/Server.js:861-871 | a replica cut off from its snapshot still lacks it after reconnecting if and only if no command throws, and the backlog covers its offset under the same run id or the store cannot be serialized |
| Replication.AwaitingIsReachable | src/server/Server.js:877-884 | a run in which such a cut can happen, with and without a serializable store: only the FULLRESYNC line delivered |
| Replication.ReusedIdContinuesIff | src/server/Server.js:150-150 | a master that has restarted under its old run id continues a replica if and only if the offset in the old history falls into the window of the new one |
| Replication.ReusedIdMixesHistories | src/server/Server.js:150-150 | two different writes of the same length, before and after such a restart, give a replica that is continued and agrees with no stretch of the log |
| Replication.EndedStartsAfresh | src/server/Server.js:467-494 | a replica that has ended is never continued, none of what it is then sent can throw, and it comes up to date unless the store cannot be serialized |
| Replication.ThrowIsReachable | src/server/Server.js:872-911 | a run on a registered link in which either of two writes, by throwing, ends the replica |
| Dispatching.DataStore.Rpush | src/core/DataStore.js:1646-1655 | the loop appends every value to the list of that name, old or new, and throws if and only if the name holds another kind of value, which it leaves as it was |
| Dispatching.DataStore.Sadd | src/core/DataStore.js:2039-2051 | the same for the members of a set |
| Dispatching.DataStore.Del | src/core/DataStore.js:809-823 | the loop removes exactly the keys named |
| Dispatching.ReplayThrowsIff | src/server/Server.js:902-905 | a run of commands throws if and only if one of them pushes onto a key that the last command on it, or failing that the store at the start, has left as another kind |
| Dispatching.StoredKeysDiffer | src/server/Server.js:1128-1131 | two databases share no stored key: prefixed keys are equal if and only if database and key are |
| Dispatching.OneDatabaseNeverThrows | src/server/Server.js:771-905 | as long as clients keep to one database, without FLUSHDB and transactions, no forwarded command throws on a replica that started empty or from the snapshot, and every key it has is of the kind it has on the master |
| Dispatching.MasterAcceptsBoth | src/server/Server.js:665-825 | a push and an addition to a set of the same name are both accepted and forwarded if another database, FLUSHDB or a DEL from a transaction lies between them, and no store can dispatch both |
| Dispatching.OrdinaryWritesEndTheReplica | src/server/Server.js:821-911 | with these two writes the replica that has just loaded its snapshot consumes the first and ends with the second |
| Cuckoo.XorUndoes | src/core/DataStore.js:5257-5260 | XOR with the same number twice gives back the first |
| Cuckoo.XorLow | src/core/DataStore.js:5254-5260 | the low bits of an XOR depend on the low bits only |
| Cuckoo.AndMask | src/core/DataStore.js:5254-5256 | masking with a power of two less one keeps the low bits and stays below the power |
| Cuckoo.PlacesOf | src/core/DataStore.js:5243-5260 | the first bucket is the remainder of the hash, the fingerprint the XOR of its lowest and third byte with 1 for 0, and the two buckets differ by the hash of the fingerprint |
| Cuckoo.Geometry.AltIndexInvolution | src/core/DataStore.js:5257-5260 | the alternative bucket's alternative is the bucket itself, for every hash and power-of-two bucket count |
| Cuckoo.Geometry.SameClassIff | src/core/DataStore.js:5254-5260 | two slots belong to one class if and only if they hold one fingerprint in one pair of buckets |
| Cuckoo.LedgerUpdate | src/core/DataStore.js:5261-5304 | replacing one bucket changes the ledger by exactly that bucket's fingerprints |
| Cuckoo.ItemInLedgerIff | src/core/DataStore.js:5286-5291 | the ledger counts an item's class if and only if one of its two buckets holds its fingerprint |
| Cuckoo.CuckooFilter.constructor | src/core/DataStore.js:5235-5242 | the bucket count is the least power of two not below capacity over bucket size, all buckets empty |
| Cuckoo.CuckooFilter.InsertInto | src/core/DataStore.js:5281-5285 | succeeds if and only if there is room, and appends exactly that fingerprint |
| Cuckoo.CuckooFilter.Evict | src/core/DataStore.js:5272-5276 | a swap in a full bucket puts the fingerprint into one slot and exchanges one class for another |
| Cuckoo.CuckooFilter.Add | src/core/DataStore.js:5261-5280 | an add succeeds whenever one of the item's buckets has room, in the first such bucket; otherwise fingerprints are kicked from slot to slot until one comes to a bucket with room, and it is refused if and only if the longest chain allowed came to full buckets only; success adds exactly the item's class, a refusal costs exactly one victim |
| Cuckoo.KicksKeepSizes | src/core/DataStore.js:5269-5278 | kicks move the homeless fingerprint on and never change how full a bucket is |
| Cuckoo.CuckooFilter.Exists | src/core/DataStore.js:5286-5291 | reports present if and only if the ledger counts the item's class |
| Cuckoo.CuckooFilter.Delete | src/core/DataStore.js:5292-5303 | succeeds if and only if the class is counted, and takes exactly one copy out: the first one in the first bucket that has one |
| Cuckoo.CuckooFilter.RunAll | src/core/DataStore.js:5261-5303 | conservation: after any run, fingerprints held plus victims lost are exactly adds less successful deletes, class by class, with one victim for each refused add, and an add was refused only where both its buckets were full |
| Cuckoo.RefusedOnlyWhenFull | src/core/DataStore.js:5261-5280 | so none is refused while the filter holds fewer fingerprints than fit into one bucket |
| Cuckoo.NoFalseNegatives | src/core/DataStore.js:5286-5291 | an item whose class is owed more copies than adds were refused is found, so every one still owed if none was |
| HnswGraph.SetLinksOk | src/core/DataStore.js:5200-5223 | replacing one vertex's links at one of its levels by at most m good ones keeps the graph invariant |
| HnswGraph.WalkStaysInLayer | src/core/DataStore.js:5147-5198 | a walk from a vertex of a layer meets only vertices of that layer |
| HnswGraph.PushResultFacts | src/core/DataStore.js:5170-5174 | pushing a hit keeps the result list sorted, without duplicates and at most ef long, and its head no farther |
| HnswGraph.PushResultFull | src/core/DataStore.js:5170-5174 | a full result list drops the farthest of its hits and the new one |
| Hnsw.HnswIndex.GreedySearch | src/core/DataStore.js:5147-5163 | goes to the nearest link each time, always nearer, and terminates at a vertex reachable from the start and at least as near as each of its neighbours |
| Hnsw.HnswIndex.ExpandCandidate | src/core/DataStore.js:5187-5195 | the inner loop, with its stale bound, visits every neighbour and keeps the nearest hits but for those it misses, which it can only while the list fills up |
| Hnsw.HnswIndex.SearchLayer | src/core/DataStore.js:5165-5198 | as many distinct reachable vertices as ef allows, ascending, the head nearest of all visited and all of them nearest but for missed neighbours of one vertex; everything visited has been explored unless farther than ef hits; all that is reachable if ef allows |
| Hnsw.HnswIndex.NearestVisitedIff | src/core/DataStore.js:5187-5195 | the hits are the nearest of all visited vertices if and only if no missed one is nearer than the last hit |
| Hnsw.HnswIndex.StaleBoundMisses | src/core/DataStore.js:5182-5194 | a vertex missed: two hits wanted, neighbours at 10 and 5 found while the bound is 1 |
| Hnsw.HnswIndex.NearestOf | src/core/DataStore.js:5210-5214 | keeps the m nearest of a set of links, no one left out being nearer than one kept |
| Hnsw.HnswIndex.AddBackLink | src/core/DataStore.js:5204-5214 | the other vertex gains the link back and keeps the m nearest of the enlarged set; nothing else changes |
| Hnsw.HnswIndex.ConnectNeighbors | src/core/DataStore.js:5200-5223 | the vertex ends with exactly the selected links, each selected vertex with the nearest of its old links and the new one, and no other level or vertex changes |
| Hnsw.HnswIndex.DescendTo | src/core/DataStore.js:5102-5108 | the descent is steepest in each layer above the first shared one, and ends at a vertex of that one that is not the new one |
| Hnsw.HnswIndex.ConnectDown | src/core/DataStore.js:5110-5114 | in every shared layer the new vertex is linked to the m nearest of what the search of that layer comes to, so to the m nearest of all reachable ones if ef covers them, and is linked back; no layer above is touched |
| Hnsw.HnswIndex.JoinsNearest | src/core/DataStore.js:5111-5113 | the links are exactly min(m, number reachable) vertices, none left out being nearer, wherever ef covers what is reachable |
| Hnsw.HnswIndex.Insert | src/core/DataStore.js:5090-5119 | a fresh id at any level up to 16 keeps the graph invariant, becomes the entry point exactly if it is higher than all, changes other vertices only by linking back, and has the links ConnectDown promises from where the steepest descent ends |
| Hnsw.HnswIndex.Rebuild | src/core/DataStore.js:5082-5088 | the index holds exactly the given vectors and satisfies the invariant |
| Hnsw.HnswIndex.ApproximateCandidates | src/core/DataStore.js:5121-5130 | exactly what the search of layer 0 comes to from the end of the steepest descent: stored, distinct vectors in ascending distance, the first a local minimum, and all that is reachable if ef allows |
| Bitfields.WriteIsLocal | src/core/DataStore.js:1329-1353 | a bit outside the field is unchanged, newly allocated ones being zero |
| Bitfields.ReadAfterWrite | src/core/DataStore.js:1298-1353 | reading the field just written gives the value reduced into the type's range, signed or unsigned |
| Bitfields.DisjointFieldUntouched | src/core/DataStore.js:1298-1353 | a field that shares no bit with the one written reads as before, of whatever type |
| Bitfields.OverflowMeaning | src/core/DataStore.js:1247-1275 | in range nothing changes; out of range WRAP gives the one value in range congruent modulo two to the width, SAT the nearer bound, FAIL nothing |
| Bitfields.WrapIncrementsAdd | src/core/DataStore.js:1144-1165 | any sequence of WRAP increments leaves the initial value plus their sum, reduced once |
| Bitfields.SatAndFail | src/core/DataStore.js:1144-1165 | SAT stores and reports the clamped sum; FAIL is null and leaves the bits alone exactly when the sum is out of range |
| Bitfields.BitString.BitfieldRead | src/core/DataStore.js:1298-1327 | the bit loop and sign correction compute the field's value, bits past the end being zero |
| Bitfields.ByteField | src/core/DataStore.js:1298-1316 | an unsigned field of 8 bits at the start of a byte is that byte |
| Bitfields.FieldIs | src/core/DataStore.js:1298-1316 | big-endian: an unsigned field is so many binary digits of the one number the string is, the first byte weighing most |
| Bitfields.BitString.BitfieldWrite | src/core/DataStore.js:1329-1353 | growing the buffer and setting bits one by one stores the value's low bits in the field |
| Bitfields.BitString.IncrBy | src/core/DataStore.js:1144-1165 | the new bits and the reply of an increment under each policy |
| Glob.GlobMatch | src/server/acl.js:167-180 | the backtracking loop terminates and, on a text without a star, answers the declarative meaning of the pattern |
| Glob.LoopDecides | src/server/acl.js:167-180 | remembering only the last star is enough: the loop's answer is the declarative meaning |
| Glob.RightForAllPatternsIff | src/server/acl.js:172-177 | the matcher is right for all patterns if and only if the text holds no star |
| Glob.TrapFools | src/server/acl.js:173-174 | on a text with a star the trap pattern is rejected |
| Glob.TrapMatches | src/server/acl.js:173-174 | the trap pattern does match that text |
| SortedSets.LessLaws | src/core/DataStore.js:3150-3156 | the comparison is a strict total order on (score, member) |
| Ordering.StrLessIff | src/core/DataStore.js:3150-3156 | strings are ordered by the first code unit in which they differ, a prefix first |
| SortedSets.ArrayIsDetermined | src/core/DataStore.js:3127-3156 | the array is determined by the scores: two sorted sets with the same scores have the same array |
| SortedSets.ZSet.ZsetInsert | src/core/DataStore.js:3127-3136 | the binary search puts the item where the array stays strictly sorted and in step with the scores |
| SortedSets.ZSet.ZsetIndexOf | src/core/DataStore.js:3143-3148 | a position of the member, -1 exactly when there is none |
| SortedSets.ZSet.ZsetRemoveFromSorted | src/core/DataStore.js:3138-3141 | exactly the member's entry leaves the array |
| SortedSets.ZSet.ZAdd | src/core/DataStore.js:2875-2901 | the scores are set and both halves agree, also when an unreadable score stops the command midway; the reply counts the new members |
| SortedSets.ZSet.ZRem | src/core/DataStore.js:2903-2919 | exactly the named members leave both halves, and the reply counts them |
| SortedSets.ZSet.ZIncrBy | src/core/DataStore.js:3014-3027 | the score grows by the increment, from 0 if absent, in both halves |
| SortedSets.ZSet.ZPop | src/core/DataStore.js:3040-3060 | the lowest or highest members leave both halves, in order, each ranking before, or behind, all that stay by score and then by member; a count of 0 pops one |
| SortedSets.ZSet.ZRank | src/core/DataStore.js:2921-2938 | the rank is the number of members with a smaller (score, member) |
| SortedSets.ZSet.ZRevRank | src/core/DataStore.js:3029-3038 | the reverse rank is the cardinality less one less the rank |
| SortedSets.ZSet.ZRangeByScore | src/core/DataStore.js:3097-3125 | the early break loses nothing: exactly the members with min <= score <= max, ordered by score and then by member |
| SortedSets.NothingBehind | src/core/DataStore.js:3097-3125 | behind an item above the maximum nothing is in range |
| SortedSets.RankCounts | src/core/DataStore.js:2921-2938 | an index in the array is the number of members ranked before it |
| Snapshots.ZSetRebuilds | src/server/snapshot.js:85-96 | from the saved pairs in any order both halves of a sorted set come back unchanged |
| Snapshots.SerializeEntry | src/server/snapshot.js:47-67 | saves every known type, and fails exactly on an unknown one |
| Snapshots.EntryRoundTrip | src/server/snapshot.js:47-104 | restoring a saved entry gives the entry back |
| Snapshots.SerializeStore | src/server/snapshot.js:106-115 | succeeds exactly when no entry is of an unknown type |
| Snapshots.StoreRoundTrip | src/server/snapshot.js:106-130 | loading a saved store gives the same keys, values, orders and deadlines |
| Expiry.DataStore.PurgeIfExpired | src/core/DataStore.js:2697-2706 | lazy expiry changes nothing a client can see, and afterwards the key is stored exactly if it is live |
| Expiry.DataStore.GetEntry | src/core/DataStore.js:2708-2711 | the entry found is the live one with its deadline, if any |
| Expiry.DataStore.PurgeExpiredBatch | src/core/DataStore.js:2713-2724 | a purge tick changes nothing a client can see and leaves exactly the live keys |
| Expiry.DataStore.DoSet | src/core/DataStore.js:746-796 | SET with any options replies and acts as on a store of live keys, a deadline already past taking the key away |
| Expiry.SetRefused | src/core/DataStore.js:753-784 | an option that cannot be read, or NX with XX, is an error, a condition that does not hold is answered with null, and neither changes anything |
| Expiry.SetWithDeadline | src/core/DataStore.js:759-791 | of several deadlines the last one holds, and it leaves what plain SET and then EXPIRE, PEXPIRE, EXPIREAT or PEXPIREAT leave, for EX, PX, EXAT and PXAT |
| Expiry.SetWithoutDeadline | src/core/DataStore.js:786-795 | KEEPTTL keeps the deadline there was, anything else takes it away, and no other key changes |
| Expiry.TtlAfterExpire | src/core/DataStore.js:2726-2786 | right after EXPIRE k n the reply of TTL is n and of PTTL 1000 n; after PEXPIRE k n of PTTL n, and of TTL the seconds that cover them |
| Expiry.TtlAfterSet | src/core/DataStore.js:746-796 | the same after SET k v EX n |
| Expiry.LivesUntil | src/core/DataStore.js:2697-2710 | a key set with EX n is read back for less than 1000 n milliseconds, and not any more from then on |
| Expiry.DataStore.DoGet | src/core/DataStore.js:798-807 | GET replies as on a store of live keys |
| Expiry.DataStore.DoDel | src/core/DataStore.js:809-823 | DEL removes and counts exactly the live keys named |
| Expiry.DataStore.DoExists | src/core/DataStore.js:825-836 | EXISTS counts the live keys named, repeats included |
| Expiry.DataStore.DoSetNx | src/core/DataStore.js:1502-1511 | SETNX sets exactly if no live key is there |
| Expiry.DataStore.DoMSetNx | src/core/DataStore.js:1513-1540 | MSETNX sets all or nothing, nothing exactly if one key is live |
| Expiry.DataStore.DoGetSet | src/core/DataStore.js:1542-1552 | GETSET replies the old text and stores the new one |
| Expiry.DataStore.DoGetDel | src/core/DataStore.js:1554-1565 | GETDEL replies the text and removes the key |
| Expiry.DataStore.DoExpire | src/core/DataStore.js:2726-2746 | EXPIRE and PEXPIRE set a deadline on a live key; one not in the future removes it at once |
| Expiry.DataStore.DoExpireAt | src/core/DataStore.js:2799-2829 | EXPIREAT and PEXPIREAT set an absolute deadline; one already past hides the key at once |
| Expiry.DataStore.DoTtl | src/core/DataStore.js:2748-2759 | TTL of a live key, -1 without deadline, -2 without key |
| Expiry.DataStore.DoPTtl | src/core/DataStore.js:2774-2784 | the same in milliseconds |
| Expiry.DataStore.DoPersist | src/core/DataStore.js:2761-2772 | PERSIST takes the deadline of a live key away and says whether there was one |
| Expiry.DataStore.LiveKeys | src/core/DataStore.js:838-848 | the scan returns exactly the live keys that the pattern matches |
| Expiry.DataStore.DoDbSize | src/core/DataStore.js:2831-2837 | DBSIZE is the number of live keys |
| Expiry.DataStore.DoRename | src/core/DataStore.js:2848-2859 | RENAME moves a live key with its deadline, an older key under the new name being lost |
| Expiry.DataStore.DoRenameNx | src/core/DataStore.js:2861-2873 | RENAMENX does so exactly if the new name is not a live key |
| Expiry.DataStore.Dispatch | src/core/DataStore.js:746-848 | every command refines its counterpart on a store from which keys vanish the instant they expire |
| Expiry.DataStore.Execute | src/core/DataStore.js:2697-2873 | refinement: over every run of commands, clock advances and purge ticks the replies are those of that store, and deadlines exist for stored keys only |
| Expiry.RenameKeepsEntryIff | src/core/DataStore.js:2848-2859 | RENAME carries value and deadline over if and only if the names differ |
| Streams.DeliverOk | src/core/DataStore.js:2516-2524 | a read keeps the group invariant and hands out nothing twice |
| Streams.ReadsDeliverTheSuffix | src/core/DataStore.js:2516-2524 | on ascending entries a read returns the next ones in order up to its count, and what is then ahead is exactly the rest |
| Streams.DeliveredIncreases | src/core/DataStore.js:2519-2521 | the ids a read hands out increase and start above the last id |
| Streams.ReadsEverythingIff | src/core/DataStore.js:2519-2521 | a read without COUNT returns everything ahead if and only if the ids ahead increase |
| Streams.AckOk | src/core/DataStore.js:2540-2547 | acknowledging keeps the group invariant and takes exactly that id from the pending list |
| Streams.ClaimOk | src/core/DataStore.js:2584-2594 | claiming keeps the group invariant and the pending ids |
| Streams.AutoIdsCollideIff | src/core/DataStore.js:2384-2390 | two automatic ids are equal if and only if they are made in the same millisecond |
| Streams.AutoIdReads | src/core/DataStore.js:2384-2390 | an automatic id is the time in milliseconds, a hyphen and a zero |
| Streams.DeleteAllKeeps | src/core/DataStore.js:2617-2629 | on ascending ids XDEL leaves exactly the entries not named, still ascending |
| Streams.Stream.XAdd | src/core/DataStore.js:2377-2400 | the entry goes to the end under the id given or made; no group changes |
| Streams.Stream.XGroupCreate | src/core/DataStore.js:2478-2493 | a new group starts at the id given, or at the last entry's, and an existing one is left alone |
| Streams.Stream.XReadGroup | src/core/DataStore.js:2511-2524 | of one stream, the entries returned are those the group has not passed, up to COUNT, and become its deliveries, in which no id occurs twice |
| Streams.SplitWords | src/core/DataStore.js:2505-2507 | the words behind STREAMS are split into as many keys as ids if and only if there are two or four |
| Streams.StreamStore.XReadGroup | src/core/DataStore.js:2495-2527 | one or two streams are read one after the other and the reply lists those that had entries; more are a syntax error that changes nothing |
| Streams.NoGroupIff | src/core/DataStore.js:2511-2514 | the error comes if and only if some stream named lacks the group |
| Streams.ErrorLosesDeliveries | src/core/DataStore.js:2507-2524 | the streams named before it have then been read all the same |
| Streams.ErrorLosesNothingIff | src/core/DataStore.js:2507-2524 | the error leaves the deliveries of a group that was read before it as they were if and only if there was nothing to read in its stream, or COUNT was 0 |
| Streams.Stream.XAck | src/core/DataStore.js:2529-2549 | the named ids leave the pending list and every consumer, and the reply counts those that were pending |
| Streams.Stream.XClaim | src/core/DataStore.js:2570-2597 | the pending ids named change owner and nothing else about the list changes; the reply is their entries still in the stream |
| Streams.ClaimedEntriesAre | src/core/DataStore.js:2584-2594 | XCLAIM replies with the first entry of exactly those ids that are pending and still in the stream, in the order asked for |
| Streams.Stream.XDel | src/core/DataStore.js:2617-2629 | the first entry of each id named is removed and counted; no group changes |
| Streams.Stream.XTrim | src/core/DataStore.js:2631-2643 | the last n entries stay; no group changes |
| TimeSeries.ApplyRuleOk | src/core/DataStore.js:4956-4977 | one incremental step keeps a rule's destination equal to the batch aggregation of all samples so far |
| TimeSeries.BatchIsUnique | src/core/DataStore.js:5022-5042 | the rows of an aggregation are determined by the samples |
| TimeSeries.BucketIff | src/core/DataStore.js:4957-5030 | a time's bucket is the one stretch of bucketMs that begins a whole number of them from the origin and holds the time |
| TimeSeries.BatchMeans | src/core/DataStore.js:4956-5042 | batch rows, stated by times alone: each begins a whole number of buckets from the origin and aggregates exactly the readable values of the bucketMs from there on, and every readable sample falls into one |
| TimeSeries.AggregateMeans | src/core/DataStore.js:4966-5040 | the least, the greatest, the sum and the mean of the values |
| TimeSeries.RangeEqualsDestination | src/core/DataStore.js:4948-5042 | incremental equals batch: rule destination and TS.RANGE from a multiple of the bucket covering the data are the same rows |
| TimeSeries.ReplacementAgreesIff | src/core/DataStore.js:4899-4909 | after replacing a sample by one of the same time, and any later additions, a rule that agreed agrees if and only if the old value was unreadable or would be redundant in its bucket as it then stands: 0 for a sum, not below the minimum, not above the maximum, equal to the average of the others |
| TimeSeries.RedundancyLastsIff | src/core/DataStore.js:4956-4977 | a redundant value stays so under later values for sums, minima and maxima; for averages if and only if their average is the same |
| TimeSeries.Series.TsAdd | src/core/DataStore.js:4885-4912 | rejects exactly times before the last, keeps times strictly increasing, keeps exactly the samples not older than the retention, and feeds every rule |
| TimeSeries.Series.AddAll | src/core/DataStore.js:4885-4978 | after any strictly increasing additions every rule's destination is the batch aggregation of the source, as BatchMeans states it |
| TimeSeries.Series.CreateRule | src/core/DataStore.js:4914-4934 | a rule with the same destination, aggregate and bucket is not added again; one made before any sample starts in agreement with the empty source |
| TimeSeries.Series.TsRange | src/core/DataStore.js:5022-5042 | the rows, in ascending order, each begin a whole number of buckets from the start of the range and aggregate the readable values of their stretch of the window, every one falling into a row |
| DocIndex.SameDocumentsSameIndex | src/core/DataStore.js:433-486 | the postings and numbers of an index that agrees with its documents are determined by them, so any history of updates ends where a rebuild would |
| DocIndex.AddPostingOk | src/core/DataStore.js:604-607 | one posting is added, no other, and no set is empty |
| DocIndex.DropPostingOk | src/core/DataStore.js:618-622 | one posting is removed, no other, and a word without postings goes with it |
| DocIndex.DocumentIndex.IndexObject | src/core/DataStore.js:597-615 | afterwards postings and numbers are those of the documents before and of this one |
| DocIndex.DocumentIndex.Unindex | src/core/DataStore.js:617-626 | afterwards they are those of the documents without this one, with no empty posting set |
| DocIndex.DocumentIndex.IndexAdd | src/core/DataStore.js:433-467 | adding or updating makes the index that of the documents with this one as it now reads; a missing document changes nothing |
| DocIndex.DocumentIndex.IndexDel | src/core/DataStore.js:446-454 | the index becomes that of the documents without this one |
| DocIndex.DocumentIndex.IndexRebuild | src/core/DataStore.js:469-486 | the index becomes that of exactly the selected documents |
| DocIndex.DocumentIndex.TokenPostings | src/core/DataStore.js:521-532 | the union of postings is exactly the documents with a word containing the token in a text field |
| DocIndex.ContainsIff | src/core/DataStore.js:527-527 | a word contains a token if and only if it is the token between two other parts |
| DocIndex.DocumentIndex.Search | src/core/DataStore.js:516-546 | the keys found before LIMIT are those of a scan that reads every document as last indexed |
| JsonPath.GetAtPath | src/core/DataStore.js:3325-3338 | the loop follows the path and is undefined as soon as a step does not exist |
| JsonPath.SetAtPath | src/core/DataStore.js:3373-3424 | the loop that walks down, replacing, creating and padding containers, writes what the recursive definition writes |
| JsonPath.GetAfterSet | src/core/DataStore.js:3373-3424 | what is written is read back, whatever was created, replaced or padded on the way |
| JsonPath.SetAfterSet | src/core/DataStore.js:3373-3424 | of two writes at one path only the last remains |
| JsonPath.SetWhatIsThere | src/core/DataStore.js:3373-3424 | writing back what is there changes nothing |
| JsonPath.SiblingsUnchanged | src/core/DataStore.js:3373-3424 | what lies beside the path in containers the write keeps is unchanged, except that a missing array element may become padding |
| JsonPath.ReadBelow | src/core/DataStore.js:3373-3424 | at the path and below it is exactly the value written |
| JsonPath.ReadAbove | src/core/DataStore.js:3373-3424 | above it are containers of the kinds the path needs |
| JsonPath.ReadBeside | src/core/DataStore.js:3373-3424 | beside the path: what was there if the container was of the right kind, nulls in front of a new index, and nothing else |
| GeoHash.IndexIsDivision | src/core/DataStore.js:4644-4665 | k halvings find the number of the 2^k-th part of the range that the coordinate lies in |
| GeoHash.IntervalContains | src/core/DataStore.js:4644-4665 | the interval always contains the coordinate and halves each time |
| GeoHash.EncodeHash | src/core/DataStore.js:4636-4679 | the loop writes the fifty alternating outcomes five to a character, and one zero |
| GeoHash.HashSpells | src/core/DataStore.js:4636-4679 | the fifty binary digits spelled are in turn those of the longitude's and of the latitude's part of 2^25, the longitude first, each from the highest on |
| GeoHash.AlphabetIs | src/core/DataStore.js:4638-4638 | the alphabet is the digits and small letters in order without a, i, l and o |
| GeoHash.Base32IsInjective | src/core/DataStore.js:4638-4638 | the alphabet's characters are all different |
| GeoHash.EqualHashIff | src/core/DataStore.js:4636-4679 | two points anywhere have equal hashes if and only if they lie in the same cell of 2^25 by 2^25 |
| GeoHash.EqualHashNear | src/core/DataStore.js:4636-4679 | points on the map with equal hashes differ by at most 360/2^25 degrees of longitude and 180/2^25 of latitude |
| Cli.EscapeForDisplay | src/client/client-cli.js:31-54 | the loop writes the escape of every character in order |
| Cli.EscapesAre | src/client/client-cli.js:31-54 | the literal escapes, and what they stand for when read inside quotes |
| Cli.SplitArgs | src/client/client-cli.js:135-189 | the index loop with its look-ahead yields the arguments that scanning the text yields |
| Cli.SplitOfJoin | src/client/client-cli.js:31-189 | what any list of strings, printed in quotes and joined by spaces, is split into |
| Cli.PrintThenSplitIff | src/client/client-cli.js:31-189 | splitting what was printed gives the list back if and only if no string is empty or holds a control character other than tab, LF and CR, or 0x7F |

## Left out

- CommandParsing.CommandParser.Feed: stops in front of a runaway header, because the program's loop need not end there; what the program does from there on is in AsWritten.
- AsWritten.NextAgrees: a message nested more deeply than the stack allows overflows it in the program too; how deep that is is a parameter.
- Bytes.ParseIntDecimal: the parser's white space is ASCII, and numbers have no limit of precision.
- UTF-8 decoding: messages are bytes, and a length header counts bytes; the snapshot's header, which counts characters, is taken to be ASCII.
- Replication.ReplicaAgreesInEveryRun: one live link at a time, although both `error` and `close` schedule a reconnection; a run's restarts take run ids never used before, a reused one being looked at by itself; a dispatch that throws is taken to end the replica's process, as an unhandled rejection does by default, so that a process set up to survive it, with its offset unmoved, is not modelled; agreement is about the commands consumed, not about the replica's keys, because the replica dispatches without the master's rewriting of keys (src/server/Server.js:905 against src/server/Server.js:771); the snapshot's content is opaque, and the error of a failed one is a single line.
- SYNC, REPLCONF, the acknowledgement of offsets, timers and back-off: they do not touch the offsets.
- Dispatching.ReplayThrowsIff: RPUSH, SADD, plain SET and DEL; other kinds of values and commands throw in the same way, and expiry on the replica is left out.
- Aof.TornTailIsReadFirst: which torn tails swallow what follows them is not characterised beyond the two shown.
- Aof.AppendOnlyFile.LoadAndReplay: replay of the exact commands, not equality of databases: several commands that change data are not logged, and random pops are logged as commands.
- Cuckoo.CuckooFilter.Add: the hash function is a parameter, the choice of slot and of bucket is free; bucket counts that do not fit a 32-bit shift are not modelled.
- Hnsw.HnswIndex.SearchLayer: distances are real, so there is no NaN.
- Hnsw.HnswIndex.Insert: inserting an id again, and rebuilding without an index.
- Bitfields.BitString.BitfieldRead: negative offsets, the precision of numeric replies, and the parsing of arguments.
- Expiry.DataStore.Execute: the clock stands still during a command and never goes back; what a KEYS pattern matches is a parameter; keys hold a text or some value of another type; argument counts and other commands are left out.
- SortedSets.ZSet.ZRangeByScore: scores are real; exclusive bounds, range by index and by name, and set algebra are left out.
- Snapshots.StoreRoundTrip: an object key `__proto__`, infinite scores in JSON text, and the file on disk; the order of a map's pairs is free.
- XPENDING and XINFO, which only read.
- TimeSeries.Series.CreateRule: each rule has a destination series of its own; deleting rules.
- TimeSeries.Series.TsRange: finite bounds, with aggregation; values are real or unreadable, not their text.
- DocIndex.DocumentIndex.Search: the order of the keys found, and with it LIMIT; how words are cut and numbers converted is a parameter.
- DocIndex.DocumentIndex.IndexRebuild: which keys the prefix selects is a parameter.
- JsonPath.SetAtPath: documents are values: the containers on the way are put together again after the descent, where the program changes them in place, and sharing between documents is not modelled; wildcards, deletion, property names on arrays (such as `length`), and inherited properties.
- GeoHash.EqualHashNear: coordinates are real, so rounding of the midpoints is not modelled.
- Cli.SplitArgs: characters, not UTF-16 units; trimming of the line.
- Plain string, list, hash and set commands, HyperLogLog, distances on the sphere, publish and subscribe, transactions, access rules beyond the pattern matcher, INFO, SLOWLOG, the monitor, TLS, the client library: they would add easy members or are input and output.
