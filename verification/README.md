# Ferrous: a verified model of its hard core

Ferrous is an in-memory data server that speaks the Redis protocol. This project models the parts
of it whose correctness is not obvious, in Dafny 4.11, and proves what they are for. `dafny verify
dfyconfig.toml` checks everything.

| files | part of the server |
|---|---|
| `ScoreOrder`, `Towers`, `SkipList` | the sorted set: a skip list of linked nodes with a second index by key |
| `Glob` | the two glob matchers |
| `Decimal`, `Resp`, `RespGrammar`, `RespIo`, `RespStream` | the wire protocol: printing, parsing, the grammar it accepts, the incremental parser |
| `RdbFormat`, `Rdb`, `RdbLayout`, `RdbWriter`, `RdbReplica`, `RdbReader` | snapshots: the file writer, the replication encoder, the reader |
| `Watch`, `WatchRuns`, `WatchServer` | WATCH, MULTI and EXEC: the protocol over all clients, what it means in terms of their steps, and the server that follows it |
| `StreamId`, `Stream`, `Pending`, `ConsumerGroup`, `Delivery` | streams, consumer groups, delivery |
| `KeyOrder`, `Scan`, `Keyspace` | the sharded database and its cursor iteration |
| `Bytes`, `Tables` | byte strings, hash tables walked in any order |
| `PubSub`, `Backlog`, `Blocking` | the subscription registry, the replication backlog, the registry of blocked clients |

Structures that the server changes in place are classes whose methods are proved against functions
on their abstract value; what the server promises is then proved about those functions, over every
run where it is about runs. The main theorems are `SkipList.Run` with `LevelsUnobservable` and
`LevelThinsOut`, `Glob.KeyPatternMatches` with `ClassAlone`, `RespGrammar.AcceptsExactly`,
`RespStream.ChunkingIndependence`,
`RdbReader.SaveAndLoad`, `WatchRuns.ExecRunsIffUntouched`, `Delivery.DeliveredOnceAndInOrder`,
`Scan.FullIteration` and `NothingMissed`, `PubSub.Registry.Publish` and `Backlog.CatchUp`.

Where the code does not do what its comments say, the model follows the code and says exactly when
it does:

- updating or removing a key whose score is NaN leaves its node behind, and only then do chain and index part (`SkipList.SkipList.Insert`, `SkipList.SkipList.Remove`);
- a range of a stream that ends before the first entry returns that entry (`Stream.Stream.Range`);
- a generated stream id fails to grow exactly when the sequence is at its end and the clock does not help (`Stream.GeneratedIsLarger`);
- a save and a load lose empty lists, sorted sets and streams, the last id of a stream whose newest entries were deleted, its consumer groups, and expiry times that have passed, though not their keys; everything else comes back (`Rdb.AfterLoadIff`, `RdbReader.SaveAndLoad`);
- a list that starts with the stream marker does not survive a save (`Rdb.ListSurvivesIff`), and neither does a stream whose last entry has no field, which the storage accepts and the XADD command never passes (`Rdb.EntriesRoundTripIff`);
- an EXEC or UNWATCH given in another database than the watches can lose conflicts, its own or those of others (`Watch.ExecAwayLosesConflicts`, `Watch.UnwatchHarmlessIff`, `Watch.UnwatchAwayBlinds`); EXEC and DISCARD never unregister their watches, which leaves a shard's count too high but never too low;
- a raw `PING` that arrives in two pieces is reported as an error; a client gets its answer all the same, since its connection goes on (`RespStream.ChunkingIndependence`), while a replica's link, on which masters send no raw `PING`, would end (`RespStream.SessionFailsIff`);
- a delivery of ids that are already pending, which reads of new entries never make, makes the total of the group wrong (`ConsumerGroup.ConsumerGroup.AddPending`);
- clearing the backlog keeps the offset, so that later reads are shifted, and a backlog of size 0 can never be read (`Backlog.ReplicationBacklog.DataFrom`);
- removing keys during a SCAN can hide others, exactly when the removals are not balanced (`Scan.StaysAheadIff`, `Scan.RemovalsMissIff`);
- an empty subscription of an unknown connection, which the registry accepts and the commands never pass, leaves an empty entry behind (`PubSub.TidyIff`).

Scores are real numbers, two infinities and NaN in the skip list, and eight opaque bytes in snapshots.
Random levels, clocks, the outcomes of compare-and-swap, the order in which hash tables are walked
and the effects of queued commands are parameters or arbitrary choices.

## Model

| member | source | states |
|---|---|---|
| SkipList.SkipList.constructor | src/storage/skiplist.rs:69-90 | an empty list: one head with a slot at each of the 32 levels, level and length 0 |
| SkipList.SkipList.FindPredecessors | src/storage/skiplist.rs:410-425 | the descent stops, at every level in use, at the last node before the searched item; the node found at the bottom is the place where the sorted chain splits |
| SkipList.SkipList.InsertNewNode | src/storage/skiplist.rs:409-454 | the new node enters the chain at one place and everything else stays in place; all levels, `level`, `length` and `memory_usage` remain right for every random level; the chain stays strictly sorted if and only if it did not hold the item |
| SkipList.SkipList.RemoveNodeByScore | src/storage/skiplist.rs:457-510 | exactly the node with that key and score leaves the chain; it stays exactly when the score is NaN or no such node exists |
| SkipList.SkipList.Insert | src/storage/skiplist.rs:93-118 | the index gains or changes exactly this key and the previous score is returned; chain and index stay valid if and only if the previous score was not NaN; if it was, the stale node stays beside the new one, and the chain is still sorted unless the new score is NaN too |
| SkipList.SkipList.Remove | src/storage/skiplist.rs:121-135 | the key leaves the index and its score is returned; chain and index still agree if and only if the score was not NaN |
| SkipList.SkipList.GetScore | src/storage/skiplist.rs:138-145 | the index lookup answers for the chain: found exactly when an item with this key is in the list, with its score |
| SkipList.SkipList.GetRank | src/storage/skiplist.rs:148-181 | the rank is the position in the sorted contents and the number of strictly smaller items |
| SkipList.SkipList.GetByRank | src/storage/skiplist.rs:184-210 | the item at that position of the sorted contents, or none |
| SkipList.SkipList.RangeByRank | src/storage/skiplist.rs:213-248 | the slice of the sorted contents, empty for an inverted or outlying range |
| SkipList.SkipList.RangeByScore | src/storage/skiplist.rs:251-288 | the top-down search returns exactly the filtered sorted contents, for empty and inverted bounds too |
| SkipList.SkipList.GetAllItems | src/storage/skiplist.rs:333-361 | all items in order |
| SkipList.SkipList.Clear | src/storage/skiplist.rs:306-330 | nothing is left, at any level, and the invariant holds |
| SkipList.ContentsOfIndex | src/storage/skiplist.rs:40-51 | the chain is the sorted list of exactly the pairs of the index |
| SkipList.LevelsUnobservable | src/storage/skiplist.rs:513-522 | two lists with the same index have the same contents, whatever random levels their nodes got |
| SkipList.ContentsOrder | src/storage/skiplist.rs:364-379 | of two items with numbers as scores the one that stands first has the smaller score, or the same score and the smaller key |
| SkipList.LengthOfIndex | src/storage/skiplist.rs:291-293 | `length` is the number of keys of the index |
| SkipList.LevelThinsOut | src/storage/skiplist.rs:22-30 | following the links of level l visits exactly the nodes taller than l, in order |
| SkipList.Run | src/storage/skiplist.rs:93-135 | any run of inserts, updates, removals and clears with scores other than NaN and any levels ends in a valid list whose index is the replay of the run |
| SkipList.NaNStays | src/storage/skiplist.rs:481-483 | inserting a NaN score and removing the key leaves a node that the index does not know |
| ScoreOrder.CompareTotal | src/storage/skiplist.rs:364-379 | the comparison of (score, key) is antisymmetric and total, NaN included |
| ScoreOrder.BeforeTransitive | src/storage/skiplist.rs:364-379 | and transitive |
| ScoreOrder.BeforeIff | src/storage/skiplist.rs:364-379 | an item precedes another if and only if its score is smaller, or the scores are equal and its key is smaller; a NaN comes after everything else, and two of them are told apart by key |
| ScoreOrder.ScoresAreNumbers | src/storage/skiplist.rs:364-379 | scores are ordered as numbers are, between the two infinities, and NaN is not ordered at all |
| Bytes.LexLessIff | src/storage/skiplist.rs:365-367 | a key is smaller if and only if it has the smaller byte at the first difference, or ends there |
| ScoreOrder.SortedUnique | src/storage/skiplist.rs:364-379 | there is only one way to sort a set of items |
| ScoreOrder.RankCounts | src/storage/skiplist.rs:148-181 | in a sorted list the position of an item is the number of smaller ones |
| ScoreOrder.RangeHasItsEnds | src/storage/skiplist.rs:251-288 | a range of scores includes both of its ends |
| ScoreOrder.FilterRangeIs | src/storage/skiplist.rs:251-288 | what is filtered is sorted, and has exactly the items within the bounds |
| Glob.ChannelPatternMatches | src/pubsub.rs:370-427 | the loop with one backtrack point terminates and is true exactly when the pattern, read declaratively, matches the channel |
| Glob.KeyPatternMatches | src/storage/engine.rs:2626-2710 | the same for the matcher of keys, with character classes, ranges, negation and unclosed brackets |
| Glob.LoopStar | src/pubsub.rs:385-391 | the exchange argument: a later star makes the earlier backtrack point superfluous |
| Glob.LoopBacktrack | src/pubsub.rs:411-418 | giving the last star one more character loses no match |
| Glob.MatchClass | src/storage/engine.rs:2649-2679 | a character class accepts a character exactly when an item or range of it does, reversed by `^`; an unclosed bracket accepts nothing |
| Glob.ScanClass | src/storage/engine.rs:2655-2671 | the loop over single characters and ranges |
| Glob.FindClassEnd | src/storage/engine.rs:2650-2651 | the position of the closing bracket |
| Glob.SkipTrailingStars | src/pubsub.rs:421-427 | after the text only stars may be left |
| Glob.MatchersAgree | src/pubsub.rs:370-427 | without `[` the two matchers agree on every text |
| Glob.EscapeMatchesOnlyItself | src/pubsub.rs:392-399 | a fully escaped text, in either matcher, matches itself only |
| Glob.ContainsPattern | src/pubsub.rs:385-391 | a star on both sides of an escaped text matches exactly the texts that contain it |
| Glob.ClassAlone | src/storage/engine.rs:2649-2679 | for every list of single symbols and ranges laid out between brackets: exactly the texts of one symbol match that lies between the ends of some item, both included; with `^` exactly the other texts of one symbol |
| Glob.ClassMeaning | src/storage/engine.rs:2649-2679 | the same in front of any further pattern |
| Glob.Wildcards | src/pubsub.rs:370-427 | `?` takes exactly one symbol, `*` any number of them, before any further pattern |
| Glob.PlainMatchesOnlyItself | src/pubsub.rs:400-408 | a pattern without special symbols matches itself only |
| Glob.Backslash | src/pubsub.rs:392-399 | a backslash makes the next symbol plain; at the end of a pattern it stands for itself |
| Glob.OpenBracket | src/storage/engine.rs:2649-2679 | a class that is not closed matches nothing; for channels a bracket is a plain symbol |
| Decimal.ParseShownI64 | src/protocol/parser.rs:148-158 | printing and reading is the identity on the whole range of 64-bit integers |
| Decimal.PlusAndRange | src/protocol/parser.rs:148-158 | a leading plus is read over; a number beyond 64 bits, and a sign or nothing alone, are refused |
| Decimal.NumberIff | src/protocol/parser.rs:148-158 | a text without a sign is a number if and only if it is not empty and all digits |
| Decimal.LeadingZero | src/protocol/parser.rs:148-158 | a zero in front changes nothing |
| Decimal.DecimalText | src/protocol/serializer.rs:11-109 | what is printed has no leading zero, and a minus sign in front of a negative number |
| Resp.RoundTrip | src/protocol/serializer.rs:11-109 | parsing a printed frame followed by anything gives the frame and consumes exactly its bytes, at any nesting |
| Resp.ParseExtends | src/protocol/parser.rs:107-127 | a frame or an error on some bytes is the same on every longer input |
| Resp.PrefixNeedsMore | src/protocol/parser.rs:107-351 | every strict prefix of a printed frame asks for more, and is never an error |
| Resp.PrefixFree | src/protocol/serializer.rs:11-109 | two streams that start with printed frames are equal only if the frames are and the rests are |
| Resp.SimpleStringRoundTripIff | src/protocol/parser.rs:130-136 | a simple string is read back if and only if it holds no CRLF |
| Resp.WireFormat | src/protocol/serializer.rs:11-109 | the bytes of every kind of frame, as numbers |
| Resp.UnknownType | src/protocol/parser.rs:107-127 | any other first byte is an error |
| RespGrammar.AcceptsExactly | src/protocol/parser.rs:107-336 | the parser finds a frame with so many bytes if and only if these bytes spell it, in a grammar written down without the parser; numbers may have a plus sign and leading zeros |
| RespGrammar.ErrorsAreFinal | src/protocol/parser.rs:107-336 | after an error no continuation ever spells a frame |
| RespGrammar.BadNumber | src/protocol/parser.rs:148-336 | the error when the line is not the number or length its type asks for |
| RespGrammar.BadLength | src/protocol/parser.rs:161-231 | a negative length other than -1 is an error; a bulk string asks for more until it is all there with its line end, and is an error without it |
| RespGrammar.BadNullOrBoolean | src/protocol/parser.rs:234-255 | the errors of malformed nulls and booleans |
| RespIo.SerializeFrame | src/protocol/serializer.rs:11-109 | appends the bytes of the frame; fails exactly when the marker for "no response" occurs anywhere in it |
| RespIo.ScanLine | src/protocol/parser.rs:339-351 | the loop finds the first CRLF, or asks for more |
| RespIo.ParseFrameM | src/protocol/parser.rs:107-127 | the recursive parser with its loops computes the specified outcome, consumed length and error |
| RespIo.ParseScalarM | src/protocol/parser.rs:130-268 | the frames that hold no others: lines, numbers, bulk strings, nulls and booleans |
| RespIo.ParseArrayM | src/protocol/parser.rs:197-231 | the loop over elements: a missing element asks for more, a bad one is the error of the whole |
| RespIo.ParseMapM | src/protocol/parser.rs:271-308 | the same for pairs |
| RespIo.ParseSetM | src/protocol/parser.rs:311-336 | the same for sets |
| RespStream.RespParser.Feed | src/protocol/parser.rs:27-29 | appends to the unread bytes |
| RespStream.RespParser.Parse | src/protocol/parser.rs:32-91 | one step on the unread bytes; moving the position and compacting the buffer never change what is unread otherwise |
| RespStream.RespParser.Clear | src/protocol/parser.rs:94-97 | nothing is unread |
| RespStream.ChunkingIndependence | src/network/server.rs:646-683 | for clients, whose connection goes on after a parse error: however a stream of printed frames and raw `PING`s with white space around them is cut into reads, exactly these items come out, in order; an error is reported after a read if and only if it ends strictly inside a raw `PING` |
| RespStream.LinkStopsAtError | src/replication/client.rs:449-463 | whatever arrives: a link ends with an error if and only if a connection would report one, and delivers the same until then |
| RespStream.SessionFailsIff | src/replication/client.rs:449-463 | on the link of a replica, which ends at the first error: it ends with an error if and only if a read ends strictly inside a raw `PING`; otherwise exactly these items come out, in order |
| RespStream.FramesNeverFail | src/protocol/parser.rs:27-91 | printed frames alone never cause an error, however they are cut up: connection and link deliver exactly them, in order |
| RespStream.ServeClient | src/network/server.rs:646-683 | the real parser on a client connection, fed read by read and drained after each, delivers every item and reports exactly those errors |
| RespStream.PaddedCarries | src/protocol/parser.rs:37-44 | printed frames and raw `PING`s with any white space before, between and after them are such a stream |
| RespStream.SpacesAndPing | src/protocol/parser.rs:37-68 | what counts as white space, and what a raw `PING` is and becomes |
| RespStream.ServeLink | src/replication/client.rs:449-463 | the real parser on a link, fed read by read, drained after each, and left at an error |
| RespStream.PingInTwoPieces | src/protocol/parser.rs:50-68 | an instance: a raw `PING` cut in two ends a link; a client connection reports an error and delivers it all the same |
| RdbFormat.LengthRoundTripIff | src/storage/rdb.rs:702-722 | a length is read back if and only if it is below 2^32 |
| RdbFormat.StringRoundTrip | src/storage/rdb.rs:695-699 | a string is read back, and what follows it is left |
| RdbFormat.ReadU64RoundTrip | src/storage/rdb.rs:730-732 | eight bytes, least significant first, give the number back |
| RdbFormat.StringsRoundTrip | src/storage/rdb.rs:623-645 | a run of strings is read back |
| RdbFormat.PairsRoundTrip | src/storage/rdb.rs:647-659 | a run of fields and values is read back |
| RdbFormat.ScoredRoundTrip | src/storage/rdb.rs:563-580 | a run of members with eight-byte scores is read back |
| RdbFormat.LengthBytes | src/storage/rdb.rs:702-722 | the bytes of a length: one below 64, two below 16384, otherwise five |
| RdbFormat.LowestFirst | src/storage/rdb.rs:730-732 | eight-byte numbers have the lowest byte first |
| Rdb.EntriesRead | src/storage/rdb.rs:876-923 | what is read of any stream that was written: all entries if the last one has a field, otherwise all but the last one, whose strings stay in the input |
| Rdb.EntriesRoundTripIff | src/storage/rdb.rs:581-622 | the entries are read back with nothing left over if and only if the stream is empty or its last entry has a field |
| Rdb.BodyLoads | src/storage/rdb.rs:843-982 | a value of every kind is read back into a free slot as far as the source restores it: empty lists, sorted sets and streams are gone, a stream has the id of its newest entry as its last id and no groups |
| Rdb.RecordLoads | src/storage/rdb.rs:825-982 | one record adds exactly its key, as far as it is restored, with its expiry if that is ahead |
| Rdb.SectionsLoad | src/storage/rdb.rs:761-802 | a database selector with hints and records adds exactly these keys to that database |
| Rdb.SnapshotLoads | src/storage/rdb.rs:756-802 | a whole snapshot loads as the engine it describes, as far as that is restored, whatever its auxiliary fields, hints and checksum |
| Rdb.SnapshotRoundTripIff | src/storage/rdb.rs:756-802 | it loads unchanged if and only if every value is intact and every expiry time is still ahead |
| Rdb.AfterLoadIff | src/storage/rdb.rs:581-622 | an engine comes back exactly if and only if its lists, sorted sets and streams are not empty, its streams have no groups and the id of their newest entry as their last id, and its expiry times are ahead |
| Rdb.ListSurvivesIff | src/storage/rdb.rs:869-942 | a list is read back if and only if it is not empty and does not start with the marker of streams |
| Rdb.SnapshotBytes | src/storage/rdb.rs:406-463 | a snapshot is the nine bytes of its header, auxiliary fields, sections, the end mark and eight bytes of checksum |
| Rdb.OpcodeBytes | src/storage/rdb.rs:423-452 | the opcodes of auxiliary fields, sections and size hints, as numbers |
| Rdb.RecordBytes | src/storage/rdb.rs:544-663 | the opcode of an expiry time and the type byte of every kind of value, as numbers |
| Rdb.MarkerText | src/storage/rdb.rs:581-622 | the marker that tells a stream from a list |
| Rdb.RestoredIs | src/storage/rdb.rs:869-942 | empty lists, sorted sets and streams are not restored, and a stream comes back with the id of its newest entry as its last id and without groups |
| RdbLayout.LayOut | src/storage/rdb.rs:557-660 | a value laid out in the order in which its tables are walked means the same value, and fits if the value does |
| RdbWriter.RdbWriter.WriteRaw | src/storage/rdb.rs:684-692 | appends the bytes and keeps the count and the sum modulo 2^64 |
| RdbWriter.RdbWriter.WriteLength | src/storage/rdb.rs:702-722 | appends the 6-, 14- or 32-bit form |
| RdbWriter.RdbWriter.WriteString | src/storage/rdb.rs:695-699 | appends the length and the bytes |
| RdbWriter.RdbWriter.WriteLog | src/storage/rdb.rs:581-622 | appends a stream as a list: number of strings, marker, entries |
| RdbWriter.RdbWriter.WriteKeyValue | src/storage/rdb.rs:544-663 | appends one record that means exactly the key, the value and the present time plus what is left to live |
| RdbWriter.RdbWriter.WriteKeys | src/storage/rdb.rs:435-450 | the records of the live keys, and of no others |
| RdbWriter.RdbWriter.WriteDatabase | src/storage/rdb.rs:423-452 | a section for a database that has keys, nothing otherwise |
| RdbWriter.RdbWriter.WriteSnapshot | src/storage/rdb.rs:406-463 | the file is a snapshot that describes the live part of the engine, and ends with the sum of all bytes before |
| RdbWriter.CountItems | src/storage/rdb.rs:595-600 | the number of strings a stream takes |
| RdbWriter.SavedLoadsIff | src/storage/rdb.rs:406-463 | what is saved loads back as the live part, as far as that is restored; as exactly the live part if and only if all of it is intact and no expiry time has passed in between |
| RdbWriter.SavedSlots | src/storage/rdb.rs:435-450 | after a save and a load: every key of the saved databases whose value is intact and that has no expiry time, or one after the load, is there with value and expiry time; one that has expired in between is there without expiry time; one that had expired before is not, and no other key is |
| RdbWriter.AliveIff | src/storage/value.rs:175-179 | a key is expired once the clock is beyond its expiry time |
| RdbWriter.SumAdds | src/storage/rdb.rs:684-692 | the checksum is the sum of the bytes |
| RdbReplica.ReplicaEncoder.AppendLength | src/storage/rdb.rs:383-402 | its own length encoding gives the same bytes |
| RdbReplica.ReplicaEncoder.AppendAux | src/storage/rdb.rs:368-380 | one auxiliary field |
| RdbReplica.ReplicaEncoder.AppendItems | src/storage/rdb.rs:274-287 | its loop over the items of a list or the members of a set |
| RdbReplica.ReplicaEncoder.AppendFields | src/storage/rdb.rs:290-295 | its loop over fields and values |
| RdbReplica.ReplicaEncoder.AppendMembers | src/storage/rdb.rs:297-305 | its loop over members and scores |
| RdbReplica.ReplicaEncoder.AppendStream | src/storage/rdb.rs:306-349 | its own count of the strings of a stream, and its loops over entries and fields |
| RdbReplica.ReplicaEncoder.AppendValue | src/storage/rdb.rs:269-350 | a value of every kind gives exactly the bytes of the format |
| RdbReplica.ReplicaEncoder.AppendRecord | src/storage/rdb.rs:242-351 | expiry, type, key and value of one key |
| RdbReplica.ReplicaEncoder.AppendKeys | src/storage/rdb.rs:241-352 | the records of the live keys, and of no others |
| RdbReplica.ReplicaEncoder.AppendDatabase | src/storage/rdb.rs:225-353 | a section without a second size hint for a database that has keys |
| RdbReplica.ReplicaEncoder.Generate | src/storage/rdb.rs:207-365 | the bytes are a snapshot that describes the live part of the engine |
| RdbReplica.EncodeBoth | src/storage/rdb.rs:207-365 | the bytes of the file writer and of the replication encoder, each with its own loops, load as the same engine at any time, in which exactly the right keys are there (as for `SavedSlots`) |
| RdbReader.RdbReader.NextLength | src/storage/rdb.rs:998-1013 | reads the three forms of a length, and fails on the fourth |
| RdbReader.RdbReader.NextString | src/storage/rdb.rs:1016-1021 | reads a length and as many bytes |
| RdbReader.RdbReader.LoadScores | src/storage/rdb.rs:855-868 | adding members while reading them is the same as reading all and adding them then, failures included |
| RdbReader.RdbReader.LoadItems | src/storage/rdb.rs:925-934 | the same for the elements of a list |
| RdbReader.RdbReader.LoadEntries | src/storage/rdb.rs:876-923 | the same for the entries of a stream, with its two ways to stop early |
| RdbReader.RdbReader.LoadRecord | src/storage/rdb.rs:843-982 | a record after its type byte |
| RdbReader.RdbReader.LoadInto | src/storage/rdb.rs:756-802 | the loop over opcodes succeeds exactly when the specified loading does, with the same engine and the same rest |
| RdbReader.SaveAndLoad | src/storage/rdb.rs:1057-1090 | writing with either encoder and reading into an empty engine: every key of the saved databases whose value is intact (streams with their last id and without groups included) and whose expiry time, if any, is after the load comes back with both; a key expired before the save does not, one expired in between loses only its expiry time; the live part comes back as it was if and only if all of it is of the first kind |
| WatchServer.Server.MarkModified | src/storage/engine.rs:76-86 | nothing happens while the shard has no watchers; otherwise the key gets a fresh counter |
| WatchServer.Server.RegisterWatch | src/storage/engine.rs:62-68 | one more watcher; the baseline is the counter of the key |
| WatchServer.Server.UnregisterWatch | src/storage/engine.rs:71-73 | one watcher less |
| WatchServer.Server.WasModifiedSince | src/storage/engine.rs:2110-2130 | true if the counter has grown or the key is expired |
| WatchServer.Server.HandleWatch | src/storage/commands/transactions.rs:96-137 | registers the keys up to the first bad one, renews those watched before, and answers accordingly |
| WatchServer.Server.HandleUnwatch | src/storage/commands/transactions.rs:140-148 | unregisters every watched key and forgets them |
| WatchServer.Server.HandleMulti | src/storage/commands/transactions.rs:26-36 | opens a transaction; refuses a nested one |
| WatchServer.Server.HandleDiscard | src/storage/commands/transactions.rs:82-93 | drops queue and watches; refused without MULTI |
| WatchServer.Server.QueueCommand | src/storage/commands/transactions.rs:156-159 | appends to the queue |
| WatchServer.Server.AnyModified | src/network/server.rs:1077-1107 | the loop over the watched keys finds a modified one exactly when there is one |
| WatchServer.Server.HandleExec | src/network/server.rs:1052-1145 | new state and reply are those of the protocol |
| WatchServer.Server.RunCommands | src/network/server.rs:1134-1142 | one result for each queued command, in order |
| Watch.StepKeeps | src/storage/engine.rs:51-98 | every step of any client, SELECT while watching included, keeps: a shard never counts fewer watchers than are alive in it, and a baseline is below the counter exactly for the keys marked since; UNWATCH must be given in the database of the watches |
| Watch.RunKeeps | src/storage/engine.rs:51-98 | so does every run |
| WatchRuns.RunAgrees | src/storage/commands/transactions.rs:26-159 | over every run a connection is what its client said: its database, whether it is in MULTI, the commands given since in that order, and watched exactly the keys given to WATCH outside MULTI since the latest UNWATCH, EXEC, DISCARD or connect |
| WatchRuns.MarkedIsWritten | src/storage/engine.rs:76-98 | over every run a key is marked since a WATCH exactly when a write or an EXEC in its database wrote it since |
| WatchRuns.ExecRunsIffUntouched | src/network/server.rs:1077-1144 | no lost conflict and no spurious abort, said of the steps of the run alone: an EXEC given where the client gave its watches runs if and only if none of the keys it watches was written there since its latest WATCH and none is expired; then it runs exactly the commands given since MULTI, in order, with their replies; otherwise it runs none and answers null |
| Watch.ExecRunsIffUnmarked | src/network/server.rs:1077-1107 | the same in terms of the recorded marks: EXEC runs its queue if and only if no key in the map of watches was marked since its latest WATCH and none is expired |
| Watch.ExecIsExact | src/network/server.rs:1110-1144 | EXEC runs every queued command once, in order, one result each, or none; the connection is left with empty queue and watches |
| Watch.ExecIsBlindElsewhere | src/network/server.rs:1077-1080 | from every state: writes in other databases than the one EXEC is given in do not change whether it runs |
| Watch.ExecAwayLosesConflicts | src/network/server.rs:1077-1080 | so after every run in which a client is away from the database of a watch and its EXEC would run, a write there is a conflict that EXEC does not see |
| Watch.ExecAwayHappens | src/network/server.rs:1077-1080 | such a run: WATCH, SELECT, a write in the first database, and EXEC runs |
| Watch.UnwatchHarmlessIff | src/storage/commands/transactions.rs:140-148 | in every state that keeps the invariant: giving a watch back leaves every shard with no fewer registrations than live watches if and only if it is given back where it was registered, or the shard found there counts more than are alive in it |
| Watch.UnwatchAwayBlinds | src/storage/commands/transactions.rs:140-148 | from every state: an UNWATCH away from home that takes the last registration of a shard makes the next write there leave no trace |
| Watch.UnwatchAwayLosesConflicts | src/storage/commands/transactions.rs:140-148 | such a run: another client, which never left its database, loses a conflict |
| StreamId.Unpack | src/storage/stream.rs:95-108 | packing and unpacking an id |
| StreamId.PackedOrder | src/storage/stream.rs:200-205 | the order of packed ids is the order of (milliseconds, sequence) |
| StreamId.TextRoundTrip | src/storage/stream.rs:112-141 | an id is read back from its text |
| StreamId.IdIs | src/storage/stream.rs:95-121 | an id is the milliseconds times 2^64 plus the sequence number, and its text both numbers with a dash between |
| Stream.GeneratedIsLarger | src/storage/stream.rs:144-182 | a generated id is larger than the last one, for any clock and any failed compare-and-swap, if and only if the clock has advanced (and a swap succeeded) or the sequence can grow |
| Stream.GeneratedFromClock | src/storage/stream.rs:144-182 | a generated id has the milliseconds of the clock and sequence 0 if the clock has advanced and a swap succeeded; otherwise the old milliseconds and the next sequence number |
| Stream.Stream.AddAuto | src/storage/stream.rs:224-245 | appends under the generated id, with the milliseconds of the clock and sequence 0, or the old milliseconds and the next sequence number; the id is larger than the last one if and only if the clock has advanced or the sequence can grow; the stream, with ids, length and both memory counters, stays exact if and only if the id is above the newest entry |
| Stream.Stream.AddWithId | src/storage/stream.rs:248-273 | refuses an id that is not larger than the last one, otherwise appends |
| Stream.CalculateEntrySize | src/storage/stream.rs:328-338 | the size of an entry does not depend on the order of its fields |
| Stream.FieldsSizeAny | src/storage/stream.rs:328-338 | any field may be counted first |
| Stream.EntrySizes | src/storage/stream.rs:328-338 | 80 bytes for an entry, and key, value and 48 more for each of its fields |
| Stream.Stream.BinarySearch | src/storage/stream.rs:276-290 | finds the id, or the place where it would be |
| Stream.Stream.Range | src/storage/stream.rs:276-307 | both directions with COUNT equal naive filtering, except exactly when the range ends before the first entry and does not start after it, where the first entry is returned |
| Stream.Stream.RangeAfter | src/storage/stream.rs:310-325 | equals naive filtering |
| Delivery.BetweenProps | src/storage/stream.rs:276-325 | naive filtering: exactly the entries with ids from the first bound to the second, both included, in order |
| Stream.CountLimits | src/storage/stream.rs:276-325 | COUNT n gives the first n, or all if there are fewer |
| Stream.Stream.TrimByCount | src/storage/stream.rs:407-430 | keeps the newest entries |
| Stream.Stream.TrimByMinId | src/storage/stream.rs:433-454 | keeps exactly the entries from the given id on |
| Stream.Stream.Delete | src/storage/stream.rs:457-481 | removes exactly the given ids, with duplicates and absent ones among them |
| Stream.WithoutIds | src/storage/stream.rs:457-481 | what is left are exactly the entries with other ids |
| Pending.PendingEntryList.UpdateBounds | src/storage/consumer_groups.rs:561-565 | smallest and largest pending id |
| Pending.PendingEntryList.AddEntry | src/storage/consumer_groups.rs:417-432 | both indexes gain the id; they stay inverse to each other if and only if it was not pending |
| Pending.PendingEntryList.RemoveEntry | src/storage/consumer_groups.rs:435-452 | both indexes lose the id |
| Pending.PendingEntryList.TransferOwnership | src/storage/consumer_groups.rs:460-483 | a pending id moves from one owner to the other and counts one more delivery; any other is passed over |
| Pending.PendingEntryList.RemoveConsumerEntries | src/storage/consumer_groups.rs:486-497 | exactly the ids of that consumer go |
| ConsumerGroup.ConsumerGroup.CreateConsumer | src/storage/consumer_groups.rs:138-161 | a new consumer with nothing pending, seen now; an existing one keeps its counter and is seen now; no other changes |
| ConsumerGroup.ConsumerGroup.DeleteConsumer | src/storage/consumer_groups.rs:164-182 | the consumer and exactly its entries go, and their number is returned |
| ConsumerGroup.ConsumerGroup.AddPending | src/storage/consumer_groups.rs:185-226 | the ids become pending for the consumer, the last delivered id moves on, the total grows by their number; the total is right if and only if they differ and none was pending before, and the group valid if and only if moreover none is beyond the last delivered id |
| ConsumerGroup.ConsumerGroup.Acknowledge | src/storage/consumer_groups.rs:229-251 | exactly the given ids stop being pending; no saturating subtraction ever saturates |
| ConsumerGroup.ConsumerGroup.AckAll | src/storage/consumer_groups.rs:229-244 | the loop: exactly the given ids stop being pending and each owner is counted down |
| ConsumerGroup.ConsumerGroup.ClaimMessages | src/storage/consumer_groups.rs:254-303 | entries change hands one after the other, each at the time the clock then says, and the indexes and counters follow |
| ConsumerGroup.ClaimedExactly | src/storage/consumer_groups.rs:269-300 | of different ids exactly the pending ones that are idle long enough (all, by force) get the new owner; the others are untouched |
| ConsumerGroup.ClaimProtects | src/storage/consumer_groups.rs:269-300 | once an id is handed over at time t, a claim of it without force at a clock below t plus its minimum idle time returns nothing and changes nothing; from then on it gets the id, with one delivery more |
| ConsumerGroup.ClaimedFrom | src/storage/consumer_groups.rs:269-300 | a pending id is handed over if and only if the clock has reached its last delivery plus the minimum idle time |
| ConsumerGroup.ClaimedAnyway | src/storage/consumer_groups.rs:269-300 | by force, or without a minimum, every pending id is |
| ConsumerGroup.IdleSince | src/storage/consumer_groups.rs:272-278 | idle time counts from the last delivery, hand-overs included |
| ConsumerGroup.ConsumerGroup.IdleIds | src/storage/consumer_groups.rs:362-376 | the first ids after the start that are idle long enough, no other before them |
| ConsumerGroup.ConsumerGroup.AutoClaim | src/storage/consumer_groups.rs:353-390 | claims those; all of them unless the clock went back; and where to go on |
| ConsumerGroup.ConsumerGroup.SetId | src/storage/consumer_groups.rs:393-396 | moving the last delivered id forwards keeps the group valid; moving it at all does, if and only if nothing pending is left ahead of it |
| Delivery.ReadGroup | src/storage/stream.rs:530-561 | a ">" read returns the first new entries, makes them pending and moves the last delivered id to the last of them |
| Delivery.StepKeeps | src/storage/stream.rs:530-561 | every step keeps the delivery invariant: additions with given and generated ids, deletions, trims, reads, acknowledgements, claims, auto-claims, consumers created and deleted, SETID forwards |
| Delivery.DeliveredOnceAndInOrder | src/storage/stream.rs:530-561 | over every run the delivered ids form one strictly increasing sequence, and a stored entry was delivered exactly when it is not after the last delivered id and SETID has not skipped it: nothing twice, nothing passed over |
| Delivery.NothingSkipped | src/storage/consumer_groups.rs:393-396 | without SETID nothing is skipped |
| Delivery.UnlimitedReadCatchesUp | src/storage/stream.rs:530-561 | after a read without COUNT every stored entry has been delivered, or skipped by SETID |
| Delivery.Run | src/storage/stream.rs:224-273 | the real stream and group, through any such run, are in the state the theorem speaks about, with inverse pending indexes and exact counters |
| KeyOrder.SortKeys | src/storage/engine.rs:2199 | sorting distinct keys gives the one ascending list of their set |
| KeyOrder.Position | src/storage/engine.rs:2201 | the position of a key is the number of smaller keys |
| KeyOrder.StaysBehindIff | src/storage/engine.rs:2199-2201 | a key that is not among the first n of a set is not among the first n of a changed set if and only if no more of those were removed than there are others below it now |
| Keyspace.Database.Put | src/storage/engine.rs:250-282 | one key more, in the shard its hash names |
| Keyspace.Database.Remove | src/storage/engine.rs:331-347 | one key less |
| Keyspace.Database.Collect | src/storage/engine.rs:2171-2197 | the live keys of the asked type from all shards, each once |
| Scan.PageOf | src/storage/engine.rs:2199-2241 | a page ends with enough matches, enough keys looked at, or the end, and the next cursor is the position after it |
| Keyspace.Database.Scan | src/storage/engine.rs:2165-2242 | SCAN returns that page of the sorted live keys |
| Keyspace.Database.ScanAll | src/storage/engine.rs:2165-2242 | scanning from 0 back to 0 with any counts ends, and returns every wanted live key of all shards exactly once |
| Scan.FullIteration | src/storage/engine.rs:2165-2242 | any complete iteration over unchanged keys returns every wanted key exactly once, in order |
| Scan.PageSize | src/storage/engine.rs:2206-2239 | without a pattern COUNT n gives n keys from the cursor on and moves the cursor behind them, or gives the rest and ends |
| Scan.CountIs | src/storage/engine.rs:2168-2169 | COUNT is 10 if none is given and 1000 at most |
| Keyspace.TypeFilterKeeps | src/storage/engine.rs:2180-2193 | which values each of the six type names keeps |
| Keyspace.ExpiredIsNowhere | src/storage/engine.rs:2176-2178 | an expired key is not returned |
| Scan.IterationEnds | src/storage/engine.rs:2213-2239 | such an iteration has no more calls than there are keys |
| Scan.NothingMissed | src/storage/engine.rs:2165-2242 | a wanted key that is there throughout is returned if, between the calls and until it is returned, no more keys before the cursor are removed than there are others below it |
| Scan.OnPageIff | src/storage/engine.rs:2165-2242 | a wanted key is on a page exactly when its position is |
| Scan.StaysAheadIff | src/storage/engine.rs:2165-2242 | a key still to come after a call is still to come at the next one if and only if the changes in between are so balanced |
| Scan.RemovalsMissIff | src/storage/engine.rs:2165-2242 | where keys are only removed, a wanted key that is there throughout is returned if and only if the removals are balanced until then |
| Scan.GrowingMissesNothing | src/storage/engine.rs:2165-2242 | where keys are only added, no wanted key that was there from the start is missed |
| Scan.RemovalHidesKeys | src/storage/engine.rs:2199-2204 | an instance: removing a key between the calls makes the iteration step over another one |
| Keyspace.SScan | src/storage/engine.rs:2318-2378 | a page of the sorted members, or the whole set at once if it is small |
| Keyspace.HScan | src/storage/engine.rs:2244-2315 | the same for fields, each with its value unless only fields are asked for |
| Keyspace.HashPage | src/storage/engine.rs:2264-2304 | the loop that counts matches by the length of its answer |
| Keyspace.FieldThenValue | src/storage/engine.rs:2264-2304 | in the answer every field stands before its value, in order |
| Keyspace.ZScan | src/storage/engine.rs:2381-2446 | the same for members with their scores |
| Keyspace.MemberWithScore | src/storage/engine.rs:2381-2446 | each member comes with its own score, in order |
| Keyspace.MembersOnce | src/storage/engine.rs:2244-2446 | a complete iteration over a collection returns every wanted member exactly once, whole or page by page |
| PubSub.Registry.SubscribeTo | src/pubsub.rs:76-128 | SUBSCRIBE, and with patterns PSUBSCRIBE: the connection has these topics more, each is confirmed with the right total and newness; both maps stay exact inverses |
| PubSub.Registry.UnsubscribeFrom | src/pubsub.rs:131-177 | UNSUBSCRIBE, and with patterns PUNSUBSCRIBE: the topics go (all, if none are named), empty entries go too |
| PubSub.ConfirmedTotals | src/pubsub.rs:76-128 | the number in a confirmation is that of the channels plus that of the patterns held after that topic |
| PubSub.ReleasedTotals | src/pubsub.rs:131-177 | and so for the topics given up |
| PubSub.ElementsAre | src/pubsub.rs:76-177 | a topic counts once, however often it was named |
| PubSub.CommandsMean | src/pubsub.rs:76-341 | what each command adds to or takes from the channels and patterns of its connection |
| PubSub.Registry.Publish | src/pubsub.rs:271-302 | every connection subscribed directly or by a matching pattern receives once; without a pattern exactly when it subscribed directly, otherwise with one of its own matching patterns |
| PubSub.Registry.Disconnect | src/pubsub.rs:305-341 | a connection disappears from all three maps |
| PubSub.Registry.Run | src/pubsub.rs:76-341 | after any run the connections are the replay of the run, and the two indexes its exact inverse without empty entries |
| PubSub.InverseUnique | src/pubsub.rs:54-63 | there is only one such index |
| PubSub.TidyIff | src/pubsub.rs:84-91 | a command leaves an empty connection entry behind if and only if it subscribes an unknown connection to nothing |
| PubSub.RunIsTidy | src/pubsub.rs:76-341 | with non-empty lists no run leaves an empty connection entry |
| Backlog.ReplicationBacklog.Append | src/replication/backlog.rs:43-55 | the buffer is the end of the whole log, as much as fits, and the offsets stay right |
| Backlog.ReplicationBacklog.AppendCommand | src/replication/backlog.rs:35-58 | the log grows by the printed command, or not at all |
| Backlog.ReplicationBacklog.DataFrom | src/replication/backlog.rs:60-84 | a read succeeds exactly at retained offsets and then gives the rest of the log; the offset is right if and only if no clearing has dropped anything |
| Backlog.ReplicationBacklog.Clear | src/replication/backlog.rs:87-93 | clearing forgets bytes but not the offset of the first, for every size |
| Backlog.CatchUp | src/replication/backlog.rs:35-84 | a replica that resumes at a command boundary parses exactly the commands it has not seen, if and only if there are any and they still fit |
| Blocking.Registry.Block | src/network/blocking.rs:49-57 | the client joins the end of the queue of each key |
| Blocking.BlockedOnEvery | src/network/blocking.rs:49-57 | the queue of every key that was named gains the client at its end, once for each time it was named; no other queue changes |
| Blocking.Registry.Leave | src/network/blocking.rs:60-74 | it leaves every queue; the others keep their order |
| Blocking.NobodyWaits | src/network/blocking.rs:60-74 | nobody of that connection waits any more, and everybody else does |
| Blocking.Registry.HasBlocked | src/network/blocking.rs:77-79 | the key set answers for the queues |
| Blocking.Registry.PopFirst | src/network/blocking.rs:82-93 | the first of the queue, or none |
| Blocking.ExpireQueue | src/network/blocking.rs:101-116 | collecting indices and removing them from the back is the same as filtering |
| Blocking.ExpirySplits | src/network/blocking.rs:101-116 | the clients that stay are exactly those not due, the connections returned exactly those due |
| Blocking.DueFromDeadline | src/network/blocking.rs:101-116 | a client without a deadline never expires; any other waits until the clock has reached its deadline |
| Blocking.Registry.ExpireAll | src/network/blocking.rs:96-131 | expiry does this to every queue, drops the empty ones and returns all connections that were due |
| Blocking.Registry.Run | src/network/blocking.rs:49-131 | after any run the key set is that of the non-empty queues and the queues are the replay of the run |
| Blocking.FirstComeFirstServed | src/network/blocking.rs:82-93 | in every run each queue stands in the order of arrival |

## Left out

- BLPOP and BRPOP from end to end: only the registry of blocked clients.
- Explicit-id re-reads of a group, NOACK, XPENDING, the start id of a group, and the auto-claim cursor as an iterator over all entries.
- TCP, threads, locks, fsync, file renaming, Lua, configuration, INFO and other reporting.
- Append-only file: loading and replay are stubs in the source.
- Partial resynchronisation of replicas: the master's offset counts commands, the backlog counts bytes; only the backlog itself is modelled.
- Writes that do not mark their key (FLUSHDB, the old key of RENAME, EXPIRE, PERSIST) in the WATCH model; a write is what marks keys.
- Background expiry and the engine's memory totals.
- Negative indexes of LRANGE, LTRIM, ZRANGE and GETRANGE.
- RespStream.ChunkingIndependence: floating-point text is a pair of functions given as a parameter, and a double belongs to the guarantee when its text reads back; memory reserved ahead for announced lengths is not modelled.
- RespIo.ParseFrameM: invalid UTF-8 and malformed numbers are one error each, without the text of the message.
- WatchRuns.ExecRunsIffUntouched: runs shorter than 2^64 events, so that no counter wraps.
- Stream.CalculateEntrySize: the sizes of machine types are those of a 64-bit target.
- RdbWriter.RdbWriter.WriteSnapshot: the clock stands still during a save, times are whole milliseconds, and the expired keys that a save removes on its way are not removed from the engine.
- RdbReader.RdbReader.LoadInto: database numbers are taken to be valid, and the doubled field count of a stream entry does not overflow.
- Keyspace.SScan: the value is looked up by the caller; removing an expired key at the lookup is not modelled (likewise HScan and ZScan).
- Scan.PageOf: the decoding of bytes into characters, which replaces invalid UTF-8, is a parameter.
- Keyspace.Database.Put: only what it does to the shards; memory accounting and the record of expiring keys are not modelled.
- Keyspace.Database.Remove: the same.
- RdbLayout.LayOut: sorted sets are laid out in any order, not by score.
- RdbReplica.ReplicaEncoder.Generate: the clock stands still, as for the file writer.
- WatchServer.Server.HandleWatch: database numbers are valid, so that a registration is never refused and the fallback counters are not used.
- WatchServer.Server.AnyModified: for the same reason the branch that aborts on a storage error is absent.
- Keyspace.ZScan: a sorted set is not empty; the source computes its length minus one.
- Delivery.StepKeeps: generated ids at the end of the sequence and SETID backwards are excluded by `Fits`; `Stream.Stream.AddAuto` and `ConsumerGroup.ConsumerGroup.SetId` say what they do.
- RespIo.ParseScalarM: the same two messages are merged.
