# Models of the YCSB benchmark's Redis client and NVM recovery engines

The repository is a C++ YCSB benchmark. Two parts of it hold logic whose correctness is not
obvious: the vendored copy of the hiredis client under `redis/hiredis/`, and three engines under
`recovery/` that persist tuples in non-volatile memory. This project models both in Dafny and proves
what they are for.

**The reply reader** (`Bytes`, `Decimal`, `Resp`, `RespErrors`, `Resume`, `Arena`, `TaskStack`, `Reader`,
`ReaderRuns`). `Resp` gives the Redis serialization protocol (RESP version 2; sections "Simple
strings", "Simple errors", "Integers", "Bulk strings" and "Arrays") as a recursive-descent parser and
as a printer, and `RespErrors` says exactly which streams it refuses and what each type byte means.
`Reader.Reader` is the incremental reader: a cursor into a growing buffer, nine task
slots, reply objects linked through parent tasks, sticky errors, compaction after 1024 bytes.
`Resume` says what a half-read stack still needs, `TaskStack` relates the slots and objects to that,
and every step of the reader keeps the relation. The main result, `ReaderRuns.Drive`, is that any
chunking of any byte stream, with requests for replies anywhere in between, gives what the recursive
parser gives on the whole stream.

**Commands** (`Sds`, `SdsBuffer`, `Command`, `Pipeline`, `Template`, `Split`, `Quote`, `TokenLaws`). The formatters
with their precomputed lengths, the string library below them, the output buffer and its partial
writes, format strings, the argument walk, and the quoting printer with its tokenizer. The main
results are `Pipeline.Deliver` (commands arrive at a reader in order and byte for byte, whatever the
writes and reads look like), `Template.TemplateMeaning`, `Pipeline.ArgumentsOfWire`,
`Quote.QuotingRoundTrip` and, for lines that nobody printed, `TokenLaws.LineReads` and
`TokenLaws.RefusedExactly`.

**Recovery engines** (`Recovery`, `PoolLog`, `PersistentList`, `PoolEngine`, `BlockDevice`, `BlockEngine`,
`LogEngine`, `Engines`). Recovery is last-writer-wins replay of the disk log and then of what is still
in non-volatile memory; `Recover` itself is a stub in the source (recovery/nvrec_engine.cc:42-45), so
replay is the specification, following the intent of the commented-out code at
recovery/persistent_list.cc:56-66. `PoolLog` is the pool-rotation protocol as a state machine over
values and `PoolLog.EveryRunIsSafe` its crash safety in every reachable state; `PoolEngine` is the
engine in place, each of whose steps is a step of that machine. The log engine is proved directly, and
`Engines.Compare` puts all three side by side.

The block engine keeps only in memory which of its blocks are live. Replay of the disk log and the live
blocks always recovers the last tuple per key, but a crash destroys the index, and what is left is the
whole device. `BlockDevice.StaleTupleWins` and `BlockEngine.Relapse` give a run after which replaying the
whole device brings an overwritten tuple back; `BlockDevice.Device.WholeDeviceReplay` says exactly when it
does not: when every block behind the live ones holds the latest tuple of its key, that is, when its key
either is not live again (and there has been a flush) or is live with the same tuple.

**Hash table and callbacks** (`Masks`, `Chains`, `Dict`, `CallbackList`, `Async`, `AsyncLaws`,
`Client`). The chained,
doubling hash table against a finite map over whole runs: entries are linked nodes that are relinked and
unlinked in place, and the iterator holds node pointers, so that a walk survives the deletion of any entry
but the one it has saved, and no other. And the asynchronous connection, whose linked queue pairs replies
with callbacks that may issue commands, disconnect or free the connection. `Async.Conn` says on values what each event must do; the class gets
there step by step, and `Async.EveryRunIsFair` and `AsyncLaws` are what holds of all runs: who gets which
answer, which commands are accepted, and when the connection closes. `Client` puts the connection on
top of the reply reader: bytes in, callbacks out.

Conventions: a crash point, a full pool, a refused write, the chunking of input and the effect of a
callback are parameters, so that statements about them hold for every choice. Allocation succeeds.
Where code does something odd, the model does it too: a header line's number is read up to its first
CR even if the line goes on, unexpected input in a number counts as -1, an array header with a count below
-1 makes an array object without storage (`Resp.Hollow`), the two bytes behind a string are skipped whatever
they are, and vertical tabs and form feeds separate tokens only behind another blank.

## Model

| member | source | states |
|---|---|---|
| `Resp.ParseStays` | redis/hiredis/read.c:477-525 | Once a prefix of the stream decides a reply or an error, no further input changes it; only the unread rest grows. |
| `Resp.DecodePrefix` | redis/hiredis/read.c:477-525 | More input only adds replies to those of a stream, and adds none behind an error. |
| `Resp.RoundTrip` | redis/hiredis/read.c:215-365 | Printing any reply tree and parsing it returns that tree and leaves what follows untouched, except that a tree with an array at depth 8 or deeper gives the nesting error, and only such a tree does. |
| `Resp.DecodeEncoded` | redis/hiredis/read.c:302-365 | A stream of printed replies decodes to exactly these replies, or to those before the first one that nests too deeply, followed by the nesting error. |
| `RespErrors.BadExactly` | redis/hiredis/read.c:302-392 | An item is refused if and only if a route through its arrays leads to a type byte other than 36, 42, 43, 45 and 58, and then for that byte, or to an array with eight arrays open around it, and then for the nesting. |
| `RespErrors.StreamFailsExactly` | redis/hiredis/read.c:367-414 | A stream ends in an error if and only if, behind its replies, the next item has such a fault, and the error is that fault. |
| `RespErrors.NestedFault` | redis/hiredis/read.c:309-392 | After any replies and inside any open arrays, a byte that is no type code ends the stream with its error whatever follows, and so does, at once, an array type byte with eight arrays open. |
| `RespErrors.LineCodes` | redis/hiredis/read.c:374-386 | What the codes 43, 45 and 58 introduce: the line that follows as status, error or integer. |
| `RespErrors.BulkCode` | redis/hiredis/read.c:249-300 | Code 36 introduces a string of the announced length, with any two bytes behind it, or a nil when the length is negative. |
| `RespErrors.ArrayCode` | redis/hiredis/read.c:316-357 | Code 42 introduces an array of the announced count, a nil for -1, and an array without storage below. |
| `Decimal.IntegerOfPrint` | redis/hiredis/read.c:148-173 | Every printed integer reads back as itself. |
| `Decimal.SignedNumbers` | redis/hiredis/read.c:153-172 | A plus sign changes nothing, a minus sign negates, and an empty number is zero. |
| `Decimal.MalformedNumber` | redis/hiredis/read.c:161-170 | A byte other than a digit, behind the sign and before the first CR, makes the number -1. |
| `Decimal.LeadingZero` | redis/hiredis/read.c:161-166 | Leading zeros do not count. |
| `Resume.FeedKeepsTracking` | redis/hiredis/read.c:445-475 | Appending input keeps the promise that resuming the half-read stack gives what parsing from the reply's start gives, for all continuations. |
| `Resume.HeaderRead` | redis/hiredis/read.c:316-356 | Replacing the rest of an array by a new stack frame keeps that promise. |
| `Resume.NextElement` | redis/hiredis/read.c:204-211 | Stepping to the next element of the innermost array keeps it. |
| `Resume.LastElement` | redis/hiredis/read.c:199-203 | Popping a frame after its last element turns the frame into one finished array and keeps it. |
| `TaskStack.Installed` | redis/hiredis/hiredis.c:102-191 | Creating an object and storing it in its parent's slot disturbs no open array and no finished sibling. |
| `TaskStack.Pushed` | redis/hiredis/read.c:343-353 | A fresh array with empty slots becomes the innermost open array; all others are as before. |
| `TaskStack.Advanced` | redis/hiredis/read.c:204-211 | After a finished element the next index is in range, earlier siblings are filled, and the frame holds one more value. |
| `TaskStack.Popped` | redis/hiredis/read.c:190-203 | When the last slot is filled, the array object below is a complete tree with exactly the collected elements. |
| `Arena.Untouched` | redis/hiredis/hiredis.c:102-191 | A finished reply tree keeps its value under later allocations and writes to older objects. |
| `Reader.SeekNewline` | redis/hiredis/read.c:120-144 | Finds the first CR LF pair of the unread bytes, or none when there is none. |
| `Reader.ReadLongLong` | redis/hiredis/read.c:148-173 | Reads the value of the header line; malformed text gives -1. |
| `Reader.Reader.SetError` | redis/hiredis/read.c:46-70 | Records an error that the recursive parser reports too, and drops buffer, stack and partial reply. |
| `Reader.Reader.Feed` | redis/hiredis/read.c:445-475 | Accepts input exactly when no error is recorded, and keeps the reader's invariant. |
| `Reader.Reader.MoveToNextTask` | redis/hiredis/read.c:190-213 | Places the finished object: either the reply is whole and hangs off the root, or the stack waits for the next element of the right array. |
| `Reader.Reader.Create` | redis/hiredis/hiredis.c:102-191 | A new object is linked into its parent at the task's index; the meaning of the stack stays. |
| `Reader.Reader.ProcessLineItem` | redis/hiredis/read.c:215-247 | Success consumes input and keeps the stack invariant; failure means that the whole reply is undecided. |
| `Reader.Reader.ProcessBulkItem` | redis/hiredis/read.c:249-300 | The same for length-prefixed strings, whatever bytes they hold. |
| `Reader.Reader.ProcessMultiBulkItem` | redis/hiredis/read.c:302-365 | The same for arrays; the nesting error arises exactly in slot 8. |
| `Reader.Reader.ProcessItem` | redis/hiredis/read.c:367-414 | Every success strictly decreases the unread bytes; every failure is an error of the recursive parser or its need for more input. |
| `Reader.Reader.Compact` | redis/hiredis/read.c:510-516 | Dropping the consumed part of the buffer does not change the unread bytes. |
| `Reader.Reader.GetReply` | redis/hiredis/read.c:477-525 | Hands out the next reply of the stream as a complete tree, or nothing because the parser needs more, or the error, which stays; the loop terminates. |
| `Reader.Reader.Agrees` | redis/hiredis/read.c:477-525 | In every reachable state the replies handed out are a prefix of those of the stream, and an error is the stream's error whatever follows. |
| `ReaderRuns.Drive` | redis/hiredis/read.c:367-525 | For every sequence of feeds and requests, the replies, the final error and the wait are those of the recursive parser on the concatenated input. |
| `ReaderRuns.InputConcat` | redis/hiredis/read.c:445-475 | The input of a run is what is fed, in order, whatever is asked in between. |
| `ReaderRuns.ReadBack` | redis/hiredis/read.c:46-365 | Any printed replies come back as the same trees under any chunking, up to the first that nests too deeply, which leaves the reader in the nesting error. |
| `Command.CountDigits` | redis/hiredis/hiredis.c:193-203 | Counts the decimal digits of every value. |
| `Command.TotalLength` | redis/hiredis/hiredis.c:535-541 | The precomputed total is the exact length of the wire form. |
| `Command.FormatCommandArgv` | redis/hiredis/hiredis.c:530-566 | Fills a buffer of exactly the precomputed size with the protocol's array of bulk strings, and terminates it. |
| `Command.FormatSdsCommandArgv` | redis/hiredis/hiredis.c:477-519 | The formatter on top of the string library produces the same bytes as the plain one, and its precomputed length is the string's length. |
| `Pipeline.Context.AppendCommand` | redis/hiredis/hiredis.c:907-918 | Queues the wire form behind what is queued already. |
| `Pipeline.Context.BufferWrite` | redis/hiredis/hiredis.c:831-858 | Whatever the socket takes, written and queued bytes together are conserved in order, exactly the bytes taken move from one to the other, and an error is sticky. |
| `Pipeline.Send` | redis/hiredis/hiredis.c:831-990 | After any interleaving of commands and partial writes, written plus queued bytes are the commands' wire forms in order, and as many are written as the writes add up to. |
| `Pipeline.TrackMore` | redis/hiredis/hiredis.c:838-857 | A write moves exactly what it takes or all that is queued, whichever is less; only a failing write with something queued breaks the connection. |
| `Pipeline.WrittenExactly` | redis/hiredis/hiredis.c:831-918 | Without a broken socket, the bytes written are the least, over all moments, of what was issued before and offered after it. |
| `Pipeline.CatchUp` | redis/hiredis/hiredis.c:838-857 | Writes behind the last command take all that is queued, or else exactly what they add up to. |
| `Pipeline.BrokenForGood` | redis/hiredis/hiredis.c:834-846 | After a failed write nothing more is written. |
| `Pipeline.Deliver` | redis/hiredis/hiredis.c:530-918 | End to end: for all commands, writes and chunkings the receiving reader gets, without error, exactly the argument lists whose last byte has been written, and all of them when nothing is queued. |
| `Pipeline.DeliverAll` | redis/hiredis/hiredis.c:530-918 | Once the writes behind the last command cover what is queued, every command arrives. |
| `Pipeline.PartDecodes` | redis/hiredis/read.c:477-525 | The beginning of a stream of commands, cut anywhere, decodes to exactly the whole commands in it; part of a command is never a reply. |
| `Pipeline.NextIs` | redis/hiredis/async.c:566-578 | From the start of argument j the walk returns argument j and the start of the next, and nothing behind the last. |
| `Pipeline.ArgumentsOfWire` | redis/hiredis/async.c:566-578 | Walking over a formatted command yields exactly its arguments, even when they hold dollar signs, CR, LF or NUL, and then stops. |
| `Pipeline.ListArguments` | redis/hiredis/async.c:600-620 | The loop over the walk collects these arguments and terminates on every input. |
| `Pipeline.IntegerRoundTrip` | redis/hiredis/sds.c:299-329 | What the string library prints for an integer above the minimum, the reader reads back. |
| `Template.FormatCommand` | redis/hiredis/hiredis.c:210-442 | The scan with its running length ends exactly at the wire form of the arguments that the format denotes. |
| `Template.TemplateMeaning` | redis/hiredis/hiredis.c:226-278 | A template of words made of literals, `%s`, `%b` and `%%` denotes one argument per word with the values put in: values with spaces are not split, empty values stay. |
| `Template.PercentMeaning` | redis/hiredis/hiredis.c:232-256 | A percent sign that ends the format belongs literally to the last word, also when it is all of it. |
| `Template.FormatTemplate` | redis/hiredis/hiredis.c:210-442 | Hence the formatted template, with or without such a percent sign, is the wire form of those arguments. |
| `SdsBuffer.PutDigits` | redis/hiredis/sds.c:303-310 | The digit loop leaves the decimal digits in reverse. |
| `SdsBuffer.ReverseInPlace` | redis/hiredis/sds.c:317-327 | The exchange loop reverses the digits in place and touches nothing behind them. |
| `SdsBuffer.Ll2Str` | redis/hiredis/sds.c:299-329 | Prints every signed 64-bit integer, terminated, within 21 bytes. |
| `SdsBuffer.Ull2Str` | redis/hiredis/sds.c:331-357 | Prints an unsigned integer, terminated, within 21 bytes. |
| `SdsBuffer.Buffer.MakeRoomFor` | redis/hiredis/sds.c:129-149 | There is room for the requested bytes and the terminator; the content does not change; growth doubles up to one megabyte of spare room. |
| `SdsBuffer.Buffer.CatLen` | redis/hiredis/sds.c:237-249 | Appends any bytes and keeps length, spare room and terminator consistent. |
| `SdsBuffer.Buffer.Range` | redis/hiredis/sds.c:575-603 | Keeps exactly the inclusive range, for negative, crossing and overlong indices too, without changing the allocation. |
| `SdsBuffer.Buffer.CatFmt` | redis/hiredis/sds.c:425-526 | Appends the rendering of the format for every matching argument list, with room made as needed; `%s` stops at a NUL, `%S` does not. |
| `SdsBuffer.FormatMeaning` | redis/hiredis/sds.c:446-518 | A format built of plain bytes, conversions and marked bytes prints their values in order: `%s` up to a NUL, `%S` whole, `%i`, `%I`, `%u`, `%U` and `%T` in decimal, any other marked byte itself. |
| `Sds.RangeToEnd` | redis/hiredis/sds.c:575-603 | Cutting from p to -1 keeps what is behind p, also when that is nothing. |
| `Sds.RangeKeeps` | redis/hiredis/sds.c:575-603 | Byte i survives exactly when it lies between both ends, counted from the end when negative, an end before the front counting as the first byte. |
| `Sds.RoomForAsMuch` | redis/hiredis/sds.c:129-149 | A string that has to grow can then take as much again, up to a megabyte, without growing. |
| `Split.SplitLen` | redis/hiredis/sds.c:658-705 | Tokens cut at the leftmost separators that join back to the input; the token array always has room for the last one; only an empty separator is refused. |
| `Split.TokensAreFree` | redis/hiredis/sds.c:658-705 | No token contains the separator. |
| `Split.SplitUnique` | redis/hiredis/sds.c:658-705 | These properties determine the tokens. |
| `Split.JoinSds` | redis/hiredis/sds.c:962-971 | Joins with the separator between neighbours only. |
| `Quote.CatRepr` | redis/hiredis/sds.c:740-763 | Appends the quoted form. |
| `TokenLaws.EscapeForms` | redis/hiredis/sds.c:744-759 | Which bytes are printed with a backslash, which as they are, and which in hexadecimal. |
| `TokenLaws.ReprPrintable` | redis/hiredis/sds.c:740-763 | The quoted form of any bytes is printable text. |
| `Quote.SplitArgs` | redis/hiredis/sds.c:815-923 | The pointer-driven tokenizer agrees with the recursive tokenizer on every line, including which lines it refuses. |
| `TokenLaws.LineReads` | redis/hiredis/sds.c:815-923 | A line of bare words and of bare prefixes with a single- or double-quoted part, separated by blanks, gives exactly their texts, with every escape read as it should. |
| `TokenLaws.SingleQuotedLine` | redis/hiredis/sds.c:866-883 | Single quotes carry a text with its apostrophes escaped if and only if it has no NUL and does not end in a backslash; otherwise the line is refused. |
| `TokenLaws.RefusedExactly` | redis/hiredis/sds.c:852-883 | A line is refused if and only if a quote stays open or a closing quote is followed by neither a blank nor a NUL. |
| `Quote.QuotingRoundTrip` | redis/hiredis/sds.c:740-923 | For every list of byte strings, the quoted forms joined by spaces tokenize to that list. |
| `Quote.QuoteAndSplit` | redis/hiredis/sds.c:740-971 | The same for the three loops that quote, join and split. |
| `Recovery.ReplayIsLast` | recovery/persistent_list.cc:56-66 | Replay holds exactly the keys of the log, each with its last tuple. |
| `Recovery.RewriteHarmless` | recovery/nvrec_engine.cc:89-97 | Writing part of an epoch and later all of it replays like writing it once. |
| `Recovery.CrashHarmless` | recovery/nvrec_engine.cc:89-99 | A crash that leaves any part of an epoch on disk is harmless while the epoch is still in memory and anything newer comes behind it. |
| `Recovery.OrderIrrelevant` | recovery/nvrec_engine.cc:87-96 | Two logs with the same tuples and distinct keys replay alike. |
| `Recovery.ReplaceInPlace` | recovery/nvrec_engine.cc:54-56 | Overwriting the one tuple of a key in place replays like appending it. |
| `PoolLog.WalkOrderIrrelevant` | recovery/nvrec_engine.cc:87-96 | Flushing a pool newest first replays like flushing it oldest first. |
| `PoolLog.UpdateReplays` | recovery/nvrec_engine.cc:49-57 | Insert-or-overwrite keeps one tuple per key and makes the new one the last. |
| `PoolLog.State.CrashSafe` | recovery/nvrec_engine.cc:80-104 | In a state with the invariant, losing any unsynced part of the disk log loses no persisted tuple. |
| `PoolLog.State.DoKeeps` | recovery/nvrec_engine.cc:47-104 | Every step of writer and flusher keeps the invariant. |
| `PoolLog.EveryRunIsSafe` | recovery/nvrec_engine.cc:47-104 | In every reachable state the disk log is whole pools in sealing order plus the copied part of the sealed one, keys are distinct within a pool, and recovery after any crash gives the last tuple persisted per key. |
| `PersistentList.List.Insert` | recovery/persistent_list.cc:104-117 | The new node is the head; the list in both directions is the old one with it added. |
| `PersistentList.List.Replace` | recovery/nvrec_engine.cc:54-56 | Overwriting a node's tuple changes that tuple alone, and no link. |
| `PersistentList.List.Forward` | recovery/nvrec_engine.cc:87-96 | Following `next` from the head gives the tuples newest first. |
| `PersistentList.List.Backward` | recovery/persistent_list.cc:104-117 | Following `prev` from the tail gives the exact reverse. |
| `PoolEngine.Engine.Put` | recovery/nvrec_engine.cc:49-57 | The transaction is one step of the protocol; the lookup table maps each key of the pool to the one node that carries it. |
| `PoolEngine.Engine.FlusherStep` | recovery/nvrec_engine.cc:80-104 | Following the sealed list node by node, syncing and unlinking are steps of the protocol, whatever the writer does meanwhile; the unlinked pool is never the active one. |
| `PoolEngine.Engine.Await` | recovery/nvrec_engine.cc:59-59 | Waiting for the flush in flight terminates and leaves none, so at most one is ever in flight. |
| `PoolEngine.Engine.Seal` | recovery/nvrec_engine.cc:61-74 | Sealing hands the list to the flusher and starts an empty pool with the next number and an empty table; from then on the writer cannot reach the sealed nodes. |
| `PoolEngine.Engine.NewHead` | recovery/nvrec_engine.cc:52-53 | A new node goes to the active pool and leaves the list that the flusher is walking untouched. |
| `PoolEngine.Engine.Rotate` | recovery/nvrec_engine.cc:58-74 | Waiting for the flush in flight, sealing and starting over is a run of the protocol that persists nothing. |
| `PoolEngine.Engine.PersistRaw` | recovery/nvrec_engine.cc:47-78 | With any signal for running out of space that spares a fresh pool, persisting is a run of the protocol that persists this tuple alone, and rotates exactly once if the pool is full: the retry is the last because the pool is fresh. |
| `PoolEngine.Serve` | recovery/nvrec_engine.cc:47-104 | Any list of requests, failing for any reason any number of times before they succeed, with the flusher at work in between, is a run of the protocol that persists exactly these tuples. |
| `PoolEngine.TuplesExactly` | recovery/nvrec_engine.cc:28-40 | The persisted tuples are those of the requests, one each and in order. |
| `PoolEngine.Run` | recovery/nvrec_engine.cc:47-108 | Any run that ends in a crash, in the middle of a request or of a flush, recovers the last tuple persisted per key. |
| `BlockDevice.Device.WrittenKeeps` | recovery/nvmblk_engine.cc:54-76 | A write keeps the bijection between live keys and live blocks, each block holding its key's latest tuple, and keeps the blocks behind them those of the last flush. |
| `BlockDevice.Device.FreedKeeps` | recovery/nvmblk_engine.cc:95-107 | Freeing blocks that are all live and on disk keeps the same. |
| `BlockDevice.Device.LatestMeans` | recovery/nvmblk_engine.cc:78-86 | A block behind the live ones holds the latest tuple of its key exactly when that key is live with the same tuple, or not live and flushed. |
| `BlockDevice.Device.WholeDeviceReplay` | recovery/nvmblk_engine.cc:54-112 | Replaying the disk log and then the whole device recovers the last tuple per key if and only if every block behind the live ones holds the latest tuple of its key. |
| `BlockDevice.StaleTupleWins` | recovery/nvmblk_engine.cc:54-112 | With three blocks and the updates A1 B1 C1 D1 C2 the whole device replays to C1, not to C2. |
| `BlockEngine.Relapse` | recovery/nvmblk_engine.cc:54-112 | The engine itself, run on these updates, ends with a device whose replay differs from the last tuples. |
| `BlockEngine.Engine.UpdateTuple` | recovery/nvmblk_engine.cc:78-86 | The device becomes what the model of an update says, with the bijection kept; a success adds exactly this tuple to the history, a failure nothing. |
| `BlockEngine.Engine.UpdateOnNewBlk` | recovery/nvmblk_engine.cc:54-65 | A flush happens only when every block is live; the key then gets the next free block. |
| `BlockEngine.Engine.UpdateOnBlkPosition` | recovery/nvmblk_engine.cc:67-76 | Overwriting the block of a key keeps the bijection and makes the tuple the latest. |
| `BlockEngine.Engine.FlushToDisk` | recovery/nvmblk_engine.cc:88-112 | The disk log grows by all live blocks, which become free; stopping at any point in between is still recoverable. |
| `BlockEngine.Engine.ReplayLive` | recovery/nvmblk_engine.cc:88-112 | Replaying what survives of the disk log and then the live blocks gives the last tuple per key, at any point of a flush. |
| `BlockEngine.Engine.ReplayDevice` | recovery/nvmblk_engine.cc:88-112 | Replaying what survives of the disk log and then the whole device does so exactly when the blocks behind the live ones are the latest of their keys. |
| `BlockEngine.Run` | recovery/nvmblk_engine.cc:54-112 | After any run, crashing possibly in the middle of a flush, the live blocks behind the disk log hold exactly the successful updates, and the whole device does exactly when no block behind them is out of date; only refused writes fail, and only a flush cut short ends a run early. |
| `BlockEngine.NothingRefused` | recovery/nvmblk_engine.cc:54-86 | If the device accepts every write and no flush is cut short, every update succeeds. |
| `LogEngine.Engine.UpdateOnLog` | recovery/nvmlog_engine.cc:59-71 | Disk log and log together stay the ordered history, and the byte count that of the log and within the device; an accepting device refuses only tuples larger than itself. |
| `LogEngine.Engine.FlushToDisk` | recovery/nvmlog_engine.cc:73-94 | Moves the log behind the disk log; a stop at any point, also between sync and rewind, is recoverable. |
| `LogEngine.Engine.Crash` | recovery/nvmlog_engine.cc:73-94 | Replaying what survives of the disk log and then the log gives the last tuple per key. |
| `LogEngine.Run` | recovery/nvmlog_engine.cc:59-94 | Any run, crashing possibly in the middle of a flush, recovers exactly the successful appends; only refused appends fail, and only a flush cut short ends a run early. |
| `LogEngine.NothingRefused` | recovery/nvmlog_engine.cc:59-71 | If the device accepts every append and no flush is cut short, every append succeeds. |
| `Engines.Compare` | recovery/nvrec_engine.cc:47-104 | The three engines, each crashing at its own moment, recover the same table when the same updates succeeded on them, and so always when the devices accept every write and no flush is cut short; for the block engine from its live blocks, and from its whole device exactly when no block behind them is out of date. |
| `Masks.AndMask` | redis/hiredis/dict.c:99-115 | Masking a hash with a power of two minus one leaves the remainder, so the bucket is in range. |
| `Masks.NextPower` | redis/hiredis/dict.c:306-315 | The smallest power of two of at least 4 that is not below the request. |
| `Chains.StepKeeps` | redis/hiredis/dict.c:114-125 | Relinking the next entry of an old chain in front of its new chain keeps every chain linked and every entry at one place. |
| `Chains.DeleteKeeps` | redis/hiredis/dict.c:189-204 | Making the predecessor, or the head, skip an entry takes that entry, and no other, out of its chain. |
| `Dict.Dict.MoveEntry` | redis/hiredis/dict.c:114-125 | The entry becomes the head of its new chain, and the saved successor is the rest of the old one. |
| `Dict.Dict.Rehash` | redis/hiredis/dict.c:106-127 | After relinking bucket by bucket the new table holds the same entries, each in the bucket of its hash, although the walk stops at the entry count. |
| `Dict.Dict.Expand` | redis/hiredis/dict.c:88-132 | Fails exactly when the entries would not fit, and otherwise loses or duplicates nothing and has the smallest sufficient power of two as its size. |
| `Dict.Dict.ExpandIfNeeded` | redis/hiredis/dict.c:295-303 | Afterwards there is a free place and the map is the same; the size is 4 at first, doubles exactly when the table is full, and else stays. |
| `Dict.Dict.Find` | redis/hiredis/dict.c:243-256 | Finds the value the map has, or nothing when the map has none. |
| `Dict.Dict.Add` | redis/hiredis/dict.c:135-154 | Adds exactly the new key; refuses exactly the present ones. |
| `Dict.Dict.Replace` | redis/hiredis/dict.c:160-179 | Sets the value and tells whether the key was new. |
| `Dict.Dict.Delete` | redis/hiredis/dict.c:182-210 | Removes exactly the key by unlinking its entry through the one before it; every other entry keeps its place. |
| `Dict.Iterator.Next` | redis/hiredis/dict.c:268-286 | Each call returns one entry of those not returned yet, which is not the one it saves, until none is left. |
| `Chains.DropKeeps` | redis/hiredis/dict.c:278-282 | Taking any entry out of the table leaves a walk usable if and only if it is not the saved one, and then takes just that entry from what is ahead. |
| `Dict.Iterator.Drop` | redis/hiredis/dict.c:278-282 | Deleting a key in the middle of a walk leaves the iterator valid if and only if the key's entry is not the saved node; then what is ahead loses that entry at most. |
| `Dict.Iterator.DropReturned` | redis/hiredis/dict.c:278-282 | Deleting the entry returned last does not disturb what lies ahead. |
| `Dict.Iterate` | redis/hiredis/dict.c:258-286 | A full walk visits every entry exactly once even if any of the returned entries are deleted on the way, and exactly those are gone afterwards. |
| `Dict.Run` | redis/hiredis/dict.c:88-337 | Any run of add, replace, delete and find answers like a finite map, for every hash function; a walk then visits that map's entries once each, deleting as it goes, and a second one visits those left. |
| `CallbackList.List.Push` | redis/hiredis/async.c:227-247 | Appends to the queue. |
| `CallbackList.List.Shift` | redis/hiredis/async.c:249-263 | Removes the oldest callback, or reports that there is none. |
| `Async.Connection.AsyncCommand` | redis/hiredis/async.c:583-648 | Accepts a command exactly when the connection is not closing, and queues its callback last. |
| `Async.Connection.RunCallback` | redis/hiredis/async.c:265-272 | A callback can only add accepted commands or mark the connection; on a closing one it adds nothing. |
| `Async.Connection.TearDown` | redis/hiredis/async.c:275-317 | The drain terminates, answers every pending command with NULL, and accepts none on the way. |
| `Async.Connection.AsyncFree` | redis/hiredis/async.c:323-328 | Closes at once, with every command answered. |
| `Async.Connection.DisconnectNow` | redis/hiredis/async.c:331-349 | A clean disconnect finds nothing pending; any other answers what is. |
| `Async.Connection.AsyncDisconnect` | redis/hiredis/async.c:357-362 | Closes now if nothing is pending, and otherwise refuses new commands from now on. |
| `Async.Connection.ProcessReply` | redis/hiredis/async.c:437-483 | A reply goes to the oldest waiting command, whose callback acts and may end the connection; without one, an error reply closes the connection and any other fails the library's assertion. |
| `Async.Connection.Settle` | redis/hiredis/async.c:418-488 | Without further replies the connection closes exactly on a broken stream or on a disconnect with nothing left to write or wait for. |
| `Async.Connection.ProcessCallbacks` | redis/hiredis/async.c:411-489 | The available replies go to the waiting commands in order, as long as the connection is open. |
| `Async.CallsExact` | redis/hiredis/async.c:265-272 | The invocations owed are exactly one per answered command with a callback, carrying that command's answer. |
| `Async.CallsInOrder` | redis/hiredis/async.c:227-263 | They are owed in issue order. |
| `Async.EveryRunIsFair` | redis/hiredis/async.c:227-648 | After any events and whatever the callbacks do, the i-th reply has answered the i-th accepted command and NULL those a teardown found waiting; an open connection has used every reply it was sent, a closed one owes no answer, and the library's assertion fails only when replies outnumber commands. |
| `AsyncLaws.RepliesLaw` | redis/hiredis/async.c:437-483 | Replies go to the waiting commands in turn; what their callbacks issue is accepted behind the rest until one asks to close; the connection ends with the callback that frees it or with a reply nobody waits for. |
| `AsyncLaws.AcceptLaw` | redis/hiredis/async.c:583-648 | Commands are accepted in the order the application or the callbacks of replies issue them, and none once the connection is closing. |
| `AsyncLaws.OutputLaw` | redis/hiredis/async.c:537-562 | Every accepted command adds to the output, and a write takes away what it can. |
| `AsyncLaws.EveryOpenRun` | redis/hiredis/async.c:319-489 | A connection that is open has not been freed, has seen no failed write and no broken stream, and is marked for disconnecting if and only if the application or a callback told it to. |
| `AsyncLaws.ClosesInTime` | redis/hiredis/async.c:357-425 | Right after a read, an open connection that was told to disconnect still has output queued or commands waiting; telling one with no command waiting closes it at once. |
| `AsyncLaws.OpenUnlessOverrun` | redis/hiredis/async.c:411-489 | A connection that nobody tells to close, with no failure, is open if and only if replies do not outnumber commands; the first reply too many closes it if it is an error and fails the library's assertion if not. |
| `Async.Run` | redis/hiredis/async.c:227-648 | The connection in place ends every run as the books say, and the callbacks it invoked are exactly those owed: each once, in order, with its own answer. |
| `Client.EventsCarryStream` | redis/hiredis/async.c:516-535 | Whatever chunks the bytes come in, the replies they complete are together those of the whole stream. |
| `Client.ProcessCallbacks` | redis/hiredis/async.c:411-489 | The loop over reader and connection hands every reply that the bytes complete to its callback, and ends in the same state as the connection on the decoded replies. |
| `Client.Run` | redis/hiredis/async.c:411-535 | From bytes to callbacks: in any run the i-th reply that the recursive parser finds in all bytes read answers the i-th accepted command, and the callbacks invoked are exactly those owed. |
| `Client.BrokenStreamEnds` | redis/hiredis/async.c:486-488 | A stream that the parser refuses ends the connection. |

## Left out

- Pub/sub and MONITOR in `async.c`: only plain commands are modelled, so a reply that no command waits for is an error reply or a failed assertion (`aborted`).
- Connecting, reconnecting, sockets, event-loop adapters, timeouts and the blocking API: a connection is open from the start; reads, writes and their failures are events.
- Integer widths: lengths, counts and values are unbounded, so overflow of `int`, `long` and `long long` in the reader and the formatters is not captured.
- SdsBuffer.Ll2Str: takes the negation of the most negative `long long`, which the C standard leaves undefined, as two's complement hardware computes it.
- Pipeline.IntegerRoundTrip: leaves out the most negative `long long`, which overflows while it is read.
- SdsBuffer.Buffer.CatFmt: covers formats whose conversions find arguments of their kind and that do not end in a bare percent sign; on others the source reads past its arguments or its format.
- Command.FormatSdsCommandArgv: the argument count and lengths are bounded by the range that the string library prints.
- Template.Scan: conversions that the source hands to printf, and conversions without an argument, give None.
- Pipeline.NextArgument: the length behind a dollar sign is a run of digits; the leading blanks and signs that `strtol` also accepts are not modelled, and a command cut short gives None where the source asserts or runs past the end.
- Out-of-memory paths: allocation always succeeds.
- Reader.Reader.GetReply: reply objects live in an arena in allocation order, are never freed, and are created by the default functions only; the variants without creation functions and with a null target are not modelled, nor are error texts.
- Dict: memory is not freed, and key and value destructors are not modelled; using a freed node shows as an iterator that is no longer valid.
- Masks.NextPower: the branch for requests of `LONG_MAX` and more is left out, since no table can be that large.
- PoolEngine.Run: a fresh pool accepts one insert, since otherwise the source never returns; transactions, block writes and log appends are atomic and the flusher's own I/O does not fail short of a crash.
- BlockEngine.Engine.ReplayLive: knows which blocks are live, which the source keeps in memory only; what is recoverable without that is the subject of `BlockEngine.Engine.ReplayDevice`.
- Reopening existing pools or logs: the source restarts its counters, so every run begins with fresh ones.
- `Recover` in all three engines: stubs, replaced by the replay specification.
- Tuple encoding in `recovery_defs.cc`: a tuple is a key, a flag and opaque fields.
- Async.Run: commands in the output buffer are counted, not spelled out; their bytes are the subject of `Pipeline`.
- The other functions of `sds.c` (trimming, case, comparison, printf-style appending): they would only add easy members.
- `core/`, `lib/`, `db/`, `redis_client.h`, `ycsbc.cc` and the scripts: generators, wrappers and plumbing.
