# Tiered key-value cache: a verified model

The program is a key-value server with two tiers. Values live in memory, under an LRU list, and are
pushed out to a log-structured cache on flash; a mode without the memory tier writes straight to
flash. This project models the parts that decide which value a client gets back, and proves what
they promise.

- **Records and files.** A record is a 16-byte header (magic, CRC, key size, value size), the key and
  the value. Records are serialised one after the other into a vector of fixed-size write buffers.
  A writer thread drains full buffers into the file; the append that takes the file past its
  maximum sets `eof`, and then the writer is to flush the partly filled last buffer, clear the
  buffers and exit. Reads go to the buffers until then, and to the file afterwards.
- **Flash cache.** An index maps keys to logical block addresses (file, offset, size). It is
  insert-if-absent: the first value wins until the key is erased. Files are kept in LRU order and
  evicted whole, with every key they list. At start-up the index is rebuilt by scanning the files.
- **Tiering.** `set` writes to memory, `get` looks in memory and then on flash and promotes what it
  finds there, memory pressure moves the least recent entry to a queue, and a background worker
  flushes the queue to flash.
- **Support.** The recency list with its map, the chained hash table, and the request parser with
  the reply format.

## How it is built

State that the program updates in place is a class with methods (`CacheWriteBuffer`,
`WriteableCacheFile`, `Metadata`, `FlashCache`, `LruCache`, `KvDb`, `Client`, `Hash`). Each method is
proved against a function on an abstract value (`FileSpec`, `FlashSpec`, `TierSpec`, `LruState`, the
map of `Hash`, `Resp.Parse`), and the theorems are about those values, over every run of their steps.

| file | content |
|---|---|
| `Arith.dfy`, `Bytes.dfy` | buffer arithmetic, C strings, 32-bit words |
| `CacheRecord.dfy`, `Layout.dfy`, `Scan.dfy` | the record codec; record boundaries and addresses in a file; what a scan makes of bytes that end anywhere |
| `FileSpec.dfy`, `FileRuns.dfy`, `FileReads.dfy` | one file as a state machine of appender and writer, step by step: what reaches the disk, termination, reads |
| `FileLoss.dfy`, `DispatchRace.dfy` | exactly when a file loses nothing, and when its writer is forgotten |
| `WriteBuffer.dfy`, `CacheFile.dfy` | the buffers, the file and the metadata as classes |
| `Lru.dfy` | the recency list, as a class and over all runs |
| `FlashSpec.dfy`, `FlashRefinement.dfy`, `FlashRuns.dfy` | the flash cache as a value, its refinement of a map, runs, eviction and size account |
| `RoomRuns.dfy` | what the eviction loop pops, and that the files stay within the cache size in every run |
| `NoLoss.dfy`, `Recency.dfy` | when no record is lost, over whole runs; what is evicted is what was used longest ago |
| `Recovery.dfy`, `FirstWins.dfy` | start-up over a directory in any order: safety, and which value each key then shows |
| `Restart.dfy`, `Forgetting.dfy`, `TierRestart.dfy` | from one run to the next: what a restart restores, and what it forgets, for the flash cache and for the store |
| `Modes.dfy` | buffered against direct writing |
| `FlashCache.dfy` | the flash cache as a class |
| `TierSpec.dfy`, `TierRuns.dfy`, `TierDrain.dfy`, `KvDb.dfy` | memory over flash: steps, runs, evict-all, and the commands as methods |
| `Resp.dfy`, `HashTable.dfy` | requests and replies; the chained hash table |
| `FileWitnesses.dfy`, `FlashWitnesses.dfy`, `TierWitnesses.dfy` | short runs in which the code does not do what one would expect |

The CRC is an arbitrary function of bytes, passed as a parameter, so nothing depends on the
polynomial. Appender and writer of a file share no lock. So Append is taken apart into its steps
(the record goes into the buffers and fills them one by one, `eof` is set, the dispatch tests, posts
and sets the running flag), and so are the writer's loop (wake, write one buffer, leave the loop,
clear the flag, test `eof_`) and Close; the runs interleave these steps in any way. Memory pressure
is a free choice of the run.

## What the code does that one might not expect

Each with the exact condition, and a run from the start state.

- **A file can lose its tail.** Two steps decide over it. When `eof` is set, a writer in its drain
  loop, or woken and on its way there, will not write a partly filled last buffer, since
  `DispatchBuffer` returns early while it runs; and a writer that has left its loop writes nothing
  more, even if its flag is still set (`SetEofIntact`, `AppendIntact`; runs: `TailLost`,
  `FilledTooLate`). When Close begins, only a writer at rest, or one that has written all, is safe
  (`SealIntact`; `ClosedTooLate`). These conditions are exact: `IntactIsExact`, and `SafeOpIsExact` on
  the whole cache, show that otherwise some order of the steps still to come spoils the file, and that
  under them none does. Lookups of lost records return the empty string, since `Lookup` does not test
  whether `Read` succeeded (`LookupRefines`; `LostLookup`), and a get then keeps that empty string in
  memory (`RepliesAreHonest`). `NoLoss.dfy` carries the conditions through whole runs: if they hold at
  every such step, `Lookup` and `get` are exact.
- **The writer can be sent past the last buffer.** If the writer is at rest and the filling append
  ends exactly on a buffer boundary, the raised `buf_woff_` names a buffer that does not exist
  (`EofAppendOverruns`; `SentTooFarByAppend`). `Close` raises it too: on an empty file, on one that
  ends on a boundary, and on one whose writer has been sent to the last buffer already
  (`SealIntact`; `ClosedEmpty`).
- **The writer can be forgotten.** The semaphore is posted before the running flag is set. If the
  writer has cleared the flag in between, it stays set, nobody wakes the writer again, and nothing
  more reaches flash before `Close` (`RaceStalls`, `StalledStays`, `CloseRescues`; `StallWitness`).
- **Lost bytes are counted for ever.** Evicting a file gives back its size on flash, not what was
  added for it (`EvictOneSize`, `RunSize`; `LostDebt`). In the end the eviction loop would pop an empty
  list (`EvictPopsEmpty`).
- **Only the buffered writer makes room**, before each buffer it writes; then the files hold at most
  `cache_size`, in every run (`NeverTooMuch`). The account is raised after the append and tested without
  the lock; if it lags behind by one record, so may the bound (`FlashStaysWithin`). Direct mode never
  evicts and grows without end (`DirectNeverEvicts`).
- **A flush can bring back an old value.** Setting a key in memory while flash still holds an older
  value, and flushing it, drops the new value (`FlushEffect`; `StaleAfterFlush`).
- **A restart shows the first value on flash.** Deletions from the index are not on flash, and a
  promotion is one. So a restart shows under each key the first value ever inserted, where the cache
  held the first one since the last deletion, and it restores the contents if and only if these agree
  for every key (`RestartShowsFirst`, `RestartRestoresContents`). For the store: the first value ever
  flushed, so a key answers as before if and only if that is the last one set
  (`RestartShowsFirstFlushed`, `RestartAnswersAlike`; `OldValueAfterRestart`). Without promotions, file
  evictions and lost tails nothing is forgotten (`NothingIsForgotten`).
- **An evicted key can be back after a restart.** Evicting a file erases every key it lists, also one
  that is indexed in a newer file; the restart finds it there, exactly if another file holds it
  (`EvictedIsBack`, `AnyRestartShows`; `EvictedComesBack`).
- **A file cut inside a record** is indexed with an entry past its end (`CutStep`); its key is right
  if all of it is there, and else is whatever was in memory. A lookup gives the empty string
  (`RestartShows`; `CutReopened`).
- **Empty arguments.** `string2ll` is handed the separator as well, so it rejects "0", and an empty
  argument takes the length of the one before it; ten or more arguments are counted by the first
  digit (`RequestRoundTrip`; `EmptyValueMisread`).
- **"+Empty!"** is both the reply for a missing key and a possible value (`RepliesDiffer`;
  `EmptyLooksLikeValue`).

## Model

| member | source | states |
|---|---|---|
| Bytes.CStrWhole | flashcache.cc:55-56 | cutting n bytes out as a C string keeps all of them exactly when none is NUL |
| Bytes.U32RoundTrip | flashcache.h:65-74 | a 32-bit header word is read back from its bytes as it was |
| Bytes.U32BytesOfAt | flashcache.h:65-74 | writing a header word read from bytes gives those bytes back |
| CacheRecord.HeaderRoundTrip | flashcache.cc:51 | a header copied out of the front of a record is the header that was written |
| CacheRecord.DeserializeSerialize | flashcache.cc:47-75 | for every key and value: the serialised record is accepted and read back unchanged if and only if neither holds a NUL |
| CacheRecord.CutBody | flashcache.cc:55-56 | key and value cut out as C strings make up the whole body exactly when it has no NUL; otherwise they are shorter |
| CacheRecord.RecordLayout | flashcache.h:65-95 | byte by byte: a written record starts with fa fe 00 00, has the sizes of key and value at 8 and 12, least byte first, and ends with the key and the value from 16 on |
| CacheRecord.RecordChecksum | flashcache.cc:37-45 | the word at 4 of a written record is the checksum of all of its bytes, value included, with that word zeroed |
| CacheRecord.AcceptedExactly | flashcache.cc:47-68 | any bytes are accepted if and only if there are 16 and the sizes at 8 and 12 add up with them, the word at 0 is 0xfefa, and the word at 4 is the checksum of all bytes with that word zeroed (of a key or value with a NUL, of what comes before that) |
| CacheRecord.SerializeDeserialize | flashcache.cc:47-75 | for any accepted bytes: re-serialising restores them if and only if the part behind the header has no NUL, and the record is then the one built from its key and value |
| Layout.EncodePrefix | flashcache.cc:316-317 | the bytes of the first records of a file are a prefix of all its bytes |
| Layout.OffsetAppend | flashcache.cc:300-302 | a later append moves no earlier record |
| Layout.SliceAt | flashcache.cc:300-317 | the address issued for a record names exactly that record's bytes |
| Layout.OffsetMonotone | flashcache.cc:183-194 | offsets grow by at least 16 bytes a record |
| Layout.AddressesPartition | flashcache.cc:299-317 | the addresses issued in a file partition its bytes: every byte lies in exactly one record |
| Layout.IndexRecordsPrefix | flashcache.cc:190 | the index of the first n records does not depend on records behind them |
| FileRuns.PutKeepsSize | flashcache.cc:299-318 | a record that goes into the buffers makes the stream longer by exactly its bytes, and only the record that crosses the maximum may pass it |
| FileRuns.AppendIsSteps | flashcache.cc:293-333 | the Append used where nothing disturbs it is its single steps (record begun, buffers filled one by one, eof set, test, post, flag) with nothing in between |
| FileRuns.ClosingIsSteps | flashcache.cc:142-149 | likewise the first half of Close: eof raised; offset raised and semaphore posted |
| FileRuns.DispatchTest | flashcache.cc:283-285 | the test of a dispatch, told by the bytes: it goes on to the post if and only if no writer runs, and the file is full or a whole buffer more has been appended than is on flash |
| FileRuns.AppendWakes | flashcache.cc:293-319 | what an undisturbed append does to eof, semaphore, flag and offset, told by the bytes appended and those on flash: whether the writer is woken, and that the offset is the number of whole buffers, or one more at eof |
| FileRuns.FlushExtends | flashcache.cc:201-221 | one turn of the drain loop extends the file by exactly the next piece of the stream |
| FileRuns.ApplyKeepsInv | flashcache.cc:142-333 | each single step of Append, writer and Close keeps the file invariant: offsets in order, disk a prefix cut at a buffer, and as much of semaphore and running flag as still goes with the writer once it may run between post and flag |
| FileRuns.RunKeepsInv | flashcache.cc:142-333 | the file invariant holds after every interleaving of these steps |
| FileRuns.ConcatSegmentsIsPrefix | flashcache.cc:201-221 | the first buffers put together are the stream up to their end |
| FileRuns.FileIsWrittenPrefix | flashcache.cc:196-223 | in every interleaving from a fresh file, of single steps of any number of appends (a writer running between post and flag, or while a record is still going into the buffers, included), of the writer and of Close: the file is buffers [0, buf_doff_) in order, each once; that is a prefix of the appended stream, and before eof every buffer written was full |
| FileRuns.RunAddsInOrder | flashcache.cc:293-333 | in every run the records of a file are those appended to it, in order |
| FileRuns.FileSizeBound | flashcache.cc:317-318 | in every run a file exceeds its maximum by less than its last record |
| FileRuns.WokenHasFullBuffer | flashcache.cc:281-291 | in every run, while the file takes records: a writer about to be woken, or woken and not yet awake, has a whole buffer to write that is not on flash |
| FileRuns.WriterReachesFinalDisk | flashcache.cc:196-253 | after eof, whatever the order of the writer's steps, it ends with exactly the predicted bytes on disk |
| FileRuns.EofAppendDrains | flashcache.cc:281-292 | the append that fills a file, undisturbed, leaves a writer that is sent over all of the file if and only if it has not left its drain loop, and does not run or the stream ends on a buffer boundary. (A writer at rest at a boundary is then sent further still: see `EofAppendOverruns`, and `FileLoss.AppendIntact` for both at once) |
| FileRuns.CloseDrains | flashcache.cc:142-154 | Close of a file that still takes records, undisturbed, sends the writer over all of it, if and only if a writer that has left its drain loop has already written all. (With the writer running in between, and sent too far: `FileLoss.SealIntact`) |
| FileRuns.EofAppendOverruns | flashcache.cc:287 | after that append the writer is sent past the last buffer if and only if it has not left its loop, does not run, and the stream ends on a buffer boundary |
| FileRuns.WriterNeverStuck | flashcache.cc:196-253 | after eof the writer can always take a step until it has exited, except exactly when it stands behind the last buffer and was sent further, or waits for a post |
| FileRuns.OverrunIsDecided | flashcache.cc:196-223 | whether the writer will overrun is settled at eof: its own steps neither cause nor cure it |
| FileRuns.WriterTerminates | flashcache.cc:241-253 | after eof the writer takes at most as many steps as buffers are left, and four more |
| DispatchRace.RaceStalls | flashcache.cc:290-291 | of a file that takes more records: whatever the writer does between post and flag, it will later, by its own steps, be found waiting with the flag set if and only if it has cleared the flag (line 222) before it is set |
| DispatchRace.StalledStays | flashcache.cc:283 | from then on nothing is written before Close, however much is appended, even when the file fills up |
| DispatchRace.CloseRescues | flashcache.cc:146-149 | Close wakes the writer over all of the file; it is sent too far exactly if the stream ends on a buffer boundary |
| FileLoss.StepIntact | flashcache.cc:142-333 | only two steps decide over the tail of a file, the one that sets eof and the first of Close: every other step keeps an intact file intact |
| FileLoss.IntactIsExact | flashcache.cc:142-253 | a file with eof set is intact if and only if no order of the steps that its writer and the rest of an Append or Close may still take leads to an exited writer without all of the file on flash, or to one behind the last buffer that was sent further |
| FileLoss.WriterFinishes | flashcache.cc:196-253 | a writer on its way through its loop has a run of its own steps to exactly the predicted bytes and its exit, or, if sent too far, to behind the last buffer |
| FileLoss.SpoiltLoses | flashcache.cc:370-408 | a file whose writer exited without all of it has lost at least its last record: a read of that fails |
| FileLoss.SetEofIntact | flashcache.cc:318 | the step that sets eof leaves the file intact if and only if: a writer past its loop has written all; one in it or on its way there finds the stream ending on a buffer boundary; else it does not end there, or the flag is set |
| FileLoss.SealIntact | flashcache.cc:146 | the first step of Close leaves the file intact if and only if a writer past its loop has written all, or the writer is at rest and exactly one buffer is left to send it to |
| FileLoss.AppendIntact | flashcache.cc:293-333 | an undisturbed append leaves the file intact if and only if it does not fill it, or the writer has not left its loop and the stream ends on a buffer boundary (a writer in its loop or on its way there) or does not (a writer at rest); a forgotten writer loses nothing |
| FileLoss.RunStaysIntact | flashcache.cc:142-253 | an intact file with eof set stays intact, and keeps its records, in every run of what may still happen |
| FileLoss.SwitchIsInvisible | flashcache.cc:370-408 | once the writer of an intact file has exited, whatever the order of the steps, every address yields from the file the very bytes it yielded from the buffers |
| FileLoss.IntactGoesOn | flashcache.cc:196-253 | until the writer of an intact file has exited with all of it on flash there is a step to take, or it is a writer forgotten by a dispatch |
| FileReads.ShortRecordRejected | flashcache.cc:48-54 | a record cut short is rejected, whatever the checksum |
| FileReads.ReadIssued | flashcache.cc:370-408 | reading an issued address yields exactly the record appended there; it fails exactly when the file is read and does not hold all of the record, also in a file found cut at start-up |
| WriteBuffer.CacheWriteBuffer.Append | flashcache.h:45-50 | the content of the buffer grows by the bytes given |
| WriteBuffer.SegmentExtend | flashcache.cc:80-96 | extending the stream inside one buffer changes no other buffer's piece |
| WriteBuffer.AppendPiece | flashcache.cc:76-98 | bytes spread over the buffers extend the flat stream by as many of them as fit; true is returned exactly when all do |
| WriteBuffer.SerializeInto | flashcache.cc:69-75 | the three pieces succeed exactly when the record fits, and then extend the stream by the record's bytes, with the write offset at the first unfilled buffer |
| WriteBuffer.CountFree | flashcache.cc:259-266 | the loop finds the free space behind the stream and whether the size fits |
| WriteBuffer.GrowBuffers | flashcache.cc:268-277 | empty buffers are added, and just as many as stream and size need |
| WriteBuffer.Locate | flashcache.cc:339-353 | the buffer off / W exists, and holds the stream from off % W on up to its end |
| WriteBuffer.CopyOut | flashcache.cc:344-360 | one turn of the gather loop copies the next bytes of the stream and moves on to offset 0 of the next buffer |
| CacheFile.WriteableCacheFile.Create | flashcache.h:118-125 | a new file is empty, its writer waits |
| CacheFile.WriteableCacheFile.ExpandBuffer | flashcache.cc:255-280 | afterwards the buffers have room for size more bytes, there are just as many as needed, and they hold the same stream |
| CacheFile.WriteableCacheFile.SpreadRecord | flashcache.cc:305-315 | expanding and serialising never fail, and append exactly the record's bytes across any number of buffers |
| CacheFile.WriteableCacheFile.DispatchBuffer | flashcache.cc:281-292 | the fields change as the dispatch step says; behind an append that is: semaphore and flag are raised if and only if no writer runs and the file is full or holds a whole buffer more than is on flash, and the offset too at eof |
| CacheFile.WriteableCacheFile.AppendBuffered | flashcache.cc:304-319 | the write-buffer branch does what the append step says and keeps the class invariant |
| CacheFile.WriteableCacheFile.AppendDirect | flashcache.cc:320-330 | the direct branch does what the append step says and keeps the class invariant |
| CacheFile.WriteableCacheFile.Append | flashcache.cc:293-332 | a full file refuses and is unchanged; else the record goes to the end, under the address returned, as long as the 32-bit offset does not wrap on this append |
| CacheFile.WriteableCacheFile.WriteAll | flashcache.cc:206-218 | short writes lose, repeat and reorder nothing |
| CacheFile.WriteableCacheFile.WaitSemaphore | flashcache.cc:197 | the wake step of the writer |
| CacheFile.WriteableCacheFile.WriteBuffer | flashcache.cc:201-221 | one turn of the drain loop is the flush step |
| CacheFile.WriteableCacheFile.LeaveLoop | flashcache.cc:201 | the loop test that fails, a step of its own |
| CacheFile.WriteableCacheFile.EndWrite | flashcache.cc:222 | the clearing of the running flag, a later step |
| CacheFile.WriteableCacheFile.CheckEof | flashcache.cc:245-249 | at eof the writer exits and all buffers are freed; else it waits again |
| CacheFile.WriteableCacheFile.Write | flashcache.cc:196-223 | undisturbed, one call writes every dispatched buffer: the disk becomes the predicted bytes |
| CacheFile.WriteableCacheFile.ReadBuffer | flashcache.cc:334-368 | for every address inside the stream the gather loop succeeds and returns stream[off..off+size] |
| CacheFile.WriteableCacheFile.ReadFile | flashcache.cc:381-396 | short reads: the bytes returned are those of the file at the address, cut where the file ends |
| CacheFile.WriteableCacheFile.Read | flashcache.cc:370-408 | the choice between buffers and file and the decoding agree with the abstract read |
| CacheFile.WriteableCacheFile.Open | flashcache.cc:133-141 | a file of the directory, ending anywhere, is taken as it is, with eof set and no writer |
| CacheFile.WriteableCacheFile.RepairOne | flashcache.cc:183-194 | one turn reads what is there of header and key over what was in memory, indexes it, and moves at least 16 bytes on: at a whole record to the next boundary, at a cut one past the end |
| CacheFile.WriteableCacheFile.Repair | flashcache.cc:176-195 | on any prefix of good records the scan visits exactly the boundaries of the whole records and, if the file ends inside a record, that one; it ends, and builds the first-wins index and the key list of what it met |
| CacheFile.WriteableCacheFile.RaiseEof | flashcache.cc:146-149 | the first half of Close is the closing step |
| CacheFile.WriteableCacheFile.Close | flashcache.cc:142-154 | in either mode and wherever the writer stands, also a second time: a file whose writer is not sent too far is closed, its writer exited, with the predicted bytes on disk |
| CacheFile.WriteableCacheFile.Delete | flashcache.cc:167-175 | the file is closed, and the result is its size on disk after that |
| CacheFile.Metadata.InsertKey | flashcache.cc:422-427 | insert-if-absent |
| CacheFile.Metadata.Erase | flashcache.cc:448-454 | the key is gone and no other entry changes |
| CacheFile.Metadata.Evict | flashcache.cc:455-461 | evict on the list and erase on the map together remove exactly the least recent file |
| Lru.LruCache.ValidAbs | my_lru.hpp:31-58 | in a valid object there are no duplicates, and a stored iterator is usable exactly while its key is listed |
| Lru.LruCache.Insert | my_lru.hpp:22-29 | a new key goes to the front of the list and into the map; one that is there is left alone |
| Lru.LruCache.Get | my_lru.hpp:31-58 | the value is returned and its key moves to the front, with the iterator rewritten |
| Lru.LruCache.Evict | my_lru.hpp:59-67 | the last key leaves the list only, and its value is returned |
| Lru.LruCache.Erase | my_lru.hpp:68 | the key leaves the map only; the list is untouched |
| Lru.UseKeepsInv | my_lru.hpp:22-68 | insert, get and evict-then-erase keep list and map equal as key sets, without duplicates |
| Lru.ListIsRecencyOrder | my_lru.hpp:22-68 | in every run the list is the map's keys by falling time of last insert or successful get; the one evicted was touched longest ago |
| FlashRefinement.EntryShown | flashcache.cc:542-566 | an index entry shows the value of the record whose insert created it |
| FlashRefinement.RolledIsOpen | flashcache.cc:525-536 | after at most one rollover the current file takes the record; contents, index and size are unchanged by it |
| FlashRefinement.InsertRefines | flashcache.cc:522-541 | insert keeps the invariant and acts on the contents as insert-if-absent |
| FlashRefinement.LookupRefines | flashcache.cc:542-566 | lookup agrees with the contents, except that a record no longer whole anywhere comes back as the empty string |
| FlashRefinement.LookedKeeps | flashcache.cc:551 | moving the file of a key to the front changes no contents |
| FlashRefinement.NothingLostRetains | flashcache.cc:370-408 | if no file was closed before it was drained, every indexed record can be fetched |
| FlashRefinement.FewerEntries | flashcache.cc:448-454 | erasing keys from the index removes exactly those from the contents |
| FlashRefinement.FileStepRefines | flashcache.cc:142-333 | steps of the writer, of an append under way and of closing change no contents |
| FlashRefinement.VictimKeys | flashcache.cc:576-578 | every entry that names a file is for a key that file lists |
| FlashRefinement.EvictOneRefines | flashcache.cc:574-578 | evicting a file removes exactly the keys it lists, even those indexed anew elsewhere, and what is left names live files |
| FlashRuns.EvictOneSize | flashcache.cc:575 | an eviction adds to the debt of the account exactly the bytes that the victim had lost |
| FlashRuns.InsertSize | flashcache.cc:537 | insert keeps the debt of the account, across a rollover too |
| FlashRuns.InsertRolls | flashcache.cc:503-536 | which file a record goes to: the current one if it is not full, else a new one of the configured sizes under the next id; and it is full afterwards if and only if it has reached cache_file_size |
| FlashRuns.EvictRefines | flashcache.cc:567-585 | the loop removes from the contents exactly the keys listed by the files it pops, whether or not all of them was on flash |
| FlashRuns.EvictIsTurns | flashcache.cc:567-585 | the loop, undisturbed, is a run of its turns; in the runs each turn is a step of its own, and anything may come between two of them |
| FlashRuns.EvictMakesRoom | flashcache.cc:567-585 | with exited victims the loop makes the room asked for, never pops an empty list, and keeps the most recent files in their order |
| FlashRuns.EvictSize | flashcache.cc:567-585 | the loop adds to the debt exactly what the popped files had lost |
| FlashRuns.EvictPopsEmpty | flashcache.cc:569-574 | left to itself the loop goes on to an empty list if and only if the request, the debt and what the files have lost exceed the cache |
| RoomRuns.EvictPopsFewest | flashcache.cc:567-585 | what the loop leaves, said without recursion: the first k files of the list, the index without the keys that the others list, the account without their bytes on flash; and k is the largest for which the request fits |
| RoomRuns.GoneSplit | flashcache.cc:573-578 | popping one file more adds its keys and its bytes on flash to those gone |
| FlashRuns.StepRefines | flashcache.cc:522-587 | every operation keeps the invariant and acts on the contents as on the abstract map |
| FlashRuns.RunRefines | flashcache.cc:522-587 | in every run of inserts (with their append done at once, or begun and its steps interleaved with all else), lookups, deletions, steps of the files, closings and single turns of eviction loops, also of files that lost their tail, the cache shows what the abstract map holds |
| FlashRuns.LookupInEveryRun | flashcache.cc:542-566 | from an empty directory, in every run, lookup answers as the abstract map does if no file was closed before it was drained |
| FlashRuns.RunSize | flashcache.cc:537-575 | in every run the size account is off from the sum of the counted lengths by exactly what the evicted files had lost, which is never negative |
| FlashRuns.StepKeepsConfig | flashcache.cc:504-519 | a file id is never used twice |
| RoomRuns.ClaimCounted | flashcache.cc:537 | what a file holds, with the next buffer of its writer, has been counted when it was appended |
| RoomRuns.StepKeepsClaim | flashcache.cc:201-221 | a buffer whose writer has found room stays the next one to write, and of the same size, whatever its file goes through before the write |
| RoomRuns.TakenKeepsClaim | flashcache.cc:293-319 | so it does when the file takes more records |
| RoomRuns.StepKeepsRoom | flashcache.cc:202-221 | every step of the cache keeps a bound on what is on flash and what has been let through the test and is not written yet |
| RoomRuns.FlashStaysWithin | flashcache.cc:205 | in every run in which each buffer is written only after the test of its eviction loop has let it, with anything in between: the files hold no more than cache_size (or than they did at first); if the account that the test reads without the lock lags behind, no more than that on top |
| RoomRuns.NeverTooMuch | flashcache.cc:205 | from an empty directory on, with the account read in full: never more than cache_size |
| RoomRuns.WriteIsRun | flashcache.cc:202-221 | what a writer does for one buffer (the turns of the loop, its last test, the write) is such a run |
| RoomRuns.DirectNeverEvicts | flashcache.cc:320-330 | in direct mode nothing makes room: every insert puts all of its record on flash, on top of what is there |
| NoLoss.SafeOpIsExact | flashcache.cc:522-587 | these conditions are exact on the whole cache: while nothing that may still happen can spoil a file, a step meets its condition if and only if that is so after it |
| NoLoss.RunIntact | flashcache.cc:522-587 | in every run in which each step that sets eof, each undisturbed append that fills a file and each first step of Close meets its exact condition, every file stays intact |
| NoLoss.WritersGoOn | flashcache.cc:241-253 | in every such run no writer gets stuck behind the last buffer: until it has exited, with all of its file on flash, there is a step to take, or it has been forgotten by a dispatch |
| NoLoss.LookupIsExact | flashcache.cc:542-566 | in every such run from an empty directory, lookup answers exactly as the insert-if-absent map does, whether from buffers or file |
| NoLoss.IntactGetSafe | command.c:124-136 | while every file is such, no get meets a lost record |
| NoLoss.GetIsExact | command.c:99-140 | in every such tiered run that sets a key only while flash does not hold it and touches no pending key, get replies exactly with the last value set, and "empty" exactly if there is none or a file eviction has dropped it since |
| Recency.EvictReflects | flashcache.cc:567-585 | the eviction loop takes files off the recency list in order of last use |
| Recency.StepReflects | flashcache.cc:503-585 | each operation changes the list of files as the uses it makes of them do |
| Recency.VictimIsLeastRecent | flashcache.cc:444-461 | in every run the live files are those listed, and the next victim was created or last asked for before every other file |
| Recency.StepMemReflects | command.c:11-136 | each command changes the memory list as the uses it makes of the entries do; a flush leaves it alone |
| Recency.QueuedIsLeastRecent | command.c:11-26 | in every run the entry sent to the queue was last set, found or promoted before every other entry in memory |
| Recovery.OpenFilesSafe | flashcache.cc:466-483 | in whatever order the directory is read, and wherever its files end, the index names only live files at record boundaries and the account is exact |
| Recovery.OpenDirSafe | flashcache.cc:462-490 | after start-up the invariant and the account hold, nothing is lost if no file is cut, and the new file's id exceeds all ids found |
| Scan.WholeStep | flashcache.cc:184-192 | at a whole record the bytes read are its header and key, and the size computed leads to the next record |
| Scan.CutStep | flashcache.cc:184-192 | where the file ends inside a record the scan believes in one record more, at the right offset and reaching past the end; its header is right if all of it is there, and so is its key |
| Scan.SeenWhole | flashcache.cc:184 | a header that is there in full is read in full; in either case the record believed in is longer than the rest of the file |
| Scan.ScannedSound | flashcache.cc:176-195 | all records met by a scan are good but for the one at the cut, whose header fits its sizes |
| Scan.ScannedAll | flashcache.cc:176-195 | if all bytes of a file's records are there, the scan meets exactly those records |
| Recovery.MatchesOk | flashcache.cc:466-478 | whatever the scans make of the cuts, what they found is fit for the invariant |
| Recovery.RestartKnows | flashcache.cc:466-483 | a restart knows a key if and only if some file holds a record of it or the beginning of one (which value it shows: `FirstWins.RestartShows`) |
| FirstWins.ReadableAt | flashcache.cc:176-195 | of a file found at start-up only the record at a cut reaches past its end |
| FirstWins.EntryRead | flashcache.cc:542-566 | what a lookup makes of an index entry: the value of its record, or the empty string if the file is read and does not hold all of it |
| FirstWins.RestartShows | flashcache.cc:466-483 | after a restart, in whatever order the directory is read and wherever its files end, a lookup finds the value of the first record of the key in that order; the empty string if that record is cut off; nothing just if there is none |
| Recovery.RunPristine | flashcache.cc:522-541 | without deletion and eviction, the index is at all times the first-wins index of the records of all files |
| Restart.HoldsAllReady | flashcache.cc:466-478 | a directory that holds all of every file meets what Open asks for, as far as files are below 4 GB |
| Restart.RestartRestoresIndex | flashcache.cc:462-490 | after any run without deletion and eviction: if all of every file is on flash, a restart over these bytes, in order of id, restores exactly the index and the contents |
| Restart.CloseAndRestart | flashcache.cc:491-500 | after any such run whose filling appends and closings met their conditions and which ends with all writers exited, a restart over the bytes on flash restores the index and the contents |
| Forgetting.RunLog | flashcache.cc:522-587 | without file evictions the records of the files, in order of id, are at all times the entries ever inserted, in order: deletions leave them alone |
| Forgetting.MapIsLive | flashcache.cc:423 | in every run without file evictions the abstract map holds under each key the first value inserted since the key was last deleted |
| Forgetting.RestartShowsFirst | flashcache.cc:462-490 | after any run without file evictions, deletions anywhere in it, with all of every file on flash: a restart shows under each key the first value ever inserted, where the cache held the first one since the key was last deleted |
| Forgetting.RestartRestoresContents | flashcache.cc:462-490 | so the contents are restored if and only if for every key these two values agree |
| Forgetting.RestartForgetsDelete | flashcache.cc:587 | in particular a key deleted and not inserted again is back, with its first value |
| Forgetting.RestartKnowsLive | flashcache.cc:466-483 | over the live files of any state, in any order, a restart knows exactly the keys of which one of them has a record |
| Forgetting.EvictedIsBack | flashcache.cc:576-578 | a key erased with an evicted file, although it was indexed in a newer one, is back after a restart if and only if another file holds it |
| Forgetting.RunHolds | flashcache.cc:522-587 | in every run, evictions included, each live file holds exactly the entries that were put into it, in order |
| Forgetting.AnyRestartShows | flashcache.cc:462-490 | after any run, evictions and deletions included, and for any order of the directory: a restart finds the first value that was put under the key into the files still there, in that order |
| Modes.TakenSame | flashcache.cc:304-330 | both ways of appending fill a file at the same record, also while the buffered one is still under way |
| Modes.RunSame | flashcache.cc:293-333 | for the same client operations both modes keep the same index, files and account, however the steps of appends and writers interleave |
| Modes.ModesAgree | flashcache.cc:293-333 | from empty directories both modes leave byte-identical files, wherever the buffered one is drained |
| FlashCache.FlashCache.Open | flashcache.cc:462-490 | over a directory of files that end anywhere the object ends up in the abstract start-up state for some outcome of the scans |
| FlashCache.FlashCache.AddFound | flashcache.cc:473-480 | one turn of the directory loop: account, index, file list and next id as specified |
| FlashCache.FlashCache.NewCacheFile | flashcache.cc:503-521 | a fresh file becomes the current and most recent one under the next id |
| FlashCache.FlashCache.AppendOrRoll | flashcache.cc:525-536 | the retry loop ends after at most one rollover, with the record at the returned address of the current file |
| FlashCache.FlashCache.Insert | flashcache.cc:522-541 | the object changes as the abstract insert says, as long as the 32-bit offset does not wrap on this append |
| FlashCache.FlashCache.Lookup | flashcache.cc:542-566 | the result is the abstract one, and the file asked becomes the most recent |
| FlashCache.FlashCache.PopFile | flashcache.cc:574-575 | the least recent file leaves the cache; its key list and size are handed on |
| FlashCache.FlashCache.EraseKeys | flashcache.cc:576-578 | the loop erases exactly the listed keys |
| FlashCache.FlashCache.EvictOne | flashcache.cc:569-583 | one turn of the loop is the abstract eviction |
| FlashCache.FlashCache.Evict | flashcache.cc:567-585 | the loop is the abstract loop, terminates, keeps the surviving file objects, makes the room asked for, and pops files from the end of the list only, as few as that takes, with the keys they list and the bytes they have on flash |
| FlashCache.FlashCache.WriterTurn | flashcache.cc:196-253 | a step of one file's writer changes that file as the step says and no other |
| FlashCache.FlashCache.WriteNext | flashcache.cc:202-221 | before the buffer is written there is room for it: buffer and account together are within the cache size; for that as few files as needed are gone from the end of the list (none if it fitted), with exactly the keys they list and their bytes on flash; the file is longer by the bytes of the buffer, and nothing else has changed |
| RoomRuns.EvictSpares | flashcache.cc:567-585 | an eviction of drained files leaves one that is still being written as it was |
| FlashCache.FlashCache.DeleteMetaData | flashcache.cc:587 | only the entry of the key goes |
| FlashCache.FlashCache.CloseOldest | flashcache.cc:492-495 | one turn of the loop closes the least recent file that is still on the list, and no other |
| FlashCache.FlashCache.Close | flashcache.cc:491-500 | every file is taken off the list and closed, with the predicted bytes on disk; no file is left out or touched twice |
| TierRuns.StepKeepsTier | command.c:62-140 | every step keeps: map keys = listed keys + queued keys, disjoint, each queued once with its value, and the flash invariant |
| TierRuns.SetEffect | command.c:85-92 | set makes the value visible, except that in flash-only mode an older value wins |
| TierRuns.GetEffect | command.c:99-140 | get replies with the value shown, from memory or flash, and promotion changes nothing a client sees |
| TierRuns.FlushEffect | bworker.c:61-79 | a flush leaves the store as it was if and only if flash holds no other value for the key; otherwise the older value comes back |
| TierRuns.FlashEffect | flashcache.cc:567-585 | a file eviction removes exactly the dropped keys that are not in memory |
| TierRuns.StepSeparate | command.c:62-140 | if keys are set only while flash does not hold them, no key is ever in both memory and flash |
| TierRuns.RunIsIdeal | command.c:62-140 | in every such run the store shows the map of last values set, less the keys dropped by file evictions |
| TierRuns.GetReturnsLastSet | command.c:99-140 | after every such run get replies exactly with the last value set, and "empty" exactly if there is none or a file eviction has dropped it since |
| TierRuns.RepliesAreHonest | command.c:99-140 | in every run, both modes: a value replied was set earlier under that very key; or it is empty, and this get or an earlier one of that key asked for a lost record |
| TierRuns.FlashReply | command.c:124-136 | what get finds on flash, exactly, including the empty string for a lost record |
| TierDrain.EvictAllEffect | command.c:150-165 | the loop empties the list, and queues its entries least recent first behind those queued before |
| TierDrain.DrainEffect | bworker.c:61-79 | draining flushes each queued entry once, in order, and takes exactly those keys out of the map |
| TierDrain.EvictAllThenDrain | command.c:141-175 | evict-all and a full drain leave memory empty and every key that was in it on flash |
| TierDrain.DrainKeepsView | bworker.c:61-79 | a drain changes nothing a client sees, if no key is in both memory and flash |
| TierDrain.ShutdownKeepsAll | command.c:141-175 | after evict-all and a full drain, flash alone shows what memory and flash showed together |
| KvDb.KvDb.CacheAdd | command.c:72-83 | a new key gets an entry; an existing one gets the new value object and becomes the most recent |
| KvDb.KvDb.EvictEntry | command.c:17-25 | the least recent entry is marked as being flushed and joins the queue |
| KvDb.KvDb.EvictToQueue | command.c:11-26 | under memory pressure the store makes the evict-to-queue step |
| KvDb.KvDb.SetCommand | command.c:85-92 | the objects change as the abstract set says, in both modes |
| KvDb.KvDb.GetCommand | command.c:99-140 | reply and objects are those of the abstract get: memory, then flash with promotion, then empty |
| KvDb.KvDb.FlushOne | bworker.c:62-78 | the worker's turn is the abstract flush |
| KvDb.KvDb.EvictAllCommand | command.c:141-174 | the counted loop is the abstract evict-all |
| Resp.String2ll | util.c:68-96 | a number is read if and only if it is a lone 0, or starts with 1 to 9 and its leading digits denote less than 2^64; the value is theirs |
| Resp.ValueJoin | util.c:84-93 | digits put behind others count what they denote, and those before them ten times as much for each of them |
| Resp.Decimal | command.c:106 | the digits printed for a number denote it, and start with 0 only for 0 |
| Resp.DecimalLength | command.c:120-121 | a number is printed with more than k digits if and only if it is at least 10^k (for k > 0) |
| Resp.NumberOfDecimal | util.c:270-271 | with the separator behind it a printed length is read back unless it is 0 |
| Resp.FindCRExactly | util.c:253 | the search finds the first 13, if there is one before the first 0 |
| Resp.ParseStatus | util.c:248-279 | a buffer is refused if and only if it has fewer than two bytes, its first byte is not 42, or no 13 comes before the first 0; and a request read to its end has as many arguments as its second byte says |
| Resp.RequestBytes | util.c:248-276 | a request starts with byte 42 and the digits of the count, a bulk string with byte 36 and those of its length; each line ends with 13, 10 |
| Resp.BulkElement | util.c:265-276 | one turn on a bulk string reads a non-empty payload exactly, whatever its bytes; an empty one is read with the length in force |
| Resp.ElementsSuffix | util.c:264-279 | the rest of a parse does not depend on the bytes before it, so the terminators written do no harm |
| Resp.RequestRoundTrip | util.c:247-280 | the arguments of an encoded request come back, whatever their bytes and what follows, if and only if there are at most nine and no empty one follows a non-empty one |
| Resp.ReplyRoundTrip | command.c:120-121 | a reply is read back as its value by the same element step |
| Resp.RepliesDiffer | command.c:106-108 | two outcomes of a get have the same reply if and only if a client sees the same text: a missing key and the value "+Empty!" are the only pair |
| Resp.Client.ParseElement | util.c:265-277 | the turn yields what the buffer held, overwrites nothing from the next element on, and calls an element bad if and only if its first byte is not 36 |
| Resp.Client.ParsingMessage | util.c:247-280 | although it overwrites separators as it goes, the parse yields the abstract parse of the original buffer; the request is refused if and only if that did not start with 42, or had no 13 before the first 0 |
| Resp.Client.StrChr | util.c:253-265 | the first CR before a NUL |
| HashTable.GetHashKey | hash.c:3-7 | the loop stops inside the string, at the first index that is not below its char, and computes 5381 and the chars before that as digits to the base of 33, modulo 2^32 |
| HashTable.HashKeyIs | hash.c:3-7 | the hash in closed form: 5381 * 33^n plus the sum of char_i * 33^(n-1-i), modulo 2^32, with n the first index not below its char |
| HashTable.CharWordBits | hash.c:5 | a char is converted with its sign: bits 7 to 31 are all the same |
| HashTable.AndBits | hash.c:14 | bit for bit, the slot is the hash where the mask has ones, and zero elsewhere |
| HashTable.HashIgnoresTail | hash.c:5 | keys that agree up to and including a char not above its own index have the same hash |
| HashTable.EverySlotExists | hash.c:14-17 | every hash falls inside the table if and only if it has more slots than the mask |
| HashTable.OneEntryPerKey | hash.c:28-94 | no entry is on two chains, the entries' keys are the map's keys, and there is one entry for each |
| HashTable.Hash.UsedCountsEntries | hash.c:36-86 | used is the number of entries |
| HashTable.LinkedWithout | hash.c:79-82 | with one pointer skipping an entry the rest of the chain is linked as before |
| HashTable.SlotsRemove | hash.c:67-94 | unlinking one entry leaves a table that holds the map without its key |
| HashTable.SlotsAdd | hash.c:33-39 | putting an entry in front of its chain gives a table that holds the map with its key |
| HashTable.Hash.Walk | hash.c:19-22 | walking a chain finds the entry of the key and its predecessor, or that there is none |
| HashTable.Hash.GetHash | hash.c:8-26 | -1 exactly when the key is there, else its slot, each bit of which is that of the hash times that of the mask |
| HashTable.Hash.HashAdd | hash.c:28-43 | insert-if-absent on the map; the new entry is in front of its chain, all else is unchanged |
| HashTable.Hash.EntryFind | hash.c:45-65 | null exactly when the key is absent, else its entry with its value |
| HashTable.Hash.HashDelete | hash.c:67-94 | the key leaves the map; exactly its entry leaves its chain, all other chains are unchanged |
| HashTable.Hash.Skip | hash.c:79-82 | the one pointer that changes, and that every other slot is left as it was |
| TierRestart.RunTrace | command.c:62-175 | in every run of the store its flash cache makes a run of its own: a set or flush inserts, a promotion looks up and deletes |
| TierRestart.RestartShowsFirstFlushed | bworker.c:61-79 | after any run of the store without file evictions, promotions included and in both modes, with all of every file on flash: a restart finds the first value ever flushed under a key, and nothing just if none was |
| TierRestart.AnyRestartShowsFlushed | bworker.c:61-79 | the same with file evictions and for any order of the directory: the first value flushed under the key into a file still there |
| TierRestart.RestartAnswersAlike | command.c:99-140 | after any careful run that ends with memory flushed and all files closed, a key answers the same before and after a restart if and only if the first value flushed under it is the last one set |
| TierRestart.NothingIsForgotten | command.c:141-175 | end to end, from an empty directory: after a careful run without promotions and file evictions that ends with memory flushed and all files closed, lookup of any key after a restart finds the last value set (and so that was the first one flushed) |
| TierRestart.ShutdownRestart | command.c:141-175 | evict all, drain, close and restart: flash then shows what memory and flash showed together, if no key was promoted or evicted before and all of every file is on flash in the end |
| FileWitnesses.TailLost | flashcache.cc:283 | a run from a fresh file that ends with the writer exited and 32 of 36 bytes on disk: the filling append met it running |
| FileWitnesses.ClosedTooLate | flashcache.cc:146-149 | Close meets a writer that has left its loop and not cleared its flag: it exits with 16 of 18 bytes |
| FileWitnesses.FilledTooLate | flashcache.cc:283 | an append that fills the file, on a buffer boundary, meets that writer: it exits with 18 of 36 bytes |
| FileWitnesses.SentTooFarByAppend | flashcache.cc:287 | a run from a fresh file after which the writer can go neither on nor out |
| FileWitnesses.ClosedEmpty | flashcache.cc:148 | closing an empty file sends its writer to a buffer that does not exist, where it stays |
| FileWitnesses.StallWitness | flashcache.cc:290-291 | a run in which the writer is through before the flag is set: it stalls in an open file |
| FlashWitnesses.LostLookup | flashcache.cc:560-565 | a run of the flash cache after which lookup gives the empty string for a key under which the abstract map holds a value |
| FlashWitnesses.LostDebt | flashcache.cc:575 | that run continued by an insert and an eviction: four bytes stay counted for ever |
| FlashWitnesses.CutReopened | flashcache.cc:183-194 | that run, and a restart over the 32 bytes: the record cut off is indexed, under whatever key was in memory, and a lookup of that key gives the empty string |
| FlashWitnesses.EvictedComesBack | flashcache.cc:576-578 | a key set, promoted, set anew in a second file and erased with the first one is back after a restart, with its newer value |
| TierWitnesses.StaleAfterFlush | bworker.c:68 | set, flush, set, flush: get replies with the first value |
| TierWitnesses.OldValueAfterRestart | command.c:127-129 | set, flush, get, set, flush, close: flash holds the second value; after a restart it is the first |
| TierWitnesses.EmptyLooksLikeValue | command.c:106-108 | a get in the empty store and one after setting "+Empty!" have the same reply |
| TierWitnesses.EmptyValueMisread | util.c:270-271 | "set k" with an empty value does not come back as sent |

## Left out

- Sockets, the accept and receive loops, signals, configuration, logging and the benchmark client are not modelled.
- FIFO memory mode is not modelled: `cacheAdd` pushes a null entry there, and the worker passes a plain string to `hashDelete`. `hash.c` is modelled on its own, with proper keys; frees are left out.
- Memory accounting is not modelled: memory pressure is a free choice of the run, and the busy wait above the limit is left out.
- Mutexes and semaphores are not objects: critical sections are single steps, but for an insert, whose append may be taken apart into its steps. Not modelled: the early returns of `Lookup` that do not unlock, a writer that evicts its own file and two commands whose critical sections overlap.
- Within one step: the test at the head of `DispatchBuffer`; the raised offset and the post behind it (there, and in `Close`), between which a writer at its semaphore cannot move and any other reads the offset only; the write of a buffer with the advance of `buf_doff_`; and, at the end of a writer, its test of `eof_` with the clearing of the buffers, so that a read while buffers are being freed is not modelled. Neither is the growth of the vector of buffers while the writer reads it.
- Close begins only between two appends to its file.
- TierRuns.StepKeepsTier: clients do not touch a key that waits in the queue; `lru_cache::get` would use an iterator that has been erased.
- FlashRuns.RunRefines: the victims of an eviction are not the current file, and their writers have exited. `Delete` would join a running writer while it holds the lock that this writer takes to make room for its own buffers. The comparison is on integers, where the source multiplies by 1.0f.
- FlashCache.FlashCache.Insert: the 32-bit offset behind the record does not wrap on this append (`OffsetFits`, which `MaxSizeFits` derives from the configured maximum). What the source does after a wrap is not modelled. Likewise `Append` and `AppendOrRoll`, and `SetCommand` (in flash-only mode) and `FlushOne` of `KvDb`.
- CacheRecord.SerializeDeserialize: the sum of the two sizes in a header is not cut to 32 bits. Bytes for which it would wrap are rejected here; the source may accept them, reading past the record.
- Bytes.CStr stops after n bytes; the conversion of a char pointer in the source reads on to a NUL, past the end of the scratch buffer if there is none, before it cuts to n.
- Header words are little-endian in the model; the source copies the struct.
- The CRC is an arbitrary function; that it detects any corruption is not claimed.
- CacheFile.WriteableCacheFile.Repair: the file is a prefix of good records, as every run leaves it, and the sizes in a header that is cut short do not wrap (`SizesFit`; of a whole header they never do). The key at a cut is whatever was in memory.
- CacheFile.WriteableCacheFile.Delete: a failing `unlink`, which would return 0, is not modelled; neither are EINTR and failing reads and writes. `write`, and `pread` in `Read`, may be short.
- CacheFile.WriteableCacheFile.Close: not for a file whose writer would be sent past the last buffer, where the source reads outside the vector.
- CacheFile.WriteableCacheFile.Write: one undisturbed call, like `Append`, `Close` and the other methods of the classes; what may come in between are steps of the runs in `FileRuns`.
- Restart.RestartRestoresIndex: the directory is read in order of id; what any other order shows is in `FirstWins.RestartShows` and `Forgetting.AnyRestartShows`. Ids found are distinct; `atoi` and the file names are left out.
- RoomRuns.FlashStaysWithin: write-buffer mode only. Direct mode never evicts, since only the buffered writer calls `Evict` (`DirectNeverEvicts`); the runs of `Modes` have no evictions.
- TierDrain.EvictAllThenDrain: nothing else runs between the loop and the end of the drain. The wait at the end of `evictAllCommand` is over at once in LRU mode, since it watches the list and not the map.
- Resp.Client.ParsingMessage: accesses outside the buffer, a count character below '0' and lengths of 2^63 and more (negative as `long long`) end the model's parse as `OutOfBuffer`.
- HashTable.Hash.constructor: the table has more slots than the mask; `initServer` pairs 100 slots with mask 100 (server.c lines 48 to 52), which `EverySlotExists` rules out. Strings are shorter than 2^32 - 128.
- Replies are byte strings of the length given; that `%s` stops at a NUL is left out. Values reach flash as C strings, so `Storable` asks for NUL-free keys and values.
- The commands `scan` and `kill`, unused functions, and the second table of the hash structure are left out.
