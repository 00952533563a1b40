# mokv in Dafny

mokv is a key-value store: an LSM engine (skip-list memtable, flush queue, SST
files, a manifest of levels with size-tiered compaction), a typed store for
conversations above it, and a few smaller stateful parts beside it (an LRU
cache, a count-min sketch, a Bloom filter, a raft log). This project models
that logic at the grain of the C++ code and proves what it is for.

`dafny verify dfyconfig.toml` checks everything.

## How the modules fit together

| layer | modules | main results |
|---|---|---|
| keys and sorted tables | `Arithmetic`, `ByteOrder`, `Runs` | the byte order is total; a sorted run is a map |
| compaction | `Merge`, `Levels`, `Compaction`, `EmptyKey`, `Cascade` | `Merge.HeapMerge`, `Compaction.LevelInvariantIff`, `Compaction.CompactionPreservesAnswers`, `Cascade.FlushLimits`, `Cascade.FlushIds` |
| manifest and its file | `Words`, `Buffers`, `Manifest` | `Manifest.Load` inverts `Manifest.Save`; `Manifest.ManifestVersion` refines the functions above |
| the database as a transition system | `DbModel`, `DbRuns`, `Db` | `DbModel.StepKeepsInvariant`, `DbModel.StepMeaning`, `DbModel.ReadExactIff`, `DbRuns.ReadsAreReal`, `DbRuns.UnwrittenReadIff` |
| memtable | `SkipList` | `SkipList.ConcurrentSkipList` refines a sorted run, pointer by pointer |
| SST files | `Bloom`, `SstFormat`, `SstFile`, `TableFlush` | `SstFile.CreateRaw`, `SstFile.CreateEncoded`, `SstFile.SST.Get`, `TableFlush.FromMemtable` |
| text codec and keys | `Codec`, `Keyspace` | `Codec.JoinedInjective`, `Keyspace.TurnScanIsExact`, `Keyspace.TurnOrder` |
| key-value store | `KeyIndex`, `KvStore` | `KeyIndex.RunIsMap`, `KeyIndex.AllowedIff`, `KeyIndex.DeletesViaLiveIff`, `KvStore.ShownIff` |
| conversations | `Records`, `RecordLaws`, `Conversations`, `ConversationRuns`, `HiddenSessions`, `ConversationStores` | `Conversations.SaveThenGet`, `Conversations.SaveStoredIff`, `Conversations.StoredOver`, `ConversationRuns.CallExactIff`, `ConversationRuns.AppendExactIff`, `ConversationRuns.RunRefines` |
| other stateful cores | `LruCache`, `CmSketch`, `RaftLog` | `LruCache.PromotionLaw`, `CmSketch.NeverUnder`, `CmSketch.AloneIsExact`, `RaftLog.AppliesStablePrefix`, `RaftLog.CommitIsApplied` |

A table (memtable, SST, merge output) is a *run*: a sequence of entries with
strictly increasing keys, and `Runs.Lookup` is what it answers. Each class
method that the source runs under one lock is one atomic step. A flush, a
compaction and a cascade exist three times: as a method with the loops of the
source, as a function it is proved equal to, and as theorems about that
function.

`KvStore.DBKVStore` stands on the `Db.DB` object, and
`ConversationStores.ConversationStore` on `KvStore.DBKVStore`. Their methods ask
nothing about the flusher: a state of the store carries both what was written
(`data`) and what the database shows while the flusher holds a popped table
(`seen`), and every contract is stated with the reads the code really makes.
`KvStore.ShownIff` says exactly when a key is shown as it is. What `Save` or `Delete`
leaves to be read is always what it should be; what is stored, and comes back once
the popped table is published, depends on what was shown to the call, and the exact
condition is a theorem for each of them (`KeyIndex.AllowedIff`,
`Conversations.SaveStoredIff`, `Conversations.DropStoredIff`,
`ConversationRuns.CallExactIff`). The flusher may also move inside a call:
`KeyIndex.AfterDeletesVia`, `KeyIndex.AfterPutsVia`, `ConversationRuns.SaveVia` and
`ConversationRuns.DropVia` carry a view of the database for each single step, and
the runs of `ConversationRuns.RunRefines` are made of these.
`Db.DB` keeps its memtable and its SSTs as values: `SkipList`, `SstFile` and
`Db` meet through the operations `Runs.Lookup` and `Runs.Upsert`, and
`TableFlush` joins the skip list to the file it becomes.

Findings about the code:

- Compaction uses "empty" to mean "no key yet" while it collects the key range
  (mokv/lsm/manifest.hpp:425-430). An SST that begins with the empty key can
  therefore make the range too small, and a key is lost: `EmptyKey.CompactionLosesKey`
  gives the tree and `EmptyKey.RunLosesKey` seventeen steps from a fresh database
  that lose the key. `Compaction.LevelInvariantIff` says exactly when the next
  level stays sorted and disjoint (the guard `Compaction.SentinelSafe`, which
  holds whenever no SST starts with the empty key), and `Compaction.UnsafeLoses`
  which keys are lost whenever it does not.
- A table swapped out but not enqueued, and a table popped but not published,
  is invisible to readers (mokv/db.hpp:148-158, mokv/db.hpp:201-204).
  `DbModel.ReadExactIff` says exactly which keys are misread at one instant.
  Across three instants `DbRuns.UnwrittenReadIff` gives the exact condition for a
  key that is not written meanwhile, in terms of two gaps; for any key
  `DbRuns.ReadsAreReal` holds outside the gaps and `DbRuns.GapMisses` says that
  inside them the value of the first section is always missed. `DbRuns.GapsAreReal`
  is a run in which both gaps occur.
- So a call of the key-value store can miss a key that is there while the flusher
  holds a popped table: `Delete` then returns OK and deletes nothing
  (`KeyIndex.DeleteLiveIff`), `Put` counts the key twice (`KeyIndex.HiddenPut`), and
  `Clear` leaves keys (`KeyIndex.ClearEmptiesIff`).
- A conversation can come back changed for the same reason. `Save` and `Delete` are
  read back as they should (`Conversations.SaveThenGet`, `Conversations.DropThenGet`),
  but old turns or records that were hidden when they were to be deleted are stored
  again once the popped table is published. `Conversations.SaveStoredIff` and
  `Conversations.DropStoredIff` give the exact conditions, and
  `Conversations.StoredOver` the turns that are stored instead. `AppendTurn` stores
  the old turns and the new one if and only if it found the old turns
  (`ConversationRuns.AppendExactIff`); `HiddenSessions.HiddenSessionIsReached` is a
  run from a fresh database after which it replaces the first turn instead.
- The comment at mokv/lsm/manifest.hpp:522 says that higher levels cannot be
  over their limit when a lower one is not. That is not true of an arbitrary
  manifest (`Cascade.EarlyStopCanFail`); `Cascade.EarlyStopIff` says exactly when
  the early `break` is justified, and every manifest reached from a fresh one
  meets that (`Cascade.FlushLimits`).
- A value equal to the tombstone text is stored as a deletion; it is also put
  into the key index (`KeyIndex.PutAgreesIff`).
- The saved key index cannot hold the empty key: its line is blank and skipped
  on loading (`KeyIndex.ReopenAgreesIff`).
- A turn with an empty role is written but never read back
  (`Conversations.SaveThenGet`).
- The offset of the data block passes through `int32_t`
  (mokv/lsm/sst.hpp:184, mokv/lsm/sst.hpp:684); it survives exactly below
  2^31 (`SstFormat.OffsetExactIff`).
- The bound check of a record adds in `size_t` (mokv/lsm/sst.hpp:283-284), so a
  record whose size wraps can be accepted: `SstFormat.WrappingRecord` is one, and
  `SstFormat.FittingModuloIff` says exactly when the check is right.
- The padding of a Bloom filter image is always 8 bytes, never 0
  (`Bloom.ImageSizeIs`).
- The comment at mokv/utils/bloom_filter.hpp:201-202 says that `Check` is false
  for every key that was not inserted. It is not: after inserting a single NUL the
  empty key passes every filter (`Bloom.FalsePositive`). `Bloom.MarkedIff` says
  exactly which keys pass, and every inserted key does (`Bloom.InsertedAllMarks`).
- A received raft entry may carry a commit index above its own index;
  `RaftLog.InvariantIff` says exactly when a step keeps the log sound.

## Model

| member | source | states |
|---|---|---|
| ByteOrder.LtTotal | mokv/lsm/skiplist.hpp:205-205 | any two keys are comparable in the order std::string gives them |
| ByteOrder.LtTransitive | mokv/lsm/skiplist.hpp:205-205 | that order is transitive |
| ByteOrder.LtCommonPrefix | mokv/kvstore.cpp:143-143 | a common prefix does not take part in a comparison |
| Runs.RunExtensionality | mokv/lsm/sst.hpp:221-243 | a sorted table is determined by its answers |
| Runs.UpsertLookup | mokv/lsm/skiplist.hpp:197-240 | inserting or overwriting is map update |
| Runs.RemoveLookup | mokv/lsm/skiplist.hpp:253-298 | removing is map removal |
| Merge.HeapMerge | mokv/lsm/manifest.hpp:455-473 | the priority-queue loop terminates and computes the reference merge of its sources |
| Merge.MergedAnswers | mokv/lsm/manifest.hpp:380-395 | the merge is strictly sorted and answers every key with the value of the lowest-ranked source that knows it, and no other key |
| Merge.MergeStep | mokv/lsm/manifest.hpp:459-473 | one round of the loop keeps the frontier invariant: nothing at or below the last output key is missing or stale |
| Merge.TopExists | mokv/lsm/manifest.hpp:384-391 | the comparison always has a least element with distinct ranks |
| Levels.GetInLevel | mokv/lsm/manifest.hpp:155-179 | level 0 is searched from the back, other levels by bisection; on a sorted level the answer is that of all SSTs together |
| Levels.BisectionSuffices | mokv/lsm/manifest.hpp:164-176 | on a sorted disjoint level the one SST the bisection picks is the only one that can hold the key |
| Levels.OnlyOneKnows | mokv/lsm/manifest.hpp:83-89 | in a sorted disjoint level at most one SST knows a key |
| Levels.GetInTree | mokv/lsm/manifest.hpp:334-345 | the levels are asked in order and the first answer wins |
| Levels.LevelSizeConcat | mokv/lsm/manifest.hpp:193-199 | the size of a level is additive over its files |
| Levels.LevelSizeOne | mokv/lsm/manifest.hpp:193-199 | and of one file it is the size of that file |
| Levels.LevelBytes | mokv/lsm/manifest.hpp:193-199 | the loop computes that sum |
| Compaction.LevelInvariantIff | mokv/lsm/manifest.hpp:410-508 | the next level after a compaction is sorted and disjoint if and only if the sentinel guard holds |
| Compaction.NextLevelAnswers | mokv/lsm/manifest.hpp:438-507 | the rebuilt next level answers as the compacted level did, or else as the next level did |
| Compaction.CompactedInvariant | mokv/lsm/manifest.hpp:410-508 | the invariant of the whole tree survives a compaction if and only if the guard holds |
| Compaction.CompactionPreservesAnswers | mokv/lsm/manifest.hpp:410-508 | every key has the same answer before and after compacting any level, tombstones included, whenever the guard holds |
| Compaction.UnsafeLoses | mokv/lsm/manifest.hpp:425-453 | whenever the guard fails, every key of the last SST left of the cut that the compacted level does not know was answered by the next level before and is not afterwards |
| EmptyKey.CompactionLosesKey | mokv/lsm/manifest.hpp:425-430 | a valid tree with an empty key in which compacting level 0 loses another key |
| EmptyKey.RunLosesKey | mokv/db.hpp:138-233 | seventeen steps of writer and flusher from a fresh database reach that tree, and the key that was there is gone |
| Cascade.FlushLimits | mokv/lsm/manifest.hpp:516-552 | after a flush the files of levels 0 to 4 add up to at most 1 KB, 10 MB, 100 MB, 1000 MB and 10000 MB and there are at most six levels, so the early break loses nothing |
| Cascade.CascadeLimits | mokv/lsm/manifest.hpp:516-525 | the cascade repairs one overfull level and reads only the five thresholds |
| Cascade.CascadeSizes | mokv/lsm/manifest.hpp:516-525 | from where it starts to where it stops the cascade leaves all levels within their limits, elsewhere it changes nothing |
| Cascade.EarlyStopIff | mokv/lsm/manifest.hpp:521-523 | all levels are within their limits afterwards if and only if none behind the level where the cascade stops was over its limit |
| Cascade.EarlyStopCanFail | mokv/lsm/manifest.hpp:521-523 | a manifest in which the early break leaves a level over its limit |
| Cascade.FlushPreserves | mokv/db.hpp:225-232 | a flush changes the answers exactly by the flushed table on top and keeps the tree invariant, whenever the guard holds at each compaction of the cascade |
| Cascade.CascadePreserves | mokv/lsm/manifest.hpp:516-525 | the cascade changes no answer and keeps the tree invariant, whenever the guard holds at each of its compactions |
| Cascade.CascadeNoEmptyKey | mokv/lsm/manifest.hpp:516-525 | without empty keys the guard holds at each compaction, and no empty key appears |
| Cascade.FlushIds | mokv/db.hpp:211-232 | file numbers stay pairwise distinct and bounded by the last one drawn, although a cascade hands one number to several outputs in turn |
| Cascade.FlushSized | mokv/db.hpp:211-232 | a flush and all its compactions keep every file as large as its entries make it |
| Cascade.CompactedIds | mokv/lsm/manifest.hpp:476-508 | a compaction may reuse the number of a file it consumes |
| Words.RoundTrip | mokv/lsm/sst.hpp:72-91 | a fixed-width little-endian number is read back for every number that fits |
| Words.LittleEndian | mokv/lsm/sst.hpp:72-91 | byte i carries the digits of weight 256^i |
| Manifest.Save | mokv/lsm/manifest.hpp:262-298 | the bytes written are the image of version and levels |
| Manifest.SaveLevel | mokv/lsm/manifest.hpp:131-140 | a level is its file numbers and a closing word |
| Manifest.LoadLevel | mokv/lsm/manifest.hpp:104-124 | reading a level gives back its SSTs, the bytes read and the largest number |
| Manifest.Load | mokv/lsm/manifest.hpp:229-250 | loading inverts saving: same version, same levels, largest live file number |
| Manifest.MaxTreeIdBounds | mokv/lsm/manifest.hpp:116-118 | after reopening no live file number exceeds the loaded maximum |
| Manifest.MaxTreeIdAttained | mokv/lsm/manifest.hpp:116-118 | the loaded maximum is 0 or the number of a live file |
| Manifest.CollectLevel | mokv/lsm/manifest.hpp:416-431 | the first loop: tables newest first and the key range as the sentinel leaves it |
| Manifest.CollectOverlap | mokv/lsm/manifest.hpp:438-453 | the second loop: which SSTs of the next level stay left, stay right or join the merge |
| Manifest.ManifestVersion.constructor | mokv/lsm/manifest.hpp:251-255 | a new manifest has version 1 and one empty level |
| Manifest.ManifestVersion.Copy | mokv/lsm/manifest.hpp:314-318 | a copy has the next version and the same levels |
| Manifest.ManifestVersion.Get | mokv/lsm/manifest.hpp:334-345 | Get is the answer of the tree |
| Manifest.ManifestVersion.InsertAndUpdate | mokv/lsm/manifest.hpp:359-366 | the new version has the SST at the back of level 0; the old version keeps its levels |
| Manifest.ManifestVersion.CompactLevel | mokv/lsm/manifest.hpp:410-508 | one level is compacted into the next exactly as the function Compacted says |
| Manifest.ManifestVersion.CompactAll | mokv/lsm/manifest.hpp:516-525 | the loop over the levels is the function Cascaded; every threshold it reads exists |
| Manifest.ManifestVersion.CanDoCompaction | mokv/lsm/manifest.hpp:528-530 | true exactly when the files of level 0 add up to more than 1024 bytes |
| DbModel.StepKeepsInvariant | mokv/db.hpp:138-159 | every step of writer, flusher and restart keeps tables sorted and non-empty, the tree well formed and within its limits, file numbers unique |
| DbModel.StepMeaning | mokv/db.hpp:138-233 | a write changes one key of the overlaid map, every other step changes none |
| DbModel.StepKeepsSizes | mokv/db.hpp:138-233 | every step keeps the file sizes true, so the limits are about what is there |
| DbModel.PublishNeverBlocks | mokv/db.hpp:211-233 | a popped table can always be published |
| DbModel.ReadExactIff | mokv/db.hpp:104-136 | Get at one instant equals the overlaid map if and only if no table in flight hides the key |
| DbModel.QuietReadIsExact | mokv/db.hpp:104-136 | so with no table in flight Get equals the overlaid map |
| DbRuns.RunInvariant | mokv/db.hpp:189-233 | every state of every run meets the invariant, restarts included |
| DbRuns.RunMeaning | mokv/db.hpp:138-233 | in every run the map is the active table over all tables ever swapped out, newest first, over what was there at the start |
| DbRuns.RetiredWasReal | mokv/db.hpp:148-154 | what a table says was really the value at the moment it was swapped out |
| DbRuns.ReadsAreReal | mokv/db.hpp:104-136 | whenever the three sections of Get fall, it returns what the key was at some instant between the first and the last, unless one of the two gaps is open for the key |
| DbRuns.GapMisses | mokv/db.hpp:104-159 | in either gap Get never returns what the key was at the first section |
| DbRuns.UnwrittenRealIff | mokv/db.hpp:104-136 | for a key that is not written meanwhile, a value was real at some instant if and only if it was real at the first section |
| DbRuns.UnwrittenReadIff | mokv/db.hpp:104-159 | for a key that is not written meanwhile, Get returns what the key was if and only if neither gap is open |
| DbRuns.GapsAreReal | mokv/db.hpp:148-158 | a run in which both gaps occur and a read misses a key that was there all along |
| Db.NextManifest | mokv/db.hpp:225-232 | insert, then compact if level 0 is over its limit, is one flush |
| Db.DB.constructor | mokv/db.hpp:58-76 | a database in an empty directory is the fresh state |
| Db.DB.WriteSection | mokv/db.hpp:140-146 | the first section of Put is one Write step and tells whether the table is too large |
| Db.DB.SwapSection | mokv/db.hpp:147-153 | the second section is one Swap step or nothing |
| Db.DB.EnqueueSection | mokv/db.hpp:154-158 | the third section is one Enqueue step |
| Db.DB.Put | mokv/db.hpp:138-159 | without interruption Put changes the map, and what readers see, at one key; the updated table stays if it is within the limit and otherwise goes to the back of the queue, so the memtable never ends over its limit |
| Db.DB.Rotate | mokv/db.hpp:147-158 | a table over the limit goes to the back of the queue, one within it stays; nothing changes for a reader |
| Db.DB.Delete | mokv/db.hpp:161-163 | Delete makes one key absent to readers and changes no other |
| Db.DB.PopSection | mokv/db.hpp:201-203 | taking the oldest table is one Pop step |
| Db.DB.PublishSection | mokv/db.hpp:211-233 | ToSST is one Publish step |
| Db.DB.Drain | mokv/db.hpp:189-208 | the flusher loop empties the queue and changes no answer |
| Db.DB.GetQueued | mokv/db.hpp:115-126 | the newest queued table that knows the key answers |
| Db.DB.Get | mokv/db.hpp:104-136 | Get is the three places in order with tombstones hidden, and the overlaid map whenever nothing is in flight |
| Db.DB.FinishPopped | mokv/db.hpp:95-97 | joining the flusher publishes the table it holds and changes no answer |
| Db.DB.Close | mokv/db.hpp:78-102 | closing at any step of the flusher flushes everything, saves the manifest and changes no answer |
| Db.DB.Open | mokv/db.hpp:58-70 | opening what Close saved gives the same tree and a file number above every live one |
| SkipList.ConcurrentSkipList.constructor | mokv/lsm/skiplist.hpp:114-117 | an empty list has a head of height 1 |
| SkipList.ConcurrentSkipList.Locate | mokv/lsm/skiplist.hpp:202-209 | the descent ends on every level at the last tower with a smaller key, and every pointer it reads exists |
| SkipList.ConcurrentSkipList.Get | mokv/lsm/skiplist.hpp:160-181 | Get is map lookup |
| SkipList.ConcurrentSkipList.Put | mokv/lsm/skiplist.hpp:197-240 | Put with any tower height is map update; a new key gets a tower of exactly that height, the head is raised to it if need be and no other height changes; size and byte count stay exact |
| SkipList.ConcurrentSkipList.Delete | mokv/lsm/skiplist.hpp:253-298 | Delete is map removal; exactly the tower of the key goes and the head keeps no empty level above the first; size and byte count stay exact |
| SkipList.InsertedLinked | mokv/lsm/skiplist.hpp:235-238 | after the splice every level is again the sorted subsequence of towers that reach it |
| SkipList.RemovedLinked | mokv/lsm/skiplist.hpp:273-277 | after the unlinking every level is again the sorted subsequence of towers that reach it |
| SkipList.Relink | mokv/lsm/skiplist.hpp:235-238 | the pointer writes of an insertion change exactly the predecessors on the new tower's levels |
| SkipList.Unlink | mokv/lsm/skiplist.hpp:273-277 | the pointer writes of a deletion change exactly the predecessors of the tower |
| SkipList.ConcurrentSkipList.Shrink | mokv/lsm/skiplist.hpp:290-296 | all empty upper levels of the head are dropped and nothing else changes |
| SkipList.ConcurrentSkipList.Entries | mokv/lsm/sst.hpp:1010-1019 | walking level 0 gives all entries in key order |
| Bloom.BitOfSetBit | mokv/utils/bloom_filter.hpp:177-177 | setting one bit of a word sets that bit and clears none |
| Bloom.InsertMarks | mokv/utils/bloom_filter.hpp:174-191 | Insert marks its key and unmarks none; every bit index is in range |
| Bloom.InsertedAllMarks | mokv/utils/bloom_filter.hpp:174-213 | no false negatives after any number of inserts |
| Bloom.InsertedAllBits | mokv/utils/bloom_filter.hpp:174-191 | the bits that are set after any inserts are those set before and the indices of the inserted keys |
| Bloom.MarkedIff | mokv/utils/bloom_filter.hpp:195-213 | after any inserts into an empty filter a key passes the check if and only if each of its indices is an index of some inserted key |
| Bloom.FalsePositive | mokv/utils/bloom_filter.hpp:201-213 | in every filter the empty key passes after a single NUL was inserted |
| Bloom.HashLaw | mokv/utils/bloom_filter.hpp:232-251 | the hash of nothing is 0, and one more character multiplies by the seed and adds it, modulo 2^64 |
| Bloom.WidenedLaw | mokv/utils/bloom_filter.hpp:232-240 | characters are added as signed bytes |
| Bloom.SizingIs | mokv/utils/bloom_filter.hpp:156-165 | the length is the first whole number above the bits asked for, the number of hash functions the whole part of 0.69 times the bits per key |
| Bloom.HashCountBound | mokv/utils/bloom_filter.hpp:156-165 | between 1 and 16 hash functions whatever the number of keys |
| Bloom.CalcHash | mokv/utils/bloom_filter.hpp:232-251 | the loop is the polynomial hash modulo 2^64 with sign-extended characters |
| Bloom.BloomFilter.Init | mokv/utils/bloom_filter.hpp:156-165 | a filter with no bit set, the computed length and number of seeds, and the seeds drawn in order |
| Bloom.BloomFilter.Insert | mokv/utils/bloom_filter.hpp:174-191 | one bit for each seed is set |
| Bloom.BloomFilter.Check | mokv/utils/bloom_filter.hpp:205-213 | true exactly when all bits of the key are set |
| Bloom.BloomFilter.BinarySize | mokv/utils/bloom_filter.hpp:73-78 | the number of bytes Save writes and Load reads |
| Bloom.BloomFilter.Save | mokv/utils/bloom_filter.hpp:124-143 | the buffer holds the filter's image and nothing outside it changed |
| Bloom.BloomFilter.Load | mokv/utils/bloom_filter.hpp:91-117 | loading a stored image gives the same filter and its size |
| SstFormat.BodyRoundTrip | mokv/lsm/sst.hpp:264-300 | parsing what was written gives the same entries |
| SstFormat.ParseEntries | mokv/lsm/sst.hpp:264-300 | on any bytes whose record sizes do not wrap, the parse that inverts the body; a record that would leave the block empties the result |
| SstFormat.ParsedAllOrNothing | mokv/lsm/sst.hpp:264-300 | on any bytes the parse gives as many entries as the count says, all within the block, or none |
| SstFormat.TruncatedIsEmpty | mokv/lsm/sst.hpp:264-300 | nothing is read from a block that was cut short |
| SstFormat.FittingModuloIff | mokv/lsm/sst.hpp:283-284 | the bound check modulo 2^64 is right if and only if the sum does not wrap, or wraps to something that does not fit either |
| SstFormat.WrappingRecord | mokv/lsm/sst.hpp:283-284 | a record that no block can hold and the check accepts |
| SstFormat.RawIsNotEncoded | mokv/lsm/sst.hpp:98-103 | a raw block is never taken for an encoded one |
| SstFormat.EncodedIsRecognised | mokv/lsm/sst.hpp:98-116 | an encoded header is recognised and its fields are read back |
| SstFormat.OffsetExactIff | mokv/lsm/sst.hpp:184-187 | the block offset survives the passage through int32_t if and only if it is below 2^31 |
| SstFile.DataBlock.Get | mokv/lsm/sst.hpp:221-243 | filter and binary search together are list lookup |
| SstFile.LowerBound | mokv/lsm/sst.hpp:226-234 | the binary search finds the number of smaller keys |
| SstFile.SST.Get | mokv/lsm/sst.hpp:745-763 | Get of a loaded SST is lookup in the entries it was built from |
| SstFile.LoadRaw | mokv/lsm/sst.hpp:205-208 | a raw block gives back its filter and entries |
| SstFile.LoadEncoded | mokv/lsm/sst.hpp:302-357 | an encoded block, compressed or not, gives back its filter and entries |
| SstFile.LoadBlock | mokv/lsm/sst.hpp:184-209 | the two layouts are told apart and both are read back |
| SstFile.Load | mokv/lsm/sst.hpp:724-739 | loading a file gives exactly the entries it was built from |
| SstFile.BuildFilter | mokv/lsm/sst.hpp:874-882 | the filter of a file is an empty one with the keys of the file inserted, and passes all of these |
| SstFile.PlaceIndex | mokv/lsm/sst.hpp:908-920 | the index block holds count 1, the offset of the data block and the first key |
| SstFile.PlaceRawBlock | mokv/lsm/sst.hpp:924-938 | the raw data block holds size, filter, count and entries |
| SstFile.CreateRaw | mokv/lsm/sst.hpp:870-951 | building a file without compression and loading it answers exactly as the entries do |
| SstFile.BuildPayload | mokv/lsm/sst.hpp:525-596 | the encoded payload holds header, filter and the body, compressed if and only if that is asked for, the block is large enough, the compressor exists and its output is shorter |
| SstFile.CreateEncoded | mokv/lsm/sst.hpp:1040-1100 | building a file with compression and loading it answers exactly as the entries do |
| TableFlush.FromMemtable | mokv/db.hpp:211-218 | the SST built from a memtable holds exactly its entries, with or without compression |
| TableFlush.SameAnswer | mokv/db.hpp:211-218 | a key has the same answer in the memtable and in its file |
| Codec.UnescapeEscaped | mokv/utils/codec.hpp:14-92 | Unescape inverts Escape |
| Codec.UnescapeEscapedKey | mokv/utils/codec.hpp:36-92 | Unescape inverts EscapeKeyPart |
| Codec.Escape | mokv/utils/codec.hpp:14-34 | computes the escape that Unescape inverts, in which no tab and no line break is left |
| Codec.EscapeKeyPart | mokv/utils/codec.hpp:36-59 | computes the key escape that Unescape inverts and whose words never begin with the separator |
| Codec.Unescape | mokv/utils/codec.hpp:61-92 | computes the left inverse of both escapes; a lone escape at the end stands for itself |
| Codec.EscapeLaw | mokv/utils/codec.hpp:14-59 | the code of each character in both escapes |
| Codec.UnescapeLaw | mokv/utils/codec.hpp:61-92 | what each escape stands for on any text, an unknown one for its character and a lone one for itself |
| Codec.Split | mokv/utils/codec.hpp:94-107 | the tokens between delimiters, at least one |
| Codec.TokensRejoin | mokv/utils/codec.hpp:94-107 | the tokens with the delimiter between them are the text, and none holds the delimiter |
| Codec.LinesTerminated | mokv/llm/store.hpp:171-174 | the lines with a break behind each are the text, up to a break at its end |
| Codec.JoinKeyParts | mokv/utils/codec.hpp:129-140 | computes the injective join of the parts, nothing for no parts |
| Codec.PartIsReadOff | mokv/utils/codec.hpp:36-59 | the key escape is a prefix code in which the separator never begins a word |
| Codec.LeadingParts | mokv/utils/codec.hpp:129-140 | a prefix that ends in a separator fixes all parts before it |
| Codec.JoinedInjective | mokv/utils/codec.hpp:129-140 | joined keys are uniquely decodable whatever characters the parts contain |
| Codec.ParseShown | mokv/utils/codec.hpp:109-127 | an integer in range is read back from its decimal text |
| Codec.ParseIntegerIff | mokv/utils/codec.hpp:109-127 | a text is read as a number if and only if it is that number in decimal, with leading zeros allowed, a minus sign only for signed types and no plus sign, and the number is in range |
| Codec.SequenceOrder | mokv/llm/store.hpp:87-91 | ten padded digits make string order agree with 32-bit number order |
| Keyspace.TextIsJoined | mokv/llm/store.hpp:366-466 | every key of every typed store is the join of its parts |
| Keyspace.KeyInjective | mokv/llm/store.hpp:366-466 | different records of all typed stores never share a key |
| Keyspace.TurnScanIsExact | mokv/llm/store.hpp:413-428 | among all typed keys a scan by a session's turn prefix matches exactly that session's turns |
| Keyspace.TurnOrder | mokv/llm/store.hpp:421-428 | turn keys sort by sequence number |
| Keyspace.TextIsOrdinary | mokv/kvstore.cpp:267-270 | no typed key is reserved |
| KeyIndex.SortKeysSorts | mokv/kvstore.cpp:15-16 | sorting distinct keys gives the strictly ascending list of the same keys |
| KeyIndex.SerializeKeys | mokv/kvstore.cpp:14-24 | computes the text that DeserializeKeys reads back as the sorted keys |
| KeyIndex.DeserializeKeys | mokv/kvstore.cpp:26-37 | reads back every key of a saved index but the empty one, on any text |
| KeyIndex.IndexRoundTrip | mokv/kvstore.cpp:14-37 | the saved index gives back all keys but the empty one |
| KeyIndex.IndexIsNoTombstone | mokv/kvstore.cpp:14-24 | a saved index never reads as a tombstone |
| KeyIndex.PutIndexedIff | mokv/kvstore.cpp:70-95 | Put keeps the index and is map update if and only if the value is not the tombstone, whatever the database shows; the counter is off by what it shows of the key |
| KeyIndex.PutAgreesIff | mokv/kvstore.cpp:70-95 | index and counter agree with the data afterwards if and only if the value is not the tombstone and the database shows the size of the key's entry |
| KeyIndex.HiddenPut | mokv/kvstore.cpp:78-91 | a put over a key behind a popped table counts the key twice |
| KeyIndex.DeleteIndexed | mokv/kvstore.cpp:97-123 | Delete keeps the index and removes the key exactly when the database shows it |
| KeyIndex.DeleteAgreesIff | mokv/kvstore.cpp:97-123 | Delete is map removal with an exact counter if and only if the database shows the key whenever it is there, with its size |
| KeyIndex.DeleteLiveIff | mokv/kvstore.cpp:97-123 | Delete keeps the index, and removes the key if and only if the database shows it whenever it is there |
| KeyIndex.ReopenAgreesIff | mokv/kvstore.cpp:248-265 | reopening rebuilds keys and bytes, and shows everything, if and only if the empty key is not known |
| KeyIndex.ListingIsExact | mokv/kvstore.cpp:134-145 | a scan lists exactly the live keys with the prefix, in order |
| KeyIndex.BatchLive | mokv/kvstore.cpp:194-202 | a batch of ordinary pairs is the fold of map updates whatever the database shows; the counter stays exact if it shows their keys |
| KeyIndex.BatchStops | mokv/kvstore.cpp:194-202 | a batch is its puts in order, and nothing behind the first reserved key happens |
| KeyIndex.BatchDeleteStops | mokv/kvstore.cpp:204-212 | so is a batch deletion |
| KeyIndex.BatchFinds | mokv/kvstore.cpp:194-202 | what a batch leaves of each key, in the data and in what is shown |
| KeyIndex.BatchDeleteLiveIff | mokv/kvstore.cpp:204-212 | a batch deletion removes exactly its keys if and only if the database shows each of them that is there |
| KeyIndex.BatchDeleteFinds | mokv/kvstore.cpp:204-212 | what a batch deletion leaves of each key, in the data and in what is shown |
| KeyIndex.BatchDeleteBytes | mokv/kvstore.cpp:204-212 | a batch deletion takes from the counter the sizes that were shown of its keys |
| KeyIndex.ClearEmptiesIff | mokv/kvstore.cpp:164-173 | Clear leaves no key if and only if every known key is shown; the counter then has what was stored less what was shown |
| KeyIndex.DeletesViaLiveIff | mokv/kvstore.cpp:164-212 | with the flusher moving between single deletions, the index is kept, and exactly the keys are removed if and only if each that is there is shown when it is its turn |
| KeyIndex.PutsViaLive | mokv/kvstore.cpp:194-202 | with the flusher moving between single puts, a batch keeps the index and is the fold of map updates |
| KeyIndex.DeletesViaIsRun | mokv/kvstore.cpp:204-212 | such a batch deletion is a run of single deletes and flusher steps |
| KeyIndex.PutsViaIsRun | mokv/kvstore.cpp:194-202 | such a batch is a run of single puts and flusher steps |
| KeyIndex.AllowedIff | mokv/kvstore.cpp:70-173 | a put, delete, clear or reopening keeps index and counter and does to the map what it should if and only if it is allowed, a condition on what is shown to it |
| KeyIndex.RunIsMap | mokv/kvstore.cpp:70-173 | over every run of allowed puts, deletes and clears, flusher steps and reopenings the index and the counter agree with the data and the store is a plain map |
| KvStore.ShownIff | mokv/db.hpp:104-136 | Get shows a key as it is if and only if no popped table decides it |
| KvStore.PoppedHidesAll | mokv/db.hpp:201-204 | while the flusher holds the only table there is, readers see nothing |
| KvStore.DBKVStore.constructor | mokv/kvstore.cpp:53-56 | a store in an empty directory |
| KvStore.DBKVStore.Open | mokv/kvstore.cpp:53-56 | a store over what an earlier one left is its reopened state |
| KvStore.DBKVStore.LoadKeyIndex | mokv/kvstore.cpp:248-265 | the index and the byte counter are rebuilt from the data |
| KvStore.DBKVStore.Get | mokv/kvstore.cpp:58-68 | what the database shows, nothing when closed; what is there if and only if no popped table decides the key |
| KvStore.DBKVStore.Put | mokv/kvstore.cpp:70-95 | at any step of the flusher: refused when closed or reserved, otherwise the step AfterPut |
| KvStore.DBKVStore.Delete | mokv/kvstore.cpp:97-123 | at any step of the flusher: refused when closed or reserved, otherwise the step AfterDelete; the key is removed if and only if it is shown whenever it is there |
| KvStore.DBKVStore.ListKeysByPrefix | mokv/kvstore.cpp:134-145 | the filtered and sorted index |
| KvStore.DBKVStore.ListEntriesByPrefix | mokv/kvstore.cpp:147-162 | the scan with the values that are shown |
| KvStore.DBKVStore.Batch | mokv/kvstore.cpp:194-202 | puts in order up to the first refusal |
| KvStore.DBKVStore.BatchDelete | mokv/kvstore.cpp:204-212 | deletions in order up to the first refusal |
| KvStore.DBKVStore.Clear | mokv/kvstore.cpp:164-173 | every known key is deleted in turn; nothing is left if and only if all were shown |
| KvStore.DBKVStore.FlusherPops | mokv/db.hpp:200-203 | the data stay; afterwards exactly the keys that the popped table decides are not shown as they are |
| KvStore.DBKVStore.FlusherPublishes | mokv/db.hpp:211-233 | the data stay and everything is shown again |
| KvStore.DBKVStore.QuietWhenIdle | mokv/db.hpp:189-208 | with nothing popped everything is shown |
| KvStore.DBKVStore.Close | mokv/kvstore.cpp:232-238 | at any step of the flusher the database is saved whole and the object is emptied |
| Records.RecordRoundTrip | mokv/llm/store.hpp:161-183 | writing and reading rows of plain columns is the identity |
| Records.TurnRoundTrip | mokv/llm/store.hpp:161-189 | a turn is read back unless its role is empty |
| Records.SummaryRoundTrip | mokv/llm/store.hpp:192-230 | a summary is read back unless its session id is empty |
| Records.LegacyRoundTrip | mokv/llm/store.hpp:232-279 | a legacy record is read back whole unless its session id is empty |
| Records.ParseConversationTurn | mokv/llm/store.hpp:169-189 | on any payload, the parse that inverts the turn record; a bad number or an empty role is refused |
| Records.ParseConversationSummary | mokv/llm/store.hpp:203-230 | on any payload, the parse that inverts the summary record; a bad number or an empty session id is refused |
| Records.ParseLegacyConversation | mokv/llm/store.hpp:246-279 | on any payload, the parse that inverts the legacy record; a bad number or an empty session id is refused |
| RecordLaws.ParsedTurnIs | mokv/llm/store.hpp:169-189 | a payload is a turn if and only if no number in it is bad and it names a role; the last row of each name counts, other rows are skipped |
| RecordLaws.ParsedSummaryIs | mokv/llm/store.hpp:203-230 | the same of a summary, which must name a session |
| RecordLaws.ParsedLegacyIs | mokv/llm/store.hpp:246-279 | the same of a legacy record, whose turns are those of all turn rows in order |
| Conversations.KeysApart | mokv/llm/store.hpp:386-428 | where the keys of one session stand to the scan and the records of any session |
| Conversations.ClearReads | mokv/llm/store.hpp:558-582 | a session that is shown reads as it is stored |
| Conversations.SaveThenGet | mokv/llm/store.hpp:523-582 | Get after Save, over any earlier contents and at any step of the flusher, returns the session with its turns in order; the very same session if and only if every turn has a role |
| Conversations.SaveStoredIff | mokv/llm/store.hpp:523-556 | what is stored after Save is the session if and only if no old turn is left over that was hidden and is not overwritten |
| Conversations.ScanGivesIff | mokv/llm/store.hpp:620-632 | a scan over records of turns gives these turns if and only if nothing else under the prefix parses as a turn |
| Conversations.SaveIndexed | mokv/llm/store.hpp:523-556 | Save keeps the index, and the byte counter if the session is shown |
| Conversations.SaveRecords | mokv/llm/store.hpp:536-555 | after Save the summary tells the identifier, the model, the number of turns and the time of the last turn, 0 if there is none, and the legacy record is the whole session |
| Conversations.LegacyIsRead | mokv/llm/store.hpp:577-581 | a session of which only the legacy record is shown is read from that, whole |
| Conversations.SaveElsewhere | mokv/llm/store.hpp:523-556 | Save changes no other session, stored or shown |
| Conversations.DropThenGet | mokv/llm/store.hpp:650-658 | after Delete the session is no longer read, at any step of the flusher |
| Conversations.DropStoredIff | mokv/llm/store.hpp:650-658 | Delete removes the session from the store if and only if no hidden record of it that parses is left over |
| Conversations.DropIndexed | mokv/llm/store.hpp:650-658 | Delete keeps the index, and the byte counter if the session is shown |
| Conversations.DropElsewhere | mokv/llm/store.hpp:650-658 | Delete changes no other session, stored or shown |
| Conversations.AppendThenGet | mokv/llm/store.hpp:584-600 | Get after AppendTurn, at any step of the flusher, returns what AppendTurn found with exactly one turn more at the end, or a session with that turn |
| Conversations.AppendStoredIff | mokv/llm/store.hpp:584-600 | what AppendTurn saved is what is stored if and only if no hidden turn is left over |
| Conversations.AppendRecords | mokv/llm/store.hpp:584-600 | after AppendTurn the summary counts one turn more and is dated by the new turn |
| Conversations.StoredOver | mokv/llm/store.hpp:523-556 | what is stored after saving over a session of which any part was hidden: the new turns, and behind them the hidden old ones that none has overwritten |
| Conversations.SaveOverHidden | mokv/llm/store.hpp:523-556 | so for Save, whatever the database shows |
| Conversations.AppendHidden | mokv/llm/store.hpp:584-600 | on a session whose records and any of whose turns are hidden AppendTurn leaves the new turn and the hidden old ones from number 1 on, never the old turns and the new one |
| Conversations.TrimThenGet | mokv/llm/store.hpp:634-648 | TrimToLastTurns(n) leaves exactly the last min(n, length) turns of what it found, at any step of the flusher; turns without a role are dropped when it saves |
| Conversations.TrimRecords | mokv/llm/store.hpp:634-648 | after a trim the summary counts the kept turns and is dated by the last of them |
| ConversationRuns.GetViaIsGet | mokv/llm/store.hpp:558-582 | a Get during which the flusher moves is a Get at some one view of the database |
| ConversationRuns.SaveViaStill | mokv/llm/store.hpp:523-556 | Save with a flusher that stands still is AfterSave |
| ConversationRuns.DropViaStill | mokv/llm/store.hpp:650-658 | Delete with a flusher that stands still is AfterDrop |
| ConversationRuns.SaveViaIsRun | mokv/llm/store.hpp:523-556 | Save with a moving flusher is a run of single deletes, puts and flusher steps |
| ConversationRuns.DropViaIsRun | mokv/llm/store.hpp:650-658 | Delete with a moving flusher is a run of single deletes and flusher steps |
| ConversationRuns.SaveViaStoredIff | mokv/llm/store.hpp:523-556 | however the flusher moves during Save, what is stored is the session if and only if no turn is left over that was hidden when it was to be deleted and is not overwritten |
| ConversationRuns.SaveViaOverHidden | mokv/llm/store.hpp:523-556 | the exact turns that are stored otherwise |
| ConversationRuns.SaveViaElsewhere | mokv/llm/store.hpp:523-556 | no other session changes |
| ConversationRuns.DropViaStoredIff | mokv/llm/store.hpp:650-658 | however the flusher moves during Delete, the session is gone if and only if no record that parses was hidden when it was to be deleted; no other session changes |
| ConversationRuns.AppendExactIff | mokv/llm/store.hpp:584-600 | whatever is hidden at whatever moments, the old turns and the new one are stored after AppendTurn if and only if it found the old turns |
| ConversationRuns.TrimExactIff | mokv/llm/store.hpp:634-648 | whatever is hidden, the last turns are stored after TrimToLastTurns if and only if it found those and saw every old turn it does not overwrite, or had nothing to trim |
| ConversationRuns.AppendStill | mokv/llm/store.hpp:584-600 | the AppendTurn of a run is, with a flusher that stands still, the one of the store object |
| ConversationRuns.TrimStill | mokv/llm/store.hpp:634-648 | so is TrimToLastTurns |
| ConversationRuns.CallExactIff | mokv/llm/store.hpp:523-658 | a call that finds the session as it is stored does to it what it should if and only if nothing it had to delete was hidden at that moment |
| ConversationRuns.CallRefines | mokv/llm/store.hpp:523-658 | then it does that to its session and nothing to any other |
| ConversationRuns.ShownSuffices | mokv/llm/store.hpp:523-658 | a session that is shown as it is meets these conditions |
| ConversationRuns.RunRefines | mokv/llm/store.hpp:523-658 | over every run of such calls on any number of sessions, with any restarts between them and any flusher steps between and during them, the store is a map from identifiers to sessions |
| ConversationRuns.ReopenKeepsSessions | mokv/kvstore.cpp:248-265 | every session reads as it was stored after the store is closed and opened again |
| ConversationRuns.EmptyIsOrderly | mokv/llm/store.hpp:521-521 | a fresh store meets what the run theorem starts from |
| HiddenSessions.TableIs | mokv/db.hpp:138-146 | a sorted table answers for the data of any store without an empty key |
| HiddenSessions.PoppedIsReached | mokv/db.hpp:138-204 | writing a table key by key, rotating and popping reaches the state in which only the flusher holds it |
| HiddenSessions.HiddenSessionIsReached | mokv/llm/store.hpp:584-600 | some run from a fresh database reaches a store that holds a session and shows nothing, where AppendTurn replaces the first turn and adds none |
| ConversationStores.BuildEntries | mokv/llm/store.hpp:545-555 | the records Save writes: legacy, summary, then the turns by number |
| ConversationStores.ConversationStore.Save | mokv/llm/store.hpp:523-556 | at any step of the flusher: refused without a session id or when closed, otherwise AfterSave; the session is then read back with a summary that counts and dates its turns, and stored if and only if no hidden turn is left over |
| ConversationStores.ConversationStore.Get | mokv/llm/store.hpp:558-582 | the summary with the scanned turns, or else the legacy record |
| ConversationStores.ConversationStore.ListTurns | mokv/llm/store.hpp:620-632 | the turns that parse, in scan order |
| ConversationStores.ConversationStore.AppendTurn | mokv/llm/store.hpp:584-600 | the session found, or a new one, is saved with the turn at its end; OK exactly when the store is open and the session id is not empty |
| ConversationStores.ConversationStore.TrimToLastTurns | mokv/llm/store.hpp:634-648 | the last turns are kept; fails exactly when the store is closed, there is no session, or the one to be saved has no id |
| ConversationStores.ConversationStore.Delete | mokv/llm/store.hpp:650-658 | the turns under the prefix, the summary and the legacy record are removed; OK exactly when the store is open; the session is then no longer read, and no longer stored if and only if no hidden record is left over |
| LruCache.List.PushFront | mokv/cache/list.hpp:108-125 | a new node behind the dummy; both walks stay mirror images |
| LruCache.List.PopBack | mokv/cache/list.hpp:151-157 | the tail leaves the ring, nothing when empty |
| LruCache.List.Extract | mokv/cache/list.hpp:182-186 | the node is unlinked, size unchanged |
| LruCache.List.InsertFront | mokv/cache/list.hpp:161-166 | the node is linked in at the front, size unchanged |
| LruCache.TouchedPermutes | mokv/cache/concurrent_cache.hpp:113-125 | promotion only permutes |
| LruCache.HitLaw | mokv/cache/concurrent_cache.hpp:103-125 | a hit at the limit puts the item in front with its counter at 0, any other hit only counts and moves nothing; the others keep their order |
| LruCache.MissLaw | mokv/cache/concurrent_cache.hpp:150-162 | a miss puts the new item in front and drops exactly the last one of a full list |
| LruCache.PromotionLaw | mokv/cache/concurrent_cache.hpp:103-163 | over every run of gets and puts in which a key stays listed its counter is the number of operations on it modulo the limit plus one; exactly those that bring it to 0 move the item, to the front |
| LruCache.FrontSurvives | mokv/cache/concurrent_cache.hpp:150-162 | an item in front of a full cache is not the one the next miss evicts |
| LruCache.ConcurrentLRUCache.Promote | mokv/cache/concurrent_cache.hpp:103-125 | the counter rises; past the limit the node moves to the front with counter 0 |
| LruCache.ConcurrentLRUCache.FoundIs | mokv/cache/concurrent_cache.hpp:287-288 | the hash map is a bijection onto the ring nodes keyed by their value |
| LruCache.ConcurrentLRUCache.ItemsUnique | mokv/cache/concurrent_cache.hpp:287-288 | no key is listed twice |
| LruCache.ConcurrentLRUCache.EvictIfFull | mokv/cache/concurrent_cache.hpp:155-158 | a full cache loses exactly the ring's tail from both structures |
| LruCache.ConcurrentLRUCache.Put | mokv/cache/concurrent_cache.hpp:137-163 | a hit promotes, a miss enters at the front and evicts the tail of a full cache |
| LruCache.ConcurrentLRUCache.PutWithDisuse | mokv/cache/concurrent_cache.hpp:165-190 | as Put, and the evicted value is handed back |
| LruCache.ConcurrentLRUCache.PutWithCompair | mokv/cache/concurrent_cache.hpp:193-224 | as Put, but a full cache admits only a value that beats its tail |
| LruCache.ConcurrentLRUCache.Get | mokv/cache/concurrent_cache.hpp:257-267 | the cached value with a promotion, or nothing |
| CmSketch.SlotAtLeastExact | mokv/cache/cm_sketch.hpp:39-47 | collisions can only add |
| CmSketch.ExactCounts | mokv/cache/cm_sketch.hpp:39-47 | between two resets the exact count is the number of increments, up to 15 |
| CmSketch.ExactHalves | mokv/cache/cm_sketch.hpp:56-63 | a reset halves it |
| CmSketch.SharedSlotIff | mokv/cache/cm_sketch.hpp:41-41 | two items share a slot if and only if they are congruent modulo the capacity, whatever the seed |
| CmSketch.AloneIsExact | mokv/cache/cm_sketch.hpp:48-55 | the estimate is exact when in some shard no other counted item falls into the slot or, where it shines through, the neighbouring one |
| CmSketch.BumpNibble | mokv/cache/cm_sketch.hpp:43-45 | a counter below 15 rises without a carry into its neighbour |
| CmSketch.HalveByte | mokv/cache/cm_sketch.hpp:60-60 | one shift and one mask halve both counters of a byte |
| CmSketch.NeverUnder | mokv/cache/cm_sketch.hpp:48-55 | over every run the estimate is at most 15 and at least the exact count, although Estimate does not mask |
| CmSketch.CMSketch4Bits.Increment | mokv/cache/cm_sketch.hpp:39-47 | every counter in memory stays what the run says |
| CmSketch.CMSketch4Bits.Estimate | mokv/cache/cm_sketch.hpp:48-55 | the minimum over the shards, never below the exact count, and exact when the item is alone in some shard |
| CmSketch.CMSketch4Bits.Reset | mokv/cache/cm_sketch.hpp:56-63 | every counter is halved |
| RaftLog.InvariantIff | mokv/raft/raft_log.hpp:111-176 | a step keeps last_append <= commited <= index and the applied prefix if and only if it is permitted |
| RaftLog.AppliesStablePrefix | mokv/raft/raft_log.hpp:52-67 | over every run the committed prefix never changes and the database receives its entries once each in index order |
| RaftLog.CaughtUpWrites | mokv/raft/raft_log.hpp:52-67 | once the apply thread has caught up the database has received exactly the committed entries |
| RaftLog.CommitIsApplied | mokv/raft/raft_log.hpp:169-176 | so after a commit it has received every entry up to the leader's commit index that is there |
| RaftLog.AppendIsApplied | mokv/raft/raft_log.hpp:135-150 | and after an append everything the entry carries as committed |
| RaftLog.PushGuardIff | mokv/utils/ring_buffer_queue.hpp:18-24 | the guard of PushBack prevents the write outside the array exactly while the last slot is not reached with a moved tail |
| RaftLog.RingBufferQueue.PushBack | mokv/utils/ring_buffer_queue.hpp:18-24 | appends, or refuses when full |
| RaftLog.RingBufferQueue.Truncate | mokv/utils/ring_buffer_queue.hpp:49-57 | drops up to the count from the back |
| RaftLog.RingBufferQueue.At | mokv/utils/ring_buffer_queue.hpp:72-74 | counted from the front |
| RaftLog.RingBufferQueue.RAt | mokv/utils/ring_buffer_queue.hpp:76-78 | counted from the back |
| RaftLog.Log.constructor | mokv/raft/raft_log.hpp:41-51 | opening starts from the saved commit index |
| RaftLog.Log.PutEntry | mokv/raft/raft_log.hpp:135-150 | a received entry is appended; the commit index rises to the one it carries and never falls |
| RaftLog.Log.Put | mokv/raft/raft_log.hpp:111-133 | a local entry gets the next index and commits nothing |
| RaftLog.Log.At | mokv/raft/raft_log.hpp:107-109 | the entry with a given index |
| RaftLog.Log.Reset | mokv/raft/raft_log.hpp:153-160 | entries above the index are dropped |
| RaftLog.Log.UpdateCommit | mokv/raft/raft_log.hpp:169-176 | the commit index becomes the larger of itself and the leader's, cut at the last index |
| RaftLog.Log.TakeNext | mokv/raft/raft_log.hpp:61-62 | the apply thread takes the next committed entry; the read is in range |
| RaftLog.Log.WriteNext | mokv/raft/raft_log.hpp:64-64 | the entry reaches the database |
| RaftLog.Log.Close | mokv/raft/raft_log.hpp:69-97 | closing applies what is committed; the saved index is what the database has received |

## Left out

- Raft elections and replication (mokv/raft/pod.hpp), gRPC, the server and the configuration files.
- The Snappy compressor; `SstFile` takes any compressor that is lossless, which is assumed of LZ4.
- The block cache, which `SST::Get` never reads through, and the superseded skip list, batch commit, read quorum and asynchronous writers.
- Files and mmap as effects: a file is its bytes, an SST in a tree is an immutable value, and rewriting one file number during a cascade while an older version is read is not modelled.
- Several writers at once: swap and enqueue use different locks, so the queue order could invert; there is one writer, one flusher and any number of readers.
- Locks, spinning and memory order: every locked section is one atomic step.
- The older versions kept in `manifest_queue_`: readers always use the newest.
- Prompt cache, retrieval and runtime config stores beyond their keys, and the per-app listings, which scan prefixes without a trailing separator.
- `List::PushBack`, `List::PopFront` and `List::Insert`, which the cache does not use, and races between the two lock sections of a cache put.
- Rounding in the size computation of the Bloom filter: it is done over real numbers with the constant between 22.5 and 22.6.
- Sizes, versions and counters are unbounded integers except where a contract limits them to 64 or 32 bits.
- The flusher inside one call of the store objects: between calls of `KvStore.DBKVStore` and `ConversationStores.ConversationStore` it may be at any step, during a call of the object it stands still. As values the calls are also given with the flusher moving between their single steps (`KeyIndex.DeletesViaLiveIff`, `ConversationRuns.RunRefines`); steps of the flusher inside `DB::Get` are in `DbRuns`.
- DbModel.StepKeepsInvariant: asks that the empty key is not written, because a compaction may then lose keys (`EmptyKey.RunLosesKey`); the guarded form is `Cascade.FlushPreserves`.
- DbModel.StepMeaning: asks that the empty key is not written, for the same reason.
- DbRuns.RunInvariant: asks that the empty key is not written, for the same reason.
- DbRuns.RunMeaning: asks that the empty key is not written, for the same reason.
- DbRuns.ReadsAreReal: is one direction only, because a key that is written while a gap is open can by chance be given the value that the read returns; `DbRuns.UnwrittenReadIff` has both.
- Db.DB.Put: asks for a non-empty key, because a compaction may lose keys beside an empty one.
- Db.DB.Delete: asks for a non-empty key for the same reason.
- Db.DB.WriteSection: asks for a non-empty key for the same reason.
- Db.DB.Close: asks for a version and file numbers that fit in their words, as the file format does.
- KvStore.DBKVStore.Put: asks for a non-empty key because the database below does; the index itself is treated with the empty key in `KeyIndex`.
- KvStore.DBKVStore.Delete: asks for a non-empty key for the same reason.
- KvStore.DBKVStore.Batch: asks for non-empty keys for the same reason.
- KvStore.DBKVStore.BatchDelete: asks for non-empty keys for the same reason.
- KvStore.DBKVStore.Clear: asks that the empty key is not known, for the same reason.
- ConversationStores.ConversationStore.Save: asks for at most 2^32 - 1 turns, since the source's 32-bit loop counter would not end beyond that.
- SkipList.ConcurrentSkipList.Delete: asks for a head of at most 32 levels, the size of the source's arrays; `Put` raises the head only to the height it is given.
- Bloom.BloomFilter.Load: copies the bits; that the source points into the buffer instead is not captured.
- Manifest.Load: reads a file that `Manifest.Save` wrote; damaged files are not modelled.
- SstFile.Load: reads a file that `CreateRaw` or `CreateEncoded` wrote; damaged files are not modelled beyond the bound checks of `SstFormat.ParseEntries`.
- RaftLog.Log.PutEntry: asks that the entry carries a commit index no larger than its own index; `RaftLog.InvariantIff` shows that this is exactly what is needed.
- RaftLog.RingBufferQueue.PushBack: is used with nothing popped, as the log does; `RaftLog.PushGuardIff` says when the guard suffices.
- RaftLog.Log.Reset: asks for an index not below the commit index, as its callers pass it; `RaftLog.InvariantIff` shows that this is exactly what is needed.
- CmSketch.CMSketch4Bits.constructor: asks for at least one capacity bit; with 0 bits the source allocates no byte and writes outside it.
- SstFormat.ParseEntries: adds record sizes without wrapping; `SstFormat.FittingModuloIff` says when the source's check differs.
- Bloom.HashCountBound: is over real numbers, not doubles.
- KeyIndex.RunIsMap: asks that each call is allowed; `KeyIndex.AllowedIff` shows that it needs exactly that.
- ConversationRuns.RunRefines: asks that each call finds its session and sweeps it; `ConversationRuns.CallExactIff` shows that a call which finds its session needs exactly that, `ConversationRuns.AppendExactIff` and `ConversationRuns.TrimExactIff` have the conditions for one that may not find it.
- ConversationRuns.TrimExactIff: is for sessions in which every turn has a role, because left-over turns could otherwise take the place of turns that are dropped; so is `ConversationRuns.AppendExactIff` for what was stored.
