# Theseon, verified

A Dafny model of Theseon: its LSM storage engine, the logs behind it, crash recovery, the
anti-entropy and cluster protocols, and the HNSW vector index. `dafny verify dfyconfig.toml`
checks the whole project.

## What is modelled

* **Keys and versions** (`Keys`, `Versions`, `AgeOrder`): internal keys and their byte order; what a
  first-hit read returns; the age order that makes it right.
* **Engine** (`Engine`, `EngineApply`, `EngineSteps`, `EngineRuns`, `EngineLimits`, `TornKeys`,
  `Database`, with `Tables`, `Compaction`, `LevelMerge`, `Iterators`): memtables, L0 and levels as a state machine
  whose steps are writes, rotations, flushes, and compactions that are executed beside the engine
  and applied later. All sources are flattened, in search order, into one list of entries; rotation
  and flush do not change that list at all, and the effect of the other steps on it is exact.
  Class `Database.DB` is the imperative engine; each method is tied to a step and to the history of
  the acknowledged writes.
* **Memtables and tables** (`SkipLists`, `Bloom`, `Blocks`, `TableFile`, `SSTable`, `ReadPath`): the
  linked skip list for any choice of heights, the table file byte for byte, from the builder to the
  lookup, and the read path over both.
* **Logs** (`Wal`, `ManifestFormat`, `Manifest`, with `Fields` and `Frames`): both record formats and
  both replay loops, over arbitrary bytes; decoders are characterised by the encoders.
* **Recovery** (`Recovery`, `Durability`, `DurableSteps`, `DurableRuns`, `CrashPoints`, `CrashRuns`):
  opening a directory, what every step leaves on disk, and runs in which the process may die between
  two steps, at any byte of a log record, while tables are being built, and inside a flush.
* **Vector index** (`DistHeaps`, `HnswSearch`, `HnswGraph`, `HnswInsert`, `Hnsw`): the two-heap beam
  search, neighbour selection after Malkov and Yashunin (2018), insertion, deletion and cleanup.
* **Anti-entropy** (`Merkle`, `MerkleTree`, `LeafHash`, `Reconcile`, `AntiEntropy`): the flat-array hash
  tree, what its leaves tell apart, the descent that finds differing leaves, the two-sided merge-join,
  and a whole round of them.
* **Cluster** (`HashRing`, `SwimMerge`, `Swim`, `Timestamps`, `Hlc`, `Quorum`): consistent hashing,
  SWIM membership (Das, Gupta and Motivala, DSN 2002), hybrid logical clocks (section 3 of Kulkarni
  et al. 2014) and quorum reads and writes.

## Main results

1. In every run of the engine, for every key and every snapshot, a read returns exactly the newest
   visible version of the history of the writes, and never changes afterwards
   (`EngineRuns.RunReadsHistory`, `EngineRuns.SnapshotStable`).
2. The same in every run with crashes, for the writes acknowledged or completely logged; a batch cut
   off by the crash is there as a whole or not at all (`DurableRuns.DurableReads`,
   `DurableRuns.CrashInWrite`), and a flush cut off after the manifest lists its table costs no read
   either, although versions are then stored twice (`CrashRuns.CrashRunReads`).
3. A compaction keeps all reads right if and only if the table it moves down shares no user key with
   the siblings it leaves behind (`EngineSteps.ApplyReadsIff`); for L0 that always holds. The executor
   can cut a key in two, and `TornKeys` is a run from the empty store that ends with a wrong read, with
   settings under which the picker picks its compactions and no others.
4. A table file answers with the newest visible version among the entries it was built from
   (`SSTable.GetAt`, `SSTable.WriteTable`), and the builder refuses exactly what is empty, too large or out of order; a
   log cut at any byte recovers whole batches (`Wal.CutIsAtomic`), a manifest cut at any byte replays
   whole records (`Manifest.CutReplays`).
5. The beam search returns exactly the nearest of what it evaluated, and brute-force k-NN when it is
   wide enough (`HnswSearch.SearchLayer`, `Hnsw.Graph.Search`); every run of insertions, deletions and
   cleanups keeps the graph well formed (class `Hnsw.Graph`).
6. A round of anti-entropy with fewer differing keys than its budget, in which no hash hides a
   difference, leaves both replicas with the later timestamp for every key whose copies are past the
   grace period (`AntiEntropy.Round`), and lowers a timestamp exactly where a copy too young for its
   side's cutoff meets an earlier one old enough for the other's (`AntiEntropy.RoundLowersIff`).
7. Gossip converges to the same standing in any order (`SwimMerge.OrderFree`): of the records with the
   highest incarnation, dead if any says so and alive only if all do (`SwimMerge.MergedAllIsMax`). A run of hybrid clocks
   orders all causally related steps if and only if none of its steps wraps a counter
   (`Hlc.CausalIff`). Every read by r voters sees a write if and only if fewer than r voters lag behind
   it (`Quorum.AlwaysFreshIff`), which overlapping quorums guarantee unless an older write arrives late
   (`Quorum.WriteThenRead`, `Quorum.BlindWriteIsStale`).

## What the results rest on

* User keys are *separable*: none extends another except by eight 0xFF bytes (`Keys.Separable`).
  This is exactly what the documented key order needs (`Keys.OrderCharacterised`); prefix-free keys
  have it. Without it reads can miss versions.
* For compactions below L0, that the picked table is not torn from a sibling; result 3 says exactly
  what happens otherwise.
* For runs with crashes, that a batch is appended to a log without a torn tail, and a manifest record
  to a manifest without one; `Wal.ReopenedIff`, `DurableRuns.WrittenBehindTear` and
  `Manifest.ReopenedIff` say exactly what happens otherwise.
* After a crash inside a flush, before the swap of its table, that L0 is not compacted while it holds a
  table twice. The executor
  refuses that, except when a table happens to end between the two copies of every version
  (`CrashRuns.LeftoverStuck`); compactions are only started by a flush, and the first flush after
  reopening is that of the memtable in question.
* Batches, keys and values within the widths of their length fields (`Wal.RoundTripIff`,
  `ManifestFormat.RoundTripIff`, `Blocks.BlockOk`).
* CRC-32, the Bloom hash, xxHash and the child hash of the Merkle tree are arbitrary functions;
  physical time, random heights and levels, and the order of map iteration are arbitrary inputs.

## Where documentation and code differ

The model follows the code.

* Internal keys are documented to sort by user key; for a key and its extension they need not
  (`Keys.OrderBreaksOnPrefix`).
* The log asks its user to stop writing after a failed write (wal/wal.go:75-78); the engine goes on
  writing to it, and reopens a log without cutting its torn tail. What is appended there is lost unless
  it passes for the torn record (`Wal.ReopenedIff`). The manifest is reopened in the same way
  (`Manifest.ReopenedIff`).
* A crash between the manifest record of a flush and the removal of its log brings the memtable back
  beside its table. Reads stay right, but compaction of L0 fails until the next reopening
  (`CrashPoints.CrashInFlush`, `CrashPoints.CompactionStuck`, `CrashRuns.LikeOccurs`). If a compaction
  has moved the table into L1 before the crash, it fails across reopenings, as long as L1 holds the
  copies (`CrashPoints.CrashAfterSwap`, `CrashPoints.CopiesStuck`).
* The write path takes keys and values of any size; a memtable with one over 65535 bytes can never be
  flushed, and in the end every write waits for ever (`Database.DB.WaitForFlushSpace`).
* SWIM promises that a failed member is found dead. A member suspected by hearsay gets no timer, and
  failed probes of a suspect start none, so that it stays a suspect (`Swim.TimedIff`,
  `Swim.Membership.ProbeFailed`).
* Equal leaves of the Merkle tree are taken to mean equal entries. A leaf only tells which keys and which
  timestamps occur an odd number of times: two keys of a bucket with their timestamps swapped give the
  same leaf under every hash (`LeafHash.SwappedTimestamps`, `LeafHash.SameLeafIff`).
* Anti-entropy is documented as last-writer-wins. Entries within the grace period are left out of the
  drained bucket, so that an older copy on the peer overwrites them (`AntiEntropy.RoundLowersIff`).
* The grace filter is documented as symmetric, with one cutoff on both sides. The local bucket is
  drained with a cutoff computed afresh, later than the one the peer goes by
  (`AntiEntropy.LaterCutoffLowers`).
* Replicas are documented to resolve conflicts by timestamp; a replicated write is stored without
  comparing (`Quorum.BlindWriteIsStale`).
* CoReplicas is documented as exact; with points of three nodes at one hash it reports too many
  (`HashRing.SharesTooMany`), and never too few (`HashRing.KeyShared`).
* The executor's order check, which the table builder makes, is per table: copies of an internal key
  pass if a table ends between them (`Compaction.SeparatedCopies`).
* The filter is documented with about seven probes a key; the code computes six
  (`Bloom.BuildBloomFilter`).
* The README describes garbage collection of old versions; the executor keeps every version, and so
  does the model.
* With a single level (MaxLevels 1) compacting L0 discards it (`EngineLimits.L0KeptIff`).

## Model

| member | source | states |
|---|---|---|
| `Keys.SplitOfMake` | kv/key.go:29-65 | Splitting an internal key gives back the user key and the sequence number it was made from. |
| `Keys.MakeOfSplit` | kv/key.go:38-65 | Every string of at least eight bytes is an internal key, in exactly one way; a shorter one splits into an empty user key and sequence number zero. |
| `Keys.InvertedBytes` | kv/key.go:29-34 | Behind the user key stands the sequence number, big-endian, every byte complemented. |
| `Keys.InternalKeyOrder` | kv/key.go:15-34 | Byte order of internal keys is "user key ascending, sequence number descending", both directions, for user keys neither of which shadows the other. |
| `Keys.ShadowedOrderBreaks` | kv/key.go:29-34 | When a user key extends another and not by eight 0xFF bytes, the oldest version of the short key sorts after the newest of the long one. |
| `Keys.OrderCharacterised` | kv/key.go:15-17 | The documented order holds for all versions of two user keys if and only if neither shadows the other. |
| `Keys.OrderBreaksOnPrefix` | kv/key.go:15-34 | A concrete pair, "a" and "ab", for which the documented order fails. |
| `Keys.PrefixFreeIsSeparable` | kv/key.go:15-17 | Prefix-free key spaces, fixed-length keys in particular, have the documented order. |
| `Versions.EntryOrder` | kv/key.go:15-17 | Two stored entries are in byte order exactly if they are in documented order: user key ascending, sequence number descending. |
| `Versions.SortedDescends` | kv/key.go:15-17 | In a sorted run the versions of one user key get older and older. |
| `Versions.FirstVisibleIsNewest` | db/read.go:80-144 | Stopping at the first hit returns the newest version visible at the snapshot whenever versions get older along the search order. |
| `Versions.OrderedReads` | db/read.go:80-144 | In an ordered list the value read is that of the newest visible version, tombstones included, and nothing is read only if no version is visible. |
| `Versions.MisorderedReadIsStale` | db/read.go:80-144 | Two versions of a key in the wrong order make the read at the newer one's sequence number stale, unless that version also stands before the older one. |
| `Versions.SeekAndWalk` | memtable/skiplist.go:147-161 | Seeking to the search key and walking the run of the user key finds exactly what a scan of everything finds. |
| `Versions.BelowBound` | memtable/skiplist.go:67-81 | In an ordered list exactly the entries before the lower bound are below the target. |
| `Versions.InsertKeepsElements` | memtable/skiplist.go:85-110 | An insertion adds one entry and loses none. |
| `Versions.InsertKeepsOrder` | memtable/skiplist.go:85-110 | An insertion keeps the list in key order. |
| `Versions.InsertKeepsSorted` | memtable/skiplist.go:85-110 | Inserting a new internal key keeps the order strict. |
| `AgeOrder.DescendUnique` | db/read.go:80-144 | Age order along the whole search order makes all stored internal keys different. |
| `AgeOrder.ReadsNewestIffDescend` | db/read.go:80-144 | Every read, for every key and snapshot, returns the newest visible version if and only if versions get older along the search order. |
| `AgeOrder.InsertNewest` | db/write.go:14-40 | Writing the newest version of all keeps the age order of the whole database. |
| `AgeOrder.MoveDown` | db/compact.go:196-230 | Merging tables into the level below, past tables that stay behind, keeps the age order if and only if what moves shares no user key with what stays. |
| `Iterators.PopLeast` | iterator/merge.go:129-155 | The heap yields an item that precedes all others by key, then by iterator index. |
| `Iterators.MergeIterator.constructor` | iterator/merge.go:34-52 | A new merge has everything in its inputs still to come. |
| `Iterators.MergeIterator.Next` | iterator/merge.go:91-103 | A step takes exactly the current entry off what remains, and keys never go down. |
| `Iterators.MergeAll` | iterator/merge.go:34-103 | Draining a merge emits a sorted permutation of everything in its inputs. |
| `Iterators.SnapshotIterator.Advance` | iterator/snapshot.go:44-73 | From any position the filter emits exactly the first visible entry of each user key not just emitted. |
| `Iterators.SnapshotScan` | iterator/snapshot.go:34-93 | Draining the filter yields exactly what its specification says is emitted. |
| `Iterators.ScanAgreesWithReads` | iterator/snapshot.go:44-73 | Over non-empty user keys a scan emits, in ascending user-key order, one entry per readable user key: the one a point read returns. |
| `Iterators.ScanAgreesIff` | iterator/snapshot.go:59-68 | With empty user keys allowed, scans agree with point reads if and only if the empty key has at most one visible version. |
| `SkipLists.NextPosInsert` | memtable/skiplist.go:85-110 | Inserting a node redirects, at each of its levels, the one pointer that crosses the gap, and no other. |
| `SkipLists.Relinked` | memtable/skiplist.go:85-110 | Splicing a node in at the recorded predecessors keeps every level a sub-list of the one below. |
| `SkipLists.SkipList.constructor` | memtable/skiplist.go:43-51 | A new list is well linked and empty. |
| `SkipLists.SkipList.FindGreaterOrEqual` | memtable/skiplist.go:67-81 | The search returns the first node at or above the target, and the true predecessor on every level. |
| `SkipLists.SkipList.Advance` | memtable/skiplist.go:67-81 | Walking one level stops at the last node of that level below the target. |
| `SkipLists.SkipList.Put` | memtable/skiplist.go:85-110 | For any choice of random height every pointer on every level is right again, the contents are the old ones with the pair in its place, and size and byte count grow by one and by the lengths of key and value and one. |
| `SkipLists.SkipList.GetAt` | memtable/skiplist.go:147-161 | The value of the newest version of the user key at or below the given sequence number, a tombstone if it was deleted; nothing exactly if there is no such version. |
| `SkipLists.SkipList.GetNewest` | memtable/skiplist.go:133-142 | Value and sequence number of the newest version of the user key; nothing exactly if there is none. |
| `Bloom.BloomMayContain` | sstable/bloom.go:73-97 | The answer is "maybe" exactly if all probe bits of the hash, modulo the filter's 32-bit size, are set (or the filter is malformed). |
| `Bloom.MayContainIff` | sstable/bloom.go:73-97 | In plain arithmetic: probe j looks at bit (h + j * delta) mod 2^32 mod the size, and the last byte says how many probes there are. |
| `Bloom.RotateBits` | sstable/bloom.go:86 | delta is the hash rotated by 17 bits to the right, bit by bit. |
| `Bloom.BuildBloomFilter` | sstable/bloom.go:33-64 | The bits set are exactly the six probes of each hash, in ten bits per key and at least 64; so no false negatives, for any number of keys whose bit count is not a multiple of 2^32. |
| `Blocks.DecodeBlock` | sstable/block.go:199-240 | Exactly the data with a well-formed, ascending offset table is accepted. |
| `Blocks.DecodedIff` | sstable/block.go:199-240 | Data decodes to a block if and only if it ends in the encoding of the offsets, ascending and all before the table, and their number. |
| `Blocks.EntryReads` | sstable/block.go:245-287 | An encoded entry decodes to itself wherever it stands in a block. |
| `Blocks.ReadEntryIff` | sstable/block.go:245-287 | An entry is read exactly if its encoding stands there and ends before the offset table. |
| `Blocks.EntryLayout` | sstable/block.go:18-21 | Two lengths of two bytes, the flag, key and value. |
| `Blocks.EntryFitsIff` | sstable/block.go:70-95 | An entry fits if and only if both lengths survive in two bytes. |
| `Blocks.BlockDecodes` | sstable/block.go:149-240 | The bytes of a built block decode to its offset table. |
| `Blocks.BlockRoundTrip` | sstable/block.go:149-287 | Decoding a built block gives back its entries. |
| `Blocks.SeekBlock` | sstable/block.go:330-350 | The binary search finds the first entry at or above the target. |
| `Blocks.GetAt` | sstable/block.go:330-364 | A block answers with the value of the newest visible version among its entries, or with nothing exactly if there is none; it fails only if an entry is unreadable. |
| `Blocks.BlockBuilder.Add` | sstable/block.go:70-141 | An entry is refused exactly for its sizes or its order, as long as the target size fits the offsets; a block of several entries never outgrows its target. |
| `Blocks.BlockBuilder.Build` | sstable/block.go:149-167 | The serialized block is the byte image of the entries added. |
| `TableFile.FooterRoundTrip` | sstable/format.go:75-123 | A footer that fits its fields reads back, whatever precedes it. |
| `TableFile.FooterLayout` | sstable/format.go:23-31 | Every field of the footer stands at its documented offset. |
| `TableFile.FooterIff` | sstable/format.go:93-123 | A footer is accepted if and only if it is the encoding of what it is read as: magic, checksum and version right. |
| `TableFile.DecodeIndex` | sstable/format.go:166-240 | The index loop accepts exactly what its grammar does: non-empty, non-overlapping blocks with ascending last keys. |
| `TableFile.IndexRoundTrip` | sstable/format.go:132-240 | A well-formed index reads back. |
| `TableFile.MetaLayout` | sstable/format.go:38-40 | Every field of an index entry stands at its documented offset. |
| `TableFile.IndexIff` | sstable/format.go:166-240 | An index is accepted if and only if it is the encoding of what it is read as, with blocks that do not overlap and ascending last keys. |
| `TableFile.EncodeIndex` | sstable/format.go:132-164 | An index is refused exactly if a key does not fit its length field. |
| `TableFile.MetasWritten` | sstable/builder.go:114-145 | The index entries the builder collects are well formed. |
| `TableFile.OpenRoundTrip` | sstable/reader.go:81-118 | Opening the bytes of a finished table gives its filter, first key and index. |
| `TableFile.OpenIff` | sstable/reader.go:81-118 | With its footer accepted, a file opens if and only if filter and index lie in it and the index is accepted; the filter is what stands there. |
| `TableFile.BlockReadsBack` | sstable/reader.go:209-227 | Every block of a finished table is read back whole, past its checksum. |
| `TableFile.BlockAtIff` | sstable/reader.go:209-227 | A block is read if and only if it lies in the file with its checksum, which is that of its bytes, and they decode. |
| `TableFile.ReadBlock` | sstable/reader.go:209-227 | The block read is the one the index points to, or an error. |
| `SSTable.FindBlock` | sstable/reader.go:316-334 | The binary search returns the first block whose last key is at or above the key, or none. |
| `SSTable.BlocksBelow` | sstable/reader.go:268-308 | Skipping the blocks that end below the search key loses no version. |
| `SSTable.NextBlock` | sstable/reader.go:285-306 | Only a user key that runs to the end of a block can go on in the next, so stopping there loses no version. |
| `SSTable.GetAt` | sstable/reader.go:268-308 | An opened table answers every key and snapshot with the value of the newest visible version among the entries added, versions spilling over blocks included, and with nothing exactly if there is none. |
| `SSTable.Builder.Add` | sstable/builder.go:69-110 | With a block size the format can express, exactly the entries that are too large or do not follow the last key are refused; an empty key counts as none. |
| `SSTable.Builder.FlushBlock` | sstable/builder.go:114-145 | Flushing moves the current block to the file and loses no entry. |
| `SSTable.Builder.Finish` | sstable/builder.go:156-230 | The file holds all entries added, packed greedily into blocks, under a filter that misses none of their user keys. |
| `SSTable.WriteTable` | db/flush.go:51-88 | What is refused is exactly what is empty, too large or out of order; otherwise the table, opened again, holds exactly the list, packed greedily into blocks, as long as the lengths of filter and index fit the four bytes the footer has for them. |
| `SSTable.PackedFlat` | sstable/builder.go:69-110 | Greedy packing into blocks loses and moves no entry. |
| `SSTable.PackedGreedy` | sstable/block.go:98-104 | No block of several entries exceeds the size, and every block but the last would have with the next entry. |
| `SSTable.KeysLeaveRoom` | sstable/builder.go:174-201 | A bound on the keys alone makes filter and index fit, whatever the block size. |
| `Tables.DropObsolete` | db/compact.go:199-217 | Dropping the obsolete tables of a level keeps the others in order. |
| `Tables.SortTablesIs` | db/compact.go:243-250 | Distinct first keys leave sorting by first key no choice. |
| `Compaction.FindOverlapping` | compaction/picker.go:207-227 | Exactly the tables whose user-key range has a user key in common with the given one, in order. |
| `Compaction.OverlapsIff` | compaction/picker.go:207-227 | Two ranges overlap if and only if some user key lies in both. |
| `Compaction.KeyRange` | compaction/picker.go:188-201 | The union of the key ranges of the tables; two empty keys for none. |
| `Compaction.LevelSize` | compaction/picker.go:80-89 | The file sizes of a level, added up. |
| `Compaction.PickL0Compaction` | compaction/picker.go:125-151 | All of L0 and everything it overlaps in L1. |
| `Compaction.PickLevelCompaction` | compaction/picker.go:155-185 | The first table of a level and everything it overlaps in the next. |
| `Compaction.PickCompaction` | compaction/picker.go:106-122 | L0 first. Otherwise the level picked holds more bytes than base * multiplier^(level - 1), and no shallower one does; nothing is picked only if there is nothing to move there. |
| `Compaction.TargetIs` | compaction/picker.go:113-119 | The target of a level is base * multiplier^(level - 1). |
| `Compaction.Execute` | compaction/executor.go:44-144 | It fails exactly if a table would hold an internal key twice; otherwise the new tables hold every entry of the inputs exactly once, in key order, cut as soon as the target size is reached and no earlier, under fresh consecutive ids. With no internal key twice it succeeds. It asks only that no filter it builds divides by zero. |
| `Compaction.SplitRun` | compaction/executor.go:94-137 | The cut of a run is determined; it is written exactly if every piece is strictly sorted, and then without losing or moving an entry. |
| `Compaction.FewFit` | sstable/bloom.go:33-63 | No filter divides by zero if there are few entries in all, or if tables are cut early and the size estimate counts every entry. |
| `Compaction.OnePieceIff` | compaction/executor.go:94-137 | A run that fits one table is written if and only if no internal key occurs in it twice. |
| `Compaction.CopiesSeparated` | compaction/executor.go:94-137 | A run with two copies of a version is written only if a table ends between them. |
| `Compaction.SeparatedCopies` | sstable/builder.go:74-77 | The order check is per table: a run with an internal key twice is accepted if a table ends between the two. |
| `LevelMerge.LevelSplit` | compaction/picker.go:207-227 | The overlapping tables are a contiguous stretch of a sorted level. |
| `LevelMerge.MergedLevelSorted` | db/compact.go:219-228 | Replacing that stretch by the merged run keeps the level sorted and disjoint, tables not selected included. |
| `LevelMerge.NewLevelIs` | db/compact.go:219-228 | Dropping the obsolete tables and sorting the new ones in gives exactly: what was left of the range, the new tables, what was right of it. |
| `EngineSteps.ApplyKeepsVersions` | db/compact.go:196-230 | Applying a compaction, with flushes and writes in between, keeps exactly the stored versions and a well-formed state. |
| `EngineSteps.ApplyReadsIff` | db/compact.go:196-230 | All reads are right after a compaction if and only if the table moved down shares no user key with the siblings it leaves behind. |
| `EngineSteps.ApplyKeepsReads` | db/compact.go:196-230 | If the table moved down shares no user key with the siblings it leaves behind, every read, for every key and snapshot, is unchanged. |
| `EngineSteps.L0Preserves` | db/compact.go:196-230 | Compacting L0 keeps the exact set of stored versions, leaves every level sorted with disjoint tables, and changes no read for any key and snapshot. |
| `EngineSteps.WriteKeeps` | db/batch.go:99-149 | A batch adds exactly its versions and keeps the invariant. |
| `EngineSteps.RotateKeeps` | db/write.go:83-99 | Rotation keeps the invariant and does not change the search order. |
| `EngineSteps.FlushKeeps` | db/flush.go:109-112 | A flush keeps the invariant and does not change the search order. |
| `EngineSteps.LaunchKeeps` | db/compact.go:47-75 | Executing a compaction beside the engine, with ids taken while memtables may take others, keeps the invariant and changes no read. |
| `EngineSteps.ExecutedAtOnce` | db/compact.go:15-23 | What picker and executor produce from a state at once is a result that may be launched. |
| `EngineRuns.StepKeeps` | db/db.go:41-60 | Every step keeps the invariant and does to the stored versions what the history records. |
| `EngineRuns.RunReadsHistory` | db/read.go:80-144 | In every run of writes, rotations, flushes and interleaved two-phase compactions, a read at any snapshot returns exactly the newest visible version of the history of the writes. |
| `EngineRuns.SnapshotStable` | db/db.go:245-253 | In every run, what a snapshot reads never changes afterwards. |
| `EngineRuns.BatchAllOrNothing` | db/batch.go:72-93 | A snapshot taken between steps sees all operations of a batch or none. |
| `EngineLimits.TornKeyMisreads` | compaction/executor.go:119-123 | Whenever the table moved down shares a user key with a sibling left behind, some read that was right before is wrong after. |
| `TornKeys.MakeFiles` | sstable/builder.go:156-230 | The builder makes the table files of the run below, filters included. |
| `TornKeys.CutBetween` | compaction/executor.go:119-123 | With a target size that one entry reaches, the executor cuts between two versions of one key. |
| `TornKeys.TornKeyRun` | db/compact.go:47-102 | A run from the empty store: one key written twice, flushed, cut into two tables by an L0 compaction, the first of them compacted further. |
| `TornKeys.TornKeyPicked` | compaction/picker.go:106-185 | With trigger 1, three levels and a size base below the two tables of L1, the picker picks exactly the two tasks of that run, and no other. |
| `TornKeys.TornKeyCut` | compaction/executor.go:94-137 | With a target size that one entry reaches, the executor cuts the merged inputs of both tasks into exactly the tables of that run. |
| `TornKeys.TornKeySizes` | sstable/builder.go:232-239 | LevelSizeBase 100 is such a setting: by the byte format one entry reaches a tenth of it, and two tables of one entry each exceed it. |
| `TornKeys.TornKeyMisread` | compaction/picker.go:155-185 | Before its last step that run reads the newer version of the key, after it the older. |
| `EngineLimits.L0KeptIff` | db/compact.go:198-228 | Compacting L0 keeps the stored versions if and only if there is a level to compact into; with MaxLevels 1 they are lost. |
| `Database.SearchLevels` | db/read.go:120-141 | Searching L1 and below level by level finds the first visible version in their search order. |
| `Database.MergedReads` | db/read.go:149-175 | A sorted permutation of an age-ordered store answers every point read alike. |
| `Database.ApplyLowersPotential` | db/compact.go:47-102 | Every applied compaction strictly lowers the sum, over stored entries, of the levels they can still sink. |
| `Database.PickedIff` | compaction/picker.go:106-122 | The picker finds a task exactly if some level needs compaction. |
| `Database.NeedsCompactionIff` | compaction/picker.go:106-122 | Compaction is needed if and only if L0 is at its trigger, or else some level holds tables of more bytes than base * multiplier^(level - 1) and no shallower one does. |
| `Database.DB.ApplyBatchLocked` | db/batch.go:99-149 | A logged batch is written under consecutive sequence numbers, and the memtable is rotated exactly if its size is then at least memtableSize; exactly its versions are added to the history. A batch whose log write fails only uses its numbers up. Reads stay right. |
| `Database.DB.constructor` | db/db.go:82-124 | A new store is empty, well formed and in line with its history. |
| `Database.DB.WaitForFlushSpace` | db/write.go:72-79 | A writer waits until there is room for a memtable, and for ever if and only if one of the memtables that must go holds an entry the table builder refuses; what it waits for changes no read. |
| `Database.DB.Put` | db/write.go:14-40 | A put waits for room, or for ever exactly when the flusher is stuck, and is then a batch of one; it adds exactly one version to the history, and every later snapshot reads its value back. |
| `Database.DB.Delete` | db/write.go:44-70 | A delete waits for room, or for ever exactly when the flusher is stuck, and is then a batch of one tombstone; it adds exactly one version to the history, and every later snapshot reads the tombstone. |
| `Database.DB.RotateMemtable` | db/write.go:83-99 | The active memtable becomes the newest immutable one, and a new one starts empty. |
| `Database.DB.FlushMemtable` | db/flush.go:51-122 | The oldest immutable memtable becomes the newest L0 table, with the same entries and id, unless it holds a key or value over 65535 bytes: then nothing changes. |
| `Database.DB.FlushImmutables` | db/flush.go:30-49 | Flushing drains the immutable memtables, oldest first, up to the first that the table builder refuses, without changing the search order. |
| `Database.DB.GetAt` | db/read.go:80-144 | The ordered search over all sources returns the value of the newest acknowledged version the read may see, and nothing exactly if there is none, as long as no compaction has torn a key. |
| `ReadPath.SearchMemtables` | db/read.go:88-98 | Real skip lists, asked newest first, answer with the newest visible version of their contents whenever versions get older along the search order, and with the first in any case. |
| `ReadPath.SearchFiles` | db/read.go:100-141 | Real table files, asked in search order behind their filters, answer with the newest visible version of their entries whenever versions get older along the search order, and with the first in any case. |
| `ReadPath.GetAt` | db/read.go:80-144 | Skip lists and files that hold the memtables and tables of a state answer with the newest visible version whenever versions get older along the search order of the state, and with the first in any case. |
| `ReadPath.ChargedAlike` | memtable/skiplist.go:108-109 | The engine charges a write to the memtable with the bytes the skip list counts for it. |
| `Database.DB.Scan` | db/read.go:149-175 | A scan of the whole database agrees with point reads, for every key, if and only if the empty user key has at most one visible version. |
| `Database.DB.LaunchCompaction` | db/compact.go:47-75 | A compaction starts exactly if one is needed; its task is one the picker picks, and its tables are cut at a tenth of the size base. |
| `Database.DB.ApplyCompactionResult` | db/compact.go:196-230 | The obsolete tables are swapped for the new ones, in a well-formed state; reads stay right if and only if the compaction tears no user key. |
| `Database.DB.RunCompaction` | db/compact.go:47-102 | Compacting until nothing needs compaction terminates, keeps every stored version, and goes through launched and applied compactions only; reads stay right up to the first that tears a user key, and are not right after it. |
| `Wal.EncodeRecord` | wal/encoding.go:58-114 | The encoder writes the record format: checksum, length, count, entries. |
| `Wal.DecodeRecord` | wal/encoding.go:119-190 | The decoder loop accepts exactly what the record grammar does. |
| `Wal.ParseEntryIff` | wal/encoding.go:142-187 | An entry is read if and only if its fields stand at their offsets and end in time; the value length of a tombstone is not looked at. |
| `Wal.RecordRoundTrip` | wal/encoding.go:58-190 | A batch that fits the format reads back, whatever follows its record. |
| `Wal.RoundTripIff` | wal/encoding.go:58-190 | Decoding undoes encoding if and only if count, lengths and payload fit their fields. |
| `Wal.CountWraps` | wal/encoding.go:75 | A batch of 65536 operations is recovered as an empty one. |
| `Wal.Recover` | wal/reader.go:20-45 | The replay loop returns the entries of the records it can read, up to the first torn or corrupt one. |
| `Wal.RecoverAppend` | wal/reader.go:20-45 | Whole batches at the front are recovered in full, whatever follows them. |
| `Wal.TornRecord` | wal/encoding.go:119-135 | A record cut short anywhere is recognised as short. |
| `Wal.CutIsAtomic` | wal/reader.go:20-45 | Cut the log at any byte: recovery returns exactly the batches that are there in full, in order, and no part of another. |
| `Wal.LogFile.WriteEntries` | wal/wal.go:79-93 | One batch is one record, and all acknowledged batches that fit are recovered from the file as it stands. |
| `Wal.ReopenedClean` | wal/wal.go:48-56 | Batches appended after reopening a log without a torn tail are recovered too. |
| `Wal.UncheckedStops` | wal/reader.go:29-42 | Bytes that do not pass for a record end recovery: everything before them is returned, nothing of them or behind them. |
| `Wal.BadRecord` | wal/reader.go:29-42 | A short or corrupt record ends recovery with everything before it; one with the right checksum and an unknown flag, or no payload, makes it fail. |
| `Wal.MixedChecksIff` | wal/encoding.go:119-140 | Bytes behind a torn record whose header is whole pass for it if and only if they fill its place and happen to have its checksum. |
| `Wal.ReopenedIff` | wal/wal.go:48-56 | A torn tail is not cut off on reopening: unless what follows passes for the torn record, the batches appended later are recovered if and only if there was no torn tail, or they are empty. |
| `ManifestFormat.RecordRoundTrip` | manifest/encoding.go:85-170 | A record that fits its fields reads back, whatever follows it. |
| `ManifestFormat.RecordLayout` | manifest/encoding.go:85-120 | Checksum of all that follows, length, type and payload, each at its offset. |
| `ManifestFormat.ParseInfoIff` | manifest/encoding.go:199-240 | A table entry is read if and only if it is an encoding. |
| `ManifestFormat.ParseGraphIff` | manifest/encoding.go:363-390 | A graph entry is read if and only if it is an encoding. |
| `ManifestFormat.RoundTripIff` | manifest/encoding.go:85-170 | A record reads back if and only if it fits its fields. |
| `ManifestFormat.TornRecord` | manifest/encoding.go:122-145 | A record cut short anywhere is recognised as short. |
| `ManifestFormat.DecodeSnapshot` | manifest/encoding.go:290-329 | The full-state decoder loop accepts exactly what its grammar does. |
| `Manifest.ReplayFront` | manifest/manifest.go:108-146 | Records at the front of the log are applied in order, whatever follows them. |
| `Manifest.CutReplays` | manifest/manifest.go:108-146 | Cut the log at any byte: replay gives the state after the records that are there in full. |
| `Manifest.BadRecord` | manifest/manifest.go:108-146 | A short or corrupt record ends replay with the state before it; one with the right checksum and an unknown type makes it fail. |
| `Manifest.ReopenedIff` | manifest/manifest.go:108-146 | The same for the manifest: records appended behind a torn tail take effect if and only if they change nothing. |
| `Manifest.ApplyKeepsFiled` | manifest/manifest.go:158-186 | Replay keeps tables filed under their ids and graphs under their collections. |
| `Manifest.Replay` | manifest/manifest.go:108-146 | The replay loop of Open computes the replayed state. |
| `Manifest.Tables` | manifest/manifest.go:326-345 | Every entry of the table map is listed exactly once, in some order. |
| `Manifest.ManifestFile.Create` | manifest/manifest.go:73-104 | A new manifest holds the initial counters. |
| `Manifest.ManifestFile.AddSSTable` | manifest/manifest.go:240-252 | The table is added, in memory and in the log. |
| `Manifest.ManifestFile.RemoveSSTable` | manifest/manifest.go:255-267 | The table is removed, in memory and in the log. |
| `Manifest.ManifestFile.UpdateNextIDs` | manifest/manifest.go:271-282 | The counters are set, in memory and in the log. |
| `Manifest.ManifestFile.AddHNSWSnapshot` | manifest/manifest.go:285-303 | The graph snapshot is filed, in memory and in the log. |
| `Manifest.ManifestFile.MaybeSnapshot` | manifest/manifest.go:326-360 | From 64 records on, a full-state record and the counters are written, in whatever order the maps are walked; that never changes what replay gives. |
| `Manifest.ManifestFile.FileReplays` | manifest/manifest.go:108-146 | After any sequence of updates that fit, replaying the file rebuilds exactly the state in memory. |
| `Recovery.SortBy` | manifest/manifest.go:216-234 | Sorting permutes and orders, for any strict order. |
| `Recovery.BuildState` | manifest/manifest.go:189-237 | Every listed table goes to its level: L0 newest first, deeper levels by first key. |
| `Recovery.LogIds` | wal/reader.go:50-83 | The ids of all log files, ascending. |
| `Recovery.LoadLog` | db/db.go:180-190 | A memtable holds the versions of its log, and the sequence counter covers them. |
| `Recovery.ReplayLogs` | db/db.go:178-205 | One memtable per log, newest first; recovery fails exactly if a log is malformed. |
| `Recovery.Recover` | db/db.go:133-215 | Opening a directory succeeds exactly if every listed table is present and manifest and logs are well formed, and rebuilds tables, memtables and counters from them. |
| `Durability.LevelIs` | manifest/manifest.go:216-234 | Levels come back in the order they were kept in, for any order of map iteration. |
| `Durability.CanRecover` | db/db.go:133-215 | A directory in line with the engine can always be opened. |
| `Durability.RecoverRestores` | db/db.go:126-215 | Opening it, torn log tails included, gives back the same memtables, tables and levels, so the same reads, with every invariant restored; only a compaction under way is forgotten. |
| `DurableSteps.WriteDurable` | db/batch.go:99-149 | Appending a batch to a log without a torn tail before applying it keeps the directory in line with the engine. |
| `DurableSteps.RotateDurable` | db/write.go:83-99 | A rotation, with the empty log of its new memtable, keeps the directory in line with the engine. |
| `DurableSteps.FlushDurable` | db/flush.go:90-117 | A flush, which writes the table, then the manifest, and removes the log last, keeps the directory in line with the engine. |
| `DurableSteps.LaunchDurable` | compaction/executor.go:44-92 | The unlisted output files of a compaction under way disturb nothing that is listed. |
| `DurableSteps.ApplyDurable` | db/compact.go:148-241 | A compaction applied as one step lists the new tables, forgets exactly the replaced ones, and keeps the directory in line with the engine. |
| `DurableRuns.HappensKeeps` | db/db.go:126-215 | Every step and every crash with reopening, between steps, inside a log write or before new tables are listed, keeps engine and directory in line. |
| `DurableRuns.DurableReads` | db/db.go:126-215 | In every run with such crashes, every read returns the newest version it may see among those acknowledged or completely logged. |
| `DurableRuns.CrashKeepsReads` | db/db.go:126-215 | At every point of such a run the directory can be opened, and what it opens to reads the same for every key and snapshot. |
| `DurableRuns.CrashInWrite` | wal/wal.go:72-93 | A crash after any number of bytes of a batch leaves all of the batch or nothing of it, everything acknowledged before, and a directory in line with the engine. |
| `DurableRuns.WrittenBehindTear` | wal/wal.go:48-56 | A batch acknowledged behind a torn tail, unless it passes for the torn record, is gone after the next crash. |
| `DurableRuns.ListedDurable` | db/flush.go:77-100 | A crash before the manifest lists new tables, or inside its record, changes nothing that is listed. |
| `CrashPoints.CrashInFlush` | db/flush.go:90-117 | A crash between the manifest record and the removal of the log leaves every read right, but the versions of the memtable stored twice. |
| `CrashPoints.CompactionStuck` | sstable/builder.go:74-77 | While L0 holds a table twice, a compaction of L0 that fits one table is refused by the builder; a larger one succeeds only if a table ends between the two copies of every version. |
| `CrashPoints.FlushedOvertakes` | db/flush.go:109-117 | From the swap of a flush on, the tables hold everything in its memtable and otherwise only older versions of its user keys, wherever compactions have moved them since. |
| `CrashPoints.CompactionMoves` | db/compact.go:196-230 | Applying a compaction keeps the entries of the tables as a whole, so what a flush has overtaken stays overtaken. |
| `CrashPoints.CrashAfterSwap` | db/flush.go:109-117 | A crash between the swap and the removal of the log, after any compactions in between, brings the memtable back behind the others; every read is as before, and its versions are stored twice. |
| `CrashPoints.CopiesStuck` | sstable/builder.go:74-77 | When L1 holds copies of versions in L0, a compaction of both that fits one table is refused, in every later life of the directory; a larger one succeeds only if a table ends between the copies. |
| `CrashRuns.ListedReopens` | db/db.go:133-215 | Reopening with a flushed table listed and its log still there gives the clean state of before with that table in front of L0. |
| `CrashRuns.TwinFlushed` | db/flush.go:51-122 | Flushing that memtable again brings the directory back in line; only L0 in memory holds the table twice. |
| `CrashRuns.LikeReads` | db/read.go:80-144 | A state with versions twice reads like the clean state behind it, for every key and snapshot. |
| `CrashRuns.LikeOccurs` | db/flush.go:90-117 | Every step and crash of such a state has its counterpart on the clean state behind it, and the next reopening of a directory in line makes it clean. |
| `CrashRuns.LeftoverStuck` | sstable/builder.go:74-77 | Until then L0 is not compacted: the executor refuses unless a table ends between the two copies of every version. |
| `CrashRuns.CrashRunReads` | db/flush.go:51-122 | In every run with crashes, inside a flush included, every read returns the newest version it may see among those acknowledged or completely logged. |
| `DistHeaps.RootExtreme` | vector/hnsw/search.go:83-93 | No item of a heap belongs above its root. |
| `DistHeaps.DistHeap.Push` | vector/hnsw/search.go:95-98 | Pushing adds one item and keeps the heap order. |
| `DistHeaps.DistHeap.Pop` | vector/hnsw/search.go:100-107 | Popping takes off an extreme item and keeps the rest a heap. |
| `HnswSearch.NearestReplace` | vector/hnsw/search.go:226-241 | Replacing the farthest result keeps the results the nearest of everything evaluated. |
| `HnswSearch.Finished` | vector/hnsw/search.go:167-251 | With room for all live reachable nodes, the search ends with all of them. |
| `HnswSearch.SearchLayer` | vector/hnsw/search.go:167-251 | Exactly the ef nearest of the live nodes evaluated, ties aside; the entry points, reachable nodes only, and every neighbour of a result were evaluated; all live reachable nodes are found if ef leaves room for them. |
| `HnswGraph.GreedyClosest` | vector/hnsw/graph.go:264-283 | The walk ends, at a reachable node no neighbour of which is nearer. |
| `HnswGraph.GreedyDiverse` | vector/hnsw/graph.go:285-313 | Selected neighbours are no nearer to any selected before than to the query; one left out while there was room is nearer to a selected one than to the query. |
| `HnswGraph.SelectNeighbors` | vector/hnsw/graph.go:290-333 | The diverse candidates, filled up with others: distinct, the nearest among them, and as many as there is room for or all there are. |
| `HnswGraph.FilledNearest` | vector/hnsw/graph.go:315-331 | The places left go to the nearest of the candidates not taken for diversity. |
| `HnswGraph.ShrinkNeighbors` | vector/hnsw/graph.go:337-359 | An overlong list keeps exactly as many as allowed, the nearest to its owner. |
| `HnswInsert.AddReverse` | vector/hnsw/graph.go:232-240 | The reverse edge is added and an overflowing list shrunk; no other list changes. |
| `HnswInsert.ConnectLayer` | vector/hnsw/graph.go:224-251 | On a layer, the new node is linked to a selection of what a full search from the entry points found, up to 2M on layer 0 and M above; they are linked back, and nothing else changes. |
| `HnswInsert.JoinedSame` | vector/hnsw/graph.go:218-252 | Joining one layer says nothing about the others. |
| `HnswInsert.FoundSame` | vector/hnsw/graph.go:218-252 | What a search of a layer guarantees depends on the nodes and on the edges of that layer only. |
| `Hnsw.TopK` | vector/hnsw/search.go:51-70 | The first k of the sorted beam are the k nearest of what it evaluated. |
| `Hnsw.Descend` | vector/hnsw/search.go:46-49 | The descent is one greedy walk per layer from the top to just above the given one, each ending in a reachable local minimum that is no farther away. |
| `Hnsw.Exhaustive` | vector/hnsw/search.go:23-71 | If every live reachable node is among the results, the search is brute force over them. |
| `Hnsw.PrunedKeeps` | vector/hnsw/cleanup.go:26-47 | Removing nodes and every edge to them keeps the graph well formed. |
| `Hnsw.MemoryWithout` | vector/hnsw/graph.go:148-156 | The memory estimate is the sum over the nodes, in any order. |
| `Hnsw.EstimateNodeMemory` | vector/hnsw/graph.go:148-156 | Four bytes a dimension, eight for each of 2M + level * M neighbours, and 64. |
| `Hnsw.NewGraph` | vector/hnsw/graph.go:97-126 | A graph is refused exactly for options out of range; otherwise it has them. |
| `Hnsw.Graph.constructor` | vector/hnsw/graph.go:97-126 | A new graph is empty and well formed. |
| `Hnsw.Graph.Insert` | vector/hnsw/graph.go:169-260 | For any level drawn: refused exactly for dimension, duplicate or memory; otherwise edges stay in range, in capacity and free of loops; the node is joined to every common layer by a search that starts where the descent left off on the top one and from what was found above on the others; nothing else changes, and entry point and memory follow. |
| `Hnsw.Graph.Search` | vector/hnsw/search.go:23-71 | One greedy walk per layer leads from the entry point to the start of the beam, each to a local minimum reachable on its layer; of the nodes the beam evaluates, which are reachable and include all neighbours of its results, the k nearest live ones are reported. The beam is as wide as the override, or efSearch without one, or k if that is more; with at most as many live nodes within reach as any of these, the result is the k nearest of all of them. |
| `Hnsw.Graph.MarkDeleted` | vector/hnsw/graph.go:364-370 | Existing nodes, and only those, are tombstoned. |
| `Hnsw.Graph.Cleanup` | vector/hnsw/cleanup.go:12-71 | Exactly the tombstoned nodes go, and from every list exactly the edges to them; memory and entry point are right again. |
| `Timestamps.PrecedesTotal` | hlc/timestamp.go:58-73 | Less is a strict total order with Equal as its equality. |
| `Timestamps.PrecedesTransitive` | hlc/timestamp.go:58-66 | Less is transitive. |
| `Timestamps.PrecedesParts` | hlc/timestamp.go:58-66 | Wall time counts first, then the counter, then the node id. |
| `Hlc.Clock.Now` | hlc/clock.go:58-78 | A new timestamp is not behind physical time, and later than the last exactly if the counter does not wrap; it is then the least such. |
| `Hlc.Clock.Update` | hlc/clock.go:91-145 | A timestamp is accepted if and only if the limit is not positive or it is at most that far ahead of physical time; then the clock moves past both exactly if no counter that supplies the new wall time is at its end, and no further than it must. |
| `Hlc.TickForwardIff` | hlc/clock.go:58-78 | The send rule moves forward if and only if the counter does not wrap, and back if it does. |
| `Hlc.MergeForwardIff` | hlc/clock.go:91-145 | The receive rule moves past both timestamps if and only if the counter does not wrap; if it does, the one that supplied the wall time is left ahead. |
| `Hlc.TickLeast` | hlc/clock.go:58-78 | The send rule gives the least timestamp later than the last and not behind physical time; wrapping, it starts again at zero. |
| `Hlc.MergeLeast` | hlc/clock.go:91-145 | The receive rule gives the least timestamp later than both and not behind physical time; wrapping, it starts again at zero. |
| `Hlc.EffectiveIff` | hlc/clock.go:91-105 | In every run a receive moves the clock if and only if what it received is within the drift of its node; otherwise it changes nothing. |
| `Hlc.LogicalBound` | hlc/clock.go:58-145 | Over any number of nodes, no logical counter exceeds the number of steps taken. |
| `Hlc.ShortUnwrapped` | hlc/clock.go:58-145 | No step of a run of fewer than 2^32 steps wraps. |
| `Hlc.StepForwardIff` | hlc/clock.go:58-145 | A step moves its node's clock past all it knew if and only if it does not wrap. |
| `Hlc.CausalOrder` | hlc/clock.go:53-145 | If one step happens before another and no step up to it wraps, its timestamp is less, for any number of nodes and steps. |
| `Hlc.CausalIff` | hlc/clock.go:53-145 | A run orders every pair of causally related steps if and only if none of its steps wraps. |
| `Hlc.WrapBreaks` | hlc/clock.go:58-145 | A step that wraps is not later than some step that happened before it. |
| `Hlc.IssuedDistinct` | hlc/clock.go:58-78 | No two timestamps issued anywhere are equal while no step wraps. |
| `Hlc.DriftBound` | hlc/clock.go:91-110 | A clock never runs ahead of its largest physical reading by more than its node's allowed drift, whatever the others allow, and is not behind the reading of a step just made. |
| `Merkle.PathRoundTrip` | cluster/antientropy/tree.go:126-155 | A bucket path leads back to its bucket. |
| `Merkle.IndexRoundTrip` | cluster/antientropy/tree.go:141-155 | A node number gives back the path it was computed from. |
| `Merkle.PathForBucket` | cluster/antientropy/tree.go:126-134 | The loop computes the path of a bucket. |
| `Merkle.LeavesDetermine` | cluster/antientropy/tree.go:173-181 | A finished tree is determined by its leaves. |
| `Merkle.LeafOrderFree` | cluster/antientropy/tree.go:162-168 | A leaf does not depend on the order of the entries. |
| `LeafHash.LeafIsParts` | cluster/antientropy/tree.go:162-168 | A leaf is the exclusive or of the hashes of all keys, timestamps and deletion marks in its bucket. |
| `LeafHash.EvenCancels` | cluster/antientropy/tree.go:223-242 | Parts that occur an even number of times cancel out. |
| `LeafHash.SameLeafIff` | cluster/antientropy/tree.go:223-242 | Unless part hashes collide, two lists of entries share a leaf if and only if the same keys, timestamps and deletion mark occur in them an odd number of times. |
| `LeafHash.SwappedTimestamps` | cluster/antientropy/tree.go:239-241 | Two replicas that hold the timestamps of two keys of a bucket the other way round have the same leaf, whatever the hashes. |
| `LeafHash.SwapUndetected` | cluster/antientropy/tree.go:229-242 | With the hashes of the code, replicas that differ in this way have equal leaves and different entries. |
| `MerkleTree.NewTree` | cluster/antientropy/tree.go:74-100 | A tree is refused exactly for parameters out of range or too many leaves to count. |
| `MerkleTree.Tree.AccumulateEntry` | cluster/antientropy/tree.go:165-168 | An entry is mixed into the leaf of its bucket and no other. |
| `MerkleTree.Tree.Finalize` | cluster/antientropy/tree.go:173-181 | Every internal node carries the hash of its children. |
| `MerkleTree.BuildTree` | cluster/antientropy/tree.go:191-215 | The finished tree of exactly the entries older than the cutoff. |
| `MerkleTree.OrderFree` | cluster/antientropy/tree.go:186-215 | Two trees of the same entries, streamed in any order, are equal. |
| `MerkleTree.ChildrenAt` | cluster/antientropy/tree.go:141-160 | The child hashes at a path; refused exactly if the path is too long or out of range. |
| `MerkleTree.FindDivergentBuckets` | cluster/antientropy/reconcile.go:184-243 | The breadth-first descent ends and returns, each once and in order, the leaves that differ together with every node above them but the root. |
| `MerkleTree.DivergentAreDiffering` | cluster/antientropy/reconcile.go:184-243 | Every bucket returned differs; without hash collisions every differing bucket is returned. |
| `MerkleTree.InjectiveHash` | cluster/antientropy/tree.go:248-254 | A child hash that tells these lists apart rules collisions out. |
| `Reconcile.PushLocal` | cluster/antientropy/reconcile.go:303-332 | A push queues the local entry and sends full batches. |
| `Reconcile.PullFromPeer` | cluster/antientropy/reconcile.go:334-357 | A pull stores the peer entry locally. |
| `Reconcile.JoinStep` | cluster/antientropy/reconcile.go:390-457 | One round deals with the smallest key left, on whichever sides hold it. |
| `Reconcile.LoweredIff` | cluster/antientropy/reconcile.go:334-357 | Repairs overwrite without comparing: a timestamp falls if and only if a stored entry is missing from its own bucket while the other bucket shows an earlier one. |
| `Reconcile.RepairConverges` | cluster/antientropy/reconcile.go:260-463 | After repairing every key that the buckets show as stored, both sides hold the later timestamp of each. |
| `Reconcile.AgreeUnlessTied` | cluster/antientropy/reconcile.go:420-444 | After repair the two sides agree entry by entry except exactly where equal timestamps carried different contents. |
| `Reconcile.ReconcileBucket` | cluster/antientropy/reconcile.go:260-463 | The number returned is the number of keys repaired and stays within the budget; short of it every key of both buckets is compared, and where the buckets show all that is stored both sides end with the later entry and no timestamp is lowered. |
| `AntiEntropy.RepairBuckets` | cluster/antientropy/reconcile.go:159-176 | Reconciling buckets one after the other, within one budget, comes to comparing what both sides showed at the start, each past its own cutoff; the number returned is the number of keys repaired; short of the budget nothing is left out, and fewer differing keys than the budget keep it short. |
| `AntiEntropy.QuietBuckets` | cluster/antientropy/reconcile.go:138-157 | If no hash hides a difference, a key whose bucket is not reconciled is the same on both sides. |
| `AntiEntropy.KeyConverges` | cluster/antientropy/reconcile.go:110-179 | A key that was compared by all that is stored of it, or was the same on both sides, ends with the later timestamp on both. |
| `AntiEntropy.Round` | cluster/antientropy/reconcile.go:110-179 | A round runs exactly if the tree parameters are valid. Its trees are the finished trees of what both sides hold past the cutoff; only buckets whose leaves differ are touched; the number returned is the number of keys repaired. Short of the budget, which fewer differing keys than the budget guarantee, and if no hash hides a difference, both sides hold the later timestamp for every key whose copies are all past the grace period. |
| `AntiEntropy.RoundLowersIff` | cluster/antientropy/reconcile.go:472-505 | A round lowers a timestamp on a side if and only if a compared key had a copy there too young for that side's cutoff, and an earlier copy on the other side, old enough for the other's. |
| `AntiEntropy.LaterCutoffLowers` | cluster/antientropy/reconcile.go:480-495 | Because the local bucket is drained with a later cutoff than the digest's, a key too young for both trees can have its later copy on the peer replaced by an earlier local one. |
| `HashRing.DropWalk` | hashring/ring.go:81-153 | Leaving a node out and walking the ring commute. |
| `HashRing.OwnersMove` | hashring/ring.go:59-153 | After adding a node, every key keeps its owners up to the new one: without it, the new list is a prefix of the old. |
| `HashRing.UntouchedKeys` | hashring/ring.go:59-153 | Keys the new node does not own keep their owners. |
| `HashRing.AddedThenDropped` | hashring/ring.go:59-99 | Removing a node undoes adding it if no two nodes of the old ring share a hash, whatever the hashes of the new points and however ties are sorted. |
| `HashRing.AddedThenDroppedIff` | hashring/ring.go:59-99 | And if and only if: points of two nodes with one hash may come back in the other order. |
| `HashRing.WalkMeetsAll` | hashring/ring.go:121-153 | A full walk meets every node exactly once. |
| `HashRing.OwnersInOrder` | hashring/ring.go:121-153 | The owners of a key are the first different nodes met going clockwise from its hash, in the order they are met. |
| `HashRing.SharesKeyIff` | hashring/ring.go:155-229 | Two nodes own some key together if and only if they share the window of a position whose hash no point before it has. |
| `HashRing.KeyShared` | hashring/ring.go:155-229 | Looking at every position misses nobody: no false negatives, ties or not. |
| `HashRing.SharesIff` | hashring/ring.go:155-229 | With distinct hashes it finds nobody else either. |
| `HashRing.SharesTooMany` | hashring/ring.go:155-229 | With three points at one hash it finds two nodes that own no key together. |
| `HashRing.Ring.AddNode` | hashring/ring.go:59-77 | The points of a new node are sorted in, and taking them out again gives the old ring unless two nodes in it share a hash; a known id changes nothing. |
| `HashRing.Ring.RemoveNode` | hashring/ring.go:81-99 | Exactly the points of the node go. |
| `HashRing.Ring.Search` | hashring/ring.go:276-284 | The first point at or after a hash; past the last one, the first of all. |
| `HashRing.Ring.GetNodes` | hashring/ring.go:121-153 | Exactly min(n, nodes) distinct owners, in the order they are met going clockwise from the hash of the key, with their addresses. |
| `HashRing.Ring.CoReplicas` | hashring/ring.go:167-229 | In byte order, exactly the nodes that share the window of some ring position with the given one; every node that owns some key together with it is among them. |
| `SwimMerge.MergedAllIsMax` | cluster/gossip.go:146-208 | Of all that was known and heard of another node, in any list of updates, the highest incarnation counts; among the records with it the node is dead if and only if one says so, and alive if and only if all do. Its ring state stays. |
| `SwimMerge.MergedNames` | cluster/gossip.go:177-208 | One update: a higher incarnation replaces all but the ring state, a lower one nothing; at the same one the node is dead exactly if either says so, and alive exactly if both do. |
| `SwimMerge.OrderFree` | cluster/gossip.go:146-208 | Updates about another node, in any order and with any repetition, end with the same standing. |
| `SwimMerge.SelfFallsIff` | cluster/gossip.go:166-175 | The node's own incarnation falls exactly when suspicion arrives at the largest incarnation. |
| `SwimMerge.SelfOutlives` | cluster/gossip.go:166-195 | Whatever is said of the node in any order, it stays alive with an incarnation above every suspicion and no lower than any other, and no higher than that takes, unless the counter wraps. |
| `SwimMerge.LookupsAgreeIff` | cluster/membership.go:265-294 | The two ring-state lookups agree on a node if and only if its first and last entries in the descriptor carry the same state. |
| `SwimMerge.DistinctSameEnds` | cluster/membership.go:265-294 | They do if ids are distinct. |
| `Swim.SortFresh` | cluster/gossip.go:242-244 | Sorting permutes and orders; ties fall in any order. |
| `Swim.PendingSame` | cluster/gossip.go:255-285 | What is pending does not depend on the order of the buffer. |
| `Swim.DropsLeastFresh` | cluster/gossip.go:229-247 | An overflowing buffer keeps as much as it may, and whatever it drops is no fresher than anything it keeps. |
| `Swim.TakeBroadcasts` | cluster/gossip.go:255-285 | The freshest updates are taken; what is left is exactly those taken with one transmission less and the others, without those that have none left; what is pending falls by exactly the number taken. |
| `Swim.RingStatesAgree` | cluster/membership.go:265-294 | In every reachable state the descriptor determines a member's ring state if and only if its first and last entries for the member carry the same state. |
| `Swim.LivenessKeeps` | cluster/swim.go:241-273 | A change of liveness keeps deaths and timers in line with the table. |
| `Swim.TimedIff` | cluster/swim.go:108-114 | A suspect has a timer if and only if its suspicion began with a failed probe of this node; one suspected by hearsay has none. |
| `Swim.Membership.constructor` | cluster/membership.go:79-101 | The node starts alone, alive, with incarnation 1. |
| `Swim.Membership.QueueBroadcast` | cluster/gossip.go:229-247 | The buffer stays within its limit, 128 unless a positive one is set: the update is appended, and on overflow the buffer is cut to the freshest. |
| `Swim.Membership.RetransmitLimitIs` | cluster/gossip.go:219-227 | The multiplier times the least k with 2^k at least the number of members; alone, the multiplier. |
| `Swim.Membership.SetLiveness` | cluster/swim.go:241-273 | A transition keeps the invariant, is recorded, reported and broadcast; no transition changes nothing. |
| `Swim.Membership.StartSuspectTimer` | cluster/swim.go:275-280 | A suspect gets a timer, and only through a failed probe of this node. |
| `Swim.Membership.SuspectTimeout` | cluster/swim.go:281-296 | A timer, however late, kills only a member still suspect, and is gone. |
| `Swim.Membership.Refute` | cluster/gossip.go:166-175 | Suspicion of the node itself is answered with a higher incarnation, and broadcast. |
| `Swim.Membership.MergeUpdate` | cluster/gossip.go:146-208 | By the names of the states: of another node a higher incarnation is believed, and at the same one it is dead exactly if either side says so and alive exactly if both do; suspicion of the node itself is outbid. Ring states stay. What changes about a known member is passed on, anything else is not; an update may end a timer and never starts one. |
| `Swim.Membership.AddMember` | cluster/gossip.go:149-164 | A member not heard of before is taken as told, with the ring state of the descriptor; a suspect gets no timer. |
| `Swim.Membership.MergeUpdates` | cluster/gossip.go:14-23 | After a list of updates every other node is dead exactly if a record of its highest incarnation says so and alive exactly if all of them do; the node itself is above every suspicion, unless its counter wraps. |
| `Swim.Membership.ApplyRingDescriptor` | cluster/membership.go:239-283 | Only a newer descriptor is applied, and then every member gets its ring state from it and keeps everything else. |
| `Swim.Membership.HandleGossip` | cluster/gossip.go:14-118 | Updates are merged, then a newer descriptor applied; the invariant holds, the version never falls and no timer starts. |
| `Swim.Membership.ProbeSucceeded` | cluster/swim.go:58-104 | An answered ping makes a suspect alive and changes nothing else. |
| `Swim.Membership.ProbeFailed` | cluster/swim.go:106-121 | An unanswered ping makes a live member a suspect with a timer running; a member that is suspect already it leaves as it is, timer or none. |
| `Swim.Membership.ReapDeadNodes` | cluster/swim.go:302-329 | A member is removed if and only if reaping is on and it is outside the ring and has been dead for at least the timeout; the others stay as they are. |
| `Swim.Membership.NextProbeTarget` | cluster/swim.go:160-194 | Every pass over the list probes each other member that is not dead exactly once while membership stays the same; there is no target only if there is no such member. |
| `Swim.Membership.RebuildProbeOrder` | cluster/swim.go:196-208 | The list holds every other member that is not dead, once. |
| `Swim.Membership.GetBroadcasts` | cluster/gossip.go:255-285 | Updates to piggyback, freshest first, each at the cost of one transmission. |
| `Quorum.SplitReplicas` | cluster/coordinator.go:94-103 | Replicas are split by ring state, in order. |
| `Quorum.WhereSplits` | cluster/coordinator.go:94-103 | Every replica is a voter or a learner, never both. |
| `Quorum.Collect` | cluster/coordinator.go:187-208 | The loop never waits for an answer nobody will send, and its outcome does not depend on the order of arrival. |
| `Quorum.Newest` | cluster/coordinator.go:335-349 | The newest of the answers that found the key. |
| `Quorum.Write` | cluster/coordinator.go:115-209 | A write succeeds exactly if enough voters store the value. |
| `Quorum.Read` | cluster/coordinator.go:251-369 | A read succeeds exactly if enough replicas answer, and returns the newest of the first ones. |
| `Quorum.AlwaysFreshIff` | cluster/coordinator.go:251-349 | Every read by r voters is at least as new as a timestamp if and only if fewer than r voters have, at some moment of the read, nothing or something older. |
| `Quorum.LagsIff` | server/internal_handlers.go:108-149 | A replica that is up to date falls behind if and only if something older arrives at it later: it stores what it is sent without comparing. |
| `Quorum.QuorumsOverlap` | cluster/coordinator.go:251-349 | With R + W above the voter count, if W voters hold a timestamp every read by R is at least as new. |
| `Quorum.WriteThenRead` | cluster/coordinator.go:115-369 | If a write and a later read both reach their quorums, whatever answers arrive in whatever order, and nothing older reaches the replicas that acknowledged the write after it, the read is at least as new as the write. |
| `Quorum.BlindWriteIsStale` | server/internal_handlers.go:108-149 | Two writes delivered in the wrong order: the newer reaches every voter, then the older arrives, and every later read is stale however many voters answer. |

## Left out

- Transactions: conflict detection looks at memtables only and scans are one version off, so there is no exact snapshot claim to prove.
- Scans over a key range or prefix: bounded variants of the scan modelled here.
- Transport, server handlers, peer pool, CLI, metrics, benchmarks: plumbing without a hard property.
- fsync, rename, mmap, the block cache, reference counts and the deletion of files that iterators still hold: disk content is bytes or table contents, and critical sections are atomic steps.
- A crash between the manifest records of one compaction: applying a compaction is one step (DurableRuns.DurableReads and CrashRuns.CrashRunReads make no claim in between).
- CrashRuns.CrashRunReads: ends at a compaction of L0 that succeeds while L0 holds a table twice, which CrashRuns.LeftoverStuck narrows down to cuts that fall between all the copies; a crash between the swap of a flush and the removal of its log is not part of these runs when a compaction was applied in between, and CrashPoints.CrashAfterSwap and CrashPoints.CopiesStuck say what it leads to.
- DurableRuns.DurableReads: says nothing about batches and manifest records appended behind a torn tail; Wal.ReopenedIff, DurableRuns.WrittenBehindTear and Manifest.ReopenedIff do.
- A failed log write that leaves part of a record while the process lives: a failed write leaves nothing behind; what a torn tail does to later batches is Wal.ReopenedIff.
- Creation of the first manifest and log on an empty directory: `DurableRuns.InitDisk` states its outcome.
- Failure to create the next log during a rotation, and read errors of single tables, which the engine logs and skips.
- Put values that are nil rather than empty: a flush turns them into tombstones; values are bytes here.
- 64-bit wrap-around of level size targets, member generations, byte counts and the drift difference.
- Hinted handoff, read repair after a read, learners, request time-outs, admin operations on the ring.
- The file format of HNSW snapshots and the vector store around the index.
- SIMD kernels and floating-point distances: distances are reals, any function of two vectors.
- container/heap, sort.Slice, slices.SortFunc and sort.Search: known by their contracts, as insertion sorts, a choice of the least item and a binary search.
- Database.DB.RunCompaction: no flush interleaves, so that it terminates; needs two levels, and few enough entries or small enough tables that no filter divides by zero.
- Database.DB.LaunchCompaction: needs two levels (EngineLimits.L0KeptIff says what one level does); picking and executing are one step here, and interleave in EngineRuns.
- Database.DB.Put: while it waits, only the flusher runs, and every memtable has a size its filter can express.
- Database.DB.FlushMemtable: the block size is one the format can express (at most 65535); SSTable.WriteTable has the builder's refusals for any block size.
- Database.DB.GetAt: searches contents; ReadPath.GetAt is the same search over skip lists and files.
- AntiEntropy.Round: the trees are built from the stores as they are at the start, and remote calls do not fail.
- SSTable.Builder.Add: does not say what state a refusal leaves, since callers give the builder up.
- SSTable.GetAt: asks for a filter whose bit count is not a multiple of 2^32, for which the source divides by zero.
- MerkleTree.FindDivergentBuckets: the peer's tree is fixed and remote calls do not fail.
- Reconcile.ReconcileBucket: no concurrent writes and no failing remote calls.
- Quorum.Collect: every replica asked answers exactly once, with a success or a failure.
- Swim.Membership.HandleGossip: callbacks and the reply message are left out.
- Swim.Membership.ProbeFailed: the direct and indirect pings themselves are not modelled, only their outcome.
