# Block cache over a remote file: a verified model

This project models the cache of a FUSE-based remote file system and proves what it keeps. `CacheManager` cuts
byte-range reads and writes into 64 KiB blocks. The blocks live in sparse part files of at most 2 GiB
(`BlockStore`); writes also go to a plain mirror file and set bits in dirty bitmaps (`MetadataStore`); a recency
list with scores (`LruPolicy`) picks eviction victims; sequential reads schedule prefetch jobs on a `ThreadPool`;
blocks come from an HTTP backend by byte ranges, and listings come back as JSON that two hand-written scanners read.

The main results:

- **Concurrent read-through** (`ConcurrentReads`): in-range foreground reads, each starting at or below the cached
  prefix of its part, and prefetch jobs on any number of workers, interleaved at the granularity of store read,
  backend fetch and store write, keep every stored byte equal to the backend's, and every finished read returned
  exactly its range. If every read starts at or below the cached prefix of the whole file, the stored object always
  is a prefix of it. Wherever the reads start, every stored and every returned byte is the backend's or zero, every
  call is answered once and in order, and every read and every job ends after a bounded number of its own steps, with
  the blocks it went through stored.
- **Reads in any order** (`ReadThrough`, `Holes`): after any run of reads and prefetches on a fresh path, a read shows
  zeros in the blocks that were skipped (a higher block of the part was visited before them) and the backend's bytes
  everywhere else; this says exactly, in terms of the blocks visited so far, when a read has the bytes and return
  value of POSIX.
- **Local refinement** (`LocalRefinement`, `CacheRuns`): on paths without backend copy, every run of reads, writes,
  flushes, prefetches and evictions returns call by call what one flat zero-filled file for each path returns, or
  -ENOENT once the path was evicted, sparse multi-part files included, provided hashes and mirror names differ.
- **Read-through on the manager** (`RemoteRuns`): over every run of reads, writes, flushes and prefetch jobs on a new
  manager, on any number of paths with or without backend copy, every read shows the last byte written at each
  address, and on an unwritten path exactly what the two results above say of its backend file.
- **Eviction** (`CacheManager`): victims are taken in draining order, each while usage is above the target; evicted
  are exactly the entries of which a key was taken.
- **Writes over a backend copy** (`RemoteWrites`): over every run of reads, writes and prefetches a caller reads the
  last byte written to an address, and the exact condition for the rest of the touched blocks to be those of the
  written backend file.
- **Thread pool** (`ThreadPool`): no wakeup is lost, the only stuck states are "idle" and "done", tasks run exactly
  once and in order, and destruction drains the queue in a bounded number of steps.
- **Policy** (`LruPolicy`): over every run the list is in reverse last-touch order; draining it is a stable sort.
- **Texts** (`JsonScan`, `HttpRange`, `FsLayout`): printing and parsing undo each other, with the exact conditions.
- **Bitmaps** (`MetadataStore`): bit j of a vector is bit j mod 8 of byte j / 8, least significant first.

Where the code does not meet the obvious claim, the model follows the code and states when the claim holds:

- A hole in a part file counts as a cached block of zeros (`ReadThrough.HoleReadsAsZero`); a read leaves the store
  faithful exactly when the hole in front of its first block is zero in the backend file too
  (`Holes.ReadFaithfulIff`), and `Holes.PosixAfterRun` says exactly which later reads suffer.
- A read past the end of a backend file delivers bytes of an uninitialised buffer up to the block boundary, and past
  the last block it returns -1 and not 0; `ReadThrough.ReadThroughExact` says exactly when bytes and return value are
  those of POSIX.
- A write to a block that is not cached merges zeros instead of backend bytes (`RemoteWrites.WriteLosesBackendByte`);
  this is harmless exactly when they are zero in the backend file (`RemoteWrites.WriteFollowsIff`).
- Paths such as "/a" and "a" are different entries with one mirror file, so a write to one shows up in the other
  (`CacheRuns.ReadElsewhere`).
- A prefetch job packs the address of its own copy of the entry into its keys. Every key decodes to an entry until
  such a job fetched a block, and not after (`CacheManager.CacheManager.RunPrefetch`); the eviction loop then may
  meet a foreign address, and nothing is claimed past that point (`CacheManager.CacheManager.EvictUntilGb`).
- `loadBitmap` divides a byte count by eight again, so a bitmap comes back whole exactly when it has at most eight
  bits (`MetadataStore.LoadAfterPersist`).
- Policy keys shift an address left by 32, so an address above 32 bits never decodes (`Keys.HighAddressLost`).
- An evicted entry is never revived: test_read.cc:38-45 calls the read after eviction a read-through, but the code
  answers `-ENOENT` (`CacheManager.CacheManager.Read`).
- A suffix range is served from the front of the file (`HttpRange.SuffixRange`). A range whose end precedes its start
  is not refused: it gets nothing when the two are adjacent, the rest of the file when one position lies between them,
  and an answer that breaks off behind its head otherwise, because `read` raises for counts below -1
  (`HttpRange.InvertedRange`). A range that starts past the end of the file is announced with a negative
  Content-Length (`HttpRange.RangeServed`); `HttpRange.PositionsServed` says exactly which requests are answered right.
- `findJsonNames` returns the names exactly when none needs JSON escaping (`JsonScan.NamesComeBack`), while
  `getFileInfo` works for every name whose record fits its 1024-byte buffer (`JsonScan.InfoComesBack`). A longer record
  comes back as an empty file, as an exception, or with a size cut short and no directory flag, depending on where the
  buffer ends (`JsonScan.InfoCut`); `JsonScan.InfoExact` says exactly when the right answer comes back.

Conventions: a file is a sequence of bytes, with `pread` cut at the end and `pwrite` zero-filling a gap; files on
disk are named by kind, hash and part, and `FsLayout.PathInjective` justifies that. The block buffer's earlier,
indeterminate contents are the parameter `stack`. `handle` stands for the address of an entry and counts up from 1.
The hash is an arbitrary function to 64-bit values. Verify with `dafny verify dfyconfig.toml`.

## Model

| member | source | states |
|---|---|---|
| `Parts.BlockInOnePart` | cache/fs_layout.h:8 | since the block size divides the part size, every byte of a block lies in the part of its first byte, at consecutive offsets |
| `Parts.StoreWriteFlat` | cache/block_store.cc:59-74 | a block write through part and offset, seen on flat addresses: which addresses become stored, the new bytes, the unchanged bytes, the zero-filled ones |
| `Parts.StoreReadFlat` | cache/block_store.cc:44-57 | a block read delivers exactly the stored flat bytes up to the first missing one; a full block iff its last byte is stored |
| `CacheObject.WriteFrame` | cache/cache_manager.cc:136-156 | after a write the object holds the data on its range, every other stored byte is unchanged, every other new byte is zero |
| `CacheObject.WriteLength` | cache/cache_manager.cc:136-156 | each touched part's length becomes the maximum of its old length and the end of its last touched block; other parts keep theirs |
| `LocalRefinement.WriteMirror` | cache/cache_manager.cc:127-157 | the chunk-wise mirror writes amount to one positional write of the whole data |
| `LocalRefinement.WriteAgrees` | cache/cache_manager.cc:121-159 | a write keeps parts and mirror in agreement with the flat file, updated by one positional write |
| `LocalRefinement.ReadBlockLocal` | cache/cache_manager.cc:93-108 | without a backend, a block in front of the rounded-up end is found whole (cached, or filled from the mirror); past it, nothing is found |
| `LocalRefinement.ReadLocal` | cache/cache_manager.cc:81-119 | a read delivers the flat file's bytes, zero-padded to its last block, and is complete iff the range ends by then |
| `LocalRefinement.RunRefines` | cache/cache_manager.cc:81-159 | from any agreeing state, every run has the outcomes of the flat file and ends in agreement |
| `LocalRefinement.LocalRefinement` | cache/cache_manager.cc:81-159 | the same from a fresh path: outcomes of every run of reads and writes equal those of one flat file, whatever the block buffer held |
| `ReadThrough.StoreFaithfulIff` | cache/cache_manager.cc:94-107 | storing a fetched block keeps every stored byte equal to the backend's iff the hole it leaves is zero in the backend file |
| `ReadThrough.StoreReachable` | cache/cache_manager.cc:94-107 | storing a block that starts at or below its part's cached prefix keeps the parts faithful and makes the next block reachable |
| `ReadThrough.CachedFaithful` | cache/cache_manager.cc:94 | a block that counts as cached in faithful parts holds the backend's bytes |
| `CacheObject.ReadSources` | cache/cache_manager.cc:81-119 | every byte a read delivers is the one its block would show if it were read alone, and a read falls short only where the next block would not be found |
| `ReadThrough.ReadThroughBytes` | cache/cache_manager.cc:81-119 | a read of any range, reachable or not, delivers up to the end of the file's last block; it shows the stored byte of a block that counts as cached and the backend's byte of every other |
| `ReadThrough.ReadThroughExact` | cache/cache_manager.cc:106-110 | a non-empty read has bytes and return value of POSIX iff it starts inside the file, ends there or the file ends on a block boundary, and meets no wrong cached byte |
| `ReadThrough.HoleReadsAsZero` | cache/cache_manager.cc:94 | reading the second block first makes a later read of the first block return zeros instead of the file's bytes |
| `Holes.VisitsLeave` | cache/cache_manager.cc:93-108 | after visits of blocks in any order, exactly the blocks at or below a visited one of their part are stored; skipped ones hold zeros, all others the backend's bytes |
| `Holes.ReadAfterRun` | cache/cache_manager.cc:81-119 | every read in every run of reads and prefetches on a fresh path shows zeros in skipped blocks and the backend's bytes in all others |
| `Holes.PosixAfterRun` | cache/cache_manager.cc:94-110 | such a read is that of POSIX iff it starts inside the file, ends there or the file ends on a block boundary, and every byte it asks for in a skipped block is zero in the file |
| `Holes.ReadFaithfulIff` | cache/cache_manager.cc:81-119 | a read leaves a faithful store faithful iff the bytes in front of its first block, in the part and not stored, are zero in the file; always so when it starts at or below the cached prefix |
| `RemoteWrites.WriteFollowsIff` | cache/cache_manager.cc:143-146 | on a path with a backend copy the store follows the written file iff every byte filled with zero, in a touched block or the gap in front, is zero in the backend file or past its end |
| `RemoteWrites.MergeSeenIff` | cache/cache_manager.cc:143-146 | a read inside the touched blocks shows the written backend file iff no byte it asks for was filled with zero over a non-zero one |
| `RemoteWrites.WriteLosesBackendByte` | cache/cache_manager.cc:143-146 | writing the second byte of a backend file into an empty cache makes its first byte read as zero |
| `RemoteWrites.ReadAfterWrite` | cache/cache_manager.cc:93-110 | a read inside the touched blocks is complete and shows the stored bytes, with or without a backend |
| `RemoteWrites.ReadYourWrites` | cache/cache_manager.cc:81-159 | a caller reads back what it wrote, whatever cache, mirror and backend held |
| `RemoteWrites.RunKeepsLastWrite` | cache/cache_manager.cc:136-156 | after any run of reads, writes and prefetches an address that was written holds the byte of the last write to it, in a whole block |
| `RemoteWrites.ReadLastWrite` | cache/cache_manager.cc:81-159 | every later read that reaches a written address shows the byte of the last write there, with or without a backend; a read that starts in its block does reach it |
| `ConcurrentReads.JobStep` | cache/cache_manager.cc:191-210 | every check, fetch and store step of a prefetch job keeps the invariant |
| `ConcurrentReads.ReadStep` | cache/cache_manager.cc:81-119 | every check, fetch, store and copy step of a foreground read that starts at or below the cached prefix of its part keeps the invariant, scheduling included |
| `ConcurrentReads.RunKeepsInv` | cache/cache_manager.cc:81-119 | the invariant holds over every interleaving of such reads |
| `ConcurrentReads.ConcurrentMixed` | cache/cache_manager.cc:81-119 | in every interleaving, wherever the reads start, each stored byte is the backend's or zero, and every finished in-range read returned its whole range of such bytes |
| `ConcurrentReads.ConcurrentReadThrough` | cache/cache_manager.cc:191-210 | in every interleaving of reads that start at or below the cached prefix of their part the stored bytes are the backend's and every finished in-range read returned exactly its range |
| `ConcurrentReads.ConcurrentPrefix` | cache/cache_manager.cc:191-210 | if every read starts at or below the cached prefix, the stored object is a prefix of the backend file in every interleaving |
| `ConcurrentReads.ReaderAdvances` | cache/cache_manager.cc:86-118 | every own step of a read ends it, with one log entry for it, or decreases a measure of at most four steps a byte |
| `ConcurrentReads.ReadFinishes` | cache/cache_manager.cc:81-119 | in every interleaving a read never blocks, and after a bounded number of its own steps it was answered with its whole range |
| `ConcurrentReads.CheckDecides` | cache/cache_manager.cc:94 | a block is fetched exactly when it did not count as cached at its check |
| `ConcurrentReads.CallsAnswered` | cache/cache_manager.cc:81-119 | in every interleaving the log answers the reads in the order of their calls, all but the one under way |
| `ConcurrentReads.JobAdvances` | cache/cache_manager.cc:191-210 | every own step of a job ends it or decreases a measure of at most three steps a block |
| `ConcurrentReads.WorkGetsDone` | cache/cache_manager.cc:191-210 | in every interleaving a block that a read completed, that a job has passed, or in the window of a finished job is stored as far as the file has it |
| `ConcurrentReads.JobFinishes` | cache/cache_manager.cc:191-210 | a queued job can start on any free worker, a job never blocks, and after a bounded number of its own steps it is done and its window is stored |
| `ConcurrentReads.PrefetchesFollowReads` | cache/cache_manager.cc:114-116 | in every interleaving the jobs started and queued are, in order, exactly those sequential detection asks for, and a running job is within its window of blocks |
| `ThreadPool.StepKeepsAwakened` | cache/thread_pool.cc:10-31 | every step keeps "a queued task has an awake or busy worker or a pending notification" and what it rests on |
| `ThreadPool.StepConserves` | cache/thread_pool.cc:19-31 | every step keeps the enqueue order equal to started followed by queued, and each started task running or finished |
| `ThreadPool.PoolServesCalls` | cache/thread_pool.cc:3-8 | in every run the pool has as many workers as asked for, at least one, and the enqueued tasks are those handed in, in order |
| `ThreadPool.NoDeadlock` | cache/thread_pool.cc:3-31 | in every run no wakeup is lost, and the pool is stuck iff it is idle (all waiting, queue empty) or done (all exited, queue empty) |
| `ThreadPool.ExactlyOnce` | cache/thread_pool.inl:5-13 | in every run tasks start in enqueue order and enqueued = queued + running + finished; once all workers exited, all finished exactly once |
| `ThreadPool.DestructorDrains` | cache/thread_pool.cc:10-17 | after the stop flag, the pool's own steps are bounded in number and end with every worker exited and every task finished once |
| `LruPolicy.ScanFindsFirstWorst` | cache/policy/lru_policy.cc:43-49 | the scan finds the first position with the largest score, and finds none iff no score is above -DBL_MAX |
| `LruPolicy.UnlinkKeepsIndex` | cache/policy/lru_policy.cc:28-34 | unlinking a cell and its index entry keeps ids distinct and the index leading to exactly the cells |
| `LruPolicy.Policy.constructor` | cache/policy/lru_policy.cc:7-8 | a new policy is empty |
| `LruPolicy.Policy.Touch` | cache/policy/lru_policy.cc:11-25 | touch moves the node to the front, evicting one other node when the rest fills the capacity; list and index stay in step |
| `LruPolicy.Policy.Remove` | cache/policy/lru_policy.cc:28-34 | remove drops exactly the node of the key |
| `LruPolicy.Policy.Evict` | cache/policy/lru_policy.cc:37-56 | evict drops and returns the victim, or returns the sentinel and changes nothing |
| `LruPolicy.RunByRecency` | cache/policy/lru_policy.cc:11-56 | over every run: reverse last-touch order, nodes as their last touch put them, size at most max(capacity, 1) |
| `LruPolicy.TouchEvictsWorstWhenFull` | cache/policy/lru_policy.cc:11-25 | the touched key is in front and never its own victim; one other key, the first of the worst, leaves exactly when the others fill the capacity; touching a resident key again evicts nothing |
| `LruPolicy.SortedIsStableSort` | cache/policy/lru_policy.h:25-27 | the reference sort is a descending permutation that keeps the order of equal scores |
| `LruPolicy.DrainIsStableSort` | cache/policy/lru_policy.cc:37-56 | repeated evict yields the stable sort of the recency list by descending score |
| `LruPolicy.DrainByColdness` | cache/policy/lru_policy.h:25-27 | keys leave by descending bytes * (1 - hotness) |
| `LruPolicy.HotLeavesLast` | cache/policy/lru_policy.h:25-27 | a key touched at hotness 1 never leaves before one of the same size touched at 0.25 |
| `Text.PrintValue` | cache/fs_layout.h:18 | printing a number yields digits whose value is the number |
| `Text.PrintShortest` | cache/fs_layout.h:18 | a printed number has no leading zero |
| `Text.Hex16Length` | cache/cache_manager.cc:31-36 | a 64-bit hash prints as exactly 16 hexadecimal digits |
| `FsLayout.HexInjective` | cache/cache_manager.cc:31-36 | padded hexadecimal printing is injective |
| `FsLayout.PathInjective` | cache/fs_layout.h:13-23 | data and bitmap paths are injective in hash and part and never equal each other |
| `FsLayout.PathText` | cache/fs_layout.h:13-23 | the data and bitmap paths in full, from the sixteen digits of the hash |
| `FsLayout.PrefixSelectsObject` | cache/block_store.cc:82 | the prefix match selects a file iff it belongs to the object |
| `BlockStore.BlockStore.Read` | cache/block_store.cc:44-57 | the read of the object's parts, or failure when the part file is missing |
| `BlockStore.BlockStore.Write` | cache/block_store.cc:59-74 | the object's parts after the write; every other file is unchanged |
| `BlockStore.BlockStore.DeleteObject` | cache/block_store.cc:76-95 | all data and bitmap files of the object go, and every other file stays |
| `MetadataStore.BitSetIsBit` | cache/policy/metadata/metadata_store.cc:211 | the test with a mask finds bit b of a byte, least significant first |
| `MetadataStore.PackBits` | cache/policy/metadata/metadata_store.cc:222-225 | bit j of the bitmap is bit j mod 8, least significant first, of byte j / 8, and the padding bits are clear |
| `MetadataStore.UnpackBits` | cache/policy/metadata/metadata_store.cc:208-213 | the bits of the bytes read, least significant first in each byte |
| `MetadataStore.LoadAfterPersist` | cache/policy/metadata/metadata_store.cc:195-233 | loading what was persisted yields the first bits padded with false; a non-empty bitmap comes back whole iff it has at most 8 bits |
| `MetadataStore.MetadataStore.MarkDirtyBlock` | cache/policy/metadata/metadata_store.cc:177-181 | exactly one bit is added to the set bits |
| `MetadataStore.MetadataStore.LoadBitmap` | cache/policy/metadata/metadata_store.cc:195-215 | the part's bitmap becomes what the file yields; a missing file changes nothing |
| `MetadataStore.MetadataStore.FlushBitmaps` | cache/policy/metadata/metadata_store.cc:183-192 | every non-empty bitmap of the object is encoded in its file; all other files are unchanged |
| `Sequential.BlocksTile` | cache/cache_manager.cc:86-91 | the blocks of a transfer are consecutive and as many as the range meets |
| `Sequential.BlocksMeetRange` | cache/cache_manager.cc:137-141 | a block belongs to the transfer iff it overlaps the byte range |
| `Sequential.ReadTiles` | cache/cache_manager.cc:86-118 | a read completes exactly the blocks of the bytes it delivers, and is complete iff it delivered all |
| `Sequential.SequentialDetection` | cache/cache_manager.cc:114-116 | k consecutive blocks schedule k-1 prefetches, one more iff the last read ended in the block before, at the right positions, and set the last block |
| `Keys.UnpackPack` | cache/cache_manager.cc:112 | decoding inverts packing for address and block index below 2^32; the sentinel is met only by the two maxima |
| `Keys.HighAddressLost` | cache/cache_manager.cc:176 | an address of more than 32 bits never decodes to itself |
| `Keys.TouchBlocksKnown` | cache/cache_manager.cc:204-206 | touching blocks keeps every key decodable to an entry iff the packed address is an entry's |
| `CacheManager.CacheManager.constructor` | cache/cache_manager.cc:47-50 | a new manager is valid and empty |
| `CacheManager.CacheManager.GetEntry` | cache/cache_manager.cc:184-189 | the entry found, or a new live one without last block and with a handle of its own |
| `CacheManager.CacheManager.LoadBlock` | cache/cache_manager.cc:93-108 | one iteration's block and the object after it; only this object's parts change |
| `CacheManager.CacheManager.CompleteBlock` | cache/cache_manager.cc:112-116 | recency, last block and scheduled prefetch after one block |
| `CacheManager.CacheManager.Read` | cache/cache_manager.cc:81-119 | -ENOENT and no change for an evicted entry; else result, object, recency list, last block and prefetches of the block loop; the class invariant is kept |
| `CacheManager.CacheManager.MergeChunk` | cache/cache_manager.cc:143-146 | the stored block, zero-padded, with the chunk copied in, goes back into the store; no other file changes |
| `CacheManager.CacheManager.StoreChunk` | cache/cache_manager.cc:138-153 | one iteration: merged block stored, one dirty bit, one touch, chunk mirrored; no other path's files change |
| `CacheManager.CacheManager.Write` | cache/cache_manager.cc:121-159 | -ENOENT and no change for an evicted entry; else object and recency list of the block loop, and dirty bits stay exactly those of blocks some write overlapped |
| `CacheManager.MarkedExact` | cache/policy/metadata/metadata_store.cc:177-181 | after a further write, a bit is set iff some write overlapped its block, in the part of the block |
| `CacheRuns.BitsInTheirPart` | cache/cache_manager.cc:148 | block indices in a bitmap are global: a set bit of part p lies between the part's first and last block |
| `CacheManager.CacheManager.FlushAll` | cache/cache_manager.cc:161-164 | every entry's bitmaps are on disk; only bitmap files change and no bit is cleared |
| `CacheManager.CacheManager.UsedBytes` | cache/cache_manager.cc:167-172 | the sum of all file sizes |
| `CacheManager.CacheManager.EvictPath` | cache/cache_manager.cc:178-180 | the entry is marked, its data parts are gone, its bitmaps are rewritten, no other object's file changes |
| `CacheManager.CacheManager.PrefetchBlock` | cache/cache_manager.cc:194-207 | one iteration of a prefetch job: the block is visited, and touched at 0.25 under the copy's address iff it was fetched |
| `CacheManager.CacheManager.RunPrefetch` | cache/cache_manager.cc:191-210 | a job between two calls: parts and recency list after its window; the class invariant survives iff the entry was not evicted or nothing was fetched; keys stay decodable iff nothing was fetched or the copy has an entry's address |
| `CacheManager.MirrorsShared` | cache/cache_manager.cc:130-131 | two paths share a mirror file iff they are equal or one is the other behind a leading slash |
| `CacheManager.CacheManager.EvictKey` | cache/cache_manager.cc:174-180 | one victim's key: its entry is evicted and loses its files, unless its address is null or no entry's |
| `CacheManager.ChainTaken` | cache/cache_manager.cc:173-181 | over the whole loop, evicted are exactly the entries evicted before or of which a key was taken, and every key taken has a null address or that of an evicted entry |
| `CacheManager.ChainDrains` | cache/cache_manager.cc:173-174 | the keys are taken in the order in which draining the policy yields them |
| `CacheManager.CacheManager.EvictUntilGb` | cache/cache_manager.cc:166-182 | takes victims one by one while usage is above the target, and ends at or below it or with an empty policy; evicted are exactly the entries of which a key left; nothing changes when usage is low enough; other files are unchanged; reports the first address that is no entry's, none while every key decodes to an entry |
| `CacheRuns.Call` | cache/cache_manager.cc:81-159 | one call on the manager is one step of the value model on its path, or -ENOENT when evicted, and touches no other path's entry or files |
| `CacheRuns.PerformPrefetch` | cache/cache_manager.cc:191-210 | a prefetch of a path without backend copy changes nothing that any path sees |
| `CacheRuns.PerformEvict` | cache/cache_manager.cc:166-182 | an eviction takes out exactly the paths of which a key left the policy, none when usage is low enough, and leaves every other in agreement with its flat file |
| `CacheRuns.Perform` | cache/cache_manager.cc:81-182 | one read, write, flush, prefetch or eviction keeps every live path in agreement with its flat file and every evicted one evicted |
| `CacheRuns.Replay` | cache/cache_manager.cc:81-182 | any run of such steps on any number of paths without backend copy has the outcomes of one flat file for each path, -ENOENT once it was evicted |
| `CacheRuns.FreshFollows` | cache/cache_manager.cc:47-50 | such a run can start: on a new manager every path follows the empty file, and every key decodes to an entry |
| `CacheRuns.ReadElsewhere` | cache/cache_manager.cc:98-99 | a byte written to one path is read from another, never written path iff one is the other behind a leading slash; else that read fails |
| `CacheRuns.SharedMirrorName` | cache/cache_manager.cc:130-131 | "/a" and "a" share a mirror file, "/d/f" and "/e/f" do not |
| `CacheRuns.WriteEvictRead` | cache/cache_manager.cc:166-182 | on a new manager, after a write of up to one block and an eviction the path answers -ENOENT iff block and data were more than the target, and else holds what was written |
| `RemoteRuns.ServeAll` | cache/cache_manager.cc:81-210 | over a run of reads, writes, flushes and prefetch jobs on a new manager, each path holds what its own steps leave, and each call was answered from there |
| `RemoteRuns.ReplayRemote` | cache/cache_manager.cc:81-210 | in such a run every read shows the last byte written at each address, and on a path with a backend copy and no write it shows that copy but for skipped blocks, with the exact condition for POSIX |
| `RemoteRuns.FirstRead` | cache/cache_manager.cc:81-119 | on a new manager a read inside a backend file returns exactly its range and schedules one prefetch after each block but the first |
| `HttpRange.HandleDataRequest` | backend/local_server.py:123-176 | 404, 500, the whole file where there is no byte range, and the three outcomes of a parsed range: the bytes asked for with their number, the rest of the file behind a Content-Length of -1, or an answer that breaks off |
| `HttpRange.RespondBytes` | backend/local_server.py:145-160 | which of the three outcomes a parsed range has, by how far its start lies past the last position served |
| `HttpRange.ParsePrinted` | backend/http_backend.cc:72-75 | the server parses the printed range back to its first and last position |
| `HttpRange.RangeServed` | backend/local_server.py:133-160 | print, parse and clamp: a range that starts at or below the end of the file gets exactly the bytes asked for that the file has; past the end the Content-Length is negative, and from two past the end the answer breaks off |
| `HttpRange.Download` | backend/http_backend.cc:63-98 | request, response and collecting callback together, for every way to cut up the body: the buffer holds exactly the bytes asked for that the file has, the rest of it is unchanged; -1 iff the file is missing or a non-empty range starts past its end |
| `HttpRange.EveryCut` | backend/http_backend.cc:21-30 | every sequence of chunks is a way to cut up its concatenation |
| `HttpRange.InvertedRange` | backend/local_server.py:145-160 | a request whose end precedes its start gets nothing when the two are adjacent, the rest of the file when one position lies between them, and else an answer that breaks off |
| `HttpRange.PositionsServed` | backend/local_server.py:136-160 | exactly when a request for two positions is answered with those bytes, and exactly when the Content-Length is right as well |
| `HttpRange.OpenRange` | backend/local_server.py:138-143 | a range without end, with or without its dash, parses as open, and from a start at or below the end of the file it is answered with the rest of it |
| `HttpRange.HeaderNoise` | backend/local_server.py:134-136 | white space around a range header and the case of its unit do not matter |
| `HttpRange.MalformedRange` | backend/local_server.py:136-138 | the server answers 500 iff a position is neither left out nor a number |
| `HttpRange.OtherUnit` | backend/local_server.py:133-135 | a header in another unit is ignored |
| `HttpRange.SuffixRange` | backend/local_server.py:136-138 | a suffix range is answered with the first bytes; this is right iff the file is no longer than the suffix |
| `HttpRange.SliceWriter.WriteSlice` | backend/http_backend.cc:21-30 | the buffer holds what fits of old contents and chunk; the whole chunk is reported as consumed |
| `HttpRange.SliceWriter.Collect` | backend/http_backend.cc:83-97 | for every chunking the buffer holds the first cap bytes of the body |
| `HttpRange.UploadBuf.ReadUpload` | backend/http_backend.cc:39-48 | the next consecutive piece, at most as long as asked for |
| `HttpRange.UploadBuf.Emit` | backend/http_backend.cc:39-48 | for every sequence of requests the pieces concatenate to a prefix, complete once enough was asked for |
| `JsonScan.RecordText` | backend/local_server.py:38-43 | the text of a record in full |
| `JsonScan.EscapingIsUndone` | backend/local_server.py:17-21 | every printed name reads back as the name, by the escapes of section 7 of RFC 8259 |
| `JsonScan.FindJsonNames` | fuse/fuse.cc:90-124 | the scanner's loop terminates on every text and adds the names the value model finds |
| `JsonScan.ListScan` | backend/local_server.py:112-119 | on a printed list the scanner finds, for each record, the escaped name up to its first quote, and nothing else |
| `JsonScan.NamesComeBack` | fuse/fuse.cc:90-124 | on every printed list the scanner returns exactly the set of names iff no name needs JSON escaping |
| `JsonScan.GetFileInfo` | fuse/fuse.cc:126-171 | size and flag of the value model, failure and `stoi` exception included |
| `JsonScan.InfoComesBack` | backend/local_server.py:38-43 | for every record whose text fits the buffer, whatever its name, size and directory flag come back; a size above 2^31-1 throws |
| `JsonScan.InfoCut` | fuse/fuse.cc:126-171 | what comes back from the first characters of a record, wherever they end: an empty file, an exception, or the digits received, with the directory flag only if at most the closing brace is missing |
| `JsonScan.InfoExact` | fuse/fuse.cc:126-171 | for every record, size and flag come back iff the size fits an int and the text fits the buffer up to its closing brace, or it is no directory and its digits fit, or it is empty and not even the colon fits |
| `JsonScan.NamesCut` | fuse/fuse.cc:284-290 | a listing that was cut off loses names, but no name is invented |

## Left out

- CacheManager.CacheManager.Read: requires that no other path of the run has the same hash, because colliding paths share part files in the source.
- CacheManager.CacheManager.Write: requires the absence of hash collisions as well, and does not model disk errors or short writes.
- CacheManager.CacheManager.EvictUntilGb: stops at an address that is no entry's, because the source dereferences it there; every finished prefetch that fetched a block puts such an address into the policy. A prefetch running at the same time is not modelled.
- CacheManager.CacheManager.RunPrefetch: a whole job between two calls; the interleaving of its steps with reads is in `ConcurrentReads`, which does not model the policy.
- CacheManager.CacheManager.EvictPath: does not model the removal of emptied shard directories.
- ReadThrough.ReadThroughExact: requires that neither the stored bytes nor the mirror reach past the backend file (the mirror past its last block), as is the case until the path is written.
- RemoteWrites.WriteFollowsIff: one write; over runs, only the written addresses are followed (`RemoteWrites.ReadLastWrite`).
- CacheRuns.Replay: which paths an eviction takes is left open; with evictions in the run, handles and block indices have to fit 32 bits; paths that the file system resolves to one mirror file in other ways than a leading slash are assumed away.
- RemoteRuns.ReplayRemote: evictions are not steps of the run, because after a prefetch the eviction loop may meet a foreign address; a job runs whole between two calls.
- Holes.PosixAfterRun: prefetch iterations run between calls; their interleaving with the steps of a read is in `ConcurrentReads`.
- ConcurrentReads.ConcurrentReadThrough: covers read-only runs on one path; a prefetch job races with foreground writes in the source, and no agreement holds there.
- HttpRange.HandleDataRequest: the text of error responses is not modelled; `int` is modelled on digit strings only; signs, blanks, underscores and Unicode white space around the header are not modelled.
- HttpRange.Download: libcurl is taken to fail on an error status and on a negative Content-Length before it delivers any of the body; the server sends the latter exactly for ranges that start past the end of the file, or more than one past their own end.
- LruPolicy.Policy.Evict: scores are exact reals; the rounding of `double` is not modelled.
- JsonScan.FindJsonNames: takes the downloaded text; of a listing cut off at the 64 KiB buffer only `JsonScan.NamesCut` speaks, and names are Unicode scalar strings.
- Mirror paths that coincide with shard files, negative offsets, overflow of 64-bit offsets and concurrent calls of `evict_until_gb` are assumed away.
- The SQLite metadata table, libcurl set-up, authentication, uploads and deletions over HTTP: thin wrappers over unseen libraries.
- The FUSE callbacks, path helpers, `main` functions and legacy shims: system calls and wiring.
- `TimePolicy`: a single map scan that the manager does not use.
- The weighted score, TTL heap, retries and write-back of the project description: not implemented in the source.
