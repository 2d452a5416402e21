# thur block engine: verified model

A Dafny 4.11 model of thur's block-volume storage engine (`core/block`) and of the tape
block index (`core/stream`), with proofs.  `dafny verify dfyconfig.toml` checks all of it.

The engine is a write-back page cache over a sparse page table, over a content-addressed
chunk pool, with asynchronous uploads to object storage and an evictor that deletes pool
files.  The layers guard each other with small pieces of state: version counters, the
LocalOnly/Uploaded sidecar, the pending and failed sets, a supersession check, and pins
that are the conjunction over every page naming a chunk.  What they promise only appears
when they are composed, so the model has three levels.

- **Byte files.** `PageIndex`, `LruIndex`, `UploadIndex` and `BlockIndex` are byte sequences
  with positional reads and writes; each is proved to refine a map, a set or a sequence.
- **Objects.** `CacheInner` (the intrusive LRU list), `ChunkStore` (pool, storage, budget),
  `VolumeWriter`, `PageCache`, `Clone`, `DiskCache` and `EvictionPass` are the source's
  mutable objects and loops.  `PoolEviction` runs the evictor against live caches that share
  a store, and `HostRun` runs everything against a flat byte array.
- **State machines.** `Protocol` (uploads, completions, eviction, clones, snapshots, restarts
  over any number of volumes), `FlushRace` (the flush split at its lock boundaries),
  `FenceWakeup` and `SingleFlight` (notification) quantify over every interleaving of steps.

`Writer.View()` is a volume of `Protocol`, and the writer's methods promise the protocol's
own transition functions.  An object's `Valid()` is what holds always; `Writer.Backed()` is
the protocol's invariant for that volume, which the code keeps only under a discipline, so
contracts say when it is kept.

Idealisations: the content hash is injective, so a chunk is keyed by its payload, tagged by
backend and pool namespace; a sealed payload opens only under the key, page and salt it was
sealed with; storage only grows.  Backpressure timeouts, racing refetches, pool and storage
faults, and failed writes of `pages.idx`, `upload.idx` and the manifest are nondeterministic
choices; a writer declared `reliable` has no failed index, sidecar or manifest write.
Assumed to succeed: reads of `pages.idx` outside a completion, fsyncs, and the LRU touches,
whose errors the source only logs.  What the worker does, and in which order, is a parameter.

## Main results

- `Protocol.StepKeepsInvIff`, `Protocol.NoOnlyCopyLoss`: every chunk a page index names is in
  the pool or in storage and its volume can open it, in every run of a stated discipline; and
  one step keeps the invariant exactly if it is disciplined.  A completion is three unlocked
  steps: check, flip, done.
- `HostRun.Run`: any run of reads, writes, compare-and-writes, unmaps, flushes, fences, cache
  evictions, upload-worker moves and pool evictions, at any budget, answers as a flat byte
  array does; with reliable devices and undivided completions it keeps the protocol invariant.
- `PageCache.Cache.SynchronizeBytes` with `Protocol.CleanFenceIsDurable`: a fence that reports
  success in storage mode is honest whenever the protocol invariant holds.
- `FlushRace.NoWriteLost`: the version-guarded flush loses no write under its discipline, and
  each of its three clauses is necessary.
- `PoolEviction.EvictPool`, `EvictionPass.PassIsEvictStep`: a pass over a shared pool changes
  no byte any volume's host sees and is an eviction step of the protocol.
- `Clone.CloneOnePageInto`, `Clone.ClonePageRangeInto`: a clone preserves plaintext on every
  branch; the rebind test is exact (`Volume.RebindSoundIff`).
- `HostRun.SnapshotRunRestore`, `Protocol.SnapshotRestoreRoundTrip`: restore undoes any run.
- `DiskCache.ClearIff`, `EvictionPass.TriedIff`: exactly what the evictor may remove, and
  exactly how much it removes.

## Where the code does not keep a promise

Each of these is a concrete input plus a condition that decides the matter for all inputs.

- A completion checks the index, flips the sidecar and clears the pending mark without a lock.
  A write to the page in between is recorded Uploaded, or dropped from the pending set, before
  its own upload: the next fence comes back clean and the next pass may delete the only copy.
  It is harmless exactly if storage held the new chunk already (`ProtocolLimits.RaceSafeIff`,
  `RaceLoses`, `CompletionRaceExample`).
- A write that fails between the page-index write and the LocalOnly mark leaves the page bound
  and unprotected, unless it was LocalOnly and tracked before or its chunk is stored
  (`Protocol.UnmarkedKeepsIff`, `ProtocolLimits.UnmarkedLoses`).
- An unmap or a rebind drops the cached page first, so if the index write then fails the page
  reads as it was last flushed (`PageCache.Cache.UnmapFullPage`, `RebindPage`).
- A restore whose index copy fails leaves a mixture of old and frozen pages
  (`PageCache.Cache.RestoreFromSnapshot`).
- A page reloaded after eviction restarts at version 0, so a second flush of a page in flight,
  or an unmap under one, can lose a later write, as can 2^64 writes during one flush
  (`FlushRace.OverlappingFlushCanLose`, `UnmapUnderFlightCanLose`, `WrapAroundCanLose`).
- A chunk that was evictable when the pass looked and is re-sealed before it is unlinked is
  lost exactly if storage does not hold it (`ProtocolLimits.StaleRemovalSafeIff`).
- With the upload channel closed, a write is recorded Uploaded without a PUT; safe exactly if
  the chunk was in storage already (`ProtocolLimits.ClosedChannelSafeIff`).
- The eviction walk skips, rather than pins, a volume whose manifest, `pages.idx` or `lru.idx`
  fails to open, so it can delete an only copy (`DiskCache.SkippedVolumeLosesOnlyCopy`);
  removal is safe exactly if the walk missed no LocalOnly page (`DiskCache.ClearIsSafeIff`).
- The pass's running subtraction wraps when it has freed more than the recorded usage; it then
  removes every candidate (`EvictionPass.TriedIff`, `OvershootExample`).
- Unlinking a file that is already gone releases its bytes a second time
  (`ChunkStore.Store.Remove`, `ChunkStore.LateReleaseIff`).
- The budget recount is exact only if no unreached namespace holds bytes
  (`EvictionPass.RefreshIsExactIff`).
- A `pages.idx` torn inside a record resurrects that record when the file grows over it
  (`PageIndex.OtherSlotIs`).
- A volume whose size is not a whole number of pages has a tail that is writable in the cache
  and can never be flushed (`Paging.EveryByteFlushableIff`, `PageCache.Cache.FlushPagesInRange`).
- The page count of a shrink to exactly 2^32 pages is cast to 0 and drops the whole page table;
  this needs a volume created before sizes were checked (`VolumeWriter.ShrinkIsSafe`).
- A run of one record at address 2^64 - 1 passes the block index's wrapped bound check and
  decodes header bytes (`BlockIndex.WrappedRunReadsHeader`).
- Cloning a range forward over itself repeats its beginning (`Clone.RangeIsCopyIff`).

## Model

| member | source | states |
|---|---|---|
| `Protocol.SealedOkIff` | core/block/src/uploader.rs:1256-1317 | Sealing a chunk into the pool and binding the page LocalOnly keeps every page backed and tracked if and only if the chunk is stored or no completion of the page is past its check. |
| `Protocol.BoundOkIff` | core/block/src/uploader.rs:1291-1317 | Binding without the mark keeps the volume good if and only if the chunk is stored, or the page was LocalOnly and tracked already with no completion past its check. |
| `Protocol.TrackingOk` | core/block/src/uploader.rs:176-225 | A change of the pending and failed sets alone keeps the volume good when no page is left untracked. |
| `Protocol.CheckedOk` | core/block/src/uploader.rs:896-907 | However late or stale a completion is, its check keeps the volume good: it goes on only if the index names the uploaded chunk. |
| `Protocol.FlippedOk` | core/block/src/uploader.rs:908-908 | The flip, which does not look at the index again, keeps a good volume good. |
| `Protocol.FlipFailedOk` | vsa/daemon/src/upload_worker.rs:236-245 | A flip that fails marks the page failed and keeps the volume good. |
| `Protocol.FinishedOk` | core/block/src/uploader.rs:909-909 | Clearing the pending and failed marks keeps a good volume good. |
| `Protocol.AppliedOk` | core/block/src/uploader.rs:1352-1367 | The inline write's whole completion keeps the volume good. |
| `Protocol.UnmappedOk` | core/block/src/cache.rs:1381-1388 | Clearing a slot keeps the volume good even though its sidecar state stays. |
| `Protocol.ReboundOk` | core/block/src/cache.rs:1791-1828 | Binding a page to a stored chunk, or to nothing, and recording it Uploaded keeps the volume good. |
| `Protocol.RebindCarriesOver` | core/block/src/cache.rs:1757-1813 | When the rebind test passes for a clean uploaded page, the destination opens the same entry to the same plaintext and its chunk is in storage under the destination's key. |
| `Protocol.EvictKeeps` | core/block/src/disk_cache.rs:267-395 | Removing any set of chunks that no LocalOnly or unreadable page names keeps every volume backed. |
| `Protocol.RestartKeeps` | vsa/daemon/src/upload_worker.rs:268-352 | A restart with the boot-time scan puts every surviving LocalOnly page back under a task and keeps the invariant. |
| `Protocol.SealKeepsIff` | core/block/src/uploader.rs:1256-1317 | In a good system the write step keeps the invariant if and only if it writes a stored chunk or no completion of the page is past its check. |
| `Protocol.UnmarkedKeepsIff` | core/block/src/uploader.rs:1291-1317 | A write whose mark fails keeps the invariant if and only if the chunk is stored or the page was protected already. |
| `Protocol.StepKeepsInvIff` | core/block/src/uploader.rs:834-911 | Each of the eighteen steps (seal, enqueue, unmarked seal, PUT success and failure, check, flip and its failure, done, retry, unmap, rebind, hole clone, refetch, eviction pass, snapshot, restore, restart) keeps the system invariant if and only if it is disciplined; only the two kinds of write can fail to be. |
| `Protocol.RunKeepsInv` | core/block/src/uploader.rs:834-1391 | So does every disciplined run of them, over any number of volumes sharing namespaces. |
| `Protocol.NoOnlyCopyLoss` | core/block/src/disk_cache.rs:601-639 | After every disciplined run every chunk a page index names is in the pool or in storage, and its volume opens it. |
| `Protocol.CleanFenceIsDurable` | core/block/src/uploader.rs:257-280 | After every disciplined run a range with nothing pending, failed or in progress names only chunks in storage. |
| `Protocol.SnapshotRestoreRoundTrip` | core/block/src/cache.rs:971-1074 | A snapshot after a disciplined run, then any run, disciplined or not, with evictions and restarts, then restore: the index is the frozen one and all its chunks are stored and open. |
| `ProtocolLimits.RaceSafeIff` | core/block/src/uploader.rs:896-909 | Writing and enqueueing a page under a completion past its check, then letting that completion end, keeps the invariant if and only if the new chunk was in storage. |
| `ProtocolLimits.RaceLoses` | core/block/src/uploader.rs:896-909 | Otherwise a fence over the page is clean although its chunk is not stored; if the flip was still to come and no other page names the chunk, the next pass may delete the only copy. |
| `ProtocolLimits.CheckedSystemArises` | core/block/src/uploader.rs:1147-1336 | Four disciplined steps from an empty volume reach a completion that has just passed its check. |
| `ProtocolLimits.CompletionRaceExample` | vsa/daemon/src/upload_worker.rs:105-130 | From there one write is fenced clean, evicted and lost. |
| `ProtocolLimits.UnmarkedLoses` | core/block/src/uploader.rs:1291-1317 | An undisciplined unmarked write names an unstored chunk; an untracked page is fenced clean at once, one under a completion once that ends, and one that was not LocalOnly may lose its only copy to the next pass. |
| `ProtocolLimits.StaleRemovalSafeIff` | core/block/src/disk_cache.rs:350-389 | A removal decided before a write's mark loses data if and only if that write sealed the very chunk and storage lacks it; only that page is lost. |
| `ProtocolLimits.StaleRemovalExample` | core/block/src/disk_cache.rs:350-389 | A concrete system in which it does. |
| `ProtocolLimits.ClosedChannelSafeIff` | core/block/src/uploader.rs:1337-1346 | The closed-channel branch keeps the invariant if and only if the chunk was already stored. |
| `ProtocolLimits.ClosedChannelThenEvictLoses` | core/block/src/uploader.rs:1337-1346 | Otherwise the next pass may delete the only copy. |
| `FlushRace.StepKeepsGood` | core/block/src/cache.rs:1404-1497 | With one flush in flight per page, no unmap under it and fewer than 2^64 writes during it, every step, a flush failing before or after its index write included, keeps each clean cached page equal to what the index resolves to, and what the host reads equal to what it wrote. |
| `FlushRace.NoWriteLost` | core/block/src/cache.rs:1602-1641 | The same over every run, for flushes and dirty evictions split into snapshot, write and commit. |
| `FlushRace.RedirtiedPageSurvivesCommit` | core/block/src/cache.rs:1621-1640 | A page rewritten during its flush stays cached and dirty, and the commit changes nothing. |
| `FlushRace.VersionMatchIffUntouched` | core/block/src/cache.rs:1450-1497 | Versions match at commit if and only if no host write came in between, wrap-around included. |
| `FlushRace.OverlappingFlushCanLose` | core/block/src/cache.rs:1404-1497 | From any good state, starting a second flush of a page in flight leads to a run that loses a write. |
| `FlushRace.UnmapUnderFlightCanLose` | core/block/src/cache.rs:1381-1388 | So does unmapping a page in flight. |
| `FlushRace.WrapAroundCanLose` | core/block/src/cache.rs:1450-1497 | So does the write that brings the version counter round to the value the flush remembers. |
| `FlushRace.OrphanedStateArises` | core/block/src/cache.rs:1229-1276 | A concrete run of a flush and an eviction of one page leaves a flight whose page is gone. |
| `FlushRace.ReusedVersionLosesWrite` | core/block/src/cache.rs:1229-1276 | From there one reload and one write repeat the version, and the write is lost. |
| `FenceWakeup.NoLostWakeup` | core/block/src/uploader.rs:176-280 | In every run, a parked waiter nobody notified has a pending and no failed page in its range, or a notification is still owed. |
| `SingleFlight.NoStrandedFollower` | core/block/src/cache.rs:1157-1223 | In every run, a parked follower's leader has yet to notify, and no page has two loads running. |
| `CacheInner.UnlinkKeepsLinks` | core/block/src/cache.rs:168-199 | Removing one element re-links its neighbours and the ends so both link directions spell the sequence without it. |
| `CacheInner.PushKeepsLinks` | core/block/src/cache.rs:203-222 | Pushing an element makes both link directions spell the longer sequence. |
| `CacheInner.CacheInner.LruUnlink` | core/block/src/cache.rs:168-199 | The list becomes the sequence without the page; a page off the list is left alone; no body changes. |
| `CacheInner.CacheInner.LruPushFront` | core/block/src/cache.rs:203-222 | The list becomes the page followed by the old sequence, or stays if the page is not cached. |
| `CacheInner.CacheInner.LruTouch` | core/block/src/cache.rs:228-234 | The page moves to the front and the rest keeps its order. |
| `CacheInner.CacheInner.DropEntry` | core/block/src/cache.rs:241-250 | The page leaves the map, the list and the dirty set, and nothing else does. |
| `CacheInner.CacheInner.InvalidateAll` | core/block/src/cache.rs:258-263 | Map, list and dirty set are empty. |
| `CacheInner.CacheInner.LruPick` | core/block/src/cache.rs:268-278 | The least recently used page, or the least recently used clean one, or none if there is none. |
| `Volume.RebindSoundIff` | core/block/src/cache.rs:1688-1701 | The test passes if and only if everything the source opens at its page, the destination opens at its own page to the same bytes. |
| `Volume.OpenOfSeal` | core/block/src/uploader.rs:1469-1540 | What a volume seals at a page it opens at that page, to the same bytes, encrypted or not. |
| `Volume.SamePoolSameChunk` | core/block/src/volume.rs:479-504 | Volumes on one backend with one pool namespace key the same payload to the same chunk. |
| `ChunkStore.Store.Seal` | core/block/src/uploader.rs:1202-1254 | Seals a chunk; on success it is in the pool, on failure the pool is unchanged, and either way reserved bytes equal resident bytes per namespace and in total. |
| `ChunkStore.Store.Fetch` | core/block/src/uploader.rs:1469-1540 | A miss warms the pool and reserves once, also when a concurrent refetch got there first; not-found only if no copy exists. |
| `ChunkStore.Store.Put` | shared/upload-worker/src/inert.rs:42-105 | An upload reports success only with the chunk in storage. |
| `ChunkStore.Store.Remove` | core/block/src/disk_cache.rs:350-389 | Unlinks and releases, or changes nothing; the counts stay exact if and only if the file was there, or the chunk or the remaining pool has no bytes. |
| `ChunkStore.ReserveThenRelease` | shared/pool/src/budget.rs:86-104 | A reservation given back leaves every namespace's count as it was. |
| `ChunkStore.LateReleaseIff` | shared/pool/src/lib.rs:514-521 | Releasing a file that was already gone keeps the counts exact if and only if the chunk or the pool is empty of bytes. |
| `VolumeWriter.Writer.SealAndBind` | core/block/src/uploader.rs:1166-1317 | Success binds the page to an entry that opens to exactly the bytes, LocalOnly; failure changes nothing or leaves the page bound and unmarked; in each case exactly when every page stays backed. |
| `VolumeWriter.Writer.BindAndMark` | core/block/src/uploader.rs:1291-1317 | The index write, then the sidecar mark, either of which may fail, and exactly when every page stays backed. |
| `VolumeWriter.Writer.WritePageUnsynced` | core/block/src/uploader.rs:1147-1391 | Success: the page resolves to the bytes, every other page as before, and it is pending with its task queued, or without a worker is uploaded; every page stays backed if and only if the chunk is stored or no completion is past its check. Failure: unchanged, bound and LocalOnly, or bound and unmarked. |
| `VolumeWriter.Writer.Enqueue` | core/block/src/uploader.rs:1328-1336 | The page is pending, no longer failed, and a task for its current chunk is queued. |
| `VolumeWriter.Writer.UploadInline` | core/block/src/uploader.rs:1352-1367 | Without a worker: the outcome is applied, or on failure nothing changes and the page stays LocalOnly. |
| `VolumeWriter.Writer.MarkFailed` | core/block/src/uploader.rs:214-225 | The page moves from pending to failed. |
| `VolumeWriter.Writer.RestoreTable` | core/block/src/cache.rs:1049-1070 | Success: the table is the frozen one, nothing is LocalOnly or failed, and every page is backed if and only if every frozen chunk is stored. Failure: each slot is the old, the frozen or an empty one. |
| `VolumeWriter.Writer.RebindPage` | core/block/src/cache.rs:1798-1828 | Success binds or clears the page and records it Uploaded; each failing write leaves exactly its own part undone; a stored chunk keeps every page backed. |
| `VolumeWriter.Writer.ClearPage` | core/block/src/cache.rs:1381-1388 | The slot is cleared and the sidecar left as it was, or nothing changes; every page stays backed. |
| `VolumeWriter.Writer.HighestAllocatedPage` | core/block/src/page_index.rs:408-415 | The largest allocated page, or none. |
| `VolumeWriter.Writer.TruncateFrom` | core/block/src/page_index.rs:427-436 | Exactly the pages below remain, and stay backed. |
| `VolumeWriter.Writer.ApplyPageUploadOutcome` | core/block/src/uploader.rs:1352-1367 | The inline completion: a superseded chunk changes nothing; otherwise the page is Uploaded and no longer tracked, unless the sidecar write fails. |
| `VolumeWriter.Writer.UploadTask` | vsa/daemon/src/upload_worker.rs:222-235 | Any queued task, in any order, leaves an outcome for a stored chunk or marks its page failed. |
| `VolumeWriter.Writer.CheckOutcome` | core/block/src/uploader.rs:896-907 | A completion goes on only if the index still names its chunk; a failed index read marks the page failed. |
| `VolumeWriter.Writer.FlipOutcome` | core/block/src/uploader.rs:908-908 | The page is recorded Uploaded whatever it holds by now, or marked failed; backed pages stay backed. |
| `VolumeWriter.Writer.FinishOutcome` | core/block/src/uploader.rs:909-909 | The pending and failed marks are cleared; backed pages stay backed. |
| `VolumeWriter.Writer.CompleteOutcome` | core/block/src/uploader.rs:881-911 | The three moves in a row leave no completion under way. |
| `VolumeWriter.Writer.Work` | vsa/daemon/src/upload_worker.rs:172-256 | No move of the worker changes the page table or the pool, and none breaks the protocol invariant. |
| `VolumeWriter.Writer.WaitForRange` | core/block/src/uploader.rs:257-280 | Clean means nothing in range is pending or failed; Failed means some page is; meanwhile the worker made any moves. |
| `VolumeWriter.Writer.RetryFailedUploadsInRange` | core/block/src/uploader.rs:834-863 | Exactly the failed pages of the range leave the failed set; those still allocated are pending with a queued task for their current chunk. |
| `VolumeWriter.Writer.DrainedIsStored` | core/block/src/uploader.rs:257-280 | With every page backed, nothing pending, failed or unsettled in a range means all its chunks are in storage. |
| `VolumeWriter.Writer.ReadPage` | core/block/src/uploader.rs:1438-1540 | Nothing for a hole, else exactly what the page resolves to; never a decryption failure, and never not-found while every page is backed. |
| `VolumeWriter.Writer.SetSize` | core/block/src/uploader.rs:994-1056 | Succeeds only for an allowed size, and for every allowed one if no write fails; keeps every allocated page unless the page count overflows its 32-bit cast; pages past the new end are holes. |
| `VolumeWriter.ShrinkIsSafe` | core/block/src/uploader.rs:1042-1052 | If the current size is addressable the cast never wraps; it wraps exactly for a shrink to 2^32 pages. |
| `VolumeWriter.Writer.MinSizeToFit` | core/block/src/uploader.rs:1065-1072 | The least page count that holds every allocated page, in bytes that fit 64 bits. |
| `VolumeWriter.MinSizeIsAllowed` | core/block/src/uploader.rs:1057-1072 | A shrink to it is accepted if and only if the volume is not write-once. |
| `Paging.FitsIff` | core/block/src/volume.rs:758-764 | The check passes if and only if the volume has at most 2^32 pages of bytes. |
| `Paging.EveryByteFlushableIff` | core/block/src/uploader.rs:1102-1107 | Every advertised byte lies on a flushable page if and only if the size is a whole number of pages. |
| `Paging.InPageRun` | core/block/src/cache.rs:587-605 | Which byte offsets a run inside one page covers. |
| `PageCache.Cache.constructor` | core/block/src/cache.rs:406-435 | The budget is whole pages and at least one; the cache is empty and agrees with the index. |
| `PageCache.Cache.EvictDirty` | core/block/src/cache.rs:1450-1497 | A dirty victim is written through and dropped, or stays cached and dirty; no page's contents change. |
| `PageCache.Cache.EvictOne` | core/block/src/cache.rs:1417-1497 | Exactly one cached page goes, or the cache is empty, or the flush failed; no page's contents change. |
| `PageCache.Cache.EvictToFit` | core/block/src/cache.rs:1404-1497 | Terminates with room for the wanted pages, or with an empty cache if they exceed the whole budget; drops pages only; no page's contents change. |
| `PageCache.Cache.LoadPageMiss` | core/block/src/cache.rs:1229-1276 | Returns and caches the page's contents, zeros for a hole. |
| `PageCache.Cache.AcquirePage` | core/block/src/cache.rs:1157-1223 | Returns the page's contents, cached on return; nothing else changes. |
| `PageCache.Cache.InstallFullPage` | core/block/src/cache.rs:1281-1318 | The page's contents become the bytes, no other page changes, and a wrong size is refused. |
| `PageCache.Cache.ModifyPage` | core/block/src/cache.rs:1322-1373 | Splices the bytes into the page and changes no other. |
| `PageCache.Cache.UnmapFullPage` | core/block/src/cache.rs:1381-1388 | The page reads as zeros and is unallocated; if the clear fails it reads as last flushed, so a clean page is unchanged; no other page changes. |
| `PageCache.Cache.ReadBytes` | core/block/src/cache.rs:587-605 | Returns exactly the addressed bytes of the flat array and changes none. |
| `PageCache.Cache.WriteBytes` | core/block/src/cache.rs:612-635 | Sets exactly the addressed bytes; on failure, exactly a prefix of them. |
| `PageCache.Cache.CompareAndWriteBytes` | core/block/src/cache.rs:645-681 | True if and only if the range held the expected bytes, and then it holds the data; false changes nothing. |
| `PageCache.Cache.UnmapBytes` | core/block/src/cache.rs:690-726 | Zeroes exactly the addressed bytes; on failure a prefix, after which one page, only if its clear failed, reads as last flushed. |
| `PageCache.PickBatch` | core/block/src/cache.rs:1507-1514 | The lowest dirty pages of the range, ascending, at most the requested number. |
| `PageCache.Cache.FlushOne` | core/block/src/cache.rs:1602-1641 | A dirty page becomes clean with the index holding its contents, or stays dirty; other pages keep their state. |
| `PageCache.Cache.FlushDrain` | core/block/src/cache.rs:1549-1596 | Terminates; on success exactly the dirty pages of the range are clean; on failure the flushed ones are clean and the refused ones dirty. |
| `PageCache.Cache.FlushPagesInRange` | core/block/src/cache.rs:1507-1514 | Success leaves the index holding the contents of every page of the range, and means every flushed page was a legal page id. |
| `PageCache.Cache.PageRangeForBytes` | core/block/src/cache.rs:1123-1146 | For a non-empty range without overflow, covers the page of every addressable byte in it. |
| `PageCache.Cache.SynchronizeBytes` | core/block/src/cache.rs:863-897 | Memory mode changes nothing; disk mode: every page of the range is clean and indexed; storage mode: also every chunk is in storage, if the protocol invariant holds. Contents never change. |
| `PageCache.Cache.AwaitUploads` | core/block/src/cache.rs:971-985 | Under the protocol invariant a clean drain of a flushed range makes every page of it durable; a failed one reports a failed page. |
| `PageCache.Cache.DrainUploads` | core/block/src/cache.rs:884-896 | A failed drain hands every failed page back to the worker and still reports failure. |
| `PageCache.Cache.FlushAll` | core/block/src/cache.rs:915-937 | Success: no dirty page anywhere and, under the protocol invariant, every page durable. |
| `PageCache.Cache.LetWork` | vsa/daemon/src/upload_worker.rs:172-256 | A move of the upload worker changes nothing the host sees. |
| `PageCache.Cache.SnapshotPagesIdx` | core/block/src/cache.rs:971-997 | Success: the frozen table resolves every page to what the host saw and, under the protocol invariant, names only stored chunks. |
| `PageCache.Cache.RestoreFromSnapshot` | core/block/src/cache.rs:1031-1074 | Success: every page reads as the frozen table says, zeros elsewhere; failed uploads do not stop it, a failed flush does and changes nothing; if the copy fails, each page reads as before, as frozen, or as zeros. |
| `PageCache.Cache.SetSize` | core/block/src/uploader.rs:994-1056 | A resize changes no byte the host sees unless it empties the table, which only a shrink to 2^32 pages of an over-long volume does; after a shrink everything clean past the end reads as zeros. |
| `PageCache.Cache.RebindPage` | core/block/src/cache.rs:1791-1828 | The page reads as the bound entry opens, or as zeros; if a write fails it may read as last flushed; no other page changes. |
| `PageCache.Cache.KeptByGrowth` | core/block/src/cache.rs:800-839 | Another volume's work on a shared store leaves this cache valid and its contents unchanged. |
| `PageCache.Cache.KeptByEviction` | core/block/src/disk_cache.rs:267-395 | A removal from the pool that spares the chunks of LocalOnly pages leaves the cache valid, its contents unchanged and the protocol invariant intact. |
| `Clone.RebindableSource` | core/block/src/cache.rs:1757-1813 | On the rebind branch the destination can open the source's entry, to the source's contents. |
| `Clone.CloneOnePageInto` | core/block/src/cache.rs:1727-1829 | On every branch the destination page reads as the source page did, and no other page of either volume changes, one volume or two; a failed clone leaves it alone or, after a failed index write, uncached. |
| `Clone.ClonePages` | core/block/src/cache.rs:814-836 | Page by page, which source page each destination page holds, overlap included; a failed clone has done a prefix. |
| `Clone.ClonePageRangeInto` | core/block/src/cache.rs:800-839 | The same for byte ranges; differing page sizes are refused. |
| `Clone.RangeIsCopyIff` | core/block/src/cache.rs:820-836 | It is a plain copy if and only if it does not copy a volume's pages forward over themselves. |
| `HostRun.Perform` | core/block/src/cache.rs:587-726 | Each operation gives the flat array's answer and next state, and keeps the protocol invariant if devices are reliable and no completion is under way. |
| `HostRun.Run` | core/block/src/cache.rs:587-726 | So does any run of them, within the page budget, with flushes, fences, worker moves, cache evictions and pool evictions in between; with undivided completions the invariant holds at the end, even of a failed run. |
| `HostRun.SnapshotRunRestore` | core/block/src/cache.rs:971-1074 | Snapshot, any run with uploads and evictions that may fail half-way, restore: every page reads as before, and a protocol invariant that held before the snapshot holds after the restore. |
| `PoolEviction.WalkOf` | core/block/src/disk_cache.rs:598-639 | The walk of a live volume sees every page and describes it as the volume does. |
| `PoolEviction.ListPool` | core/block/src/disk_cache.rs:401-456 | The directory listing holds exactly the pool's files, each once. |
| `PoolEviction.RunPass` | core/block/src/disk_cache.rs:267-395 | Walk, scan and eviction composed: the store stays exact and loses only chunks the walks cleared. |
| `PoolEviction.WalkedIsSpared` | core/block/src/disk_cache.rs:275-302 | Nothing a pass removes is named by a LocalOnly page of a volume it walked. |
| `PoolEviction.EvictPool` | core/block/src/disk_cache.rs:267-395 | A pass over a pool shared by any number of live volumes: each cache stays valid, no byte of any changes, and each backed volume stays backed. |
| `DiskCache.SummaryStep` | core/block/src/disk_cache.rs:618-639 | One record keeps the maps equal to the maximum touch and the conjunction of states seen so far. |
| `DiskCache.WalkVolume` | core/block/src/disk_cache.rs:598-639 | Folding in one volume's records keeps the maps equal to their definition over all records so far. |
| `DiskCache.CollectLruTouchesAndUploadState` | core/block/src/disk_cache.rs:487-642 | The one-pass walk yields, per namespace and hash, exactly the maximum touch and the conjunction of Uploaded over all records. |
| `DiskCache.SummaryIsUnique` | core/block/src/disk_cache.rs:487-642 | The result depends on the set of records only, not on directory or record order. |
| `DiskCache.ClearPage` | core/block/src/disk_cache.rs:275-302 | A page the walk saw that names a removable chunk is Uploaded in a readable sidecar. |
| `DiskCache.ClearIff` | core/block/src/disk_cache.rs:275-302 | A chunk is removable if and only if every page seen that names it is Uploaded in a readable sidecar. |
| `DiskCache.ClearIsSafeIff` | core/block/src/disk_cache.rs:521-546 | A removable chunk is safe to remove if and only if the walk missed no LocalOnly page naming it. |
| `DiskCache.PassKeepsInv` | core/block/src/disk_cache.rs:267-395 | A pass over such chunks is an eviction step of the protocol and keeps its invariant. |
| `DiskCache.SkippedVolumeLosesOnlyCopy` | core/block/src/disk_cache.rs:521-546 | A concrete skipped volume whose only copy the pass takes. |
| `EvictionPass.ScanChunks` | core/block/src/disk_cache.rs:401-456 | Every file of every reached namespace exactly once, though volumes share namespaces. |
| `EvictionPass.OrderIs` | core/block/src/disk_cache.rs:302-318 | The removal order holds exactly the allowed chunks, once each, oldest first. |
| `EvictionPass.SortIsStable` | core/block/src/disk_cache.rs:318-318 | Equally old chunks keep their directory order. |
| `EvictionPass.StopsIff` | core/block/src/disk_cache.rs:350-353 | The wrapping test holds if and only if enough, and no more than the recorded usage, has been freed. |
| `EvictionPass.WrapStops` | core/block/src/disk_cache.rs:350-353 | The test does not depend on whether the freed counter wrapped. |
| `EvictionPass.TriedIff` | core/block/src/disk_cache.rs:350-353 | The loop stops at the least sufficient run of candidates, unless that run frees more than the recorded usage and is not the last; then it takes them all. |
| `EvictionPass.OvershootExample` | core/block/src/disk_cache.rs:350-353 | Sizes 20 and 1 with usage 10 and cap 5: one removal suffices and two happen. |
| `EvictionPass.DiskCacheManager.RemoveInOrder` | core/block/src/disk_cache.rs:348-389 | The loop tries exactly the candidates `Tried` counts, vanished files included; a file that cannot be unlinked frees nothing; if all were there, pool bytes plus freed bytes are constant. |
| `EvictionPass.DiskCacheManager.EvictLruChunks` | core/block/src/disk_cache.rs:267-395 | The pool loses exactly the tried candidates that could be unlinked; if every scanned file was there, freed bytes, usage and budget agree and exact usage stays exact. |
| `EvictionPass.ExactPass` | core/block/src/disk_cache.rs:267-395 | With exact usage the pass never overshoots, ends under the cap or with nothing left, and its last removal was needed. |
| `EvictionPass.OldestFirst` | core/block/src/disk_cache.rs:318-318 | Whatever is removed was allowed and touched no later than anything allowed and untried. |
| `EvictionPass.RemovedIsAllowed` | core/block/src/disk_cache.rs:302-318 | Whatever a pass removes was scanned, passed every filter and was cleared by the walk. |
| `EvictionPass.PassIsEvictStep` | core/block/src/disk_cache.rs:267-395 | What the pass removes is an eviction step of the protocol, so the pass keeps the system invariant if the walk missed no LocalOnly page. |
| `EvictionPass.RefreshPoolBudget` | core/block/src/disk_cache.rs:50-93 | One bucket per reached namespace with its bytes, each counted once, and their total. |
| `EvictionPass.RefreshIsExactIff` | core/block/src/disk_cache.rs:50-93 | The recount equals the pool if and only if no unreached namespace holds bytes. |
| `PageIndex.DecodeOfEncodeEntry` | core/block/src/page_index.rs:277-343 | Hash and salt survive encoding. |
| `PageIndex.LegacySaltIsZero` | core/block/src/page_index.rs:277-291 | A record without a salt reads salt 0. |
| `PageIndex.GetOtherSlot` | core/block/src/page_index.rs:330-343 | A record write leaves another slot's entry alone if and only if it does not grow the file over a torn allocated record. |
| `PageIndex.OtherSlotIs` | core/block/src/page_index.rs:330-343 | What another slot reads after a record write: a torn record below it that the file grows over, else what it read before. |
| `PageIndex.TornAfterWrite` | core/block/src/page_index.rs:330-343 | Which record is torn after a write. |
| `PageIndex.TableWritten` | core/block/src/page_index.rs:330-343 | A record write on any bound file, torn or not, is one update of the map and its torn record. |
| `PageIndex.MigrateKeepsEntries` | core/block/src/page_index.rs:199-262 | Opening a version 1 file re-stamps the header and keeps every entry and the whole body. |
| `PageIndex.PageIndexFile.Create` | core/block/src/page_index.rs:175-193 | A new index is bound to its volume and empty. |
| `PageIndex.PageIndexFile.Open` | core/block/src/page_index.rs:199-262 | Refuses with the first failing header check, else opens to the entries on disk. |
| `PageIndex.PageIndexFile.Get` | core/block/src/page_index.rs:277-291 | The map's value at the page. |
| `PageIndex.PageIndexFile.SetUnsyncedSalted` | core/block/src/page_index.rs:330-343 | Updates the map at one page, and on a torn file also adopts a torn record it grows over; header untouched. |
| `PageIndex.PageIndexFile.ClearUnsynced` | core/block/src/page_index.rs:371-376 | Removes one page from the map, on torn files too; header untouched. |
| `PageIndex.PageIndexFile.TruncateFrom` | core/block/src/page_index.rs:427-436 | Keeps exactly the pages below; never grows the file. |
| `PageIndex.PageIndexFile.RestoreFrom` | core/block/src/page_index.rs:463-520 | A foreign snapshot is refused and nothing changes; else the map is the snapshot's under the live header. |
| `PageIndex.PageIndexFile.HighestAllocatedPage` | core/block/src/page_index.rs:408-415 | The largest allocated page, or none. |
| `PageIndex.ListFromIsComplete` | core/block/src/page_index.rs:560-608 | The listing holds every allocated page once, ascending, with its hash, and nothing else. |
| `PageIndex.PageIndexIter.Next` | core/block/src/page_index.rs:560-608 | The buffered iterator yields that listing element by element. |
| `PageIndex.StepRefines` | core/block/src/page_index.rs:330-520 | Each file operation on any bound file, torn or not, is the table operation. |
| `PageIndex.RunRefines` | core/block/src/page_index.rs:330-520 | So is any run of them, reopens included. |
| `PageIndex.UntornRun` | core/block/src/page_index.rs:330-520 | Without a torn record the table run is a plain map run. |
| `PageIndex.RunFromDisk` | core/block/src/page_index.rs:199-520 | The same from an arbitrary bound file on disk, through migration; from an aligned one, every page reads as a plain map says. |
| `LruIndex.TouchIsPlainWrite` | core/block/src/lru_index.rs:173-197 | A touch through the write-suppressing map has the file contents of an unconditional write, and the map stays within its cap. |
| `LruIndex.CacheIsInvisible` | core/block/src/lru_index.rs:173-263 | Over any run of touches and resets the file equals the one that always writes. |
| `LruIndex.RunReadsLastTouch` | core/block/src/lru_index.rs:202-209 | After any run each page reads its last touch since the last reset. |
| `LruIndex.LruIndexFile.OpenOrCreate` | core/block/src/lru_index.rs:113-147 | A good file opens as it is; anything else starts empty. |
| `LruIndex.LruIndexFile.TouchPage` | core/block/src/lru_index.rs:173-197 | Sets one page's timestamp in the file. |
| `LruIndex.LruIndexFile.ReadAll` | core/block/src/lru_index.rs:218-235 | The bulk read agrees with the per-page read inside and past the stored records. |
| `LruIndex.LruIndexFile.ResetToClean` | core/block/src/lru_index.rs:250-263 | Every page reads 0 again. |
| `UploadIndex.WriteSlot` | core/block/src/upload_index.rs:196-214 | Writing one state adds or removes exactly that page from the pinned set. |
| `UploadIndex.UploadIndexFile.OpenOrCreate` | core/block/src/upload_index.rs:142-176 | A good file opens as it is; anything else starts with nothing pinned. |
| `UploadIndex.UploadIndexFile.SetState` | core/block/src/upload_index.rs:196-214 | The pinned set gains or loses the page. |
| `UploadIndex.UploadIndexFile.ReadState` | core/block/src/upload_index.rs:220-227 | LocalOnly if and only if pinned. |
| `UploadIndex.UploadIndexFile.ReadAll` | core/block/src/upload_index.rs:236-245 | The bulk read agrees with the per-page read everywhere. |
| `UploadIndex.UploadIndexFile.ResetToClean` | core/block/src/upload_index.rs:261-266 | Nothing is pinned. |
| `UploadIndex.ListFromIsComplete` | core/block/src/upload_index.rs:277-323 | The listing holds every stored record once, ascending, with its state. |
| `UploadIndex.UploadIndexIter.Next` | core/block/src/upload_index.rs:298-323 | The iterator yields that listing element by element. |
| `BlockIndex.UnpackOfPack` | core/stream/src/block_index.rs:157-182 | Kind, encryption and compression survive the flag byte, which keeps its top bit clear. |
| `BlockIndex.RejectedIffReserved` | core/stream/src/compression_codec.rs:65-75 | A flag byte is rejected if and only if one of its tags is reserved. |
| `BlockIndex.DecodeOfEncode` | core/stream/src/block_index.rs:184-207 | Decode after encode is the identity on every record. |
| `BlockIndex.WriteSetsRecord` | core/stream/src/block_index.rs:323-345 | A record write appends or replaces exactly one element. |
| `BlockIndex.TruncateKeepsPrefix` | core/stream/src/block_index.rs:389-396 | Keeps a prefix; asked for more, appends the default record. |
| `BlockIndex.BlockIndexFile.OpenOrCreate` | core/stream/src/block_index.rs:247-311 | Opens exactly the empty and the well-formed files, to the records they hold. |
| `BlockIndex.BlockIndexFile.Append` | core/stream/src/block_index.rs:323-331 | The sequence gains one record at the returned address. |
| `BlockIndex.BlockIndexFile.Overwrite` | core/stream/src/block_index.rs:336-345 | Replaces one record below the end; refused past it. |
| `BlockIndex.BlockIndexFile.Read` | core/stream/src/block_index.rs:350-358 | The sequence's element, or refused past the end. |
| `BlockIndex.RunBufferIs` | core/stream/src/block_index.rs:373-384 | Below 2^64 the wrapped bound check and offset are the plain ones. |
| `BlockIndex.WrappedRunReadsHeader` | core/stream/src/block_index.rs:373-384 | One record at address 2^64 - 1 passes the check and reads header bytes. |
| `BlockIndex.BlockIndexFile.ReadRun` | core/stream/src/block_index.rs:373-384 | While address plus count stays below 2^64, one read equals the reads at each address, corrupt records included, and is refused exactly past the end. |
| `BlockIndex.BlockIndexFile.TruncateTo` | core/stream/src/block_index.rs:389-396 | The sequence has the requested length and keeps its prefix. |
| `BlockIndex.StepRefines` | core/stream/src/block_index.rs:323-396 | Each file operation is the sequence operation. |
| `BlockIndex.RunRefines` | core/stream/src/block_index.rs:323-396 | So is any run of them. |

## Left out

- Fsync and power-loss ordering: a restart in `Protocol` keeps everything written before it.
- Concurrent host operations on one page: the source declares them undefined, so `PageCache` runs operations one at a time; `FlushRace` and `SingleFlight` cover the interleavings inside the cache.
- The parallel flush cohort: `PageCache` flushes a batch one page after another; `FlushRace` interleaves flights of different pages freely.
- Liveness: no claim is made that a pending upload ever completes; a waiting fence ends its schedule as still waiting.
- Object-store backends, chunk-pool file layout, budget waiting and the cipher: idealised as sets, counters and a datatype.
- `VolumeWriter.Writer` holds the page table as a map and the LocalOnly sidecar as a set; `PageIndex` and `UploadIndex` prove separately that the byte files refine them.
- The write counter and runtime files, telemetry, alerts and manifest JSON: bookkeeping with easy claims.
- The dirty-watermark signal to the flush worker: it only decides when a flush starts.
- The tape cartridge, media changer, SCSI and daemon layers, except the upload worker's task and boot scan.
- BlockIndex.BlockIndexFile.ReadRun: says nothing about a run whose address plus count reaches 2^64, where the source's unchecked addition panics or wraps depending on the build; `WrappedRunReadsHeader` shows what wrapping does.
- EvictionPass.DiskCacheManager.EvictLruChunks: with a file that vanished after the scan it promises which chunks go, not exact counts; `ChunkStore.Store.Remove` says exactly what a vanished file costs.
- FlushRace.NoWriteLost: assumes one flush in flight per page, no unmap under it, and fewer than 2^64 writes during one flush, because the code fails without each; the lemmas beside it prove that.
- Protocol.RunKeepsInv: holds for disciplined runs only, because the code fails outside them; seal, bind and mark are one step when the mark succeeds and the upload channel is open; `ProtocolLimits` has the exact conditions outside that.
- HostRun.Run: keeps the protocol invariant only with undivided completions and reliable devices, because a write under a half-made completion breaks it; the answers need neither.
- VolumeWriter.Writer.RestoreTable: a copy that fails half-way leaves whole records old, frozen or empty; a record torn by the copy itself is not modelled.
