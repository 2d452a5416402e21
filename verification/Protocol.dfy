/**
  The upload protocol of any number of volumes sharing chunk pools, as a state machine.

  Page writes, storage uploads, their late, duplicated or stale completions, retries,
  unmaps, rebinds, pool refetches, eviction passes, snapshots, restores and restarts may
  interleave in any order.  A write is two steps: seal, bind and mark LocalOnly; then mark
  pending and enqueue.  A completion is three: check that the index still names the
  uploaded chunk; flip the sidecar to Uploaded; clear the pending mark.  No lock covers
  the three, so the guarantees hold under a discipline, `Disciplined`.
*/
module Protocol {
  import opened Bytes
  import opened Volume

  type VolId = nat

  /** An upload task or completion: its chunk is fixed when it is built. */
  datatype Task = Task(vol: VolId, page: PageId, chunk: Chunk)

  /** The table with one slot set or cleared. */
  function WithSlot(index: map<PageId, Entry>, p: PageId, e: Option<Entry>): map<PageId, Entry> {
    if e.Some? then index[p := e.value] else index - {p}
  }

  function Plus(m: multiset<PageId>, p: PageId): multiset<PageId> { m + multiset{p} }

  function Minus(m: multiset<PageId>, p: PageId): multiset<PageId> { m - multiset{p} }

  datatype Vol = Vol(
    manifest: Manifest,
    index: map<PageId, Entry>,     // pages.idx
    localOnly: set<PageId>,        // upload.idx: pages recorded LocalOnly
    pending: set<PageId>,
    failed: set<PageId>,
    writing: set<PageId>,          // writes marked LocalOnly but not yet enqueued
    checked: multiset<PageId>,     // completions past their check, not yet flipped
    flipped: multiset<PageId>)     // completions past their flip, not yet done
  {
    function ChunkOf(p: PageId): Chunk
      requires p in index
    {
      ChunkFor(manifest, index[p].payload)
    }

    /** Some completion of the page is past its check. */
    predicate Landing(p: PageId) { p in checked || p in flipped }

    predicate Tracked(p: PageId) { p in pending || p in failed || p in writing }

    /** `write_page_unsynced` up to the LocalOnly mark. */
    function Sealed(p: PageId, e: Entry): Vol {
      this.(index := index[p := e], localOnly := localOnly + {p}, writing := writing + {p})
    }

    /** `mark_pending`, as the write hands its task to the worker. */
    function Enqueued(p: PageId): Vol {
      this.(pending := pending + {p}, failed := failed - {p}, writing := writing - {p})
    }

    /** `mark_failed`. */
    function Failed(p: PageId): Vol {
      this.(pending := pending - {p}, failed := failed + {p})
    }

    /** A write whose sidecar mark fails: the page is bound and not marked. */
    function Bound(p: PageId, e: Entry): Vol {
      this.(index := index[p := e])
    }

    /** The supersession guard of `apply_page_upload_outcome`. */
    predicate Current(p: PageId, payload: Payload) { p in index && index[p].payload == payload }

    function Checked(p: PageId, payload: Payload): Vol {
      if Current(p, payload) then this.(checked := Plus(checked, p)) else this
    }

    /** The sidecar flip, whatever has happened to the page since the check. */
    function Flipped(p: PageId): Vol {
      this.(checked := Minus(checked, p), flipped := Plus(flipped, p), localOnly := localOnly - {p})
    }

    /** The sidecar write of a completion fails: the worker marks the page failed instead. */
    function FlipFailed(p: PageId): Vol {
      Failed(p).(checked := Minus(checked, p))
    }

    /** `mark_done`. */
    function Finished(p: PageId): Vol {
      this.(flipped := Minus(flipped, p), pending := pending - {p}, failed := failed - {p})
    }

    /** All three with nothing in between, as the write without a worker does. */
    function Applied(p: PageId, payload: Payload): Vol {
      if Current(p, payload)
      then this.(localOnly := localOnly - {p}, pending := pending - {p}, failed := failed - {p})
      else this
    }

    /** One page of `retry_failed_uploads_in_range`. */
    function Retried(p: PageId): Vol {
      if p in index then this.(pending := pending + {p}, failed := failed - {p}) else this.(failed := failed - {p})
    }

    function Unmapped(p: PageId): Vol {
      this.(index := index - {p})
    }

    /** Clone by index update: bind the source's entry, or clear for a hole, and record Uploaded. */
    function Rebound(p: PageId, e: Option<Entry>): Vol {
      this.(index := WithSlot(index, p, e), localOnly := localOnly - {p})
    }

    function Restored(frozen: map<PageId, Entry>): Vol {
      this.(index := frozen, localOnly := {}, failed := {})
    }

    /** A process restart and the boot-time scan: survivors go pending, strays are cleared. */
    function Restarted(): Vol {
      var survivors := localOnly * index.Keys;
      this.(localOnly := survivors, pending := survivors, failed := {}, writing := {},
            checked := multiset{}, flipped := multiset{})
    }
  }

  datatype Snapshot = Snapshot(vol: VolId, frozen: map<PageId, Entry>)

  datatype Sys = Sys(
    vols: map<VolId, Vol>,
    pool: set<Chunk>,
    storage: set<Chunk>,
    tasks: set<Task>,
    outcomes: set<Task>,           // uploads that succeeded; may be applied late or twice
    snaps: map<nat, Snapshot>)
  {
    function With(v: VolId, vol: Vol): Sys {
      this.(vols := vols[v := vol])
    }

    /** One page reference to chunk `c` that the eviction walk must respect. */
    ghost predicate References(v: VolId, p: PageId, c: Chunk) {
      v in vols && p in vols[v].index && vols[v].ChunkOf(p) == c
    }

    /** AND over references: every page naming the chunk is recorded Uploaded in a readable sidecar. */
    ghost predicate Evictable(c: Chunk, unreadable: set<VolId>) {
      forall v, p :: References(v, p, c) ==> v !in unreadable && p !in vols[v].localOnly
    }
  }

  datatype Step =
    | WriteSeal(v: VolId, p: PageId, salt: U64, bytes: seq<Byte>)
    | WriteEnqueue(v: VolId, p: PageId)
    | WriteUnmarked(v: VolId, p: PageId, salt: U64, bytes: seq<Byte>)
    | PutOk(t: Task)
    | PutFail(t: Task)
    | Check(t: Task)
    | Flip(v: VolId, p: PageId)
    | FlipFail(v: VolId, p: PageId)
    | Finish(v: VolId, p: PageId)
    | Retry(v: VolId, p: PageId)
    | Unmap(v: VolId, p: PageId)
    | Rebind(src: VolId, sp: PageId, dst: VolId, dp: PageId)
    | CloneHole(src: VolId, sp: PageId, dst: VolId, dp: PageId)
    | Refetch(v: VolId, p: PageId)
    | Evict(removed: set<Chunk>, unreadable: set<VolId>)
    | TakeSnapshot(v: VolId, id: nat)
    | Restore(v: VolId, id: nat)
    | Restart

  /** When the source takes each step. */
  ghost predicate Enabled(s: Sys, step: Step) {
    match step
    // single writer per page
    case WriteSeal(v, p, salt, bytes) => v in s.vols && p !in s.vols[v].writing
    case WriteEnqueue(v, p) => v in s.vols && p in s.vols[v].writing && p in s.vols[v].index
    case WriteUnmarked(v, p, salt, bytes) => v in s.vols && p !in s.vols[v].writing
    // the worker reads the pool file, or a storage probe finds the object already there
    case PutOk(t) => t in s.tasks && (t.chunk in s.pool || (t.chunk.ns.None? && t.chunk in s.storage))
    case PutFail(t) => t in s.tasks && t.vol in s.vols
    case Check(t) => t in s.outcomes && t.vol in s.vols
    case Flip(v, p) => v in s.vols && p in s.vols[v].checked
    case FlipFail(v, p) => v in s.vols && p in s.vols[v].checked
    case Finish(v, p) => v in s.vols && p in s.vols[v].flipped
    case Retry(v, p) => v in s.vols && p in s.vols[v].failed
    case Unmap(v, p) => v in s.vols && p !in s.vols[v].writing
    case Rebind(src, sp, dst, dp) =>
      && src in s.vols && dst in s.vols
      && sp !in s.vols[src].localOnly && dp !in s.vols[dst].writing
      && RebindOk(s.vols[src].manifest, sp, s.vols[dst].manifest, dp)
    case CloneHole(src, sp, dst, dp) =>
      && src in s.vols && dst in s.vols
      && sp !in s.vols[src].localOnly && sp !in s.vols[src].index && dp !in s.vols[dst].writing
    case Refetch(v, p) => v in s.vols && p in s.vols[v].index && s.vols[v].ChunkOf(p) in s.storage
    case Evict(removed, unreadable) => forall c :: c in removed ==> s.Evictable(c, unreadable)
    // after the drain: nothing pending, failed or in flight
    case TakeSnapshot(v, id) =>
      && v in s.vols && id !in s.snaps
      && s.vols[v].pending == {} && s.vols[v].failed == {} && s.vols[v].writing == {}
    case Restore(v, id) => v in s.vols && id in s.snaps && s.snaps[id].vol == v && s.vols[v].writing == {}
    case Restart => true
  }

  /** The chunk a write would seal. */
  function WrittenChunk(s: Sys, v: VolId, p: PageId, salt: U64, bytes: seq<Byte>): Chunk
    requires v in s.vols
  {
    ChunkFor(s.vols[v].manifest, Seal(s.vols[v].manifest, p, salt, bytes).payload)
  }

  /**
    What the surrounding code must guarantee and does not enforce: no chunk that storage
    lacks is written to a page one of whose completions is past its check, and the sidecar
    mark does not fail, unless the page is marked and tracked already.
   */
  ghost predicate Disciplined(s: Sys, step: Step)
    requires Enabled(s, step)
  {
    match step
    case WriteSeal(v, p, salt, bytes) => WrittenChunk(s, v, p, salt, bytes) in s.storage || !s.vols[v].Landing(p)
    case WriteUnmarked(v, p, salt, bytes) =>
      || WrittenChunk(s, v, p, salt, bytes) in s.storage
      || (p in s.vols[v].localOnly && s.vols[v].Tracked(p) && !s.vols[v].Landing(p))
    case _ => true
  }

  function RecoveredTasks(s: Sys): set<Task> {
    set v, p | v in s.vols && p in s.vols[v].localOnly && p in s.vols[v].index :: Task(v, p, s.vols[v].ChunkOf(p))
  }

  ghost function Do(s: Sys, step: Step): Sys
    requires Enabled(s, step)
  {
    match step
    case WriteSeal(v, p, salt, bytes) =>
      var e := Seal(s.vols[v].manifest, p, salt, bytes);
      s.With(v, s.vols[v].Sealed(p, e)).(pool := s.pool + {ChunkFor(s.vols[v].manifest, e.payload)})
    case WriteEnqueue(v, p) =>
      s.With(v, s.vols[v].Enqueued(p)).(tasks := s.tasks + {Task(v, p, s.vols[v].ChunkOf(p))})
    case WriteUnmarked(v, p, salt, bytes) =>
      var e := Seal(s.vols[v].manifest, p, salt, bytes);
      s.With(v, s.vols[v].Bound(p, e)).(pool := s.pool + {ChunkFor(s.vols[v].manifest, e.payload)})
    case PutOk(t) => s.(storage := s.storage + {t.chunk}, outcomes := s.outcomes + {t})
    case PutFail(t) => s.With(t.vol, s.vols[t.vol].Failed(t.page))
    case Check(t) => s.With(t.vol, s.vols[t.vol].Checked(t.page, t.chunk.payload))
    case Flip(v, p) => s.With(v, s.vols[v].Flipped(p))
    case FlipFail(v, p) => s.With(v, s.vols[v].FlipFailed(p))
    case Finish(v, p) => s.With(v, s.vols[v].Finished(p))
    case Retry(v, p) =>
      s.With(v, s.vols[v].Retried(p)).(
        tasks := if p in s.vols[v].index then s.tasks + {Task(v, p, s.vols[v].ChunkOf(p))} else s.tasks)
    case Unmap(v, p) => s.With(v, s.vols[v].Unmapped(p))
    case Rebind(src, sp, dst, dp) =>
      var e := if sp in s.vols[src].index then Some(s.vols[src].index[sp]) else None;
      s.With(dst, s.vols[dst].Rebound(dp, e))
    case CloneHole(src, sp, dst, dp) => s.With(dst, s.vols[dst].Rebound(dp, None))
    case Refetch(v, p) => s.(pool := s.pool + {s.vols[v].ChunkOf(p)})
    case Evict(removed, unreadable) => s.(pool := s.pool - removed)
    case TakeSnapshot(v, id) => s.(snaps := s.snaps[id := Snapshot(v, s.vols[v].index)])
    case Restore(v, id) => s.With(v, s.vols[v].Restored(s.snaps[id].frozen))
    case Restart =>
      s.(vols := map v | v in s.vols :: s.vols[v].Restarted(), tasks := RecoveredTasks(s), outcomes := {})
  }

  // ----- invariant -----

  ghost predicate PageOk(vol: Vol, pool: set<Chunk>, storage: set<Chunk>, p: PageId)
    requires p in vol.index
  {
    && Open(vol.manifest, p, vol.index[p]).Some?
    && (vol.ChunkOf(p) in storage || Guarded(vol, pool, p))
  }

  /**
    An unstored page: pinned in the pool, tracked so that a fence over it cannot come back
    clean, and safe from any completion that no longer looks at the index.
   */
  ghost predicate Guarded(vol: Vol, pool: set<Chunk>, p: PageId)
    requires p in vol.index
  {
    p in vol.localOnly && vol.ChunkOf(p) in pool && vol.Tracked(p) && !vol.Landing(p)
  }

  ghost predicate VolOk(vol: Vol, pool: set<Chunk>, storage: set<Chunk>) {
    forall p :: p in vol.index ==> PageOk(vol, pool, storage, p)
  }

  ghost predicate SnapOk(s: Sys, snap: Snapshot) {
    && snap.vol in s.vols
    && forall p :: p in snap.frozen ==>
        && Open(s.vols[snap.vol].manifest, p, snap.frozen[p]).Some?
        && ChunkFor(s.vols[snap.vol].manifest, snap.frozen[p].payload) in s.storage
  }

  ghost predicate TaskOk(s: Sys, t: Task) {
    t.vol in s.vols && t.chunk == ChunkFor(s.vols[t.vol].manifest, t.chunk.payload)
  }

  ghost predicate Inv(s: Sys) {
    && (forall v :: v in s.vols ==> VolOk(s.vols[v], s.pool, s.storage))
    && (forall t :: t in s.tasks ==> TaskOk(s, t))
    && (forall t :: t in s.outcomes ==> TaskOk(s, t) && t.chunk in s.storage)
    && (forall id :: id in s.snaps ==> SnapOk(s, s.snaps[id]))
  }

  /** A fresh system: any volumes, nothing written, any leftover chunks. */
  ghost predicate Init(s: Sys) {
    && (forall v :: v in s.vols ==> s.vols[v].index == map[])
    && s.tasks == {} && s.outcomes == {} && s.snaps == map[]
  }

  // ----- every step keeps the invariant -----

  lemma VolOkMonotone(vol: Vol, pool: set<Chunk>, storage: set<Chunk>, pool': set<Chunk>, storage': set<Chunk>)
    requires VolOk(vol, pool, storage) && pool <= pool' && storage <= storage'
    ensures VolOk(vol, pool', storage')
  {
    forall p | p in vol.index
      ensures PageOk(vol, pool', storage', p)
    {
      assert PageOk(vol, pool, storage, p);
    }
  }

  // one volume at a time

  /** A write keeps the volume good if and only if its chunk is stored or no completion is landing. */
  lemma SealedOkIff(vol: Vol, pool: set<Chunk>, storage: set<Chunk>, p: PageId, e: Entry)
    requires VolOk(vol, pool, storage) && Open(vol.manifest, p, e).Some? && ChunkFor(vol.manifest, e.payload) in pool
    ensures VolOk(vol.Sealed(p, e), pool, storage) <==> ChunkFor(vol.manifest, e.payload) in storage || !vol.Landing(p)
  {
    var vol' := vol.Sealed(p, e);
    forall q | q in vol'.index && q != p
      ensures PageOk(vol', pool, storage, q)
    {
      assert PageOk(vol, pool, storage, q);
    }
    assert PageOk(vol', pool, storage, p) <==> ChunkFor(vol.manifest, e.payload) in storage || !vol.Landing(p);
  }

  /** A bind without its mark keeps the volume good if and only if the page was covered already. */
  lemma BoundOkIff(vol: Vol, pool: set<Chunk>, storage: set<Chunk>, p: PageId, e: Entry)
    requires VolOk(vol, pool, storage) && Open(vol.manifest, p, e).Some? && ChunkFor(vol.manifest, e.payload) in pool
    ensures VolOk(vol.Bound(p, e), pool, storage) <==>
      ChunkFor(vol.manifest, e.payload) in storage || (p in vol.localOnly && vol.Tracked(p) && !vol.Landing(p))
  {
    var vol' := vol.Bound(p, e);
    forall q | q in vol'.index && q != p
      ensures PageOk(vol', pool, storage, q)
    {
      assert PageOk(vol, pool, storage, q);
    }
    assert PageOk(vol', pool, storage, p) <==>
      ChunkFor(vol.manifest, e.payload) in storage || (p in vol.localOnly && vol.Tracked(p) && !vol.Landing(p));
  }

  /** Changes that leave index and sidecar alone, drop no page from the tracking sets and start no completion. */
  lemma TrackingOk(vol: Vol, vol': Vol, pool: set<Chunk>, storage: set<Chunk>)
    requires VolOk(vol, pool, storage)
    requires vol'.manifest == vol.manifest && vol'.index == vol.index && vol'.localOnly == vol.localOnly
    requires forall p :: p in vol.index && vol.Tracked(p) ==> vol'.Tracked(p)
    requires forall p :: vol'.Landing(p) ==> vol.Landing(p)
    ensures VolOk(vol', pool, storage)
  {
    forall q | q in vol'.index
      ensures PageOk(vol', pool, storage, q)
    {
      assert PageOk(vol, pool, storage, q);
    }
  }

  /** Whatever completion arrives, however late: past its check, the page is stored. */
  lemma CheckedOk(vol: Vol, pool: set<Chunk>, storage: set<Chunk>, p: PageId, payload: Payload)
    requires VolOk(vol, pool, storage) && ChunkFor(vol.manifest, payload) in storage
    ensures VolOk(vol.Checked(p, payload), pool, storage)
  {
    forall q | q in vol.index
      ensures PageOk(vol.Checked(p, payload), pool, storage, q)
    {
      assert PageOk(vol, pool, storage, q);
    }
  }

  /** The flip does not look at the index again, and need not: an unstored page has no completion landing. */
  lemma FlippedOk(vol: Vol, pool: set<Chunk>, storage: set<Chunk>, p: PageId)
    requires VolOk(vol, pool, storage) && p in vol.checked
    ensures VolOk(vol.Flipped(p), pool, storage)
  {
    forall q | q in vol.index
      ensures PageOk(vol.Flipped(p), pool, storage, q)
    {
      assert PageOk(vol, pool, storage, q);
    }
  }

  lemma FlipFailedOk(vol: Vol, pool: set<Chunk>, storage: set<Chunk>, p: PageId)
    requires VolOk(vol, pool, storage)
    ensures VolOk(vol.FlipFailed(p), pool, storage)
  {
    TrackingOk(vol, vol.FlipFailed(p), pool, storage);
  }

  lemma FinishedOk(vol: Vol, pool: set<Chunk>, storage: set<Chunk>, p: PageId)
    requires VolOk(vol, pool, storage) && p in vol.flipped
    ensures VolOk(vol.Finished(p), pool, storage)
  {
    forall q | q in vol.index
      ensures PageOk(vol.Finished(p), pool, storage, q)
    {
      assert PageOk(vol, pool, storage, q);
    }
  }

  lemma AppliedOk(vol: Vol, pool: set<Chunk>, storage: set<Chunk>, p: PageId, payload: Payload)
    requires VolOk(vol, pool, storage) && ChunkFor(vol.manifest, payload) in storage
    ensures VolOk(vol.Applied(p, payload), pool, storage)
  {
    forall q | q in vol.index
      ensures PageOk(vol.Applied(p, payload), pool, storage, q)
    {
      assert PageOk(vol, pool, storage, q);
    }
  }

  /** A page recorded Uploaded is stored, so it no longer needs its in-progress mark. */
  lemma SettledOk(vol: Vol, pool: set<Chunk>, storage: set<Chunk>, p: PageId)
    requires VolOk(vol, pool, storage) && p !in vol.localOnly
    ensures VolOk(vol.(writing := vol.writing - {p}), pool, storage)
  {
    forall q | q in vol.index
      ensures PageOk(vol.(writing := vol.writing - {p}), pool, storage, q)
    {
      assert PageOk(vol, pool, storage, q);
    }
  }

  lemma ForgottenOk(vol: Vol, pool: set<Chunk>, storage: set<Chunk>, p: PageId)
    requires VolOk(vol, pool, storage) && p !in vol.index
    ensures VolOk(vol.(writing := vol.writing - {p}), pool, storage)
  {
    forall q | q in vol.index
      ensures PageOk(vol.(writing := vol.writing - {p}), pool, storage, q)
    {
      assert PageOk(vol, pool, storage, q);
    }
  }

  lemma UnmappedOk(vol: Vol, pool: set<Chunk>, storage: set<Chunk>, p: PageId)
    requires VolOk(vol, pool, storage)
    ensures VolOk(vol.Unmapped(p), pool, storage)
  {
    forall q | q in vol.Unmapped(p).index
      ensures PageOk(vol.Unmapped(p), pool, storage, q)
    {
      assert PageOk(vol, pool, storage, q);
    }
  }

  lemma ReboundOk(vol: Vol, pool: set<Chunk>, storage: set<Chunk>, p: PageId, e: Option<Entry>)
    requires VolOk(vol, pool, storage)
    requires e.Some? ==> Open(vol.manifest, p, e.value).Some? && ChunkFor(vol.manifest, e.value.payload) in storage
    ensures VolOk(vol.Rebound(p, e), pool, storage)
  {
    forall q | q in vol.Rebound(p, e).index
      ensures PageOk(vol.Rebound(p, e), pool, storage, q)
    {
      if q != p { assert PageOk(vol, pool, storage, q); }
    }
  }

  /** Rebinding is sound: what the source page resolves to, the destination can open, and it is stored. */
  lemma RebindCarriesOver(src: Vol, sp: PageId, dst: Manifest, dp: PageId, pool: set<Chunk>, storage: set<Chunk>)
    requires VolOk(src, pool, storage) && sp in src.index && sp !in src.localOnly && RebindOk(src.manifest, sp, dst, dp)
    ensures Open(src.manifest, sp, src.index[sp]).Some?
    ensures Open(dst, dp, src.index[sp]) == Open(src.manifest, sp, src.index[sp])
    ensures ChunkFor(dst, src.index[sp].payload) in storage
  {
    assert PageOk(src, pool, storage, sp);
    RebindSoundIff(src.manifest, sp, dst, dp);
    SamePoolSameChunk(src.manifest, dst, src.index[sp].payload);
  }

  // the whole system

  /** Replacing one volume by a good one, with pool and storage only growing, keeps the rest good. */
  lemma ReplaceVol(s: Sys, s': Sys, v: VolId, vol: Vol)
    requires Inv(s) && v in s.vols && vol.manifest == s.vols[v].manifest
    requires s'.vols == s.vols[v := vol] && s'.snaps == s.snaps && s'.outcomes == s.outcomes
    requires s.pool <= s'.pool && s.storage <= s'.storage
    requires VolOk(vol, s'.pool, s'.storage)
    requires forall t :: t in s'.tasks ==> t in s.tasks || TaskOk(s, t)
    ensures Inv(s')
  {
    forall u | u in s'.vols
      ensures VolOk(s'.vols[u], s'.pool, s'.storage)
    {
      if u != v { VolOkMonotone(s.vols[u], s.pool, s.storage, s'.pool, s'.storage); }
    }
    forall t | t in s'.tasks
      ensures TaskOk(s', t)
    {
      assert TaskOk(s, t);
    }
    forall id | id in s'.snaps
      ensures SnapOk(s', s'.snaps[id])
    {
      assert SnapOk(s, s.snaps[id]);
    }
  }

  lemma SealKeepsIff(s: Sys, v: VolId, p: PageId, salt: U64, bytes: seq<Byte>)
    requires Inv(s) && Enabled(s, WriteSeal(v, p, salt, bytes))
    ensures Inv(Do(s, WriteSeal(v, p, salt, bytes))) <==> Disciplined(s, WriteSeal(v, p, salt, bytes))
  {
    var s' := Do(s, WriteSeal(v, p, salt, bytes));
    OpenOfSeal(s.vols[v].manifest, p, salt, bytes);
    VolOkMonotone(s.vols[v], s.pool, s.storage, s'.pool, s'.storage);
    SealedOkIff(s.vols[v], s'.pool, s'.storage, p, Seal(s.vols[v].manifest, p, salt, bytes));
    if VolOk(s'.vols[v], s'.pool, s'.storage) { ReplaceVol(s, s', v, s'.vols[v]); }
  }

  lemma UnmarkedKeepsIff(s: Sys, v: VolId, p: PageId, salt: U64, bytes: seq<Byte>)
    requires Inv(s) && Enabled(s, WriteUnmarked(v, p, salt, bytes))
    ensures Inv(Do(s, WriteUnmarked(v, p, salt, bytes))) <==> Disciplined(s, WriteUnmarked(v, p, salt, bytes))
  {
    var s' := Do(s, WriteUnmarked(v, p, salt, bytes));
    OpenOfSeal(s.vols[v].manifest, p, salt, bytes);
    VolOkMonotone(s.vols[v], s.pool, s.storage, s'.pool, s'.storage);
    BoundOkIff(s.vols[v], s'.pool, s'.storage, p, Seal(s.vols[v].manifest, p, salt, bytes));
    if VolOk(s'.vols[v], s'.pool, s'.storage) { ReplaceVol(s, s', v, s'.vols[v]); }
  }

  lemma EnqueueKeeps(s: Sys, v: VolId, p: PageId)
    requires Inv(s) && Enabled(s, WriteEnqueue(v, p))
    ensures Inv(Do(s, WriteEnqueue(v, p)))
  {
    TrackingOk(s.vols[v], s.vols[v].Enqueued(p), s.pool, s.storage);
    ReplaceVol(s, Do(s, WriteEnqueue(v, p)), v, s.vols[v].Enqueued(p));
  }

  lemma PutFailKeeps(s: Sys, t: Task)
    requires Inv(s) && Enabled(s, PutFail(t))
    ensures Inv(Do(s, PutFail(t)))
  {
    TrackingOk(s.vols[t.vol], s.vols[t.vol].Failed(t.page), s.pool, s.storage);
    ReplaceVol(s, Do(s, PutFail(t)), t.vol, s.vols[t.vol].Failed(t.page));
  }

  lemma RetryKeeps(s: Sys, v: VolId, p: PageId)
    requires Inv(s) && Enabled(s, Retry(v, p))
    ensures Inv(Do(s, Retry(v, p)))
  {
    TrackingOk(s.vols[v], s.vols[v].Retried(p), s.pool, s.storage);
    ReplaceVol(s, Do(s, Retry(v, p)), v, s.vols[v].Retried(p));
  }

  lemma PutOkKeeps(s: Sys, t: Task)
    requires Inv(s) && Enabled(s, PutOk(t))
    ensures Inv(Do(s, PutOk(t)))
  {
    var s' := Do(s, PutOk(t));
    assert TaskOk(s, t);
    forall u | u in s'.vols
      ensures VolOk(s'.vols[u], s'.pool, s'.storage)
    {
      VolOkMonotone(s.vols[u], s.pool, s.storage, s'.pool, s'.storage);
    }
    forall id | id in s'.snaps
      ensures SnapOk(s', s'.snaps[id])
    {
      assert SnapOk(s, s.snaps[id]);
    }
  }

  lemma CheckKeeps(s: Sys, t: Task)
    requires Inv(s) && Enabled(s, Check(t))
    ensures Inv(Do(s, Check(t)))
  {
    assert TaskOk(s, t) && t.chunk in s.storage;
    CheckedOk(s.vols[t.vol], s.pool, s.storage, t.page, t.chunk.payload);
    ReplaceVol(s, Do(s, Check(t)), t.vol, s.vols[t.vol].Checked(t.page, t.chunk.payload));
  }

  lemma FlipKeeps(s: Sys, v: VolId, p: PageId)
    requires Inv(s) && Enabled(s, Flip(v, p))
    ensures Inv(Do(s, Flip(v, p)))
  {
    FlippedOk(s.vols[v], s.pool, s.storage, p);
    ReplaceVol(s, Do(s, Flip(v, p)), v, s.vols[v].Flipped(p));
  }

  lemma FlipFailKeeps(s: Sys, v: VolId, p: PageId)
    requires Inv(s) && Enabled(s, FlipFail(v, p))
    ensures Inv(Do(s, FlipFail(v, p)))
  {
    FlipFailedOk(s.vols[v], s.pool, s.storage, p);
    ReplaceVol(s, Do(s, FlipFail(v, p)), v, s.vols[v].FlipFailed(p));
  }

  lemma FinishKeeps(s: Sys, v: VolId, p: PageId)
    requires Inv(s) && Enabled(s, Finish(v, p))
    ensures Inv(Do(s, Finish(v, p)))
  {
    FinishedOk(s.vols[v], s.pool, s.storage, p);
    ReplaceVol(s, Do(s, Finish(v, p)), v, s.vols[v].Finished(p));
  }

  lemma UnmapKeeps(s: Sys, v: VolId, p: PageId)
    requires Inv(s) && Enabled(s, Unmap(v, p))
    ensures Inv(Do(s, Unmap(v, p)))
  {
    UnmappedOk(s.vols[v], s.pool, s.storage, p);
    ReplaceVol(s, Do(s, Unmap(v, p)), v, s.vols[v].Unmapped(p));
  }

  lemma RebindKeeps(s: Sys, src: VolId, sp: PageId, dst: VolId, dp: PageId)
    requires Inv(s) && Enabled(s, Rebind(src, sp, dst, dp))
    ensures Inv(Do(s, Rebind(src, sp, dst, dp)))
  {
    var e := if sp in s.vols[src].index then Some(s.vols[src].index[sp]) else None;
    if e.Some? { RebindCarriesOver(s.vols[src], sp, s.vols[dst].manifest, dp, s.pool, s.storage); }
    ReboundOk(s.vols[dst], s.pool, s.storage, dp, e);
    ReplaceVol(s, Do(s, Rebind(src, sp, dst, dp)), dst, s.vols[dst].Rebound(dp, e));
  }

  /** A pass removes only chunks no LocalOnly page names, so every pin survives it. */
  lemma EvictKeeps(s: Sys, removed: set<Chunk>, unreadable: set<VolId>)
    requires Inv(s) && Enabled(s, Evict(removed, unreadable))
    ensures Inv(Do(s, Evict(removed, unreadable)))
  {
    var s' := Do(s, Evict(removed, unreadable));
    forall v | v in s'.vols
      ensures VolOk(s'.vols[v], s'.pool, s'.storage)
    {
      var vol := s.vols[v];
      assert VolOk(vol, s.pool, s.storage);
      forall p | p in vol.index
        ensures PageOk(vol, s'.pool, s'.storage, p)
      {
        assert PageOk(vol, s.pool, s.storage, p);
        assert s.References(v, p, vol.ChunkOf(p));
      }
    }
    forall id | id in s'.snaps
      ensures SnapOk(s', s'.snaps[id])
    {
      assert SnapOk(s, s.snaps[id]);
    }
  }

  lemma RefetchKeeps(s: Sys, v: VolId, p: PageId)
    requires Inv(s) && Enabled(s, Refetch(v, p))
    ensures Inv(Do(s, Refetch(v, p)))
  {
    ReplaceVolSame(s, Do(s, Refetch(v, p)));
  }

  lemma ReplaceVolSame(s: Sys, s': Sys)
    requires Inv(s) && s'.vols == s.vols && s'.tasks == s.tasks && s'.outcomes == s.outcomes && s'.snaps == s.snaps
    requires s.pool <= s'.pool && s'.storage == s.storage
    ensures Inv(s')
  {
    forall u | u in s'.vols
      ensures VolOk(s'.vols[u], s'.pool, s'.storage)
    {
      VolOkMonotone(s.vols[u], s.pool, s.storage, s'.pool, s'.storage);
    }
    forall id | id in s'.snaps
      ensures SnapOk(s', s'.snaps[id])
    {
      assert SnapOk(s, s.snaps[id]);
    }
  }

  lemma SnapshotKeeps(s: Sys, v: VolId, id: nat)
    requires Inv(s) && Enabled(s, TakeSnapshot(v, id))
    ensures Inv(Do(s, TakeSnapshot(v, id)))
  {
    var s' := Do(s, TakeSnapshot(v, id));
    assert VolOk(s.vols[v], s.pool, s.storage);
    forall p | p in s.vols[v].index
      ensures s.vols[v].ChunkOf(p) in s.storage && Open(s.vols[v].manifest, p, s.vols[v].index[p]).Some?
    {
      assert PageOk(s.vols[v], s.pool, s.storage, p);
    }
    forall k | k in s'.snaps
      ensures SnapOk(s', s'.snaps[k])
    {
      if k != id { assert SnapOk(s, s.snaps[k]); }
    }
  }

  lemma RestoreKeeps(s: Sys, v: VolId, id: nat)
    requires Inv(s) && Enabled(s, Restore(v, id))
    ensures Inv(Do(s, Restore(v, id)))
  {
    var s' := Do(s, Restore(v, id));
    assert SnapOk(s, s.snaps[id]);
    forall p | p in s'.vols[v].index
      ensures PageOk(s'.vols[v], s'.pool, s'.storage, p)
    {
    }
    ReplaceVol(s, s', v, s'.vols[v]);
  }

  /** The boot scan re-arms exactly the pages a fence must still wait for. */
  lemma RestartKeeps(s: Sys)
    requires Inv(s)
    ensures Inv(Do(s, Restart))
  {
    var s' := Do(s, Restart);
    forall v | v in s'.vols
      ensures VolOk(s'.vols[v], s'.pool, s'.storage)
    {
      assert VolOk(s.vols[v], s.pool, s.storage);
      forall p | p in s'.vols[v].index
        ensures PageOk(s'.vols[v], s'.pool, s'.storage, p)
      {
        assert PageOk(s.vols[v], s.pool, s.storage, p);
      }
    }
    forall id | id in s'.snaps
      ensures SnapOk(s', s'.snaps[id])
    {
      assert SnapOk(s, s.snaps[id]);
    }
  }

  /** Every step of the code keeps the invariant if and only if it is disciplined. */
  lemma StepKeepsInvIff(s: Sys, step: Step)
    requires Inv(s) && Enabled(s, step)
    ensures Inv(Do(s, step)) <==> Disciplined(s, step)
  {
    hide Inv, Enabled, WrittenChunk;
    match step {
      case WriteSeal(v, p, salt, bytes) => SealKeepsIff(s, v, p, salt, bytes);
      case WriteUnmarked(v, p, salt, bytes) => UnmarkedKeepsIff(s, v, p, salt, bytes);
      case WriteEnqueue(v, p) => EnqueueKeeps(s, v, p);
      case PutOk(t) => PutOkKeeps(s, t);
      case PutFail(t) => PutFailKeeps(s, t);
      case Check(t) => CheckKeeps(s, t);
      case Flip(v, p) => FlipKeeps(s, v, p);
      case FlipFail(v, p) => FlipFailKeeps(s, v, p);
      case Finish(v, p) => FinishKeeps(s, v, p);
      case Retry(v, p) => RetryKeeps(s, v, p);
      case Unmap(v, p) => UnmapKeeps(s, v, p);
      case Rebind(src, sp, dst, dp) => RebindKeeps(s, src, sp, dst, dp);
      case CloneHole(src, sp, dst, dp) => CloneHoleKeeps(s, src, sp, dst, dp);
      case Refetch(v, p) => RefetchKeeps(s, v, p);
      case Evict(removed, unreadable) => EvictKeeps(s, removed, unreadable);
      case TakeSnapshot(v, id) => SnapshotKeeps(s, v, id);
      case Restore(v, id) => RestoreKeeps(s, v, id);
      case Restart => RestartKeeps(s);
    }
  }

  lemma CloneHoleKeeps(s: Sys, src: VolId, sp: PageId, dst: VolId, dp: PageId)
    requires Inv(s) && Enabled(s, CloneHole(src, sp, dst, dp))
    ensures Inv(Do(s, CloneHole(src, sp, dst, dp)))
  {
    ReboundOk(s.vols[dst], s.pool, s.storage, dp, None);
    ReplaceVol(s, Do(s, CloneHole(src, sp, dst, dp)), dst, s.vols[dst].Rebound(dp, None));
  }

  // ----- whole runs -----

  ghost predicate ValidRun(s: Sys, steps: seq<Step>)
    decreases |steps|
  {
    steps == [] || (Enabled(s, steps[0]) && ValidRun(Do(s, steps[0]), steps[1..]))
  }

  ghost function Run(s: Sys, steps: seq<Step>): Sys
    requires ValidRun(s, steps)
    decreases |steps|
  {
    if steps == [] then s else Run(Do(s, steps[0]), steps[1..])
  }

  ghost predicate DisciplinedRun(s: Sys, steps: seq<Step>)
    requires ValidRun(s, steps)
    decreases |steps|
  {
    steps == [] || (Disciplined(s, steps[0]) && DisciplinedRun(Do(s, steps[0]), steps[1..]))
  }

  lemma {:induction false} RunKeepsInv(s: Sys, steps: seq<Step>)
    requires Inv(s) && ValidRun(s, steps) && DisciplinedRun(s, steps)
    ensures Inv(Run(s, steps))
    decreases |steps|
  {
    hide Inv, Enabled, Do, Disciplined;
    if steps != [] {
      StepKeepsInvIff(s, steps[0]);
      RunKeepsInv(Do(s, steps[0]), steps[1..]);
    }
  }

  lemma InitInv(s: Sys)
    requires Init(s)
    ensures Inv(s)
  {
    forall v | v in s.vols
      ensures VolOk(s.vols[v], s.pool, s.storage)
    {
    }
  }

  /** A copy of the page's chunk exists, and the volume can open it. */
  ghost predicate Readable(s: Sys, v: VolId, p: PageId)
    requires v in s.vols && p in s.vols[v].index
  {
    && (s.vols[v].ChunkOf(p) in s.pool || s.vols[v].ChunkOf(p) in s.storage)
    && Open(s.vols[v].manifest, p, s.vols[v].index[p]).Some?
  }

  /** The last copy of a chunk that any page index names is never lost. */
  lemma NoOnlyCopyLoss(s: Sys, steps: seq<Step>, v: VolId, p: PageId)
    requires Init(s) && ValidRun(s, steps) && DisciplinedRun(s, steps)
    requires v in Run(s, steps).vols && p in Run(s, steps).vols[v].index
    ensures Readable(Run(s, steps), v, p)
  {
    InitInv(s);
    RunKeepsInv(s, steps);
    var r := Run(s, steps);
    assert VolOk(r.vols[v], r.pool, r.storage);
    assert PageOk(r.vols[v], r.pool, r.storage, p);
  }

  /** What `wait_for_range` must see to report Clean, once every write of the range is enqueued. */
  ghost predicate Drained(vol: Vol, first: PageId, last: PageId) {
    forall p :: first <= p <= last ==> !vol.Tracked(p)
  }

  /** A fence that comes back clean is honest: everything the range names is in storage. */
  lemma CleanFenceIsDurable(s: Sys, steps: seq<Step>, v: VolId, first: PageId, last: PageId)
    requires Init(s) && ValidRun(s, steps) && DisciplinedRun(s, steps)
    requires v in Run(s, steps).vols && Drained(Run(s, steps).vols[v], first, last)
    ensures forall p :: first <= p <= last && p in Run(s, steps).vols[v].index ==>
      Run(s, steps).vols[v].ChunkOf(p) in Run(s, steps).storage
  {
    InitInv(s);
    RunKeepsInv(s, steps);
    var r := Run(s, steps);
    assert VolOk(r.vols[v], r.pool, r.storage);
    forall p | first <= p <= last && p in r.vols[v].index
      ensures r.vols[v].ChunkOf(p) in r.storage
    {
      assert PageOk(r.vols[v], r.pool, r.storage, p);
    }
  }

  lemma {:induction false} RunKeepsSnapshots(s: Sys, steps: seq<Step>, id: nat, v: VolId)
    requires ValidRun(s, steps) && id in s.snaps && v in s.vols
    ensures
      var r := Run(s, steps);
      && id in r.snaps && r.snaps[id] == s.snaps[id] && s.storage <= r.storage
      && v in r.vols && r.vols[v].manifest == s.vols[v].manifest
    decreases |steps|
  {
    if steps != [] {
      StepKeepsSnapshots(s, steps[0], id);
      StepKeepsManifest(s, steps[0], v);
      hide Do, Enabled;
      RunKeepsSnapshots(Do(s, steps[0]), steps[1..], id, v);
    }
  }

  lemma StepKeepsSnapshots(s: Sys, step: Step, id: nat)
    requires Enabled(s, step) && id in s.snaps
    ensures id in Do(s, step).snaps && Do(s, step).snaps[id] == s.snaps[id]
    ensures s.storage <= Do(s, step).storage
  {
  }

  lemma StepKeepsManifest(s: Sys, step: Step, v: VolId)
    requires Enabled(s, step) && v in s.vols
    ensures v in Do(s, step).vols && Do(s, step).vols[v].manifest == s.vols[v].manifest
  {
  }

  /**
    Snapshot, then any run, then restore: the index is the frozen one again, every chunk it
    names is in storage, and nothing written after the snapshot is left.
   */
  lemma SnapshotRestoreRoundTrip(s: Sys, before: seq<Step>, v: VolId, id: nat, after: seq<Step>)
    requires Init(s) && ValidRun(s, before) && DisciplinedRun(s, before)
    requires Enabled(Run(s, before), TakeSnapshot(v, id))
    requires ValidRun(Do(Run(s, before), TakeSnapshot(v, id)), after)
    requires Enabled(Run(Do(Run(s, before), TakeSnapshot(v, id)), after), Restore(v, id))
    ensures
      var taken := Run(s, before);
      var restored := Do(Run(Do(taken, TakeSnapshot(v, id)), after), Restore(v, id));
      && restored.vols[v].index == taken.vols[v].index
      && restored.vols[v].manifest == taken.vols[v].manifest
      && forall p :: p in restored.vols[v].index ==>
           restored.vols[v].ChunkOf(p) in restored.storage && Open(restored.vols[v].manifest, p, restored.vols[v].index[p]).Some?
  {
    InitInv(s);
    RunKeepsInv(s, before);
    var taken := Run(s, before);
    var frozen := Do(taken, TakeSnapshot(v, id));
    StepKeepsInvIff(taken, TakeSnapshot(v, id));
    assert SnapOk(frozen, frozen.snaps[id]);
    RunKeepsSnapshots(frozen, after, id, v);
  }
}
