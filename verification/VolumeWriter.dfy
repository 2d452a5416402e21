/**
  The per-volume write pipeline: seal, bind, mark, enqueue; completions, fences and retries;
  and reads.  Its abstract state is one volume of the upload protocol.

  `Valid` is structural and always kept.  `Backed` is the protocol's invariant; what keeps
  it, and what breaks it, is stated method by method.
*/
module VolumeWriter {
  import opened Bytes
  import opened Paging
  import opened Volume
  import opened ChunkStore
  import Protocol

  datatype WriterError =
    | PageSizeMismatch
    | PageOutOfRange
    | StoreFault(e: StoreError)
    | UploadFailed
    | Decrypt
    | IndexIo
    | SidecarIo
    | ManifestIo
    | ResizeNotSectorAligned
    | ResizeBelowPage
    | ResizeExceedsAddressable
    | ResizeNoChange
    | ResizeWormForbidden
    | ResizeWouldDiscardData(highest: PageId)

  datatype DrainOutcome = Clean | Failed | Waiting

  /** One move of the upload worker: run a task, take a completion a step further, or make a whole one. */
  datatype WorkerStep = Upload(i: nat) | Check(j: nat) | Flip(p: PageId) | Finish(q: PageId) | Complete(k: nat)
  {
    /** No completion is left under way. */
    predicate Settles() { Upload? || Complete? }
  }

  predicate Settled(schedule: seq<WorkerStep>) {
    forall i :: 0 <= i < |schedule| ==> schedule[i].Settles()
  }

  /** The shape `validate_page_size` accepts, as far as this model needs it. */
  predicate ManifestOk(m: Manifest) {
    0 < m.pageSize < U32_LIMIT && 0 < m.sectorBytes && m.pageSize % m.sectorBytes == 0
  }

  /** What a page resolves to through an index; a hole reads as zeros. */
  function ResolveIn(m: Manifest, index: map<PageId, Entry>, p: PageId): seq<Byte> {
    if p in index && Open(m, p, index[p]).Some? then Open(m, p, index[p]).value else Zeros(m.pageSize)
  }

  /** Every entry opens to a whole page. */
  ghost predicate WholePages(m: Manifest, index: map<PageId, Entry>) {
    forall p :: p in index ==> Open(m, p, index[p]).Some? && |Open(m, p, index[p]).value| == m.pageSize
  }

  ghost predicate TasksOk(id: nat, m: Manifest, tasks: seq<Protocol.Task>) {
    forall t :: t in tasks ==> t.vol == id && t.chunk == ChunkFor(m, t.chunk.payload)
  }

  ghost predicate AllBelow(index: map<PageId, Entry>, n: nat) {
    forall p :: p in index ==> p < n
  }

  /** The sizes a resize accepts. */
  ghost predicate ResizeAllowed(m: Manifest, index: map<PageId, Entry>, current: nat, size: nat)
    requires ManifestOk(m)
  {
    && OffsetIn(size, m.sectorBytes) == 0 && m.pageSize <= size && size != current
    && LastPageIdFits(size, m.pageSize)
    && (size < current ==> !m.worm && AllBelow(index, PageOf(size, m.pageSize)))
  }

  predicate IsHighest(s: set<PageId>, h: PageId) {
    h in s && forall p :: p in s ==> p <= h
  }

  lemma {:induction false} HighestExists(s: set<PageId>)
    requires s != {}
    ensures exists h :: IsHighest(s, h)
    decreases |s|
  {
    var x :| x in s;
    if s - {x} == {} {
      assert s == {x};
      assert IsHighest(s, x);
    } else {
      HighestExists(s - {x});
      var h :| IsHighest(s - {x}, h);
      assert forall p :: p in s ==> p == x || p in s - {x};
      assert IsHighest(s, if h < x then x else h);
    }
  }

  /** A cast of a page count to 32 bits. */
  function Cast32(n: nat): PageId { n % U32_LIMIT }

  /** A table each of whose entries comes from one of two others. */
  ghost predicate Mixed(a: map<PageId, Entry>, b: map<PageId, Entry>, mix: map<PageId, Entry>) {
    forall p :: p in mix ==> (p in a && mix[p] == a[p]) || (p in b && mix[p] == b[p])
  }

  ghost predicate AllStored(m: Manifest, index: map<PageId, Entry>, storage: set<Chunk>) {
    forall p :: p in index ==> ChunkFor(m, index[p].payload) in storage
  }

  class Writer {
    const id: nat
    const manifest: Manifest
    const store: Store
    const async: bool                // an upload worker is wired in, and its channel stays open
    const reliable: bool             // writes to pages.idx, upload.idx and the manifest never fail
    var index: map<PageId, Entry>
    var localOnly: set<PageId>
    var pending: set<PageId>
    var failed: set<PageId>
    var tasks: seq<Protocol.Task>    // handed to the worker, not yet run
    var outcomes: seq<Protocol.Task> // uploaded, completion not yet begun
    var checked: multiset<PageId>    // completions past their check
    var flipped: multiset<PageId>    // completions past their flip
    var sizeBytes: U64
    ghost var unsettled: set<PageId> // pages bound by a write that then failed; the caller still holds their bytes

    ghost function View(): Protocol.Vol
      reads this
    {
      Protocol.Vol(manifest, index, localOnly, pending, failed, unsettled, checked, flipped)
    }

    ghost predicate Valid()
      reads this`index, this`tasks, this`outcomes, store
    {
      && ManifestOk(manifest)
      && store.backend == manifest.backend
      && store.Valid()
      && WholePages(manifest, index)
      && TasksOk(id, manifest, tasks)
      && TasksOk(id, manifest, outcomes)
      && forall t :: t in outcomes ==> t.chunk in store.storage
    }

    /** Every page is stored, or pinned, tracked and out of every completion's way. */
    ghost predicate Backed()
      reads this, store
    {
      Protocol.VolOk(View(), store.pool, store.storage)
    }

    /** No device faults, and no completion under way. */
    predicate Calm()
      reads this
    {
      reliable && checked == multiset{} && flipped == multiset{}
    }

    /** What clients use of the writer's invariant. */
    lemma Facts()
      requires Valid()
      ensures ManifestOk(manifest) && 0 < manifest.pageSize < U32_LIMIT && WholePages(manifest, index)
    {
    }

    /** Nothing pending, failed or unsettled in a range: every page it names is in storage. */
    lemma DrainedIsStored(first: PageId, last: PageId)
      requires Backed()
      requires forall p :: first <= p <= last ==> p !in pending && p !in failed && p !in unsettled
      ensures forall p :: first <= p <= last && p in index ==> ChunkFor(manifest, index[p].payload) in store.storage
    {
      forall p | first <= p <= last && p in index
        ensures ChunkFor(manifest, index[p].payload) in store.storage
      {
        assert Protocol.PageOk(View(), store.pool, store.storage, p);
      }
    }

    function Resolve(p: PageId): seq<Byte>
      reads this
    {
      ResolveIn(manifest, index, p)
    }

    constructor (volId: nat, m: Manifest, s: Store, worker: bool, sound: bool, size: U64)
      requires ManifestOk(m) && s.Valid() && s.backend == m.backend
      ensures Valid() && Backed() && index == map[] && id == volId && manifest == m && store == s
      ensures async == worker && reliable == sound && sizeBytes == size
      ensures pending == {} && failed == {} && unsettled == {} && checked == multiset{} && flipped == multiset{}
    {
      id := volId;
      manifest := m;
      store := s;
      async := worker;
      reliable := sound;
      index := map[];
      localOnly := {};
      pending := {};
      failed := {};
      tasks := [];
      outcomes := [];
      checked := multiset{};
      flipped := multiset{};
      sizeBytes := size;
      unsettled := {};
    }

    /** The upload task for what the page is bound to now. */
    function TaskFor(p: PageId): Protocol.Task
      reads this
      requires p in index
    {
      Protocol.Task(id, p, ChunkFor(manifest, index[p].payload))
    }

    function LastPageId(): nat
      reads this
      requires manifest.pageSize > 0
    {
      LastPage(sizeBytes, manifest.pageSize)
    }

    /** One write to a device the writer cannot rely on. */
    method Attempt() returns (ok: bool)
      ensures reliable ==> ok
    {
      var fault: bool := *;
      ok := reliable || !fault;
    }

    /** A write whose LocalOnly mark failed: the page is bound, and the bytes stay with the caller. */
    ghost predicate BoundUnmarked(before: Protocol.Vol, p: PageId, bytes: seq<Byte>)
      reads this
    {
      && !reliable && p in index && Open(manifest, p, index[p]) == Some(bytes)
      && View() == before.Bound(p, index[p]).(writing := before.writing + {p})
    }

    /**
      The first half of a write: seal into the pool, bind the page, mark it LocalOnly.  The
      protocol's invariant survives if and only if storage holds the chunk already, or the mark
      is made and no completion of the page is past its check.
     */
    method SealAndBind(p: PageId, bytes: seq<Byte>) returns (r: Result<Entry, WriterError>)
      requires Valid() && |bytes| == manifest.pageSize
      modifies this`index, this`localOnly, this`unsettled, store`pool, store`budget
      ensures Valid() && old(store.pool) <= store.pool
      ensures r.Ok? ==> View() == old(View()).Sealed(p, r.value) && Open(manifest, p, r.value) == Some(bytes)
      ensures r.Err? ==> View() == old(View()) || BoundUnmarked(old(View()), p, bytes)
      ensures r.Ok? && old(Backed()) ==>
        (Backed() <==> ChunkFor(manifest, r.value.payload) in store.storage || !View().Landing(p))
      ensures r.Err? && old(Backed()) && View() != old(View()) ==>
        (Backed() <==> ChunkFor(manifest, index[p].payload) in store.storage || (p in localOnly && !View().Landing(p)))
      ensures View() == old(View()) && old(Backed()) ==> Backed()
    {
      var salt: U64 := *;
      var e := Seal(manifest, p, salt, bytes);
      OpenOfSeal(manifest, p, salt, bytes);
      var c := ChunkFor(manifest, e.payload);
      hide Protocol.VolOk, Conserved, Open, Seal;
      var sealed := store.Seal(c);
      if old(Backed()) { Protocol.VolOkMonotone(View(), old(store.pool), store.storage, store.pool, store.storage); }
      if sealed.Err? { return Err(StoreFault(sealed.error)); }
      hide Valid;
      var bound := BindAndMark(p, e, bytes);
      return if bound.Ok? then Ok(e) else Err(bound.error);
    }

    /** Write the index slot, then the sidecar mark; either may fail. */
    method BindAndMark(p: PageId, e: Entry, ghost bytes: seq<Byte>) returns (r: Result<(), WriterError>)
      requires Valid() && |bytes| == manifest.pageSize
      requires Open(manifest, p, e) == Some(bytes) && ChunkFor(manifest, e.payload) in store.pool
      modifies this`index, this`localOnly, this`unsettled
      ensures Valid()
      ensures r.Ok? ==> View() == old(View()).Sealed(p, e)
      ensures r.Err? ==> View() == old(View()) || (BoundUnmarked(old(View()), p, bytes) && index[p] == e)
      ensures old(Backed()) && r.Ok? ==> (Backed() <==> ChunkFor(manifest, e.payload) in store.storage || !View().Landing(p))
      ensures old(Backed()) && r.Err? && View() != old(View()) ==>
        (Backed() <==> ChunkFor(manifest, e.payload) in store.storage || (p in localOnly && !View().Landing(p)))
    {
      ghost var before := View();
      if Backed() { SealKeepsBacked(before, p, e); }
      hide Protocol.VolOk, Conserved, ChunkFor;
      var bound := Attempt();
      if !bound { return Err(IndexIo); }
      index := index[p := e];
      unsettled := unsettled + {p};
      hide Open;
      var marked := Attempt();
      if !marked {
        assert before.(writing := before.writing + {p}).Bound(p, e) == View();
        return Err(SidecarIo);
      }
      localOnly := localOnly + {p};
      return Ok(());
    }

    /** What binding `e`, with and without the mark, does to the protocol's invariant. */
    lemma SealKeepsBacked(before: Protocol.Vol, p: PageId, e: Entry)
      requires Protocol.VolOk(before, store.pool, store.storage)
      requires Open(before.manifest, p, e).Some? && ChunkFor(before.manifest, e.payload) in store.pool
      ensures
        var stored := ChunkFor(before.manifest, e.payload) in store.storage;
        && (Protocol.VolOk(before.Sealed(p, e), store.pool, store.storage) <==> stored || !before.Landing(p))
        && (Protocol.VolOk(before.(writing := before.writing + {p}).Bound(p, e), store.pool, store.storage) <==>
              stored || (p in before.localOnly && !before.Landing(p)))
    {
      Protocol.SealedOkIff(before, store.pool, store.storage, p, e);
      var writing := before.(writing := before.writing + {p});
      Protocol.TrackingOk(before, writing, store.pool, store.storage);
      Protocol.BoundOkIff(writing, store.pool, store.storage, p, e);
    }

    /** The second half with a worker: mark pending and queue an upload. */
    method Enqueue(p: PageId)
      requires Valid() && p in index && p in unsettled
      modifies this`pending, this`failed, this`tasks, this`unsettled
      ensures Valid()
      ensures View() == old(View()).Enqueued(p) && tasks == old(tasks) + [TaskFor(p)]
      ensures old(Backed()) <==> Backed()
    {
      ghost var v := View();
      failed := failed - {p};
      pending := pending + {p};
      unsettled := unsettled - {p};
      tasks := tasks + [TaskFor(p)];
      EnqueueKeepsBacked(v, p);
    }

    lemma EnqueueKeepsBacked(v: Protocol.Vol, p: PageId)
      requires View() == v.Enqueued(p) && p in v.writing
      ensures Protocol.VolOk(v, store.pool, store.storage) <==> Backed()
    {
    }

    /** The second half without one: upload in line and apply the outcome. */
    method UploadInline(p: PageId) returns (ok: bool)
      requires Valid() && p in index
      modifies this`localOnly, this`pending, this`failed, this`unsettled, store`storage
      ensures Valid() && old(store.storage) <= store.storage
      ensures !ok ==> View() == old(View())
      ensures ok ==>
        View() == var v := old(View()).Applied(p, index[p].payload); v.(writing := v.writing - {p})
      ensures old(Backed()) ==> Backed()
    {
      var payload := index[p].payload;
      hide Protocol.VolOk, Conserved, Open;
      ok := store.Put(ChunkFor(manifest, payload));
      if old(Backed()) {
        Protocol.VolOkMonotone(View(), store.pool, old(store.storage), store.pool, store.storage);
      }
      if ok { ok := ApplyPageUploadOutcome(p, payload); }
      if ok {
        if Backed() { Protocol.SettledOk(View(), store.pool, store.storage, p); }
        unsettled := unsettled - {p};
      }
    }

    /** A failed inline upload: the page is bound and LocalOnly, and the bytes stay with the caller. */
    ghost predicate BoundOnly(before: Protocol.Vol, p: PageId, bytes: seq<Byte>)
      reads this
    {
      !async && p in index && Resolve(p) == bytes && View() == before.Sealed(p, index[p])
    }

    /**
      Seal the bytes into the pool, bind the page, mark it LocalOnly, then enqueue the upload
      or, without a worker, upload in line.  A failed mark and a failed inline upload both leave
      the page bound.
     */
    method WritePageUnsynced(p: PageId, bytes: seq<Byte>) returns (r: Result<(), WriterError>)
      requires Valid()
      modifies this, store
      ensures Valid() && sizeBytes == old(sizeBytes) && checked == old(checked) && flipped == old(flipped)
      ensures old(store.pool) <= store.pool && old(store.storage) <= store.storage
      ensures forall q :: q != p ==> ResolveIn(manifest, index, q) == ResolveIn(manifest, old(index), q)
      ensures r.Ok? ==> Resolve(p) == bytes && |bytes| == manifest.pageSize && p <= LastPageId()
      ensures r.Ok? ==> p in index && index == old(index)[p := index[p]] && unsettled == old(unsettled) - {p}
      ensures r.Ok? && async ==> View() == old(View()).Sealed(p, index[p]).Enqueued(p) && tasks == old(tasks) + [TaskFor(p)]
      ensures r.Ok? && async && old(Backed()) ==>
        (Backed() <==> ChunkFor(manifest, index[p].payload) in store.storage || !View().Landing(p))
      ensures r.Ok? && !async ==> p !in localOnly && pending == old(pending) - {p} && failed == old(failed) - {p}
      ensures r.Err? ==> View() == old(View()) || BoundOnly(old(View()), p, bytes) || BoundUnmarked(old(View()), p, bytes)
      ensures old(Backed()) && reliable && !View().Landing(p) ==> Backed()
      ensures unsettled <= old(unsettled) + {p}
    {
      hide Valid, Backed, WholePages, ManifestOk, LastPage;
      Facts();
      if |bytes| != manifest.pageSize { return Err(PageSizeMismatch); }
      if p > LastPageId() { return Err(PageOutOfRange); }
      var sealed := SealAndBind(p, bytes);
      if sealed.Err? { return Err(sealed.error); }
      assert Resolve(p) == bytes;
      hide Open;
      if async {
        Enqueue(p);
      } else {
        var ok := UploadInline(p);
        if !ok { return Err(UploadFailed); }
      }
      return Ok(());
    }

    /** The whole completion at once, as the inline write makes it; false if the sidecar write failed. */
    method ApplyPageUploadOutcome(p: PageId, payload: Payload) returns (ok: bool)
      requires Valid() && ChunkFor(manifest, payload) in store.storage
      modifies this`localOnly, this`pending, this`failed
      ensures Valid() && (reliable ==> ok)
      ensures View() == if ok then old(View()).Applied(p, payload) else old(View())
      ensures old(Backed()) ==> Backed()
    {
      hide Valid, Protocol.VolOk, Protocol.Plus, Protocol.Minus;
      if Backed() { Protocol.AppliedOk(View(), store.pool, store.storage, p, payload); }
      if p !in index || index[p].payload != payload { return true; }
      ok := Attempt();
      if !ok { return; }
      localOnly := localOnly - {p};
      failed := failed - {p};
      pending := pending - {p};
    }

    method MarkFailed(p: PageId)
      requires Valid()
      modifies this`pending, this`failed
      ensures Valid()
      ensures View() == old(View()).Failed(p)
      ensures old(Backed()) ==> Backed()
    {
      hide Valid, Protocol.VolOk, Protocol.Plus, Protocol.Minus;
      if Backed() { Protocol.TrackingOk(View(), View().Failed(p), store.pool, store.storage); }
      pending := pending - {p};
      failed := failed + {p};
    }

    // ----- the worker, one move at a time -----

    /** Run one queued task, in any order: the upload succeeds, or its page is marked failed. */
    method UploadTask(i: nat) returns (uploaded: bool)
      requires Valid() && i < |tasks|
      modifies this`tasks, this`outcomes, this`pending, this`failed, store`storage
      ensures Valid() && old(store.storage) <= store.storage
      ensures tasks == old(tasks)[..i] + old(tasks)[i + 1..]
      ensures
        var t := old(tasks)[i];
        if uploaded then View() == old(View()) && outcomes == old(outcomes) + [t] && t.chunk in store.storage
        else View() == old(View()).Failed(t.page) && outcomes == old(outcomes)
      ensures old(Backed()) ==> Backed()
    {
      var t := tasks[i];
      tasks := tasks[..i] + tasks[i + 1..];
      hide Protocol.VolOk, Conserved;
      uploaded := store.Put(t.chunk);
      if old(Backed()) {
        Protocol.VolOkMonotone(View(), store.pool, old(store.storage), store.pool, store.storage);
      }
      if uploaded {
        outcomes := outcomes + [t];
      } else {
        MarkFailed(t.page);
      }
    }

    /** Begin a completion: it goes on only if the index still names the uploaded chunk. */
    method CheckOutcome(i: nat)
      requires Valid() && i < |outcomes|
      modifies this`outcomes, this`checked, this`pending, this`failed
      ensures Valid() && outcomes == old(outcomes)[..i] + old(outcomes)[i + 1..]
      ensures
        var t := old(outcomes)[i];
        View() == old(View()).Checked(t.page, t.chunk.payload) || (!reliable && View() == old(View()).Failed(t.page))
      ensures old(Backed()) ==> Backed()
    {
      var t := outcomes[i];
      outcomes := outcomes[..i] + outcomes[i + 1..];
      var read := Attempt();
      if !read {
        MarkFailed(t.page);
        return;
      }
      if Backed() { Protocol.CheckedOk(View(), store.pool, store.storage, t.page, t.chunk.payload); }
      if t.page in index && index[t.page].payload == t.chunk.payload {
        checked := Protocol.Plus(checked, t.page);
      }
    }

    /** Flip the sidecar to Uploaded, without looking at the index again. */
    method FlipOutcome(p: PageId)
      requires Valid() && p in checked
      modifies this`checked, this`flipped, this`localOnly, this`pending, this`failed
      ensures Valid()
      ensures View() == old(View()).Flipped(p) || (!reliable && View() == old(View()).FlipFailed(p))
      ensures old(Backed()) ==> Backed()
    {
      hide Valid, Protocol.VolOk, Protocol.Plus, Protocol.Minus;
      var flip := Attempt();
      if !flip {
        if Backed() { Protocol.FlipFailedOk(View(), store.pool, store.storage, p); }
        checked := Protocol.Minus(checked, p);
        pending := pending - {p};
        failed := failed + {p};
        return;
      }
      if Backed() { Protocol.FlippedOk(View(), store.pool, store.storage, p); }
      checked := Protocol.Minus(checked, p);
      flipped := Protocol.Plus(flipped, p);
      localOnly := localOnly - {p};
    }

    /** Clear the page's pending and failed marks. */
    method FinishOutcome(p: PageId)
      requires Valid() && p in flipped
      modifies this`flipped, this`pending, this`failed
      ensures Valid()
      ensures View() == old(View()).Finished(p)
      ensures old(Backed()) ==> Backed()
    {
      hide Valid, Protocol.VolOk, Protocol.Plus, Protocol.Minus;
      if Backed() { Protocol.FinishedOk(View(), store.pool, store.storage, p); }
      flipped := Protocol.Minus(flipped, p);
      pending := pending - {p};
      failed := failed - {p};
    }

    /** All three moves of a completion, with nothing in between. */
    method CompleteOutcome(i: nat)
      requires Valid() && i < |outcomes|
      modifies this`outcomes, this`checked, this`flipped, this`localOnly, this`pending, this`failed
      ensures Valid() && (old(Backed()) ==> Backed())
      ensures old(Calm()) ==> Calm()
    {
      hide Valid, Backed;
      var p := outcomes[i].page;
      CheckOutcome(i);
      if p in checked { FlipOutcome(p); }
      if p in flipped { FinishOutcome(p); }
    }

    /** Any move the worker can make; a move that is not possible is skipped. */
    method Work(step: WorkerStep)
      requires Valid()
      modifies this, store`storage
      ensures Valid() && index == old(index) && unsettled == old(unsettled) && sizeBytes == old(sizeBytes)
      ensures store.pool == old(store.pool) && old(store.storage) <= store.storage
      ensures old(Backed()) ==> Backed()
      ensures old(Calm()) && step.Settles() ==> Calm()
    {
      hide Valid, Backed, View, Protocol.Plus, Protocol.Minus;
      match step {
        case Upload(i) => if i < |tasks| { var _ := UploadTask(i); }
        case Check(i) => if i < |outcomes| { CheckOutcome(i); }
        case Flip(p) => if p in checked { FlipOutcome(p); }
        case Finish(p) => if p in flipped { FinishOutcome(p); }
        case Complete(i) => if i < |outcomes| { CompleteOutcome(i); }
      }
    }

    /**
      `wait_for_range`: report a failure at once, else wait until nothing in the range is
      pending.  `schedule` is what the worker does meanwhile; when it ends the caller is still
      waiting.
     */
    method WaitForRange(first: PageId, last: PageId, schedule: seq<WorkerStep>) returns (outcome: DrainOutcome)
      requires Valid()
      modifies this, store`storage
      ensures Valid() && index == old(index) && unsettled == old(unsettled) && sizeBytes == old(sizeBytes)
      ensures store.pool == old(store.pool) && old(store.storage) <= store.storage
      ensures old(Backed()) ==> Backed()
      ensures old(Calm()) && Settled(schedule) ==> Calm()
      ensures outcome.Clean? ==> forall p :: first <= p <= last ==> p !in pending && p !in failed
      ensures outcome.Failed? ==> exists p :: first <= p <= last && p in failed
      ensures outcome.Waiting? ==> exists p :: first <= p <= last && p in pending
    {
      hide Valid, Backed;
      var k := 0;
      while true
        invariant Valid() && index == old(index) && unsettled == old(unsettled) && sizeBytes == old(sizeBytes)
        invariant store.pool == old(store.pool) && old(store.storage) <= store.storage
        invariant old(Backed()) ==> Backed()
        invariant old(Calm()) && Settled(schedule) ==> Calm()
        invariant k <= |schedule|
        decreases |schedule| - k
      {
        var anyPending := exists p :: p in pending && first <= p <= last;
        var anyFailed := exists p :: p in failed && first <= p <= last;
        if anyFailed { return Failed; }
        if !anyPending { return Clean; }
        if k == |schedule| { return Waiting; }
        Work(schedule[k]);
        k := k + 1;
      }
    }

    method RetryOne(p: PageId)
      requires Valid()
      modifies this`pending, this`failed, this`tasks
      ensures Valid()
      ensures View() == old(View()).Retried(p)
      ensures tasks == if p in index then old(tasks) + [TaskFor(p)] else old(tasks)
      ensures old(Backed()) ==> Backed()
    {
      if Backed() { Protocol.TrackingOk(View(), View().Retried(p), store.pool, store.storage); }
      if p in index {
        pending := pending + {p};
        tasks := tasks + [TaskFor(p)];
      }
      failed := failed - {p};
    }

    /** Every failed page of the range goes back to the worker; a deallocated one is forgotten. */
    method RetryFailedUploadsInRange(first: PageId, last: PageId) returns (retried: nat)
      requires Valid()
      modifies this`pending, this`failed, this`tasks
      ensures Valid()
      ensures !async ==> View() == old(View()) && retried == 0
      ensures async ==>
        var hit := set p | p in old(failed) && first <= p <= last;
        && failed == old(failed) - hit && pending == old(pending) + hit * index.Keys
        && forall p :: p in hit && p in index ==> TaskFor(p) in tasks
      ensures |tasks| == |old(tasks)| + retried
      ensures old(Backed()) ==> Backed()
    {
      hide Valid, Backed;
      retried := 0;
      if !async { return; }
      var todo := set p | p in failed && first <= p <= last;
      ghost var hit := todo;
      while todo != {}
        invariant Valid() && todo <= hit && (old(Backed()) ==> Backed())
        invariant forall q :: q in failed <==> q in old(failed) && (q in hit ==> q in todo)
        invariant forall q :: q in pending <==> q in old(pending) || (q in hit && q !in todo && q in index)
        invariant |tasks| == |old(tasks)| + retried
        invariant forall p :: p in hit && p !in todo && p in index ==> TaskFor(p) in tasks
        decreases |todo|
      {
        var p :| p in todo;
        todo := todo - {p};
        retried := retried + if p in index then 1 else 0;
        RetryOne(p);
      }
    }

    /** Read a page through the index.  A backed page is never missing from both pool and storage. */
    method ReadPage(p: PageId) returns (r: Result<Option<seq<Byte>>, WriterError>)
      requires Valid()
      modifies store`pool, store`budget
      ensures Valid()
      ensures old(store.pool) <= store.pool
      ensures r.Ok? ==> (r.value.None? <==> p !in index)
      ensures r.Ok? && r.value.Some? ==> r.value.value == Resolve(p)
      ensures r != Err(Decrypt)
      ensures old(Backed()) ==> Backed() && r != Err(StoreFault(NotInStorage))
    {
      if p !in index { return Ok(None); }
      assert Backed() ==> Protocol.PageOk(View(), store.pool, store.storage, p);
      var e := index[p];
      hide Protocol.VolOk, Conserved;
      var fetched := store.Fetch(ChunkFor(manifest, e.payload));
      if old(Backed()) {
        Protocol.VolOkMonotone(View(), old(store.pool), store.storage, store.pool, store.storage);
      }
      if fetched.Err? { return Err(StoreFault(fetched.error)); }
      var plain := Open(manifest, p, e);
      if plain.None? { return Err(Decrypt); }
      return Ok(Some(plain.value));
    }

    /** Clear a page's index slot, as a full-page unmap does.  The caller has dropped the page's bytes. */
    method ClearPage(p: PageId) returns (ok: bool)
      requires Valid()
      modifies this`index, this`unsettled
      ensures Valid() && (reliable ==> ok)
      ensures View() == (if ok then old(View()).Unmapped(p) else old(View())).(writing := old(unsettled) - {p})
      ensures old(Backed()) && (ok || p !in old(unsettled)) ==> Backed()
    {
      if Backed() {
        Protocol.UnmappedOk(View(), store.pool, store.storage, p);
        Protocol.ForgottenOk(View().Unmapped(p), store.pool, store.storage, p);
      }
      ok := Attempt();
      assert p !in unsettled ==> unsettled - {p} == unsettled;
      unsettled := unsettled - {p};
      if ok { index := index - {p}; }
    }

    /**
      Bind a page to an existing chunk, or to a hole, and record it Uploaded.  The index write
      may fail, or the sidecar write after it.  The caller has dropped the page's bytes.
     */
    method RebindPage(p: PageId, e: Option<Entry>) returns (r: Result<(), WriterError>)
      requires Valid()
      requires e.Some? ==> Open(manifest, p, e.value).Some? && |Open(manifest, p, e.value).value| == manifest.pageSize
      modifies this`index, this`localOnly, this`unsettled
      ensures Valid() && (reliable ==> r.Ok?)
      ensures index == if r == Err(IndexIo) then old(index) else Protocol.WithSlot(old(index), p, e)
      ensures localOnly == if r.Ok? then old(localOnly) - {p} else old(localOnly)
      ensures unsettled == old(unsettled) - {p}
      ensures old(Backed()) && (if r == Err(IndexIo) then p !in old(unsettled) else SlotStored(e)) ==> Backed()
    {
      hide Protocol.VolOk, Conserved, TasksOk;
      ghost var v := View();
      if Backed() && SlotStored(e) { RebindKeepsBacked(v, p, e); }
      assert p !in unsettled ==> unsettled - {p} == unsettled;
      unsettled := unsettled - {p};
      var bound := Attempt();
      if !bound { return Err(IndexIo); }
      index := Protocol.WithSlot(index, p, e);
      var marked := Attempt();
      if !marked { return Err(SidecarIo); }
      localOnly := localOnly - {p};
      return Ok(());
    }

    ghost predicate SlotStored(e: Option<Entry>)
      reads store
    {
      e.Some? ==> ChunkFor(manifest, e.value.payload) in store.storage
    }

    lemma RebindKeepsBacked(v: Protocol.Vol, p: PageId, e: Option<Entry>)
      requires Protocol.VolOk(v, store.pool, store.storage)
      requires e.Some? ==> Open(v.manifest, p, e.value).Some? && ChunkFor(v.manifest, e.value.payload) in store.storage
      ensures
        var v' := v.(writing := v.writing - {p}).Rebound(p, e);
        Protocol.VolOk(v', store.pool, store.storage) && Protocol.VolOk(v'.(localOnly := v.localOnly), store.pool, store.storage)
    {
      var v' := v.(writing := v.writing - {p}).Rebound(p, e);
      forall q | q in v'.index
        ensures Protocol.PageOk(v', store.pool, store.storage, q)
        ensures Protocol.PageOk(v'.(localOnly := v.localOnly), store.pool, store.storage, q)
      {
        if q != p { assert Protocol.PageOk(v, store.pool, store.storage, q); }
      }
    }

    /**
      Replace the whole page table by a frozen one, then reset the sidecars.  A copy that fails
      half-way leaves a mixture of both tables, record by record.
     */
    method RestoreTable(frozen: map<PageId, Entry>) returns (r: Result<(), WriterError>)
      requires Valid() && WholePages(manifest, frozen) && unsettled == {}
      modifies this`index, this`localOnly, this`failed
      ensures Valid() && (reliable ==> r.Ok?)
      ensures r.Ok? ==> View() == old(View()).Restored(frozen)
      ensures r.Ok? ==> (Backed() <==> AllStored(manifest, frozen, store.storage))
      ensures r.Err? ==> Mixed(old(index), frozen, index)
      ensures old(Backed()) && AllStored(manifest, frozen, store.storage) ==> Backed()
    {
      hide Protocol.VolOk, ResolveIn, Conserved, TasksOk, Open;
      ghost var v := View();
      var copied := Attempt();
      if !copied {
        var kept: set<PageId> := *;
        var taken: set<PageId> := *;
        index := (map p | p in index && p in kept :: index[p]) + (map p | p in frozen && p in taken :: frozen[p]);
        MixtureOk(v, frozen, index);
        return Err(IndexIo);
      }
      index := frozen;
      MixtureOk(v, frozen, frozen);
      FrozenOk(v.Restored(frozen), store.pool, store.storage);
      var states := Attempt();
      if !states { return Err(SidecarIo); }
      localOnly := {};
      FrozenOk(View(), store.pool, store.storage);
      var touches := Attempt();
      if !touches { return Err(SidecarIo); }
      failed := {};
      return Ok(());
    }

    lemma MixtureOk(v: Protocol.Vol, frozen: map<PageId, Entry>, mix: map<PageId, Entry>)
      requires Mixed(v.index, frozen, mix) && WholePages(v.manifest, v.index) && WholePages(v.manifest, frozen)
      ensures WholePages(v.manifest, mix)
      ensures Protocol.VolOk(v, store.pool, store.storage) && AllStored(v.manifest, frozen, store.storage) ==>
        Protocol.VolOk(v.(index := mix), store.pool, store.storage)
    {
      if Protocol.VolOk(v, store.pool, store.storage) && AllStored(v.manifest, frozen, store.storage) {
        forall p | p in mix
          ensures Protocol.PageOk(v.(index := mix), store.pool, store.storage, p)
        {
          if p in v.index { assert Protocol.PageOk(v, store.pool, store.storage, p); }
        }
      }
    }

    method HighestAllocatedPage() returns (r: Option<PageId>)
      ensures r.None? <==> index == map[]
      ensures r.Some? ==> r.value in index && forall p :: p in index ==> p <= r.value
    {
      if index == map[] { return None; }
      assert index.Keys != {};
      HighestExists(index.Keys);
      var h :| IsHighest(index.Keys, h);
      return Some(h);
    }

    /** Drop every slot from page `first` on. */
    method TruncateFrom(first: PageId)
      requires Valid()
      modifies this`index
      ensures Valid()
      ensures index == map p | p in old(index) && p < first :: old(index)[p]
      ensures old(Backed()) ==> Backed()
    {
      ghost var v := View();
      index := map p | p in index && p < first :: index[p];
      forall p | p in index && Protocol.VolOk(v, store.pool, store.storage)
        ensures Protocol.PageOk(View(), store.pool, store.storage, p)
      {
        assert Protocol.PageOk(v, store.pool, store.storage, p);
      }
    }

    /**
      Resize.  Succeeds only on the allowed sizes, and on all of them if no device fails.  No
      allocated page is lost, unless the page count overflows the 32-bit cast, and then all of
      them are: see `ShrinkIsSafe`.  A failed manifest write leaves the size as it was.
     */
    method SetSize(size: U64) returns (r: Result<(), WriterError>)
      requires Valid()
      modifies this`index, this`sizeBytes
      ensures Valid() && (old(Backed()) ==> Backed())
      ensures r.Ok? ==> ResizeAllowed(manifest, old(index), old(sizeBytes), size)
      ensures reliable && ResizeAllowed(manifest, old(index), old(sizeBytes), size) ==> r.Ok?
      ensures sizeBytes == if r.Ok? then size else old(sizeBytes)
      ensures index == old(index) ||
        (PageOf(size, manifest.pageSize) == U32_LIMIT && size < old(sizeBytes)
         && ResizeAllowed(manifest, old(index), old(sizeBytes), size) && index == map[])
      ensures r.Ok? && size < old(sizeBytes) && PageOf(size, manifest.pageSize) == U32_LIMIT ==> index == map[]
      ensures r.Ok? && size < old(sizeBytes) ==> forall p: PageId :: PageOf(size, manifest.pageSize) <= p ==> p !in index
    {
      Facts();
      hide PageOf, OffsetIn, LastPageIdFits, Cast32, Valid, Backed;
      var ps := manifest.pageSize;
      if OffsetIn(size, manifest.sectorBytes) != 0 { return Err(ResizeNotSectorAligned); }
      if size < ps { return Err(ResizeBelowPage); }
      if !LastPageIdFits(size, ps) { return Err(ResizeExceedsAddressable); }
      if size == sizeBytes { return Err(ResizeNoChange); }
      if size > sizeBytes {
        var grown := Attempt();
        if !grown { return Err(ManifestIo); }
        sizeBytes := size;
        return Ok(());
      }
      if manifest.worm { return Err(ResizeWormForbidden); }
      var count := PageOf(size, ps);
      var highest := HighestAllocatedPage();
      if highest.Some? && highest.value >= count { return Err(ResizeWouldDiscardData(highest.value)); }
      CountFits(size, ps);
      var cut := Attempt();
      if !cut { return Err(IndexIo); }
      TruncateFrom(Cast32(count));
      var shrunk := Attempt();
      if !shrunk { return Err(ManifestIo); }
      sizeBytes := size;
      return Ok(());
    }

    /** The least whole number of pages that holds every allocated page; it fits in 64 bits. */
    method MinSizeToFit() returns (size: U64)
      requires Valid()
      ensures manifest.pageSize > 0 && OffsetIn(size, manifest.pageSize) == 0
      ensures 1 <= PageOf(size, manifest.pageSize) <= U32_LIMIT && AllBelow(index, PageOf(size, manifest.pageSize))
      ensures forall n :: 1 <= n && AllBelow(index, n) ==> PageOf(size, manifest.pageSize) <= n
    {
      Facts();
      hide Valid, PageOf, OffsetIn;
      var highest := HighestAllocatedPage();
      var count: nat := if highest.Some? then highest.value as nat + 1 else 1;
      SizeFits64(count, manifest.pageSize);
      WholeCount(count, manifest.pageSize);
      size := count * manifest.pageSize;
    }
  }

  lemma FrozenOk(v: Protocol.Vol, pool: set<Chunk>, storage: set<Chunk>)
    requires WholePages(v.manifest, v.index) && v.localOnly == {}
    ensures Protocol.VolOk(v, pool, storage) <==> AllStored(v.manifest, v.index, storage)
  {
    if AllStored(v.manifest, v.index, storage) {
      forall p | p in v.index
        ensures Protocol.PageOk(v, pool, storage, p)
      {
      }
    } else {
      var p :| p in v.index && ChunkFor(v.manifest, v.index[p].payload) !in storage;
      assert !Protocol.PageOk(v, pool, storage, p);
    }
  }

  lemma CountFits(size: nat, ps: nat)
    requires LastPageIdFits(size, ps)
    ensures
      var n := PageOf(size, ps);
      n <= U32_LIMIT && Cast32(n) == if n < U32_LIMIT then n else 0
  {
    FitsIff(size, ps);
    PagesBelow(size, U32_LIMIT + 1, ps);
    assert (U32_LIMIT + 1) * ps == U32_LIMIT * ps + ps;
    hide PageOf, LastPageIdFits;
  }

  lemma SizeFits64(n: nat, ps: nat)
    requires n <= U32_LIMIT && ps < U32_LIMIT
    ensures n * ps < U64_LIMIT
  {
    ScaledOrder(n, U32_LIMIT, ps);
  }

  /** On a volume whose current size is addressable, a resize never loses an allocated page. */
  lemma ShrinkIsSafe(m: Manifest, index: map<PageId, Entry>, current: nat, size: nat)
    requires ManifestOk(m) && ResizeAllowed(m, index, current, size) && size < current
    ensures LastPageIdFits(current, m.pageSize) ==> PageOf(size, m.pageSize) < U32_LIMIT
    ensures PageOf(size, m.pageSize) < U32_LIMIT <==> size != U32_LIMIT * m.pageSize
  {
    if LastPageIdFits(current, m.pageSize) { SmallerCountFits(size, current, m.pageSize); }
    FitsIff(size, m.pageSize);
    PagesBelow(size, U32_LIMIT, m.pageSize);
  }

  /** Shrinking to the least fitting size is always allowed, but for write-once volumes. */
  lemma MinSizeIsAllowed(m: Manifest, index: map<PageId, Entry>, current: nat, size: nat)
    requires ManifestOk(m) && OffsetIn(size, m.pageSize) == 0 && size < current
    requires 1 <= PageOf(size, m.pageSize) <= U32_LIMIT && AllBelow(index, PageOf(size, m.pageSize))
    ensures ResizeAllowed(m, index, current, size) <==> !m.worm
  {
    var ps := m.pageSize;
    var pages := PageOf(size, ps);
    PageAndOffset(size, ps);
    WholeCount(pages, ps);
    ScaledOrder(1, pages, ps);
    ScaledOrder(pages, U32_LIMIT, ps);
    FitsIff(pages * ps, ps);
    SectorMultiple(pages, ps, m.sectorBytes);
    hide PageOf, OffsetIn, LastPageIdFits, ManifestOk;
  }

  lemma {:induction false} SectorMultiple(n: nat, ps: nat, sector: nat)
    requires sector > 0 && ps % sector == 0
    ensures (n * ps) % sector == 0
  {
    if n > 0 {
      SectorMultiple(n - 1, ps, sector);
      assert n * ps == (n - 1) * ps + ps;
      AddMultiples((n - 1) * ps, ps, sector);
    }
  }

  lemma AddMultiples(a: nat, b: nat, d: nat)
    requires d > 0 && a % d == 0 && b % d == 0
    ensures (a + b) % d == 0
  {
    var x, y := a / d, b / d;
    assert a + b == (x + y) * d;
    WholeCount(x + y, d);
  }
}
