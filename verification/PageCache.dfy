/**
  The write-back page cache over one volume: loading, budgeted eviction, flushing, and the
  byte-grained host operations.  Host operations run one at a time.

  `Content(p)` is what the host sees: the cached bytes if the page is cached, else what the
  page index resolves to.
*/
module PageCache {
  import opened Bytes
  import opened Paging
  import opened Volume
  import opened VolumeWriter
  import Protocol
  import CI = CacheInner

  type Bodies = map<PageId, CI.Body>

  function ContentOf(bodies: Bodies, m: Manifest, index: map<PageId, Entry>, p: PageId): seq<Byte> {
    if p in bodies then bodies[p].bytes else ResolveIn(m, index, p)
  }

  /** Cached pages are whole, and a clean one equals what the index resolves to. */
  ghost predicate Coherent(bodies: Bodies, m: Manifest, index: map<PageId, Entry>) {
    forall p :: p in bodies ==>
      |bodies[p].bytes| == m.pageSize && (bodies[p].state.Clean? ==> bodies[p].bytes == ResolveIn(m, index, p))
  }

  /** Rebinding `p` to the bytes the cache already holds changes nothing the host sees. */
  lemma FlushedView(b: Bodies, m: Manifest, ix: map<PageId, Entry>, ix': map<PageId, Entry>, p: PageId)
    requires Coherent(b, m, ix) && p in b
    requires forall q :: q != p ==> ResolveIn(m, ix', q) == ResolveIn(m, ix, q)
    requires b[p].state.Dirty? || ResolveIn(m, ix', p) == b[p].bytes
    ensures Coherent(b, m, ix')
    ensures forall q :: ContentOf(b, m, ix', q) == ContentOf(b, m, ix, q)
  {
    hide ResolveIn;
  }

  /** Dropping a page whose bytes the index holds changes nothing the host sees. */
  lemma DroppedView(b: Bodies, m: Manifest, ix: map<PageId, Entry>, p: PageId)
    requires Coherent(b, m, ix) && p in b && (b[p].state.Clean? || b[p].bytes == ResolveIn(m, ix, p))
    ensures Coherent(b - {p}, m, ix)
    ensures forall q :: ContentOf(b - {p}, m, ix, q) == ContentOf(b, m, ix, q)
  {
    hide ResolveIn;
  }

  lemma CachedContent(b: Bodies, m: Manifest, ix: map<PageId, Entry>, p: PageId)
    requires p in b
    ensures ContentOf(b, m, ix, p) == b[p].bytes
  {
  }

  lemma UncachedContent(b: Bodies, m: Manifest, ix: map<PageId, Entry>, p: PageId)
    requires p !in b
    ensures ContentOf(b, m, ix, p) == ResolveIn(m, ix, p)
  {
  }

  /** Putting a body sets that page's content and no other. */
  lemma PutView(b: Bodies, m: Manifest, ix: map<PageId, Entry>, p: PageId, body: CI.Body)
    requires Coherent(b, m, ix) && |body.bytes| == m.pageSize
    requires body.state.Clean? ==> body.bytes == ResolveIn(m, ix, p)
    ensures Coherent(b[p := body], m, ix)
    ensures ContentOf(b[p := body], m, ix, p) == body.bytes
    ensures forall q :: q != p ==> ContentOf(b[p := body], m, ix, q) == ContentOf(b, m, ix, q)
  {
    hide ResolveIn;
  }

  lemma HoleIsZero(m: Manifest, ix: map<PageId, Entry>, p: PageId)
    requires p !in ix
    ensures ResolveIn(m, ix, p) == Zeros(m.pageSize)
  {
  }

  /** Dropping a page and rebinding it in the index affects that page alone. */
  lemma ReboundView(b: Bodies, m: Manifest, ix: map<PageId, Entry>, ix': map<PageId, Entry>, p: PageId)
    requires Coherent(b, m, ix)
    requires ix' - {p} == ix - {p}
    ensures Coherent(b - {p}, m, ix')
    ensures forall q :: q != p ==> ContentOf(b - {p}, m, ix', q) == ContentOf(b, m, ix, q)
  {
    forall q | q != p
      ensures ResolveIn(m, ix', q) == ResolveIn(m, ix, q)
    {
      assert q in ix' - {p} <==> q in ix - {p};
      assert q in ix ==> (ix' - {p})[q] == (ix - {p})[q];
    }
    hide ResolveIn;
  }

  /** A change to the slot of an uncached page affects that page alone. */
  lemma SlotChanged(b: Bodies, m: Manifest, ix: map<PageId, Entry>, ix': map<PageId, Entry>, p: PageId)
    requires Coherent(b, m, ix) && p !in b && ix' - {p} == ix - {p}
    ensures Coherent(b, m, ix')
    ensures ContentOf(b, m, ix', p) == ResolveIn(m, ix', p)
    ensures forall q :: q != p ==> ContentOf(b, m, ix', q) == ContentOf(b, m, ix, q)
  {
    ReboundView(b, m, ix, ix', p);
    assert b - {p} == b;
  }

  lemma WholeContent(b: Bodies, m: Manifest, ix: map<PageId, Entry>, p: PageId)
    requires Coherent(b, m, ix) && WholePages(m, ix)
    ensures |ContentOf(b, m, ix, p)| == m.pageSize
  {
  }

  lemma RemovedSize<K, V>(m: map<K, V>, k: K)
    requires k in m
    ensures |m - {k}| == |m| - 1
  {
    assert (m - {k}).Keys == m.Keys - {k};
  }

  lemma AddedSize<K, V>(m: map<K, V>, k: K, v: V)
    ensures |m[k := v]| == if k in m then |m| else |m| + 1
  {
    assert m[k := v].Keys == m.Keys + {k};
    if k in m { assert m[k := v].Keys == m.Keys; }
  }

  /** Byte `j` after `data` is written at `offset` over a byte that was `was`. */
  function Overlay(was: Byte, data: seq<Byte>, offset: nat, j: nat): Byte {
    if offset <= j < offset + |data| then data[j - offset] else was
  }

  lemma NothingOverlaid(offset: nat)
    ensures forall was, j: nat :: Overlay(was, [], offset, j) == was
  {
  }

  /** Writing a prefix and then the next slice is writing the longer prefix. */
  lemma OverlayStep(was: Byte, data: seq<Byte>, offset: nat, k: nat, n: nat, j: nat)
    requires k + n <= |data|
    ensures Overlay(Overlay(was, data[..k], offset, j), data[k..k + n], offset + k, j) == Overlay(was, data[..k + n], offset, j)
  {
  }

  datatype SyncAfter = Memory | Disk | Storage

  datatype SyncResult = Synced | FlushFailed(e: WriterError) | UploadsFailed | StillWaiting | RestoreFailed(x: WriterError)

  function InRange(s: set<PageId>, first: PageId, last: PageId): set<PageId> {
    set p | p in s && first <= p <= last
  }

  predicate IsMin(s: set<PageId>, p: PageId) {
    p in s && forall q :: q in s ==> p <= q
  }

  lemma {:induction false} MinExists(s: set<PageId>)
    requires s != {}
    ensures exists p :: IsMin(s, p)
    decreases |s|
  {
    var x :| x in s;
    if s - {x} == {} {
      assert s == {x};
      assert IsMin(s, x);
    } else {
      MinExists(s - {x});
      var m :| IsMin(s - {x}, m);
      var least := if x < m then x else m;
      assert forall q :: q in s ==> q == x || q in s - {x};
      assert IsMin(s, least);
    }
  }

  /** The next pages to flush: the lowest-numbered dirty pages of the range, at most `n` of them. */
  method PickBatch(dirty: set<PageId>, first: PageId, last: PageId, n: nat) returns (batch: seq<PageId>)
    ensures |batch| == Min(n, |InRange(dirty, first, last)|)
    ensures forall i, j :: 0 <= i < j < |batch| ==> batch[i] < batch[j]
    ensures forall p :: p in batch ==> p in InRange(dirty, first, last)
    ensures forall p, q :: p in batch && q in InRange(dirty, first, last) && q !in batch ==> p < q
  {
    var all := InRange(dirty, first, last);
    hide InRange;
    var rest := all;
    batch := [];
    while |batch| < n && rest != {}
      invariant |batch| + |rest| == |all| && |batch| <= n
      invariant forall i, j :: 0 <= i < j < |batch| ==> batch[i] < batch[j]
      invariant forall p :: p in all <==> p in batch || p in rest
      invariant forall p, q :: p in batch && q in rest ==> p < q
      decreases |rest|
    {
      MinExists(rest);
      var p :| IsMin(rest, p);
      assert forall q :: q in rest - {p} ==> p < q;
      assert forall i :: 0 <= i < |batch| ==> batch[i] in batch;
      batch := batch + [p];
      rest := rest - {p};
    }
  }

  ghost function FirstDifference(a: seq<Byte>, b: seq<Byte>): (i: nat)
    requires |a| == |b| && a != b
    ensures i < |a| && a[i] != b[i]
  {
    if a[0] != b[0] then 0
    else
      assert a == [a[0]] + a[1..] && b == [b[0]] + b[1..];
      1 + FirstDifference(a[1..], b[1..])
  }

  /** What a step of the cache may change outside the cache. */
  datatype Outside = Outside(
    storage: set<Chunk>, pool: set<Chunk>, size: nat,
    checked: multiset<PageId>, flipped: multiset<PageId>, reliable: bool, backed: bool)

  {
    /** Reliable devices, no completion under way, and the upload protocol's invariant. */
    ghost predicate Sound() { backed && reliable && checked == multiset{} && flipped == multiset{} }
  }

  /** Chunks are only added, and the size and the completions stay. */
  ghost predicate OnlyAdded(a: Outside, b: Outside) {
    && a.storage <= b.storage && a.pool <= b.pool && b.size == a.size
    && b.checked == a.checked && b.flipped == a.flipped && b.reliable == a.reliable
  }

  /** And what was sound stays sound. */
  ghost predicate Grew(a: Outside, b: Outside) {
    OnlyAdded(a, b) && (a.Sound() ==> b.Sound())
  }

  lemma GrewTwice(a: Outside, b: Outside, c: Outside)
    ensures Grew(a, a)
    ensures Grew(a, b) && Grew(b, c) ==> Grew(a, c)
  {
  }

  class Cache {
    const inner: CI.CacheInner
    const writer: Writer
    const budgetPages: nat

    ghost predicate Valid()
      reads inner, writer, writer.store
    {
      && inner.Valid()
      && writer.Valid()
      && 1 <= budgetPages
      && |inner.pages| <= budgetPages
      && Coherent(inner.Bodies(), writer.manifest, writer.index)
      && writer.unsettled <= inner.dirty
    }

    ghost function Content(p: PageId): seq<Byte>
      reads inner, writer
    {
      ContentOf(inner.Bodies(), writer.manifest, writer.index, p)
    }

    /** The budget is whole pages, and at least one. */
    constructor (w: Writer, budgetBytes: nat)
      requires w.Valid() && w.unsettled == {}
      ensures Valid() && writer == w && fresh(inner) && inner.Bodies() == map[]
      ensures budgetPages == Max(1, budgetBytes / w.manifest.pageSize)
    {
      var t := new CI.CacheInner();
      inner := t;
      writer := w;
      budgetPages := Max(1, budgetBytes / w.manifest.pageSize);
    }

    /** What no cache operation does: forget stored chunks, or resize the volume. */
    twostate predicate Lasting()
      reads writer, writer.store
    {
      old(writer.store.storage) <= writer.store.storage && writer.sizeBytes == old(writer.sizeBytes)
    }

    ghost function Stamp(): Outside
      reads writer, writer.store
    {
      Outside(writer.store.storage, writer.store.pool, writer.sizeBytes, writer.checked, writer.flipped, writer.reliable, writer.Backed())
    }

    /** A step of the cache, during which the upload worker stands still. */
    twostate predicate StoreGrew()
      reads writer, writer.store
    {
      Grew(old(Stamp()), Stamp())
    }

    /** A step of the cache that then waits for the upload worker. */
    twostate predicate WaitedFor()
      reads writer, writer.store
    {
      && Lasting()
      && old(writer.store.pool) <= writer.store.pool
      && (old(writer.Backed() && writer.Calm()) ==> writer.Backed())
    }

    // ----- eviction -----

    method EvictClean(pid: PageId)
      requires Valid() && pid in inner.pages && pid !in inner.dirty
      modifies inner
      ensures Valid() && StoreGrew()
      ensures forall p :: Content(p) == old(Content(p))
      ensures inner.pages.Keys == old(inner.pages).Keys - {pid} && |inner.pages| == |old(inner.pages)| - 1
    {
      hide CI.CacheInner.Valid, CI.CacheInner.Bodies, Writer.Valid, Writer.Backed, ResolveIn, Coherent, ContentOf;
      inner.Facts();
      DroppedView(inner.Bodies(), writer.manifest, writer.index, pid);
      RemovedSize(inner.Bodies(), pid);
      var _ := inner.DropEntry(pid);
      inner.Facts();
    }

    /** The index holds what the host sees, on a page that can be flushed. */
    ghost predicate Flushed(p: PageId)
      reads inner, writer
    {
      writer.Resolve(p) == Content(p) && writer.manifest.pageSize > 0 && p <= writer.LastPageId()
    }

    /** Write a dirty page's bytes through to the index.  The cache itself is not touched. */
    method WriteBack(pid: PageId) returns (r: Result<(), WriterError>)
      requires Valid() && pid in inner.dirty
      modifies writer, writer.store
      ensures Valid()
      ensures forall p :: Content(p) == old(Content(p))
      ensures forall p :: p != pid ==> Flushed(p) == old(Flushed(p))
      ensures r.Ok? ==> Flushed(pid) && pid !in writer.unsettled
      ensures StoreGrew()
    {
      hide CI.CacheInner.Valid, CI.CacheInner.Bodies, Writer.Valid, Writer.Backed, ResolveIn, Coherent, ContentOf;
      writer.Facts();
      inner.Facts();
      r := writer.WritePageUnsynced(pid, inner.pages[pid].body.bytes);
      FlushedView(inner.Bodies(), writer.manifest, old(writer.index), writer.index, pid);
      CachedContent(inner.Bodies(), writer.manifest, writer.index, pid);
    }

    /** Flush one dirty victim and drop it if nothing rewrote it; on failure it stays cached and dirty. */
    method EvictDirty(pid: PageId) returns (r: Result<(), WriterError>)
      requires Valid() && pid in inner.dirty
      modifies inner, writer, writer.store
      ensures Valid()
      ensures forall p :: Content(p) == old(Content(p))
      ensures StoreGrew()
      ensures r.Ok? ==> inner.pages.Keys == old(inner.pages).Keys - {pid} && |inner.pages| == |old(inner.pages)| - 1
      ensures r.Err? ==> inner.pages == old(inner.pages)
    {
      hide CI.CacheInner.Valid, CI.CacheInner.Bodies, Writer.Valid, Writer.Backed, ResolveIn, Coherent, ContentOf, Grew, Stamp;
      GrewTwice(Stamp(), Stamp(), Stamp());
      inner.Facts();
      var version := inner.pages[pid].body.version;
      r := WriteBack(pid);
      if r.Ok? && inner.pages[pid].body.version == version {
        CachedContent(inner.Bodies(), writer.manifest, writer.index, pid);
        DroppedView(inner.Bodies(), writer.manifest, writer.index, pid);
        RemovedSize(inner.Bodies(), pid);
        var _ := inner.DropEntry(pid);
        inner.Facts();
      }
    }

    /** The least recently used clean page, else the least recently used one. */
    method PickVictim() returns (victim: Option<PageId>)
      requires inner.Valid()
      ensures victim.None? <==> inner.pages == map[]
      ensures victim.Some? ==> victim.value in inner.pages
      ensures victim.Some? && victim.value in inner.dirty ==> inner.dirty == inner.pages.Keys
    {
      inner.Facts();
      hide CI.CacheInner.Valid, CI.CacheInner.Bodies;
      victim := inner.LruPick(true);
      if victim.None? { victim := inner.LruPick(false); }
    }

    /** Drop a clean victim, or flush and drop a dirty one. */
    method EvictOne() returns (r: Result<bool, WriterError>)
      requires Valid()
      modifies inner, writer, writer.store
      ensures Valid() && StoreGrew()
      ensures forall p :: Content(p) == old(Content(p))
      ensures inner.pages.Keys <= old(inner.pages).Keys
      ensures r == Ok(true) ==> |inner.pages| == |old(inner.pages)| - 1
      ensures r == Ok(false) ==> inner.pages == map[]
    {
      hide CI.CacheInner.Valid, CI.CacheInner.Bodies, Writer.Valid, Writer.Backed, ResolveIn, Coherent, ContentOf, Content, Grew, Stamp;
      GrewTwice(Stamp(), Stamp(), Stamp());
      var victim := PickVictim();
      hide Valid;
      if victim.None? { return Ok(false); }
      if victim.value in inner.dirty {
        var flushed := EvictDirty(victim.value);
        if flushed.Err? { return Err(flushed.error); }
      } else {
        EvictClean(victim.value);
      }
      return Ok(true);
    }

    /** Make room for `wanted` more pages, one victim at a time. */
    method EvictToFit(wanted: nat) returns (r: Result<(), WriterError>)
      requires Valid()
      modifies inner, writer, writer.store
      ensures Valid() && StoreGrew()
      ensures forall p :: Content(p) == old(Content(p))
      ensures inner.pages.Keys <= old(inner.pages).Keys
      ensures r.Ok? ==> |inner.pages| + wanted <= budgetPages || (wanted > budgetPages && inner.pages == map[])
    {
      hide Valid, Writer.Backed, Content, Grew, Stamp;
      GrewTwice(Stamp(), Stamp(), Stamp());
      while |inner.pages| + wanted > budgetPages
        invariant Valid() && StoreGrew()
        invariant forall p :: Content(p) == old(Content(p))
        invariant inner.pages.Keys <= old(inner.pages).Keys
        decreases |inner.pages|
      {
        ghost var s1 := Stamp();
        var one := EvictOne();
        GrewTwice(old(Stamp()), s1, Stamp());
        if one.Err? { return Err(one.error); }
        if !one.value { break; }
      }
      return Ok(());
    }

    // ----- single pages -----

    method PutClean(p: PageId, bytes: seq<Byte>)
      requires Valid() && p !in inner.pages && |inner.pages| + 1 <= budgetPages
      requires |bytes| == writer.manifest.pageSize && bytes == Content(p)
      modifies inner
      ensures Valid() && p in inner.pages
      ensures forall q :: Content(q) == old(Content(q))
    {
      hide CI.CacheInner.Valid, CI.CacheInner.Bodies, Writer.Valid, Writer.Backed, ResolveIn, Coherent, ContentOf;
      inner.Facts();
      UncachedContent(inner.Bodies(), writer.manifest, writer.index, p);
      var body := CI.Body(bytes, CI.Clean, 0);
      PutView(inner.Bodies(), writer.manifest, writer.index, p, body);
      AddedSize(inner.Bodies(), p, body);
      inner.Put(p, body);
      inner.Facts();
    }

    /** Fetch a page that is not cached, make room, and insert it clean. */
    method LoadPageMiss(p: PageId) returns (r: Result<seq<Byte>, WriterError>)
      requires Valid() && p !in inner.pages
      modifies inner, writer, writer.store
      ensures Valid()
      ensures forall q :: Content(q) == old(Content(q))
      ensures StoreGrew()
      ensures r.Ok? ==> p in inner.pages && r.value == Content(p)
    {
      hide CI.CacheInner.Valid, CI.CacheInner.Bodies, Writer.Valid, Writer.Backed, ResolveIn, Coherent, ContentOf;
      inner.Facts();
      var read := writer.ReadPage(p);
      if read.Err? { return Err(read.error); }
      var bytes := if read.value.Some? then read.value.value else Zeros(writer.manifest.pageSize);
      if read.value.None? { HoleIsZero(writer.manifest, writer.index, p); }
      UncachedContent(inner.Bodies(), writer.manifest, writer.index, p);
      if |bytes| != writer.manifest.pageSize { return Err(PageSizeMismatch); }
      assert Valid() && Content(p) == bytes;
      var room := EvictToFit(1);
      if room.Err? { return Err(room.error); }
      inner.Facts();
      assert Content(p) == bytes;
      PutClean(p, bytes);
      return Ok(bytes);
    }

    /** The page's current bytes, cached on return. */
    method AcquirePage(p: PageId) returns (r: Result<seq<Byte>, WriterError>)
      requires Valid()
      modifies inner, writer, writer.store
      ensures Valid()
      ensures forall q :: Content(q) == old(Content(q))
      ensures StoreGrew()
      ensures r.Ok? ==> p in inner.pages && r.value == Content(p)
    {
      hide CI.CacheInner.Valid, CI.CacheInner.Bodies, Writer.Valid, Writer.Backed, ResolveIn, Coherent, ContentOf;
      inner.Facts();
      if p in inner.pages {
        CachedContent(inner.Bodies(), writer.manifest, writer.index, p);
        r := Ok(inner.pages[p].body.bytes);
        inner.Touch(p);
        inner.Facts();
        return;
      }
      r := LoadPageMiss(p);
    }

    /** Set a page's bytes in the cache, dirty, with a new version. */
    method PutDirty(p: PageId, bytes: seq<Byte>)
      requires Valid() && |bytes| == writer.manifest.pageSize
      requires p in inner.pages || |inner.pages| + 1 <= budgetPages
      modifies inner
      ensures Valid() && p in inner.dirty
      ensures Content(p) == bytes && forall q :: q != p ==> Content(q) == old(Content(q))
    {
      hide CI.CacheInner.Valid, CI.CacheInner.Bodies, Writer.Valid, Writer.Backed, ResolveIn, Coherent, ContentOf;
      inner.Facts();
      var version := if p in inner.pages then inner.pages[p].body.version else 0;
      var body := CI.Body(bytes, CI.Dirty, (version + 1) % U64_LIMIT);
      PutView(inner.Bodies(), writer.manifest, writer.index, p, body);
      AddedSize(inner.Bodies(), p, body);
      inner.Put(p, body);
      inner.Facts();
    }

    /** A whole-page write: no load, only room. */
    method InstallFullPage(p: PageId, bytes: seq<Byte>) returns (r: Result<(), WriterError>)
      requires Valid()
      modifies inner, writer, writer.store
      ensures Valid()
      ensures StoreGrew()
      ensures |bytes| != writer.manifest.pageSize ==> r == Err(PageSizeMismatch)
      ensures r.Ok? ==> Content(p) == bytes
      ensures forall q :: q != p || r.Err? ==> Content(q) == old(Content(q))
    {
      hide CI.CacheInner.Valid, CI.CacheInner.Bodies, Writer.Valid, Writer.Backed, ResolveIn, Coherent, ContentOf;
      if |bytes| != writer.manifest.pageSize { return Err(PageSizeMismatch); }
      if p !in inner.pages {
        r := EvictToFit(1);
        if r.Err? { return; }
      }
      PutDirty(p, bytes);
      return Ok(());
    }

    /** A sub-page write: load if needed, then splice in place. */
    method ModifyPage(p: PageId, offset: nat, bytes: seq<Byte>) returns (r: Result<(), WriterError>)
      requires Valid() && offset + |bytes| <= writer.manifest.pageSize
      modifies inner, writer, writer.store
      ensures Valid()
      ensures StoreGrew()
      ensures |old(Content(p))| == writer.manifest.pageSize
      ensures r.Ok? ==> Content(p) == old(Content(p))[..offset] + bytes + old(Content(p))[offset + |bytes|..]
      ensures forall q :: q != p || r.Err? ==> Content(q) == old(Content(q))
    {
      hide CI.CacheInner.Valid, CI.CacheInner.Bodies, Writer.Valid, Writer.Backed, ResolveIn, Coherent, ContentOf;
      writer.Facts();
      WholeContent(inner.Bodies(), writer.manifest, writer.index, p);
      var current := AcquirePage(p);
      if current.Err? { return Err(current.error); }
      var page := current.value;
      PutDirty(p, page[..offset] + bytes + page[offset + |bytes|..]);
      return Ok(());
    }

    /** What dropping a page leaves: the page reads from its slot, and the rest is as it was. */
    ghost predicate Dropped(p: PageId)
      reads inner, writer
    {
      && inner.Valid() && |inner.pages| <= budgetPages && p !in inner.Bodies()
      && Coherent(inner.Bodies(), writer.manifest, writer.index)
    }

    /** Drop the page from memory, clean or dirty, ahead of a change to its index slot. */
    method DropCached(p: PageId)
      requires Valid()
      modifies inner
      ensures Dropped(p) && inner.dirty == old(inner.dirty) - {p} && p !in inner.pages
      ensures Content(p) == writer.Resolve(p) && (p !in old(inner.dirty) ==> Content(p) == old(Content(p)))
      ensures forall q :: q != p ==> Content(q) == old(Content(q))
    {
      if p !in inner.dirty { CleanIsIndexed(p); }
      hide CI.CacheInner.Valid, CI.CacheInner.Bodies, Writer.Valid, Writer.Backed, ResolveIn, Coherent, ContentOf;
      ReboundView(inner.Bodies(), writer.manifest, writer.index, writer.index, p);
      inner.Facts();
      if p in inner.pages { RemovedSize(inner.Bodies(), p); }
      var _ := inner.DropEntry(p);
      inner.Facts();
      UncachedContent(inner.Bodies(), writer.manifest, writer.index, p);
    }

    /** Changing the slot of a dropped page, and forgetting its failed write, restores the invariant. */
    twostate lemma Reslotted(p: PageId)
      requires old(Dropped(p)) && unchanged(inner) && writer.Valid() && 1 <= budgetPages
      requires writer.index - {p} == old(writer.index) - {p} && writer.unsettled <= inner.dirty
      ensures Valid() && Content(p) == writer.Resolve(p)
      ensures forall q :: q != p ==> Content(q) == old(Content(q))
    {
      SlotChanged(inner.Bodies(), writer.manifest, old(writer.index), writer.index, p);
    }

    /**
      Forget the page: drop it from the cache, clean or dirty, and clear its index slot.  If the
      slot cannot be cleared the cached bytes are gone all the same, and the page reads as it
      was last flushed.
     */
    method UnmapFullPage(p: PageId) returns (r: Result<(), WriterError>)
      requires Valid()
      modifies inner, writer
      ensures Valid() && StoreGrew() && (writer.reliable ==> r.Ok?)
      ensures p !in inner.pages
      ensures r.Ok? ==> Content(p) == Zeros(writer.manifest.pageSize) && p !in writer.index
      ensures r.Err? ==> Content(p) == writer.Resolve(p) == old(writer.Resolve(p))
      ensures r.Err? && p !in old(inner.dirty) ==> Content(p) == old(Content(p))
      ensures forall q :: q != p ==> Content(q) == old(Content(q))
    {
      hide CI.CacheInner.Valid, CI.CacheInner.Bodies, Writer.Valid, Writer.Backed, ResolveIn, Coherent, ContentOf;
      hide Dropped, Content;
      DropCached(p);
      label Dropped:
      var ok := writer.ClearPage(p);
      Reslotted@Dropped(p);
      hide Valid;
      if !ok { return Err(IndexIo); }
      HoleIsZero(writer.manifest, writer.index, p);
      return Ok(());
    }

    // ----- the flat byte array -----

    predicate Addressable(j: nat) {
      writer.manifest.pageSize > 0 && PageOf(j, writer.manifest.pageSize) < U32_LIMIT
    }

    ghost predicate AllAddressable(lo: nat, hi: nat) {
      forall j: nat :: lo <= j < hi ==> Addressable(j)
    }

    lemma JoinAddressable(lo: nat, mid: nat, hi: nat)
      ensures AllAddressable(lo, lo)
      ensures AllAddressable(lo, mid) && AllAddressable(mid, hi) ==> AllAddressable(lo, hi)
    {
    }

    lemma HasStore()
      requires Valid()
      ensures writer.store.Valid() && writer.store.backend == writer.manifest.backend
    {
    }

    lemma HasPages()
      requires Valid()
      ensures writer.manifest.pageSize > 0
    {
      writer.Facts();
    }

    /** Byte `j` of the flat array the cache must agree with. */
    ghost function ByteAt(j: nat): Byte
      reads inner, writer, writer.store
      requires Valid() && Addressable(j)
    {
      var p: PageId := PageOf(j, writer.manifest.pageSize);
      WholeContent(inner.Bodies(), writer.manifest, writer.index, p);
      Content(p)[OffsetIn(j, writer.manifest.pageSize)]
    }

    /** How much of the next `left` bytes lies in the cursor's page. */
    function RunLength(cursor: nat, left: nat): (n: nat)
      requires writer.manifest.pageSize > 0 && left > 0
      ensures 0 < n <= left && n <= writer.manifest.pageSize - OffsetIn(cursor, writer.manifest.pageSize)
    {
      Min(left, writer.manifest.pageSize - OffsetIn(cursor, writer.manifest.pageSize))
    }

    /** The part of a read that falls into one page. */
    method ReadInPage(cursor: nat, n: nat) returns (r: Result<seq<Byte>, WriterError>)
      requires Valid() && 0 < n <= writer.manifest.pageSize - OffsetIn(cursor, writer.manifest.pageSize)
      modifies inner, writer, writer.store
      ensures Valid() && StoreGrew()
      ensures !Addressable(cursor) ==> r == Err(PageOutOfRange)
      ensures forall p :: Content(p) == old(Content(p))
      ensures forall j: nat :: Addressable(j) ==> ByteAt(j) == old(ByteAt(j))
      ensures r.Ok? ==> |r.value| == n && forall j: nat :: cursor <= j < cursor + n ==> Addressable(j) && r.value[j - cursor] == ByteAt(j)
    {
      hide CI.CacheInner.Valid, CI.CacheInner.Bodies, Writer.Valid, Writer.Backed, ResolveIn, Coherent, ContentOf, PageOf, OffsetIn;
      writer.Facts();
      var ps := writer.manifest.pageSize;
      if PageOf(cursor, ps) >= U32_LIMIT { return Err(PageOutOfRange); }
      var p: PageId := PageOf(cursor, ps);
      WholeContent(inner.Bodies(), writer.manifest, writer.index, p);
      var page := AcquirePage(p);
      if page.Err? { return page; }
      r := Ok(page.value[OffsetIn(cursor, ps)..OffsetIn(cursor, ps) + n]);
      forall j: nat | cursor <= j < cursor + n
        ensures Addressable(j) && r.value[j - cursor] == ByteAt(j)
      {
        InPageRun(j, cursor, n, ps);
      }
    }

    /** The part of a write that falls into one page: a whole page is installed, less is spliced in. */
    method WriteInPage(cursor: nat, slice: seq<Byte>) returns (r: Result<(), WriterError>)
      requires Valid() && 0 < |slice| <= writer.manifest.pageSize - OffsetIn(cursor, writer.manifest.pageSize)
      modifies inner, writer, writer.store
      ensures Valid() && StoreGrew()
      ensures !Addressable(cursor) ==> r == Err(PageOutOfRange)
      ensures r.Ok? ==> AllAddressable(cursor, cursor + |slice|)
      ensures forall j: nat :: Addressable(j) ==>
        ByteAt(j) == if r.Ok? then Overlay(old(ByteAt(j)), slice, cursor, j) else old(ByteAt(j))
    {
      hide CI.CacheInner.Valid, CI.CacheInner.Bodies, Writer.Valid, Writer.Backed, ResolveIn, Coherent, ContentOf, PageOf, OffsetIn;
      writer.Facts();
      var ps := writer.manifest.pageSize;
      if PageOf(cursor, ps) >= U32_LIMIT { return Err(PageOutOfRange); }
      var p: PageId := PageOf(cursor, ps);
      var off := OffsetIn(cursor, ps);
      WholeContent(inner.Bodies(), writer.manifest, writer.index, p);
      ghost var was := Content(p);
      if off == 0 && |slice| == ps {
        r := InstallFullPage(p, slice);
        assert r.Ok? ==> Content(p) == was[..off] + slice + was[off + |slice|..];
      } else {
        r := ModifyPage(p, off, slice);
      }
      forall j: nat | cursor <= j < cursor + |slice|
        ensures Addressable(j)
      {
        InPageRun(j, cursor, |slice|, ps);
      }
      forall j: nat | Addressable(j)
        ensures ByteAt(j) == if r.Ok? then Overlay(old(ByteAt(j)), slice, cursor, j) else old(ByteAt(j))
      {
        InPageRun(j, cursor, |slice|, ps);
      }
    }

    /** Byte `j` as the page index holds it. */
    ghost function StoredByteAt(j: nat): Byte
      reads writer, writer.store
      requires writer.Valid() && Addressable(j)
    {
      var p: PageId := PageOf(j, writer.manifest.pageSize);
      WholeContent(map[], writer.manifest, writer.index, p);
      UncachedContent(map[], writer.manifest, writer.index, p);
      writer.Resolve(p)[OffsetIn(j, writer.manifest.pageSize)]
    }

    /** The part of an unmap that falls into one page: a whole page is cleared, less is zeroed. */
    method UnmapInPage(cursor: nat, n: nat) returns (r: Result<(), WriterError>, ghost reverted: bool)
      requires Valid() && 0 < n <= writer.manifest.pageSize - OffsetIn(cursor, writer.manifest.pageSize)
      modifies inner, writer, writer.store
      ensures Valid() && StoreGrew()
      ensures !Addressable(cursor) ==> r == Err(PageOutOfRange)
      ensures reverted ==> r.Err? && !writer.reliable && n == writer.manifest.pageSize
      ensures forall j: nat :: Addressable(j) && !(reverted && cursor <= j < cursor + n) ==>
        ByteAt(j) == if r.Ok? then Overlay(old(ByteAt(j)), Zeros(n), cursor, j) else old(ByteAt(j))
      ensures forall j: nat :: Addressable(j) && reverted && cursor <= j < cursor + n ==> ByteAt(j) == StoredByteAt(j)
    {
      hide CI.CacheInner.Valid, CI.CacheInner.Bodies, Writer.Valid, Writer.Backed, ResolveIn, Coherent, ContentOf, PageOf, OffsetIn;
      writer.Facts();
      reverted := false;
      var ps := writer.manifest.pageSize;
      if PageOf(cursor, ps) >= U32_LIMIT { return Err(PageOutOfRange), false; }
      var p: PageId := PageOf(cursor, ps);
      var off := OffsetIn(cursor, ps);
      WholeContent(inner.Bodies(), writer.manifest, writer.index, p);
      ghost var was := Content(p);
      if off == 0 && n == ps {
        r := UnmapFullPage(p);
        reverted := r.Err?;
        assert r.Ok? ==> Content(p) == was[..off] + Zeros(n) + was[off + n..];
      } else {
        r := ModifyPage(p, off, Zeros(n));
      }
      forall j: nat | Addressable(j)
        ensures !(reverted && cursor <= j < cursor + n) ==>
          ByteAt(j) == if r.Ok? then Overlay(old(ByteAt(j)), Zeros(n), cursor, j) else old(ByteAt(j))
        ensures reverted && cursor <= j < cursor + n ==> ByteAt(j) == StoredByteAt(j)
      {
        InPageRun(j, cursor, n, ps);
      }
    }

    // ----- host operations -----

    /** The range holds exactly these bytes. */
    ghost predicate RangeIs(offset: nat, bytes: seq<Byte>)
      reads inner, writer, writer.store
      requires Valid()
    {
      forall j: nat :: offset <= j < offset + |bytes| ==> Addressable(j) && ByteAt(j) == bytes[j - offset]
    }

    lemma RangeIsEmpty(offset: nat)
      requires Valid()
      ensures RangeIs(offset, [])
    {
    }

    /** Some addressable byte of the range is another. */
    ghost predicate RangeDiffers(offset: nat, bytes: seq<Byte>)
      reads inner, writer, writer.store
      requires Valid()
    {
      exists j: nat :: offset <= j < offset + |bytes| && Addressable(j) && ByteAt(j) != bytes[j - offset]
    }

    /** Read on from `out`, the bytes so far, to the end of the next page or of the range. */
    method ReadOn(offset: nat, len: nat, out: seq<Byte>) returns (r: Result<seq<Byte>, WriterError>)
      requires Valid() && writer.manifest.pageSize > 0 && |out| < len && RangeIs(offset, out)
      modifies inner, writer, writer.store
      ensures Valid() && StoreGrew()
      ensures forall j: nat :: Addressable(j) ==> ByteAt(j) == old(ByteAt(j))
      ensures r.Ok? ==> |out| < |r.value| <= len && RangeIs(offset, r.value)
    {
      hide Valid, Writer.Backed, Addressable, ByteAt, OffsetIn, RunLength, Grew, Stamp;
      var n := RunLength(offset + |out|, len - |out|);
      var part := ReadInPage(offset + |out|, n);
      if part.Err? { return part; }
      return Ok(out + part.value);
    }

    /** READ: exactly the bytes last written, zeros where nothing was. */
    method ReadBytes(offset: nat, len: nat) returns (r: Result<seq<Byte>, WriterError>)
      requires Valid()
      modifies inner, writer, writer.store
      ensures Valid() && StoreGrew()
      ensures forall j: nat :: Addressable(j) ==> ByteAt(j) == old(ByteAt(j))
      ensures r.Ok? ==> |r.value| == len && RangeIs(offset, r.value)
    {
      hide Valid, Writer.Backed, Addressable, ByteAt, RangeIs, Grew, Stamp;
      HasPages();
      var out := [];
      RangeIsEmpty(offset);
      GrewTwice(Stamp(), Stamp(), Stamp());
      while |out| < len
        invariant Valid() && StoreGrew() && |out| <= len
        invariant forall j: nat :: Addressable(j) ==> ByteAt(j) == old(ByteAt(j))
        invariant RangeIs(offset, out)
      {
        ghost var s1 := Stamp();
        var more := ReadOn(offset, len, out);
        GrewTwice(old(Stamp()), s1, Stamp());
        if more.Err? { return more; }
        out := more.value;
      }
      return Ok(out);
    }

    /** WRITE: sets exactly the addressed bytes.  A failed write has applied a prefix, `done` bytes long. */
    method WriteBytes(offset: nat, data: seq<Byte>) returns (r: Result<(), WriterError>, ghost done: nat)
      requires Valid()
      modifies inner, writer, writer.store
      ensures Valid() && StoreGrew()
      ensures done <= |data| && (r.Ok? ==> done == |data|)
      ensures AllAddressable(offset, offset + done)
      ensures forall j: nat :: Addressable(j) ==> ByteAt(j) == Overlay(old(ByteAt(j)), data[..done], offset, j)
    {
      hide Valid, Writer.Backed, Addressable, AllAddressable, ByteAt, OffsetIn, Overlay, RunLength, Grew, Stamp;
      HasPages();
      NothingOverlaid(offset);
      JoinAddressable(offset, offset, offset);
      GrewTwice(Stamp(), Stamp(), Stamp());
      done := 0;
      assert data[..0] == [];
      var consumed := 0;
      while consumed < |data|
        invariant Valid() && StoreGrew()
        invariant consumed <= |data| && done == consumed
        invariant AllAddressable(offset, offset + consumed)
        invariant forall j: nat :: Addressable(j) ==> ByteAt(j) == Overlay(old(ByteAt(j)), data[..consumed], offset, j)
      {
        var cursor := offset + consumed;
        var n := RunLength(cursor, |data| - consumed);
        ghost var s1 := Stamp();
        r := WriteInPage(cursor, data[consumed..consumed + n]);
        GrewTwice(old(Stamp()), s1, Stamp());
        if r.Err? { return; }
        forall j: nat | Addressable(j)
          ensures ByteAt(j) == Overlay(old(ByteAt(j)), data[..consumed + n], offset, j)
        {
          OverlayStep(old(ByteAt(j)), data, offset, consumed, n, j);
        }
        JoinAddressable(offset, cursor, cursor + n);
        consumed := consumed + n;
        done := consumed;
      }
      return Ok(()), done;
    }

    /** Compare the bytes from the k-th on that fall into one page. */
    method CompareInPage(offset: nat, expected: seq<Byte>, k: nat) returns (r: Result<bool, WriterError>, n: nat)
      requires Valid() && k < |expected| && writer.manifest.pageSize > 0
      modifies inner, writer, writer.store
      ensures Valid() && StoreGrew()
      ensures 0 < n <= |expected| - k
      ensures forall j: nat :: Addressable(j) ==> ByteAt(j) == old(ByteAt(j))
      ensures r == Ok(true) ==>
        forall j: nat :: offset + k <= j < offset + k + n ==> Addressable(j) && ByteAt(j) == expected[j - offset]
      ensures r == Ok(false) ==> RangeDiffers(offset, expected)
    {
      hide Valid, Writer.Backed, Addressable, ByteAt, OffsetIn, RunLength;
      var cursor := offset + k;
      n := RunLength(cursor, |expected| - k);
      var want := expected[k..k + n];
      var part := ReadInPage(cursor, n);
      if part.Err? { return Err(part.error), n; }
      if part.value != want {
        ghost var i := FirstDifference(part.value, want);
        assert ByteAt(cursor + i) != expected[cursor + i - offset];
        return Ok(false), n;
      }
      return Ok(true), n;
    }

    /** Phase one of COMPARE AND WRITE: stops at the first page that differs. */
    method CompareBytes(offset: nat, expected: seq<Byte>) returns (r: Result<bool, WriterError>)
      requires Valid()
      modifies inner, writer, writer.store
      ensures Valid() && StoreGrew()
      ensures forall j: nat :: Addressable(j) ==> ByteAt(j) == old(ByteAt(j))
      ensures r == Ok(true) ==> RangeIs(offset, expected)
      ensures r == Ok(false) ==> RangeDiffers(offset, expected)
    {
      hide Valid, Writer.Backed, Addressable, ByteAt, RangeDiffers, Grew, Stamp;
      HasPages();
      GrewTwice(Stamp(), Stamp(), Stamp());
      var consumed := 0;
      while consumed < |expected|
        invariant Valid() && StoreGrew()
        invariant consumed <= |expected|
        invariant forall j: nat :: Addressable(j) ==> ByteAt(j) == old(ByteAt(j))
        invariant forall j: nat :: offset <= j < offset + consumed ==> Addressable(j) && ByteAt(j) == expected[j - offset]
      {
        var n;
        ghost var s1 := Stamp();
        r, n := CompareInPage(offset, expected, consumed);
        GrewTwice(old(Stamp()), s1, Stamp());
        if r != Ok(true) { return; }
        consumed := consumed + n;
      }
      return Ok(true);
    }

    /**
      COMPARE AND WRITE: true exactly when the range held `expected`, in which case it now
      holds `data`; otherwise nothing changes.
     */
    method CompareAndWriteBytes(offset: nat, expected: seq<Byte>, data: seq<Byte>) returns (r: Result<bool, WriterError>, ghost done: nat)
      requires Valid() && |expected| == |data|
      modifies inner, writer, writer.store
      ensures Valid() && StoreGrew()
      ensures done <= |data| && (r == Ok(true) ==> done == |data|) && (r == Ok(false) ==> done == 0)
      ensures forall j: nat :: Addressable(j) ==> ByteAt(j) == Overlay(old(ByteAt(j)), data[..done], offset, j)
      ensures r == Ok(true) || done > 0 ==> old(RangeIs(offset, expected))
      ensures r == Ok(false) ==> old(RangeDiffers(offset, expected))
    {
      NothingOverlaid(offset);
      hide Valid, Writer.Backed, Addressable, ByteAt, Overlay;
      done := 0;
      assert data[..0] == [];
      r := CompareBytes(offset, expected);
      if r != Ok(true) { return; }
      var w;
      w, done := WriteBytes(offset, data);
      if w.Err? { r := Err(w.error); }
    }

    /**
      UNMAP: zeroes exactly the addressed bytes.  A failed unmap has applied a prefix, `done`
      bytes long; if it failed to clear an index slot, that page, the next `reverted` bytes,
      reads as it was last flushed.
     */
    method UnmapBytes(offset: nat, len: nat) returns (r: Result<(), WriterError>, ghost done: nat, ghost reverted: nat)
      requires Valid()
      modifies inner, writer, writer.store
      ensures Valid() && StoreGrew()
      ensures done + reverted <= len && (r.Ok? ==> done == len)
      ensures reverted > 0 ==> r.Err? && !writer.reliable && reverted == writer.manifest.pageSize
      ensures forall j: nat :: Addressable(j) && !(offset + done <= j < offset + done + reverted) ==>
        ByteAt(j) == Overlay(old(ByteAt(j)), Zeros(done), offset, j)
      ensures forall j: nat :: Addressable(j) && offset + done <= j < offset + done + reverted ==> ByteAt(j) == StoredByteAt(j)
    {
      hide Valid, Writer.Backed, Writer.Valid, Addressable, ByteAt, StoredByteAt, OffsetIn, RunLength, Grew, Stamp;
      HasPages();
      GrewTwice(Stamp(), Stamp(), Stamp());
      done, reverted := 0, 0;
      var cursor := offset;
      while cursor < offset + len
        invariant Valid() && StoreGrew()
        invariant offset <= cursor <= offset + len && done == cursor - offset && reverted == 0
        invariant forall j: nat :: Addressable(j) ==> ByteAt(j) == Overlay(old(ByteAt(j)), Zeros(cursor - offset), offset, j)
      {
        var n := RunLength(cursor, offset + len - cursor);
        ghost var back;
        ghost var s1 := Stamp();
        r, back := UnmapInPage(cursor, n);
        GrewTwice(old(Stamp()), s1, Stamp());
        if r.Err? {
          reverted := if back then n else 0;
          return;
        }
        cursor := cursor + n;
        done := cursor - offset;
      }
      return Ok(()), done, 0;
    }

    // ----- flushing -----

    /** Flush one page if it is dirty; it becomes clean only if nothing rewrote it meanwhile. */
    method FlushOne(p: PageId) returns (r: Result<bool, WriterError>)
      requires Valid()
      modifies inner, writer, writer.store
      ensures Valid() && StoreGrew()
      ensures forall q :: Content(q) == old(Content(q))
      ensures inner.dirty == if r == Ok(true) then old(inner.dirty) - {p} else old(inner.dirty)
      ensures inner.pages.Keys == old(inner.pages.Keys)
      ensures r == Ok(false) ==> p !in old(inner.dirty)
      ensures r == Ok(true) ==> p in old(inner.dirty) && Flushed(p)
      ensures forall q :: q != p ==> Flushed(q) == old(Flushed(q))
    {
      hide CI.CacheInner.Valid, CI.CacheInner.Bodies, Writer.Valid, Writer.Backed, ResolveIn, Coherent, ContentOf, Content, Flushed, Grew, Stamp;
      GrewTwice(Stamp(), Stamp(), Stamp());
      inner.Facts();
      if p !in inner.pages || inner.pages[p].body.state.Clean? { return Ok(false); }
      var version := inner.pages[p].body.version;
      hide Valid;
      var w := WriteBack(p);
      if w.Err? { return Err(w.error); }
      if p in inner.pages && inner.pages[p].body.version == version { MarkFlushed(p); }
      return Ok(true);
    }

    /** The page's bytes are in the index: it is clean from now on. */
    method MarkFlushed(p: PageId)
      requires Valid() && p in inner.dirty && Flushed(p) && p !in writer.unsettled
      modifies inner
      ensures Valid() && inner.dirty == old(inner.dirty) - {p} && inner.pages.Keys == old(inner.pages.Keys)
      ensures forall q :: Content(q) == old(Content(q))
      ensures forall q :: Flushed(q) == old(Flushed(q))
    {
      hide CI.CacheInner.Valid, CI.CacheInner.Bodies, Writer.Valid, Writer.Backed, ResolveIn, Coherent, ContentOf;
      writer.Facts();
      inner.Facts();
      WholeContent(inner.Bodies(), writer.manifest, writer.index, p);
      CachedContent(inner.Bodies(), writer.manifest, writer.index, p);
      PutView(inner.Bodies(), writer.manifest, writer.index, p, inner.pages[p].body.(state := CI.Clean));
      inner.MarkClean(p);
      inner.Facts();
    }

    /** Flush every page of a batch, whatever fails on the way. */
    method FlushBatch(batch: seq<PageId>) returns (firstErr: Option<WriterError>, ghost flushed: set<PageId>, ghost refused: set<PageId>)
      requires Valid() && (forall p :: p in batch ==> p in inner.dirty)
      requires forall i, j :: 0 <= i < j < |batch| ==> batch[i] < batch[j]
      modifies inner, writer, writer.store
      ensures Valid() && StoreGrew()
      ensures forall q :: Content(q) == old(Content(q))
      ensures inner.dirty == old(inner.dirty) - flushed && refused <= inner.dirty
      ensures (forall p :: p in batch <==> p in flushed || p in refused) && flushed !! refused
      ensures firstErr.None? <==> refused == {}
      ensures forall p :: p in flushed ==> Flushed(p)
      ensures forall p :: p !in flushed && p !in refused ==> Flushed(p) == old(Flushed(p))
    {
      hide Valid, Writer.Backed, Content, Writer.Resolve, Flushed, Grew, Stamp;
      GrewTwice(Stamp(), Stamp(), Stamp());
      firstErr, flushed, refused := None, {}, {};
      for i := 0 to |batch|
        invariant Valid() && StoreGrew()
        invariant forall q :: Content(q) == old(Content(q))
        invariant inner.dirty == old(inner.dirty) - flushed && refused <= inner.dirty
        invariant forall p :: p in batch[..i] <==> p in flushed || p in refused
        invariant flushed !! refused
        invariant firstErr.None? <==> refused == {}
        invariant forall p :: p in flushed ==> Flushed(p)
        invariant forall p :: p !in flushed && p !in refused ==> Flushed(p) == old(Flushed(p))
      {
        var p := batch[i];
        assert p !in batch[..i];
        assert batch[..i + 1] == batch[..i] + [p];
        ghost var s1 := Stamp();
        var r := FlushOne(p);
        GrewTwice(old(Stamp()), s1, Stamp());
        match r {
          case Ok(wrote) => flushed := flushed + {p};
          case Err(e) =>
            refused := refused + {p};
            if firstErr.None? { firstErr := Some(e); }
        }
      }
      assert batch[..|batch|] == batch;
    }

    /** One round of the drain: pick a batch and flush it; `idle` if there was nothing to flush. */
    method FlushRound(first: PageId, last: PageId, n: nat)
      returns (r: Result<(), WriterError>, idle: bool, ghost flushed: set<PageId>, ghost refused: set<PageId>)
      requires Valid() && n > 0
      modifies inner, writer, writer.store
      ensures Valid() && StoreGrew()
      ensures forall q :: Content(q) == old(Content(q))
      ensures inner.dirty == old(inner.dirty) - flushed && flushed !! refused
      ensures flushed + refused <= InRange(old(inner.dirty), first, last)
      ensures r.Ok? <==> refused == {}
      ensures idle ==> r.Ok? && flushed == {} == InRange(old(inner.dirty), first, last)
      ensures !idle && r.Ok? ==> |InRange(inner.dirty, first, last)| < |InRange(old(inner.dirty), first, last)|
      ensures forall p :: p in flushed ==> Flushed(p)
      ensures forall p :: p !in flushed && p !in refused ==> Flushed(p) == old(Flushed(p))
    {
      hide Valid, Writer.Backed, Content, Writer.Resolve, InRange, Flushed, Grew, Stamp;
      GrewTwice(Stamp(), Stamp(), Stamp());
      var batch := PickBatch(inner.dirty, first, last, n);
      idle := batch == [];
      if idle {
        assert |InRange(inner.dirty, first, last)| == 0;
        return Ok(()), true, {}, {};
      }
      InRangeMembers(inner.dirty, first, last);
      var firstErr;
      firstErr, flushed, refused := FlushBatch(batch);
      BatchStep(old(inner.dirty), batch, flushed, refused, first, last);
      r := if firstErr.Some? then Err(firstErr.value) else Ok(());
    }

    /**
      The drain loop.  On success no page of the range is dirty; on failure the pages that
      were flushed are clean and the ones that were refused are still dirty.
     */
    method FlushDrain(first: PageId, last: PageId, maxConcurrent: nat)
      returns (r: Result<(), WriterError>, ghost flushed: set<PageId>, ghost refused: set<PageId>)
      requires Valid()
      modifies inner, writer, writer.store
      ensures Valid() && StoreGrew()
      ensures forall q :: Content(q) == old(Content(q))
      ensures inner.dirty == old(inner.dirty) - flushed
      ensures flushed + refused <= InRange(old(inner.dirty), first, last) && flushed !! refused
      ensures r.Ok? ==> refused == {} && flushed == InRange(old(inner.dirty), first, last)
      ensures r.Err? ==> refused != {}
      ensures forall p :: p in flushed ==> Flushed(p)
      ensures forall p :: p !in flushed && p !in refused ==> Flushed(p) == old(Flushed(p))
    {
      hide Valid, Writer.Backed, Content, Writer.Resolve, InRange, Flushed, Grew, Stamp;
      GrewTwice(Stamp(), Stamp(), Stamp());
      var n := Max(1, maxConcurrent);
      flushed, refused := {}, {};
      while true
        invariant Valid() && StoreGrew()
        invariant forall q :: Content(q) == old(Content(q))
        invariant inner.dirty == old(inner.dirty) - flushed && refused == {}
        invariant flushed <= InRange(old(inner.dirty), first, last)
        invariant forall p :: p in flushed ==> Flushed(p)
        invariant forall p :: p !in flushed ==> Flushed(p) == old(Flushed(p))
        decreases |InRange(inner.dirty, first, last)|
      {
        ghost var s1 := Stamp();
        var idle;
        ghost var ok;
        r, idle, ok, refused := FlushRound(first, last, n);
        GrewTwice(old(Stamp()), s1, Stamp());
        RoundStep(old(inner.dirty), flushed, ok, refused, first, last);
        flushed := flushed + ok;
        if r.Err? || idle { return; }
      }
    }

    // ----- fences -----

    /** First and last page of a byte range; none for an empty or overflowing one. */
    function PageRangeForBytes(offset: U64, len: U64): (r: Option<(PageId, PageId)>)
      requires writer.manifest.pageSize > 0
      ensures len > 0 && offset + len <= U64_LIMIT && PageOf(offset, writer.manifest.pageSize) < U32_LIMIT ==>
        r.Some? && forall j: nat :: offset <= j < offset + len && Addressable(j) ==>
          r.value.0 <= PageOf(j, writer.manifest.pageSize) <= r.value.1
    {
      var ps := writer.manifest.pageSize;
      if len == 0 || offset + (len - 1) >= U64_LIMIT then None
      else if PageOf(offset, ps) >= U32_LIMIT then None
      else
        RangeCovers(offset, len, ps);
        Some((PageOf(offset, ps), Min(PageOf(offset + len - 1, ps), U32_LIMIT - 1)))
    }

    /** The page is clean: its index entry resolves to what the host sees. */
    ghost predicate Indexed(p: PageId)
      reads inner, writer
    {
      p !in inner.dirty && writer.Resolve(p) == Content(p)
    }

    /** Moreover its chunk is in storage. */
    ghost predicate Durable(p: PageId)
      reads inner, writer, writer.store
    {
      && Indexed(p)
      && (p in writer.index ==> ChunkFor(writer.manifest, writer.index[p].payload) in writer.store.storage)
    }

    lemma CleanIsIndexed(p: PageId)
      requires Valid() && p !in inner.dirty
      ensures writer.Resolve(p) == Content(p)
    {
      inner.Facts();
    }

    lemma DirtyContent(p: PageId)
      requires Valid()
      ensures p in inner.dirty ==> p in inner.pages && inner.pages[p].body.bytes == Content(p)
    {
      inner.Facts();
    }

    /** Wait for the worker to settle a range that has no dirty page. */
    method AwaitUploads(first: PageId, last: PageId, schedule: seq<WorkerStep>) returns (r: SyncResult)
      requires Valid() && InRange(inner.dirty, first, last) == {}
      modifies writer, writer.store
      ensures Valid() && Lasting() && (old(writer.Backed()) ==> writer.Backed())
      ensures writer.store.pool == old(writer.store.pool)
      ensures forall q :: Content(q) == old(Content(q))
      ensures r.Synced? && writer.Backed() ==> forall p :: first <= p <= last ==> Durable(p)
      ensures r.UploadsFailed? ==> exists p :: first <= p <= last && p in writer.failed
      ensures !r.FlushFailed? && !r.RestoreFailed? && writer.index == old(writer.index)
      ensures forall q :: Indexed(q) == old(Indexed(q))
      ensures old(writer.Calm()) && Settled(schedule) ==> writer.Calm()
    {
      hide CI.CacheInner.Valid, CI.CacheInner.Bodies, Writer.Valid, Writer.Backed, ResolveIn, Coherent, ContentOf;
      var outcome := writer.WaitForRange(first, last, schedule);
      if outcome.Failed? { return UploadsFailed; }
      if outcome.Waiting? { return StillWaiting; }
      assert forall p :: first <= p <= last ==> p !in inner.dirty by {
        forall p | first <= p <= last
          ensures p !in inner.dirty
        {
          assert p !in InRange(inner.dirty, first, last);
        }
      }
      if writer.Backed() {
        writer.DrainedIsStored(first, last);
        forall p | first <= p <= last
          ensures Durable(p)
        {
          CleanIsIndexed(p);
        }
      }
      return Synced;
    }

    /** Wait; on a failure hand every failed page of the range back to the worker, and still report it. */
    method DrainUploads(first: PageId, last: PageId, schedule: seq<WorkerStep>) returns (r: SyncResult)
      requires Valid() && InRange(inner.dirty, first, last) == {}
      modifies writer, writer.store
      ensures Valid() && Lasting() && (old(writer.Backed()) ==> writer.Backed())
      ensures writer.store.pool == old(writer.store.pool)
      ensures forall q :: Content(q) == old(Content(q))
      ensures r.Synced? && writer.Backed() ==> forall p :: first <= p <= last ==> Durable(p)
      ensures r.UploadsFailed? && writer.async ==> forall p :: first <= p <= last ==> p !in writer.failed
      ensures !r.FlushFailed? && !r.RestoreFailed? && writer.index == old(writer.index)
      ensures forall q :: Indexed(q) == old(Indexed(q))
      ensures old(writer.Calm()) && Settled(schedule) ==> writer.Calm()
    {
      hide CI.CacheInner.Valid, CI.CacheInner.Bodies, Writer.Valid, Writer.Backed, ResolveIn, Coherent, ContentOf;
      r := AwaitUploads(first, last, schedule);
      if r.UploadsFailed? {
        var _ := writer.RetryFailedUploadsInRange(first, last);
      }
    }

    /** Flush a range.  A dirty page past the last legal page id can never be flushed, so it fails the flush. */
    method FlushPagesInRange(first: PageId, last: PageId, maxConcurrent: nat) returns (r: Result<(), WriterError>)
      requires Valid()
      modifies inner, writer, writer.store
      ensures Valid() && StoreGrew()
      ensures forall q :: Content(q) == old(Content(q))
      ensures r.Ok? ==> InRange(inner.dirty, first, last) == {}
      ensures r.Ok? ==> forall p :: first <= p <= last ==> Indexed(p)
      ensures r.Ok? ==> forall p :: p in InRange(old(inner.dirty), first, last) ==> Flushed(p)
    {
      ghost var flushed, refused;
      r, flushed, refused := FlushDrain(first, last, maxConcurrent);
      hide Valid, Writer.Backed, Content, Writer.Resolve, Flushed;
      if r.Ok? {
        assert InRange(inner.dirty, first, last) == {};
        forall p | first <= p <= last
          ensures Indexed(p)
        {
          assert p !in InRange(inner.dirty, first, last);
          CleanIsIndexed(p);
        }
      }
    }

    ghost predicate InPages(range: Option<(PageId, PageId)>, p: PageId) {
      range.Some? && range.value.0 <= p <= range.value.1
    }

    /**
      SYNCHRONIZE CACHE.  Memory mode does nothing; Disk mode flushes the range to the page
      index; Storage mode also waits until nothing of the range is pending.  Then every chunk of
      the range is in storage, if the upload protocol's invariant holds.
     */
    method SynchronizeBytes(offset: U64, len: U64, tier: SyncAfter, maxConcurrent: nat, schedule: seq<WorkerStep>) returns (r: SyncResult)
      requires Valid() && writer.manifest.pageSize > 0
      modifies inner, writer, writer.store
      ensures Valid() && WaitedFor()
      ensures forall q :: Content(q) == old(Content(q))
      ensures tier.Memory? ==> r.Synced? && writer.View() == old(writer.View()) && inner.dirty == old(inner.dirty)
      ensures r.Synced? && !tier.Memory? ==> forall p :: InPages(PageRangeForBytes(offset, len), p) ==> Indexed(p)
      ensures r.Synced? && !tier.Memory? ==> forall p: PageId ::
        InPages(PageRangeForBytes(offset, len), p) && p in old(inner.dirty) ==> p <= writer.LastPageId()
      ensures r.Synced? && tier.Storage? && writer.Backed() ==> forall p :: InPages(PageRangeForBytes(offset, len), p) ==> Durable(p)
      ensures old(writer.Calm()) && Settled(schedule) ==> writer.Calm()
    {
      hide Valid, Writer.Backed, Content, Writer.Resolve, PageRangeForBytes, LastPage;
      if tier.Memory? { return Synced; }
      var range := PageRangeForBytes(offset, len);
      if range.None? { return Synced; }
      var first, last := range.value.0, range.value.1;
      var flush := FlushPagesInRange(first, last, maxConcurrent);
      if flush.Err? { return FlushFailed(flush.error); }
      assert forall p :: first <= p <= last && p in old(inner.dirty) ==> Flushed(p);
      if tier.Storage? {
        r := DrainUploads(first, last, schedule);
        return;
      }
      return Synced;
    }

    /** Flush everything and drain every upload. */
    method FlushAll(maxConcurrent: nat, schedule: seq<WorkerStep>) returns (r: SyncResult)
      requires Valid()
      modifies inner, writer, writer.store
      ensures Valid() && WaitedFor()
      ensures forall q :: Content(q) == old(Content(q))
      ensures !r.FlushFailed? ==> inner.dirty == {}
      ensures r.Synced? && writer.Backed() ==> forall p: PageId :: Durable(p)
      ensures !r.RestoreFailed?
    {
      hide CI.CacheInner.Valid, CI.CacheInner.Bodies, Writer.Valid, Writer.Backed, ResolveIn, Coherent, ContentOf;
      var flush := FlushPagesInRange(0, U32_LIMIT - 1, maxConcurrent);
      if flush.Err? { return FlushFailed(flush.error); }
      assert InRange(inner.dirty, 0, U32_LIMIT - 1) == inner.dirty;
      r := DrainUploads(0, U32_LIMIT - 1, schedule);
    }

    /** Meanwhile, one move of the upload worker.  The cache does not notice. */
    method LetWork(step: WorkerStep)
      requires Valid()
      modifies writer, writer.store
      ensures Valid() && Lasting() && (old(writer.Backed()) ==> writer.Backed())
      ensures old(writer.Calm()) && step.Settles() ==> writer.Calm()
      ensures forall q :: Content(q) == old(Content(q))
    {
      hide CI.CacheInner.Valid, CI.CacheInner.Bodies, Writer.Valid, Writer.Backed, ResolveIn, Coherent, ContentOf;
      writer.Work(step);
    }

    // ----- snapshot and restore -----

    /** Freeze the page table: everything the host sees is in it, and every chunk it names is stored. */
    method SnapshotPagesIdx(maxConcurrent: nat, schedule: seq<WorkerStep>, underLock: seq<WorkerStep>)
      returns (r: SyncResult, frozen: map<PageId, Entry>)
      requires Valid()
      modifies inner, writer, writer.store
      ensures Valid() && WaitedFor()
      ensures forall q :: Content(q) == old(Content(q))
      ensures r.Synced? ==> WholePages(writer.manifest, frozen)
      ensures r.Synced? && writer.Backed() ==> AllStored(writer.manifest, frozen, writer.store.storage)
      ensures r.Synced? ==> forall p: PageId :: ResolveIn(writer.manifest, frozen, p) == old(Content(p))
    {
      hide CI.CacheInner.Valid, CI.CacheInner.Bodies, Writer.Valid, Writer.Backed, ResolveIn, Coherent, ContentOf;
      frozen := map[];
      r := FlushAll(maxConcurrent, schedule);
      if !r.Synced? { return; }
      // no flush can start under the lock; this drain settles one that raced in before it
      r := AwaitUploads(0, U32_LIMIT - 1, underLock);
      if !r.Synced? { return; }
      writer.Facts();
      frozen := writer.index;
      forall p: PageId
        ensures writer.Backed() && p in frozen ==> ChunkFor(writer.manifest, frozen[p].payload) in writer.store.storage
        ensures ResolveIn(writer.manifest, frozen, p) == old(Content(p))
      {
        CleanIsIndexed(p);
        if writer.Backed() { assert Durable(p); }
      }
    }

    /**
      Roll back to a frozen table: whatever happened since, every page reads as it did when
      the table was frozen, and pages it does not name read as zeros.  Failed uploads do not
      stop it, a failed flush does.  A copy that fails half-way leaves each page as it was, as
      it was frozen, or zero.
     */
    method RestoreFromSnapshot(frozen: map<PageId, Entry>, maxConcurrent: nat, schedule: seq<WorkerStep>, underLock: seq<WorkerStep>)
      returns (r: SyncResult)
      requires Valid() && WholePages(writer.manifest, frozen)
      modifies inner, writer, writer.store
      ensures Valid() && Lasting() && !r.UploadsFailed? && (writer.reliable ==> !r.RestoreFailed?)
      ensures !r.Synced? && !r.RestoreFailed? ==> forall q :: Content(q) == old(Content(q))
      ensures r.Synced? ==> writer.index == frozen && writer.localOnly == {} && writer.failed == {} && inner.pages == map[]
      ensures r.Synced? ==> forall p: PageId :: Content(p) == ResolveIn(writer.manifest, frozen, p)
      ensures r.Synced? ==> (writer.Backed() <==> AllStored(writer.manifest, frozen, writer.store.storage))
      ensures r.RestoreFailed? ==> forall p: PageId ::
        || Content(p) == old(Content(p)) || Content(p) == ResolveIn(writer.manifest, frozen, p)
        || Content(p) == Zeros(writer.manifest.pageSize)
    {
      hide CI.CacheInner.Valid, CI.CacheInner.Bodies, Writer.Valid, Writer.Backed, ResolveIn, Coherent, ContentOf;
      r := FlushAll(maxConcurrent, schedule);
      if r.FlushFailed? || r.StillWaiting? { return; }
      var drained := AwaitUploads(0, U32_LIMIT - 1, underLock);
      if drained.StillWaiting? { return StillWaiting; }
      ghost var before := writer.index;
      forall p: PageId
        ensures ResolveIn(writer.manifest, before, p) == old(Content(p))
      {
        CleanIsIndexed(p);
      }
      inner.InvalidateAll();
      inner.Facts();
      var swapped := writer.RestoreTable(frozen);
      EmptyView(writer.manifest, writer.index);
      forall p: PageId
        ensures Content(p) == ResolveIn(writer.manifest, writer.index, p)
      {
        UncachedContent(map[], writer.manifest, writer.index, p);
      }
      if swapped.Err? {
        forall p: PageId
          ensures || Content(p) == old(Content(p)) || Content(p) == ResolveIn(writer.manifest, frozen, p)
                  || Content(p) == Zeros(writer.manifest.pageSize)
        {
          MixedResolves(writer.manifest, before, frozen, writer.index, p);
        }
        return RestoreFailed(swapped.error);
      }
      return Synced;
    }

    // ----- resize -----

    /**
      Resize.  Unless the page count overflows its 32-bit cast, which needs a current size that
      is not addressable, no byte the host sees changes.  Once the cache is flushed, everything
      past the new end reads as zeros, and a later grow shows those zeros again.
     */
    method SetSize(size: U64) returns (r: Result<(), WriterError>)
      requires Valid()
      modifies writer
      ensures inner.Valid() && writer.Valid() && (old(writer.Backed()) ==> writer.Backed())
      ensures writer.sizeBytes == if r.Ok? then size else old(writer.sizeBytes)
      ensures r.Ok? ==> writer.manifest.pageSize > 0 && LastPageIdFits(size, writer.manifest.pageSize)
      ensures old(LastPageIdFits(writer.sizeBytes, writer.manifest.pageSize)) ==> writer.index == old(writer.index)
      ensures writer.index != old(writer.index) ==> size == U32_LIMIT * writer.manifest.pageSize && writer.index == map[]
      ensures writer.index == old(writer.index) ==> Valid() && forall p :: Content(p) == old(Content(p))
      ensures writer.index == old(writer.index) && r.Ok? && size < old(writer.sizeBytes) ==>
        forall p: PageId :: PageOf(size, writer.manifest.pageSize) <= p && p !in inner.dirty ==>
          Content(p) == Zeros(writer.manifest.pageSize)
    {
      hide CI.CacheInner.Valid, CI.CacheInner.Bodies, Writer.Valid, Writer.Backed, ResolveIn, Coherent, ContentOf, PageOf, LastPageIdFits;
      writer.Facts();
      ghost var index := writer.index;
      r := writer.SetSize(size);
      if ResizeAllowed(writer.manifest, index, old(writer.sizeBytes), size) && size < old(writer.sizeBytes) {
        ShrinkIsSafe(writer.manifest, index, old(writer.sizeBytes), size);
      }
      if writer.index == index && r.Ok? && size < old(writer.sizeBytes) {
        forall p: PageId | PageOf(size, writer.manifest.pageSize) <= p && p !in inner.dirty
          ensures Content(p) == Zeros(writer.manifest.pageSize)
        {
          CleanIsIndexed(p);
          HoleIsZero(writer.manifest, writer.index, p);
        }
      }
    }

    // ----- cloning: the destination's half -----

    /**
      Drop the page from the cache and point its slot at an existing chunk, or at nothing.
      On failure the page is uncached and reads from whichever of the two its slot holds.
     */
    method RebindPage(p: PageId, e: Option<Entry>) returns (r: Result<(), WriterError>)
      requires Valid()
      requires e.Some? ==> Open(writer.manifest, p, e.value).Some? && |Open(writer.manifest, p, e.value).value| == writer.manifest.pageSize
      modifies inner, writer
      ensures Valid() && OnlyAdded(old(Stamp()), Stamp()) && (writer.reliable ==> r.Ok?)
      ensures old(Stamp().Sound() && writer.SlotStored(e)) ==> Stamp().Sound()
      ensures p !in inner.pages
      ensures Content(p) == SlotBytes(writer.manifest, p, e) || (r.Err? && Content(p) == old(writer.Resolve(p)))
      ensures forall q :: q != p ==> Content(q) == old(Content(q))
    {
      hide CI.CacheInner.Valid, CI.CacheInner.Bodies, Writer.Valid, Writer.Backed, ResolveIn, Coherent, ContentOf;
      hide Dropped, Content, Open, Protocol.WithSlot, SlotBytes, Writer.SlotStored;
      SlotResolves(writer.manifest, writer.index, p, e);
      DropCached(p);
      label Dropped:
      r := writer.RebindPage(p, e);
      Reslotted@Dropped(p);
    }

    /** Another volume's work on a shared store only adds chunks, which no cached or indexed page notices. */
    twostate lemma KeptByGrowth()
      requires old(Valid()) && unchanged(inner) && unchanged(writer) && writer.store.Valid()
      requires old(writer.store.storage) <= writer.store.storage && old(writer.store.pool) <= writer.store.pool
      ensures Valid() && StoreGrew() && (old(writer.Backed()) ==> writer.Backed())
      ensures forall p :: Content(p) == old(Content(p))
    {
      if old(writer.Backed()) {
        Protocol.VolOkMonotone(writer.View(), old(writer.store.pool), old(writer.store.storage), writer.store.pool, writer.store.storage);
      }
    }

    /** Every chunk a LocalOnly page names is still in the pool if it was. */
    twostate predicate PinsSpared()
      reads writer, writer.store
    {
      forall p :: p in writer.localOnly && p in writer.index && writer.View().ChunkOf(p) in old(writer.store.pool) ==>
        writer.View().ChunkOf(p) in writer.store.pool
    }

    /** A removal from the pool that spares every pin is not noticed either. */
    twostate lemma KeptByEviction()
      requires old(Valid()) && unchanged(inner) && unchanged(writer) && writer.store.Valid()
      requires writer.store.storage == old(writer.store.storage) && PinsSpared()
      ensures Valid() && Lasting() && (old(writer.Backed()) ==> writer.Backed())
      ensures forall p :: Content(p) == old(Content(p))
    {
      if old(writer.Backed()) {
        forall p | p in writer.index
          ensures Protocol.PageOk(writer.View(), writer.store.pool, writer.store.storage, p)
        {
          assert Protocol.PageOk(writer.View(), old(writer.store.pool), old(writer.store.storage), p);
        }
      }
    }
  }

  lemma MixedResolves(m: Manifest, a: map<PageId, Entry>, b: map<PageId, Entry>, mix: map<PageId, Entry>, p: PageId)
    requires Mixed(a, b, mix)
    ensures ResolveIn(m, mix, p) == ResolveIn(m, a, p) || ResolveIn(m, mix, p) == ResolveIn(m, b, p) || ResolveIn(m, mix, p) == Zeros(m.pageSize)
  {
  }

  /** What a slot reads as. */
  function SlotBytes(m: Manifest, p: PageId, e: Option<Entry>): seq<Byte> {
    if e.Some? && Open(m, p, e.value).Some? then Open(m, p, e.value).value else Zeros(m.pageSize)
  }

  lemma SlotResolves(m: Manifest, ix: map<PageId, Entry>, p: PageId, e: Option<Entry>)
    ensures
      var ix' := Protocol.WithSlot(ix, p, e);
      ix' - {p} == ix - {p} && ResolveIn(m, ix', p) == SlotBytes(m, p, e)
  {
  }

  lemma InRangeMembers(s: set<PageId>, first: PageId, last: PageId)
    ensures forall p :: p in InRange(s, first, last) ==> p in s
  {
  }

  /** One batch moves dirty pages of the range to flushed or refused, and fewer remain if all went. */
  lemma BatchStep(d: set<PageId>, batch: seq<PageId>, ok: set<PageId>, refused: set<PageId>, first: PageId, last: PageId)
    requires batch != [] && forall p :: p in batch ==> p in InRange(d, first, last)
    requires forall p :: p in batch <==> p in ok || p in refused
    ensures ok + refused <= InRange(d, first, last)
    ensures refused == {} ==> |InRange(d - ok, first, last)| < |InRange(d, first, last)|
  {
    assert batch[0] in batch;
    if refused == {} {
      SmallerSet(InRange(d - ok, first, last), InRange(d, first, last), batch[0]);
    }
  }

  /** Rounds add up; an idle one means the range is drained. */
  lemma RoundStep(d: set<PageId>, flushed: set<PageId>, ok: set<PageId>, refused: set<PageId>, first: PageId, last: PageId)
    requires flushed <= InRange(d, first, last) && ok + refused <= InRange(d - flushed, first, last) && ok !! refused
    ensures flushed + ok + refused <= InRange(d, first, last) && flushed + ok !! refused
    ensures d - flushed - ok == d - (flushed + ok)
    ensures InRange(d - flushed, first, last) == {} ==> flushed + ok == InRange(d, first, last)
  {
    if InRange(d - flushed, first, last) == {} {
      forall p | p in InRange(d, first, last)
        ensures p in flushed
      {
        assert p !in InRange(d - flushed, first, last);
      }
    }
  }

  lemma EmptyView(m: Manifest, ix: map<PageId, Entry>)
    ensures Coherent(map[], m, ix)
  {
  }

  lemma SmallerSet(a: set<PageId>, b: set<PageId>, x: PageId)
    requires a <= b && x in b && x !in a
    ensures |a| < |b|
  {
    assert a <= b - {x};
    SubsetSize(a, b - {x});
  }

  lemma {:induction false} SubsetSize(a: set<PageId>, b: set<PageId>)
    requires a <= b
    ensures |a| <= |b|
    decreases |a|
  {
    if a != {} {
      var x :| x in a;
      SubsetSize(a - {x}, b - {x});
    }
  }
}
