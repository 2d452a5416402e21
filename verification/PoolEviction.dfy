/**
  An eviction pass over the pool that any number of live volumes share: their caches and
  contents do not notice, and each one's part of the upload protocol's invariant is kept.
*/
module PoolEviction {
  import opened Bytes
  import opened Volume
  import opened VolumeWriter
  import opened ChunkStore
  import opened PageCache
  import DiskCache
  import EvictionPass

  /** What a pass depends on besides the live volumes and the pool. */
  datatype Pass = Pass(
    others: seq<DiskCache.VolumeWalk>,             // volumes that are not open, as the walk sees them
    volumes: seq<Option<EvictionPass.Routing>>,    // the manifests the scan reads
    readable: nat -> bool,                         // can a live volume's upload.idx be read
    touches: nat -> seq<U64>,                      // a live volume's lru.idx
    pinned: set<DiskCache.Key>, cutoff: Option<U64>,
    stuck: set<Chunk>,                             // files whose unlink fails
    cap: U64, usage: U64)

  /** The allocated pages of a table, as the page-index iterator yields them. */
  method Records(index: map<PageId, Entry>) returns (records: seq<(PageId, Payload)>)
    ensures forall j :: 0 <= j < |records| ==> records[j].0 in index && index[records[j].0].payload == records[j].1
    ensures forall p :: p in index ==> exists j :: 0 <= j < |records| && records[j].0 == p
  {
    records := [];
    var todo := index.Keys;
    while todo != {}
      invariant todo <= index.Keys
      invariant forall j :: 0 <= j < |records| ==> records[j].0 in index && index[records[j].0].payload == records[j].1
      invariant forall p :: p in index && p !in todo ==> exists j :: 0 <= j < |records| && records[j].0 == p
      decreases |todo|
    {
      var p :| p in todo;
      ghost var before := records;
      records := records + [(p, index[p].payload)];
      assert forall j :: 0 <= j < |before| ==> records[j] == before[j];
      assert records[|before|].0 == p;
      todo := todo - {p};
    }
  }

  /** The upload sidecar, read in bulk. */
  function States(localOnly: set<PageId>, n: nat): seq<Byte> {
    seq(n, i requires 0 <= i < n => if i in localOnly then 1 else 0)
  }

  /** The walk sees all of the volume's pages, and says of each what the volume says. */
  ghost predicate Walks(walk: DiskCache.VolumeWalk, w: Writer)
    reads w
  {
    DiskCache.DescribesOne(walk, w.View(), w.manifest.backend) && forall p :: p in w.index ==> DiskCache.SeenAt(walk, p)
  }

  /** What the walk sees of a live volume: all of its pages, and its sidecar if that can be read. */
  method WalkOf(w: Writer, touches: seq<U64>, readable: bool) returns (walk: DiskCache.VolumeWalk)
    ensures walk.Walked? && Walks(walk, w)
  {
    var records := Records(w.index);
    var highest := w.HighestAllocatedPage();
    var n: nat := if highest.Some? then highest.value as nat + 1 else 0;
    walk := DiskCache.Walked(w.manifest.PoolNamespace(), records, touches, if readable then Some(States(w.localOnly, n)) else None);
  }

  /** The pool's files by namespace directory. */
  method ListPool(pool: set<Chunk>, backend: string) returns (dirs: map<Namespace, seq<Payload>>)
    ensures forall ns :: ns in dirs ==> Distinct(dirs[ns])
    ensures forall c: Chunk :: c.backend == backend && c.ns in dirs && c.payload in dirs[c.ns] <==> c.backend == backend && c in pool
  {
    dirs := map[];
    var todo := pool;
    while todo != {}
      invariant todo <= pool
      invariant forall ns :: ns in dirs ==> Distinct(dirs[ns])
      invariant forall c: Chunk :: c.backend == backend ==> (c.ns in dirs && c.payload in dirs[c.ns] <==> c in pool && c !in todo)
      decreases |todo|
    {
      var c :| c in todo;
      todo := todo - {c};
      if c.backend == backend {
        var had := if c.ns in dirs then dirs[c.ns] else [];
        EvictionPass.DistinctAppend(had, [c.payload]);
        dirs := dirs[c.ns := had + [c.payload]];
      }
    }
  }

  /** One pass over a store, given the walks: what goes was clear for them. */
  method RunPass(store: Store, walks: seq<DiskCache.VolumeWalk>, pass: Pass)
    returns (ghost removed: set<Chunk>, ghost touches: map<DiskCache.Key, U64>, ghost uploaded: map<DiskCache.Key, bool>)
    requires store.Valid()
    modifies store`pool, store`budget
    ensures store.Valid() && store.pool == old(store.pool) - removed
    ensures DiskCache.Summarises(DiskCache.AllRefs(walks), touches, uploaded)
    ensures forall c :: c in removed ==> DiskCache.Clear(uploaded, c)
  {
    hide Store.Valid, DiskCache.Summarises, DiskCache.AllRefs, DiskCache.Clear, EvictionPass.Candidates, EvictionPass.SortByTouch;
    hide EvictionPass.Gains, EvictionPass.Tried, EvictionPass.Sum, EvictionPass.Removed, Wrap64, Distinct, TotalSize;
    var t, u := DiskCache.CollectLruTouchesAndUploadState(walks);
    touches, uploaded := t, u;
    var dirs := ListPool(store.pool, store.backend);
    var scan := EvictionPass.ScanChunks(store.backend, dirs, pass.volumes);
    var manager := new EvictionPass.DiskCacheManager(store, pass.cap);
    manager.currentBytes := pass.usage;
    var f := EvictionPass.Filter(t, u, pass.pinned, pass.cutoff);
    removed := {};
    var _ := manager.EvictLruChunks(scan, f, pass.stuck);
    if pass.usage > pass.cap {
      ghost var order := EvictionPass.SortByTouch(EvictionPass.Candidates(scan, f));
      ghost var n := EvictionPass.Tried(EvictionPass.Gains(order, pass.stuck), pass.usage, pass.cap, 0);
      removed := EvictionPass.Removed(order, pass.stuck, n);
      forall c | c in removed
        ensures DiskCache.Clear(uploaded, c)
      {
        EvictionPass.RemovedIsAllowed(scan, f, pass.stuck, n, c);
      }
    }
  }

  /** Any number of live volumes, each with its cache, on one store. */
  ghost predicate Share(caches: seq<Cache>, store: Store) {
    forall i :: 0 <= i < |caches| ==> caches[i].writer.store == store
  }

  ghost predicate AllValid(caches: seq<Cache>)
    reads set i | 0 <= i < |caches| :: caches[i].inner
    reads set i | 0 <= i < |caches| :: caches[i].writer
    reads set i | 0 <= i < |caches| :: caches[i].writer.store
  {
    forall i :: 0 <= i < |caches| ==> caches[i].Valid()
  }

  /** The walks of the live volumes, in order. */
  method WalkAll(caches: seq<Cache>, pass: Pass) returns (walks: seq<DiskCache.VolumeWalk>)
    ensures |walks| == |caches|
    ensures forall i :: 0 <= i < |caches| ==> Walks(walks[i], caches[i].writer)
  {
    walks := [];
    for i := 0 to |caches|
      invariant |walks| == i && forall k :: 0 <= k < i ==> Walks(walks[k], caches[k].writer)
    {
      var walk := WalkOf(caches[i].writer, pass.touches(i), pass.readable(i));
      walks := walks + [walk];
    }
  }

  /** What a pass spares: no chunk it removes is named by a LocalOnly page of a volume it walked. */
  lemma WalkedIsSpared(walks: seq<DiskCache.VolumeWalk>, i: nat, w: Writer, removed: set<Chunk>,
                       touches: map<DiskCache.Key, U64>, uploaded: map<DiskCache.Key, bool>, p: PageId)
    requires DiskCache.Summarises(DiskCache.AllRefs(walks), touches, uploaded) && i < |walks| && Walks(walks[i], w)
    requires forall c :: c in removed ==> DiskCache.Clear(uploaded, c)
    requires p in w.index && p in w.localOnly
    ensures w.View().ChunkOf(p) !in removed
  {
    hide DiskCache.Summarises, DiskCache.AllRefs, DiskCache.Clear, DiskCache.DescribesOne;
    DiskCache.ClearPage(walks, touches, uploaded, i, w.View(), w.manifest.backend, p);
  }

  /** One pass over a shared store.  No volume on it notices, and what was backed stays backed. */
  method EvictPool(caches: seq<Cache>, store: Store, pass: Pass)
    requires store.Valid() && Share(caches, store) && AllValid(caches)
    modifies store`pool, store`budget
    ensures store.Valid() && store.pool <= old(store.pool) && AllValid(caches)
    ensures forall i :: 0 <= i < |caches| ==> old(caches[i].writer.Backed()) ==> caches[i].writer.Backed()
    ensures forall i, p :: 0 <= i < |caches| ==> caches[i].Content(p) == old(caches[i].Content(p))
  {
    hide Cache.Valid, Cache.Content, Writer.Backed, Store.Valid, DiskCache.Summarises, DiskCache.AllRefs, DiskCache.Clear;
    var live := WalkAll(caches, pass);
    var walks := live + pass.others;
    ghost var removed, touches, uploaded;
    removed, touches, uploaded := RunPass(store, walks, pass);
    forall i | 0 <= i < |caches|
      ensures caches[i].Valid() && (old(caches[i].writer.Backed()) ==> caches[i].writer.Backed())
      ensures forall p :: caches[i].Content(p) == old(caches[i].Content(p))
    {
      var c := caches[i];
      assert c.PinsSpared() by {
        forall p | p in c.writer.localOnly && p in c.writer.index
          ensures c.writer.View().ChunkOf(p) !in removed
        {
          WalkedIsSpared(walks, i, c.writer, removed, touches, uploaded, p);
        }
      }
      c.KeptByEviction();
    }
  }
}
