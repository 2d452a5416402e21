/**
  The eviction pass's walk over every volume's sidecars: the last touch of each chunk, and
  whether every page that names it is recorded Uploaded; and what that means for the volumes.
*/
module DiskCache {
  import opened Bytes
  import opened Volume
  import opened ChunkStore
  import opened UploadIndex
  import Protocol
  import opened ProtocolLimits

  /** A pool file as the walk keys it: namespace and content hash. */
  type Key = (Namespace, Payload)

  function KeyOf(c: Chunk): Key { (c.ns, c.payload) }

  // ----- the sidecar walk -----

  /**
    What the walk gets from one volume directory.  `Skipped`: its manifest, `pages.idx` or
    `lru.idx` could not be opened.  `records` are the allocated pages the iterator yielded
    before any error.  `states` is absent when `upload.idx` could not be read.
   */
  datatype VolumeWalk =
    | Skipped
    | Walked(ns: Namespace, records: seq<(PageId, Payload)>, touches: seq<U64>, states: Option<seq<Byte>>)

  /** One page's contribution: the chunk it names, its last touch, and whether it is recorded Uploaded. */
  datatype Ref = Ref(key: Key, touch: U64, uploaded: bool)

  function RefOf(w: VolumeWalk, j: nat): Ref
    requires w.Walked? && j < |w.records|
  {
    var (p, payload) := w.records[j];
    Ref((w.ns, payload),
        if p < |w.touches| then w.touches[p] else 0,
        w.states.Some? && FromBulk(w.states.value, p).Uploaded?)
  }

  function RefsOf(w: VolumeWalk): (refs: seq<Ref>)
    ensures |refs| == if w.Skipped? then 0 else |w.records|
  {
    if w.Skipped? then [] else seq(|w.records|, j requires 0 <= j < |w.records| => RefOf(w, j))
  }

  lemma RefAt(w: VolumeWalk, j: nat)
    requires w.Walked? && j < |w.records|
    ensures RefsOf(w)[j] == RefOf(w, j)
  {
  }

  function AllRefs(walks: seq<VolumeWalk>): seq<Ref> {
    if walks == [] then [] else AllRefs(walks[..|walks| - 1]) + RefsOf(walks[|walks| - 1])
  }

  /** The maps hold, per chunk, the maximum touch and the conjunction of the upload states. */
  ghost predicate Summarises(refs: seq<Ref>, touches: map<Key, U64>, uploaded: map<Key, bool>) {
    && touches.Keys == uploaded.Keys
    && (forall r :: r in refs ==> r.key in touches && r.touch <= touches[r.key] && (uploaded[r.key] ==> r.uploaded))
    && (forall k :: k in touches ==> exists r :: r in refs && r.key == k && r.touch == touches[k])
    && (forall k :: k in uploaded && !uploaded[k] ==> exists r :: r in refs && r.key == k && !r.uploaded)
  }

  function WithTouch(touches: map<Key, U64>, r: Ref): map<Key, U64> {
    if r.key in touches && r.touch <= touches[r.key] then touches else touches[r.key := r.touch]
  }

  function WithState(uploaded: map<Key, bool>, r: Ref): map<Key, bool> {
    uploaded[r.key := (r.key in uploaded ==> uploaded[r.key]) && r.uploaded]
  }

  lemma SummaryStep(refs: seq<Ref>, touches: map<Key, U64>, uploaded: map<Key, bool>, r: Ref)
    requires Summarises(refs, touches, uploaded)
    ensures Summarises(refs + [r], WithTouch(touches, r), WithState(uploaded, r))
  {
    var refs', t', u' := refs + [r], WithTouch(touches, r), WithState(uploaded, r);
    assert r in refs';
    forall k | k in t'
      ensures exists x :: x in refs' && x.key == k && x.touch == t'[k]
    {
      if k != r.key || t'[k] != r.touch {
        var x :| x in refs && x.key == k && x.touch == touches[k];
        assert x in refs';
      }
    }
    forall k | k in u' && !u'[k]
      ensures exists x :: x in refs' && x.key == k && !x.uploaded
    {
      if k != r.key || r.uploaded {
        var x :| x in refs && x.key == k && !x.uploaded;
        assert x in refs';
      }
    }
  }

  /** One volume's records, folded into the maps. */
  method WalkVolume(w: VolumeWalk, ghost refs: seq<Ref>, touches0: map<Key, U64>, uploaded0: map<Key, bool>)
    returns (touches: map<Key, U64>, uploaded: map<Key, bool>)
    requires Summarises(refs, touches0, uploaded0)
    ensures Summarises(refs + RefsOf(w), touches, uploaded)
  {
    hide Summarises, RefsOf, RefOf, WithTouch, WithState;
    ghost var mine := RefsOf(w);
    assert refs + mine[..0] == refs;
    touches, uploaded := touches0, uploaded0;
    if w.Skipped? {
      assert mine[..0] == mine;
      return;
    }
    var j := 0;
    while j < |w.records|
      invariant j <= |w.records| && Summarises(refs + mine[..j], touches, uploaded)
    {
      var r := RefOf(w, j);
      SummaryStep(refs + mine[..j], touches, uploaded, r);
      RefAt(w, j);
      assert mine[..j + 1] == mine[..j] + [r];
      assert refs + mine[..j + 1] == refs + mine[..j] + [r];
      touches, uploaded := WithTouch(touches, r), WithState(uploaded, r);
      j := j + 1;
    }
    assert mine[..j] == mine;
  }

  /** The whole walk.  The result does not depend on the order of directories or records. */
  method CollectLruTouchesAndUploadState(walks: seq<VolumeWalk>) returns (touches: map<Key, U64>, uploaded: map<Key, bool>)
    ensures Summarises(AllRefs(walks), touches, uploaded)
  {
    touches, uploaded := map[], map[];
    for i := 0 to |walks|
      invariant Summarises(AllRefs(walks[..i]), touches, uploaded)
    {
      touches, uploaded := WalkVolume(walks[i], AllRefs(walks[..i]), touches, uploaded);
      assert walks[..i + 1][..i] == walks[..i];
    }
    assert walks[..|walks|] == walks;
  }

  /** The maps are determined by the set of references alone. */
  lemma SummaryIsUnique(a: seq<Ref>, b: seq<Ref>, t: map<Key, U64>, u: map<Key, bool>, t': map<Key, U64>, u': map<Key, bool>)
    requires Summarises(a, t, u) && Summarises(b, t', u')
    requires forall r :: r in a <==> r in b
    ensures t == t' && u == u'
  {
    assert t.Keys == t'.Keys;
    forall k | k in t
      ensures t[k] == t'[k] && u[k] == u'[k]
    {
      var x :| x in a && x.key == k && x.touch == t[k];
      var y :| y in b && y.key == k && y.touch == t'[k];
    }
  }

  // ----- what the walk means for the volumes -----

  /** A chunk the pass may remove: no record, or every record says Uploaded. */
  predicate Clear(uploaded: map<Key, bool>, c: Chunk) {
    KeyOf(c) in uploaded ==> uploaded[KeyOf(c)]
  }

  ghost predicate DescribesOne(w: VolumeWalk, vol: Protocol.Vol, backend: string) {
    && vol.manifest.backend == backend
    && (w.Walked? ==>
          && w.ns == vol.manifest.PoolNamespace()
          && (forall j :: 0 <= j < |w.records| ==>
                w.records[j].0 in vol.index && vol.index[w.records[j].0].payload == w.records[j].1)
          && (w.states.Some? ==> forall p :: p in vol.index ==>
                (p in vol.localOnly <==> FromBulk(w.states.value, p).LocalOnly?)))
  }

  /** `walks[i]` is what the walk sees of volume `ids[i]`; it may have seen only some of its pages, or none. */
  ghost predicate Describes(walks: seq<VolumeWalk>, ids: seq<Protocol.VolId>, s: Protocol.Sys, backend: string) {
    && |ids| == |walks|
    && (forall i, j :: 0 <= i < j < |ids| ==> ids[i] != ids[j])
    && (forall v :: v in s.vols && s.vols[v].manifest.backend == backend ==> v in ids)
    && forall i :: 0 <= i < |ids| ==> ids[i] in s.vols && DescribesOne(walks[i], s.vols[ids[i]], backend)
  }

  ghost predicate SeenAt(w: VolumeWalk, p: PageId) {
    w.Walked? && exists j :: 0 <= j < |w.records| && w.records[j].0 == p
  }

  /** The walk reached this page of this volume. */
  ghost predicate Seen(walks: seq<VolumeWalk>, ids: seq<Protocol.VolId>, v: Protocol.VolId, p: PageId) {
    exists i :: 0 <= i < |ids| && i < |walks| && ids[i] == v && SeenAt(walks[i], p)
  }

  /** The volumes whose upload state could not be read. */
  function Unreadable(walks: seq<VolumeWalk>, ids: seq<Protocol.VolId>): set<Protocol.VolId>
    requires |ids| == |walks|
  {
    set i | 0 <= i < |ids| && walks[i].Walked? && walks[i].states.None? :: ids[i]
  }

  ghost predicate IsRef(walks: seq<VolumeWalk>, i: int, j: int, x: Ref) {
    0 <= i < |walks| && walks[i].Walked? && 0 <= j < |walks[i].records| && RefOf(walks[i], j) == x
  }

  lemma {:induction false} RefIsListed(walks: seq<VolumeWalk>, i: int, j: int, x: Ref)
    requires IsRef(walks, i, j, x)
    ensures x in AllRefs(walks)
  {
    var n := |walks| - 1;
    if i == n {
      assert RefsOf(walks[n])[j] == x;
    } else {
      RefIsListed(walks[..n], i, j, x);
    }
  }

  lemma {:induction false} ListedIsRef(walks: seq<VolumeWalk>, x: Ref) returns (i: int, j: int)
    requires x in AllRefs(walks)
    ensures IsRef(walks, i, j, x)
  {
    var n := |walks| - 1;
    if x in RefsOf(walks[n]) {
      j :| 0 <= j < |RefsOf(walks[n])| && RefsOf(walks[n])[j] == x;
      i := n;
    } else {
      i, j := ListedIsRef(walks[..n], x);
    }
  }

  /** One record: it counts as uploaded exactly when its page is, in a readable sidecar. */
  lemma RecordMeaning(w: VolumeWalk, j: nat, vol: Protocol.Vol, backend: string)
    requires DescribesOne(w, vol, backend) && w.Walked? && j < |w.records|
    ensures
      var p := w.records[j].0;
      && p in vol.index
      && RefOf(w, j).key == KeyOf(vol.ChunkOf(p)) && vol.ChunkOf(p).backend == backend
      && (RefOf(w, j).uploaded <==> w.states.Some? && p !in vol.localOnly)
  {
  }

  /** A clear chunk: a page the walk saw that names it is Uploaded in a readable sidecar. */
  lemma ClearPage(walks: seq<VolumeWalk>, touches: map<Key, U64>, uploaded: map<Key, bool>, i: int, vol: Protocol.Vol, backend: string, p: PageId)
    requires Summarises(AllRefs(walks), touches, uploaded) && 0 <= i < |walks| && DescribesOne(walks[i], vol, backend)
    requires SeenAt(walks[i], p)
    ensures p in vol.index && (Clear(uploaded, vol.ChunkOf(p)) ==> walks[i].states.Some? && p !in vol.localOnly)
  {
    var j :| 0 <= j < |walks[i].records| && walks[i].records[j].0 == p;
    RecordMeaning(walks[i], j, vol, backend);
    RefIsListed(walks, i, j, RefOf(walks[i], j));
  }

  /** A chunk that is not clear: some page the walk saw names it and is LocalOnly or unreadable. */
  lemma PinnedPage(walks: seq<VolumeWalk>, ids: seq<Protocol.VolId>, s: Protocol.Sys, touches: map<Key, U64>, uploaded: map<Key, bool>, c: Chunk)
    returns (i: int, p: PageId)
    requires Describes(walks, ids, s, c.backend) && Summarises(AllRefs(walks), touches, uploaded) && !Clear(uploaded, c)
    ensures 0 <= i < |ids| && SeenAt(walks[i], p) && s.References(ids[i], p, c)
    ensures walks[i].states.None? || p in s.vols[ids[i]].localOnly
  {
    var x :| x in AllRefs(walks) && x.key == KeyOf(c) && !x.uploaded;
    var j;
    i, j := ListedIsRef(walks, x);
    p := walks[i].records[j].0;
    RecordMeaning(walks[i], j, s.vols[ids[i]], c.backend);
  }

  /**
    The walk decides exactly this: a chunk is clear if and only if every page the walk saw
    that names it is recorded Uploaded in a readable sidecar.
   */
  lemma ClearIff(walks: seq<VolumeWalk>, ids: seq<Protocol.VolId>, s: Protocol.Sys, touches: map<Key, U64>, uploaded: map<Key, bool>, c: Chunk)
    requires Describes(walks, ids, s, c.backend) && Summarises(AllRefs(walks), touches, uploaded)
    ensures Clear(uploaded, c) <==>
      forall v, p :: s.References(v, p, c) && Seen(walks, ids, v, p) ==> v !in Unreadable(walks, ids) && p !in s.vols[v].localOnly
  {
    hide DescribesOne, Summarises, SeenAt, AllRefs, Clear;
    if Clear(uploaded, c) {
      forall v, p | s.References(v, p, c) && Seen(walks, ids, v, p)
        ensures v !in Unreadable(walks, ids) && p !in s.vols[v].localOnly
      {
        var i :| 0 <= i < |ids| && ids[i] == v && SeenAt(walks[i], p);
        ClearPage(walks, touches, uploaded, i, s.vols[v], c.backend, p);
      }
    } else {
      var i, p := PinnedPage(walks, ids, s, touches, uploaded, c);
      assert Seen(walks, ids, ids[i], p) && s.References(ids[i], p, c);
      assert SeenAt(walks[i], p) ==> walks[i].Walked? by { IsWalked(walks[i], p); }
      assert ids[i] in Unreadable(walks, ids) || p in s.vols[ids[i]].localOnly;
    }
  }

  lemma IsWalked(w: VolumeWalk, p: PageId)
    ensures SeenAt(w, p) ==> w.Walked?
  {
  }

  /**
    Clear is enough for a safe removal if and only if the walk missed no LocalOnly page of
    the chunk.  A volume whose `pages.idx`, `lru.idx` or manifest fails to open is missed.
   */
  lemma ClearIsSafeIff(walks: seq<VolumeWalk>, ids: seq<Protocol.VolId>, s: Protocol.Sys, touches: map<Key, U64>, uploaded: map<Key, bool>, c: Chunk)
    requires Describes(walks, ids, s, c.backend) && Summarises(AllRefs(walks), touches, uploaded) && Clear(uploaded, c)
    ensures s.Evictable(c, Unreadable(walks, ids)) <==>
      forall v, p :: s.References(v, p, c) && !Seen(walks, ids, v, p) ==> v !in Unreadable(walks, ids) && p !in s.vols[v].localOnly
  {
    ClearIff(walks, ids, s, touches, uploaded, c);
  }

  /** Every LocalOnly page of the backend's volumes was seen, in a volume or not; nothing unreadable was missed. */
  ghost predicate NothingMissed(walks: seq<VolumeWalk>, ids: seq<Protocol.VolId>, s: Protocol.Sys, backend: string)
    requires |ids| == |walks|
  {
    forall v, p :: v in s.vols && p in s.vols[v].index && s.vols[v].manifest.backend == backend && !Seen(walks, ids, v, p) ==>
      v !in Unreadable(walks, ids) && p !in s.vols[v].localOnly
  }

  /** A pass that removes only clear chunks keeps the upload protocol's invariant, if the walk missed nothing. */
  lemma PassKeepsInv(walks: seq<VolumeWalk>, ids: seq<Protocol.VolId>, s: Protocol.Sys, backend: string,
                     touches: map<Key, U64>, uploaded: map<Key, bool>, removed: set<Chunk>)
    requires Protocol.Inv(s) && Describes(walks, ids, s, backend) && NothingMissed(walks, ids, s, backend)
    requires Summarises(AllRefs(walks), touches, uploaded)
    requires forall c :: c in removed ==> c.backend == backend && Clear(uploaded, c)
    ensures
      var step := Protocol.Evict(removed, Unreadable(walks, ids));
      Protocol.Enabled(s, step) && Protocol.Inv(Protocol.Do(s, step))
  {
    forall c | c in removed
      ensures s.Evictable(c, Unreadable(walks, ids))
    {
      ClearIsSafeIff(walks, ids, s, touches, uploaded, c);
    }
    hide Protocol.Inv, Describes, Summarises, Clear;
    Protocol.EvictKeeps(s, removed, Unreadable(walks, ids));
  }

  // ----- a skipped volume -----

  /** One volume, one page written and not yet uploaded. */
  function LonelySystem(): Protocol.Sys {
    var c := PlainChunk(7);
    Protocol.Sys(map[0 := EmptyVol().(index := map[3 := Entry(Plain([7]), 0)], localOnly := {3}, pending := {3})],
                 {c}, {}, {Protocol.Task(0, 3, c)}, {}, map[])
  }

  /**
    A volume whose `lru.idx` fails to open is skipped rather than pinned, so the pass takes
    the only copy of its page.
   */
  lemma SkippedVolumeLosesOnlyCopy()
    ensures
      var s := LonelySystem();
      var c := PlainChunk(7);
      && Protocol.Inv(s) && Describes([Skipped], [0], s, "primary")
      && Summarises(AllRefs([Skipped]), map[], map[]) && Clear(map[], c) && !NothingMissed([Skipped], [0], s, "primary")
      && !Protocol.Readable(s.(pool := s.pool - {c}), 0, 3)
  {
    var s := LonelySystem();
    assert Protocol.PageOk(s.vols[0], s.pool, s.storage, 3);
    assert AllRefs([Skipped]) == [] by { assert [Skipped][..0] == []; }
    assert !Seen([Skipped], [0], 0, 3);
    assert 0 in s.vols && 3 in s.vols[0].index && 3 in s.vols[0].localOnly;
  }
}
