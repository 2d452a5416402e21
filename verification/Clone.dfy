/**
  Cloning pages from one volume's cache to another's, or within one: XCOPY and ODX.

  Both ends may be the same cache.  Distinct caches never share their in-memory state, and
  they share a store when they are on the same backend.
*/
module Clone {
  import opened Bytes
  import opened Paging
  import opened Volume
  import opened VolumeWriter
  import opened PageCache
  import Protocol

  predicate Separate(src: Cache, dst: Cache) {
    && (src != dst ==> src.inner != dst.inner && src.writer != dst.writer)
    && (src.writer.manifest.backend == dst.writer.manifest.backend ==> src.writer.store == dst.writer.store)
  }

  /** A clean, uploaded source page whose rebind test passes: the destination opens the same entry to the same bytes. */
  lemma RebindableSource(src: Cache, srcId: PageId, dst: Cache, dstId: PageId)
    requires src.Valid() && Separate(src, dst)
    requires srcId !in src.inner.dirty && srcId !in src.writer.localOnly && srcId in src.writer.index
    requires RebindOk(src.writer.manifest, srcId, dst.writer.manifest, dstId)
    ensures
      var e := src.writer.index[srcId];
      && Open(dst.writer.manifest, dstId, e) == Some(src.Content(srcId))
      && |src.Content(srcId)| == src.writer.manifest.pageSize
      && (src.writer.Backed() ==> ChunkFor(dst.writer.manifest, e.payload) in dst.writer.store.storage)
  {
    var w := src.writer;
    RebindSoundIff(w.manifest, srcId, dst.writer.manifest, dstId);
    w.Facts();
    src.CleanIsIndexed(srcId);
    if w.Backed() {
      Protocol.RebindCarriesOver(w.View(), srcId, dst.writer.manifest, dstId, w.store.pool, w.store.storage);
    }
  }

  lemma HoleReadsZero(src: Cache, srcId: PageId)
    requires src.Valid() && srcId !in src.inner.dirty && srcId !in src.writer.index
    ensures src.Content(srcId) == Zeros(src.writer.manifest.pageSize)
  {
    src.CleanIsIndexed(srcId);
    HoleIsZero(src.writer.manifest, src.writer.index, srcId);
  }

  /** Both caches: chunks are only added; and if both were sound, both are. */
  ghost predicate PairGrew(src: Outside, dst: Outside, src': Outside, dst': Outside) {
    && OnlyAdded(src, src') && OnlyAdded(dst, dst')
    && (src.Sound() && dst.Sound() ==> src'.Sound() && dst'.Sound())
  }

  lemma PairGrewTwice(s0: Outside, d0: Outside, s1: Outside, d1: Outside, s2: Outside, d2: Outside)
    ensures PairGrew(s0, d0, s0, d0)
    ensures PairGrew(s0, d0, s1, d1) && PairGrew(s1, d1, s2, d2) ==> PairGrew(s0, d0, s2, d2)
    ensures Grew(s0, s1) && Grew(d0, d1) ==> PairGrew(s0, d0, s1, d1)
  {
  }

  /** Install bytes at the destination; the other cache does not notice. */
  method InstallInto(src: Cache, dst: Cache, dstId: PageId, bytes: seq<Byte>) returns (r: Result<(), WriterError>)
    requires src.Valid() && dst.Valid() && Separate(src, dst)
    modifies dst.inner, dst.writer, dst.writer.store
    ensures src.Valid() && dst.Valid() && src.StoreGrew() && dst.StoreGrew()
    ensures r.Ok? ==> dst.Content(dstId) == bytes
    ensures forall q :: q != dstId || r.Err? ==> dst.Content(q) == old(dst.Content(q))
    ensures src != dst ==> forall q :: src.Content(q) == old(src.Content(q))
  {
    r := dst.InstallFullPage(dstId, bytes);
    if src != dst { src.KeptByGrowth(); }
  }

  /**
    Rebind at the destination; the other cache does not notice.  A rebind that fails leaves the
    page uncached.
   */
  method RebindInto(src: Cache, dst: Cache, dstId: PageId, e: Option<Entry>) returns (r: Result<(), WriterError>)
    requires src.Valid() && dst.Valid() && Separate(src, dst)
    requires e.Some? ==> Open(dst.writer.manifest, dstId, e.value).Some?
    requires e.Some? ==> |Open(dst.writer.manifest, dstId, e.value).value| == dst.writer.manifest.pageSize
    requires src.Stamp().Sound() ==> dst.writer.SlotStored(e)
    modifies dst.inner, dst.writer
    ensures src.Valid() && dst.Valid() && PairGrew(old(src.Stamp()), old(dst.Stamp()), src.Stamp(), dst.Stamp())
    ensures r.Ok? ==> dst.Content(dstId) == SlotBytes(dst.writer.manifest, dstId, e)
    ensures r.Err? ==> !dst.writer.reliable && dstId !in dst.inner.pages
    ensures forall q :: q != dstId ==> dst.Content(q) == old(dst.Content(q))
    ensures src != dst ==> forall q :: src.Content(q) == old(src.Content(q))
  {
    r := dst.RebindPage(dstId, e);
    if src != dst { src.KeptByGrowth(); }
  }

  /** Copy the page through memory; it is re-sealed under the destination's identity when flushed. */
  method CopyThroughMemory(src: Cache, srcId: PageId, dst: Cache, dstId: PageId) returns (r: Result<(), WriterError>)
    requires src.Valid() && dst.Valid() && Separate(src, dst)
    modifies src.inner, src.writer, src.writer.store, dst.inner, dst.writer, dst.writer.store
    ensures src.Valid() && dst.Valid() && src.StoreGrew() && dst.StoreGrew()
    ensures r.Ok? ==> dst.Content(dstId) == old(src.Content(srcId))
    ensures forall q :: q != dstId || r.Err? ==> dst.Content(q) == old(dst.Content(q))
    ensures src != dst ==> forall q :: src.Content(q) == old(src.Content(q))
  {
    var bytes := src.AcquirePage(srcId);
    if src != dst { dst.KeptByGrowth(); }
    hide Cache.Valid, Cache.Content, Cache.Stamp, Grew;
    assert src.Content(srcId) == old(src.Content(srcId));
    if bytes.Err? { return Err(bytes.error); }
    ghost var s1, d1 := src.Stamp(), dst.Stamp();
    r := InstallInto(src, dst, dstId, bytes.value);
    GrewTwice(old(src.Stamp()), s1, src.Stamp());
    GrewTwice(old(dst.Stamp()), d1, dst.Stamp());
  }

  /**
    Clone one page, by whichever route applies.  In every case the destination page then
    reads as the source page did, and nothing else changes on either side.  Only a failed
    rebind costs the destination its cached bytes.
   */
  method CloneOnePageInto(src: Cache, srcId: PageId, dst: Cache, dstId: PageId) returns (r: Result<(), WriterError>)
    requires src.Valid() && dst.Valid() && Separate(src, dst)
    requires src.writer.manifest.pageSize == dst.writer.manifest.pageSize
    modifies src.inner, src.writer, src.writer.store, dst.inner, dst.writer, dst.writer.store
    ensures src.Valid() && dst.Valid() && PairGrew(old(src.Stamp()), old(dst.Stamp()), src.Stamp(), dst.Stamp())
    ensures r.Ok? ==> dst.Content(dstId) == old(src.Content(srcId))
    ensures r.Err? ==> dst.Content(dstId) == old(dst.Content(dstId)) || (!dst.writer.reliable && dstId !in dst.inner.pages)
    ensures forall q :: q != dstId ==> dst.Content(q) == old(dst.Content(q))
    ensures src != dst ==> forall q :: src.Content(q) == old(src.Content(q))
  {
    src.DirtyContent(srcId);
    ghost var s0, d0 := src.Stamp(), dst.Stamp();
    assert s0.Sound() ==> src.writer.Backed();
    hide Cache.Valid, Cache.Content, Cache.Stamp, PairGrew, Grew, OnlyAdded, Outside.Sound;
    PairGrewTwice(s0, d0, s0, d0, s0, d0);
    if src == dst && srcId == dstId { return Ok(()); }
    // the source is dirty in memory
    if srcId in src.inner.dirty {
      r := InstallInto(src, dst, dstId, src.inner.pages[srcId].body.bytes);
      PairGrewTwice(s0, d0, src.Stamp(), dst.Stamp(), src.Stamp(), dst.Stamp());
      return;
    }
    var entry := if srcId in src.writer.index then Some(src.writer.index[srcId]) else None;
    // not yet in storage, or not to be opened by the destination
    if srcId in src.writer.localOnly || (entry.Some? && !RebindOk(src.writer.manifest, srcId, dst.writer.manifest, dstId)) {
      r := CopyThroughMemory(src, srcId, dst, dstId);
      PairGrewTwice(s0, d0, src.Stamp(), dst.Stamp(), src.Stamp(), dst.Stamp());
      return;
    }
    // a hole stays a hole, whether or not a rebind would be sound
    if entry.None? { HoleReadsZero(src, srcId); } else { RebindableSource(src, srcId, dst, dstId); }
    r := RebindInto(src, dst, dstId, entry);
  }

  // ----- ranges -----

  /** The remainder of `i` by `d`. */
  function Residue(i: nat, d: nat): (r: nat)
    requires d > 0
    ensures r < d && r <= i
  {
    if i < d then i else Residue(i - d, d)
  }

  /**
    Which source page ends up at the i-th destination page.  Pages are cloned in ascending
    order, so a range copied forward over itself repeats its first `dstFirst - srcFirst` pages.
   */
  function SourceOf(same: bool, srcFirst: nat, dstFirst: nat, i: nat): (s: nat)
    ensures s <= srcFirst + i
  {
    if same && srcFirst < dstFirst then srcFirst + Residue(i, dstFirst - srcFirst) else srcFirst + i
  }

  /** The range clone is a plain copy if and only if it does not copy a volume's pages forward over themselves. */
  lemma RangeIsCopyIff(same: bool, srcFirst: nat, dstFirst: nat, n: nat)
    ensures (forall i: nat :: i < n ==> SourceOf(same, srcFirst, dstFirst, i) == srcFirst + i) <==>
            !(same && srcFirst < dstFirst < srcFirst + n)
  {
    if same && srcFirst < dstFirst < srcFirst + n {
      assert SourceOf(same, srcFirst, dstFirst, dstFirst - srcFirst) == srcFirst;
    }
  }

  /** What the page about to be read holds, given what was cloned so far. */
  lemma SourceSoFar(same: bool, s0: nat, d0: nat, i: nat)
    ensures same && d0 <= s0 + i < d0 + i ==> SourceOf(same, s0, d0, s0 + i - d0) == SourceOf(same, s0, d0, i)
    ensures !(same && d0 <= s0 + i < d0 + i) ==> SourceOf(same, s0, d0, i) == s0 + i
  {
  }

  /**
    Exactly `n` destination pages were cloned and no other page of either cache changed, except
    that a failed rebind may have cost the next page its cached bytes.
   */
  twostate predicate Cloned(src: Cache, dst: Cache, s0: nat, d0: nat, n: nat, failed: bool)
    reads src.inner, src.writer, dst.inner, dst.writer
  {
    && (n > 0 ==> s0 + n <= U32_LIMIT && d0 + n <= U32_LIMIT)
    && (forall q: PageId :: d0 <= q < d0 + n ==> dst.Content(q) == old(src.Content(SourceOf(src == dst, s0, d0, q - d0))))
    && (forall q: PageId :: !(d0 <= q < d0 + n) && !(failed && q == d0 + n) ==> dst.Content(q) == old(dst.Content(q)))
    && (forall q: PageId :: failed && q == d0 + n ==>
          dst.Content(q) == old(dst.Content(q)) || (!dst.writer.reliable && q !in dst.inner.pages))
    && (src != dst ==> forall q :: src.Content(q) == old(src.Content(q)))
  }

  /** Clone consecutive pages in ascending order.  A failed clone has cloned the first `done`. */
  method ClonePages(src: Cache, s0: nat, dst: Cache, d0: nat, pages: nat) returns (r: Result<(), WriterError>, ghost done: nat)
    requires src.Valid() && dst.Valid() && Separate(src, dst)
    requires src.writer.manifest.pageSize == dst.writer.manifest.pageSize
    modifies src.inner, src.writer, src.writer.store, dst.inner, dst.writer, dst.writer.store
    ensures src.Valid() && dst.Valid() && PairGrew(old(src.Stamp()), old(dst.Stamp()), src.Stamp(), dst.Stamp())
    ensures done <= pages && (r.Ok? ==> done == pages)
    ensures Cloned(src, dst, s0, d0, done, r.Err?)
  {
    hide Cache.Valid, Cache.Content, Cache.Stamp, PairGrew, SourceOf;
    PairGrewTwice(src.Stamp(), dst.Stamp(), src.Stamp(), dst.Stamp(), src.Stamp(), dst.Stamp());
    done := 0;
    for i := 0 to pages
      invariant src.Valid() && dst.Valid() && PairGrew(old(src.Stamp()), old(dst.Stamp()), src.Stamp(), dst.Stamp())
      invariant done == i && (i > 0 ==> s0 + i <= U32_LIMIT && d0 + i <= U32_LIMIT)
      invariant forall q: PageId :: d0 <= q < d0 + i ==> dst.Content(q) == old(src.Content(SourceOf(src == dst, s0, d0, q - d0)))
      invariant forall q: PageId :: !(d0 <= q < d0 + i) ==> dst.Content(q) == old(dst.Content(q))
      invariant src != dst ==> forall q :: src.Content(q) == old(src.Content(q))
    {
      if s0 + i >= U32_LIMIT { return Err(PageOutOfRange), done; }
      if d0 + i >= U32_LIMIT { return Err(PageOutOfRange), done; }
      SourceSoFar(src == dst, s0, d0, i);
      ghost var s1, d1 := src.Stamp(), dst.Stamp();
      assert src.Content(s0 + i) == old(src.Content(SourceOf(src == dst, s0, d0, i)));
      r := CloneOnePageInto(src, s0 + i, dst, d0 + i);
      PairGrewTwice(old(src.Stamp()), old(dst.Stamp()), s1, d1, src.Stamp(), dst.Stamp());
      if r.Err? { return; }
      forall q: PageId | d0 <= q < d0 + i + 1
        ensures dst.Content(q) == old(src.Content(SourceOf(src == dst, s0, d0, q - d0)))
      {
        if q == d0 + i { assert q - d0 == i; }
      }
      done := i + 1;
    }
    return Ok(()), done;
  }

  /** Clone `len` bytes.  Caches of different page sizes are refused outright. */
  method ClonePageRangeInto(src: Cache, srcOffset: U64, dst: Cache, dstOffset: U64, len: U64)
    returns (r: Result<(), WriterError>, ghost done: nat)
    requires src.Valid() && dst.Valid() && Separate(src, dst)
    requires src.writer.manifest.pageSize > 0 && dst.writer.manifest.pageSize > 0
    requires OffsetIn(srcOffset, src.writer.manifest.pageSize) == 0
    requires OffsetIn(dstOffset, dst.writer.manifest.pageSize) == 0
    requires OffsetIn(len, src.writer.manifest.pageSize) == 0
    modifies src.inner, src.writer, src.writer.store, dst.inner, dst.writer, dst.writer.store
    ensures src.Valid() && dst.Valid() && PairGrew(old(src.Stamp()), old(dst.Stamp()), src.Stamp(), dst.Stamp())
    ensures src.writer.manifest.pageSize != dst.writer.manifest.pageSize ==> r == Err(PageSizeMismatch) && done == 0
    ensures done <= PageOf(len, src.writer.manifest.pageSize) && (r.Ok? ==> done == PageOf(len, src.writer.manifest.pageSize))
    ensures
      var s0 := PageOf(srcOffset, src.writer.manifest.pageSize);
      var d0 := PageOf(dstOffset, dst.writer.manifest.pageSize);
      Cloned(src, dst, s0, d0, done, r.Err?)
  {
    hide Cache.Valid, Cache.Content, Cache.Stamp, PairGrew, PageOf, OffsetIn, SourceOf;
    PairGrewTwice(src.Stamp(), dst.Stamp(), src.Stamp(), dst.Stamp(), src.Stamp(), dst.Stamp());
    var ps := src.writer.manifest.pageSize;
    if ps != dst.writer.manifest.pageSize { return Err(PageSizeMismatch), 0; }
    hide Cloned;
    r, done := ClonePages(src, PageOf(srcOffset, ps), dst, PageOf(dstOffset, ps), PageOf(len, ps));
  }
}
