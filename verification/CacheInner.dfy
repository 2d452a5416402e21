/**
  The cache's page table: a map of entries, an intrusive doubly linked recency list whose
  links live inside the entries, and a separate index of the dirty pages.
*/
module CacheInner {
  import opened Bytes

  datatype PageState = Clean | Dirty

  datatype Body = Body(bytes: seq<Byte>, state: PageState, version: U64)

  datatype CacheEntry = CacheEntry(body: Body, newer: Option<PageId>, older: Option<PageId>)

  // ----- sequences of distinct page ids -----

  ghost function Elems(s: seq<PageId>): set<PageId> {
    set p | p in s
  }

  ghost function Without(s: seq<PageId>, p: PageId): seq<PageId> {
    if s == [] then [] else if s[0] == p then s[1..] else [s[0]] + Without(s[1..], p)
  }

  lemma {:induction false} WithoutAt(s: seq<PageId>, p: PageId, i: nat)
    requires Distinct(s) && i < |s| && s[i] == p
    ensures Without(s, p) == s[..i] + s[i + 1..]
    ensures Distinct(Without(s, p)) && p !in Without(s, p)
    ensures Elems(Without(s, p)) == Elems(s) - {p}
  {
    WithoutAtShape(s, p, i);
    var w := s[..i] + s[i + 1..];
    assert forall k :: 0 <= k < |w| ==> w[k] == if k < i then s[k] else s[k + 1];
    forall q | q in s && q != p
      ensures q in w
    {
      var k :| 0 <= k < |s| && s[k] == q;
      assert w[if k < i then k else k - 1] == q;
    }
  }

  lemma {:induction false} WithoutAtShape(s: seq<PageId>, p: PageId, i: nat)
    requires Distinct(s) && i < |s| && s[i] == p
    ensures Without(s, p) == s[..i] + s[i + 1..]
  {
    if i > 0 {
      WithoutAtShape(s[1..], p, i - 1);
      assert s[..i] == [s[0]] + s[1..][..i - 1];
      assert s[1..][i..] == s[i + 1..];
    }
  }

  lemma {:induction false} WithoutAbsent(s: seq<PageId>, p: PageId)
    requires p !in s
    ensures Without(s, p) == s
  {
    if s != [] {
      WithoutAbsent(s[1..], p);
    }
  }

  // ----- the list invariant -----

  ghost function End(s: seq<PageId>, i: int): Option<PageId> {
    if 0 <= i < |s| then Some(s[i]) else None
  }

  ghost predicate LinkAt(pages: map<PageId, CacheEntry>, order: seq<PageId>, i: int)
    requires 0 <= i < |order|
  {
    && order[i] in pages
    && pages[order[i]].newer == End(order, i - 1)
    && pages[order[i]].older == End(order, i + 1)
  }

  /** Both link directions, head and tail spell out `order`; entries off the list carry no links. */
  ghost predicate Linked(pages: map<PageId, CacheEntry>, head: Option<PageId>, tail: Option<PageId>, order: seq<PageId>) {
    && Distinct(order)
    && head == End(order, 0)
    && tail == End(order, |order| - 1)
    && (forall i :: 0 <= i < |order| ==> LinkAt(pages, order, i))
    && (forall p :: p in pages && p !in order ==> pages[p].newer == None && pages[p].older == None)
  }

  function BodiesOf(pages: map<PageId, CacheEntry>): map<PageId, Body> {
    map p | p in pages :: pages[p].body
  }

  function DirtyOf(pages: map<PageId, CacheEntry>): set<PageId> {
    set p | p in pages && pages[p].body.state.Dirty?
  }

  lemma SameBodiesSameView(a: map<PageId, CacheEntry>, b: map<PageId, CacheEntry>)
    requires SameBodies(a, b)
    ensures BodiesOf(a) == BodiesOf(b) && DirtyOf(a) == DirtyOf(b)
  {
  }

  lemma ViewUpdated(pages: map<PageId, CacheEntry>, p: PageId, e: CacheEntry)
    ensures BodiesOf(pages[p := e]) == BodiesOf(pages)[p := e.body]
    ensures DirtyOf(pages[p := e]) == if e.body.state.Dirty? then DirtyOf(pages) + {p} else DirtyOf(pages) - {p}
  {
  }

  lemma ViewRemoved(pages: map<PageId, CacheEntry>, p: PageId)
    ensures BodiesOf(pages - {p}) == BodiesOf(pages) - {p}
    ensures DirtyOf(pages - {p}) == DirtyOf(pages) - {p}
  {
  }

  /** Same pages with the same bodies; only links may differ. */
  ghost predicate SameBodies(a: map<PageId, CacheEntry>, b: map<PageId, CacheEntry>) {
    a.Keys == b.Keys && forall p :: p in a ==> a[p].body == b[p].body
  }

  /** Position `i` is the last one, or the last clean one: everything behind it was passed over as dirty. */
  ghost predicate IsPick(order: seq<PageId>, dirty: set<PageId>, cleanOnly: bool, i: int)
    requires 0 <= i < |order|
  {
    (cleanOnly ==> order[i] !in dirty) && forall j :: i < j < |order| ==> cleanOnly && order[j] in dirty
  }

  function SetNewer(pages: map<PageId, CacheEntry>, at: PageId, v: Option<PageId>): map<PageId, CacheEntry> {
    if at in pages then pages[at := pages[at].(newer := v)] else pages
  }

  function SetOlder(pages: map<PageId, CacheEntry>, at: PageId, v: Option<PageId>): map<PageId, CacheEntry> {
    if at in pages then pages[at := pages[at].(older := v)] else pages
  }

  /** The table after detaching a linked page, as `LruUnlink` writes it. */
  function UnlinkPages(pages: map<PageId, CacheEntry>, p: PageId): map<PageId, CacheEntry>
    requires p in pages
  {
    var newer, older := pages[p].newer, pages[p].older;
    var a := if newer.Some? then SetOlder(pages, newer.value, older) else pages;
    var b := if older.Some? then SetNewer(a, older.value, newer) else a;
    b[p := b[p].(newer := None, older := None)]
  }

  lemma UnlinkPagesAt(pages: map<PageId, CacheEntry>, p: PageId, q: PageId)
    requires p in pages && q in pages && pages[p].newer != Some(p) && pages[p].older != Some(p)
    ensures UnlinkPages(pages, p).Keys == pages.Keys
    ensures UnlinkPages(pages, p)[q] ==
      if q == p then pages[p].(newer := None, older := None)
      else pages[q].(newer := if pages[p].older == Some(q) then pages[p].newer else pages[q].newer,
                     older := if pages[p].newer == Some(q) then pages[p].older else pages[q].older)
  {
  }

  lemma LinkAfterUnlink(pages: map<PageId, CacheEntry>, order: seq<PageId>, i: nat, k: nat)
    requires Distinct(order) && i < |order| && k < |order| && k != i
    requires LinkAt(pages, order, i) && LinkAt(pages, order, k)
    ensures
      var order' := order[..i] + order[i + 1..];
      var pages' := UnlinkPages(pages, order[i]);
      LinkAt(pages', order', if k < i then k else k - 1)
  {
    UnlinkPagesAt(pages, order[i], order[k]);
    hide UnlinkPages;
    var order' := order[..i] + order[i + 1..];
    assert order'[if k < i then k else k - 1] == order[k];
  }

  lemma OffListAfterUnlink(pages: map<PageId, CacheEntry>, order: seq<PageId>, i: nat, q: PageId)
    requires Distinct(order) && i < |order| && LinkAt(pages, order, i) && q in pages
    requires q !in order ==> pages[q].newer == None && pages[q].older == None
    ensures
      var pages' := UnlinkPages(pages, order[i]);
      && pages'.Keys == pages.Keys
      && pages'[q].body == pages[q].body
      && (q !in order || q == order[i] ==> pages'[q].newer == None && pages'[q].older == None)
  {
    UnlinkPagesAt(pages, order[i], q);
  }

  lemma UnlinkKeepsLinks(pages: map<PageId, CacheEntry>, head: Option<PageId>, tail: Option<PageId>, order: seq<PageId>, i: nat)
    requires Linked(pages, head, tail, order) && i < |order|
    ensures order[i] in pages
    ensures
      var p := order[i];
      var newer, older := pages[p].newer, pages[p].older;
      && Linked(UnlinkPages(pages, p), if newer.None? then older else head, if older.None? then newer else tail, Without(order, p))
      && SameBodies(UnlinkPages(pages, p), pages)
  {
    hide UnlinkPages, Without, Distinct, End, LinkAt;
    UnlinkEnds(pages, head, tail, order, i);
    var p := order[i];
    WithoutAt(order, p, i);
    var order', pages' := order[..i] + order[i + 1..], UnlinkPages(pages, p);
    forall k | 0 <= k < |order'|
      ensures LinkAt(pages', order', k)
    {
      var k0 := if k < i then k else k + 1;
      assert LinkAt(pages, order, k0);
      LinkAfterUnlink(pages, order, i, k0);
    }
    OffListAfterUnlink(pages, order, i, p);
    forall q | q in pages
      ensures pages'[q].body == pages[q].body
      ensures q !in order' ==> pages'[q].newer == None && pages'[q].older == None
    {
      assert q in order && q != p ==> q in Elems(order');
      OffListAfterUnlink(pages, order, i, q);
    }
  }

  lemma UnlinkEnds(pages: map<PageId, CacheEntry>, head: Option<PageId>, tail: Option<PageId>, order: seq<PageId>, i: nat)
    requires Linked(pages, head, tail, order) && i < |order|
    ensures LinkAt(pages, order, i) && order[i] in pages
    ensures
      var order' := order[..i] + order[i + 1..];
      var newer, older := pages[order[i]].newer, pages[order[i]].older;
      && (if newer.None? then older else head) == End(order', 0)
      && (if older.None? then newer else tail) == End(order', |order'| - 1)
  {
    assert LinkAt(pages, order, i);
  }

  lemma DropView(pages: map<PageId, CacheEntry>, head: Option<PageId>, tail: Option<PageId>, order: seq<PageId>, p: PageId)
    requires Linked(pages, head, tail, order) && pages.Keys == Elems(order)
    ensures Elems(Without(order, p)) == Elems(order) - {p} && p !in Without(order, p)
    ensures BodiesOf(pages).Keys == pages.Keys
    ensures p !in pages ==> Without(order, p) == order && p !in DirtyOf(pages)
  {
    DetachedOrder(pages, head, tail, order, p);
    if p !in pages {
      assert p !in Elems(order);
      WithoutAbsent(order, p);
    }
  }

  lemma DropDetached(pages: map<PageId, CacheEntry>, head: Option<PageId>, tail: Option<PageId>, order: seq<PageId>, p: PageId)
    requires Linked(pages, head, tail, order) && p !in order
    ensures Linked(pages - {p}, head, tail, order)
  {
    forall k | 0 <= k < |order|
      ensures LinkAt(pages - {p}, order, k)
    {
      assert LinkAt(pages, order, k);
    }
  }

  lemma PushKeepsLinks(pages: map<PageId, CacheEntry>, head: Option<PageId>, tail: Option<PageId>, order: seq<PageId>, p: PageId)
    requires Linked(pages, head, tail, order) && p in pages && p !in order
    ensures
      var linked := pages[p := pages[p].(newer := None, older := head)];
      var pages' := if head.Some? then SetNewer(linked, head.value, Some(p)) else linked;
      && Linked(pages', Some(p), if head.None? then Some(p) else tail, [p] + order)
      && SameBodies(pages', pages)
  {
    var linked := pages[p := pages[p].(newer := None, older := head)];
    var pages' := if head.Some? then SetNewer(linked, head.value, Some(p)) else linked;
    var order' := [p] + order;
    if order != [] { assert LinkAt(pages, order, 0); }
    forall k | 0 <= k < |order'|
      ensures LinkAt(pages', order', k)
    {
      if k > 0 {
        assert LinkAt(pages, order, k - 1);
        assert order'[k] == order[k - 1];
      }
    }
  }

  /** Links do not depend on bodies, and dropping a detached page keeps them. */
  lemma LinksIgnoreRest(pages: map<PageId, CacheEntry>, pages': map<PageId, CacheEntry>,
                        head: Option<PageId>, tail: Option<PageId>, order: seq<PageId>)
    requires Linked(pages, head, tail, order)
    requires forall q :: q in pages' && q in pages ==> pages'[q].newer == pages[q].newer && pages'[q].older == pages[q].older
    requires forall q :: q in order ==> q in pages'
    requires forall q :: q in pages' && q !in pages ==> pages'[q].newer == None && pages'[q].older == None
    ensures Linked(pages', head, tail, order)
  {
    forall k | 0 <= k < |order|
      ensures LinkAt(pages', order, k)
    {
      assert LinkAt(pages, order, k);
    }
  }

  /** Changing one entry's body, or adding a detached entry, keeps the links. */
  lemma EntryReplaced(pages: map<PageId, CacheEntry>, head: Option<PageId>, tail: Option<PageId>, order: seq<PageId>, p: PageId, e: CacheEntry)
    requires Linked(pages, head, tail, order) && pages.Keys == Elems(order)
    requires if p in pages then e.newer == pages[p].newer && e.older == pages[p].older else e.newer.None? && e.older.None?
    ensures Linked(pages[p := e], head, tail, order)
  {
    hide Linked;
    LinksIgnoreRest(pages, pages[p := e], head, tail, order);
  }

  lemma BodyOf(pages: map<PageId, CacheEntry>, p: PageId)
    requires p in pages
    ensures p in BodiesOf(pages) && BodiesOf(pages)[p] == pages[p].body
  {
  }

  lemma KeysWithFront(pages: map<PageId, CacheEntry>, order: seq<PageId>, p: PageId)
    requires pages.Keys == Elems(order) && p in pages
    ensures Elems(order) + {p} == pages.Keys
  {
  }

  class CacheInner {
    var pages: map<PageId, CacheEntry>
    var lruHead: Option<PageId>
    var lruTail: Option<PageId>
    var dirty: set<PageId>
    ghost var order: seq<PageId> // most recently used first

    ghost predicate ListOk()
      reads this
    {
      Linked(pages, lruHead, lruTail, order)
    }

    /** The list holds exactly the cached pages, and `dirty` exactly the dirty ones. */
    ghost predicate Valid()
      reads this
    {
      && ListOk()
      && pages.Keys == Elems(order)
      && dirty == DirtyOf(pages)
    }

    ghost function Bodies(): map<PageId, Body>
      reads this
    {
      BodiesOf(pages)
    }

    /** What clients use of the table. */
    lemma Facts()
      requires Valid()
      ensures Bodies().Keys == pages.Keys && |Bodies()| == |pages| && dirty <= pages.Keys
      ensures forall p :: p in pages ==> Bodies()[p] == pages[p].body
      ensures forall p :: p in pages ==> (p in dirty <==> pages[p].body.state.Dirty?)
    {
      assert Bodies().Keys == pages.Keys;
      assert |Bodies()| == |Bodies().Keys| == |pages.Keys| == |pages|;
    }

    constructor ()
      ensures Valid() && Bodies() == map[] && order == []
    {
      pages := map[];
      lruHead := None;
      lruTail := None;
      dirty := {};
      order := [];
    }

    /** Detach `p`; a page that is absent or already detached is left alone. */
    method LruUnlink(p: PageId)
      requires ListOk()
      modifies this`pages, this`lruHead, this`lruTail, this`order
      ensures ListOk() && SameBodies(pages, old(pages))
      ensures order == Without(old(order), p) && p !in order
    {
      if p !in pages {
        NotListed(pages, lruHead, lruTail, order, p);
        WithoutAbsent(order, p);
        return;
      }
      var newer, older := pages[p].newer, pages[p].older;
      if newer.None? && older.None? && lruHead != Some(p) {
        NotListed(pages, lruHead, lruTail, order, p);
        WithoutAbsent(order, p);
        return;
      }
      assert p in order;
      ghost var i :| 0 <= i < |order| && order[i] == p;
      UnlinkKeepsLinks(pages, lruHead, lruTail, order, i);
      WithoutAt(order, p, i);
      hide Linked;
      match newer {
        case Some(n) => pages := SetOlder(pages, n, older);
        case None => lruHead := older;
      }
      match older {
        case Some(o) => pages := SetNewer(pages, o, newer);
        case None => lruTail := newer;
      }
      pages := pages[p := pages[p].(newer := None, older := None)];
      order := Without(order, p);
    }

    /** Link a cached, detached page at the most recently used end. */
    method LruPushFront(p: PageId)
      requires ListOk() && p !in order
      modifies this`pages, this`lruHead, this`lruTail, this`order
      ensures ListOk() && SameBodies(pages, old(pages))
      ensures order == if p in old(pages) then [p] + old(order) else old(order)
    {
      var oldHead := lruHead;
      if p !in pages { return; }
      PushKeepsLinks(pages, lruHead, lruTail, order, p);
      hide Linked;
      pages := pages[p := pages[p].(newer := None, older := oldHead)];
      match oldHead {
        case Some(h) => pages := SetNewer(pages, h, Some(p));
        case None => lruTail := Some(p);
      }
      lruHead := Some(p);
      order := [p] + order;
    }

    /** Move `p` to the front, whether it was linked or only just inserted. */
    method LruTouch(p: PageId)
      requires ListOk()
      modifies this`pages, this`lruHead, this`lruTail, this`order
      ensures ListOk() && SameBodies(pages, old(pages))
      ensures order == if p in old(pages) then [p] + Without(old(order), p) else old(order)
    {
      if lruHead == Some(p) {
        assert order == [p] + order[1..];
        return;
      }
      if p !in pages {
        NotListed(pages, lruHead, lruTail, order, p);
        WithoutAbsent(order, p);
      }
      hide Linked;
      LruUnlink(p);
      LruPushFront(p);
    }

    /** Remove an entry from the table, the list and the dirty index together. */
    method DropEntry(p: PageId) returns (present: bool)
      requires Valid()
      modifies this
      ensures Valid()
      ensures present <==> p in old(Bodies())
      ensures Bodies() == old(Bodies()) - {p}
      ensures order == Without(old(order), p)
      ensures dirty == old(dirty) - {p}
    {
      hide Linked, LinkAt, Distinct, End, BodiesOf, DirtyOf, Elems, Without;
      DropView(pages, lruHead, lruTail, order, p);
      if p in pages {
        LruUnlink(p);
        DropDetached(pages, lruHead, lruTail, order, p);
        SameBodiesSameView(pages, old(pages));
        ViewRemoved(pages, p);
        pages := pages - {p};
        dirty := dirty - {p};
        return true;
      }
      return false;
    }

    method InvalidateAll()
      modifies this
      ensures Valid() && Bodies() == map[] && order == [] && dirty == {}
    {
      pages := map[];
      dirty := {};
      lruHead := None;
      lruTail := None;
      order := [];
    }

    /** The least recently used page, or the least recently used clean one. */
    method LruPick(cleanOnly: bool) returns (r: Option<PageId>)
      requires Valid()
      ensures r.None? ==> forall p :: p in pages ==> cleanOnly && p in dirty
      ensures r.Some? ==> r.value in pages
      ensures r.Some? ==> exists i :: 0 <= i < |order| && IsPick(order, dirty, cleanOnly, i) && r.value == order[i]
    {
      var cur := lruTail;
      ghost var k := |order| - 1;
      while cur.Some?
        invariant -1 <= k < |order| && cur == End(order, k)
        invariant forall j :: k < j < |order| ==> cleanOnly && order[j] in dirty
        decreases k
      {
        var pid := cur.value;
        assert LinkAt(pages, order, k);
        if !cleanOnly || pages[pid].body.state.Clean? {
          assert IsPick(order, dirty, cleanOnly, k);
          assert pid in Elems(order);
          return Some(pid);
        }
        cur := pages[pid].newer;
        k := k - 1;
      }
      forall p | p in pages
        ensures cleanOnly && p in dirty
      {
        assert p in Elems(order);
      }
      return None;
    }

    // ----- entry updates made by the cache under its lock -----

    /** Insert or overwrite the body of `p` and move it to the front. */
    method Put(p: PageId, body: Body)
      requires Valid()
      modifies this
      ensures Valid()
      ensures Bodies() == old(Bodies())[p := body]
      ensures order == [p] + Without(old(order), p)
    {
      hide Linked, LinkAt, Distinct, End, BodiesOf, DirtyOf, Elems, Without;
      var entry := if p in pages then pages[p].(body := body) else CacheEntry(body, None, None);
      DetachedOrder(pages, lruHead, lruTail, order, p);
      EntryReplaced(pages, lruHead, lruTail, order, p, entry);
      ViewUpdated(pages, p, entry);
      pages := pages[p := entry];
      dirty := if body.state.Dirty? then dirty + {p} else dirty - {p};
      label placed:
      LruTouch(p);
      SameBodiesSameView(pages, old@placed(pages));
    }

    /** Commit of a flush: the body is unchanged but the page is no longer dirty. */
    method MarkClean(p: PageId)
      requires Valid() && p in pages
      modifies this`pages, this`dirty
      ensures Valid()
      ensures Bodies() == old(Bodies())[p := old(Bodies())[p].(state := Clean)]
      ensures dirty == old(dirty) - {p} && pages.Keys == old(pages.Keys)
    {
      hide Linked, LinkAt, Distinct, End, BodiesOf, DirtyOf, Elems;
      var entry := pages[p].(body := pages[p].body.(state := Clean));
      EntryReplaced(pages, lruHead, lruTail, order, p, entry);
      ViewUpdated(pages, p, entry);
      BodyOf(pages, p);
      pages := pages[p := entry];
      dirty := dirty - {p};
    }

    /** Move a cached page to the front. */
    method Touch(p: PageId)
      requires Valid() && p in pages
      modifies this
      ensures Valid() && Bodies() == old(Bodies()) && dirty == old(dirty)
      ensures order == [p] + Without(old(order), p)
    {
      hide Linked, LinkAt, Distinct, End, BodiesOf, DirtyOf, Elems, Without;
      DetachedOrder(pages, lruHead, lruTail, order, p);
      KeysWithFront(pages, order, p);
      LruTouch(p);
      SameBodiesSameView(pages, old(pages));
    }
  }

  lemma NotListed(pages: map<PageId, CacheEntry>, head: Option<PageId>, tail: Option<PageId>, order: seq<PageId>, p: PageId)
    requires Linked(pages, head, tail, order)
    requires p in pages ==> pages[p].newer.None? && pages[p].older.None? && head != Some(p)
    ensures p !in order
  {
    forall i | 0 <= i < |order|
      ensures order[i] != p
    {
      assert LinkAt(pages, order, i);
    }
  }

  lemma DetachedOrder(pages: map<PageId, CacheEntry>, head: Option<PageId>, tail: Option<PageId>, order: seq<PageId>, p: PageId)
    requires Linked(pages, head, tail, order)
    ensures Distinct(Without(order, p)) && p !in Without(order, p)
    ensures Elems(Without(order, p)) == Elems(order) - {p}
    ensures Elems([p] + Without(order, p)) == Elems(order) + {p}
  {
    if p in order {
      var i :| 0 <= i < |order| && order[i] == p;
      WithoutAt(order, p, i);
    } else {
      WithoutAbsent(order, p);
    }
  }
}
