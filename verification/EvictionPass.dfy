/**
  One eviction pass over a backend's pool: which files are candidates, in what order they
  go, and when the loop stops.  The loop's subtraction is 64-bit and wraps.
*/
module EvictionPass {
  import opened Bytes
  import opened Volume
  import opened ChunkStore
  import opened DiskCache
  import Protocol

  // ----- the candidate scan -----

  /** What the scan reads from a volume's manifest on this backend. */
  datatype Routing = Routing(local: bool, ns: Uuid)

  lemma DistinctAppend<T>(a: seq<T>, b: seq<T>)
    requires Distinct(a) && Distinct(b) && forall x :: x in a ==> x !in b
    ensures Distinct(a + b)
  {
    forall i, j | 0 <= i < j < |a + b|
      ensures (a + b)[i] != (a + b)[j]
    {
      if i < |a| <= j {
        assert a[i] in a && b[j - |a|] in b;
      }
    }
  }

  /** The files of one namespace directory. */
  function Files(backend: string, dirs: map<Namespace, seq<Payload>>, ns: Namespace): seq<Chunk> {
    if ns !in dirs then [] else seq(|dirs[ns]|, i requires 0 <= i < |dirs[ns]| => Chunk(backend, ns, dirs[ns][i]))
  }

  lemma FilesAre(backend: string, dirs: map<Namespace, seq<Payload>>, ns: Namespace)
    requires ns in dirs ==> Distinct(dirs[ns])
    ensures
      var fs := Files(backend, dirs, ns);
      Distinct(fs) && forall c :: c in fs <==> c.backend == backend && c.ns == ns && ns in dirs && c.payload in dirs[ns]
  {
    var fs := Files(backend, dirs, ns);
    forall c: Chunk | c.backend == backend && c.ns == ns && ns in dirs && c.payload in dirs[ns]
      ensures c in fs
    {
      var i :| 0 <= i < |dirs[ns]| && dirs[ns][i] == c.payload;
      assert fs[i] == c;
    }
  }

  /** The scan reaches the shared pool and the namespace of every Local volume it can read. */
  ghost predicate Reached(volumes: seq<Option<Routing>>, ns: Namespace) {
    ns.None? || exists i :: 0 <= i < |volumes| && volumes[i] == Some(Routing(true, ns.value))
  }

  ghost predicate ScannedExactly(out: seq<Chunk>, backend: string, dirs: map<Namespace, seq<Payload>>, volumes: seq<Option<Routing>>) {
    forall c :: c in out <==> c.backend == backend && Reached(volumes, c.ns) && c.ns in dirs && c.payload in dirs[c.ns]
  }

  /** Every file of every reached namespace, once, though a clone family shares its namespace. */
  method ScanChunks(backend: string, dirs: map<Namespace, seq<Payload>>, volumes: seq<Option<Routing>>) returns (out: seq<Chunk>)
    requires forall ns :: ns in dirs ==> Distinct(dirs[ns])
    ensures Distinct(out) && ScannedExactly(out, backend, dirs, volumes)
  {
    out := Files(backend, dirs, None);
    FilesAre(backend, dirs, None);
    hide Files, Distinct;
    var seen: set<Uuid> := {};
    for i := 0 to |volumes|
      invariant Distinct(out) && ScannedExactly(out, backend, dirs, volumes[..i])
      invariant forall u: Uuid :: u in seen <==> Reached(volumes[..i], Some(u))
    {
      ReachedStep(volumes, i);
      var v := volumes[i];
      if v.Some? && v.value.local && v.value.ns !in seen {
        seen := seen + {v.value.ns};
        var more := Files(backend, dirs, Some(v.value.ns));
        FilesAre(backend, dirs, Some(v.value.ns));
        DistinctAppend(out, more);
        out := out + more;
      }
    }
    assert volumes[..|volumes|] == volumes;
  }

  lemma ReachedStep(volumes: seq<Option<Routing>>, i: nat)
    requires i < |volumes|
    ensures forall ns :: Reached(volumes[..i + 1], ns) <==>
      Reached(volumes[..i], ns) || (volumes[i].Some? && volumes[i].value.local && ns == Some(volumes[i].value.ns))
  {
    var a, b := volumes[..i], volumes[..i + 1];
    assert forall k :: 0 <= k < i ==> a[k] == b[k];
    forall ns: Namespace | Reached(a, ns) || (volumes[i].Some? && volumes[i].value.local && ns == Some(volumes[i].value.ns))
      ensures Reached(b, ns)
    {
      if !Reached(a, ns) { assert b[i] == Some(Routing(true, ns.value)); }
    }
    forall ns: Namespace | Reached(b, ns) && ns.Some? && b[i] != Some(Routing(true, ns.value))
      ensures Reached(a, ns)
    {
      var k :| 0 <= k < |b| && b[k] == Some(Routing(true, ns.value));
      assert a[k] == b[k];
    }
  }

  // ----- which candidates, in what order -----

  datatype Candidate = Candidate(chunk: Chunk, touch: U64)

  /** What the walk, the outstanding tokens and the recency window say about a chunk. */
  datatype Filter = Filter(touches: map<Key, U64>, uploaded: map<Key, bool>, pinned: set<Key>, cutoff: Option<U64>)
  {
    function TouchOf(c: Chunk): U64 { if KeyOf(c) in touches then touches[KeyOf(c)] else 0 }

    predicate Allows(c: Chunk) {
      Clear(uploaded, c) && KeyOf(c) !in pinned && (cutoff.Some? ==> TouchOf(c) < cutoff.value)
    }
  }

  function Candidates(scan: seq<Chunk>, f: Filter): seq<Candidate> {
    if scan == [] then []
    else
      var rest := Candidates(scan[1..], f);
      if f.Allows(scan[0]) then [Candidate(scan[0], f.TouchOf(scan[0]))] + rest else rest
  }

  function Insert(x: Candidate, s: seq<Candidate>): seq<Candidate> {
    if s == [] || x.touch <= s[0].touch then [x] + s else [s[0]] + Insert(x, s[1..])
  }

  /** The stable sort by last touch. */
  function SortByTouch(s: seq<Candidate>): seq<Candidate> {
    if s == [] then [] else Insert(s[0], SortByTouch(s[1..]))
  }

  predicate Sorted(s: seq<Candidate>) {
    forall i, j :: 0 <= i < j < |s| ==> s[i].touch <= s[j].touch
  }

  lemma {:induction false} InsertSorts(x: Candidate, s: seq<Candidate>)
    requires Sorted(s) && Distinct(s) && x !in s
    ensures
      var r := Insert(x, s);
      Sorted(r) && Distinct(r) && forall y :: y in r <==> y == x || y in s
  {
    if s != [] && s[0].touch < x.touch {
      InsertSorts(x, s[1..]);
      var t := Insert(x, s[1..]);
      forall y | y in t
        ensures s[0].touch <= y.touch && s[0] != y
      {
      }
      ConsSorted(s[0], t);
    } else {
      ConsSorted(x, s);
    }
  }

  lemma ConsSorted(x: Candidate, s: seq<Candidate>)
    requires Sorted(s) && Distinct(s) && forall y :: y in s ==> x.touch <= y.touch && x != y
    ensures Sorted([x] + s) && Distinct([x] + s)
  {
    forall i, j | 0 <= i < j < |[x] + s|
      ensures ([x] + s)[i].touch <= ([x] + s)[j].touch && ([x] + s)[i] != ([x] + s)[j]
    {
      assert ([x] + s)[j] == s[j - 1] && s[j - 1] in s;
    }
  }

  /** The removal order: oldest first, each allowed chunk once, and no other. */
  lemma {:induction false} OrderIs(scan: seq<Chunk>, f: Filter)
    requires Distinct(scan)
    ensures
      var order := SortByTouch(Candidates(scan, f));
      && Sorted(order) && Distinct(order)
      && forall x :: x in order <==> x.chunk in scan && f.Allows(x.chunk) && x.touch == f.TouchOf(x.chunk)
  {
    if scan != [] {
      OrderIs(scan[1..], f);
      var c := scan[0];
      assert c !in scan[1..];
      assert forall d :: d in scan <==> d == c || d in scan[1..];
      if f.Allows(c) {
        var x := Candidate(c, f.TouchOf(c));
        assert ([x] + Candidates(scan[1..], f))[1..] == Candidates(scan[1..], f);
        InsertSorts(x, SortByTouch(Candidates(scan[1..], f)));
      }
    }
  }

  function WithTouchOf(s: seq<Candidate>, t: U64): seq<Candidate> {
    if s == [] then []
    else if s[0].touch == t then [s[0]] + WithTouchOf(s[1..], t)
    else WithTouchOf(s[1..], t)
  }

  lemma {:induction false} InsertIsStable(x: Candidate, s: seq<Candidate>, t: U64)
    ensures WithTouchOf(Insert(x, s), t) == if x.touch == t then [x] + WithTouchOf(s, t) else WithTouchOf(s, t)
  {
    if s == [] || x.touch <= s[0].touch {
      assert ([x] + s)[1..] == s;
    } else {
      InsertIsStable(x, s[1..], t);
      assert ([s[0]] + Insert(x, s[1..]))[1..] == Insert(x, s[1..]);
    }
  }

  /** Equally old candidates keep the order of the scan. */
  lemma {:induction false} SortIsStable(s: seq<Candidate>, t: U64)
    ensures WithTouchOf(SortByTouch(s), t) == WithTouchOf(s, t)
  {
    if s != [] {
      SortIsStable(s[1..], t);
      InsertIsStable(s[0], SortByTouch(s[1..]), t);
    }
  }

  // ----- when the loop stops -----

  function Sum(g: seq<nat>): nat {
    if g == [] then 0 else Sum(g[..|g| - 1]) + g[|g| - 1]
  }

  lemma SumStep(g: seq<nat>, i: nat)
    requires i <= |g|
    ensures Sum(g[..0]) == 0
    ensures i < |g| ==> Sum(g[..i + 1]) == Sum(g[..i]) + g[i]
  {
    assert g[..0] == [];
    if i < |g| { assert g[..i + 1][..i] == g[..i]; }
  }

  lemma {:induction false} SumGrows(g: seq<nat>, i: nat, j: nat)
    requires i <= j <= |g|
    ensures Sum(g[..i]) <= Sum(g[..j])
    decreases j - i
  {
    if i < j {
      SumGrows(g, i, j - 1);
      assert g[..j][..j - 1] == g[..j - 1];
    }
  }

  /** The loop's test, in wrapping 64-bit arithmetic. */
  predicate Stops(cur: nat, cap: nat, freed: nat) {
    (cur - freed) % U64_LIMIT <= cap
  }

  lemma StopsIff(cur: nat, cap: nat, freed: nat)
    requires cap < cur < U64_LIMIT && freed < U64_LIMIT
    ensures Stops(cur, cap, freed) <==> cur - cap <= freed <= cur
  {
    if freed > cur {
      assert (cur - freed) % U64_LIMIT == cur - freed + U64_LIMIT;
    }
  }

  /** How many candidates the loop tries, from the i-th on, when each try frees `g[i]` bytes. */
  function Tried(g: seq<nat>, cur: nat, cap: nat, i: nat): (n: nat)
    requires i <= |g|
    ensures i <= n <= |g|
    decreases |g| - i
  {
    if i == |g| || Stops(cur, cap, Sum(g[..i])) then i else Tried(g, cur, cap, i + 1)
  }

  /** The fewest candidates, from the i-th on, that free at least `need` bytes; all of them if none suffice. */
  function Enough(g: seq<nat>, need: nat, i: nat): (n: nat)
    requires i <= |g|
    ensures i <= n <= |g|
    ensures n < |g| ==> Sum(g[..n]) >= need
    ensures forall j :: i <= j < n ==> Sum(g[..j]) < need
    decreases |g| - i
  {
    if i == |g| || Sum(g[..i]) >= need then i else Enough(g, need, i + 1)
  }

  lemma {:induction false} TriesUntilEnough(g: seq<nat>, cur: nat, cap: nat, i: nat, k: nat)
    requires cap < cur < U64_LIMIT && Sum(g) < U64_LIMIT && i <= k <= |g|
    requires forall j :: i <= j < k ==> Sum(g[..j]) < cur - cap
    ensures Tried(g, cur, cap, i) == Tried(g, cur, cap, k)
    decreases k - i
  {
    if i < k {
      assert Sum(g[..i]) < cur - cap;
      StopsIff(cur, cap, Sum(g[..i]));
      hide Stops;
      TriesUntilEnough(g, cur, cap, i + 1, k);
    }
  }

  lemma {:induction false} NeverStops(g: seq<nat>, cur: nat, cap: nat, i: nat)
    requires cap < cur < U64_LIMIT && Sum(g) < U64_LIMIT && i <= |g| && Sum(g[..i]) > cur
    ensures Tried(g, cur, cap, i) == |g|
    decreases |g| - i
  {
    if i < |g| {
      SumGrows(g, i, |g|);
      assert g[..|g|] == g;
      StopsIff(cur, cap, Sum(g[..i]));
      hide Stops;
      SumGrows(g, i, i + 1);
      NeverStops(g, cur, cap, i + 1);
    }
  }

  /**
    The pass removes the shortest sufficient run of candidates, unless that run frees more
    than the recorded usage and is not the last: then the subtraction wraps and the pass
    goes on to remove every candidate there is.
   */
  lemma TriedIff(g: seq<nat>, cur: nat, cap: nat)
    requires cap < cur < U64_LIMIT && Sum(g) < U64_LIMIT
    ensures
      var k := Enough(g, cur - cap, 0);
      Tried(g, cur, cap, 0) == if k < |g| && Sum(g[..k]) > cur then |g| else k
  {
    var k := Enough(g, cur - cap, 0);
    TriesUntilEnough(g, cur, cap, 0, k);
    if k < |g| {
      if Sum(g[..k]) > cur {
        NeverStops(g, cur, cap, k);
      } else {
        SumGrows(g, k, |g|);
        assert g[..|g|] == g;
        StopsIff(cur, cap, Sum(g[..k]));
      }
    }
  }

  /** Usage recorded low: one 20-byte file already frees enough, and the pass removes the next one too. */
  lemma OvershootExample()
    ensures Enough([20, 1], 5, 0) == 1 && Tried([20, 1], 10, 5, 0) == 2
  {
    var g: seq<nat> := [20, 1];
    assert g[..0] == [] && g[..1] == [20] && g[..1][..0] == [];
    assert Sum(g[..0]) == 0 && Sum(g[..1]) == 20;
    assert g[..2] == g && Sum(g) == 21;
    TriedIff(g, 10, 5);
  }

  // ----- the pass -----

  function Gains(order: seq<Candidate>, stuck: set<Chunk>): (g: seq<nat>)
    ensures |g| == |order|
    ensures forall i :: 0 <= i < |order| ==> g[i] == if order[i].chunk in stuck then 0 else Size(order[i].chunk)
  {
    seq(|order|, i requires 0 <= i < |order| => if order[i].chunk in stuck then 0 else Size(order[i].chunk))
  }

  function Removed(order: seq<Candidate>, stuck: set<Chunk>, n: nat): set<Chunk>
    requires n <= |order|
  {
    set i | 0 <= i < n && order[i].chunk !in stuck :: order[i].chunk
  }

  predicate DistinctChunks(order: seq<Candidate>) {
    forall i, j :: 0 <= i < j < |order| ==> order[i].chunk != order[j].chunk
  }

  lemma OrderChunksDistinct(scan: seq<Chunk>, f: Filter)
    requires Distinct(scan)
    ensures DistinctChunks(SortByTouch(Candidates(scan, f)))
  {
    OrderIs(scan, f);
    var order := SortByTouch(Candidates(scan, f));
    forall i, j | 0 <= i < j < |order|
      ensures order[i].chunk != order[j].chunk
    {
      assert order[i] in order && order[j] in order && order[i] != order[j];
    }
  }

  /** What the pass could free is at most what the pool holds. */
  lemma {:induction false} GainsBounded(order: seq<Candidate>, stuck: set<Chunk>, pool: set<Chunk>)
    requires DistinctChunks(order) && forall x :: x in order ==> x.chunk in pool
    ensures Sum(Gains(order, stuck)) <= TotalSize(pool)
    decreases |order|
  {
    if order != [] {
      var n := |order| - 1;
      var front, c := order[..n], order[n].chunk;
      forall x | x in front
        ensures x.chunk in pool - {c}
      {
        var i :| 0 <= i < |front| && front[i] == x;
        assert order[i].chunk != order[n].chunk && order[i] in order;
      }
      GainsBounded(front, stuck, pool - {c});
      assert order[n] in order;
      TotalSizeRemove(pool, c);
      assert Gains(order, stuck)[..n] == Gains(front, stuck);
    }
  }

  class DiskCacheManager {
    const store: Store
    var cacheBytes: U64
    var currentBytes: U64

    constructor (s: Store, cap: U64)
      ensures store == s && cacheBytes == cap && currentBytes == 0
    {
      store := s;
      cacheBytes := cap;
      currentBytes := 0;
    }

    /** Try one candidate: its bytes count as freed only if the unlink succeeds. */
    method TryRemove(c: Chunk, stuck: set<Chunk>) returns (gain: nat)
      modifies store`pool, store`budget
      ensures gain == if c in stuck then 0 else Size(c)
      ensures store.pool == if c in stuck then old(store.pool) else old(store.pool) - {c}
      ensures old(store.Valid()) && c in old(store.pool) ==> store.Valid() && TotalSize(store.pool) + gain == old(TotalSize(store.pool))
    {
      if c in store.pool { TotalSizeRemove(store.pool, c); }
      var ok := store.Remove(c, c in stuck);
      gain := if ok then Size(c) else 0;
    }

    /** The loop over the ordered candidates.  The freed bytes are counted in wrapping 64-bit arithmetic. */
    method RemoveInOrder(order: seq<Candidate>, stuck: set<Chunk>) returns (freed: U64)
      modifies store`pool, store`budget
      ensures
        var n := Tried(Gains(order, stuck), currentBytes, cacheBytes, 0);
        && store.pool == old(store.pool) - Removed(order, stuck, n)
        && freed == Wrap64(Sum(Gains(order, stuck)[..n]))
        && (old(store.Valid() && AllPresent(order, store.pool)) ==>
              store.Valid() && TotalSize(store.pool) + Sum(Gains(order, stuck)[..n]) == old(TotalSize(store.pool)))
    {
      hide TotalSize, Store.Valid, Size, Stops, Gains, Sum, Wrap64, Removed;
      ghost var g := Gains(order, stuck);
      ghost var present := store.Valid() && AllPresent(order, store.pool);
      SumStep(g, 0);
      WrapAdd(0, 0);
      RemovedStep(order, stuck, 0);
      freed := 0;
      var i := 0;
      while i < |order| && !Stops(currentBytes, cacheBytes, freed)
        invariant i <= |order|
        invariant store.pool == old(store.pool) - Removed(order, stuck, i) && freed == Wrap64(Sum(g[..i]))
        invariant present ==> store.Valid() && TotalSize(store.pool) + Sum(g[..i]) == old(TotalSize(store.pool))
        invariant Tried(g, currentBytes, cacheBytes, 0) == Tried(g, currentBytes, cacheBytes, i)
      {
        var c := order[i].chunk;
        if present { StillPresent(order, stuck, i, old(store.pool)); }
        var gain := TryRemove(c, stuck);
        RemovedStep(order, stuck, i);
        SumStep(g, i);
        WrapAdd(Sum(g[..i]), gain);
        WrapStops(currentBytes, cacheBytes, Sum(g[..i]));
        freed := Wrap64(freed + gain);
        i := i + 1;
      }
      WrapStops(currentBytes, cacheBytes, Sum(g[..i]));
    }

    /**
      One pass.  Under the cap it does nothing.  Over it, it removes candidates oldest first
      until the loop's test holds, and records the freed bytes.  Recorded usage that was exact
      stays exact.
     */
    method EvictLruChunks(scan: seq<Chunk>, f: Filter, stuck: set<Chunk>) returns (freed: U64)
      modifies this`currentBytes, store`pool, store`budget
      ensures old(currentBytes) <= cacheBytes ==>
        && freed == 0 && store.pool == old(store.pool) && currentBytes == old(currentBytes)
        && (old(store.Valid()) ==> store.Valid())
      ensures old(currentBytes) > cacheBytes ==>
        var order := SortByTouch(Candidates(scan, f));
        var n := Tried(Gains(order, stuck), old(currentBytes), cacheBytes, 0);
        && store.pool == old(store.pool) - Removed(order, stuck, n)
        && freed == Wrap64(Sum(Gains(order, stuck)[..n]))
        && currentBytes == Max(0, old(currentBytes) - freed)
        && (old(store.Valid()) && Distinct(scan) && (forall c :: c in scan ==> c in old(store.pool)) ==>
              && store.Valid() && TotalSize(store.pool) + Sum(Gains(order, stuck)[..n]) == old(TotalSize(store.pool))
              && (old(currentBytes == TotalSize(store.pool)) ==> currentBytes == TotalSize(store.pool)))
    {
      hide SortByTouch, Candidates, TotalSize, Store.Valid, Tried, Removed, Sum, Gains;
      if currentBytes <= cacheBytes { return 0; }
      var order := SortByTouch(Candidates(scan, f));
      if Distinct(scan) {
        OrderIs(scan, f);
        OrderChunksDistinct(scan, f);
      }
      freed := RemoveInOrder(order, stuck);
      currentBytes := Max(0, currentBytes - freed);
    }
  }

  /** Every candidate's file is there, once. */
  ghost predicate AllPresent(order: seq<Candidate>, pool: set<Chunk>) {
    DistinctChunks(order) && forall x :: x in order ==> x.chunk in pool
  }

  lemma StillPresent(order: seq<Candidate>, stuck: set<Chunk>, i: nat, pool: set<Chunk>)
    requires i < |order| && AllPresent(order, pool)
    ensures order[i].chunk in pool - Removed(order, stuck, i)
  {
    assert order[i] in order;
  }

  /** The loop's test does not notice that the freed bytes wrapped. */
  lemma WrapStops(cur: nat, cap: nat, freed: nat)
    ensures Stops(cur, cap, Wrap64(freed)) <==> Stops(cur, cap, freed)
  {
    var q := freed / U64_LIMIT;
    WrapShift(cur - freed, q);
    assert q * U64_LIMIT + (cur - freed) == cur - freed % U64_LIMIT;
  }

  lemma RemovedStep(order: seq<Candidate>, stuck: set<Chunk>, i: nat)
    requires i <= |order|
    ensures Removed(order, stuck, 0) == {}
    ensures i < |order| && order[i].chunk in stuck ==> Removed(order, stuck, i + 1) == Removed(order, stuck, i)
    ensures i < |order| && order[i].chunk !in stuck ==> Removed(order, stuck, i + 1) == Removed(order, stuck, i) + {order[i].chunk}
  {
  }

  /**
    With usage recorded exactly, the pass never overshoots: it frees the least sufficient run,
    and ends under the cap or with nothing left to try.
   */
  lemma ExactPass(scan: seq<Chunk>, f: Filter, stuck: set<Chunk>, pool: set<Chunk>, cap: nat)
    requires Distinct(scan) && (forall c :: c in scan ==> c in pool) && cap < TotalSize(pool) < U64_LIMIT
    ensures
      var order := SortByTouch(Candidates(scan, f));
      var g := Gains(order, stuck);
      var n := Tried(g, TotalSize(pool), cap, 0);
      && (TotalSize(pool) - Sum(g[..n]) <= cap || n == |order|)
      && (n > 0 ==> TotalSize(pool) - Sum(g[..n - 1]) > cap)
  {
    hide Tried, SortByTouch, Candidates, TotalSize, Sum, Gains, Distinct, Sorted, Filter.Allows, Filter.TouchOf;
    var order := SortByTouch(Candidates(scan, f));
    var g := Gains(order, stuck);
    var cur := TotalSize(pool);
    OrderIs(scan, f);
    OrderChunksDistinct(scan, f);
    GainsBounded(order, stuck, pool);
    TriedIff(g, cur, cap);
    SumGrows(g, Enough(g, cur - cap, 0), |g|);
    assert g[..|g|] == g;
  }

  /** The pass takes no younger chunk before an older: whatever it leaves untried was touched no earlier. */
  lemma OldestFirst(scan: seq<Chunk>, f: Filter, stuck: set<Chunk>, n: nat, c: Chunk, d: Chunk)
    requires Distinct(scan) && n <= |SortByTouch(Candidates(scan, f))|
    requires c in Removed(SortByTouch(Candidates(scan, f)), stuck, n) && d in scan && f.Allows(d)
    requires forall i :: 0 <= i < n ==> SortByTouch(Candidates(scan, f))[i].chunk != d
    ensures f.TouchOf(c) <= f.TouchOf(d)
    ensures f.Allows(c)
  {
    var order := SortByTouch(Candidates(scan, f));
    OrderIs(scan, f);
    hide SortByTouch, Candidates, Filter.Allows, Filter.TouchOf;
    var i :| 0 <= i < n && order[i].chunk == c;
    assert order[i] in order;
    assert Candidate(d, f.TouchOf(d)) in order;
    var j :| 0 <= j < |order| && order[j] == Candidate(d, f.TouchOf(d));
    assert order[j].chunk == d;
  }

  /** Whatever the pass removes was scanned and allowed, so clear for the walk. */
  lemma RemovedIsAllowed(scan: seq<Chunk>, f: Filter, stuck: set<Chunk>, n: nat, c: Chunk)
    requires n <= |SortByTouch(Candidates(scan, f))| && c in Removed(SortByTouch(Candidates(scan, f)), stuck, n)
    ensures c in scan && f.Allows(c) && Clear(f.uploaded, c)
  {
    var order := SortByTouch(Candidates(scan, f));
    var i :| 0 <= i < n && order[i].chunk == c;
    SortKeeps(Candidates(scan, f), order[i]);
    CandidatesAre(scan, f, order[i]);
  }

  lemma {:induction false} InsertKeeps(x: Candidate, s: seq<Candidate>, y: Candidate)
    ensures y in Insert(x, s) ==> y == x || y in s
  {
    if s != [] && s[0].touch < x.touch { InsertKeeps(x, s[1..], y); }
  }

  lemma {:induction false} SortKeeps(s: seq<Candidate>, y: Candidate)
    ensures y in SortByTouch(s) ==> y in s
  {
    if s != [] {
      SortKeeps(s[1..], y);
      InsertKeeps(s[0], SortByTouch(s[1..]), y);
    }
  }

  lemma {:induction false} CandidatesAre(scan: seq<Chunk>, f: Filter, y: Candidate)
    ensures y in Candidates(scan, f) ==> y.chunk in scan && f.Allows(y.chunk)
  {
    if scan != [] { CandidatesAre(scan[1..], f, y); }
  }

  /**
    A pass is an eviction step of the upload protocol, and keeps its invariant: if it scanned
    this backend, used what the walk collected, and the walk missed no LocalOnly page.
   */
  lemma PassIsEvictStep(scan: seq<Chunk>, f: Filter, stuck: set<Chunk>, n: nat,
                        walks: seq<VolumeWalk>, ids: seq<Protocol.VolId>, s: Protocol.Sys, backend: string)
    requires n <= |SortByTouch(Candidates(scan, f))| && forall c :: c in scan ==> c.backend == backend
    requires Protocol.Inv(s) && Describes(walks, ids, s, backend) && NothingMissed(walks, ids, s, backend)
    requires Summarises(AllRefs(walks), f.touches, f.uploaded)
    ensures
      var step := Protocol.Evict(Removed(SortByTouch(Candidates(scan, f)), stuck, n), Unreadable(walks, ids));
      Protocol.Enabled(s, step) && Protocol.Inv(Protocol.Do(s, step))
  {
    hide SortByTouch, Candidates, Describes, Summarises, NothingMissed, Protocol.Inv, Clear;
    var removed := Removed(SortByTouch(Candidates(scan, f)), stuck, n);
    hide Removed;
    forall c | c in removed
      ensures c.backend == backend && Clear(f.uploaded, c)
    {
      RemovedIsAllowed(scan, f, stuck, n, c);
    }
    PassKeepsInv(walks, ids, s, backend, f.touches, f.uploaded, removed);
  }

  // ----- seeding the budget from disk -----

  ghost function InNamespaces(pool: set<Chunk>, nss: set<Namespace>): set<Chunk> {
    set c | c in pool && c.ns in nss
  }

  lemma {:induction false} TotalSizeUnion(a: set<Chunk>, b: set<Chunk>)
    requires a !! b
    ensures TotalSize(a + b) == TotalSize(a) + TotalSize(b)
    decreases |b|
  {
    if b == {} {
      assert a + b == a;
    } else {
      var c :| c in b;
      TotalSizeUnion(a, b - {c});
      TotalSizeRemove(b, c);
      TotalSizeAdd(a + (b - {c}), c);
      assert a + (b - {c}) + {c} == a + b;
    }
  }

  /** Buckets for the namespaces visited so far; a bucket of zero bytes is not stored. */
  ghost predicate Buckets(b: Budget, pool: set<Chunk>, visited: set<Namespace>) {
    && b.total == TotalSize(InNamespaces(pool, visited))
    && forall ns :: b.Used(ns) == if ns in visited then TotalSize(InNamespace(pool, ns)) else 0
  }

  lemma BucketStep(b: Budget, pool: set<Chunk>, visited: set<Namespace>, ns: Namespace)
    requires Buckets(b, pool, visited) && ns !in visited
    ensures
      var n := TotalSize(InNamespace(pool, ns));
      Buckets(if n > 0 then b.Reserve(n, ns) else b, pool, visited + {ns})
  {
    TotalSizeUnion(InNamespaces(pool, visited), InNamespace(pool, ns));
    assert InNamespaces(pool, visited + {ns}) == InNamespaces(pool, visited) + InNamespace(pool, ns);
    assert b.Used(ns) == 0;
  }

  /** The bytes in one namespace directory; an absent one holds none. */
  function BytesOf(bytesIn: map<Namespace, nat>, ns: Namespace): nat {
    if ns in bytesIn then bytesIn[ns] else 0
  }

  /** The namespaces of the Local volumes, and the shared pool. */
  ghost predicate VisitedExactly(visited: set<Namespace>, volumes: seq<Option<Routing>>) {
    forall ns :: ns in visited <==> Reached(volumes, ns)
  }

  ghost function ReachedChunks(pool: set<Chunk>, volumes: seq<Option<Routing>>): set<Chunk> {
    set c | c in pool && Reached(volumes, c.ns)
  }

  /** The budget holds the bytes of every reached namespace, and nothing else. */
  ghost predicate Recounted(b: Budget, pool: set<Chunk>, volumes: seq<Option<Routing>>) {
    && b.total == TotalSize(ReachedChunks(pool, volumes))
    && forall ns :: b.Used(ns) == if Reached(volumes, ns) then TotalSize(InNamespace(pool, ns)) else 0
  }

  lemma BucketsRecount(b: Budget, pool: set<Chunk>, visited: set<Namespace>, volumes: seq<Option<Routing>>)
    requires Buckets(b, pool, visited) && VisitedExactly(visited, volumes)
    ensures Recounted(b, pool, volumes)
  {
    assert ReachedChunks(pool, volumes) == InNamespaces(pool, visited);
  }

  /** Recount the pool from disk: one bucket per reached namespace, each counted once. */
  method RefreshPoolBudget(ghost pool: set<Chunk>, bytesIn: map<Namespace, nat>, volumes: seq<Option<Routing>>)
    returns (b: Budget)
    requires forall ns: Namespace :: BytesOf(bytesIn, ns) == TotalSize(InNamespace(pool, ns))
    ensures Recounted(b, pool, volumes)
  {
    b := Budget(0, map[]);
    ghost var visited: set<Namespace> := {};
    assert InNamespaces(pool, visited) == {};
    BucketStep(b, pool, visited, None);
    hide Buckets, TotalSize, Recounted;
    if BytesOf(bytesIn, None) > 0 { b := b.Reserve(BytesOf(bytesIn, None), None); }
    visited := visited + {None};
    var seen: set<Uuid> := {};
    for i := 0 to |volumes|
      invariant Buckets(b, pool, visited) && VisitedExactly(visited, volumes[..i])
      invariant forall u: Uuid :: u in seen <==> Some(u) in visited
    {
      ReachedStep(volumes, i);
      var v := volumes[i];
      if v.Some? && v.value.local && v.value.ns !in seen {
        var ns := Some(v.value.ns);
        BucketStep(b, pool, visited, ns);
        seen := seen + {v.value.ns};
        if BytesOf(bytesIn, ns) > 0 { b := b.Reserve(BytesOf(bytesIn, ns), ns); }
        visited := visited + {ns};
      }
    }
    assert volumes[..|volumes|] == volumes;
    BucketsRecount(b, pool, visited, volumes);
  }

  /** The recount is the whole truth if and only if no unreached namespace holds bytes. */
  lemma RefreshIsExactIff(b: Budget, pool: set<Chunk>, volumes: seq<Option<Routing>>)
    requires Recounted(b, pool, volumes)
    ensures Conserved(b, pool) <==> forall ns :: !Reached(volumes, ns) ==> TotalSize(InNamespace(pool, ns)) == 0
  {
    if forall ns :: !Reached(volumes, ns) ==> TotalSize(InNamespace(pool, ns)) == 0 {
      var rest := pool - ReachedChunks(pool, volumes);
      forall c | c in rest
        ensures Size(c) == 0
      {
        TotalSizeRemove(InNamespace(pool, c.ns), c);
      }
      AllEmpty(rest);
      TotalSizeUnion(ReachedChunks(pool, volumes), rest);
      assert ReachedChunks(pool, volumes) + rest == pool;
    }
  }

  lemma {:induction false} AllEmpty(cs: set<Chunk>)
    requires forall c :: c in cs ==> Size(c) == 0
    ensures TotalSize(cs) == 0
    decreases |cs|
  {
    if cs != {} {
      var c :| c in cs;
      TotalSizeRemove(cs, c);
      AllEmpty(cs - {c});
    }
  }
}
