/**
  One backend's local chunk pool, object storage and pool budget.

  The budget counts reserved bytes per namespace and in total.  At every operation boundary
  the reservations equal the bytes of the chunks actually in the pool.
*/
module ChunkStore {
  import opened Bytes
  import opened Volume

  type Namespace = Option<Uuid>

  // ----- bytes of a set of chunks -----

  function Size(c: Chunk): nat { PayloadSize(c.payload) }

  ghost function TotalSize(cs: set<Chunk>): nat {
    if cs == {} then 0 else var c :| c in cs; Size(c) + TotalSize(cs - {c})
  }

  lemma {:induction false} TotalSizeRemove(cs: set<Chunk>, c: Chunk)
    requires c in cs
    ensures TotalSize(cs) == Size(c) + TotalSize(cs - {c})
    decreases |cs|
  {
    var d :| d in cs && TotalSize(cs) == Size(d) + TotalSize(cs - {d});
    if d != c {
      TotalSizeRemove(cs - {d}, c);
      TotalSizeRemove(cs - {c}, d);
      assert cs - {d} - {c} == cs - {c} - {d};
    }
  }

  lemma TotalSizeAdd(cs: set<Chunk>, c: Chunk)
    requires c !in cs
    ensures TotalSize(cs + {c}) == TotalSize(cs) + Size(c)
  {
    TotalSizeRemove(cs + {c}, c);
    assert cs + {c} - {c} == cs;
  }

  ghost function InNamespace(pool: set<Chunk>, ns: Namespace): set<Chunk> {
    set c | c in pool && c.ns == ns
  }

  // ----- reservations -----

  datatype Budget = Budget(total: nat, perNamespace: map<Namespace, nat>)
  {
    function Used(ns: Namespace): nat { if ns in perNamespace then perNamespace[ns] else 0 }

    function Reserve(n: nat, ns: Namespace): Budget {
      Budget(total + n, perNamespace[ns := Used(ns) + n])
    }

    /** Saturating, and an emptied namespace is forgotten. */
    function Release(n: nat, ns: Namespace): Budget {
      Budget(if total < n then 0 else total - n,
             if ns !in perNamespace then perNamespace
             else if perNamespace[ns] <= n then perNamespace - {ns}
             else perNamespace[ns := perNamespace[ns] - n])
    }
  }

  /** Every reserved byte is the byte of a resident chunk, and conversely. */
  ghost predicate Conserved(b: Budget, pool: set<Chunk>) {
    b.total == TotalSize(pool) && forall ns :: b.Used(ns) == TotalSize(InNamespace(pool, ns))
  }

  lemma ReserveThenRelease(b: Budget, pool: set<Chunk>, n: nat, ns: Namespace)
    requires Conserved(b, pool)
    ensures Conserved(b.Reserve(n, ns).Release(n, ns), pool)
  {
    forall k
      ensures b.Reserve(n, ns).Release(n, ns).Used(k) == b.Used(k)
    {
    }
  }

  lemma ReserveForNew(b: Budget, pool: set<Chunk>, c: Chunk)
    requires Conserved(b, pool) && c !in pool
    ensures Conserved(b.Reserve(Size(c), c.ns), pool + {c})
  {
    TotalSizeAdd(pool, c);
    forall ns
      ensures b.Reserve(Size(c), c.ns).Used(ns) == TotalSize(InNamespace(pool + {c}, ns))
    {
      if ns == c.ns {
        assert InNamespace(pool + {c}, ns) == InNamespace(pool, ns) + {c};
        TotalSizeAdd(InNamespace(pool, ns), c);
      } else {
        assert InNamespace(pool + {c}, ns) == InNamespace(pool, ns);
      }
    }
  }

  lemma ReleaseForRemoved(b: Budget, pool: set<Chunk>, c: Chunk)
    requires Conserved(b, pool) && c in pool
    ensures Conserved(b.Release(Size(c), c.ns), pool - {c})
  {
    TotalSizeRemove(pool, c);
    forall ns
      ensures b.Release(Size(c), c.ns).Used(ns) == TotalSize(InNamespace(pool - {c}, ns))
    {
      if ns == c.ns {
        assert InNamespace(pool - {c}, ns) == InNamespace(pool, ns) - {c};
        TotalSizeRemove(InNamespace(pool, ns), c);
      } else {
        assert InNamespace(pool - {c}, ns) == InNamespace(pool, ns);
      }
      assert b.Used(ns) == TotalSize(InNamespace(pool, ns));
    }
  }

  datatype StoreError = Backpressured | PoolIo | NotInStorage | BackendDown

  class Store {
    const backend: string
    var pool: set<Chunk>
    var storage: set<Chunk>
    var budget: Budget

    ghost predicate Valid()
      reads this
    {
      Conserved(budget, pool)
    }

    constructor (name: string)
      ensures Valid() && pool == {} && storage == {} && backend == name
    {
      backend := name;
      pool := {};
      storage := {};
      budget := Budget(0, map[]);
    }

    /** Reserve, insert, and give the reservation back unless a new file was written. */
    method Seal(c: Chunk) returns (r: Result<bool, StoreError>)
      requires Valid()
      modifies this`pool, this`budget
      ensures Valid()
      ensures r.Ok? ==> pool == old(pool) + {c} && (r.value <==> c !in old(pool))
      ensures r.Err? ==> pool == old(pool)
    {
      var timedOut: bool := *;
      if timedOut { return Err(Backpressured); }
      ghost var b0 := budget;
      budget := budget.Reserve(Size(c), c.ns);
      var ioFailed: bool := *;
      if ioFailed {
        ReserveThenRelease(b0, pool, Size(c), c.ns);
        budget := budget.Release(Size(c), c.ns);
        return Err(PoolIo);
      }
      var wasNew := c !in pool;
      if wasNew {
        ReserveForNew(b0, pool, c);
        pool := pool + {c};
      } else {
        ReserveThenRelease(b0, pool, Size(c), c.ns);
        assert pool == pool + {c};
        budget := budget.Release(Size(c), c.ns);
      }
      return Ok(wasNew);
    }

    /** Serve from the pool, else download, verify and warm the pool; reserve only for a new file. */
    method Fetch(c: Chunk) returns (r: Result<nat, StoreError>)
      requires Valid()
      modifies this`pool, this`budget
      ensures Valid()
      ensures r.Ok? ==> pool == old(pool) + {c} && (c in old(pool) || c in storage)
      ensures r.Err? ==> pool == old(pool)
      ensures r == Err(NotInStorage) ==> c !in pool && c !in storage
      ensures r.Ok? ==> r.value == if c in old(pool) then 0 else Size(c)
    {
      if c in pool {
        assert pool == pool + {c};
        return Ok(0);
      }
      var down: bool := *;
      if down { return Err(BackendDown); }
      if c !in storage { return Err(NotInStorage); }
      var ioFailed: bool := *;
      if ioFailed { return Err(PoolIo); }
      // a concurrent refetch of the same page may have warmed the pool meanwhile
      var raced: bool := *;
      if raced {
        ReserveForNew(budget, pool, c);
        pool := pool + {c};
        budget := budget.Reserve(Size(c), c.ns);
      }
      var wasNew := c !in pool;
      pool := pool + {c};
      if wasNew {
        ReserveForNew(budget, old(pool), c);
        budget := budget.Reserve(Size(c), c.ns);
      }
      return Ok(Size(c));
    }

    /** The upload of one chunk: a storage probe for shared chunks, else read the pool file and PUT. */
    method Put(c: Chunk) returns (ok: bool)
      modifies this`storage
      ensures ok ==> storage == old(storage) + {c} && (c in pool || (c.ns.None? && c in old(storage)))
      ensures !ok ==> storage == old(storage)
    {
      var down: bool := *;
      if down { return false; }
      if c.ns.None? && c in storage {
        assert storage == storage + {c};
        return true;
      }
      if c !in pool { return false; }
      storage := storage + {c};
      return true;
    }

    /**
      Unlink one pool file and release its bytes; a failed unlink changes nothing.  A file that
      is already gone counts as unlinked, and its bytes are released again.
     */
    method Remove(c: Chunk, unlinkFails: bool) returns (ok: bool)
      modifies this`pool, this`budget
      ensures ok == !unlinkFails
      ensures pool == if ok then old(pool) - {c} else old(pool)
      ensures old(Valid()) ==> (Valid() <==> !ok || c in old(pool) || Size(c) == 0 || TotalSize(pool) == 0)
    {
      if unlinkFails { return false; }
      if Valid() {
        if c in pool { ReleaseForRemoved(budget, pool, c); } else { LateReleaseIff(budget, pool, c); }
      }
      assert c !in pool ==> pool - {c} == pool;
      pool := pool - {c};
      budget := budget.Release(Size(c), c.ns);
      return true;
    }
  }

  /**
    Unlinking a file that is already gone counts as success and releases its bytes again.
    That keeps the budget exact only for an empty chunk or an empty pool.
   */
  lemma LateReleaseIff(b: Budget, pool: set<Chunk>, c: Chunk)
    requires Conserved(b, pool) && c !in pool
    ensures Conserved(b.Release(Size(c), c.ns), pool) <==> Size(c) == 0 || TotalSize(pool) == 0
  {
    var b' := b.Release(Size(c), c.ns);
    if Size(c) == 0 || TotalSize(pool) == 0 {
      forall ns
        ensures b'.Used(ns) == TotalSize(InNamespace(pool, ns))
      {
        assert b.Used(ns) == TotalSize(InNamespace(pool, ns));
        PartBelowWhole(InNamespace(pool, ns), pool);
      }
    }
  }

  lemma {:induction false} PartBelowWhole(a: set<Chunk>, b: set<Chunk>)
    requires a <= b
    ensures TotalSize(a) <= TotalSize(b)
    decreases |a|
  {
    if a != {} {
      var c :| c in a;
      TotalSizeRemove(a, c);
      TotalSizeRemove(b, c);
      PartBelowWhole(a - {c}, b - {c});
    }
  }
}
