/**
  Whole runs of host operations against one cache, checked against a flat byte array: every
  answer is the array's answer, at any cache budget, whatever was flushed, fenced, uploaded
  or evicted between, from the cache or from the pool.
*/
module HostRun {
  import opened Bytes
  import opened VolumeWriter
  import opened PageCache
  import opened PoolEviction

  datatype HostOp =
    | Read(offset: nat, len: nat)
    | Write(offset: nat, data: seq<Byte>)
    | CompareAndWrite(offset: nat, expected: seq<Byte>, data: seq<Byte>)
    | Unmap(offset: nat, len: nat)
    | Flush(first: PageId, last: PageId, maxConcurrent: nat)
    | MakeRoom(pages: nat)
    | Sync(at: U64, size: U64, tier: SyncAfter, parallel: nat, schedule: seq<WorkerStep>)
    | Worker(step: WorkerStep)
    | EvictFromPool(pass: Pass)

  datatype Answer = Data(bytes: seq<Byte>) | Compared(equal: bool) | Done

  // ----- the flat array -----

  type Flat = nat -> Byte

  predicate Holds(a: Flat, offset: nat, bytes: seq<Byte>) {
    forall i :: 0 <= i < |bytes| ==> a(offset + i) == bytes[i]
  }

  function Written(a: Flat, data: seq<Byte>, offset: nat): Flat {
    (j: nat) => Overlay(a(j), data, offset, j)
  }

  function After(a: Flat, op: HostOp): Flat {
    match op
    case Write(offset, data) => Written(a, data, offset)
    case CompareAndWrite(offset, expected, data) => if Holds(a, offset, expected) then Written(a, data, offset) else a
    case Unmap(offset, len) => Written(a, Zeros(len), offset)
    case _ => a
  }

  function Reply(a: Flat, op: HostOp): Answer {
    match op
    case Read(offset, len) => Data(seq(len, i requires 0 <= i < len => a(offset + i)))
    case CompareAndWrite(offset, expected, data) => Compared(Holds(a, offset, expected))
    case _ => Done
  }

  function Final(a: Flat, ops: seq<HostOp>): Flat {
    if ops == [] then a else After(Final(a, ops[..|ops| - 1]), ops[|ops| - 1])
  }

  function Replies(a: Flat, ops: seq<HostOp>): seq<Answer> {
    if ops == [] then []
    else Replies(a, ops[..|ops| - 1]) + [Reply(Final(a, ops[..|ops| - 1]), ops[|ops| - 1])]
  }

  predicate WellFormed(op: HostOp) {
    op.CompareAndWrite? ==> |op.expected| == |op.data|
  }

  // ----- the cache agrees with it -----

  ghost predicate Agrees(c: Cache, a: Flat)
    requires c.Valid()
    reads c.inner, c.writer, c.writer.store
  {
    forall j: nat :: c.Addressable(j) ==> c.ByteAt(j) == a(j)
  }

  /** The array a cache starts from. */
  ghost function FlatOf(c: Cache): (a: Flat)
    requires c.Valid()
    reads c.inner, c.writer, c.writer.store
    ensures Agrees(c, a)
  {
    var bytes: imap<nat, Byte> := imap j: nat | c.Addressable(j) :: c.ByteAt(j);
    (j: nat) => if j in bytes then bytes[j] else 0
  }

  /** The upload protocol's invariant holds, no completion is under way, and the devices are reliable. */
  ghost predicate Sound(c: Cache)
    reads c.writer, c.writer.store
  {
    c.writer.Backed() && c.writer.Calm()
  }

  /** The operation leaves no completion under way. */
  predicate Settles(op: HostOp) {
    (op.Worker? ==> op.step.Settles()) && (op.Sync? ==> Settled(op.schedule))
  }

  method PerformRead(c: Cache, offset: nat, len: nat, ghost a: Flat) returns (r: Result<Answer, WriterError>)
    requires c.Valid() && Agrees(c, a)
    modifies c.inner, c.writer, c.writer.store
    ensures c.Valid() && c.Lasting() && (old(Sound(c)) ==> Sound(c)) && (r.Ok? ==> r.value == Reply(a, Read(offset, len)) && Agrees(c, a))
  {
    hide Cache.Valid, Cache.Addressable, Cache.ByteAt;
    var bytes := c.ReadBytes(offset, len);
    if bytes.Err? { return Err(bytes.error); }
    forall i | 0 <= i < len
      ensures bytes.value[i] == a(offset + i)
    {
      assert bytes.value[offset + i - offset] == c.ByteAt(offset + i);
    }
    assert bytes.value == seq(len, i requires 0 <= i < len => a(offset + i));
    return Ok(Data(bytes.value));
  }

  method PerformWrite(c: Cache, offset: nat, data: seq<Byte>, ghost a: Flat) returns (r: Result<Answer, WriterError>)
    requires c.Valid() && Agrees(c, a)
    modifies c.inner, c.writer, c.writer.store
    ensures c.Valid() && c.Lasting() && (old(Sound(c)) ==> Sound(c)) && (r.Ok? ==> r.value == Done && Agrees(c, Written(a, data, offset)))
  {
    hide Cache.Valid, Cache.Addressable, Cache.ByteAt, Overlay;
    var w;
    ghost var done;
    w, done := c.WriteBytes(offset, data);
    if w.Err? { return Err(w.error); }
    assert data[..done] == data;
    return Ok(Done);
  }

  method PerformUnmap(c: Cache, offset: nat, len: nat, ghost a: Flat) returns (r: Result<Answer, WriterError>)
    requires c.Valid() && Agrees(c, a)
    modifies c.inner, c.writer, c.writer.store
    ensures c.Valid() && c.Lasting() && (old(Sound(c)) ==> Sound(c)) && (r.Ok? ==> r.value == Done && Agrees(c, Written(a, Zeros(len), offset)))
  {
    hide Cache.Valid, Cache.Addressable, Cache.ByteAt, Overlay;
    var w;
    ghost var done, reverted;
    w, done, reverted := c.UnmapBytes(offset, len);
    if w.Err? { return Err(w.error); }
    return Ok(Done);
  }

  method PerformCompareAndWrite(c: Cache, offset: nat, expected: seq<Byte>, data: seq<Byte>, ghost a: Flat)
    returns (r: Result<Answer, WriterError>)
    requires c.Valid() && Agrees(c, a) && |expected| == |data|
    modifies c.inner, c.writer, c.writer.store
    ensures c.Valid() && c.Lasting() && (old(Sound(c)) ==> Sound(c))
    ensures r.Ok? ==> r.value == Compared(Holds(a, offset, expected))
    ensures r.Ok? ==> Agrees(c, if Holds(a, offset, expected) then Written(a, data, offset) else a)
  {
    NothingOverlaid(offset);
    hide Cache.Valid, Cache.Addressable, Cache.ByteAt, Overlay;
    var w;
    ghost var done;
    w, done := c.CompareAndWriteBytes(offset, expected, data);
    if w.Err? { return Err(w.error); }
    if w.value {
      assert data[..done] == data;
      forall i | 0 <= i < |expected|
        ensures a(offset + i) == expected[i]
      {
        assert old(c.ByteAt(offset + i)) == expected[offset + i - offset];
      }
    } else {
      assert data[..done] == [];
      ghost var j: nat :| offset <= j < offset + |expected| && c.Addressable(j) && old(c.ByteAt(j)) != expected[j - offset];
      assert a(offset + (j - offset)) != expected[j - offset];
    }
    return Ok(Compared(w.value));
  }

  /** Everything that happens beside the host's own operations. */
  method Maintain(c: Cache, op: HostOp) returns (r: Result<Answer, WriterError>)
    requires c.Valid() && (op.Flush? || op.MakeRoom? || op.Sync? || op.Worker? || op.EvictFromPool?)
    modifies c.inner, c.writer, c.writer.store
    ensures c.Valid() && c.Lasting() && forall p :: c.Content(p) == old(c.Content(p))
    ensures old(Sound(c)) ==> c.writer.Backed() && (Settles(op) ==> Sound(c))
    ensures r.Ok? ==> r.value == Done
  {
    r := Ok(Done);
    match op {
      case Flush(first, last, maxConcurrent) =>
        var w := c.FlushPagesInRange(first, last, maxConcurrent);
        if w.Err? { r := Err(w.error); }
      case MakeRoom(pages) =>
        var w := c.EvictToFit(pages);
        if w.Err? { r := Err(w.error); }
      case Sync(at, size, tier, parallel, schedule) =>
        c.HasPages();
        var w := c.SynchronizeBytes(at, size, tier, parallel, schedule);
        if w.FlushFailed? { r := Err(w.e); } else if !w.Synced? { r := Err(UploadFailed); }
      case Worker(step) => c.LetWork(step);
      case EvictFromPool(pass) =>
        c.HasStore();
        EvictPool([c], c.writer.store, pass);
        assert [c][0] == c;
    }
  }

  method PerformMaintenance(c: Cache, op: HostOp, ghost a: Flat) returns (r: Result<Answer, WriterError>)
    requires c.Valid() && Agrees(c, a) && (op.Flush? || op.MakeRoom? || op.Sync? || op.Worker? || op.EvictFromPool?)
    modifies c.inner, c.writer, c.writer.store
    ensures c.Valid() && c.Lasting() && Agrees(c, a) && (r.Ok? ==> r.value == Done)
    ensures old(Sound(c)) ==> c.writer.Backed() && (Settles(op) ==> Sound(c))
  {
    r := Maintain(c, op);
  }

  /** One operation: the array's answer, and agreement with the array's next state. */
  method Perform(c: Cache, op: HostOp, ghost a: Flat) returns (r: Result<Answer, WriterError>)
    requires c.Valid() && Agrees(c, a) && WellFormed(op)
    modifies c.inner, c.writer, c.writer.store
    ensures c.Valid() && c.Lasting() && (r.Ok? ==> r.value == Reply(a, op) && Agrees(c, After(a, op)))
    ensures old(Sound(c)) ==> c.writer.Backed() && (Settles(op) ==> Sound(c))
  {
    hide Cache.Valid, Agrees, Holds, Written;
    match op {
      case Read(offset, len) => r := PerformRead(c, offset, len, a);
      case Write(offset, data) => r := PerformWrite(c, offset, data, a);
      case CompareAndWrite(offset, expected, data) => r := PerformCompareAndWrite(c, offset, expected, data, a);
      case Unmap(offset, len) => r := PerformUnmap(c, offset, len, a);
      case _ => r := PerformMaintenance(c, op, a);
    }
  }

  /**
    Any run of successful operations refines the array: its answers are the array's answers,
    and the cache ends within budget, agreeing with the array's final state.  With reliable
    devices and whole completions the upload protocol's invariant holds at the end as well,
    whether or not an operation failed.
   */
  method Run(c: Cache, ops: seq<HostOp>, ghost a: Flat) returns (r: Result<seq<Answer>, WriterError>)
    requires c.Valid() && Agrees(c, a) && forall op :: op in ops ==> WellFormed(op)
    modifies c.inner, c.writer, c.writer.store
    ensures c.Valid() && c.Lasting() && |c.inner.pages| <= c.budgetPages
    ensures r.Ok? ==> r.value == Replies(a, ops) && Agrees(c, Final(a, ops))
    ensures old(Sound(c)) && (forall op :: op in ops ==> Settles(op)) ==> Sound(c)
  {
    var answers := [];
    for i := 0 to |ops|
      invariant c.Valid() && c.Lasting()
      invariant old(Sound(c)) && (forall op :: op in ops ==> Settles(op)) ==> Sound(c)
      invariant answers == Replies(a, ops[..i]) && Agrees(c, Final(a, ops[..i]))
    {
      hide Cache.Valid, Agrees, Reply, After, WellFormed;
      assert ops[i] in ops;
      assert ops[..i + 1][..i] == ops[..i];
      var one := Perform(c, ops[i], Final(a, ops[..i]));
      if one.Err? { return Err(one.error); }
      answers := answers + [one.value];
    }
    assert ops[..|ops|] == ops;
    return Ok(answers);
  }

  /**
    Snapshot, any run that may fail half-way, restore: every page reads as before.  If the upload
    protocol's invariant held, no completion was under way and the devices are reliable, it holds
    at the end, whatever the run did to it.
   */
  method SnapshotRunRestore(c: Cache, ops: seq<HostOp>, maxConcurrent: nat, schedules: seq<seq<WorkerStep>>) returns (done: bool)
    requires c.Valid() && |schedules| == 4 && forall op :: op in ops ==> WellFormed(op)
    modifies c.inner, c.writer, c.writer.store
    ensures c.Valid()
    ensures done ==> forall p: PageId :: c.Content(p) == old(c.Content(p))
    ensures done && old(Sound(c)) ==> c.writer.Backed()
  {
    var r, frozen := c.SnapshotPagesIdx(maxConcurrent, schedules[0], schedules[1]);
    if !r.Synced? { return false; }
    ghost var backed := c.writer.Backed();
    label Frozen:
    var _ := Run(c, ops, FlatOf(c));
    hide Cache.Valid, Cache.Content, ResolveIn, WholePages, Writer.Backed;
    assert c.Lasting@Frozen();
    r := c.RestoreFromSnapshot(frozen, maxConcurrent, schedules[2], schedules[3]);
    return r.Synced?;
  }
}
