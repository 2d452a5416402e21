/**
  The version-guarded flush, split at its lock boundaries.

  A flush or dirty eviction snapshots a page under the lock, writes it to the page index
  off the lock, and commits under the lock only if the page's version is unchanged.  Host
  writes, loads, clean evictions and other pages' flushes may run in between.  `truth` is
  the flat array the host believes in.
*/
module FlushRace {
  import opened Bytes

  datatype Cached = Cached(bytes: seq<Byte>, dirty: bool, version: U64)

  /** `since` counts host writes to the page after the snapshot; the source does not store it. */
  datatype Flight = Flight(page: PageId, bytes: seq<Byte>, version: U64, evict: bool, landed: bool, since: nat)

  datatype State = State(
    pageSize: nat,
    cache: map<PageId, Cached>,
    disk: map<PageId, seq<Byte>>,   // what the page index resolves to; absent pages read as zeros
    flights: map<nat, Flight>,
    truth: map<PageId, seq<Byte>>)
  {
    function OnDisk(p: PageId): seq<Byte> { if p in disk then disk[p] else Zeros(pageSize) }

    function Truth(p: PageId): seq<Byte> { if p in truth then truth[p] else Zeros(pageSize) }

    /** What the host reads. */
    function View(p: PageId): seq<Byte> { if p in cache then cache[p].bytes else OnDisk(p) }

    ghost predicate InFlight(p: PageId) { exists id :: id in flights && flights[id].page == p }
  }

  datatype Step =
    | Load(p: PageId)
    | HostWrite(p: PageId, bytes: seq<Byte>)
    | DropClean(p: PageId)
    | Begin(id: nat, p: PageId, evict: bool)
    | Land(id: nat)
    | Abort(id: nat)
    | Commit(id: nat)
    | Unmap(p: PageId)

  ghost predicate Enabled(s: State, step: Step) {
    match step
    case Load(p) => p !in s.cache
    case HostWrite(p, bytes) => |bytes| == s.pageSize
    case DropClean(p) => p in s.cache && !s.cache[p].dirty
    case Begin(id, p, evict) => id !in s.flights && p in s.cache && s.cache[p].dirty
    case Land(id) => id in s.flights && !s.flights[id].landed
    case Abort(id) => id in s.flights
    case Commit(id) => id in s.flights && s.flights[id].landed
    case Unmap(p) => true
  }

  /**
    What the surrounding code must guarantee: one flush in flight per page, no unmap under
    it, and fewer than 2^64 host writes to the page while it lasts.
   */
  ghost predicate Disciplined(s: State, step: Step) {
    match step
    case Begin(id, p, evict) => !s.InFlight(p)
    case Unmap(p) => !s.InFlight(p)
    case HostWrite(p, bytes) => forall id :: id in s.flights && s.flights[id].page == p ==> s.flights[id].since + 1 < U64_LIMIT
    case _ => true
  }

  function Bump(v: U64): U64 { Wrap64(v + 1) }

  function Do(s: State, step: Step): State
    requires Enabled(s, step)
  {
    match step
    case Load(p) => s.(cache := s.cache[p := Cached(s.OnDisk(p), false, 0)])
    case HostWrite(p, bytes) =>
      var version := if p in s.cache then s.cache[p].version else 0;
      s.(cache := s.cache[p := Cached(bytes, true, Bump(version))],
         flights := map id | id in s.flights ::
           (if s.flights[id].page == p then s.flights[id].(since := s.flights[id].since + 1) else s.flights[id]),
         truth := s.truth[p := bytes])
    case DropClean(p) => s.(cache := s.cache - {p})
    case Begin(id, p, evict) =>
      s.(flights := s.flights[id := Flight(p, s.cache[p].bytes, s.cache[p].version, evict, false, 0)])
    case Land(id) =>
      var f := s.flights[id];
      s.(disk := s.disk[f.page := f.bytes], flights := s.flights[id := f.(landed := true)])
    case Abort(id) => s.(flights := s.flights - {id})
    case Commit(id) =>
      var f := s.flights[id];
      var cache' :=
        if f.page in s.cache && s.cache[f.page].version == f.version then
          (if f.evict then s.cache - {f.page} else s.cache[f.page := s.cache[f.page].(dirty := false)])
        else s.cache;
      s.(cache := cache', flights := s.flights - {id})
    case Unmap(p) => s.(cache := s.cache - {p}, disk := s.disk - {p}, truth := s.truth - {p})
  }

  // ----- invariant under the discipline -----

  ghost predicate FlightOk(s: State, id: nat)
    requires id in s.flights
  {
    var f := s.flights[id];
    && f.page in s.cache && s.cache[f.page].dirty
    && f.since < U64_LIMIT
    && s.cache[f.page].version == Wrap64(f.version + f.since)
    && (f.since == 0 ==> s.cache[f.page].bytes == f.bytes)
    && (f.landed ==> s.OnDisk(f.page) == f.bytes)
  }

  ghost predicate PageOk(s: State, p: PageId) {
    && s.View(p) == s.Truth(p)
    && (p in s.cache && !s.cache[p].dirty ==> s.cache[p].bytes == s.OnDisk(p))
  }

  ghost predicate Good(s: State) {
    && (forall p: PageId :: PageOk(s, p))
    && (forall id :: id in s.flights ==> FlightOk(s, id))
    && (forall id, id' :: id in s.flights && id' in s.flights && s.flights[id].page == s.flights[id'].page ==> id == id')
  }

  /** The version still matches at commit exactly when no host write came in between. */
  lemma VersionMatchIffUntouched(version: U64, since: nat)
    requires since < U64_LIMIT
    ensures Wrap64(version + since) == version <==> since == 0
  {
    if version + since >= U64_LIMIT { WrapOnce(version + since - U64_LIMIT); }
  }

  lemma BumpAdds(version: U64, since: nat)
    ensures Bump(Wrap64(version + since)) == Wrap64(version + since + 1)
  {
    WrapAdd(version + since, 1);
    hide Wrap64;
  }

  lemma HostWriteKeeps(s: State, p: PageId, bytes: seq<Byte>)
    requires Good(s) && Enabled(s, HostWrite(p, bytes)) && Disciplined(s, HostWrite(p, bytes))
    ensures Good(Do(s, HostWrite(p, bytes)))
  {
    var s' := Do(s, HostWrite(p, bytes));
    forall q: PageId
      ensures PageOk(s', q)
    {
      assert PageOk(s, q);
    }
    forall id | id in s'.flights
      ensures FlightOk(s', id)
    {
      assert FlightOk(s, id);
      BumpAdds(s.flights[id].version, s.flights[id].since);
    }
  }

  lemma CommitKeeps(s: State, id: nat)
    requires Good(s) && Enabled(s, Commit(id))
    ensures Good(Do(s, Commit(id)))
  {
    var s' := Do(s, Commit(id));
    assert FlightOk(s, id);
    VersionMatchIffUntouched(s.flights[id].version, s.flights[id].since);
    forall q: PageId
      ensures PageOk(s', q)
    {
      assert PageOk(s, q);
    }
    forall k | k in s'.flights
      ensures FlightOk(s', k)
    {
      assert FlightOk(s, k);
    }
  }

  lemma LandKeeps(s: State, id: nat)
    requires Good(s) && Enabled(s, Land(id))
    ensures Good(Do(s, Land(id)))
  {
    var s' := Do(s, Land(id));
    assert FlightOk(s, id);
    forall q: PageId
      ensures PageOk(s', q)
    {
      assert PageOk(s, q);
    }
    forall k | k in s'.flights
      ensures FlightOk(s', k)
    {
      assert FlightOk(s, k);
    }
  }

  lemma CacheOnlyStepsKeep(s: State, step: Step)
    requires Good(s) && Enabled(s, step) && (step.Load? || step.DropClean? || step.Abort?)
    ensures Good(Do(s, step))
  {
    var s' := Do(s, step);
    forall q: PageId
      ensures PageOk(s', q)
    {
      assert PageOk(s, q);
    }
    forall k | k in s'.flights
      ensures FlightOk(s', k)
    {
      if k in s.flights { assert FlightOk(s, k); }
    }
  }

  lemma BeginKeeps(s: State, step: Step)
    requires Good(s) && Enabled(s, step) && Disciplined(s, step) && step.Begin?
    ensures Good(Do(s, step))
  {
    var s' := Do(s, step);
    forall q: PageId
      ensures PageOk(s', q)
    {
      assert PageOk(s, q);
    }
    forall k | k in s'.flights
      ensures FlightOk(s', k)
    {
      if k in s.flights { assert FlightOk(s, k); }
    }
  }

  lemma UnmapKeeps(s: State, step: Step)
    requires Good(s) && Disciplined(s, step) && step.Unmap?
    ensures Good(Do(s, step))
  {
    var s' := Do(s, step);
    forall q: PageId
      ensures PageOk(s', q)
    {
      assert PageOk(s, q);
    }
    forall k | k in s'.flights
      ensures FlightOk(s', k)
    {
      if k in s.flights { assert FlightOk(s, k); }
    }
  }

  lemma StepKeepsGood(s: State, step: Step)
    requires Good(s) && Enabled(s, step) && Disciplined(s, step)
    ensures Good(Do(s, step))
  {
    hide Good, Disciplined;
    match step {
      case HostWrite(p, bytes) => HostWriteKeeps(s, p, bytes);
      case Commit(id) => CommitKeeps(s, id);
      case Land(id) => LandKeeps(s, id);
      case Begin(_, _, _) => BeginKeeps(s, step);
      case Unmap(_) => UnmapKeeps(s, step);
      case _ => CacheOnlyStepsKeep(s, step);
    }
  }

  /** A page written during its flush stays cached and dirty with its newest bytes. */
  lemma RedirtiedPageSurvivesCommit(s: State, id: nat)
    requires Good(s) && Enabled(s, Commit(id)) && s.flights[id].since > 0
    ensures
      var p := s.flights[id].page;
      p in s.cache && s.cache[p].dirty && Do(s, Commit(id)).cache == s.cache
  {
    assert FlightOk(s, id);
    VersionMatchIffUntouched(s.flights[id].version, s.flights[id].since);
  }

  ghost predicate ValidRun(s: State, steps: seq<Step>)
    decreases |steps|
  {
    steps == [] || (Enabled(s, steps[0]) && ValidRun(Do(s, steps[0]), steps[1..]))
  }

  ghost function Run(s: State, steps: seq<Step>): State
    requires ValidRun(s, steps)
    decreases |steps|
  {
    if steps == [] then s else Run(Do(s, steps[0]), steps[1..])
  }

  ghost predicate DisciplinedRun(s: State, steps: seq<Step>)
    requires ValidRun(s, steps)
    decreases |steps|
  {
    steps == [] || (Disciplined(s, steps[0]) && DisciplinedRun(Do(s, steps[0]), steps[1..]))
  }

  /** No write is lost: whatever is flushed, evicted or reloaded, the host reads what it wrote. */
  lemma {:induction false} NoWriteLost(s: State, steps: seq<Step>)
    requires Good(s) && ValidRun(s, steps) && DisciplinedRun(s, steps)
    ensures Good(Run(s, steps))
    ensures forall p: PageId :: Run(s, steps).View(p) == Run(s, steps).Truth(p)
    decreases |steps|
  {
    if steps != [] {
      StepKeepsGood(s, steps[0]);
      NoWriteLost(Do(s, steps[0]), steps[1..]);
    } else {
      forall p: PageId
        ensures s.View(p) == s.Truth(p)
      {
        assert PageOk(s, p);
      }
    }
  }

  lemma EmptyCacheGood(s: State)
    requires s.cache == map[] && s.flights == map[] && s.disk == s.truth
    ensures Good(s)
  {
    forall p: PageId
      ensures PageOk(s, p)
    {
    }
  }

  // ----- the discipline is necessary -----

  ghost predicate CanLose(s: State) {
    exists steps, p :: LosingRun(s, steps, p)
  }

  ghost predicate LosingRun(s: State, steps: seq<Step>, p: PageId) {
    ValidRun(s, steps) && Run(s, steps).View(p) != Run(s, steps).Truth(p)
  }

  lemma LoseLater(s: State, step: Step)
    requires Enabled(s, step) && CanLose(Do(s, step))
    ensures CanLose(s)
  {
    var rest, p :| LosingRun(Do(s, step), rest, p);
    var steps := [step] + rest;
    assert steps[1..] == rest;
    assert LosingRun(s, steps, p);
  }

  lemma LostNow(s: State, p: PageId)
    requires s.View(p) != s.Truth(p)
    ensures CanLose(s)
  {
    assert LosingRun(s, [], p);
  }

  /** Write `x` until the version comes round to the flight's, then let the flight commit. */
  lemma {:induction false} WriteUntilVersion(s: State, p: PageId, id: nat, x: seq<Byte>, n: nat)
    requires id in s.flights && s.flights[id].page == p && s.flights[id].landed
    requires p in s.cache && Wrap64(s.cache[p].version + n) == s.flights[id].version
    requires n > 0 || (s.cache[p].bytes == x && s.Truth(p) == x)
    requires |x| == s.pageSize && s.OnDisk(p) != x
    ensures CanLose(s)
    decreases n
  {
    if n == 0 {
      var s1 := Do(s, Commit(id));
      if s.flights[id].evict {
        LostNow(s1, p);
      } else {
        LostNow(Do(s1, DropClean(p)), p);
        LoseLater(s1, DropClean(p));
      }
      LoseLater(s, Commit(id));
    } else {
      var s1 := Do(s, HostWrite(p, x));
      NextVersion(s.cache[p].version, n, s.flights[id].version);
      WriteUntilVersion(s1, p, id, x, n - 1);
      LoseLater(s, HostWrite(p, x));
    }
  }

  lemma NextVersion(v: U64, n: nat, w: U64)
    requires n > 0 && Wrap64(v + n) == w
    ensures Wrap64(Bump(v) + (n - 1)) == w
  {
    WrapAdd(v + 1, n - 1);
    hide Wrap64;
    assert v + 1 + (n - 1) == v + n;
  }

  /** A landed flight whose page has left the cache can later mark foreign bytes clean. */
  lemma OrphanFlightCanLose(s: State, p: PageId, id: nat)
    requires s.pageSize > 0 && id in s.flights && s.flights[id].page == p && s.flights[id].landed && p !in s.cache
    ensures CanLose(s)
  {
    var s1 := Do(s, Load(p));
    var w := s.flights[id].version;
    var n := if w == 0 then U64_LIMIT else w;
    assert Wrap64(0 + n) == w;
    var ones := seq(s.pageSize, _ => 1);
    assert ones[0] != Zeros(s.pageSize)[0];
    var x := if s.OnDisk(p) == Zeros(s.pageSize) then ones else Zeros(s.pageSize);
    WriteUntilVersion(s1, p, id, x, n);
    LoseLater(s, Load(p));
  }

  /** From any good state, starting a second flush of a page already in flight can lose a write. */
  lemma OverlappingFlushCanLose(s: State, a: nat, b: nat, evict: bool)
    requires s.pageSize > 0 && Good(s) && a in s.flights && b !in s.flights
    ensures Enabled(s, Begin(b, s.flights[a].page, evict))
    ensures CanLose(Do(s, Begin(b, s.flights[a].page, evict)))
  {
    assert FlightOk(s, a);
    var p := s.flights[a].page;
    var s0 := Do(s, Begin(b, p, evict));
    if s0.flights[a].landed {
      SecondFlightDrops(s0, p, a, b);
    } else {
      SecondFlightDrops(Do(s0, Land(a)), p, a, b);
      LoseLater(s0, Land(a));
    }
  }

  lemma SecondFlightDrops(s: State, p: PageId, a: nat, b: nat)
    requires s.pageSize > 0 && a != b && a in s.flights && b in s.flights
    requires s.flights[a].page == p && s.flights[b].page == p && s.flights[a].landed && !s.flights[b].landed
    requires p in s.cache && s.cache[p].version == s.flights[b].version
    ensures CanLose(s)
  {
    var s1 := Do(s, Land(b));
    var s2 := Do(s1, Commit(b));
    if s.flights[b].evict {
      OrphanFlightCanLose(s2, p, a);
    } else {
      OrphanFlightCanLose(Do(s2, DropClean(p)), p, a);
      LoseLater(s2, DropClean(p));
    }
    LoseLater(s1, Commit(b));
    LoseLater(s, Land(b));
  }

  /** From any good state, unmapping a page in flight can lose a later write. */
  lemma UnmapUnderFlightCanLose(s: State, a: nat)
    requires s.pageSize > 0 && Good(s) && a in s.flights
    ensures CanLose(Do(s, Unmap(s.flights[a].page)))
  {
    var p := s.flights[a].page;
    var s1 := Do(s, Unmap(p));
    if s1.flights[a].landed {
      OrphanFlightCanLose(s1, p, a);
    } else {
      OrphanFlightCanLose(Do(s1, Land(a)), p, a);
      LoseLater(s1, Land(a));
    }
  }

  /** And so can the write that brings the page's version round to that of a flight. */
  lemma WrapAroundCanLose(s: State, id: nat, x: seq<Byte>)
    requires Good(s) && id in s.flights && s.flights[id].since + 1 == U64_LIMIT
    requires |x| == s.pageSize && x != s.flights[id].bytes
    ensures CanLose(Do(s, HostWrite(s.flights[id].page, x)))
  {
    assert FlightOk(s, id);
    var f := s.flights[id];
    var s1 := Do(s, HostWrite(f.page, x));
    BumpAdds(f.version, f.since);
    WrapOnce(f.version);
    assert s1.cache[f.page].version == f.version;
    if f.landed {
      WriteUntilVersion(s1, f.page, id, x, 0);
    } else {
      WriteUntilVersion(Do(s1, Land(id)), f.page, id, x, 0);
      LoseLater(s1, Land(id));
    }
  }

  // ----- a concrete loss -----

  /** A flush holds the snapshot of version 1, and an eviction has since dropped the page. */
  function OrphanedState(): State {
    State(1, map[], map[0 := [1]], map[1 := Flight(0, [1], 1, false, true, 0)], map[0 := [1]])
  }

  lemma OrphanedStateArises()
    ensures
      var s := State(1, map[], map[], map[], map[]);
      var steps := [HostWrite(0, [1]), Begin(1, 0, false), Begin(2, 0, true), Land(2), Commit(2), Land(1)];
      ValidRun(s, steps) && Run(s, steps) == OrphanedState()
  {
    var f1, f2 := Flight(0, [1], 1, false, false, 0), Flight(0, [1], 1, true, false, 0);
    var s0 := State(1, map[], map[], map[], map[]);
    var s1 := State(1, map[0 := Cached([1], true, 1)], map[], map[], map[0 := [1]]);
    var s2 := s1.(flights := map[1 := f1]);
    var s3 := s1.(flights := map[1 := f1, 2 := f2]);
    var s4 := s1.(flights := map[1 := f1, 2 := f2.(landed := true)], disk := map[0 := [1]]);
    var s5 := State(1, map[], map[0 := [1]], map[1 := f1], map[0 := [1]]);
    var steps := [HostWrite(0, [1]), Begin(1, 0, false), Begin(2, 0, true), Land(2), Commit(2), Land(1)];
    assert Do(s0, steps[0]) == s1;
    assert Do(s1, steps[1]) == s2;
    assert Do(s2, steps[2]) == s3;
    assert Do(s3, steps[3]) == s4;
    assert Do(s4, steps[4]) == s5;
    assert Do(s5, steps[5]) == OrphanedState();
    hide Do;
    RunStep(s5, steps[5..], OrphanedState());
    RunStep(s4, steps[4..], OrphanedState());
    RunStep(s3, steps[3..], OrphanedState());
    RunStep(s2, steps[2..], OrphanedState());
    RunStep(s1, steps[1..], OrphanedState());
    RunStep(s0, steps, OrphanedState());
  }

  /** Reloaded, the page starts over at version 0: one write repeats version 1 and is then lost. */
  lemma ReusedVersionLosesWrite()
    ensures
      var steps := [Load(0), HostWrite(0, [2]), Commit(1), DropClean(0)];
      && ValidRun(OrphanedState(), steps)
      && Run(OrphanedState(), steps).View(0) == [1] && Run(OrphanedState(), steps).Truth(0) == [2]
  {
    var f := Flight(0, [1], 1, false, true, 0);
    var s0 := OrphanedState();
    var s1 := s0.(cache := map[0 := Cached([1], false, 0)]);
    var s2 := State(1, map[0 := Cached([2], true, 1)], map[0 := [1]], map[1 := f.(since := 1)], map[0 := [2]]);
    var s3 := State(1, map[0 := Cached([2], false, 1)], map[0 := [1]], map[], map[0 := [2]]);
    var s4 := State(1, map[], map[0 := [1]], map[], map[0 := [2]]);
    var steps := [Load(0), HostWrite(0, [2]), Commit(1), DropClean(0)];
    assert Do(s0, steps[0]) == s1;
    assert Do(s1, steps[1]) == s2;
    assert Do(s2, steps[2]) == s3;
    assert Do(s3, steps[3]) == s4;
    hide Do;
    RunStep(s3, steps[3..], s4);
    RunStep(s2, steps[2..], s4);
    RunStep(s1, steps[1..], s4);
    RunStep(s0, steps, s4);
  }

  lemma RunStep(s: State, steps: seq<Step>, end: State)
    requires steps != [] && Enabled(s, steps[0])
    requires ValidRun(Do(s, steps[0]), steps[1..]) && Run(Do(s, steps[0]), steps[1..]) == end
    ensures ValidRun(s, steps) && Run(s, steps) == end
  {
  }
}
