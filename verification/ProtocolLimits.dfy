/**
  Where the protocol's guarantee ends, with the exact conditions.

  Two of the code's own steps are undisciplined in the sense of module Protocol: a write to
  a page while one of its completions is past its check, and a write whose sidecar mark
  fails.  Two more windows are outside its steps: a removal that the eviction pass decided
  before a concurrent write's LocalOnly mark and carries out after its seal, and the write
  branch taken when the upload channel is closed.
*/
module ProtocolLimits {
  import opened Bytes
  import opened Volume
  import opened Protocol

  ghost predicate AllReadable(s: Sys) {
    forall v, p :: v in s.vols && p in s.vols[v].index ==> Readable(s, v, p)
  }

  /** No page but `p` of `v` names the chunk a write to it would seal. */
  ghost predicate NamedNowhereElse(s: Sys, v: VolId, p: PageId, c: Chunk) {
    forall u: VolId, q: PageId :: s.References(u, q, c) ==> (u, q) == (v, p)
  }

  // ----- a write under a landing completion -----

  /** The page is written and enqueued, and then the older completion goes on to its end. */
  function RaceSteps(s: Sys, v: VolId, p: PageId, salt: U64, bytes: seq<Byte>): seq<Step>
    requires v in s.vols
  {
    if p in s.vols[v].checked
    then [WriteSeal(v, p, salt, bytes), WriteEnqueue(v, p), Flip(v, p), Finish(v, p)]
    else [WriteSeal(v, p, salt, bytes), WriteEnqueue(v, p), Finish(v, p)]
  }

  function RacedVol(vol: Vol, p: PageId, e: Entry): Vol {
    var written := vol.Sealed(p, e).Enqueued(p);
    (if p in vol.checked then written.Flipped(p) else written).Finished(p)
  }

  /** Where the race ends. */
  function Raced(s: Sys, v: VolId, p: PageId, salt: U64, bytes: seq<Byte>): Sys
    requires v in s.vols
  {
    var c := WrittenChunk(s, v, p, salt, bytes);
    s.With(v, RacedVol(s.vols[v], p, Seal(s.vols[v].manifest, p, salt, bytes)))
     .(pool := s.pool + {c}, tasks := s.tasks + {Task(v, p, c)})
  }

  lemma RaceStates(s: Sys, v: VolId, p: PageId, salt: U64, bytes: seq<Byte>)
    requires Enabled(s, WriteSeal(v, p, salt, bytes)) && s.vols[v].Landing(p)
    ensures
      var s1 := Do(s, WriteSeal(v, p, salt, bytes));
      Enabled(s1, WriteEnqueue(v, p)) &&
      var s2 := Do(s1, WriteEnqueue(v, p));
      if p in s.vols[v].checked then
        Enabled(s2, Flip(v, p)) && Enabled(Do(s2, Flip(v, p)), Finish(v, p))
        && Do(Do(s2, Flip(v, p)), Finish(v, p)) == Raced(s, v, p, salt, bytes)
      else
        Enabled(s2, Finish(v, p)) && Do(s2, Finish(v, p)) == Raced(s, v, p, salt, bytes)
  {
  }

  lemma OneStep(s: Sys, step: Step)
    requires Enabled(s, step)
    ensures ValidRun(s, [step]) && Run(s, [step]) == Do(s, step)
  {
    hide Do, Enabled;
    assert [step][1..] == [];
  }

  lemma TwoSteps(s: Sys, a: Step, b: Step)
    requires Enabled(s, a) && Enabled(Do(s, a), b)
    ensures ValidRun(s, [a, b]) && Run(s, [a, b]) == Do(Do(s, a), b)
  {
    hide Do, Enabled;
    OneStep(Do(s, a), b);
    assert [a, b][1..] == [b];
  }

  lemma ThreeSteps(s: Sys, a: Step, b: Step, c: Step)
    requires Enabled(s, a) && Enabled(Do(s, a), b) && Enabled(Do(Do(s, a), b), c)
    ensures ValidRun(s, [a, b, c]) && Run(s, [a, b, c]) == Do(Do(Do(s, a), b), c)
  {
    hide Do, Enabled;
    TwoSteps(Do(s, a), b, c);
    assert [a, b, c][1..] == [b, c];
  }

  lemma FourSteps(s: Sys, a: Step, b: Step, c: Step, d: Step)
    requires Enabled(s, a) && Enabled(Do(s, a), b) && Enabled(Do(Do(s, a), b), c) && Enabled(Do(Do(Do(s, a), b), c), d)
    ensures ValidRun(s, [a, b, c, d]) && Run(s, [a, b, c, d]) == Do(Do(Do(Do(s, a), b), c), d)
  {
    hide Do, Enabled;
    ThreeSteps(Do(s, a), b, c, d);
    assert [a, b, c, d][1..] == [b, c, d];
  }

  lemma RaceRuns(s: Sys, v: VolId, p: PageId, salt: U64, bytes: seq<Byte>)
    requires Enabled(s, WriteSeal(v, p, salt, bytes)) && s.vols[v].Landing(p)
    ensures ValidRun(s, RaceSteps(s, v, p, salt, bytes))
    ensures Run(s, RaceSteps(s, v, p, salt, bytes)) == Raced(s, v, p, salt, bytes)
  {
    RaceStates(s, v, p, salt, bytes);
    hide Do, Enabled, Raced, ValidRun, Run, Vol.Landing;
    if p in s.vols[v].checked {
      FourSteps(s, WriteSeal(v, p, salt, bytes), WriteEnqueue(v, p), Flip(v, p), Finish(v, p));
    } else {
      ThreeSteps(s, WriteSeal(v, p, salt, bytes), WriteEnqueue(v, p), Finish(v, p));
    }
  }

  /** The race leaves the system good if and only if storage already held the new chunk. */
  lemma RaceSafeIff(s: Sys, v: VolId, p: PageId, salt: U64, bytes: seq<Byte>)
    requires Inv(s) && Enabled(s, WriteSeal(v, p, salt, bytes)) && s.vols[v].Landing(p)
    ensures ValidRun(s, RaceSteps(s, v, p, salt, bytes))
    ensures Inv(Run(s, RaceSteps(s, v, p, salt, bytes))) <==> WrittenChunk(s, v, p, salt, bytes) in s.storage
  {
    RaceRuns(s, v, p, salt, bytes);
    if WrittenChunk(s, v, p, salt, bytes) in s.storage {
      StoredRaceIsDisciplined(s, v, p, salt, bytes);
      hide *;
      RunKeepsInv(s, RaceSteps(s, v, p, salt, bytes));
    } else {
      RacedIsBad(s, v, p, salt, bytes);
    }
  }

  lemma RacedIsBad(s: Sys, v: VolId, p: PageId, salt: U64, bytes: seq<Byte>)
    requires v in s.vols && s.vols[v].Landing(p) && WrittenChunk(s, v, p, salt, bytes) !in s.storage
    ensures !Inv(Raced(s, v, p, salt, bytes))
  {
    var s' := Raced(s, v, p, salt, bytes);
    assert !PageOk(s'.vols[v], s'.pool, s'.storage, p);
    assert !VolOk(s'.vols[v], s'.pool, s'.storage);
  }

  lemma StoredRaceIsDisciplined(s: Sys, v: VolId, p: PageId, salt: U64, bytes: seq<Byte>)
    requires v in s.vols && ValidRun(s, RaceSteps(s, v, p, salt, bytes)) && WrittenChunk(s, v, p, salt, bytes) in s.storage
    ensures DisciplinedRun(s, RaceSteps(s, v, p, salt, bytes))
  {
    hide Do, Enabled, WrittenChunk;
    var steps := RaceSteps(s, v, p, salt, bytes);
    WritesOnlyFirst(Do(s, steps[0]), steps[1..]);
  }

  lemma {:induction false} WritesOnlyFirst(s: Sys, steps: seq<Step>)
    requires ValidRun(s, steps) && forall k :: 0 <= k < |steps| ==> !steps[k].WriteSeal? && !steps[k].WriteUnmarked?
    ensures DisciplinedRun(s, steps)
    decreases |steps|
  {
    hide Do, Enabled;
    if steps != [] { WritesOnlyFirst(Do(s, steps[0]), steps[1..]); }
  }

  /**
    Otherwise a fence over the page comes back clean although the chunk is not stored; and if
    the completion had yet to flip, the next eviction pass may delete the only copy.
   */
  lemma RaceLoses(s: Sys, v: VolId, p: PageId, salt: U64, bytes: seq<Byte>)
    requires Enabled(s, WriteSeal(v, p, salt, bytes)) && s.vols[v].Landing(p)
    requires WrittenChunk(s, v, p, salt, bytes) !in s.storage
    ensures
      var s' := Raced(s, v, p, salt, bytes);
      var c := WrittenChunk(s, v, p, salt, bytes);
      && s'.References(v, p, c) && Drained(s'.vols[v], p, p) && c !in s'.storage
      && (p in s.vols[v].checked && NamedNowhereElse(s, v, p, c) ==>
            Enabled(s', Evict({c}, {})) && !Readable(Do(s', Evict({c}, {})), v, p))
  {
    var s' := Raced(s, v, p, salt, bytes);
    var c := WrittenChunk(s, v, p, salt, bytes);
    if p in s.vols[v].checked && NamedNowhereElse(s, v, p, c) {
      assert p !in s'.vols[v].localOnly;
      forall u, q | s'.References(u, q, c)
        ensures q !in s'.vols[u].localOnly
      {
        if (u, q) != (v, p) { assert s.References(u, q, c); }
      }
    }
  }

  /** One empty unencrypted volume. */
  function PlainManifest(): Manifest {
    Manifest(Zeros(16), "primary", Local, None, None, false, 1, 1, false)
  }

  function EmptyVol(): Vol {
    Vol(PlainManifest(), map[], {}, {}, {}, {}, multiset{}, multiset{})
  }

  function PlainChunk(b: Byte): Chunk { ChunkFor(PlainManifest(), Plain([b])) }

  /** Byte 7 is on page 3 and uploaded, and its completion has just passed its check. */
  function CheckedSystem(): Sys {
    var c := PlainChunk(7);
    Sys(map[0 := EmptyVol().(index := map[3 := Entry(Plain([7]), 0)], localOnly := {3}, pending := {3}, checked := multiset{3})],
        {c}, {c}, {Task(0, 3, c)}, {Task(0, 3, c)}, map[])
  }

  /** Four disciplined steps reach that state from an empty volume. */
  lemma CheckedSystemArises()
    ensures
      var s := Sys(map[0 := EmptyVol()], {}, {}, {}, {}, map[]);
      var t := Task(0, 3, PlainChunk(7));
      var steps := [WriteSeal(0, 3, 0, [7]), WriteEnqueue(0, 3), PutOk(t), Check(t)];
      Init(s) && ValidRun(s, steps) && DisciplinedRun(s, steps) && Run(s, steps) == CheckedSystem()
  {
    var c := PlainChunk(7);
    var t := Task(0, 3, c);
    var e := Entry(Plain([7]), 0);
    var s0 := Sys(map[0 := EmptyVol()], {}, {}, {}, {}, map[]);
    var steps := [WriteSeal(0, 3, 0, [7]), WriteEnqueue(0, 3), PutOk(t), Check(t)];
    var v1 := EmptyVol().(index := map[3 := e], localOnly := {3}, writing := {3});
    var v2 := v1.(writing := {}, pending := {3});
    var s1 := Sys(map[0 := v1], {c}, {}, {}, {}, map[]);
    var s2 := Sys(map[0 := v2], {c}, {}, {t}, {}, map[]);
    var s3 := s2.(storage := {c}, outcomes := {t});
    assert EmptyVol().Sealed(3, e) == v1;
    assert Do(s0, steps[0]) == s1;
    assert v1.Enqueued(3) == v2;
    assert Do(s1, steps[1]) == s2;
    assert Do(s2, steps[2]) == s3;
    assert v2.(checked := v2.checked + multiset{3}) == CheckedSystem().vols[0];
    assert Do(s3, steps[3]) == CheckedSystem();
    hide Do;
    RunOne(s3, steps[3..], CheckedSystem());
    RunOne(s2, steps[2..], CheckedSystem());
    RunOne(s1, steps[1..], CheckedSystem());
    RunOne(s0, steps, CheckedSystem());
  }

  lemma RunOne(s: Sys, steps: seq<Step>, end: Sys)
    requires steps != [] && Enabled(s, steps[0]) && Disciplined(s, steps[0])
    requires ValidRun(Do(s, steps[0]), steps[1..]) && DisciplinedRun(Do(s, steps[0]), steps[1..])
    requires Run(Do(s, steps[0]), steps[1..]) == end
    ensures ValidRun(s, steps) && DisciplinedRun(s, steps) && Run(s, steps) == end
  {
  }

  /** Byte 8 written there is fenced clean, evicted, and gone. */
  lemma CompletionRaceExample()
    ensures
      var s, c := CheckedSystem(), PlainChunk(8);
      var s' := Raced(s, 0, 3, 0, [8]);
      && Inv(s) && ValidRun(s, RaceSteps(s, 0, 3, 0, [8])) && Run(s, RaceSteps(s, 0, 3, 0, [8])) == s'
      && Drained(s'.vols[0], 3, 3) && s'.References(0, 3, c) && c !in s'.storage
      && Enabled(s', Evict({c}, {})) && !Readable(Do(s', Evict({c}, {})), 0, 3)
  {
    var s := CheckedSystem();
    assert PageOk(s.vols[0], s.pool, s.storage, 3);
    assert Plain([7]).bytes[0] != Plain([8]).bytes[0];
    RaceRuns(s, 0, 3, 0, [8]);
    RaceLoses(s, 0, 3, 0, [8]);
  }

  // ----- a write whose sidecar mark fails -----

  /** A completion past its check goes on to its end. */
  function LandSteps(vol: Vol, v: VolId, p: PageId): seq<Step> {
    if p in vol.checked then [Flip(v, p), Finish(v, p)] else [Finish(v, p)]
  }

  lemma LandedIsUntracked(s: Sys, v: VolId, p: PageId)
    requires v in s.vols && s.vols[v].Landing(p) && p in s.vols[v].index && p !in s.vols[v].writing
    ensures
      var steps := LandSteps(s.vols[v], v, p);
      ValidRun(s, steps) &&
      var r := Run(s, steps);
      r.References(v, p, s.vols[v].ChunkOf(p)) && Drained(r.vols[v], p, p) && r.storage == s.storage
  {
    if p in s.vols[v].checked {
      TwoSteps(s, Flip(v, p), Finish(v, p));
    } else {
      OneStep(s, Finish(v, p));
    }
  }

  /** Undisciplined, it leaves a page that a fence or an eviction pass does not protect, now or once a completion ends. */
  lemma UnmarkedLoses(s: Sys, v: VolId, p: PageId, salt: U64, bytes: seq<Byte>)
    requires Inv(s) && Enabled(s, WriteUnmarked(v, p, salt, bytes)) && !Disciplined(s, WriteUnmarked(v, p, salt, bytes))
    ensures
      var s' := Do(s, WriteUnmarked(v, p, salt, bytes));
      var c := WrittenChunk(s, v, p, salt, bytes);
      && s'.References(v, p, c) && c !in s'.storage
      && (!s.vols[v].Tracked(p) ==> Drained(s'.vols[v], p, p))
      && (s.vols[v].Landing(p) ==>
            var steps := LandSteps(s.vols[v], v, p);
            ValidRun(s', steps) &&
            var r := Run(s', steps);
            r.References(v, p, c) && Drained(r.vols[v], p, p) && c !in r.storage)
      && (p !in s.vols[v].localOnly && NamedNowhereElse(s, v, p, c) ==>
            Enabled(s', Evict({c}, {})) && !Readable(Do(s', Evict({c}, {})), v, p))
  {
    var s' := Do(s, WriteUnmarked(v, p, salt, bytes));
    var c := WrittenChunk(s, v, p, salt, bytes);
    if s.vols[v].Landing(p) { LandedIsUntracked(s', v, p); }
    if p !in s.vols[v].localOnly && NamedNowhereElse(s, v, p, c) {
      forall u, q | s'.References(u, q, c)
        ensures q !in s'.vols[u].localOnly
      {
        if (u, q) != (v, p) { assert s.References(u, q, c); }
      }
    }
  }

  // ----- a removal decided before the mark, carried out after the seal -----

  ghost function StaleRemoval(s: Sys, v: VolId, p: PageId, salt: U64, bytes: seq<Byte>, c: Chunk): Sys
    requires Enabled(s, WriteSeal(v, p, salt, bytes))
  {
    var s' := Do(s, WriteSeal(v, p, salt, bytes));
    s'.(pool := s'.pool - {c})
  }

  /**
    If `c` was evictable when the pass looked, the late removal loses data exactly when the
    write in between sealed that very chunk and storage does not hold it.  The lost page is
    always the one just written.
   */
  lemma StaleRemovalSafeIff(s: Sys, v: VolId, p: PageId, salt: U64, bytes: seq<Byte>, c: Chunk, unreadable: set<VolId>)
    requires Inv(s) && Enabled(s, WriteSeal(v, p, salt, bytes)) && s.Evictable(c, unreadable)
    ensures
      var s' := StaleRemoval(s, v, p, salt, bytes, c);
      && (AllReadable(s') <==> WrittenChunk(s, v, p, salt, bytes) != c || c in s.storage)
      && forall u, q :: u in s'.vols && q in s'.vols[u].index && (u, q) != (v, p) ==> Readable(s', u, q)
  {
    var s' := StaleRemoval(s, v, p, salt, bytes, c);
    OpenOfSeal(s.vols[v].manifest, p, salt, bytes);
    forall u, q | u in s'.vols && q in s'.vols[u].index && (u, q) != (v, p)
      ensures Readable(s', u, q)
    {
      assert VolOk(s.vols[u], s.pool, s.storage);
      assert PageOk(s.vols[u], s.pool, s.storage, q);
      assert s.References(u, q, s.vols[u].ChunkOf(q));
    }
    assert Readable(s', v, p) <==> WrittenChunk(s, v, p, salt, bytes) != c || c in s.storage;
  }

  /** One empty volume, and a chunk left in its pool that no page names. */
  function LeftoverSystem(): Sys {
    Sys(map[0 := EmptyVol()], {PlainChunk(7)}, {}, {}, {}, map[])
  }

  /** The window is real: a leftover chunk re-sealed while a pass is removing it is gone. */
  lemma StaleRemovalExample()
    ensures
      var s := LeftoverSystem();
      var c := PlainChunk(7);
      && Init(s) && Enabled(s, WriteSeal(0, 3, 0, [7])) && s.Evictable(c, {}) && c in s.pool
      && !AllReadable(StaleRemoval(s, 0, 3, 0, [7], c))
  {
    var s := LeftoverSystem();
    InitInv(s);
    StaleRemovalSafeIff(s, 0, 3, 0, [7], PlainChunk(7), {});
  }

  // ----- the closed-channel branch -----

  /** Seal and bind, then undo the pending mark and record Uploaded, as if the upload had happened. */
  function WriteClosed(s: Sys, v: VolId, p: PageId, salt: U64, bytes: seq<Byte>): Sys
    requires v in s.vols
  {
    var vol := s.vols[v];
    var e := Seal(vol.manifest, p, salt, bytes);
    s.With(v, vol.(index := vol.index[p := e], localOnly := vol.localOnly - {p},
                   pending := vol.pending - {p}, failed := vol.failed - {p}))
     .(pool := s.pool + {ChunkFor(vol.manifest, e.payload)})
  }

  /** The branch keeps the invariant if and only if the chunk was in storage already. */
  lemma ClosedChannelSafeIff(s: Sys, v: VolId, p: PageId, salt: U64, bytes: seq<Byte>)
    requires Inv(s) && v in s.vols
    ensures Inv(WriteClosed(s, v, p, salt, bytes)) <==> WrittenChunk(s, v, p, salt, bytes) in s.storage
  {
    var s' := WriteClosed(s, v, p, salt, bytes);
    var vol, vol' := s.vols[v], s'.vols[v];
    OpenOfSeal(vol.manifest, p, salt, bytes);
    if WrittenChunk(s, v, p, salt, bytes) in s.storage {
      forall q | q in vol'.index
        ensures PageOk(vol', s'.pool, s'.storage, q)
      {
        if q != p { assert PageOk(vol, s.pool, s.storage, q); }
      }
      ReplaceVol(s, s', v, vol');
    } else {
      assert !PageOk(vol', s'.pool, s'.storage, p);
      assert !VolOk(s'.vols[v], s'.pool, s'.storage);
    }
  }

  /** Otherwise the very next eviction pass may delete the only copy. */
  lemma ClosedChannelThenEvictLoses(s: Sys, v: VolId, p: PageId, salt: U64, bytes: seq<Byte>)
    requires Inv(s) && v in s.vols && WrittenChunk(s, v, p, salt, bytes) !in s.storage
    requires NamedNowhereElse(s, v, p, WrittenChunk(s, v, p, salt, bytes))
    ensures
      var c := WrittenChunk(s, v, p, salt, bytes);
      var s' := WriteClosed(s, v, p, salt, bytes);
      Enabled(s', Evict({c}, {})) && !Readable(Do(s', Evict({c}, {})), v, p)
  {
    var c := WrittenChunk(s, v, p, salt, bytes);
    var s' := WriteClosed(s, v, p, salt, bytes);
    forall u, q | s'.References(u, q, c)
      ensures q !in s'.vols[u].localOnly
    {
      if (u, q) != (v, p) {
        assert s.References(u, q, c);
      }
    }
  }
}
