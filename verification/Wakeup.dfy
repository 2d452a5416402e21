/**
  No lost wakeup, with registration, check, park, set update and notification as separate
  steps.  Two protocols: waiters of `wait_for_range`, and followers of a single-flight load.
*/
module FenceWakeup {
  import opened Bytes

  datatype Outcome = Drained | Failure

  datatype Waiter =
    | Idle(lo: PageId, hi: PageId)                     // about to register
    | Registered(lo: PageId, hi: PageId, notified: bool)
    | Parked(lo: PageId, hi: PageId, notified: bool)
    | Done(lo: PageId, hi: PageId, outcome: Outcome)

  /** `owed` counts set updates whose `notify_waiters` has not fired yet. */
  datatype State = State(pending: set<PageId>, failed: set<PageId>, owed: nat, waiters: map<nat, Waiter>)

  datatype Step =
    | Arrive(w: nat, lo: PageId, hi: PageId)
    | Register(w: nat)
    | Check(w: nat)
    | Wake(w: nat)
    | MarkPending(p: PageId)
    | UpdateDone(p: PageId)
    | UpdateFailed(p: PageId)
    | Notify
    | ClearFailed(p: PageId)
    | ClearAllFailed

  ghost predicate Touches(s: set<PageId>, lo: PageId, hi: PageId) {
    exists p :: p in s && lo <= p <= hi
  }

  ghost predicate Enabled(s: State, step: Step) {
    match step
    case Arrive(w, lo, hi) => w !in s.waiters
    case Register(w) => w in s.waiters && s.waiters[w].Idle?
    case Check(w) => w in s.waiters && s.waiters[w].Registered?
    case Wake(w) => w in s.waiters && s.waiters[w].Parked? && s.waiters[w].notified
    case Notify => s.owed > 0
    case _ => true
  }

  function Notified(w: Waiter): Waiter {
    if w.Registered? || w.Parked? then w.(notified := true) else w
  }

  ghost function Do(s: State, step: Step): State
    requires Enabled(s, step)
  {
    match step
    case Arrive(w, lo, hi) => s.(waiters := s.waiters[w := Idle(lo, hi)])
    case Register(w) => s.(waiters := s.waiters[w := Registered(s.waiters[w].lo, s.waiters[w].hi, false)])
    case Check(w) =>
      var Registered(lo, hi, notified) := s.waiters[w];
      var next :=
        if Touches(s.failed, lo, hi) then Done(lo, hi, Failure)
        else if !Touches(s.pending, lo, hi) then Done(lo, hi, Drained)
        else Parked(lo, hi, notified);
      s.(waiters := s.waiters[w := next])
    case Wake(w) => s.(waiters := s.waiters[w := Idle(s.waiters[w].lo, s.waiters[w].hi)])
    case MarkPending(p) => s.(failed := s.failed - {p}, pending := s.pending + {p})
    case UpdateDone(p) => s.(failed := s.failed - {p}, pending := s.pending - {p}, owed := s.owed + 1)
    case UpdateFailed(p) => s.(pending := s.pending - {p}, failed := s.failed + {p}, owed := s.owed + 1)
    case Notify => s.(owed := s.owed - 1, waiters := map w | w in s.waiters :: Notified(s.waiters[w]))
    case ClearFailed(p) => s.(failed := s.failed - {p})
    case ClearAllFailed => s.(failed := {})
  }

  /** A parked waiter nobody has notified is rightly waiting, or a notification is on its way. */
  ghost predicate NotStranded(s: State, w: nat)
    requires w in s.waiters
  {
    var x := s.waiters[w];
    x.Parked? && !x.notified ==>
      s.owed > 0 || (Touches(s.pending, x.lo, x.hi) && !Touches(s.failed, x.lo, x.hi))
  }

  ghost predicate Inv(s: State) {
    forall w :: w in s.waiters ==> NotStranded(s, w)
  }

  lemma StepKeepsInv(s: State, step: Step)
    requires Inv(s) && Enabled(s, step)
    ensures Inv(Do(s, step))
  {
    var s' := Do(s, step);
    forall w | w in s'.waiters
      ensures NotStranded(s', w)
    {
      if w in s.waiters { assert NotStranded(s, w); }
      var x := s'.waiters[w];
      if x.Parked? && !x.notified && s'.owed == 0 && w in s.waiters && s.waiters[w] == x {
        // nothing but an added pending page or a removed failed one can have happened
        var p :| p in s.pending && x.lo <= p <= x.hi;
        assert p in s'.pending;
        assert s'.failed <= s.failed;
      }
    }
  }

  ghost predicate ValidRun(s: State, steps: seq<Step>)
    decreases |steps|
  {
    steps == [] || (Enabled(s, steps[0]) && ValidRun(Do(s, steps[0]), steps[1..]))
  }

  ghost function Run(s: State, steps: seq<Step>): State
    requires ValidRun(s, steps)
    decreases |steps|
  {
    if steps == [] then s else Run(Do(s, steps[0]), steps[1..])
  }

  lemma {:induction false} NoLostWakeup(s: State, steps: seq<Step>)
    requires s.waiters == map[] && ValidRun(s, steps)
    ensures Inv(Run(s, steps))
  {
    RunKeepsInv(s, steps);
  }

  lemma {:induction false} RunKeepsInv(s: State, steps: seq<Step>)
    requires Inv(s) && ValidRun(s, steps)
    ensures Inv(Run(s, steps))
    decreases |steps|
  {
    if steps != [] {
      StepKeepsInv(s, steps[0]);
      RunKeepsInv(Do(s, steps[0]), steps[1..]);
    }
  }
}

module SingleFlight {
  import opened Bytes

  datatype Phase = Loading | SlotCleared | Flagged

  datatype Thread =
    | Resting
    | Looking(p: PageId)                               // about to look in the cache
    | Leading(p: PageId, load: nat, phase: Phase)
    | Following(p: PageId, load: nat)                  // about to test `done`
    | Registered(p: PageId, load: nat, notified: bool)
    | Parked(p: PageId, load: nat, notified: bool)

  datatype PageLoad = PageLoad(page: PageId, done: bool, leader: nat)

  datatype State = State(inflight: map<PageId, nat>, loads: map<nat, PageLoad>, threads: map<nat, Thread>)

  datatype Step =
    | Request(t: nat, p: PageId)
    | Hit(t: nat)
    | Miss(t: nat, newLoad: nat)
    | ClearSlot(t: nat)
    | SetDone(t: nat)
    | NotifyAll(t: nat)
    | TestDone(t: nat)
    | Recheck(t: nat)
    | Wake(t: nat)

  predicate Enabled(s: State, step: Step) {
    match step
    case Request(t, p) => t in s.threads && s.threads[t].Resting?
    case Hit(t) => t in s.threads && s.threads[t].Looking?
    case Miss(t, n) => t in s.threads && s.threads[t].Looking? && n !in s.loads
    case ClearSlot(t) => t in s.threads && s.threads[t].Leading? && s.threads[t].phase.Loading?
    case SetDone(t) => t in s.threads && s.threads[t].Leading? && s.threads[t].phase.SlotCleared? && s.threads[t].load in s.loads
    case NotifyAll(t) => t in s.threads && s.threads[t].Leading? && s.threads[t].phase.Flagged?
    case TestDone(t) => t in s.threads && s.threads[t].Following? && s.threads[t].load in s.loads
    case Recheck(t) => t in s.threads && s.threads[t].Registered? && s.threads[t].load in s.loads
    case Wake(t) => t in s.threads && s.threads[t].Parked? && s.threads[t].notified
  }

  function Notified(x: Thread, load: nat): Thread {
    if (x.Registered? || x.Parked?) && x.load == load then x.(notified := true) else x
  }

  function Do(s: State, step: Step): State
    requires Enabled(s, step)
  {
    match step
    case Request(t, p) => s.(threads := s.threads[t := Looking(p)])
    case Hit(t) => s.(threads := s.threads[t := Resting])
    case Miss(t, n) =>
      var p := s.threads[t].p;
      if p in s.inflight then s.(threads := s.threads[t := Following(p, s.inflight[p])])
      else State(s.inflight[p := n], s.loads[n := PageLoad(p, false, t)], s.threads[t := Leading(p, n, Loading)])
    case ClearSlot(t) =>
      var Leading(p, n, _) := s.threads[t];
      s.(inflight := s.inflight - {p}, threads := s.threads[t := Leading(p, n, SlotCleared)])
    case SetDone(t) =>
      var Leading(p, n, _) := s.threads[t];
      s.(loads := s.loads[n := s.loads[n].(done := true)], threads := s.threads[t := Leading(p, n, Flagged)])
    case NotifyAll(t) =>
      var n := s.threads[t].load;
      s.(threads := map u | u in s.threads :: if u == t then Resting else Notified(s.threads[u], n))
    case TestDone(t) =>
      var Following(p, n) := s.threads[t];
      s.(threads := s.threads[t := if s.loads[n].done then Looking(p) else Registered(p, n, false)])
    case Recheck(t) =>
      var Registered(p, n, notified) := s.threads[t];
      s.(threads := s.threads[t := if s.loads[n].done then Looking(p) else Parked(p, n, notified)])
    case Wake(t) =>
      s.(threads := s.threads[t := Following(s.threads[t].p, s.threads[t].load)])
  }

  /** The leader of load `n` has not yet notified. */
  ghost predicate StillLed(s: State, n: nat)
    requires n in s.loads
  {
    var t := s.loads[n].leader;
    t in s.threads && s.threads[t].Leading? && s.threads[t].load == n && s.threads[t].p == s.loads[n].page
  }

  ghost predicate LoadOk(s: State, n: nat)
    requires n in s.loads
  {
    !s.loads[n].done ==> StillLed(s, n) && !s.threads[s.loads[n].leader].phase.Flagged?
  }

  ghost predicate ThreadOk(s: State, t: nat)
    requires t in s.threads
  {
    match s.threads[t]
    case Leading(p, n, phase) =>
      && n in s.loads && s.loads[n].leader == t && s.loads[n].page == p
      && (phase.Loading? ==> p in s.inflight && s.inflight[p] == n)
      && (s.loads[n].done <==> phase.Flagged?)
    case Following(p, n) => n in s.loads
    case Registered(p, n, notified) => n in s.loads
    case Parked(p, n, notified) => n in s.loads && (!notified ==> StillLed(s, n))
    case _ => true
  }

  ghost predicate SlotOk(s: State, p: PageId)
    requires p in s.inflight
  {
    && s.inflight[p] in s.loads && s.loads[s.inflight[p]].page == p
    && StillLed(s, s.inflight[p]) && s.threads[s.loads[s.inflight[p]].leader].phase.Loading?
  }

  ghost predicate Inv(s: State) {
    && (forall t :: t in s.threads ==> ThreadOk(s, t))
    && (forall n :: n in s.loads ==> LoadOk(s, n))
    && (forall p :: p in s.inflight ==> SlotOk(s, p))
  }

  /** A step that changes only thread `t`, from a non-leading state to a non-leading state. */
  lemma FollowerStep(s: State, s': State, t: nat, x: Thread)
    requires Inv(s) && t in s.threads && !s.threads[t].Leading? && !x.Leading?
    requires s' == s.(threads := s.threads[t := x])
    requires ThreadOk(s', t)
    ensures Inv(s')
  {
    forall n | n in s.loads
      ensures StillLed(s, n) ==> StillLed(s', n)
      ensures LoadOk(s', n)
    {
      assert LoadOk(s, n);
    }
    forall u | u in s'.threads
      ensures ThreadOk(s', u)
    {
      if u != t { assert ThreadOk(s, u); }
    }
    forall p | p in s'.inflight
      ensures SlotOk(s', p)
    {
      assert SlotOk(s, p);
    }
  }

  lemma RecheckKeeps(s: State, t: nat)
    requires Inv(s) && Enabled(s, Recheck(t))
    ensures Inv(Do(s, Recheck(t)))
  {
    var s' := Do(s, Recheck(t));
    var n := s.threads[t].load;
    assert LoadOk(s, n);
    assert StillLed(s, n) ==> StillLed(s', n);
    FollowerStep(s, s', t, s'.threads[t]);
  }

  lemma MissKeeps(s: State, t: nat, n: nat)
    requires Inv(s) && Enabled(s, Miss(t, n))
    ensures Inv(Do(s, Miss(t, n)))
  {
    var s' := Do(s, Miss(t, n));
    var p := s.threads[t].p;
    if p in s.inflight {
      assert SlotOk(s, p);
      FollowerStep(s, s', t, s'.threads[t]);
    } else {
      forall k | k in s'.loads
        ensures LoadOk(s', k)
        ensures k in s.loads && StillLed(s, k) ==> StillLed(s', k)
      {
        if k in s.loads { assert LoadOk(s, k); }
      }
      forall u | u in s'.threads
        ensures ThreadOk(s', u)
      {
        assert ThreadOk(s, u);
      }
      forall q | q in s'.inflight
        ensures SlotOk(s', q)
      {
        if q != p { assert SlotOk(s, q); }
      }
    }
  }

  /** The leader moves on to its next phase. */
  lemma LeaderStepKeeps(s: State, step: Step)
    requires Inv(s) && Enabled(s, step) && (step.ClearSlot? || step.SetDone?)
    ensures Inv(Do(s, step))
  {
    var s' := Do(s, step);
    var t := step.t;
    assert ThreadOk(s, t);
    forall k | k in s'.loads
      ensures LoadOk(s', k)
      ensures StillLed(s, k) ==> StillLed(s', k)
    {
      assert LoadOk(s, k);
    }
    forall u | u in s'.threads
      ensures ThreadOk(s', u)
    {
      assert ThreadOk(s, u);
    }
    forall q | q in s'.inflight
      ensures SlotOk(s', q)
    {
      assert SlotOk(s, q);
    }
  }

  lemma NotifyKeeps(s: State, t: nat)
    requires Inv(s) && Enabled(s, NotifyAll(t))
    ensures Inv(Do(s, NotifyAll(t)))
  {
    var s' := Do(s, NotifyAll(t));
    assert ThreadOk(s, t);
    var n := s.threads[t].load;
    forall k | k in s'.loads
      ensures LoadOk(s', k)
      ensures k != n && StillLed(s, k) ==> StillLed(s', k)
    {
      assert LoadOk(s, k);
    }
    forall u | u in s'.threads
      ensures ThreadOk(s', u)
    {
      assert ThreadOk(s, u);
    }
    forall q | q in s'.inflight
      ensures SlotOk(s', q)
    {
      assert SlotOk(s, q);
    }
  }

  lemma StepKeepsInv(s: State, step: Step)
    requires Inv(s) && Enabled(s, step)
    ensures Inv(Do(s, step))
  {
    var s' := Do(s, step);
    match step {
      case Miss(t, n) => MissKeeps(s, t, n);
      case ClearSlot(t) => LeaderStepKeeps(s, step);
      case SetDone(t) => LeaderStepKeeps(s, step);
      case NotifyAll(t) => NotifyKeeps(s, t);
      case Recheck(t) => RecheckKeeps(s, t);
      case Request(t, p) => FollowerStep(s, s', t, s'.threads[t]);
      case Hit(t) => FollowerStep(s, s', t, s'.threads[t]);
      case TestDone(t) => FollowerStep(s, s', t, s'.threads[t]);
      case Wake(t) => assert ThreadOk(s, t); FollowerStep(s, s', t, s'.threads[t]);
    }
  }

  ghost predicate ValidRun(s: State, steps: seq<Step>)
    decreases |steps|
  {
    steps == [] || (Enabled(s, steps[0]) && ValidRun(Do(s, steps[0]), steps[1..]))
  }

  ghost function Run(s: State, steps: seq<Step>): State
    requires ValidRun(s, steps)
    decreases |steps|
  {
    if steps == [] then s else Run(Do(s, steps[0]), steps[1..])
  }

  lemma {:induction false} RunKeepsInv(s: State, steps: seq<Step>)
    requires Inv(s) && ValidRun(s, steps)
    ensures Inv(Run(s, steps))
    decreases |steps|
  {
    if steps != [] {
      StepKeepsInv(s, steps[0]);
      RunKeepsInv(Do(s, steps[0]), steps[1..]);
    }
  }

  ghost predicate IsLoading(s: State, t: nat, p: PageId) {
    t in s.threads && s.threads[t].Leading? && s.threads[t].phase.Loading? && s.threads[t].p == p
  }

  ghost predicate Init(s: State) {
    s.inflight == map[] && s.loads == map[] && forall t :: t in s.threads ==> s.threads[t].Resting?
  }

  /** No follower sleeps past its leader, and a page never has two loads running at once. */
  lemma NoStrandedFollower(s: State, steps: seq<Step>)
    requires Init(s) && ValidRun(s, steps)
    ensures
      var r := Run(s, steps);
      && (forall t :: t in r.threads && r.threads[t].Parked? && !r.threads[t].notified ==>
            r.threads[t].load in r.loads && StillLed(r, r.threads[t].load))
      && (forall t, u, p :: IsLoading(r, t, p) && IsLoading(r, u, p) ==> t == u)
  {
    RunKeepsInv(s, steps);
    var r := Run(s, steps);
    forall t | t in r.threads
      ensures ThreadOk(r, t)
    {
    }
  }
}
