/**
 The reaper's escalation: an abandoned session is ended within a fixed number of sweeps when
 forced deletes work, and keeps its slot for ever when no delete works.
 */
module SessionLiveness {
  import opened Wrappers
  import opened Teardown
  import opened Sessions
  import opened SessionSafety

  // ---------------------------------------------------------------------------
  // One session's share of a sweep
  // ---------------------------------------------------------------------------

  /** A session's status and its two failure counts. */
  datatype Local = Local(status: Status, stops: nat, teardowns: nat)

  function LocalOf(r: Reaping, id: nat): Local
    requires id in r.world.rows
  {
    Local(r.world.rows[id].status, CountOf(r.counters.stops, id), CountOf(r.counters.teardowns, id))
  }

  /** Stopped; or, from the third failure in a row on, ended if the forced delete works. */
  function SuspendLocal(l: Local, id: nat, a: Adversary): Local {
    if a.stop(id) then Local(IdleStopped, 0, l.teardowns)
    else if l.stops >= 2 && a.forceAfterStop(id).Works? then Local(Ended, 0, l.teardowns)
    else l.(stops := l.stops + 1)
  }

  /** Ended when confirmed; or, from the third failure in a row on, if the forced delete works. */
  function TearDownLocal(l: Local, id: nat, a: Adversary): Local {
    if Confirmed(a.verify(id)) then Local(Ended, 0, 0)
    else if l.teardowns >= 2 && a.forceAfterTeardown(id).Works? then Local(Ended, 0, 0)
    else l.(teardowns := l.teardowns + 1)
  }

  /** Everything about the row but its status stays. */
  ghost predicate SameButStatus(r: Row, r': Row) {
    r' == r.(status := r'.status)
  }

  /** From `r` to `r'` session `id` has come to `l`, and nothing else about it changed. */
  ghost predicate SeenBy(r: Reaping, r': Reaping, id: nat, l: Local) {
    && id in r.world.rows && id in r'.world.rows
    && LocalOf(r', id) == l
    && SameButStatus(r.world.rows[id], r'.world.rows[id])
  }

  lemma SuspendIsLocal(r: Reaping, id: nat, a: Adversary)
    requires Consistent(r.world) && id in r.world.rows && r.world.rows[id].status == Running
    ensures var r' := Suspend(r, id, a);
            && LocalOf(r', id) == SuspendLocal(LocalOf(r, id), id, a)
            && SameButStatus(r.world.rows[id], r'.world.rows[id])
  {
    var w := r.world;
    assert Settled(w, w.rows[id]);
    var p := w.rows[id].project.value;
    RowUpdateKeeps(w, id, w.rows[id].(status := IdleStopped), w.server);
    RowUpdateKeeps(w, id, w.rows[id].(status := Ended), w.server.(live := w.server.live - {p}));
  }

  lemma TearDownIsLocal(r: Reaping, id: nat, a: Adversary)
    requires Consistent(r.world) && id in r.world.rows && r.world.rows[id].status == IdleStopped
    ensures var r' := TearDown(r, id, a);
            && LocalOf(r', id) == TearDownLocal(LocalOf(r, id), id, a)
            && SameButStatus(r.world.rows[id], r'.world.rows[id])
  {
    var w := r.world;
    assert Settled(w, w.rows[id]);
    var p := w.rows[id].project.value;
    RowUpdateKeeps(w, id, w.rows[id].(status := Ended), w.server.(live := w.server.live - {p}));
  }

  lemma OthersUntouched(r: Reaping, id: nat, other: nat, a: Adversary)
    requires id in r.world.rows && other in r.world.rows && other != id
    ensures Suspend(r, id, a).world.rows[other] == r.world.rows[other]
    ensures LocalOf(Suspend(r, id, a), other) == LocalOf(r, other)
    ensures TearDown(r, id, a).world.rows[other] == r.world.rows[other]
    ensures LocalOf(TearDown(r, id, a), other) == LocalOf(r, other)
  {
    hide Conflicts, Deleted, AfterTeardown, Confirmed;
  }

  ghost predicate SuspendReady(r: Reaping, id: nat) {
    Consistent(r.world) && id in r.world.rows && r.world.rows[id].status == Running
  }

  lemma SuspendNextIsLocal(r: Reaping, next: nat, a: Adversary, id: nat)
    requires SuspendReady(r, next) && id in r.world.rows
    ensures SeenBy(r, Suspend(r, next, a), id,
                   if id == next then SuspendLocal(LocalOf(r, id), id, a) else LocalOf(r, id))
  {
    if next == id {
      SuspendIsLocal(r, id, a);
    } else {
      OthersUntouched(r, next, id, a);
    }
  }

  lemma SuspendAllReady(r: Reaping, ids: seq<nat>, a: Adversary)
    requires Consistent(r.world) && ids != []
    requires forall i :: i in ids ==> i in r.world.rows && r.world.rows[i].status == Running
    requires forall i, j :: 0 <= i < j < |ids| ==> ids[i] != ids[j]
    ensures ids[|ids| - 1] !in ids[..|ids| - 1]
    ensures SuspendReady(SuspendAll(r, ids[..|ids| - 1], a), ids[|ids| - 1])
  {
    SuspendAllKeeps(r, ids[..|ids| - 1], a);
  }

  lemma {:induction false} SuspendAllIsLocal(r: Reaping, ids: seq<nat>, a: Adversary, id: nat)
    requires Consistent(r.world) && id in r.world.rows
    requires forall i :: i in ids ==> i in r.world.rows && r.world.rows[i].status == Running
    requires forall i, j :: 0 <= i < j < |ids| ==> ids[i] != ids[j]
    ensures SeenBy(r, SuspendAll(r, ids, a), id,
                   if id in ids then SuspendLocal(LocalOf(r, id), id, a) else LocalOf(r, id))
  {
    hide Consistent, Suspend, SuspendLocal, SuspendReady;
    if ids == [] {
    } else {
      var n := |ids| - 1;
      var before := SuspendAll(r, ids[..n], a);
      SuspendAllIsLocal(r, ids[..n], a, id);
      SuspendAllReady(r, ids, a);
      SuspendNextIsLocal(before, ids[n], a, id);
      assert SuspendAll(r, ids, a) == Suspend(before, ids[n], a);
      assert id in ids <==> id in ids[..n] || id == ids[n];
    }
  }

  ghost predicate TearDownReady(r: Reaping, id: nat) {
    Consistent(r.world) && id in r.world.rows && r.world.rows[id].status == IdleStopped
  }

  lemma TearDownNextIsLocal(r: Reaping, next: nat, a: Adversary, id: nat)
    requires TearDownReady(r, next) && id in r.world.rows
    ensures SeenBy(r, TearDown(r, next, a), id,
                   if id == next then TearDownLocal(LocalOf(r, id), id, a) else LocalOf(r, id))
  {
    if next == id {
      TearDownIsLocal(r, id, a);
    } else {
      OthersUntouched(r, next, id, a);
    }
  }

  lemma TearDownAllReady(r: Reaping, ids: seq<nat>, a: Adversary)
    requires Consistent(r.world) && ids != []
    requires forall i :: i in ids ==> i in r.world.rows && r.world.rows[i].status == IdleStopped
    requires forall i, j :: 0 <= i < j < |ids| ==> ids[i] != ids[j]
    ensures ids[|ids| - 1] !in ids[..|ids| - 1]
    ensures TearDownReady(TearDownAll(r, ids[..|ids| - 1], a), ids[|ids| - 1])
  {
    TearDownAllKeeps(r, ids[..|ids| - 1], a);
  }

  lemma {:induction false} TearDownAllIsLocal(r: Reaping, ids: seq<nat>, a: Adversary, id: nat)
    requires Consistent(r.world) && id in r.world.rows
    requires forall i :: i in ids ==> i in r.world.rows && r.world.rows[i].status == IdleStopped
    requires forall i, j :: 0 <= i < j < |ids| ==> ids[i] != ids[j]
    ensures SeenBy(r, TearDownAll(r, ids, a), id,
                   if id in ids then TearDownLocal(LocalOf(r, id), id, a) else LocalOf(r, id))
  {
    hide Consistent, TearDown, TearDownLocal, TearDownReady;
    if ids == [] {
    } else {
      var n := |ids| - 1;
      var before := TearDownAll(r, ids[..n], a);
      TearDownAllIsLocal(r, ids[..n], a, id);
      TearDownAllReady(r, ids, a);
      TearDownNextIsLocal(before, ids[n], a, id);
      assert TearDownAll(r, ids, a) == TearDown(before, ids[n], a);
      assert id in ids <==> id in ids[..n] || id == ids[n];
    }
  }

  /** The whole sweep, seen by one session. */
  lemma SweepIsLocal(c: Config, s: State, id: nat, now: int, a: Adversary, o: Orders)
    requires Safe(s) && id in s.Rows() && Enabled(c, s, SweepEvent(now, a, o))
    ensures var l := LocalOf(s.reaping, id);
            var l1 := if a.runningQuery && id in o.running then SuspendLocal(l, id, a) else l;
            var l2 := if a.idleQuery && id in o.idle then TearDownLocal(l1, id, a) else l1;
            && LocalOf(Tier1(s.reaping, a, o), id) == l1
            && LocalOf(Sweep(s.reaping, a, o), id) == l2
            && SameButStatus(s.Rows()[id], Tier1(s.reaping, a, o).world.rows[id])
            && SameButStatus(s.Rows()[id], Sweep(s.reaping, a, o).world.rows[id])
  {
    if a.runningQuery {
      SuspendAllIsLocal(s.reaping, o.running, a, id);
      SuspendAllKeeps(s.reaping, o.running, a);
    }
    if a.idleQuery {
      TearDownAllIsLocal(Tier1(s.reaping, a, o), o.idle, a, id);
    }
  }

  // ---------------------------------------------------------------------------
  // Ended within five sweeps
  // ---------------------------------------------------------------------------

  function AtLeastOne(n: int): nat {
    if n < 1 then 1 else n
  }

  /** Sweeps that may still pass before the session is ended. */
  function Left(l: Local): nat {
    match l.status
    case Running => AtLeastOne(3 - l.stops) + AtLeastOne(3 - l.teardowns) - 1
    case IdleStopped => AtLeastOne(3 - l.teardowns)
    case _ => 0
  }

  predicate Reapable(s: Status) {
    s.Running? || s.IdleStopped?
  }

  /** The sweep sees the session as past both thresholds, its queries answer, and a forced
      delete of this session works. Stops and verified teardowns may fail at will. */
  ghost predicate ForcesThrough(c: Config, e: Event, id: nat, lastActive: int) {
    e.SweepEvent? ==>
      && lastActive < e.now - c.thresholds.IdleSeconds()
      && lastActive < e.now - c.thresholds.TtlSeconds()
      && e.adversary.runningQuery && e.adversary.idleQuery
      && e.adversary.forceAfterStop(id).Works?
      && e.adversary.forceAfterTeardown(id).Works?
  }

  /** A session past both thresholds goes through the tier of its status. */
  lemma LocalComesCloser(l: Local, id: nat, a: Adversary)
    requires Reapable(l.status) && a.forceAfterStop(id).Works? && a.forceAfterTeardown(id).Works?
    ensures var l1 := if l.status == Running then SuspendLocal(l, id, a) else l;
            var l2 := if l1.status == IdleStopped then TearDownLocal(l1, id, a) else l1;
            l2.status == Ended || (Reapable(l2.status) && Left(l2) < Left(l))
  {
    hide Confirmed;
  }

  lemma SweepComesCloser(c: Config, s: State, id: nat, e: Event)
    requires Safe(s) && id in s.Rows() && e.SweepEvent? && Enabled(c, s, e)
    requires Reapable(s.Rows()[id].status) && ForcesThrough(c, e, id, s.Rows()[id].lastActive)
    ensures var l, l' := LocalOf(s.reaping, id), LocalOf(Step(c, s, e).reaping, id);
            l'.status == Ended || (Reapable(l'.status) && Left(l') < Left(l))
    ensures SameButStatus(s.Rows()[id], Step(c, s, e).Rows()[id])
  {
    SweepIsLocal(c, s, id, e.now, e.adversary, e.orders);
    LocalComesCloser(LocalOf(s.reaping, id), id, e.adversary);
    hide Safe, Sweep, Tier1, SuspendLocal, TearDownLocal, Left;
    var middle := Tier1(s.reaping, e.adversary, e.orders).world.rows;
    assert id in Stale(s.Rows(), Running, e.now, c.thresholds.IdleSeconds()) <==> s.Rows()[id].status == Running;
    assert id in Stale(middle, IdleStopped, e.now, c.thresholds.TtlSeconds()) <==> middle[id].status == IdleStopped;
  }

  /** A user's action on this very session. */
  predicate Touches(e: Event, id: nat) {
    match e
    case LaunchEvent(_, found) => found == Some(id)
    case HeartbeatEvent(i, _) => i == id
    case EndLabEvent(i, _) => i == id
    case _ => false
  }

  /** Whatever happens to others leaves this session as it was. */
  lemma ElsewhereChangesNothing(c: Config, s: State, e: Event, id: nat)
    requires Safe(s) && id in s.Rows() && s.Rows()[id].project.Some?
    requires Enabled(c, s, e) && !Touches(e, id) && !e.SweepEvent?
    ensures id in Step(c, s, e).Rows() && Step(c, s, e).Rows()[id] == s.Rows()[id]
    ensures LocalOf(Step(c, s, e).reaping, id) == LocalOf(s.reaping, id)
  {
    if e.ProvisionEvent? {
      assert e.id != id;
    }
  }

  lemma EndedStays(c: Config, s: State, e: Event, id: nat)
    requires Safe(s) && id in s.Rows() && s.Rows()[id].status == Ended && s.Rows()[id].project.Some?
    requires Enabled(c, s, e) && !Touches(e, id)
    ensures id in Step(c, s, e).Rows() && Step(c, s, e).Rows()[id] == s.Rows()[id]
  {
    if e.SweepEvent? {
      SweepIsLocal(c, s, id, e.now, e.adversary, e.orders);
    } else {
      ElsewhereChangesNothing(c, s, e, id);
    }
  }

  /** How many of the steps from `m` to `n` are sweeps. */
  function Sweeps(evs: seq<Event>, m: nat, n: nat): nat
    requires m <= n <= |evs|
    decreases n
  {
    if m == n then 0 else Sweeps(evs, m, n - 1) + (if evs[n - 1].SweepEvent? then 1 else 0)
  }

  /** The session is ended, or at most `budget` sweeps away from it. */
  ghost predicate Within(s: State, id: nat, row: Row, budget: int) {
    && id in s.Rows() && SameButStatus(row, s.Rows()[id]) && row.project.Some?
    && (s.Rows()[id].status == Ended
        || (Reapable(s.Rows()[id].status) && Left(LocalOf(s.reaping, id)) <= budget))
  }

  lemma StepCountsDown(c: Config, s: State, e: Event, id: nat, row: Row, budget: int)
    requires Safe(s) && Enabled(c, s, e) && Within(s, id, row, budget)
    requires !Touches(e, id) && ForcesThrough(c, e, id, row.lastActive)
    ensures Within(Step(c, s, e), id, row, if e.SweepEvent? then budget - 1 else budget)
  {
    if s.Rows()[id].status == Ended {
      EndedStays(c, s, e, id);
    } else if e.SweepEvent? {
      SweepComesCloser(c, s, id, e);
    } else {
      ElsewhereChangesNothing(c, s, e, id);
    }
  }

  lemma {:induction false} Countdown(c: Config, evs: seq<Event>, states: seq<State>, m: nat, n: nat, id: nat,
                                     row: Row, budget: int)
    requires IsRun(c, evs, states) && m <= n < |states|
    requires Within(states[m], id, row, budget)
    requires forall i :: m <= i < n ==> !Touches(evs[i], id)
    requires forall i :: m <= i < n ==> ForcesThrough(c, evs[i], id, row.lastActive)
    ensures Within(states[n], id, row, budget - Sweeps(evs, m, n))
    decreases n
  {
    hide Within, Step, Safe, Enabled, Touches, ForcesThrough;
    if m < n {
      Countdown(c, evs, states, m, n - 1, id, row, budget);
      RunIsSafe(c, evs, states, n - 1);
      StepCountsDown(c, states[n - 1], evs[n - 1], id, row, budget - Sweeps(evs, m, n - 1));
    }
  }

  /** Five sweeps are enough from any state of the counters. */
  lemma FiveAtMost(s: State, id: nat)
    requires Safe(s) && id in s.Rows() && Reapable(s.Rows()[id].status)
    ensures Within(s, id, s.Rows()[id], 5)
  {
    assert Settled(s.World(), s.Rows()[id]);
    hide Consistent;
  }

  /** Main result: a session nobody touches, past both thresholds, is ended within five sweeps (three failed stops
      and three failed teardowns, less one) if the forced deletes work, whatever its counters were, whatever stops and verifications do, and whatever happens in between. */
  lemma AbandonedIsEnded(c: Config, evs: seq<Event>, states: seq<State>, m: nat, n: nat, id: nat)
    requires IsRun(c, evs, states) && m <= n < |states|
    requires id in states[m].Rows() && Reapable(states[m].Rows()[id].status)
    requires forall i :: m <= i < n ==> !Touches(evs[i], id)
    requires forall i :: m <= i < n ==> ForcesThrough(c, evs[i], id, states[m].Rows()[id].lastActive)
    requires Sweeps(evs, m, n) >= 5
    ensures id in states[n].Rows() && states[n].Rows()[id].status == Ended
  {
    hide IsRun, Safe, Touches, ForcesThrough, Sweeps;
    RunIsSafe(c, evs, states, m);
    FiveAtMost(states[m], id);
    Countdown(c, evs, states, m, n, id, states[m].Rows()[id], 5);
  }

  // ---------------------------------------------------------------------------
  // Never ended while every delete fails
  // ---------------------------------------------------------------------------

  ghost predicate DeletesFail(e: Event, id: nat) {
    match e
    case EndLabEvent(i, f) => i == id ==> !f.Works?
    case SweepEvent(_, a, _) =>
      !a.forceAfterStop(id).Works? && !a.forceAfterTeardown(id).Works? && !a.verify(id).deletion.Works?
    case _ => true
  }

  lemma FailedDeleteKeepsSlot(c: Config, s: State, e: Event, id: nat)
    requires Safe(s) && id in s.Rows() && Reapable(s.Rows()[id].status)
    requires Enabled(c, s, e) && DeletesFail(e, id)
    ensures id in Step(c, s, e).Rows() && Reapable(Step(c, s, e).Rows()[id].status)
  {
    assert Settled(s.World(), s.Rows()[id]);
    hide Safe, Sweep, Tier1, Provision, Suspend, TearDown, ActiveCount, Conflicts;
    match e
    case SweepEvent(now, a, o) => SweepIsLocal(c, s, id, now, a, o);
    case LaunchEvent(call, found) => if found != Some(id) { ElsewhereChangesNothing(c, s, e, id); }
    case ProvisionEvent(i, _) => ElsewhereChangesNothing(c, s, e, id);
    case EndLabEvent(i, _) => if i != id { ElsewhereChangesNothing(c, s, e, id); }
    case _ =>
  }

  /** Main result: as long as no delete of its project works, a session keeps its slot, for
      any number of sweeps and through every other action. */
  lemma {:induction false} UndeletableIsNeverEnded(c: Config, evs: seq<Event>, states: seq<State>, m: nat, n: nat, id: nat)
    requires IsRun(c, evs, states) && m <= n < |states|
    requires id in states[m].Rows() && Reapable(states[m].Rows()[id].status)
    requires forall i :: m <= i < n ==> DeletesFail(evs[i], id)
    ensures id in states[n].Rows() && Reapable(states[n].Rows()[id].status)
    decreases n
  {
    if m < n {
      UndeletableIsNeverEnded(c, evs, states, m, n - 1, id);
      RunIsSafe(c, evs, states, n - 1);
      FailedDeleteKeepsSlot(c, states[n - 1], evs[n - 1], id);
    }
  }
}
