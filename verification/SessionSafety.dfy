/**
 Safety of the session lifecycle over every run of launches, provisioning runs, heartbeats,
 end-lab calls, reaper sweeps and projects vanishing by themselves, against a server that
 may fail any call with or without effect.
 */
module SessionSafety {
  import opened Sizes
  import opened Wrappers
  import opened Teardown
  import opened Sessions

  // ---------------------------------------------------------------------------
  // The transition system
  // ---------------------------------------------------------------------------

  datatype Config = Config(maxSessions: int, thresholds: Thresholds)

  /** `pending` holds the sessions whose provisioning goroutine has not finished. */
  datatype State = State(reaping: Reaping, pending: set<nat>) {
    function World(): World {
      reaping.world
    }

    function Rows(): Rows {
      reaping.world.rows
    }

    function Live(): set<nat> {
      reaping.world.server.live
    }
  }

  datatype Event =
    | LaunchEvent(call: LaunchCall, found: Option<nat>)
    | ProvisionEvent(id: nat, provision: ProvisionFaults)
    | HeartbeatEvent(id: nat, now: int)
    | EndLabEvent(id: nat, fault: Fault)
    | SweepEvent(now: int, adversary: Adversary, orders: Orders)
    | VanishEvent(project: nat)

  /** What the table and the scheduler allow to happen next. */
  ghost predicate Enabled(c: Config, s: State, e: Event) {
    match e
    case LaunchEvent(call, found) =>
      && (found.Some? ==> IsActiveFor(s.Rows(), found.value, call.user, call.lab))
      && (found.None? && call.isPro && call.hasNodes && call.db.find ==>
            forall id :: !IsActiveFor(s.Rows(), id, call.user, call.lab))
    case ProvisionEvent(id, _) => id in s.pending
    case SweepEvent(now, a, o) =>
      && (forall i :: i in o.running || i in o.idle ==> i in s.Rows())
      && Queried(s.reaping, c.thresholds, now, a, o)
    case _ => true
  }

  function WithWorld(s: State, w: World): State {
    s.(reaping := s.reaping.(world := w))
  }

  ghost function Step(c: Config, s: State, e: Event): State
    requires Enabled(c, s, e)
  {
    match e
    case LaunchEvent(call, found) =>
      var (w, result) := Launch(c.maxSessions, s.World(), found, call);
      WithWorld(if result.Launched? then s.(pending := s.pending + {result.id}) else s, w)
    case ProvisionEvent(id, f) =>
      WithWorld(s.(pending := s.pending - {id}), Provision(s.World(), id, f))
    case HeartbeatEvent(id, now) => WithWorld(s, s.World().(rows := Touch(s.Rows(), id, now)))
    case EndLabEvent(id, f) => WithWorld(s, EndLab(s.World(), id, f).0)
    case SweepEvent(now, a, o) => s.(reaping := Sweep(s.reaping, a, o))
    case VanishEvent(p) => WithWorld(s, s.World().(server := Deleted(s.World().server, p, Works)))
  }

  const START := State(Reaping(World(map[], 0, Server({}, 0)), Counters(map[], map[])), {})

  /** A run starts empty, and each state is one step after the one before. */
  ghost predicate IsRun(c: Config, evs: seq<Event>, states: seq<State>) {
    && |states| == |evs| + 1
    && states[0] == START
    && forall i :: 0 <= i < |evs| ==> Enabled(c, states[i], evs[i]) && states[i + 1] == Step(c, states[i], evs[i])
  }

  // ---------------------------------------------------------------------------
  // The invariant
  // ---------------------------------------------------------------------------

  /** Rows, projects and the server agree. */
  ghost predicate Consistent(w: World) {
    && OneActivePerUserLab(w.rows)
    && (forall id :: id in w.rows ==> id < w.nextId)
    && (forall p :: p in w.server.live ==> p < w.server.next)
    && (forall id :: id in w.rows && w.rows[id].project.Some? ==> w.rows[id].project.value < w.server.next)
    && (forall i, j :: i in w.rows && j in w.rows && SameProject(w.rows[i], w.rows[j]) ==> i == j)
    && (forall id :: id in w.rows ==> Settled(w, w.rows[id]))
  }

  predicate SameProject(r: Row, r': Row) {
    r.project.Some? && r.project == r'.project
  }

  /** What a row's status says about its project. */
  ghost predicate Settled(w: World, r: Row) {
    match r.status
    case Provisioning => r.project.None?
    case Failed => r.project.None?
    case Running => r.project.Some?
    case IdleStopped => r.project.Some?
    case Ended => r.project.Some? ==> r.project.value !in w.server.live
  }

  ghost predicate Safe(s: State) {
    && Consistent(s.World())
    && (forall id :: id in s.pending ==> id in s.Rows() && s.Rows()[id].project.None?)
    && (forall id :: id in s.Rows() && s.Rows()[id].status == Provisioning ==> id in s.pending)
  }

  /** One row changes its status, or has a project deleted that only it records. */
  lemma RowUpdateKeeps(w: World, id: nat, r: Row, g: Server)
    requires Consistent(w) && id in w.rows
    requires r.project == w.rows[id].project && r.user == w.rows[id].user && r.lab == w.rows[id].lab
    requires Active(r.status) ==> Active(w.rows[id].status)
    requires g == w.server || (w.rows[id].project.Some? && g == w.server.(live := w.server.live - {w.rows[id].project.value}))
    requires Settled(w.(server := g), r)
    ensures !Conflicts(w.rows, id, r)
    ensures Consistent(w.(rows := w.rows[id := r], server := g))
  {
    var w' := w.(rows := w.rows[id := r], server := g);
    forall i | i in w'.rows ensures Settled(w', w'.rows[i]) {
      if i != id {
        assert Settled(w, w.rows[i]);
      }
    }
    forall i, j | i in w'.rows && Active(w'.rows[i].status) && IsActiveFor(w'.rows, j, w'.rows[i].user, w'.rows[i].lab)
      ensures i == j
    {
      assert IsActiveFor(w.rows, j, w.rows[i].user, w.rows[i].lab);
    }
  }

  lemma DeleteKeeps(w: World, p: nat, f: Fault)
    requires Consistent(w)
    ensures Consistent(w.(server := Deleted(w.server, p, f)))
  {
    var w' := w.(server := Deleted(w.server, p, f));
    forall i | i in w'.rows ensures Settled(w', w'.rows[i]) {
      assert Settled(w, w.rows[i]);
    }
  }

  /** What one suspension does to table and server, when the table accepts its updates. */
  lemma SuspendOutcome(r: Reaping, id: nat, a: Adversary, row: Row)
    requires id in r.world.rows && row == r.world.rows[id] && row.project.Some?
    requires forall s :: s == IdleStopped || s == Ended ==> !Conflicts(r.world.rows, id, row.(status := s))
    ensures var w := r.world;
            Suspend(r, id, a).world ==
            if a.stop(id) then w.(rows := w.rows[id := row.(status := IdleStopped)])
            else if CountOf(r.counters.stops, id) + 1 < MAX_STOP_ATTEMPTS then w
            else
              var w1 := w.(server := Deleted(w.server, row.project.value, a.forceAfterStop(id)));
              if a.forceAfterStop(id).Works? then w1.(rows := w.rows[id := row.(status := Ended)]) else w1
  {
    hide Conflicts;
  }

  lemma SuspendKeeps(r: Reaping, id: nat, a: Adversary)
    requires Consistent(r.world) && id in r.world.rows && r.world.rows[id].status == Running
    ensures Consistent(Suspend(r, id, a).world)
    ensures forall i :: i in r.world.rows && i != id ==> Suspend(r, id, a).world.rows[i] == r.world.rows[i]
    ensures var row := Suspend(r, id, a).world.rows[id];
            row.project == r.world.rows[id].project && row.status != Provisioning && row.status != Failed
  {
    var w, row := r.world, r.world.rows[id];
    assert Settled(w, row);
    hide Consistent, Conflicts, Suspend;
    var p := row.project.value;
    RowUpdateKeeps(w, id, row.(status := IdleStopped), w.server);
    RowUpdateKeeps(w, id, row.(status := Ended), w.server.(live := w.server.live - {p}));
    DeleteKeeps(w, p, a.forceAfterStop(id));
    SuspendOutcome(r, id, a, row);
  }

  /** What one teardown does to table and server, when the table accepts its update. */
  lemma TearDownOutcome(r: Reaping, id: nat, a: Adversary, row: Row)
    requires id in r.world.rows && row == r.world.rows[id] && row.project.Some?
    requires !Conflicts(r.world.rows, id, row.(status := Ended))
    ensures var w := r.world;
            var w1 := w.(server := AfterTeardown(w.server, row.project.value, a.verify(id)));
            var w2 := w1.(server := Deleted(w1.server, row.project.value, a.forceAfterTeardown(id)));
            TearDown(r, id, a).world ==
            if Confirmed(a.verify(id)) then w1.(rows := w.rows[id := row.(status := Ended)])
            else if CountOf(r.counters.teardowns, id) + 1 < MAX_TEARDOWN_ATTEMPTS then w1
            else if a.forceAfterTeardown(id).Works? then w2.(rows := w.rows[id := row.(status := Ended)]) else w2
  {
    hide Conflicts, Confirmed, AfterTeardown, Deleted;
  }

  lemma TeardownServerKeeps(w: World, p: nat, s: Script)
    requires Consistent(w)
    ensures Consistent(w.(server := AfterTeardown(w.server, p, s)))
    ensures Deleted(AfterTeardown(w.server, p, s), p, Works) == w.server.(live := w.server.live - {p})
    ensures Confirmed(s) ==> AfterTeardown(w.server, p, s) == w.server.(live := w.server.live - {p})
  {
    ConfirmedMeansGone(w.server, p, s);
    DeleteKeeps(w, p, s.deletion);
    hide Consistent;
  }

  lemma TearDownKeeps(r: Reaping, id: nat, a: Adversary)
    requires Consistent(r.world) && id in r.world.rows && r.world.rows[id].status == IdleStopped
    ensures Consistent(TearDown(r, id, a).world)
    ensures forall i :: i in r.world.rows && i != id ==> TearDown(r, id, a).world.rows[i] == r.world.rows[i]
    ensures var row := TearDown(r, id, a).world.rows[id];
            row.project == r.world.rows[id].project && row.status != Provisioning && row.status != Failed
  {
    var w, row := r.world, r.world.rows[id];
    assert Settled(w, row);
    hide Consistent, Conflicts, TearDown, AfterTeardown, Deleted, Confirmed;
    var p := row.project.value;
    var gone := w.server.(live := w.server.live - {p});
    RowUpdateKeeps(w, id, row.(status := Ended), gone);
    var w1 := w.(server := AfterTeardown(w.server, p, a.verify(id)));
    TeardownServerKeeps(w, p, a.verify(id));
    DeleteKeeps(w1, p, a.forceAfterTeardown(id));
    TearDownOutcome(r, id, a, row);
  }

  /** Rows keep their project, and no row becomes provisioning or failed. */
  ghost predicate Reaped(before: Rows, after: Rows) {
    && before.Keys == after.Keys
    && forall i :: i in before ==>
         && before[i].project == after[i].project
         && (after[i] == before[i] || (after[i].status != Provisioning && after[i].status != Failed))
  }

  lemma {:induction false} SuspendAllKeeps(r: Reaping, ids: seq<nat>, a: Adversary)
    requires Consistent(r.world)
    requires forall i :: i in ids ==> i in r.world.rows && r.world.rows[i].status == Running
    requires forall i, j :: 0 <= i < j < |ids| ==> ids[i] != ids[j]
    ensures var w := SuspendAll(r, ids, a).world;
            && Consistent(w) && Reaped(r.world.rows, w.rows)
            && forall i :: i in r.world.rows && i !in ids ==> w.rows[i] == r.world.rows[i]
  {
    hide Consistent, Suspend;
    if ids == [] {
    } else {
      var n := |ids| - 1;
      SuspendAllKeeps(r, ids[..n], a);
      assert ids[n] !in ids[..n];
      SuspendKeeps(SuspendAll(r, ids[..n], a), ids[n], a);
    }
  }

  lemma {:induction false} TearDownAllKeeps(r: Reaping, ids: seq<nat>, a: Adversary)
    requires Consistent(r.world)
    requires forall i :: i in ids ==> i in r.world.rows && r.world.rows[i].status == IdleStopped
    requires forall i, j :: 0 <= i < j < |ids| ==> ids[i] != ids[j]
    ensures var w := TearDownAll(r, ids, a).world;
            && Consistent(w) && Reaped(r.world.rows, w.rows)
            && forall i :: i in r.world.rows && i !in ids ==> w.rows[i] == r.world.rows[i]
  {
    hide Consistent, TearDown;
    if ids == [] {
    } else {
      var n := |ids| - 1;
      TearDownAllKeeps(r, ids[..n], a);
      assert ids[n] !in ids[..n];
      TearDownKeeps(TearDownAll(r, ids[..n], a), ids[n], a);
    }
  }

  lemma SweepKeeps(c: Config, s: State, now: int, a: Adversary, o: Orders)
    requires Safe(s) && Enabled(c, s, SweepEvent(now, a, o))
    ensures Safe(Step(c, s, SweepEvent(now, a, o)))
  {
    if a.runningQuery {
      SuspendAllKeeps(s.reaping, o.running, a);
    }
    var middle := Tier1(s.reaping, a, o);
    if a.idleQuery {
      TearDownAllKeeps(middle, o.idle, a);
    }
  }

  lemma ResumeKeeps(w: World, id: nat, c: LaunchCall)
    requires Consistent(w) && id in w.rows && w.rows[id].status == IdleStopped
    ensures w.rows[id].project.Some? && !Refused(w.rows, id, Running)
    ensures var (w', result) := Resume(w, id, c);
            && Consistent(w') && result != NoProjectCrash && !result.Launched?
            && w'.rows.Keys == w.rows.Keys
            && (forall i :: i in w.rows && i != id ==> w'.rows[i] == w.rows[i])
            && w'.rows[id].project == w.rows[id].project && (w'.rows[id].status == IdleStopped || w'.rows[id].status == Running)
  {
    var row := w.rows[id];
    assert Settled(w, row);
    hide Consistent, Conflicts;
    RowUpdateKeeps(w, id, row.(status := Running), w.server);
    RowUpdateKeeps(w, id, row.(status := Running, lastActive := c.now), w.server);
    assert w.rows[id := row.(status := Running)][id := row.(status := Running, lastActive := c.now)]
        == w.rows[id := row.(status := Running, lastActive := c.now)];
  }

  lemma NewSessionKeeps(w: World, r: Row, user: nat, lab: nat)
    requires Consistent(w) && r.project.None? && r.status == Provisioning && r.user == user && r.lab == lab
    requires forall id :: !IsActiveFor(w.rows, id, user, lab)
    ensures !Conflicts(w.rows, w.nextId, r)
    ensures Consistent(w.(rows := w.rows[w.nextId := r], nextId := w.nextId + 1))
  {
    var w' := w.(rows := w.rows[w.nextId := r], nextId := w.nextId + 1);
    forall i | i in w'.rows ensures Settled(w', w'.rows[i]) {
      if i != w.nextId {
        assert Settled(w, w.rows[i]);
      }
    }
    NewRowKeepsConstraint(w.rows, w.nextId, r);
  }

  lemma LaunchKeeps(c: Config, s: State, call: LaunchCall, found: Option<nat>)
    requires Safe(s) && Enabled(c, s, LaunchEvent(call, found))
    ensures Safe(Step(c, s, LaunchEvent(call, found)))
    ensures Launch(c.maxSessions, s.World(), found, call).1 != NoProjectCrash
  {
    hide Consistent, Conflicts, Resume;
    var w := s.World();
    if found.Some? {
      if w.rows[found.value].status == IdleStopped {
        ResumeKeeps(w, found.value, call);
      }
    } else if call.isPro && call.hasNodes && call.db.find {
      forall id: nat ensures !IsActiveFor(w.rows, id, call.user, call.lab) {
        assert !IsActiveFor(s.Rows(), id, call.user, call.lab);
      }
      NewSessionKeeps(w, NewRow(call), call.user, call.lab);
    }
  }

  lemma NewRowKeepsConstraint(rows: Rows, id: nat, r: Row)
    requires OneActivePerUserLab(rows) && !Conflicts(rows, id, r)
    ensures OneActivePerUserLab(rows[id := r])
  {
    var rows' := rows[id := r];
    forall i, j | i in rows' && Active(rows'[i].status) && IsActiveFor(rows', j, rows'[i].user, rows'[i].lab)
      ensures i == j
    {
      if i != j {
        if i == id {
          assert IsActiveFor(rows, j, r.user, r.lab);
        } else if j == id {
          assert IsActiveFor(rows, i, r.user, r.lab);
        } else {
          assert IsActiveFor(rows, j, rows[i].user, rows[i].lab);
        }
      }
    }
  }

  /** A session takes the project that was just created for it. */
  lemma ProvisionedKeeps(w: World, id: nat, r: Row)
    requires Consistent(w) && id in w.rows && w.rows[id].project.None?
    requires r.project == Some(w.server.next) && r.status == Running
    requires !Conflicts(w.rows, id, r)
    ensures Consistent(w.(rows := w.rows[id := r], server := Created(w.server, Works)))
  {
    var w' := w.(rows := w.rows[id := r], server := Created(w.server, Works));
    NewRowKeepsConstraint(w.rows, id, r);
    forall i | i in w'.rows ensures Settled(w', w'.rows[i]) {
      if i != id {
        assert Settled(w, w.rows[i]);
      }
    }
  }

  lemma OneActive(w: World)
    requires Consistent(w)
    ensures OneActivePerUserLab(w.rows)
  {
  }

  lemma ProvisionKeeps(c: Config, s: State, id: nat, f: ProvisionFaults)
    requires Safe(s) && id in s.pending
    ensures Safe(Step(c, s, ProvisionEvent(id, f)))
  {
    var w := s.World();
    var w1 := if f.image then w.(server := Created(w.server, f.create)) else w;
    hide Consistent, Conflicts;
    CreateKeeps(w, f.create);
    var failed := w.rows[id].(status := Failed);
    RowUpdateKeeps(w1, id, failed, w1.server);
    var r := w.rows[id].(project := Some(w.server.next), status := Running, lastActive := f.now);
    if f.image && f.create.Works? && f.topology && f.start {
      if !Conflicts(w.rows, id, r) {
        ProvisionedKeeps(w, id, r);
      } else {
        OneActive(w);
        ConflictMeansInactive(w.rows, id, r);
      }
    }
  }

  /** The update is refused only for a row that has already given up its slot. */
  lemma ConflictMeansInactive(rows: Rows, id: nat, r: Row)
    requires OneActivePerUserLab(rows) && id in rows
    requires r.user == rows[id].user && r.lab == rows[id].lab && Conflicts(rows, id, r)
    ensures !Active(rows[id].status)
  {
  }

  lemma CreateKeeps(w: World, f: Fault)
    requires Consistent(w)
    ensures Consistent(w.(server := Created(w.server, f)))
  {
    var w' := w.(server := Created(w.server, f));
    forall i | i in w'.rows ensures Settled(w', w'.rows[i]) {
      assert Settled(w, w.rows[i]);
    }
  }

  lemma EndLabKeeps(c: Config, s: State, id: nat, f: Fault)
    requires Safe(s)
    ensures Safe(Step(c, s, EndLabEvent(id, f)))
  {
    hide Consistent, Conflicts;
    var w := s.World();
    if id in w.rows {
      var row := w.rows[id];
      if row.project.None? {
        RowUpdateKeeps(w, id, row.(status := Ended), w.server);
      } else {
        var p := row.project.value;
        RowUpdateKeeps(w, id, row.(status := Ended), w.server.(live := w.server.live - {p}));
        DeleteKeeps(w, p, f);
      }
    }
  }

  lemma HeartbeatKeeps(c: Config, s: State, id: nat, now: int)
    requires Safe(s)
    ensures Safe(Step(c, s, HeartbeatEvent(id, now)))
  {
    var w := s.World();
    if id in w.rows {
      RowUpdateKeeps(w, id, w.rows[id].(lastActive := now), w.server);
    }
  }

  lemma StepKeeps(c: Config, s: State, e: Event)
    requires Safe(s) && Enabled(c, s, e)
    ensures Safe(Step(c, s, e))
  {
    match e
    case LaunchEvent(call, found) => LaunchKeeps(c, s, call, found);
    case ProvisionEvent(id, f) => ProvisionKeeps(c, s, id, f);
    case HeartbeatEvent(id, now) => HeartbeatKeeps(c, s, id, now);
    case EndLabEvent(id, f) => EndLabKeeps(c, s, id, f);
    case SweepEvent(now, a, o) => SweepKeeps(c, s, now, a, o);
    case VanishEvent(p) => DeleteKeeps(s.World(), p, Works);
  }

  lemma {:induction false} RunIsSafe(c: Config, evs: seq<Event>, states: seq<State>, n: nat)
    requires IsRun(c, evs, states) && n < |states|
    ensures Safe(states[n])
    decreases n
  {
    if n == 0 {
    } else {
      RunIsSafe(c, evs, states, n - 1);
      StepKeeps(c, states[n - 1], evs[n - 1]);
    }
  }

  // ---------------------------------------------------------------------------
  // Main results
  // ---------------------------------------------------------------------------

  /** In every reachable state, a session that is ended and had a project has none left. */
  lemma EndedMeansGone(c: Config, evs: seq<Event>, states: seq<State>, n: nat, id: nat)
    requires IsRun(c, evs, states) && n < |states|
    requires id in states[n].Rows() && states[n].Rows()[id].status == Ended
    ensures states[n].Rows()[id].project.Some? ==> states[n].Rows()[id].project.value !in states[n].Live()
  {
    RunIsSafe(c, evs, states, n);
    assert Settled(states[n].World(), states[n].Rows()[id]);
  }

  /** No reachable launch dereferences a missing project. */
  lemma LaunchNeverCrashes(c: Config, evs: seq<Event>, states: seq<State>, n: nat)
    requires IsRun(c, evs, states) && n < |evs| && evs[n].LaunchEvent?
    ensures Launch(c.maxSessions, states[n].World(), evs[n].found, evs[n].call).1 != NoProjectCrash
  {
    RunIsSafe(c, evs, states, n);
    LaunchKeeps(c, states[n], evs[n].call, evs[n].found);
  }

  /** The live projects that some row records. */
  ghost function RecordedLive(w: World): set<nat> {
    set id | id in w.rows && w.rows[id].project.Some? && w.rows[id].project.value in w.server.live
      :: w.rows[id].project.value
  }

  /** Each live recorded project sits on an active row of its own. */
  lemma RecordedLiveAtMostActive(w: World)
    requires Consistent(w)
    ensures |RecordedLive(w)| <= ActiveCount(w.rows)
  {
    var holders := set id | id in w.rows && w.rows[id].project.Some? && w.rows[id].project.value in w.server.live;
    var projectOf := map id | id in holders :: w.rows[id].project.value;
    assert projectOf.Keys == holders;
    forall p | p in RecordedLive(w) ensures p in projectOf.Values {
      var id :| id in holders && w.rows[id].project.value == p;
      assert projectOf[id] == p;
    }
    SubsetSize(RecordedLive(w), projectOf.Values);
    ImageSize(projectOf);
    forall id | id in holders ensures id in ActiveIds(w.rows) {
      assert Settled(w, w.rows[id]);
    }
    SubsetSize(holders, ActiveIds(w.rows));
  }

  lemma {:induction false} ImageSize(m: map<nat, nat>)
    ensures |m.Values| <= |m.Keys|
    decreases |m|
  {
    if m.Keys == {} {
    } else {
      var k :| k in m;
      var rest := m - {k};
      ImageSize(rest);
      assert rest.Keys == m.Keys - {k};
      assert m.Values == rest.Values + {m[k]} by {
        forall v | v in m.Values ensures v in rest.Values + {m[k]} {
          var i :| i in m && m[i] == v;
          if i != k {
            assert i in rest && rest[i] == v;
          }
        }
      }
    }
  }

  // ---------------------------------------------------------------------------
  // The capacity bound
  // ---------------------------------------------------------------------------

  /** Nobody ends a lab whose provisioning is still under way. */
  ghost predicate Patient(s: State, e: Event) {
    e.EndLabEvent? && e.id in s.Rows() ==> s.Rows()[e.id].status != Provisioning
  }

  /** The sessions still being provisioned are exactly the pending ones. */
  ghost predicate PendingIsProvisioning(s: State) {
    forall id :: id in s.pending ==> id in s.Rows() && s.Rows()[id].status == Provisioning
  }

  function Cap(c: Config): nat {
    if c.maxSessions < 0 then 0 else c.maxSessions
  }

  /** No row that held no slot holds one now. */
  ghost predicate NoNewActive(before: Rows, after: Rows) {
    ActiveIds(after) <= ActiveIds(before)
  }

  lemma SuspendAddsNone(r: Reaping, id: nat, a: Adversary)
    requires id in r.world.rows && Active(r.world.rows[id].status)
    ensures NoNewActive(r.world.rows, Suspend(r, id, a).world.rows)
  {
  }

  lemma {:induction false} SuspendAllAddsNone(r: Reaping, ids: seq<nat>, a: Adversary)
    requires Consistent(r.world)
    requires forall i :: i in ids ==> i in r.world.rows && r.world.rows[i].status == Running
    requires forall i, j :: 0 <= i < j < |ids| ==> ids[i] != ids[j]
    ensures NoNewActive(r.world.rows, SuspendAll(r, ids, a).world.rows)
  {
    if ids == [] {
    } else {
      var n := |ids| - 1;
      SuspendAllAddsNone(r, ids[..n], a);
      SuspendAllKeeps(r, ids[..n], a);
      assert ids[n] !in ids[..n];
      SuspendAddsNone(SuspendAll(r, ids[..n], a), ids[n], a);
    }
  }

  lemma {:induction false} TearDownAllAddsNone(r: Reaping, ids: seq<nat>, a: Adversary)
    requires forall i :: i in ids ==> i in r.world.rows
    ensures NoNewActive(r.world.rows, TearDownAll(r, ids, a).world.rows)
  {
    if ids == [] {
    } else {
      var n := |ids| - 1;
      TearDownAllAddsNone(r, ids[..n], a);
    }
  }

  /** A provisioning run that finishes on a row that had already given up its slot. */
  ghost predicate Revives(s: State, e: Event) {
    && e.ProvisionEvent?
    && e.id in s.Rows()
    && e.provision.image && e.provision.create.Works? && e.provision.topology && e.provision.start
    && !Active(s.Rows()[e.id].status)
    && !Conflicts(s.Rows(), e.id, s.Rows()[e.id].(status := Running))
  }

  ghost predicate Launches(c: Config, s: State, e: Event)
    requires Enabled(c, s, e)
  {
    e.LaunchEvent? && Launch(c.maxSessions, s.World(), e.found, e.call).1.Launched?
  }

  lemma NewLaunchActiveIds(c: Config, s: State, call: LaunchCall)
    requires Safe(s) && Enabled(c, s, LaunchEvent(call, None)) && Launches(c, s, LaunchEvent(call, None))
    ensures var before, after, id := s.Rows(), Step(c, s, LaunchEvent(call, None)).Rows(), s.World().nextId;
            && id !in before
            && after == before[id := Row(call.user, call.lab, None, Provisioning, call.now)]
            && ActiveIds(after) == ActiveIds(before) + {id}
            && ActiveCount(before) < c.maxSessions
  {
    hide Conflicts, Resume;
  }

  /** A launch that creates no session leaves every slot, and every provisioning row, as it was. */
  lemma OldLaunchActiveIds(c: Config, s: State, call: LaunchCall, found: Option<nat>)
    requires Safe(s) && Enabled(c, s, LaunchEvent(call, found)) && !Launches(c, s, LaunchEvent(call, found))
    ensures var before, after := s.Rows(), Step(c, s, LaunchEvent(call, found)).Rows();
            && after.Keys == before.Keys
            && (forall i :: i in before ==>
                  && (Active(after[i].status) <==> Active(before[i].status))
                  && (after[i].status == Provisioning <==> before[i].status == Provisioning))
            && ActiveIds(after) == ActiveIds(before)
  {
    if found.Some? {
      if s.Rows()[found.value].status == IdleStopped {
        ResumeKeeps(s.World(), found.value, call);
      }
    }
    hide Resume, Consistent;
  }

  lemma ProvisionActiveIds(c: Config, s: State, id: nat, f: ProvisionFaults)
    requires Safe(s) && id in s.pending
    ensures var e := ProvisionEvent(id, f);
            var before, after := s.Rows(), Step(c, s, e).Rows();
            && (forall i :: i in after ==> i in before && (i != id ==> after[i] == before[i]))
            && if Revives(s, e) then ActiveIds(after) == ActiveIds(before) + {id} && id !in ActiveIds(before)
               else ActiveIds(after) <= ActiveIds(before)
  {
    var rows := s.Rows();
    var r := rows[id].(project := Some(s.World().server.next), status := Running, lastActive := f.now);
    assert Conflicts(rows, id, r) <==> Conflicts(rows, id, rows[id].(status := Running));
    assert !Conflicts(rows, id, rows[id].(status := Failed));
  }

  lemma SweepActiveIds(c: Config, s: State, now: int, a: Adversary, o: Orders)
    requires Safe(s) && Enabled(c, s, SweepEvent(now, a, o))
    ensures NoNewActive(s.Rows(), Step(c, s, SweepEvent(now, a, o)).Rows())
    ensures Reaped(s.Rows(), Step(c, s, SweepEvent(now, a, o)).Rows())
  {
    if a.runningQuery {
      SuspendAllAddsNone(s.reaping, o.running, a);
      SuspendAllKeeps(s.reaping, o.running, a);
    }
    var middle := Tier1(s.reaping, a, o);
    if a.idleQuery {
      TearDownAllAddsNone(middle, o.idle, a);
      TearDownAllKeeps(middle, o.idle, a);
    }
  }

  lemma NoneRises(before: Rows, after: Rows)
    requires NoNewActive(before, after)
    ensures ActiveCount(after) <= ActiveCount(before)
  {
    hide ActiveIds;
    SubsetSize(ActiveIds(after), ActiveIds(before));
  }

  lemma LaunchRises(c: Config, s: State, call: LaunchCall, found: Option<nat>)
    requires Safe(s) && Enabled(c, s, LaunchEvent(call, found))
    ensures ActiveCount(Step(c, s, LaunchEvent(call, found)).Rows()) ==
            ActiveCount(s.Rows()) + if Launches(c, s, LaunchEvent(call, found)) then 1 else 0
  {
    var e := LaunchEvent(call, found);
    if Launches(c, s, e) {
      NewLaunchActiveIds(c, s, call);
    } else {
      OldLaunchActiveIds(c, s, call, found);
    }
    hide Safe, Step, Launch, Conflicts;
  }

  lemma ProvisionRises(c: Config, s: State, id: nat, f: ProvisionFaults)
    requires Safe(s) && id in s.pending
    ensures var count, count' := ActiveCount(s.Rows()), ActiveCount(Step(c, s, ProvisionEvent(id, f)).Rows());
            if Revives(s, ProvisionEvent(id, f)) then count' == count + 1 else count' <= count
  {
    ProvisionActiveIds(c, s, id, f);
    hide Safe, Step, Revives;
    if !Revives(s, ProvisionEvent(id, f)) {
      NoneRises(s.Rows(), Step(c, s, ProvisionEvent(id, f)).Rows());
    }
  }

  /** Exactly two things raise the count: a launch, which saw a free slot, and a provisioning run
      that outlived its session. */
  lemma CountRisesExactly(c: Config, s: State, e: Event)
    requires Safe(s) && Enabled(c, s, e)
    ensures ActiveCount(Step(c, s, e).Rows()) > ActiveCount(s.Rows()) <==> Launches(c, s, e) || Revives(s, e)
    ensures ActiveCount(Step(c, s, e).Rows()) <= ActiveCount(s.Rows()) + 1
  {
    hide Safe, Step, ActiveCount, NoNewActive, Launch;
    match e
    case LaunchEvent(call, found) => LaunchRises(c, s, call, found);
    case ProvisionEvent(id, f) => ProvisionRises(c, s, id, f);
    case SweepEvent(now, a, o) =>
      SweepActiveIds(c, s, now, a, o);
      NoneRises(s.Rows(), Step(c, s, e).Rows());
    case _ =>
      OtherActiveIds(c, s, e);
      NoneRises(s.Rows(), Step(c, s, e).Rows());
  }

  lemma OtherActiveIds(c: Config, s: State, e: Event)
    requires e.HeartbeatEvent? || e.EndLabEvent? || e.VanishEvent?
    ensures NoNewActive(s.Rows(), Step(c, s, e).Rows())
  {
  }

  lemma StepKeepsCap(c: Config, s: State, e: Event)
    requires Safe(s) && Enabled(c, s, e) && Patient(s, e)
    requires PendingIsProvisioning(s) && ActiveCount(s.Rows()) <= Cap(c)
    ensures PendingIsProvisioning(Step(c, s, e))
    ensures ActiveCount(Step(c, s, e).Rows()) <= Cap(c)
  {
    CountRisesExactly(c, s, e);
    hide Safe, Provision, EndLab, Sweep, Conflicts, ActiveCount;
    match e
    case LaunchEvent(call, found) =>
      LaunchKeepsPending(c, s, call, found);
      if Launches(c, s, e) {
        NewLaunchActiveIds(c, s, call);
      }
    case ProvisionEvent(id, f) => ProvisionActiveIds(c, s, id, f);
    case SweepEvent(now, a, o) => SweepKeepsPending(c, s, now, a, o);
    case EndLabEvent(id, f) => EndLabKeepsPending(c, s, id, f);
    case _ =>
  }

  lemma LaunchKeepsPending(c: Config, s: State, call: LaunchCall, found: Option<nat>)
    requires Safe(s) && Enabled(c, s, LaunchEvent(call, found)) && PendingIsProvisioning(s)
    ensures PendingIsProvisioning(Step(c, s, LaunchEvent(call, found)))
  {
    var e := LaunchEvent(call, found);
    hide Safe, ActiveIds, IsActiveFor;
    if Launches(c, s, e) {
      NewLaunchActiveIds(c, s, call);
    } else {
      OldLaunchActiveIds(c, s, call, found);
    }
  }

  lemma EndLabKeepsPending(c: Config, s: State, id: nat, f: Fault)
    requires Patient(s, EndLabEvent(id, f)) && PendingIsProvisioning(s)
    ensures PendingIsProvisioning(Step(c, s, EndLabEvent(id, f)))
  {
  }

  lemma SweepKeepsPending(c: Config, s: State, now: int, a: Adversary, o: Orders)
    requires Safe(s) && Enabled(c, s, SweepEvent(now, a, o)) && PendingIsProvisioning(s)
    ensures PendingIsProvisioning(Step(c, s, SweepEvent(now, a, o)))
  {
    if a.runningQuery {
      SuspendAllKeeps(s.reaping, o.running, a);
    }
    var middle := Tier1(s.reaping, a, o);
    if a.idleQuery {
      TearDownAllKeeps(middle, o.idle, a);
    }
  }

  lemma {:induction false} CapHolds(c: Config, evs: seq<Event>, states: seq<State>, n: nat)
    requires IsRun(c, evs, states) && n < |states|
    requires forall i :: 0 <= i < n ==> Patient(states[i], evs[i])
    ensures PendingIsProvisioning(states[n]) && ActiveCount(states[n].Rows()) <= Cap(c)
    decreases n
  {
    if n > 0 {
      CapHolds(c, evs, states, n - 1);
      RunIsSafe(c, evs, states, n - 1);
      StepKeepsCap(c, states[n - 1], evs[n - 1]);
    } else {
      assert ActiveIds(states[0].Rows()) == {};
    }
  }

  /** In every reachable state the live projects recorded on rows number at most ActiveCount; and
      ActiveCount is at most the configured cap as long as no lab was ended while provisioning. */
  lemma CapacityBound(c: Config, evs: seq<Event>, states: seq<State>, n: nat)
    requires IsRun(c, evs, states) && n < |states|
    ensures |RecordedLive(states[n].World())| <= ActiveCount(states[n].Rows())
    ensures (forall i :: 0 <= i < n ==> Patient(states[i], evs[i])) ==> ActiveCount(states[n].Rows()) <= Cap(c)
  {
    RunIsSafe(c, evs, states, n);
    RecordedLiveAtMostActive(states[n].World());
    if forall i :: 0 <= i < n ==> Patient(states[i], evs[i]) {
      CapHolds(c, evs, states, n);
    }
  }

  // A run with one slot in which a lab is ended while it is being provisioned.

  const ONE_SLOT := Config(1, Thresholds(30, 24))
  const ENDED_EARLY := Row(1, 7, None, Ended, 0)
  const SECOND := Row(2, 7, None, Provisioning, 0)
  const REVIVED := Row(1, 7, Some(0), Running, 0)

  function Early(rows: Rows, nextId: nat, server: Server, pending: set<nat>): State {
    State(Reaping(World(rows, nextId, server), Counters(map[], map[])), pending)
  }

  function EarlyStates(): seq<State> {
    [START,
     Early(map[0 := Row(1, 7, None, Provisioning, 0)], 1, Server({}, 0), {0}),
     Early(map[0 := ENDED_EARLY], 1, Server({}, 0), {0}),
     Early(map[0 := ENDED_EARLY, 1 := SECOND], 2, Server({}, 0), {0, 1}),
     Early(map[0 := REVIVED, 1 := SECOND], 2, Server({0}, 1), {1})]
  }

  function EarlyEvents(): seq<Event> {
    [LaunchEvent(LaunchCall(1, 7, true, true, true, ALL_WORK, 0), None),
     EndLabEvent(0, Works),
     LaunchEvent(LaunchCall(2, 7, true, true, true, ALL_WORK, 0), None),
     ProvisionEvent(0, ProvisionFaults(true, Works, true, true, 0))]
  }

  ghost predicate EarlyStep(i: nat)
    requires i < 4
  {
    Enabled(ONE_SLOT, EarlyStates()[i], EarlyEvents()[i])
    && EarlyStates()[i + 1] == Step(ONE_SLOT, EarlyStates()[i], EarlyEvents()[i])
  }

  lemma EarlyFirst()
    ensures EarlyStep(0)
  {
    assert ActiveIds(EarlyStates()[0].Rows()) == {};
  }

  lemma EarlySecond()
    ensures EarlyStep(2)
  {
    assert ActiveIds(EarlyStates()[2].Rows()) == {};
    assert !IsActiveFor(EarlyStates()[2].Rows(), 0, 2, 7);
  }

  lemma EarlyEnd()
    ensures EarlyStep(1)
  {
  }

  lemma EarlyProvision()
    ensures EarlyStep(3)
  {
    var s := EarlyStates()[3];
    assert !IsActiveFor(s.Rows(), 1, 1, 7);
    assert s.World().server.live + {0} == {0};
  }

  /** The proviso is needed: the second session takes the only slot, and the first one comes back. */
  lemma EndingTooEarlyBreaksCap()
    ensures IsRun(ONE_SLOT, EarlyEvents(), EarlyStates())
    ensures ActiveCount(EarlyStates()[4].Rows()) > Cap(ONE_SLOT)
  {
    hide Step, Enabled;
    EarlyFirst();
    EarlySecond();
    EarlyEnd();
    EarlyProvision();
    assert EarlyStep(0) && EarlyStep(1) && EarlyStep(2) && EarlyStep(3);
    assert ActiveIds(EarlyStates()[4].Rows()) == {0, 1};
  }
}
