/**
 What each action on a session comes to, in every reachable state: the rows after it in terms of the
 rows before it, and what the caller is told.
 */
module SessionOutcomes {
  import opened Wrappers
  import opened Teardown
  import opened Sessions
  import opened SessionSafety

  /** The sessions that occupy compute. */
  ghost function Holding(rows: Rows): set<nat> {
    set id | id in rows && rows[id].status in {Provisioning, Running, IdleStopped}
  }

  /** This session holds a slot for this user and lab. */
  ghost predicate IsSession(rows: Rows, id: nat, user: nat, lab: nat) {
    id in Holding(rows) && rows[id].user == user && rows[id].lab == lab
  }

  lemma HoldingIsActive(rows: Rows)
    ensures Holding(rows) == ActiveIds(rows)
    ensures forall id, user, lab :: IsSession(rows, id, user, lab) <==> IsActiveFor(rows, id, user, lab)
  {
  }

  // ---------------------------------------------------------------------------
  // Launch
  // ---------------------------------------------------------------------------

  /** Step `n` of the run is this launch; `told` is what the caller gets. */
  ghost predicate IsLaunch(c: Config, evs: seq<Event>, states: seq<State>, n: nat, call: LaunchCall, told: LaunchResult) {
    && IsRun(c, evs, states) && n < |evs| && evs[n].LaunchEvent? && evs[n].call == call
    && told == Launch(c.maxSessions, states[n].World(), evs[n].found, call).1
  }

  /** Main result: with a free slot a user without a session gets a new one, unless the database fails; without a free
      slot nobody does. */
  lemma NewSessionExactly(c: Config, evs: seq<Event>, states: seq<State>, n: nat, call: LaunchCall, told: LaunchResult)
    requires IsLaunch(c, evs, states, n, call, told) && call.isPro && call.hasNodes
    requires forall id :: !IsSession(states[n].Rows(), id, call.user, call.lab)
    ensures var before, after := states[n].Rows(), states[n + 1].Rows();
            if !call.db.find || !call.db.count then told == DatabaseError && states[n + 1] == states[n]
            else if |Holding(before)| >= c.maxSessions then told == SlotConflict && states[n + 1] == states[n]
            else if !call.db.create then told == DatabaseError && states[n + 1] == states[n]
            else
              && told.Launched? && told.id !in before
              && after == before[told.id := Row(call.user, call.lab, None, Provisioning, call.now)]
              && states[n + 1].pending == states[n].pending + {told.id}
    ensures states[n + 1].World().server == states[n].World().server
  {
    var s := states[n];
    RunIsSafe(c, evs, states, n);
    HoldingIsActive(s.Rows());
    NoneFound(c, s, call, evs[n].found);
    NewSessionKeeps(s.World(), NewRow(call), call.user, call.lab);
    hide Safe, Consistent, Conflicts, Resume, Holding, ActiveIds, IsRun;
    assert states[n + 1] == Step(c, s, evs[n]) by {
      StepOf(c, evs, states, n);
    }
  }

  lemma StepOf(c: Config, evs: seq<Event>, states: seq<State>, n: nat)
    requires IsRun(c, evs, states) && n < |evs|
    ensures Enabled(c, states[n], evs[n]) && states[n + 1] == Step(c, states[n], evs[n])
  {
  }

  lemma NoneFound(c: Config, s: State, call: LaunchCall, found: Option<nat>)
    requires Enabled(c, s, LaunchEvent(call, found)) && forall id :: !IsSession(s.Rows(), id, call.user, call.lab)
    ensures found == None
    ensures forall id :: !IsActiveFor(s.Rows(), id, call.user, call.lab)
  {
    HoldingIsActive(s.Rows());
  }

  /** Main result: a user with a session gets that one back. Stopped, it is running again afterwards, and freshly
      active unless that last update fails; if its nodes do not start or the database fails before, nothing changes. */
  lemma OldSessionExactly(c: Config, evs: seq<Event>, states: seq<State>, n: nat, call: LaunchCall, told: LaunchResult,
                          id: nat)
    requires IsLaunch(c, evs, states, n, call, told) && call.isPro && call.hasNodes
    requires IsSession(states[n].Rows(), id, call.user, call.lab)
    ensures var before, after := states[n].Rows(), states[n + 1].Rows();
            if !call.db.find then told == DatabaseError && after == before
            else if before[id].status != IdleStopped then told == Resumed(id) && after == before
            else if !call.startWorks then told == StartFailed && after == before
            else if !call.db.status then told == DatabaseError && after == before
            else
              && told == Resumed(id)
              && after == before[id := before[id].(status := Running,
                                                   lastActive := if call.db.touch then call.now else before[id].lastActive)]
    ensures states[n + 1].World().server == states[n].World().server && states[n + 1].pending == states[n].pending
  {
    var s := states[n];
    var row := s.Rows()[id];
    RunIsSafe(c, evs, states, n);
    HoldingIsActive(s.Rows());
    StepOf(c, evs, states, n);
    if call.db.find {
      SomeFound(c, s, call, evs[n].found, id);
    }
    if row.status == IdleStopped {
      ResumeKeeps(s.World(), id, call);
      assert s.Rows()[id := row.(status := Running)][id := row.(status := Running, lastActive := call.now)]
          == s.Rows()[id := row.(status := Running, lastActive := call.now)];
    }
    hide Safe, Consistent, Conflicts, Holding, IsRun;
  }

  lemma SomeFound(c: Config, s: State, call: LaunchCall, found: Option<nat>, id: nat)
    requires Safe(s) && Enabled(c, s, LaunchEvent(call, found)) && call.isPro && call.hasNodes && call.db.find
    requires IsSession(s.Rows(), id, call.user, call.lab)
    ensures found == Some(id)
  {
    HoldingIsActive(s.Rows());
    OneActive(s.World());
    hide Safe, Consistent;
  }

  /** Every other launch is refused, and changes neither the projects nor who holds a slot. */
  lemma RefusedExactly(c: Config, evs: seq<Event>, states: seq<State>, n: nat, call: LaunchCall, told: LaunchResult)
    requires IsLaunch(c, evs, states, n, call, told)
    ensures told == PlanGate <==> !call.isPro
    ensures told == ConceptualLab <==> call.isPro && !call.hasNodes
    ensures told == PlanGate || told == ConceptualLab || told == SlotConflict || told == DatabaseError || told == StartFailed ==>
              states[n + 1] == states[n]
  {
    var s := states[n];
    RunIsSafe(c, evs, states, n);
    StepOf(c, evs, states, n);
    LaunchKeeps(c, s, call, evs[n].found);
    hide Safe, Consistent, Conflicts, IsRun;
  }

  // ---------------------------------------------------------------------------
  // Provisioning
  // ---------------------------------------------------------------------------

  predicate AllSteps(f: ProvisionFaults) {
    f.image && f.create == Works && f.topology && f.start
  }

  /** Main result: a provisioning run whose steps all work makes its session running, freshly active and with a new
      live project; any other makes it failed. */
  lemma ProvisionExactly(c: Config, evs: seq<Event>, states: seq<State>, n: nat, id: nat, f: ProvisionFaults)
    requires IsRun(c, evs, states) && n < |evs| && evs[n] == ProvisionEvent(id, f)
    requires id in states[n].Rows() && states[n].Rows()[id].status == Provisioning
    ensures var before, after := states[n].Rows(), states[n + 1].Rows();
            if AllSteps(f) then
              && after.Keys == before.Keys && (forall i :: i in before && i != id ==> after[i] == before[i])
              && after[id].project.Some?
              && after[id].project.value !in states[n].Live() && after[id].project.value in states[n + 1].Live()
              && after[id] == before[id].(project := after[id].project, status := Running, lastActive := f.now)
            else after == before[id := before[id].(status := Failed)]
    ensures states[n + 1].pending == states[n].pending - {id}
  {
    var s := states[n];
    var row := s.Rows()[id];
    RunIsSafe(c, evs, states, n);
    StepOf(c, evs, states, n);
    OneActive(s.World());
    FreshProject(s.World());
    assert !Conflicts(s.Rows(), id, row.(status := Failed));
    var r := row.(project := Some(s.World().server.next), status := Running, lastActive := f.now);
    if Conflicts(s.Rows(), id, r) {
      ConflictMeansInactive(s.Rows(), id, r);
    }
    hide Safe, Consistent, Conflicts, IsRun;
  }

  lemma FreshProject(w: World)
    requires Consistent(w)
    ensures w.server.next !in w.server.live
  {
  }

  /** A run that ends after its session gave up the slot: if all steps worked the session is back, unless another one
      of the same user and lab has taken its place. */
  lemma LateProvisionExactly(c: Config, evs: seq<Event>, states: seq<State>, n: nat, id: nat, f: ProvisionFaults)
    requires IsRun(c, evs, states) && n < |evs| && evs[n] == ProvisionEvent(id, f)
    requires id in states[n].Rows() && states[n].Rows()[id].status != Provisioning
    ensures var before, after := states[n].Rows(), states[n + 1].Rows();
            var row := before[id];
            if !AllSteps(f) then after == before[id := row.(status := Failed)]
            else if exists j :: IsSession(before, j, row.user, row.lab) then after == before
            else after == before[id := row.(project := Some(states[n].World().server.next), status := Running, lastActive := f.now)]
  {
    var s := states[n];
    var rows := s.Rows();
    var row := rows[id];
    RunIsSafe(c, evs, states, n);
    StepOf(c, evs, states, n);
    HoldingIsActive(rows);
    assert Settled(s.World(), row) && row.project.None?;
    assert !Conflicts(rows, id, row.(status := Failed));
    var r := row.(project := Some(s.World().server.next), status := Running, lastActive := f.now);
    if j :| IsSession(rows, j, row.user, row.lab) {
      assert IsActiveFor(rows, j, row.user, row.lab) && j != id;
    }
    assert Conflicts(rows, id, r) <==> exists j :: IsSession(rows, j, row.user, row.lab);
    hide Safe, Consistent, Conflicts, IsRun, Holding;
  }

  // ---------------------------------------------------------------------------
  // Heartbeat and end
  // ---------------------------------------------------------------------------

  /** A heartbeat makes the session freshly active. */
  lemma HeartbeatExactly(c: Config, evs: seq<Event>, states: seq<State>, n: nat, id: nat, now: int)
    requires IsRun(c, evs, states) && n < |evs| && evs[n] == HeartbeatEvent(id, now) && id in states[n].Rows()
    ensures states[n + 1].Rows() == states[n].Rows()[id := states[n].Rows()[id].(lastActive := now)]
    ensures states[n + 1].World().server == states[n].World().server && states[n + 1].pending == states[n].pending
  {
  }

  /** Main result: ending a lab succeeds exactly if it has no project or the delete works, and then the session is
      ended and its project gone; otherwise the rows stay as they are. */
  lemma EndExactly(c: Config, evs: seq<Event>, states: seq<State>, n: nat, id: nat, f: Fault)
    requires IsRun(c, evs, states) && n < |evs| && evs[n] == EndLabEvent(id, f)
    ensures id !in states[n].Rows() ==> !EndLab(states[n].World(), id, f).1 && states[n + 1] == states[n]
    ensures id in states[n].Rows() ==>
            var before, after, project := states[n].Rows(), states[n + 1].Rows(), states[n].Rows()[id].project;
            var ok := EndLab(states[n].World(), id, f).1;
            && (ok <==> project == None || f == Works)
            && after == (if ok then before[id := before[id].(status := Ended)] else before)
            && (ok && project.Some? ==> project.value !in states[n + 1].Live())
            && (project.Some? && f == FailsClean ==> states[n + 1].Live() == states[n].Live())
            && (forall p :: p in states[n].Live() && project != Some(p) ==> p in states[n + 1].Live())
  {
    RunIsSafe(c, evs, states, n);
    StepOf(c, evs, states, n);
    var rows := states[n].Rows();
    assert id in rows ==> !Conflicts(rows, id, rows[id].(status := Ended));
    hide Safe, Consistent, Conflicts, IsRun;
  }

  // ---------------------------------------------------------------------------
  // Who a sweep visits
  // ---------------------------------------------------------------------------

  /** Main result: a sweep suspends exactly the running sessions idle for longer than the idle minutes, and tears
      down exactly those that are then stopped and have been idle for longer than the time to live. */
  lemma VisitedExactly(c: Config, evs: seq<Event>, states: seq<State>, n: nat, id: nat)
    requires IsRun(c, evs, states) && n < |evs| && evs[n].SweepEvent? && id in states[n].Rows()
    ensures var e, row := evs[n], states[n].Rows()[id];
            && (id in e.orders.running <==>
                  row.status == Running && e.now - row.lastActive > 60 * c.thresholds.idleMinutes)
            && (id in e.orders.idle <==>
                  var now := Tier1(states[n].reaping, e.adversary, e.orders).world.rows[id];
                  now.status == IdleStopped && e.now - now.lastActive > 3600 * c.thresholds.ttlHours)
  {
    StepOf(c, evs, states, n);
    hide IsRun, Tier1;
  }
}
