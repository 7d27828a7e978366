/**
 The lab-session table, the session service and the reaper of internal/labsession.

 Each service call, each provisioning run and each reaper sweep is one atomic step. The table
 keeps the one-active-session-per-user-and-lab constraint of its schema: an update that would
 break it is refused. Times are whole seconds.
 */
module Sessions {
  import opened Wrappers
  import opened Teardown

  datatype Status = Provisioning | Running | IdleStopped | Ended | Failed

  datatype Row = Row(user: nat, lab: nat, project: Option<nat>, status: Status, lastActive: int)

  type Rows = map<nat, Row>

  const MAX_STOP_ATTEMPTS := 3
  const MAX_TEARDOWN_ATTEMPTS := 3

  // ---------------------------------------------------------------------------
  // The table (repository.go)
  // ---------------------------------------------------------------------------

  /** These statuses occupy a capacity slot. */
  predicate Active(s: Status) {
    s.Provisioning? || s.Running? || s.IdleStopped?
  }

  function ActiveIds(rows: Rows): set<nat> {
    set id | id in rows && Active(rows[id].status)
  }

  function ActiveCount(rows: Rows): nat {
    |ActiveIds(rows)|
  }

  predicate IsActiveFor(rows: Rows, id: nat, user: nat, lab: nat) {
    id in rows && Active(rows[id].status) && rows[id].user == user && rows[id].lab == lab
  }

  /** The schema's exclusion constraint. */
  ghost predicate OneActivePerUserLab(rows: Rows) {
    forall i, j ::
      i in rows && Active(rows[i].status) && IsActiveFor(rows, j, rows[i].user, rows[i].lab)
      ==> i == j
  }

  /** Writing `r` at `id` would give some user and lab a second active session. */
  predicate Conflicts(rows: Rows, id: nat, r: Row) {
    Active(r.status) && exists j :: j in rows && j != id && IsActiveFor(rows, j, r.user, r.lab)
  }

  /** An insert or update, refused when it conflicts. */
  function Put(rows: Rows, id: nat, r: Row): Rows {
    if Conflicts(rows, id, r) then rows else rows[id := r]
  }

  function SetStatus(rows: Rows, id: nat, s: Status): Rows {
    if id in rows then Put(rows, id, rows[id].(status := s)) else rows
  }

  /** The constraint refuses this status. */
  predicate Refused(rows: Rows, id: nat, s: Status) {
    id in rows && Conflicts(rows, id, rows[id].(status := s))
  }

  function SetProvisioned(rows: Rows, id: nat, p: nat, now: int): Rows {
    if id in rows
    then Put(rows, id, rows[id].(project := Some(p), status := Running, lastActive := now))
    else rows
  }

  function Touch(rows: Rows, id: nat, now: int): Rows {
    if id in rows then rows[id := rows[id].(lastActive := now)] else rows
  }

  function End(rows: Rows, id: nat): Rows {
    SetStatus(rows, id, Ended)
  }

  /** The ids of the rows in `status` whose last activity lies more than `seconds` back. */
  function Stale(rows: Rows, status: Status, now: int, seconds: int): set<nat> {
    set id | id in rows && rows[id].status == status && rows[id].lastActive < now - seconds
  }

  /** A query result: these ids, each once, in any order. */
  ghost predicate Lists(ids: seq<nat>, s: set<nat>) {
    (forall i :: i in ids <==> i in s) && (forall i, j :: 0 <= i < j < |ids| ==> ids[i] != ids[j])
  }

  class Repository {
    var rows: Rows
    var nextId: nat

    constructor ()
      ensures rows == map[] && nextId == 0
    {
      rows := map[];
      nextId := 0;
    }

    method CountActive() returns (n: nat)
      ensures n == ActiveCount(rows)
    {
      n := 0;
      var todo := rows.Keys;
      ghost var counted: set<nat> := {};
      while todo != {}
        invariant todo <= rows.Keys
        invariant counted == set id | id in ActiveIds(rows) && id !in todo
        invariant n == |counted|
        decreases todo
      {
        var id :| id in todo;
        if Active(rows[id].status) {
          n := n + 1;
          counted := counted + {id};
        }
        todo := todo - {id};
      }
      assert counted == ActiveIds(rows);
    }

    method FindActiveForUserLab(user: nat, lab: nat) returns (found: Option<nat>)
      ensures found.Some? ==> IsActiveFor(rows, found.value, user, lab)
      ensures found.None? ==> forall id :: !IsActiveFor(rows, id, user, lab)
    {
      var todo := rows.Keys;
      while todo != {}
        invariant todo <= rows.Keys
        invariant forall id :: id in rows && id !in todo ==> !IsActiveFor(rows, id, user, lab)
        decreases todo
      {
        var id :| id in todo;
        if IsActiveFor(rows, id, user, lab) {
          return Some(id);
        }
        todo := todo - {id};
      }
      found := None;
    }

    /** No id comes back when the constraint refuses the insert. */
    method Create(user: nat, lab: nat, now: int) returns (created: Option<nat>)
      modifies this
      ensures var row := Row(user, lab, None, Provisioning, now);
              if Conflicts(old(rows), old(nextId), row)
              then created == None && rows == old(rows) && nextId == old(nextId)
              else created == Some(old(nextId)) && rows == old(rows)[old(nextId) := row] && nextId == old(nextId) + 1
    {
      var row := Row(user, lab, None, Provisioning, now);
      if Conflicts(rows, nextId, row) {
        return None;
      }
      created := Some(nextId);
      rows := rows[nextId := row];
      nextId := nextId + 1;
    }

    method Update(id: nat, status: Status) returns (ok: bool)
      modifies this`rows
      ensures rows == SetStatus(old(rows), id, status)
      ensures ok == !Refused(old(rows), id, status)
    {
      ok := !Refused(rows, id, status);
      rows := SetStatus(rows, id, status);
    }

    method UpdateProvisioned(id: nat, p: nat, now: int)
      modifies this`rows
      ensures rows == SetProvisioned(old(rows), id, p, now)
    {
      rows := SetProvisioned(rows, id, p, now);
    }

    method UpdateTouched(id: nat, now: int)
      modifies this`rows
      ensures rows == Touch(old(rows), id, now)
    {
      rows := Touch(rows, id, now);
    }

    method SelectStale(status: Status, now: int, seconds: int) returns (ids: seq<nat>)
      ensures Lists(ids, Stale(rows, status, now, seconds))
    {
      ids := [];
      var todo := rows.Keys;
      while todo != {}
        invariant todo <= rows.Keys
        invariant Lists(ids, Stale(rows, status, now, seconds) - todo)
        decreases todo
      {
        var id :| id in todo;
        if rows[id].status == status && rows[id].lastActive < now - seconds {
          assert id !in ids;
          ids := ids + [id];
        }
        todo := todo - {id};
      }
      assert Stale(rows, status, now, seconds) - todo == Stale(rows, status, now, seconds);
    }
  }

  // ---------------------------------------------------------------------------
  // The service (service.go)
  // ---------------------------------------------------------------------------

  /** Table and server: what service and reaper share. */
  datatype World = World(rows: Rows, nextId: nat, server: Server)

  datatype LaunchResult =
    | PlanGate
    | ConceptualLab
    | StartFailed
    | DatabaseError
    | SlotConflict
    | Resumed(id: nat)
    | Launched(id: nat)
    | NoProjectCrash

  /** Which of the database calls of one launch work. */
  datatype DbWorks = DbWorks(find: bool, count: bool, create: bool, status: bool, touch: bool)

  const ALL_WORK := DbWorks(true, true, true, true, true)

  /** The facts of one launch request that its caller, the server and the database decide. */
  datatype LaunchCall =
    LaunchCall(user: nat, lab: nat, isPro: bool, hasNodes: bool, startWorks: bool, db: DbWorks, now: int)

  function NewRow(c: LaunchCall): Row {
    Row(c.user, c.lab, None, Provisioning, c.now)
  }

  /** Resuming a session that is stopped. An update that sets the status but not the activity time is let pass. */
  function Resume(w: World, id: nat, c: LaunchCall): (World, LaunchResult)
    requires id in w.rows
  {
    if w.rows[id].project.None? then (w, NoProjectCrash)
    else if !c.startWorks then (w, StartFailed)
    else if !c.db.status || Refused(w.rows, id, Running) then (w, DatabaseError)
    else
      var rows := SetStatus(w.rows, id, Running);
      (w.(rows := if c.db.touch then Touch(rows, id, c.now) else rows), Resumed(id))
  }

  /** Launch, given the active session the table found for this user and lab, if any. */
  function Launch(maxSessions: int, w: World, found: Option<nat>, c: LaunchCall): (World, LaunchResult)
    requires found.Some? ==> found.value in w.rows
  {
    if !c.isPro then (w, PlanGate)
    else if !c.hasNodes then (w, ConceptualLab)
    else if !c.db.find then (w, DatabaseError)
    else if found.Some? then
      if w.rows[found.value].status == IdleStopped then Resume(w, found.value, c) else (w, Resumed(found.value))
    else if !c.db.count then (w, DatabaseError)
    else if ActiveCount(w.rows) >= maxSessions then (w, SlotConflict)
    else if !c.db.create || Conflicts(w.rows, w.nextId, NewRow(c)) then (w, DatabaseError)
    else (w.(rows := w.rows[w.nextId := NewRow(c)], nextId := w.nextId + 1), Launched(w.nextId))
  }

  /** Which of the steps of one provisioning run work. */
  datatype ProvisionFaults = ProvisionFaults(image: bool, create: Fault, topology: bool, start: bool, now: int)

  function Provision(w: World, id: nat, f: ProvisionFaults): World {
    if !f.image then w.(rows := SetStatus(w.rows, id, Failed))
    else
      var w1 := w.(server := Created(w.server, f.create));
      if !f.create.Works? || !f.topology || !f.start
      then w1.(rows := SetStatus(w.rows, id, Failed))
      else w1.(rows := SetProvisioned(w.rows, id, w.server.next, f.now))
  }

  /** EndLab: delete the project first, end the row only when that worked. */
  function EndLab(w: World, id: nat, f: Fault): (World, bool) {
    if id !in w.rows then (w, false)
    else if w.rows[id].project.None? then (w.(rows := End(w.rows, id)), true)
    else
      var w1 := w.(server := Deleted(w.server, w.rows[id].project.value, f));
      if f.Works? then (w1.(rows := End(w.rows, id)), true) else (w1, false)
  }

  class Service {
    const repo: Repository
    const gns3: Gns3Client
    const maxSessions: int

    constructor (repo: Repository, gns3: Gns3Client, maxSessions: int)
      ensures this.repo == repo && this.gns3 == gns3 && this.maxSessions == maxSessions
    {
      this.repo := repo;
      this.gns3 := gns3;
      this.maxSessions := maxSessions;
    }

    function View(): World
      reads repo, gns3
    {
      World(repo.rows, repo.nextId, gns3.View())
    }

    method ResumeSession(id: nat, c: LaunchCall) returns (result: LaunchResult)
      requires id in repo.rows
      modifies repo
      ensures (View(), result) == Resume(old(View()), id, c)
    {
      if repo.rows[id].project.None? {
        return NoProjectCrash;
      }
      if !c.startWorks {
        return StartFailed;
      }
      if !c.db.status {
        return DatabaseError;
      }
      var ok := repo.Update(id, Running);
      if !ok {
        return DatabaseError;
      }
      if c.db.touch {
        repo.UpdateTouched(id, c.now);
      }
      result := Resumed(id);
    }

    method LaunchSession(c: LaunchCall) returns (result: LaunchResult, ghost found: Option<nat>)
      modifies repo
      ensures found.Some? ==> IsActiveFor(old(repo.rows), found.value, c.user, c.lab)
      ensures found.None? && c.isPro && c.hasNodes && c.db.find ==>
                forall id :: !IsActiveFor(old(repo.rows), id, c.user, c.lab)
      ensures (View(), result) == Launch(maxSessions, old(View()), found, c)
    {
      hide Resume, Conflicts;
      found := None;
      if !c.isPro {
        return PlanGate, found;
      }
      if !c.hasNodes {
        return ConceptualLab, found;
      }
      if !c.db.find {
        return DatabaseError, found;
      }
      var existing := repo.FindActiveForUserLab(c.user, c.lab);
      found := existing;
      if existing.Some? {
        if repo.rows[existing.value].status == IdleStopped {
          result := ResumeSession(existing.value, c);
          return result, found;
        }
        return Resumed(existing.value), found;
      }
      if !c.db.count {
        return DatabaseError, found;
      }
      var count := repo.CountActive();
      if count >= maxSessions {
        return SlotConflict, found;
      }
      if !c.db.create {
        return DatabaseError, found;
      }
      var created := repo.Create(c.user, c.lab, c.now);
      if created.None? {
        return DatabaseError, found;
      }
      result := Launched(created.value);
    }

    method ProvisionSession(id: nat, f: ProvisionFaults)
      modifies repo, gns3
      ensures View() == Provision(old(View()), id, f)
    {
      if !f.image {
        var _ := repo.Update(id, Failed);
        return;
      }
      var project, created := gns3.CreateProject(f.create);
      if !created || !f.topology || !f.start {
        var _ := repo.Update(id, Failed);
        return;
      }
      repo.UpdateProvisioned(id, project, f.now);
    }

    method Heartbeat(id: nat, now: int)
      modifies repo
      ensures View() == old(View()).(rows := Touch(old(repo.rows), id, now))
    {
      repo.UpdateTouched(id, now);
    }

    method EndSession(id: nat, f: Fault) returns (ok: bool)
      modifies repo, gns3
      ensures (View(), ok) == EndLab(old(View()), id, f)
    {
      if id !in repo.rows {
        return false;
      }
      var row := repo.rows[id];
      if row.project.Some? {
        ok := gns3.DeleteProject(row.project.value, f);
        if !ok {
          return false;
        }
      }
      var _ := repo.Update(id, Ended);
      ok := true;
    }
  }

  // ---------------------------------------------------------------------------
  // The reaper (reaper.go)
  // ---------------------------------------------------------------------------

  /** Consecutive failures per session. */
  datatype Counters = Counters(stops: map<nat, nat>, teardowns: map<nat, nat>)

  function CountOf(m: map<nat, nat>, id: nat): nat {
    if id in m then m[id] else 0
  }

  /** The adversary of one sweep. Each session meets each kind of call at most once a sweep. */
  datatype Adversary = Adversary(
    runningQuery: bool, idleQuery: bool,
    stop: nat -> bool, forceAfterStop: nat -> Fault,
    verify: nat -> Script, forceAfterTeardown: nat -> Fault)

  datatype Reaping = Reaping(world: World, counters: Counters)

  /** Tier 1: stop the nodes of an idle running session, escalate to a delete after three failures. */
  function Suspend(r: Reaping, id: nat, a: Adversary): Reaping
    requires id in r.world.rows
  {
    var w, k := r.world, r.counters;
    var row := w.rows[id];
    if row.project.None? then
      Reaping(w.(rows := SetStatus(w.rows, id, Failed)), k.(stops := k.stops - {id}))
    else if a.stop(id) then
      Reaping(w.(rows := SetStatus(w.rows, id, IdleStopped)), k.(stops := k.stops - {id}))
    else
      var attempts := CountOf(k.stops, id) + 1;
      var k1 := k.(stops := k.stops[id := attempts]);
      if attempts < MAX_STOP_ATTEMPTS then Reaping(w, k1)
      else
        var w1 := w.(server := Deleted(w.server, row.project.value, a.forceAfterStop(id)));
        if a.forceAfterStop(id).Works?
        then Reaping(w1.(rows := End(w.rows, id)), k.(stops := k.stops - {id}))
        else Reaping(w1, k1)
  }

  /** Tier 2: verified teardown of a long-idle session, escalate to a raw delete after three failures. */
  function TearDown(r: Reaping, id: nat, a: Adversary): Reaping
    requires id in r.world.rows
  {
    var w, k := r.world, r.counters;
    var row := w.rows[id];
    var forget := Counters(k.stops - {id}, k.teardowns - {id});
    if row.project.None? then Reaping(w.(rows := End(w.rows, id)), forget)
    else
      var p := row.project.value;
      var w1 := w.(server := AfterTeardown(w.server, p, a.verify(id)));
      if Confirmed(a.verify(id)) then Reaping(w1.(rows := End(w.rows, id)), forget)
      else
        var attempts := CountOf(k.teardowns, id) + 1;
        var k1 := k.(teardowns := k.teardowns[id := attempts]);
        if attempts < MAX_TEARDOWN_ATTEMPTS then Reaping(w1, k1)
        else
          var w2 := w1.(server := Deleted(w1.server, p, a.forceAfterTeardown(id)));
          if a.forceAfterTeardown(id).Works? then Reaping(w2.(rows := End(w.rows, id)), forget)
          else Reaping(w2, k1)
  }

  lemma RowsStay(r: Reaping, id: nat, a: Adversary)
    requires id in r.world.rows
    ensures Suspend(r, id, a).world.rows.Keys == r.world.rows.Keys
    ensures TearDown(r, id, a).world.rows.Keys == r.world.rows.Keys
  {
  }

  function SuspendAll(r: Reaping, ids: seq<nat>, a: Adversary): (r': Reaping)
    requires forall i :: i in ids ==> i in r.world.rows
    ensures r'.world.rows.Keys == r.world.rows.Keys
  {
    if ids == [] then r
    else
      RowsStay(SuspendAll(r, ids[..|ids| - 1], a), ids[|ids| - 1], a);
      Suspend(SuspendAll(r, ids[..|ids| - 1], a), ids[|ids| - 1], a)
  }

  function TearDownAll(r: Reaping, ids: seq<nat>, a: Adversary): (r': Reaping)
    requires forall i :: i in ids ==> i in r.world.rows
    ensures r'.world.rows.Keys == r.world.rows.Keys
  {
    if ids == [] then r
    else
      RowsStay(TearDownAll(r, ids[..|ids| - 1], a), ids[|ids| - 1], a);
      TearDown(TearDownAll(r, ids[..|ids| - 1], a), ids[|ids| - 1], a)
  }

  /** The thresholds, as the queries receive them. */
  datatype Thresholds = Thresholds(idleMinutes: int, ttlHours: int) {
    function IdleSeconds(): int {
      60 * idleMinutes
    }

    function TtlSeconds(): int {
      3600 * ttlHours
    }
  }

  /** The orders in which the two queries listed their rows. A failed query lists none. */
  datatype Orders = Orders(running: seq<nat>, idle: seq<nat>)

  function Tier1(r: Reaping, a: Adversary, o: Orders): (r': Reaping)
    requires forall i :: i in o.running ==> i in r.world.rows
    ensures r'.world.rows.Keys == r.world.rows.Keys
  {
    if a.runningQuery then SuspendAll(r, o.running, a) else r
  }

  function Sweep(r: Reaping, a: Adversary, o: Orders): Reaping
    requires forall i :: i in o.running || i in o.idle ==> i in r.world.rows
  {
    var r1 := Tier1(r, a, o);
    if a.idleQuery then TearDownAll(r1, o.idle, a) else r1
  }

  /** `o` is what the queries answer during a sweep at `now`. */
  ghost predicate Queried(r: Reaping, t: Thresholds, now: int, a: Adversary, o: Orders) {
    && Lists(o.running, Stale(r.world.rows, Running, now, t.IdleSeconds()))
    && (forall i :: i in o.running ==> i in r.world.rows)
    && Lists(o.idle, Stale(Tier1(r, a, o).world.rows, IdleStopped, now, t.TtlSeconds()))
  }

  class Reaper {
    const repo: Repository
    const gns3: Gns3Client
    const thresholds: Thresholds
    var stopAttempts: map<nat, nat>
    var teardownAttempts: map<nat, nat>

    constructor (repo: Repository, gns3: Gns3Client, thresholds: Thresholds)
      ensures this.repo == repo && this.gns3 == gns3 && this.thresholds == thresholds
      ensures stopAttempts == map[] && teardownAttempts == map[]
    {
      this.repo := repo;
      this.gns3 := gns3;
      this.thresholds := thresholds;
      stopAttempts := map[];
      teardownAttempts := map[];
    }

    function View(): Reaping
      reads this, repo, gns3
    {
      Reaping(World(repo.rows, repo.nextId, gns3.View()), Counters(stopAttempts, teardownAttempts))
    }

    method SuspendOne(id: nat, a: Adversary)
      requires id in repo.rows
      modifies this, repo`rows, gns3
      ensures View() == Suspend(old(View()), id, a)
    {
      var row := repo.rows[id];
      if row.project.None? {
        var _ := repo.Update(id, Failed);
        stopAttempts := stopAttempts - {id};
        return;
      }
      if a.stop(id) {
        var _ := repo.Update(id, IdleStopped);
        stopAttempts := stopAttempts - {id};
        return;
      }
      var attempts := CountOf(stopAttempts, id) + 1;
      ghost var before := stopAttempts;
      stopAttempts := stopAttempts[id := attempts];
      if attempts >= MAX_STOP_ATTEMPTS {
        var deleted := gns3.DeleteProject(row.project.value, a.forceAfterStop(id));
        if !deleted {
          return;
        }
        var _ := repo.Update(id, Ended);
        stopAttempts := stopAttempts - {id};
        assert stopAttempts == before - {id};
      }
    }

    method TearDownOne(id: nat, a: Adversary)
      requires id in repo.rows
      modifies this, repo`rows, gns3
      ensures View() == TearDown(old(View()), id, a)
    {
      var row := repo.rows[id];
      if row.project.None? {
        var _ := repo.Update(id, Ended);
        stopAttempts := stopAttempts - {id};
        teardownAttempts := teardownAttempts - {id};
        return;
      }
      var p := row.project.value;
      var confirmed, _ := WaitTeardownComplete(gns3, p, a.verify(id));
      if !confirmed {
        var attempts := CountOf(teardownAttempts, id) + 1;
        ghost var before := teardownAttempts;
        teardownAttempts := teardownAttempts[id := attempts];
        if attempts >= MAX_TEARDOWN_ATTEMPTS {
          var deleted := gns3.DeleteProject(p, a.forceAfterTeardown(id));
          if !deleted {
            return;
          }
          var _ := repo.Update(id, Ended);
          stopAttempts := stopAttempts - {id};
          teardownAttempts := teardownAttempts - {id};
          assert teardownAttempts == before - {id};
        }
        return;
      }
      var _ := repo.Update(id, Ended);
      stopAttempts := stopAttempts - {id};
      teardownAttempts := teardownAttempts - {id};
    }

    method SweepOnce(now: int, a: Adversary) returns (ghost o: Orders)
      modifies this, repo`rows, gns3
      ensures Queried(old(View()), thresholds, now, a, o)
      ensures forall i :: i in o.running || i in o.idle ==> i in old(repo.rows)
      ensures View() == Sweep(old(View()), a, o)
    {
      var running := repo.SelectStale(Running, now, thresholds.IdleSeconds());
      ghost var start := View();
      if a.runningQuery {
        for n := 0 to |running|
          invariant forall i :: i in running ==> i in start.world.rows
          invariant View() == SuspendAll(start, running[..n], a)
        {
          assert running[..n + 1][..n] == running[..n];
          SuspendOne(running[n], a);
        }
        assert running[..|running|] == running;
      }
      ghost var middle := View();
      var idle := repo.SelectStale(IdleStopped, now, thresholds.TtlSeconds());
      o := Orders(running, idle);
      assert middle == Tier1(start, a, o);
      if a.idleQuery {
        for n := 0 to |idle|
          invariant forall i :: i in idle ==> i in middle.world.rows
          invariant View() == TearDownAll(middle, idle[..n], a)
        {
          assert idle[..n + 1][..n] == idle[..n];
          TearDownOne(idle[n], a);
        }
        assert idle[..|idle|] == idle;
      }
    }
  }
}
