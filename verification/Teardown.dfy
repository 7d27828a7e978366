/**
 The GNS3 server as the session code sees it, and the teardown verifier of
 internal/labsession/teardown_verifier.go.

 The server is adversarial: any call may fail, with or without having taken effect, and a
 probe may answer anything. Deadlines are part of the adversary's choice.
 */
module Teardown {

  /** What becomes of one call. */
  datatype Fault = Works | FailsClean | FailsAfterEffect

  /** The answer to a yes/no probe; a transport error or an odd status is `Unreachable`. */
  datatype Probe = Says(yes: bool) | Unreachable

  /** Everything the adversary decides during one teardown: the probe answers that arrive
      before the deadline, the fate of the delete, and whether the settle delay elapses in time. */
  datatype Script = Script(stopped: seq<Probe>, deletion: Fault, present: seq<Probe>, settles: bool)

  /** The projects that exist. Ids below `next` have been handed out; none is used twice. */
  datatype Server = Server(live: set<nat>, next: nat)

  /** DeleteProject: a project that is already gone counts as deleted. */
  function Deleted(g: Server, p: nat, f: Fault): Server {
    if f.FailsClean? then g else g.(live := g.live - {p})
  }

  /** CreateProject: only a call that works tells the caller the new id. */
  function Created(g: Server, f: Fault): Server {
    if f.FailsClean? then g else Server(g.live + {g.next}, g.next + 1)
  }

  class Gns3Client {
    var live: set<nat>
    var next: nat

    function View(): Server
      reads this
    {
      Server(live, next)
    }

    constructor ()
      ensures View() == Server({}, 0)
    {
      live := {};
      next := 0;
    }

    method DeleteProject(p: nat, f: Fault) returns (ok: bool)
      modifies this
      ensures View() == Deleted(old(View()), p, f) && ok == f.Works?
    {
      if f != FailsClean {
        live := live - {p};
      }
      ok := f == Works;
    }

    method CreateProject(f: Fault) returns (id: nat, ok: bool)
      modifies this
      ensures View() == Created(old(View()), f) && ok == f.Works? && id == old(next)
    {
      id := next;
      if f != FailsClean {
        live := live + {next};
        next := next + 1;
      }
      ok := f == Works;
    }
  }

  // ---------------------------------------------------------------------------
  // Polling
  // ---------------------------------------------------------------------------

  /** What a poll for `want` asked: up to and including the first answer that is not
      "not yet". When there is no such answer the deadline ended the poll. */
  function Asked(probes: seq<Probe>, want: bool): seq<Probe> {
    if probes == [] then []
    else if probes[0] == Says(!want) then [probes[0]] + Asked(probes[1..], want)
    else [probes[0]]
  }

  function Satisfied(probes: seq<Probe>, want: bool): bool {
    var asked := Asked(probes, want);
    asked != [] && asked[|asked| - 1] == Says(want)
  }

  lemma {:induction false} AskedPrefix(probes: seq<Probe>, want: bool)
    ensures Asked(probes, want) <= probes
    ensures forall i :: 0 <= i < |Asked(probes, want)| - 1 ==> Asked(probes, want)[i] == Says(!want)
  {
    if probes != [] && probes[0] == Says(!want) {
      AskedPrefix(probes[1..], want);
    }
  }

  lemma {:induction false} AskedPast(probes: seq<Probe>, want: bool, i: nat)
    requires i <= |probes| && forall j :: 0 <= j < i ==> probes[j] == Says(!want)
    ensures Asked(probes, want) == probes[..i] + Asked(probes[i..], want)
    decreases i
  {
    if i == 0 {
      assert probes[0..] == probes;
    } else {
      AskedPast(probes[1..], want, i - 1);
      assert probes[1..][i - 1..] == probes[i..];
      assert [probes[0]] + probes[1..][..i - 1] == probes[..i];
    }
  }

  /** The k-th answer is the wanted one, and all before it were "not yet". */
  predicate AnswersAt(probes: seq<Probe>, want: bool, k: nat) {
    k < |probes| && probes[k] == Says(want) && forall j :: 0 <= j < k ==> probes[j] == Says(!want)
  }

  /** The wanted answer comes, with nothing but "not yet" before it. */
  ghost predicate Answers(probes: seq<Probe>, want: bool) {
    exists k: nat :: AnswersAt(probes, want, k)
  }

  /** A poll succeeds exactly when the wanted answer comes before any error and before the deadline, and it asks up
      to that answer and no further. */
  lemma {:induction false} SatisfiedExactly(probes: seq<Probe>, want: bool)
    ensures Satisfied(probes, want) <==> Answers(probes, want)
    ensures forall k: nat :: AnswersAt(probes, want, k) ==> Asked(probes, want) == probes[..k + 1]
  {
    AskedPrefix(probes, want);
    forall k: nat | AnswersAt(probes, want, k) ensures Asked(probes, want) == probes[..k + 1] {
      AskedPast(probes, want, k);
      assert Asked(probes[k..], want) == [probes[k]];
    }
    var asked := Asked(probes, want);
    if Satisfied(probes, want) {
      assert AnswersAt(probes, want, |asked| - 1);
    }
    if k: nat :| AnswersAt(probes, want, k) {
      assert asked == probes[..k + 1] && asked[|asked| - 1] == probes[k];
    }
  }

  method WaitUntil(probes: seq<Probe>, want: bool) returns (ok: bool, asked: seq<Probe>)
    ensures asked == Asked(probes, want) && ok == Satisfied(probes, want)
    ensures ok <==> Answers(probes, want)
  {
    SatisfiedExactly(probes, want);
    var i := 0;
    asked := [];
    while i < |probes|
      invariant 0 <= i <= |probes| && asked == probes[..i]
      invariant forall j :: 0 <= j < i ==> probes[j] == Says(!want)
    {
      var answer := probes[i];
      AskedPast(probes, want, i);
      asked := asked + [answer];
      if answer == Unreachable {
        return false, asked;
      }
      if answer == Says(want) {
        return true, asked;
      }
      i := i + 1;
    }
    AskedPast(probes, want, i);
    ok := false;
  }

  // ---------------------------------------------------------------------------
  // The verified teardown
  // ---------------------------------------------------------------------------

  datatype Call =
    | AskStopped(answer: Probe)
    | Delete(ok: bool)
    | AskExists(answer: Probe)
    | Settle(elapsed: bool)

  function StoppedCalls(ps: seq<Probe>): (cs: seq<Call>)
    ensures |cs| == |ps| && forall i :: 0 <= i < |ps| ==> cs[i] == AskStopped(ps[i])
  {
    seq(|ps|, i requires 0 <= i < |ps| => AskStopped(ps[i]))
  }

  function ExistsCalls(ps: seq<Probe>): (cs: seq<Call>)
    ensures |cs| == |ps| && forall i :: 0 <= i < |ps| ==> cs[i] == AskExists(ps[i])
  {
    seq(|ps|, i requires 0 <= i < |ps| => AskExists(ps[i]))
  }

  /** The calls one teardown makes. */
  function Trace(s: Script): seq<Call> {
    var first := StoppedCalls(Asked(s.stopped, true));
    if !Satisfied(s.stopped, true) then first
    else if !s.deletion.Works? then first + [Delete(false)]
    else
      var upTo := first + [Delete(true)] + ExistsCalls(Asked(s.present, false));
      if !Satisfied(s.present, false) then upTo else upTo + [Settle(s.settles)]
  }

  predicate Confirmed(s: Script) {
    Satisfied(s.stopped, true) && s.deletion.Works? && Satisfied(s.present, false) && s.settles
  }

  /** What the teardown does to the server, whatever it reports. */
  function AfterTeardown(g: Server, p: nat, s: Script): Server {
    if Satisfied(s.stopped, true) then Deleted(g, p, s.deletion) else g
  }

  method WaitTeardownComplete(gns3: Gns3Client, p: nat, s: Script) returns (ok: bool, trace: seq<Call>)
    modifies gns3
    ensures ok == Confirmed(s) && trace == Trace(s)
    ensures ok <==> Answers(s.stopped, true) && s.deletion == Works && Answers(s.present, false) && s.settles
    ensures gns3.View() == AfterTeardown(old(gns3.View()), p, s)
  {
    ConfirmedExactly(s);
    var stopped, asked := WaitUntil(s.stopped, true);
    trace := StoppedCalls(asked);
    if !stopped {
      return false, trace;
    }
    var deleted := gns3.DeleteProject(p, s.deletion);
    trace := trace + [Delete(deleted)];
    if !deleted {
      return false, trace;
    }
    var gone, probed := WaitUntil(s.present, false);
    trace := trace + ExistsCalls(probed);
    if !gone {
      return false, trace;
    }
    trace := trace + [Settle(s.settles)];
    ok := s.settles;
  }

  /** Main result: a teardown is confirmed exactly when both polls get their answer, the delete works and the delay
      elapses. */
  lemma ConfirmedExactly(s: Script)
    ensures Confirmed(s) <==> Answers(s.stopped, true) && s.deletion == Works && Answers(s.present, false) && s.settles
  {
    SatisfiedExactly(s.stopped, true);
    SatisfiedExactly(s.present, false);
    hide Satisfied, Answers;
  }

  /** Main result: the project leaves the server exactly when the nodes were seen stopped and the delete took
      effect, whatever was reported. */
  lemma ProjectLeavesExactly(g: Server, p: nat, s: Script)
    requires p in g.live
    ensures p !in AfterTeardown(g, p, s).live <==> Answers(s.stopped, true) && s.deletion != FailsClean
    ensures AfterTeardown(g, p, s).next == g.next
  {
    SatisfiedExactly(s.stopped, true);
    hide Satisfied, Answers;
  }

  /** Positive evidence, as a shape of the trace: polls that said "still running", one that said
      "stopped", directly after it the one delete, which worked, then polls that said "still there",
      one that said "gone", and the settle delay. No error anywhere. `d` is the position of the delete. */
  ghost predicate Evidence(t: seq<Call>, d: nat) {
    && 1 <= d < |t| - 2
    && (forall i :: 0 <= i < d - 1 ==> t[i] == AskStopped(Says(false)))
    && t[d - 1] == AskStopped(Says(true))
    && t[d] == Delete(true)
    && (forall i :: d < i < |t| - 2 ==> t[i] == AskExists(Says(true)))
    && t[|t| - 2] == AskExists(Says(false))
    && t[|t| - 1] == Settle(true)
  }

  /** Main result: success is reported exactly on positive evidence. */
  lemma SuccessNeedsEvidence(s: Script)
    ensures Confirmed(s) <==> exists d: nat :: Evidence(Trace(s), d)
  {
    var t := Trace(s);
    AskedPrefix(s.stopped, true);
    AskedPrefix(s.present, false);
    var first, second := Asked(s.stopped, true), Asked(s.present, false);
    if Confirmed(s) {
      assert t == StoppedCalls(first) + [Delete(true)] + ExistsCalls(second) + [Settle(true)];
      assert Evidence(t, |first|);
    }
    if d: nat :| Evidence(t, d) {
      assert t[|t| - 1] == Settle(true);
    }
  }

  /** A delete is issued at most once, and only right after the nodes were seen stopped. */
  lemma DeleteOnlyAfterStopped(s: Script, q: nat)
    requires q < |Trace(s)| && Trace(s)[q].Delete?
    ensures q > 0 && Trace(s)[q - 1] == AskStopped(Says(true))
    ensures Trace(s)[q].ok <==> s.deletion == Works
    ensures forall r :: 0 <= r < |Trace(s)| && Trace(s)[r].Delete? ==> r == q
  {
    var first := Asked(s.stopped, true);
    var t := Trace(s);
    assert forall r :: 0 <= r < |first| ==> t[r] == AskStopped(first[r]);
    assert q == |first|;
  }

  /** A confirmed teardown leaves no project behind, and no teardown touches another one. */
  lemma ConfirmedMeansGone(g: Server, p: nat, s: Script)
    ensures Confirmed(s) ==> p !in AfterTeardown(g, p, s).live
    ensures AfterTeardown(g, p, s).live - {p} == g.live - {p}
  {
  }
}
