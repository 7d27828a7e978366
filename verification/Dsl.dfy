/**
 The assertion language of internal/verify and its runner: a lab phase is a list of
 assertions, each of which reads at most one piece of evidence and then decides.

 A message is kept as its format string and arguments.
 */
module Dsl {
  import opened Wrappers
  import opened Evidence

  datatype Arg = Text(s: string) | Number(n: int) | Names(names: set<string>)

  datatype Message = Message(format: string, args: seq<Arg>)

  datatype Check = Check(name: Message, passed: bool, detail: Message)

  datatype Assertion =
    | ExpectMACOnPort(name: string, mac: string, port: string)
    | ExpectMACsShareOnePort(name: string, macs: seq<string>, port: string)
    | ExpectMACCount(n: int)
    | ExpectInterfaceUp(port: string)
    | ExpectInterfaceDown(port: string)
    | ExpectInterfaceSpeed(port: string, mbps: int)
    | ExpectInterfaceDuplex(port: string, duplex: string)
    | ExpectDescription(port: string, text: string)
    | ExpectPortVLAN(port: string, vlan: int)
    | ExpectErrdisableRecovery(intervalSec: int)
    | ExpectReachable(name: string, target: string)
    | ExpectNotReachable(name: string, target: string)
    | ExpectRootBridge(device: string)
    | ExpectPortRole(device: string, iface: string, role: string)
    | ExpectPortSecurityViolations(iface: string, min: int)
    | ExpectPortSecurityEnabled(iface: string)

  function NameOf(a: Assertion): Message {
    match a
    case ExpectMACOnPort(name, _, _) => Message(name, [])
    case ExpectMACsShareOnePort(name, _, _) => Message(name, [])
    case ExpectMACCount(n) => Message("CAM table has >= %d entries", [Number(n)])
    case ExpectInterfaceUp(p) => Message("%s is up", [Text(p)])
    case ExpectInterfaceDown(p) => Message("%s is administratively down", [Text(p)])
    case ExpectInterfaceSpeed(p, m) => Message("%s speed = %dMbps", [Text(p), Number(m)])
    case ExpectInterfaceDuplex(p, d) => Message("%s duplex = %s", [Text(p), Text(d)])
    case ExpectDescription(p, _) => Message("%s description set", [Text(p)])
    case ExpectPortVLAN(p, v) => Message("%s in VLAN %d", [Text(p), Number(v)])
    case ExpectErrdisableRecovery(_) => Message("errdisable auto-recovery enabled", [])
    case ExpectReachable(name, _) => Message("%s reachable", [Text(name)])
    case ExpectNotReachable(name, _) => Message("%s NOT reachable", [Text(name)])
    case ExpectRootBridge(d) => Message("%s is STP root bridge", [Text(d)])
    case ExpectPortRole(d, i, r) => Message("%s:%s is STP %s", [Text(d), Text(i), Text(r)])
    case ExpectPortSecurityViolations(i, m) => Message("port-security violations on %s >= %d", [Text(i), Number(m)])
    case ExpectPortSecurityEnabled(i) => Message("port-security enabled on %s", [Text(i)])
  }

  /** What the assertion reads; an unset target is decided without asking the device. */
  function Needs(a: Assertion): Option<Key> {
    match a
    case ExpectMACOnPort(_, _, _) => Some(MACTableKey)
    case ExpectMACsShareOnePort(_, _, _) => Some(MACTableKey)
    case ExpectMACCount(_) => Some(MACTableKey)
    case ExpectInterfaceUp(p) => Some(InterfaceKey(p))
    case ExpectInterfaceDown(p) => Some(InterfaceKey(p))
    case ExpectInterfaceSpeed(p, _) => Some(InterfaceKey(p))
    case ExpectInterfaceDuplex(p, _) => Some(InterfaceKey(p))
    case ExpectDescription(p, _) => Some(InterfaceKey(p))
    case ExpectPortVLAN(_, _) => Some(VLANsKey)
    case ExpectErrdisableRecovery(_) => Some(ErrdisableKey)
    case ExpectReachable(_, t) => if t == "" then None else Some(ReachKey(t))
    case ExpectNotReachable(_, t) => if t == "" then None else Some(ReachKey(t))
    case ExpectRootBridge(_) => Some(STPKey)
    case ExpectPortRole(_, _, _) => Some(STPKey)
    case ExpectPortSecurityViolations(i, _) => Some(PortSecurityKey(i))
    case ExpectPortSecurityEnabled(i) => Some(PortSecurityKey(i))
  }

  // ---------------------------------------------------------------------------
  // Verdicts: pure decisions on evidence
  // ---------------------------------------------------------------------------

  datatype Verdict = Verdict(passed: bool, detail: Message)

  function Fail(format: string, args: seq<Arg>): Verdict {
    Verdict(false, Message(format, args))
  }

  function Pass(format: string, args: seq<Arg>): Verdict {
    Verdict(true, Message(format, args))
  }

  /** The port of the first entry for `mac`. */
  function PortOf(t: seq<MACEntry>, mac: string): Option<string> {
    if t == [] then None
    else if t[0].mac == mac then Some(t[0].port)
    else PortOf(t[1..], mac)
  }

  lemma {:induction false} PortOfFrom(t: seq<MACEntry>, mac: string, i: nat)
    requires i <= |t| && forall j :: 0 <= j < i ==> t[j].mac != mac
    ensures PortOf(t, mac) == PortOf(t[i..], mac)
    decreases i
  {
    if i == 0 {
      assert t[0..] == t;
    } else {
      PortOfFrom(t[1..], mac, i - 1);
      assert t[1..][i - 1..] == t[i..];
    }
  }

  method PortFor(t: seq<MACEntry>, mac: string) returns (port: Option<string>)
    ensures port == PortOf(t, mac)
    ensures port.Some? <==> exists i :: 0 <= i < |t| && t[i].mac == mac
  {
    for i := 0 to |t|
      invariant forall j :: 0 <= j < i ==> t[j].mac != mac
    {
      if t[i].mac == mac {
        PortOfFrom(t, mac, i);
        return Some(t[i].port);
      }
    }
    PortOfFrom(t, mac, |t|);
    port := None;
  }

  const NOT_LEARNED := "MAC %s not learned on any port — generate traffic from this host and re-verify"
  const ELSEWHERE := "MAC %s expected on %s, found on %s"

  function ShareVerdict(t: seq<MACEntry>, macs: seq<string>, total: nat, port: string): Verdict {
    if macs == [] then Pass("all %d MACs learned on %s", [Number(total), Text(port)])
    else
      match PortOf(t, macs[0])
      case None => Fail(NOT_LEARNED, [Text(macs[0])])
      case Some(p) =>
        if p != port then Fail(ELSEWHERE, [Text(macs[0]), Text(port), Text(p)])
        else ShareVerdict(t, macs[1..], total, port)
  }

  /** The group passes exactly when every MAC of it was learned on the one port. */
  lemma {:induction false} ShareExactly(t: seq<MACEntry>, macs: seq<string>, total: nat, port: string)
    ensures ShareVerdict(t, macs, total, port).passed
            <==> forall i :: 0 <= i < |macs| ==> PortOf(t, macs[i]) == Some(port)
  {
    if macs == [] {
    } else {
      ShareExactly(t, macs[1..], total, port);
      assert forall i :: 0 < i < |macs| ==> macs[i] == macs[1..][i - 1];
    }
  }

  method JudgeShared(t: seq<MACEntry>, macs: seq<string>, port: string) returns (v: Verdict)
    ensures v == ShareVerdict(t, macs, |macs|, port)
  {
    for i := 0 to |macs|
      invariant ShareVerdict(t, macs, |macs|, port) == ShareVerdict(t, macs[i..], |macs|, port)
    {
      var got := PortFor(t, macs[i]);
      assert macs[i..][1..] == macs[i + 1..];
      if got == None {
        return Fail(NOT_LEARNED, [Text(macs[i])]);
      }
      if got.value != port {
        return Fail(ELSEWHERE, [Text(macs[i]), Text(port), Text(got.value)]);
      }
    }
    v := Pass("all %d MACs learned on %s", [Number(|macs|), Text(port)]);
  }

  function JudgeMACTable(a: Assertion, t: seq<MACEntry>): Verdict
    requires Needs(a) == Some(MACTableKey)
  {
    match a
    case ExpectMACOnPort(_, mac, port) =>
      (match PortOf(t, mac)
       case None =>
         Fail("MAC %s not learned on any port — generate traffic from this host (e.g. ping from it) and re-verify", [Text(mac)])
       case Some(p) =>
         if p != port then Fail("expected %s, found on %s", [Text(port), Text(p)])
         else Pass("learned on %s", [Text(port)]))
    case ExpectMACsShareOnePort(_, macs, port) => ShareVerdict(t, macs, |macs|, port)
    case ExpectMACCount(n) =>
      if |t| < n then Fail("expected >= %d MAC entries, found %d", [Number(n), Number(|t|)])
      else Pass("%d entries (min %d)", [Number(|t|), Number(n)])
  }

  function JudgeInterface(a: Assertion, i: InterfaceStatus): Verdict
    requires Needs(a).Some? && Needs(a).value.InterfaceKey?
  {
    match a
    case ExpectInterfaceUp(_) =>
      if i.errDisabled then Fail("port is err-disabled", [])
      else if !i.adminUp then Fail("port is administratively shut down", [])
      else if !i.linkUp then Fail("no link detected", [])
      else Pass("up and forwarding", [])
    case ExpectInterfaceDown(_) =>
      if i.adminUp then Fail("port is administratively up (expected shutdown)", [])
      else Pass("administratively down", [])
    case ExpectInterfaceSpeed(_, mbps) =>
      if i.speedMbps != mbps then Fail("expected %dMbps, found %dMbps", [Number(mbps), Number(i.speedMbps)])
      else Pass("speed matches", [])
    case ExpectInterfaceDuplex(_, d) =>
      if i.duplex != d then Fail("expected %s, found %s", [Text(d), Text(i.duplex)])
      else Pass("duplex matches", [])
    case ExpectDescription(_, text) =>
      if i.description != text then Fail("expected %q, found %q", [Text(text), Text(i.description)])
      else Pass("description matches", [])
  }

  function JudgeSTP(a: Assertion, s: STPInfo): Verdict
    requires Needs(a) == Some(STPKey)
  {
    match a
    case ExpectRootBridge(d) =>
      if !s.isRoot then Fail("%s is not root — root is %s", [Text(d), Text(s.rootMAC)])
      else Pass("root bridge %s", [Text(s.rootMAC)])
    case ExpectPortRole(_, iface, role) =>
      if s.portRoles.None? then Fail("no port roles in STP output", [])
      else if iface !in s.portRoles.value
      then Fail("interface %s not in STP output (known: %v)", [Text(iface), Names(s.portRoles.value.Keys)])
      else if s.portRoles.value[iface] != role
      then Fail("expected role %s, found %s", [Text(role), Text(s.portRoles.value[iface])])
      else Pass("%s is %s", [Text(iface), Text(role)])
  }

  function JudgePortSecurity(a: Assertion, p: PortSecurityInfo): Verdict
    requires Needs(a).Some? && Needs(a).value.PortSecurityKey?
  {
    match a
    case ExpectPortSecurityViolations(i, min) =>
      if p.violationCount < min
      then Fail("expected >= %d violations on %s, found %d", [Number(min), Text(i), Number(p.violationCount)])
      else Pass("%d violations on %s (min %d)", [Number(p.violationCount), Text(i), Number(min)])
    case ExpectPortSecurityEnabled(i) =>
      if !p.enabled then Fail("port-security not enabled on %s", [Text(i)])
      else
        Pass("port-security enabled on %s (max %d, mode %s)", [Text(i), Number(p.maxMACs), Text(p.violationMode)])
  }

  function JudgeReach(a: Assertion, reachable: bool): Verdict
    requires Needs(a).Some? && Needs(a).value.ReachKey?
  {
    match a
    case ExpectReachable(name, t) =>
      if !reachable then Fail("%s (%s) did not respond", [Text(t), Text(name)]) else Pass("%s responded", [Text(t)])
    case ExpectNotReachable(name, t) =>
      if reachable then Fail("%s (%s) responded but should be blocked", [Text(t), Text(name)])
      else Pass("%s correctly blocked", [Text(t)])
  }

  function JudgeVLANs(port: string, vlan: int, m: map<string, int>): Verdict {
    if port !in m then Fail("no VLAN assignment found for %s", [Text(port)])
    else if m[port] != vlan then Fail("expected VLAN %d, found VLAN %d", [Number(vlan), Number(m[port])])
    else Pass("in VLAN %d", [Number(vlan)])
  }

  function JudgeErrdisable(intervalSec: int, c: ErrdisableConfig): Verdict {
    if !c.enabled then Fail("errdisable recovery not enabled", [])
    else if c.intervalSec != intervalSec
    then Fail("expected interval %ds, found %ds", [Number(intervalSec), Number(c.intervalSec)])
    else Pass("enabled with correct interval", [])
  }

  /** The verdict on evidence of the right type. */
  function JudgeValue(a: Assertion, v: Value): Verdict
    requires Needs(a).Some? && Fits(Needs(a).value, v)
  {
    match v
    case MACTableValue(t) => JudgeMACTable(a, t)
    case InterfaceValue(i) => JudgeInterface(a, i)
    case ErrdisableValue(c) => JudgeErrdisable(a.intervalSec, c)
    case VLANsValue(m) => JudgeVLANs(a.port, a.vlan, m)
    case ReachValue(b) => JudgeReach(a, b)
    case STPValue(s) => JudgeSTP(a, s)
    case PortSecurityValue(p) => JudgePortSecurity(a, p)
  }

  function Judge(a: Assertion, answer: Answer<Value>): Verdict
    requires Needs(a).Some?
    requires answer.Got? ==> Fits(Needs(a).value, answer.value)
  {
    match answer
    case Broken(e) => Fail(e, [])
    case Got(v) => JudgeValue(a, v)
  }

  /** The verdict when the host's address was never configured. */
  function Unconfigured(a: Assertion): Verdict
    requires Needs(a).None?
  {
    Fail("IP not configured for host %s", [Text(a.name)])
  }

  // ---------------------------------------------------------------------------
  // One assertion against the store
  // ---------------------------------------------------------------------------

  ghost predicate WellTyped(c: Cache) {
    forall k :: k in c ==> Fits(k, c[k])
  }

  lemma AnswerFits(d: Device, s: Session, k: Key)
    requires WellTyped(s.cache)
    ensures Answered(d, s, k).Got? ==> Fits(k, Answered(d, s, k).value)
    ensures WellTyped(AfterRead(d, s, k).cache)
  {
  }

  function CheckOf(a: Assertion, v: Verdict): Check {
    Check(NameOf(a), v.passed, v.detail)
  }

  ghost function Verify(d: Device, s: Session, a: Assertion): Check
    requires WellTyped(s.cache)
  {
    match Needs(a)
    case None => CheckOf(a, Unconfigured(a))
    case Some(k) =>
      AnswerFits(d, s, k);
      CheckOf(a, Judge(a, Answered(d, s, k)))
  }

  function AfterVerify(d: Device, s: Session, a: Assertion): Session {
    match Needs(a)
    case None => s
    case Some(k) => AfterRead(d, s, k)
  }

  /** Reads the evidence under one key. */
  method Obtain(store: EvidenceStore, k: Key) returns (answer: Answer<Value>)
    requires store.Valid()
    modifies store, store.collector
    ensures store.Valid()
    ensures answer == Answered(store.collector.device, old(store.View()), k)
    ensures store.View() == AfterRead(store.collector.device, old(store.View()), k)
  {
    hide Answered, AfterRead;
    match k
    case MACTableKey =>
      var r := store.ReadMACTable();
      answer := Lift(r, t => MACTableValue(t));
    case InterfaceKey(p) =>
      var r := store.ReadInterface(p);
      answer := Lift(r, i => InterfaceValue(i));
    case ErrdisableKey =>
      var r := store.ReadErrdisable();
      answer := Lift(r, c => ErrdisableValue(c));
    case VLANsKey =>
      var r := store.ReadVLANs();
      answer := Lift(r, m => VLANsValue(m));
    case ReachKey(t) =>
      var r := store.ReadReachable(t);
      answer := Lift(r, b => ReachValue(b));
    case STPKey =>
      var r := store.ReadSTP();
      answer := Lift(r, s => STPValue(s));
    case PortSecurityKey(i) =>
      var r := store.ReadPortSecurity(i);
      answer := Lift(r, p => PortSecurityValue(p));
  }

  method Evaluate(a: Assertion, store: EvidenceStore) returns (check: Check)
    requires store.Valid() && WellTyped(store.cache)
    modifies store, store.collector
    ensures store.Valid() && WellTyped(store.cache)
    ensures check == Verify(store.collector.device, old(store.View()), a)
    ensures store.View() == AfterVerify(store.collector.device, old(store.View()), a)
  {
    hide Answered, AfterRead, WellTyped;
    ghost var d, before := store.collector.device, store.View();
    var need := Needs(a);
    if need.None? {
      return CheckOf(a, Unconfigured(a));
    }
    AnswerFits(d, before, need.value);
    var answer := Obtain(store, need.value);
    var verdict;
    if a.ExpectMACsShareOnePort? && answer.Got? {
      verdict := JudgeShared(answer.value.table, a.macs, a.port);
    } else {
      verdict := Judge(a, answer);
    }
    check := CheckOf(a, verdict);
  }

  // ---------------------------------------------------------------------------
  // A whole run
  // ---------------------------------------------------------------------------

  const FRESH := Session(map[], [])

  function AfterRun(d: Device, asserts: seq<Assertion>): Session {
    if asserts == [] then FRESH
    else AfterVerify(d, AfterRun(d, asserts[..|asserts| - 1]), asserts[|asserts| - 1])
  }

  lemma {:induction false} RunWellTyped(d: Device, asserts: seq<Assertion>)
    ensures WellTyped(AfterRun(d, asserts).cache)
  {
    if asserts == [] {
    } else {
      RunWellTyped(d, asserts[..|asserts| - 1]);
    }
  }

  ghost function Checks(d: Device, asserts: seq<Assertion>): seq<Check> {
    if asserts == [] then []
    else
      var before := asserts[..|asserts| - 1];
      RunWellTyped(d, before);
      Checks(d, before) + [Verify(d, AfterRun(d, before), asserts[|asserts| - 1])]
  }

  class Verifier {
    var assertions: seq<Assertion>

    constructor ()
      ensures assertions == []
    {
      assertions := [];
    }

    method Add(a: Assertion)
      modifies this
      ensures assertions == old(assertions) + [a]
    {
      assertions := assertions + [a];
    }

    /** Runs every assertion against a store of its own. The store is returned as the evidence. */
    method Run(device: Device) returns (passed: bool, checks: seq<Check>, evidence: EvidenceStore)
      ensures checks == Checks(device, assertions)
      ensures passed <==> forall i :: 0 <= i < |checks| ==> checks[i].passed
      ensures evidence.Valid() && evidence.View() == AfterRun(device, assertions)
    {
      hide Verify, AfterVerify, WellTyped;
      var collector := new Collector(device);
      var store := new EvidenceStore(collector);
      checks := [];
      passed := true;
      RunWellTyped(device, []);
      for n := 0 to |assertions|
        invariant fresh(store) && fresh(collector) && store.collector == collector && collector.device == device
        invariant store.Valid() && WellTyped(store.cache)
        invariant store.View() == AfterRun(device, assertions[..n])
        invariant checks == Checks(device, assertions[..n])
        invariant passed <==> forall i :: 0 <= i < |checks| ==> checks[i].passed
      {
        assert assertions[..n + 1][..n] == assertions[..n];
        var check := Evaluate(assertions[n], store);
        ghost var earlier := checks;
        checks := checks + [check];
        assert checks[|earlier|] == check && forall i :: 0 <= i < |earlier| ==> checks[i] == earlier[i];
        if !check.passed {
          passed := false;
        }
      }
      assert assertions[..|assertions|] == assertions;
      evidence := store;
    }
  }

  // ---------------------------------------------------------------------------
  // On a device with fixed answers the cache makes no difference
  // ---------------------------------------------------------------------------

  ghost predicate FixedAnswers(d: Device) {
    forall m: nat, n: nat, k: Key :: Ask(d, m, k) == Ask(d, n, k)
  }

  /** The assertion on the device itself, with no store in between. */
  ghost function Direct(d: Device, a: Assertion): Check {
    Verify(d, FRESH, a)
  }

  ghost predicate Faithful(d: Device, c: Cache) {
    forall k :: k in c ==> Ask(d, 0, k) == Got(c[k])
  }

  lemma {:induction false} RunFaithful(d: Device, asserts: seq<Assertion>)
    requires FixedAnswers(d)
    ensures Faithful(d, AfterRun(d, asserts).cache)
  {
    if asserts == [] {
    } else {
      var before := asserts[..|asserts| - 1];
      RunFaithful(d, before);
      var s := AfterRun(d, before);
      var need := Needs(asserts[|asserts| - 1]);
      if need.Some? {
        assert Ask(d, |s.log|, need.value) == Ask(d, 0, need.value);
      }
    }
  }

  /** What the store remembers does not change what an assertion sees. */
  lemma SeesTheSame(d: Device, s: Session, a: Assertion)
    requires FixedAnswers(d) && Faithful(d, s.cache) && WellTyped(s.cache)
    ensures Verify(d, s, a) == Direct(d, a)
  {
    hide Ask, Judge, CheckOf, Unconfigured, Fits;
    if Needs(a).Some? {
      assert Ask(d, |s.log|, Needs(a).value) == Ask(d, 0, Needs(a).value);
    }
  }

  /** Main result: on a device with fixed answers a run gives, for any list of assertions,
      exactly the checks of asking the device afresh for each. */
  lemma {:induction false} RunIsDirect(d: Device, asserts: seq<Assertion>)
    requires FixedAnswers(d)
    ensures |Checks(d, asserts)| == |asserts|
    ensures forall i :: 0 <= i < |asserts| ==> Checks(d, asserts)[i] == Direct(d, asserts[i])
  {
    hide Verify, Direct, AfterRun, FixedAnswers, Faithful;
    if asserts == [] {
    } else {
      var before := asserts[..|asserts| - 1];
      RunIsDirect(d, before);
      RunFaithful(d, before);
      RunWellTyped(d, before);
      SeesTheSame(d, AfterRun(d, before), asserts[|asserts| - 1]);
    }
  }

  // ---------------------------------------------------------------------------
  // What it means to pass
  // ---------------------------------------------------------------------------

  /** The first entry for `mac` is on `port`. */
  ghost predicate LearnedOn(t: seq<MACEntry>, mac: string, port: string) {
    exists i :: 0 <= i < |t| && t[i].mac == mac && t[i].port == port && forall j :: 0 <= j < i ==> t[j].mac != mac
  }

  /** What the assertion asks of the device's n-th answer. An answer that is an error never meets it. */
  ghost predicate Meets(d: Device, n: nat, a: Assertion) {
    match a
    case ExpectMACOnPort(_, mac, port) => d.macTable(n).Got? && LearnedOn(d.macTable(n).value, mac, port)
    case ExpectMACsShareOnePort(_, macs, port) =>
      d.macTable(n).Got? && forall i :: 0 <= i < |macs| ==> LearnedOn(d.macTable(n).value, macs[i], port)
    case ExpectMACCount(least) => d.macTable(n).Got? && |d.macTable(n).value| >= least
    case ExpectInterfaceUp(p) =>
      d.interfaceOf(n, p).Got?
      && var i := d.interfaceOf(n, p).value; i.adminUp && i.linkUp && !i.errDisabled
    case ExpectInterfaceDown(p) => d.interfaceOf(n, p).Got? && !d.interfaceOf(n, p).value.adminUp
    case ExpectInterfaceSpeed(p, mbps) => d.interfaceOf(n, p).Got? && d.interfaceOf(n, p).value.speedMbps == mbps
    case ExpectInterfaceDuplex(p, duplex) => d.interfaceOf(n, p).Got? && d.interfaceOf(n, p).value.duplex == duplex
    case ExpectDescription(p, text) => d.interfaceOf(n, p).Got? && d.interfaceOf(n, p).value.description == text
    case ExpectPortVLAN(p, vlan) => d.vlans(n).Got? && p in d.vlans(n).value && d.vlans(n).value[p] == vlan
    case ExpectErrdisableRecovery(seconds) =>
      d.errdisable(n).Got? && d.errdisable(n).value.enabled && d.errdisable(n).value.intervalSec == seconds
    case ExpectReachable(_, t) => t != "" && d.reach(n, t) == Got(true)
    case ExpectNotReachable(_, t) => t != "" && d.reach(n, t) == Got(false)
    case ExpectRootBridge(_) => d.stp(n).Got? && d.stp(n).value.isRoot
    case ExpectPortRole(_, iface, role) =>
      d.stp(n).Got? && d.stp(n).value.portRoles.Some?
      && var roles := d.stp(n).value.portRoles.value; iface in roles && roles[iface] == role
    case ExpectPortSecurityViolations(i, least) =>
      d.portSecurity(n, i).Got? && d.portSecurity(n, i).value.violationCount >= least
    case ExpectPortSecurityEnabled(i) => d.portSecurity(n, i).Got? && d.portSecurity(n, i).value.enabled
  }

  lemma {:induction false} PortOfIsFirst(t: seq<MACEntry>, mac: string, port: string)
    ensures PortOf(t, mac) == Some(port) <==> LearnedOn(t, mac, port)
    decreases |t|
  {
    if t == [] {
    } else if t[0].mac == mac {
    } else {
      PortOfIsFirst(t[1..], mac, port);
      if i :| 0 <= i < |t[1..]| && t[1..][i].mac == mac && t[1..][i].port == port
              && forall j :: 0 <= j < i ==> t[1..][j].mac != mac {
        assert t[i + 1] == t[1..][i];
        assert forall j :: 0 < j < i + 1 ==> t[j] == t[1..][j - 1];
      }
      if i :| 0 <= i < |t| && t[i].mac == mac && t[i].port == port && forall j :: 0 <= j < i ==> t[j].mac != mac {
        assert t[1..][i - 1] == t[i];
        assert forall j :: 0 <= j < i - 1 ==> t[1..][j] == t[j + 1];
      }
    }
  }

  /** The verdict on an answer, for the assertions about the MAC table. */
  lemma MACTableExactly(a: Assertion, t: seq<MACEntry>)
    requires a.ExpectMACOnPort? || a.ExpectMACsShareOnePort? || a.ExpectMACCount?
    ensures JudgeMACTable(a, t).passed <==>
            match a
            case ExpectMACOnPort(_, mac, port) => LearnedOn(t, mac, port)
            case ExpectMACsShareOnePort(_, macs, port) => forall i :: 0 <= i < |macs| ==> LearnedOn(t, macs[i], port)
            case ExpectMACCount(least) => |t| >= least
            case _ => false
  {
    hide LearnedOn, PortOf;
    match a
    case ExpectMACOnPort(_, mac, port) => PortOfIsFirst(t, mac, port);
    case ExpectMACsShareOnePort(_, macs, port) =>
      ShareExactly(t, macs, |macs|, port);
      forall i | 0 <= i < |macs| ensures PortOf(t, macs[i]) == Some(port) <==> LearnedOn(t, macs[i], port) {
        PortOfIsFirst(t, macs[i], port);
      }
    case _ =>
  }

  lemma InterfaceExactly(d: Device, n: nat, a: Assertion, i: InterfaceStatus)
    requires Needs(a).Some? && Needs(a).value.InterfaceKey? && d.interfaceOf(n, a.port) == Got(i)
    ensures JudgeInterface(a, i).passed <==> Meets(d, n, a)
  {
    hide LearnedOn;
  }

  lemma STPExactly(d: Device, n: nat, a: Assertion, s: STPInfo)
    requires Needs(a) == Some(STPKey) && d.stp(n) == Got(s)
    ensures JudgeSTP(a, s).passed <==> Meets(d, n, a)
  {
    hide LearnedOn;
  }

  lemma PortSecurityExactly(d: Device, n: nat, a: Assertion, p: PortSecurityInfo)
    requires Needs(a).Some? && Needs(a).value.PortSecurityKey? && d.portSecurity(n, a.iface) == Got(p)
    ensures JudgePortSecurity(a, p).passed <==> Meets(d, n, a)
  {
    hide LearnedOn;
  }

  lemma ReachExactly(d: Device, n: nat, a: Assertion, reachable: bool)
    requires Needs(a).Some? && Needs(a).value.ReachKey? && d.reach(n, a.target) == Got(reachable)
    ensures JudgeReach(a, reachable).passed <==> Meets(d, n, a)
  {
    hide LearnedOn;
  }

  lemma TablesExactly(d: Device, n: nat, a: Assertion)
    ensures a.ExpectPortVLAN? && d.vlans(n).Got? ==>
              (JudgeVLANs(a.port, a.vlan, d.vlans(n).value).passed <==> Meets(d, n, a))
    ensures a.ExpectErrdisableRecovery? && d.errdisable(n).Got? ==>
              (JudgeErrdisable(a.intervalSec, d.errdisable(n).value).passed <==> Meets(d, n, a))
    ensures Needs(a) == Some(MACTableKey) && d.macTable(n).Got? ==>
              (JudgeMACTable(a, d.macTable(n).value).passed <==> Meets(d, n, a))
  {
    hide LearnedOn, JudgeMACTable;
    if Needs(a) == Some(MACTableKey) && d.macTable(n).Got? {
      MACTableExactly(a, d.macTable(n).value);
    }
  }

  /** On evidence the verdict is what the assertion asks of that answer. */
  lemma VerdictExactly(d: Device, n: nat, a: Assertion, v: Value)
    requires Needs(a).Some? && Ask(d, n, Needs(a).value) == Got(v)
    ensures Fits(Needs(a).value, v) && (JudgeValue(a, v).passed <==> Meets(d, n, a))
  {
    hide Meets, JudgeInterface, JudgeSTP, JudgePortSecurity, JudgeReach, JudgeVLANs, JudgeErrdisable, JudgeMACTable;
    match Needs(a).value
    case InterfaceKey(_) => InterfaceExactly(d, n, a, v.status);
    case STPKey => STPExactly(d, n, a, v.stp);
    case PortSecurityKey(_) => PortSecurityExactly(d, n, a, v.security);
    case ReachKey(_) => ReachExactly(d, n, a, v.reachable);
    case _ => TablesExactly(d, n, a);
  }

  /** Without evidence nothing is met. */
  lemma NoAnswerNeverMeets(d: Device, n: nat, a: Assertion)
    requires Needs(a).Some? ==> Ask(d, n, Needs(a).value).Broken?
    ensures !Meets(d, n, a)
  {
    hide LearnedOn;
  }

  /** Main result, for all sixteen kinds: asked directly, an assertion passes exactly if the device answers and the
      answer has what the assertion asks for. In particular an error or an unset target never passes. */
  lemma PassesExactly(d: Device, a: Assertion)
    ensures Direct(d, a).passed <==> Meets(d, 0, a)
  {
    hide Meets, NameOf, JudgeValue, Ask;
    if Needs(a).Some? && Ask(d, 0, Needs(a).value).Got? {
      VerdictExactly(d, 0, a, Ask(d, 0, Needs(a).value).value);
    } else {
      NoAnswerNeverMeets(d, 0, a);
    }
  }

  /** Main result: on a device with fixed answers a run passes exactly if the device meets every assertion. */
  lemma RunPassesExactly(d: Device, asserts: seq<Assertion>)
    requires FixedAnswers(d)
    ensures (forall i :: 0 <= i < |Checks(d, asserts)| ==> Checks(d, asserts)[i].passed)
            <==> forall i :: 0 <= i < |asserts| ==> Meets(d, 0, asserts[i])
  {
    hide Meets, Direct, FixedAnswers, Checks;
    RunIsDirect(d, asserts);
    forall i | 0 <= i < |asserts| ensures Checks(d, asserts)[i].passed <==> Meets(d, 0, asserts[i]) {
      PassesExactly(d, asserts[i]);
    }
  }

  // ---------------------------------------------------------------------------
  // On any device a run sees one value per key
  // ---------------------------------------------------------------------------

  /** The n-th command of the log was answered. */
  predicate Collected(d: Device, log: seq<Key>, n: nat)
    requires n < |log|
  {
    Ask(d, n, log[n]).Got?
  }

  /** Every answered command is in the cache, with its answer. */
  ghost predicate AnswersKept(d: Device, s: Session) {
    forall n :: 0 <= n < |s.log| && Collected(d, s.log, n) ==>
      s.log[n] in s.cache && Ask(d, n, s.log[n]) == Got(s.cache[s.log[n]])
  }

  /** No command is sent again once it was answered. */
  ghost predicate NoneRepeated(d: Device, s: Session) {
    forall m, n :: 0 <= m < n < |s.log| && Collected(d, s.log, m) ==> s.log[m] != s.log[n]
  }

  /** The cache holds nothing that no command answered. */
  ghost predicate NothingInvented(d: Device, s: Session) {
    forall k :: k in s.cache ==> exists n :: 0 <= n < |s.log| && s.log[n] == k && Collected(d, s.log, n)
  }

  lemma Sent(d: Device, s: Session, k: Key)
    requires k !in s.cache
    ensures var log := AfterRead(d, s, k).log;
            && log == s.log + [k] && log[|s.log|] == k
            && (forall n :: 0 <= n < |s.log| ==> log[n] == s.log[n] && (Collected(d, log, n) <==> Collected(d, s.log, n)))
            && (Collected(d, log, |s.log|) <==> k in AfterRead(d, s, k).cache)
  {
  }

  lemma ReadKeepsAnswers(d: Device, s: Session, k: Key)
    requires AnswersKept(d, s) && NoneRepeated(d, s)
    ensures AnswersKept(d, AfterRead(d, s, k)) && NoneRepeated(d, AfterRead(d, s, k))
  {
    if k !in s.cache {
      Sent(d, s, k);
    }
  }

  lemma ReadInventsNothing(d: Device, s: Session, k: Key)
    requires NothingInvented(d, s)
    ensures NothingInvented(d, AfterRead(d, s, k))
  {
    if k !in s.cache {
      Sent(d, s, k);
      var s' := AfterRead(d, s, k);
      forall j | j in s'.cache
        ensures exists n :: 0 <= n < |s'.log| && s'.log[n] == j && Collected(d, s'.log, n)
      {
        var n :| 0 <= n < |s'.log| && s'.log[n] == j && (if j in s.cache then Collected(d, s.log, n) else n == |s.log|);
      }
    }
  }

  /** Each key is collected successfully at most once, and never asked for again after that. */
  lemma {:induction false} CollectedAtMostOnce(d: Device, asserts: seq<Assertion>)
    ensures var s := AfterRun(d, asserts);
            AnswersKept(d, s) && NoneRepeated(d, s) && NothingInvented(d, s)
  {
    if asserts == [] {
    } else {
      var before := asserts[..|asserts| - 1];
      CollectedAtMostOnce(d, before);
      var need := Needs(asserts[|asserts| - 1]);
      if need.Some? {
        ReadKeepsAnswers(d, AfterRun(d, before), need.value);
        ReadInventsNothing(d, AfterRun(d, before), need.value);
      }
    }
  }

  /** What assertion number `i` of the run was told, if it asked. */
  function Told(d: Device, asserts: seq<Assertion>, i: nat): Option<Answer<Value>>
    requires i < |asserts|
  {
    match Needs(asserts[i])
    case None => None
    case Some(k) => Some(Answered(d, AfterRun(d, asserts[..i]), k))
  }

  lemma {:induction false} CacheGrows(d: Device, asserts: seq<Assertion>, i: nat)
    requires i <= |asserts|
    ensures var early, late := AfterRun(d, asserts[..i]).cache, AfterRun(d, asserts).cache;
            forall k :: k in early ==> k in late && late[k] == early[k]
    decreases |asserts|
  {
    if i == |asserts| {
      assert asserts[..i] == asserts;
    } else {
      var before := asserts[..|asserts| - 1];
      CacheGrows(d, before, i);
      assert before[..i] == asserts[..i];
    }
  }

  lemma ToldIsKept(d: Device, asserts: seq<Assertion>, i: nat, later: nat)
    requires i < later <= |asserts| && Needs(asserts[i]).Some? && Told(d, asserts, i).value.Got?
    ensures var k, cache := Needs(asserts[i]).value, AfterRun(d, asserts[..later]).cache;
            k in cache && Told(d, asserts, i).value == Got(cache[k])
  {
    var upTo := asserts[..i + 1];
    assert upTo[..i] == asserts[..i];
    assert upTo[|upTo| - 1] == asserts[i];
    assert asserts[..later][..i + 1] == upTo;
    CacheGrows(d, asserts[..later], i + 1);
  }

  /** Main result: whatever the device does, every assertion that got evidence got the value in the
      run's final snapshot; and once a key has been collected, no later assertion fails to get it. */
  lemma OneValuePerKey(d: Device, asserts: seq<Assertion>, i: nat)
    requires i < |asserts| && Needs(asserts[i]).Some?
    ensures var k, snapshot := Needs(asserts[i]).value, AfterRun(d, asserts).cache;
            Told(d, asserts, i).value.Got? ==> k in snapshot && Told(d, asserts, i).value == Got(snapshot[k])
    ensures forall j :: 0 <= j < i && Needs(asserts[j]) == Needs(asserts[i]) && Told(d, asserts, j).value.Got? ==>
              Told(d, asserts, i).value == Told(d, asserts, j).value
  {
    assert asserts[..|asserts|] == asserts;
    if Told(d, asserts, i).value.Got? {
      ToldIsKept(d, asserts, i, |asserts|);
    }
    forall j | 0 <= j < i && Needs(asserts[j]) == Needs(asserts[i]) && Told(d, asserts, j).value.Got?
      ensures Told(d, asserts, i).value == Told(d, asserts, j).value
    {
      ToldIsKept(d, asserts, j, i);
    }
  }

  /** Some answer that the device gave by then meets the assertion. */
  ghost predicate MetBy(d: Device, log: seq<Key>, a: Assertion) {
    Needs(a).Some? && exists n :: 0 <= n < |log| && log[n] == Needs(a).value && Meets(d, n, a)
  }

  /** Main result: on any device, whatever it answers when, a check passes exactly if among the commands sent up to
      and including it is one for its evidence that the device answered, and that answer meets the assertion. */
  lemma CheckPassesExactly(d: Device, before: seq<Assertion>, a: Assertion)
    ensures WellTyped(AfterRun(d, before).cache)
    ensures Verify(d, AfterRun(d, before), a).passed <==> MetBy(d, AfterVerify(d, AfterRun(d, before), a).log, a)
  {
    hide Meets, NameOf, JudgeValue, Ask, Fits;
    RunWellTyped(d, before);
    CollectedAtMostOnce(d, before);
    var s := AfterRun(d, before);
    if Needs(a).Some? {
      KnownOrAsked(d, s, a);
    }
  }

  lemma AnsweredMeets(d: Device, log: seq<Key>, n: nat, a: Assertion)
    requires n < |log| && Needs(a).Some? && log[n] == Needs(a).value && Meets(d, n, a)
    ensures Collected(d, log, n)
  {
    hide Meets, Ask;
    if Ask(d, n, log[n]).Broken? {
      NoAnswerNeverMeets(d, n, a);
    }
  }

  lemma KnownOrAsked(d: Device, s: Session, a: Assertion)
    requires Needs(a).Some? && WellTyped(s.cache) && AnswersKept(d, s) && NoneRepeated(d, s) && NothingInvented(d, s)
    ensures Verify(d, s, a).passed <==> MetBy(d, AfterVerify(d, s, a).log, a)
  {
    hide Meets, NameOf, JudgeValue, Ask, Fits, WellTyped;
    var k, log := Needs(a).value, AfterVerify(d, s, a).log;
    AnswerFits(d, s, k);
    ReadKeepsAnswers(d, s, k);
    if n :| 0 <= n < |log| && log[n] == k && Meets(d, n, a) {
      AnsweredMeets(d, log, n, a);
      VerdictExactly(d, n, a, AfterVerify(d, s, a).cache[k]);
    }
    if Verify(d, s, a).passed {
      var n := SourceOf(d, s, k);
      VerdictExactly(d, n, a, AfterVerify(d, s, a).cache[k]);
    }
  }

  /** The command that an answer comes from. */
  lemma SourceOf(d: Device, s: Session, k: Key) returns (n: nat)
    requires AnswersKept(d, s) && NothingInvented(d, s) && Answered(d, s, k).Got?
    ensures var s' := AfterRead(d, s, k);
            && n < |s'.log| && s'.log[n] == k && k in s'.cache && Ask(d, n, k) == Got(s'.cache[k])
            && Answered(d, s, k) == Got(s'.cache[k])
  {
    hide Ask;
    if k in s.cache {
      n :| 0 <= n < |s.log| && s.log[n] == k && Collected(d, s.log, n);
    } else {
      n := |s.log|;
    }
  }

  lemma {:induction false} ChecksAt(d: Device, asserts: seq<Assertion>, i: nat)
    requires i < |asserts|
    ensures |Checks(d, asserts)| == |asserts| && WellTyped(AfterRun(d, asserts[..i]).cache)
    ensures Checks(d, asserts)[i] == Verify(d, AfterRun(d, asserts[..i]), asserts[i])
    decreases |asserts|
  {
    hide Verify, AfterRun, WellTyped;
    var before := asserts[..|asserts| - 1];
    RunWellTyped(d, asserts[..i]);
    RunWellTyped(d, before);
    ChecksLength(d, before);
    if i < |before| {
      ChecksAt(d, before, i);
      assert before[..i] == asserts[..i];
    }
  }

  lemma {:induction false} ChecksLength(d: Device, asserts: seq<Assertion>)
    ensures |Checks(d, asserts)| == |asserts|
    decreases |asserts|
  {
    hide Verify;
    if asserts == [] {
    } else {
      ChecksLength(d, asserts[..|asserts| - 1]);
    }
  }

  /** Main result: on any device a run passes exactly if every assertion was met by an answer given by its turn. */
  lemma RunPassesOnAnyDevice(d: Device, asserts: seq<Assertion>)
    ensures (forall i :: 0 <= i < |Checks(d, asserts)| ==> Checks(d, asserts)[i].passed)
            <==> forall i :: 0 <= i < |asserts| ==> MetBy(d, AfterRun(d, asserts[..i + 1]).log, asserts[i])
  {
    hide Verify, Checks, MetBy, AfterVerify;
    ChecksLength(d, asserts);
    forall i | 0 <= i < |asserts|
      ensures Checks(d, asserts)[i].passed <==> MetBy(d, AfterRun(d, asserts[..i + 1]).log, asserts[i])
    {
      ChecksAt(d, asserts, i);
      CheckPassesExactly(d, asserts[..i], asserts[i]);
      assert asserts[..i + 1][..i] == asserts[..i];
    }
  }
}
