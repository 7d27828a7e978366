/**
 The per-run evidence cache of internal/verify: a collector that drives a device's console,
 and a store that asks the device at most once for what an assertion needs.

 A device is free to answer every command differently: its answers depend on how many commands
 it has been sent. Parsing is part of the device's answer.
 */
module Evidence {
  import opened Wrappers

  // ---------------------------------------------------------------------------
  // Typed evidence
  // ---------------------------------------------------------------------------

  datatype MACEntry = MACEntry(mac: string, port: string, vlan: int)

  datatype InterfaceStatus = InterfaceStatus(
    name: string, adminUp: bool, linkUp: bool, errDisabled: bool,
    speedMbps: int, duplex: string, description: string)

  datatype ErrdisableConfig = ErrdisableConfig(enabled: bool, intervalSec: int)

  datatype STPInfo = STPInfo(isRoot: bool, rootMAC: string, bridgeMAC: string, portRoles: Option<map<string, string>>)

  datatype PortSecurityInfo = PortSecurityInfo(enabled: bool, maxMACs: int, violationCount: int, violationMode: string)

  datatype Answer<+T> = Got(value: T) | Broken(error: string)

  /** What can be asked; one console command each. */
  datatype Key =
    | MACTableKey
    | InterfaceKey(port: string)
    | ErrdisableKey
    | VLANsKey
    | ReachKey(target: string)
    | STPKey
    | PortSecurityKey(iface: string)

  datatype Value =
    | MACTableValue(table: seq<MACEntry>)
    | InterfaceValue(status: InterfaceStatus)
    | ErrdisableValue(config: ErrdisableConfig)
    | VLANsValue(vlans: map<string, int>)
    | ReachValue(reachable: bool)
    | STPValue(stp: STPInfo)
    | PortSecurityValue(security: PortSecurityInfo)

  /** The device: its answer to each command, as the n-th command it is sent. */
  datatype Device = Device(
    macTable: nat -> Answer<seq<MACEntry>>,
    interfaceOf: (nat, string) -> Answer<InterfaceStatus>,
    errdisable: nat -> Answer<ErrdisableConfig>,
    vlans: nat -> Answer<map<string, int>>,
    reach: (nat, string) -> Answer<bool>,
    stp: nat -> Answer<STPInfo>,
    portSecurity: (nat, string) -> Answer<PortSecurityInfo>)

  function Lift<T>(a: Answer<T>, f: T -> Value): Answer<Value> {
    match a
    case Got(v) => Got(f(v))
    case Broken(e) => Broken(e)
  }

  function Ask(d: Device, n: nat, k: Key): Answer<Value> {
    match k
    case MACTableKey => Lift(d.macTable(n), t => MACTableValue(t))
    case InterfaceKey(p) => Lift(d.interfaceOf(n, p), i => InterfaceValue(i))
    case ErrdisableKey => Lift(d.errdisable(n), c => ErrdisableValue(c))
    case VLANsKey => Lift(d.vlans(n), m => VLANsValue(m))
    case ReachKey(t) => Lift(d.reach(n, t), b => ReachValue(b))
    case STPKey => Lift(d.stp(n), s => STPValue(s))
    case PortSecurityKey(i) => Lift(d.portSecurity(n, i), p => PortSecurityValue(p))
  }

  /** The value has the type its key calls for. */
  predicate Fits(k: Key, v: Value) {
    match k
    case MACTableKey => v.MACTableValue?
    case InterfaceKey(_) => v.InterfaceValue?
    case ErrdisableKey => v.ErrdisableValue?
    case VLANsKey => v.VLANsValue?
    case ReachKey(_) => v.ReachValue?
    case STPKey => v.STPValue?
    case PortSecurityKey(_) => v.PortSecurityValue?
  }

  /** The text put before a collector's error. */
  function Wrapped(k: Key, error: string): string {
    match k
    case MACTableKey => "collect mac table: " + error
    case InterfaceKey(p) => "collect interface " + p + ": " + error
    case ErrdisableKey => "collect errdisable recovery: " + error
    case VLANsKey => "collect vlans: " + error
    case ReachKey(t) => "collect reachability " + t + ": " + error
    case STPKey => "collect stp: " + error
    case PortSecurityKey(i) => "collect port-security " + i + ": " + error
  }

  // ---------------------------------------------------------------------------
  // The cache, abstractly
  // ---------------------------------------------------------------------------

  type Cache = map<Key, Value>

  /** What the store knows, and the commands the device has been sent. */
  datatype Session = Session(cache: Cache, log: seq<Key>)

  function Answered(d: Device, s: Session, k: Key): Answer<Value> {
    if k in s.cache then Got(s.cache[k])
    else
      match Ask(d, |s.log|, k)
      case Got(v) => Got(v)
      case Broken(e) => Broken(Wrapped(k, e))
  }

  /** Only what was collected is remembered; an error is asked again next time. */
  function AfterRead(d: Device, s: Session, k: Key): Session {
    if k in s.cache then s
    else
      match Ask(d, |s.log|, k)
      case Got(v) => Session(s.cache[k := v], s.log + [k])
      case Broken(_) => Session(s.cache, s.log + [k])
  }

  // ---------------------------------------------------------------------------
  // Collector and store
  // ---------------------------------------------------------------------------

  class Collector {
    const device: Device
    var log: seq<Key>

    constructor (device: Device)
      ensures this.device == device && log == []
    {
      this.device := device;
      log := [];
    }

    method CollectMACTable() returns (r: Answer<seq<MACEntry>>)
      modifies this
      ensures r == device.macTable(|old(log)|) && log == old(log) + [MACTableKey]
    {
      r := device.macTable(|log|);
      log := log + [MACTableKey];
    }

    method CollectInterface(port: string) returns (r: Answer<map<string, InterfaceStatus>>)
      modifies this
      ensures match device.interfaceOf(|old(log)|, port)
              case Got(i) => r == Got(map[port := i])
              case Broken(e) => r == Broken(e)
      ensures log == old(log) + [InterfaceKey(port)]
    {
      var one := device.interfaceOf(|log|, port);
      log := log + [InterfaceKey(port)];
      match one
      case Got(i) => r := Got(map[port := i]);
      case Broken(e) => r := Broken(e);
    }

    method CollectErrdisableRecovery() returns (r: Answer<ErrdisableConfig>)
      modifies this
      ensures r == device.errdisable(|old(log)|) && log == old(log) + [ErrdisableKey]
    {
      r := device.errdisable(|log|);
      log := log + [ErrdisableKey];
    }

    method CollectVLANs() returns (r: Answer<map<string, int>>)
      modifies this
      ensures r == device.vlans(|old(log)|) && log == old(log) + [VLANsKey]
    {
      r := device.vlans(|log|);
      log := log + [VLANsKey];
    }

    method CollectReachability(target: string) returns (r: Answer<map<string, bool>>)
      modifies this
      ensures match device.reach(|old(log)|, target)
              case Got(b) => r == Got(map[target := b])
              case Broken(e) => r == Broken(e)
      ensures log == old(log) + [ReachKey(target)]
    {
      var one := device.reach(|log|, target);
      log := log + [ReachKey(target)];
      match one
      case Got(b) => r := Got(map[target := b]);
      case Broken(e) => r := Broken(e);
    }

    method CollectSTP() returns (r: Answer<STPInfo>)
      modifies this
      ensures r == device.stp(|old(log)|) && log == old(log) + [STPKey]
    {
      r := device.stp(|log|);
      log := log + [STPKey];
    }

    method CollectPortSecurity(iface: string) returns (r: Answer<PortSecurityInfo>)
      modifies this
      ensures r == device.portSecurity(|old(log)|, iface) && log == old(log) + [PortSecurityKey(iface)]
    {
      r := device.portSecurity(|log|, iface);
      log := log + [PortSecurityKey(iface)];
    }
  }

  const MAC_TABLE := "mac_table"
  const ERRDISABLE := "errdisable"
  const VLANS := "vlans"
  const STP := "stp"
  const PORTSEC := "portsec:"

  function PortsecFlag(iface: string): string {
    PORTSEC + iface
  }

  /** The flags of the keyed and the unkeyed evidence share one set of names without clashing. */
  lemma FlagsDiffer()
    ensures forall i, j :: PortsecFlag(i) == PortsecFlag(j) ==> i == j
    ensures forall i :: PortsecFlag(i) != MAC_TABLE && PortsecFlag(i) != ERRDISABLE && PortsecFlag(i) != VLANS && PortsecFlag(i) != STP
    ensures MAC_TABLE != ERRDISABLE && MAC_TABLE != VLANS && MAC_TABLE != STP
    ensures ERRDISABLE != VLANS && ERRDISABLE != STP && VLANS != STP
  {
    forall i, j | PortsecFlag(i) == PortsecFlag(j) ensures i == j {
      assert PortsecFlag(i)[|PORTSEC|..] == i;
      assert PortsecFlag(j)[|PORTSEC|..] == j;
    }
    forall i
      ensures PortsecFlag(i) != MAC_TABLE && PortsecFlag(i) != ERRDISABLE && PortsecFlag(i) != VLANS && PortsecFlag(i) != STP
    {
      assert PortsecFlag(i)[7] == ':';
    }
    assert |MAC_TABLE| == 9 && |ERRDISABLE| == 10 && |VLANS| == 5 && |STP| == 3;
  }

  /** The evidence fields of the store, with the flags that say which of them were fetched. */
  datatype Fields = Fields(
    fetched: set<string>, macTable: seq<MACEntry>, interfaces: map<string, InterfaceStatus>, errdisable: ErrdisableConfig,
    vlans: map<string, int>, reachability: map<string, bool>, stp: Option<STPInfo>,
    portSecurities: map<string, PortSecurityInfo>)

  /** The evidence the fields hold under one key. */
  function Held(f: Fields, k: Key): Option<Value> {
    match k
    case MACTableKey => if MAC_TABLE in f.fetched then Some(MACTableValue(f.macTable)) else None
    case InterfaceKey(p) => if p in f.interfaces then Some(InterfaceValue(f.interfaces[p])) else None
    case ErrdisableKey => if ERRDISABLE in f.fetched then Some(ErrdisableValue(f.errdisable)) else None
    case VLANsKey => if VLANS in f.fetched then Some(VLANsValue(f.vlans)) else None
    case ReachKey(t) => if t in f.reachability then Some(ReachValue(f.reachability[t])) else None
    case STPKey => if STP in f.fetched && f.stp.Some? then Some(STPValue(f.stp.value)) else None
    case PortSecurityKey(i) =>
      if PortsecFlag(i) in f.fetched && i in f.portSecurities then Some(PortSecurityValue(f.portSecurities[i])) else None
  }

  ghost predicate Sane(f: Fields) {
    (forall i :: PortsecFlag(i) in f.fetched ==> i in f.portSecurities) && (STP in f.fetched ==> f.stp.Some?)
  }

  /** The fields stand for the cache. */
  ghost predicate Mirrors(f: Fields, c: Cache) {
    Sane(f) && forall k :: Held(f, k) == (if k in c then Some(c[k]) else None)
  }

  lemma MirrorsAt(f: Fields, c: Cache, k: Key)
    requires Mirrors(f, c)
    ensures Held(f, k) == if k in c then Some(c[k]) else None
  {
  }

  lemma Remembered(f: Fields, f': Fields, c: Cache, key: Key, v: Value)
    requires Mirrors(f, c) && Sane(f') && Held(f', key) == Some(v)
    requires forall k :: k != key ==> Held(f', k) == Held(f, k)
    ensures Mirrors(f', c[key := v])
  {
    hide Held, Sane;
  }

  /** Remembering one kind of evidence leaves what is held under every other key alone. */
  lemma RemembersMACTable(f: Fields, c: Cache, t: seq<MACEntry>)
    requires Mirrors(f, c)
    ensures Mirrors(f.(macTable := t, fetched := f.fetched + {MAC_TABLE}), c[MACTableKey := MACTableValue(t)])
  {
    FlagsDiffer();
    hide MAC_TABLE, ERRDISABLE, VLANS, STP, PortsecFlag;
    Remembered(f, f.(macTable := t, fetched := f.fetched + {MAC_TABLE}), c, MACTableKey, MACTableValue(t));
  }

  lemma RemembersInterface(f: Fields, c: Cache, port: string, m: map<string, InterfaceStatus>)
    requires Mirrors(f, c) && m.Keys == {port}
    ensures Mirrors(f.(interfaces := f.interfaces + m), c[InterfaceKey(port) := InterfaceValue(m[port])])
  {
    hide MAC_TABLE, ERRDISABLE, VLANS, STP, PortsecFlag;
    Remembered(f, f.(interfaces := f.interfaces + m), c, InterfaceKey(port), InterfaceValue(m[port]));
  }

  lemma RemembersErrdisable(f: Fields, c: Cache, e: ErrdisableConfig)
    requires Mirrors(f, c)
    ensures Mirrors(f.(errdisable := e, fetched := f.fetched + {ERRDISABLE}), c[ErrdisableKey := ErrdisableValue(e)])
  {
    FlagsDiffer();
    hide MAC_TABLE, ERRDISABLE, VLANS, STP, PortsecFlag;
    Remembered(f, f.(errdisable := e, fetched := f.fetched + {ERRDISABLE}), c, ErrdisableKey, ErrdisableValue(e));
  }

  lemma RemembersVLANs(f: Fields, c: Cache, m: map<string, int>)
    requires Mirrors(f, c)
    ensures Mirrors(f.(vlans := m, fetched := f.fetched + {VLANS}), c[VLANsKey := VLANsValue(m)])
  {
    FlagsDiffer();
    hide MAC_TABLE, ERRDISABLE, VLANS, STP, PortsecFlag;
    Remembered(f, f.(vlans := m, fetched := f.fetched + {VLANS}), c, VLANsKey, VLANsValue(m));
  }

  lemma RemembersReachable(f: Fields, c: Cache, target: string, m: map<string, bool>)
    requires Mirrors(f, c) && m.Keys == {target}
    ensures Mirrors(f.(reachability := f.reachability + m), c[ReachKey(target) := ReachValue(m[target])])
  {
    hide MAC_TABLE, ERRDISABLE, VLANS, STP, PortsecFlag;
    Remembered(f, f.(reachability := f.reachability + m), c, ReachKey(target), ReachValue(m[target]));
  }

  lemma RemembersSTP(f: Fields, c: Cache, s: STPInfo)
    requires Mirrors(f, c)
    ensures Mirrors(f.(stp := Some(s), fetched := f.fetched + {STP}), c[STPKey := STPValue(s)])
  {
    FlagsDiffer();
    hide MAC_TABLE, ERRDISABLE, VLANS, STP, PortsecFlag;
    Remembered(f, f.(stp := Some(s), fetched := f.fetched + {STP}), c, STPKey, STPValue(s));
  }

  lemma RemembersPortSecurity(f: Fields, c: Cache, iface: string, p: PortSecurityInfo)
    requires Mirrors(f, c)
    ensures Mirrors(f.(portSecurities := f.portSecurities[iface := p], fetched := f.fetched + {PortsecFlag(iface)}),
                    c[PortSecurityKey(iface) := PortSecurityValue(p)])
  {
    FlagsDiffer();
    hide MAC_TABLE, ERRDISABLE, VLANS, STP, PortsecFlag;
    Remembered(f, f.(portSecurities := f.portSecurities[iface := p], fetched := f.fetched + {PortsecFlag(iface)}), c,
               PortSecurityKey(iface), PortSecurityValue(p));
  }

  class EvidenceStore {
    const collector: Collector
    var fetched: set<string>
    var macTable: seq<MACEntry>
    var interfaces: map<string, InterfaceStatus>
    var errdisable: ErrdisableConfig
    var vlans: map<string, int>
    var reachability: map<string, bool>
    var stp: Option<STPInfo>
    var portSecurities: map<string, PortSecurityInfo>
    /** The abstract cache these fields stand for. */
    ghost var cache: Cache

    function State(): Fields
      reads this
    {
      Fields(fetched, macTable, interfaces, errdisable, vlans, reachability, stp, portSecurities)
    }

    ghost predicate Valid()
      reads this
    {
      Mirrors(State(), cache)
    }

    ghost function View(): Session
      reads this, collector
    {
      Session(cache, collector.log)
    }

    constructor (collector: Collector)
      ensures Valid() && this.collector == collector && cache == map[]
    {
      this.collector := collector;
      fetched := {};
      macTable := [];
      interfaces := map[];
      errdisable := ErrdisableConfig(false, 0);
      vlans := map[];
      reachability := map[];
      stp := None;
      portSecurities := map[];
      cache := map[];
    }

    method ReadMACTable() returns (r: Answer<seq<MACEntry>>)
      requires Valid()
      modifies this, collector
      ensures Valid()
      ensures Lift(r, t => MACTableValue(t)) == Answered(collector.device, old(View()), MACTableKey)
      ensures View() == AfterRead(collector.device, old(View()), MACTableKey)
    {
      hide Mirrors;
      MirrorsAt(State(), cache, MACTableKey);
      if MAC_TABLE !in fetched {
        var got := collector.CollectMACTable();
        match got {
          case Broken(e) => return Broken("collect mac table: " + e);
          case Got(t) =>
            RemembersMACTable(State(), cache, t);
            macTable := t;
            fetched := fetched + {MAC_TABLE};
            cache := cache[MACTableKey := MACTableValue(t)];
        }
      }
      r := Got(macTable);
    }

    method ReadInterface(port: string) returns (r: Answer<InterfaceStatus>)
      requires Valid()
      modifies this, collector
      ensures Valid()
      ensures Lift(r, i => InterfaceValue(i)) == Answered(collector.device, old(View()), InterfaceKey(port))
      ensures View() == AfterRead(collector.device, old(View()), InterfaceKey(port))
    {
      hide Mirrors;
      MirrorsAt(State(), cache, InterfaceKey(port));
      if port in interfaces {
        return Got(interfaces[port]);
      }
      var got := collector.CollectInterface(port);
      match got {
        case Broken(e) => return Broken("collect interface " + port + ": " + e);
        case Got(m) =>
          RemembersInterface(State(), cache, port, m);
          interfaces := interfaces + m;
          cache := cache[InterfaceKey(port) := InterfaceValue(m[port])];
      }
      r := Got(interfaces[port]);
    }

    method ReadErrdisable() returns (r: Answer<ErrdisableConfig>)
      requires Valid()
      modifies this, collector
      ensures Valid()
      ensures Lift(r, c => ErrdisableValue(c)) == Answered(collector.device, old(View()), ErrdisableKey)
      ensures View() == AfterRead(collector.device, old(View()), ErrdisableKey)
    {
      hide Mirrors;
      MirrorsAt(State(), cache, ErrdisableKey);
      if ERRDISABLE !in fetched {
        var got := collector.CollectErrdisableRecovery();
        match got {
          case Broken(e) => return Broken("collect errdisable recovery: " + e);
          case Got(c) =>
            RemembersErrdisable(State(), cache, c);
            errdisable := c;
            fetched := fetched + {ERRDISABLE};
            cache := cache[ErrdisableKey := ErrdisableValue(c)];
        }
      }
      r := Got(errdisable);
    }

    /** The table that VLANFor looks its port up in. */
    method ReadVLANs() returns (r: Answer<map<string, int>>)
      requires Valid()
      modifies this, collector
      ensures Valid()
      ensures Lift(r, m => VLANsValue(m)) == Answered(collector.device, old(View()), VLANsKey)
      ensures View() == AfterRead(collector.device, old(View()), VLANsKey)
    {
      hide Mirrors;
      MirrorsAt(State(), cache, VLANsKey);
      if VLANS !in fetched {
        var got := collector.CollectVLANs();
        match got {
          case Broken(e) => return Broken("collect vlans: " + e);
          case Got(m) =>
            RemembersVLANs(State(), cache, m);
            vlans := m;
            fetched := fetched + {VLANS};
            cache := cache[VLANsKey := VLANsValue(m)];
        }
      }
      r := Got(vlans);
    }

    method VLANFor(port: string) returns (r: Answer<Option<int>>)
      requires Valid()
      modifies this, collector
      ensures Valid()
      ensures match (r, Answered(collector.device, old(View()), VLANsKey))
              case (Got(v), Got(table)) =>
                table.VLANsValue? && v == if port in table.vlans then Some(table.vlans[port]) else None
              case (Broken(e), Broken(e')) => e == e'
              case _ => false
      ensures View() == AfterRead(collector.device, old(View()), VLANsKey)
    {
      hide Valid, Answered, AfterRead;
      var table := ReadVLANs();
      match table
      case Broken(e) => r := Broken(e);
      case Got(m) => r := Got(if port in m then Some(m[port]) else None);
    }

    method ReadReachable(target: string) returns (r: Answer<bool>)
      requires Valid()
      modifies this, collector
      ensures Valid()
      ensures Lift(r, b => ReachValue(b)) == Answered(collector.device, old(View()), ReachKey(target))
      ensures View() == AfterRead(collector.device, old(View()), ReachKey(target))
    {
      hide Mirrors;
      MirrorsAt(State(), cache, ReachKey(target));
      if target in reachability {
        return Got(reachability[target]);
      }
      var got := collector.CollectReachability(target);
      match got {
        case Broken(e) => return Broken("collect reachability " + target + ": " + e);
        case Got(m) =>
          RemembersReachable(State(), cache, target, m);
          reachability := reachability + m;
          cache := cache[ReachKey(target) := ReachValue(m[target])];
      }
      r := Got(reachability[target]);
    }

    method ReadSTP() returns (r: Answer<STPInfo>)
      requires Valid()
      modifies this, collector
      ensures Valid()
      ensures Lift(r, s => STPValue(s)) == Answered(collector.device, old(View()), STPKey)
      ensures View() == AfterRead(collector.device, old(View()), STPKey)
    {
      assert STP in fetched ==> stp.Some?;
      hide Mirrors;
      MirrorsAt(State(), cache, STPKey);
      if STP !in fetched {
        var got := collector.CollectSTP();
        match got {
          case Broken(e) => return Broken("collect stp: " + e);
          case Got(s) =>
            RemembersSTP(State(), cache, s);
            stp := Some(s);
            fetched := fetched + {STP};
            cache := cache[STPKey := STPValue(s)];
        }
      }
      r := Got(stp.value);
    }

    method ReadPortSecurity(iface: string) returns (r: Answer<PortSecurityInfo>)
      requires Valid()
      modifies this, collector
      ensures Valid()
      ensures Lift(r, p => PortSecurityValue(p)) == Answered(collector.device, old(View()), PortSecurityKey(iface))
      ensures View() == AfterRead(collector.device, old(View()), PortSecurityKey(iface))
    {
      var key := PortsecFlag(iface);
      assert key in fetched ==> iface in portSecurities;
      hide Mirrors, PortsecFlag;
      MirrorsAt(State(), cache, PortSecurityKey(iface));
      if key !in fetched {
        var got := collector.CollectPortSecurity(iface);
        match got {
          case Broken(e) => return Broken("collect port-security " + iface + ": " + e);
          case Got(p) =>
            RemembersPortSecurity(State(), cache, iface, p);
            portSecurities := portSecurities[iface := p];
            fetched := fetched + {key};
            cache := cache[PortSecurityKey(iface) := PortSecurityValue(p)];
        }
      }
      r := Got(portSecurities[iface]);
    }
  }
}
