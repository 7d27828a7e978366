/**
 The keyed try-lock of internal/labsession/console_lock.go.

 A lock entry carries a generation token. The closure that TryLock hands out remembers its
 key and token and may be called late, or many times, or never. ForceRelease takes the lock
 from its holder, whose closure is then stale.

 Every operation runs under one mutex, so an execution is a sequence of operations.
 ForceRelease calls the registered callback after it has left the mutex: here it returns the
 callback, and whatever the callback does to the lock is a later operation of the sequence.
 */
module Console {
  import opened Wrappers

  datatype Key = Key(session: nat, node: string)

  /** Callbacks are known by a number. */
  datatype Entry = Entry(holder: string, token: nat, preempt: Option<nat>)

  /** The closure returned by a successful TryLock. */
  datatype Unlocker = Unlocker(key: Key, token: nat)

  /** Tokens are unsigned 64-bit integers. */
  const TOKENS: nat := 0x1_0000_0000_0000_0000

  datatype Lock = Lock(locks: map<Key, Entry>, nextToken: nat)

  datatype Outcome =
    | Acquired(unlock: Unlocker)
    | Busy(heldBy: string)
    | Released(preempt: Option<nat>)
    | NotReleased
    | Silent

  // ---------------------------------------------------------------------------
  // The operations
  // ---------------------------------------------------------------------------

  /** The counter wraps around. */
  function NextToken(t: nat): (next: nat) {
    (t + 1) % TOKENS
  }

  function DoTryLock(l: Lock, key: Key, holder: string): (Lock, Outcome) {
    if key in l.locks then (l, Busy(l.locks[key].holder))
    else
      var token := NextToken(l.nextToken);
      (Lock(l.locks[key := Entry(holder, token, None)], token), Acquired(Unlocker(key, token)))
  }

  function DoUnlock(l: Lock, u: Unlocker): Lock {
    if u.key in l.locks && l.locks[u.key].token == u.token then l.(locks := l.locks - {u.key}) else l
  }

  function DoSetPreempt(l: Lock, key: Key, fn: nat): Lock {
    if key in l.locks then l.(locks := l.locks[key := l.locks[key].(preempt := Some(fn))]) else l
  }

  function DoForceRelease(l: Lock, key: Key, expectedHolder: string): (Lock, Outcome) {
    if key in l.locks && l.locks[key].holder == expectedHolder
    then (l.(locks := l.locks - {key}), Released(l.locks[key].preempt))
    else (l, NotReleased)
  }

  class ConsoleLock {
    var locks: map<Key, Entry>
    var nextToken: nat

    function State(): Lock
      reads this
    {
      Lock(locks, nextToken)
    }

    constructor ()
      ensures State() == Lock(map[], 0)
    {
      locks := map[];
      nextToken := 0;
    }

    method TryLock(key: Key, holder: string) returns (unlock: Option<Unlocker>, heldBy: string, ok: bool)
      modifies this
      ensures State() == DoTryLock(old(State()), key, holder).0
      ensures match DoTryLock(old(State()), key, holder).1
              case Acquired(u) => ok && unlock == Some(u) && heldBy == ""
              case Busy(h) => !ok && unlock == None && heldBy == h
              case _ => false
    {
      if key in locks {
        return None, locks[key].holder, false;
      }
      nextToken := (nextToken + 1) % TOKENS;
      var token := nextToken;
      locks := locks[key := Entry(holder, token, None)];
      return Some(Unlocker(key, token)), "", true;
    }

    /** The body of the closure. */
    method Unlock(u: Unlocker)
      modifies this
      ensures State() == DoUnlock(old(State()), u)
    {
      if u.key in locks {
        var e := locks[u.key];
        if e.token == u.token {
          locks := locks - {u.key};
        }
      }
    }

    method SetPreempt(key: Key, fn: nat)
      modifies this
      ensures State() == DoSetPreempt(old(State()), key, fn)
    {
      if key in locks {
        locks := locks[key := locks[key].(preempt := Some(fn))];
      }
    }

    method ForceRelease(key: Key, expectedHolder: string) returns (released: bool, toCall: Option<nat>)
      modifies this
      ensures State() == DoForceRelease(old(State()), key, expectedHolder).0
      ensures DoForceRelease(old(State()), key, expectedHolder).1 ==
              if released then Released(toCall) else NotReleased
    {
      toCall := None;
      if key !in locks || locks[key].holder != expectedHolder {
        return false, None;
      }
      toCall := locks[key].preempt;
      locks := locks - {key};
      released := true;
    }
  }

  // ---------------------------------------------------------------------------
  // Executions
  // ---------------------------------------------------------------------------

  /** `RunUnlocker(n)` calls the closure of the n-th successful acquisition, counting from 0. */
  datatype Event =
    | TryLock(key: Key, holder: string)
    | RunUnlocker(n: nat)
    | SetPreempt(key: Key, fn: nat)
    | ForceRelease(key: Key, holder: string)

  /** The lock together with the closures it has handed out so far. */
  datatype System = System(lock: Lock, issued: seq<Unlocker>)

  function Step(s: System, e: Event): (System, Outcome) {
    match e
    case TryLock(key, holder) =>
      var (l, out) := DoTryLock(s.lock, key, holder);
      (System(l, if out.Acquired? then s.issued + [out.unlock] else s.issued), out)
    case RunUnlocker(n) =>
      (if n < |s.issued| then s.(lock := DoUnlock(s.lock, s.issued[n])) else s, Silent)
    case SetPreempt(key, fn) => (s.(lock := DoSetPreempt(s.lock, key, fn)), Silent)
    case ForceRelease(key, holder) =>
      var (l, out) := DoForceRelease(s.lock, key, holder);
      (s.(lock := l), out)
  }

  function After(evs: seq<Event>): System {
    if evs == [] then System(Lock(map[], 0), [])
    else Step(After(evs[..|evs| - 1]), evs[|evs| - 1]).0
  }

  // ---------------------------------------------------------------------------
  // The reference: a plain map from key to the acquisition that owns it
  // ---------------------------------------------------------------------------

  /** The operation number `at` acquired `key` for `holder`. */
  datatype Acquisition = Acquisition(key: Key, holder: string, at: nat)

  datatype Plain = Plain(owners: map<Key, nat>, acquired: seq<Acquisition>, callbacks: map<nat, nat>)

  datatype PlainOutcome =
    | Got(n: nat)
    | Taken(heldBy: string)
    | Freed(callback: Option<nat>)
    | Kept
    | Nothing

  ghost predicate Sound(p: Plain) {
    && (forall k :: k in p.owners ==> p.owners[k] < |p.acquired| && p.acquired[p.owners[k]].key == k)
    && (forall n :: n in p.callbacks ==> n < |p.acquired|)
  }

  function AcquiredBy(p: Plain, key: Key, holder: string, at: nat): Plain {
    p.(owners := p.owners[key := |p.acquired|], acquired := p.acquired + [Acquisition(key, holder, at)])
  }

  function PlainStep(p: Plain, e: Event, at: nat): (PlainOutcome, Plain)
    requires Sound(p)
    ensures Sound(PlainStep(p, e, at).1)
  {
    match e
    case TryLock(key, holder) =>
      if key in p.owners then (Taken(p.acquired[p.owners[key]].holder), p)
      else (Got(|p.acquired|), AcquiredBy(p, key, holder, at))
    case RunUnlocker(n) =>
      (Nothing,
       if n < |p.acquired| && p.acquired[n].key in p.owners && p.owners[p.acquired[n].key] == n
       then p.(owners := p.owners - {p.acquired[n].key}) else p)
    case SetPreempt(key, fn) =>
      (Nothing, if key in p.owners then p.(callbacks := p.callbacks[p.owners[key] := fn]) else p)
    case ForceRelease(key, holder) =>
      if key in p.owners && p.acquired[p.owners[key]].holder == holder
      then (Freed(Callback(p, p.owners[key])), p.(owners := p.owners - {key}))
      else (Kept, p)
  }

  function Callback(p: Plain, n: nat): Option<nat> {
    if n in p.callbacks then Some(p.callbacks[n]) else None
  }

  function PlainAfter(evs: seq<Event>): Plain
    ensures Sound(PlainAfter(evs))
  {
    if evs == [] then Plain(map[], [], map[])
    else PlainStep(PlainAfter(evs[..|evs| - 1]), evs[|evs| - 1], |evs| - 1).1
  }

  // ---------------------------------------------------------------------------
  // The lock refines the plain map
  // ---------------------------------------------------------------------------

  /** The counter after `n` acquisitions. */
  function Counter(n: nat): nat {
    if n == 0 then 0 else NextToken(Counter(n - 1))
  }

  /** The token of the n-th acquisition, counting from 0. */
  function Token(n: nat): nat {
    Counter(n + 1)
  }

  ghost predicate Refines(s: System, p: Plain) {
    && Sound(p)
    && s.lock.nextToken == Counter(|s.issued|)
    && IssuedFor(s.issued, p)
    && LocksFor(s.lock.locks, p)
  }

  ghost predicate IssuedFor(issued: seq<Unlocker>, p: Plain) {
    && |issued| == |p.acquired|
    && (forall n :: 0 <= n < |issued| ==> issued[n] == Unlocker(p.acquired[n].key, Token(n)))
  }

  ghost predicate LocksFor(locks: map<Key, Entry>, p: Plain)
    requires Sound(p)
  {
    && locks.Keys == p.owners.Keys
    && (forall k :: k in locks ==> locks[k] == EntryFor(p, p.owners[k]))
  }

  /** The lock entry of acquisition `n`. */
  function EntryFor(p: Plain, n: nat): Entry
    requires n < |p.acquired|
  {
    Entry(p.acquired[n].holder, Token(n), Callback(p, n))
  }

  /** The two outcomes of one operation say the same to its caller. */
  ghost predicate SameOutcome(out: Outcome, ref: PlainOutcome, p: Plain) {
    match (out, ref)
    case (Acquired(u), Got(n)) => n < |p.acquired| && u == Unlocker(p.acquired[n].key, Token(n))
    case (Busy(h), Taken(h')) => h == h'
    case (Released(c), Freed(c')) => c == c'
    case (NotReleased, Kept) => true
    case (Silent, Nothing) => true
    case _ => false
  }

  lemma {:induction false} CounterCounts(n: nat)
    requires n < TOKENS
    ensures Counter(n) == n
    decreases n
  {
    if n == 0 {
    } else {
      CounterCounts(n - 1);
    }
  }

  lemma NextTokenInjective(m: nat, n: nat)
    requires m < TOKENS && n < TOKENS && NextToken(m) == NextToken(n)
    ensures m == n
  {
    assert NextToken(m) == if m + 1 == TOKENS then 0 else m + 1;
    assert NextToken(n) == if n + 1 == TOKENS then 0 else n + 1;
  }

  lemma TokensDiffer(m: nat, n: nat)
    requires m < TOKENS && n < TOKENS && Token(m) == Token(n)
    ensures m == n
  {
    hide NextToken;
    CounterCounts(m);
    CounterCounts(n);
    NextTokenInjective(m, n);
  }

  /** One more acquisition: entries for the others stay, and a new one stands for it. */
  lemma AcquireKeepsLocks(locks: map<Key, Entry>, p: Plain, key: Key, holder: string, at: nat)
    requires Sound(p) && LocksFor(locks, p) && key !in locks
    ensures Sound(AcquiredBy(p, key, holder, at))
    ensures LocksFor(locks[key := Entry(holder, Token(|p.acquired|), None)], AcquiredBy(p, key, holder, at))
  {
    hide Token;
    var p' := AcquiredBy(p, key, holder, at);
    assert EntryFor(p', |p.acquired|) == Entry(holder, Token(|p.acquired|), None);
    forall k | k in locks ensures EntryFor(p', p.owners[k]) == EntryFor(p, p.owners[k]) {
    }
  }

  lemma AcquireKeepsIssued(issued: seq<Unlocker>, p: Plain, key: Key, holder: string, at: nat)
    requires IssuedFor(issued, p)
    ensures IssuedFor(issued + [Unlocker(key, Token(|p.acquired|))], AcquiredBy(p, key, holder, at))
  {
    hide Token;
  }

  lemma TryLockRefines(s: System, p: Plain, key: Key, holder: string, at: nat)
    requires Refines(s, p)
    ensures Refines(Step(s, TryLock(key, holder)).0, PlainStep(p, TryLock(key, holder), at).1)
    ensures SameOutcome(Step(s, TryLock(key, holder)).1, PlainStep(p, TryLock(key, holder), at).0,
                        PlainStep(p, TryLock(key, holder), at).1)
  {
    var n := |p.acquired|;
    assert Token(n) == Counter(n + 1) == NextToken(s.lock.nextToken);
    hide NextToken, Token, Counter;
    if key in s.lock.locks {
      assert s.lock.locks[key] == EntryFor(p, p.owners[key]);
    } else {
      AcquireKeepsLocks(s.lock.locks, p, key, holder, at);
      AcquireKeepsIssued(s.issued, p, key, holder, at);
      hide Sound, LocksFor, IssuedFor;
    }
  }

  lemma RunUnlockerRefines(s: System, p: Plain, n: nat, at: nat)
    requires Refines(s, p) && |p.acquired| <= TOKENS
    ensures Refines(Step(s, RunUnlocker(n)).0, PlainStep(p, RunUnlocker(n), at).1)
  {
    hide Token;
    if n < |s.issued| && s.issued[n].key in s.lock.locks {
      var owner := p.owners[s.issued[n].key];
      if Token(owner) == Token(n) {
        TokensDiffer(owner, n);
      }
    }
  }

  lemma SetPreemptRefines(s: System, p: Plain, key: Key, fn: nat, at: nat)
    requires Refines(s, p)
    ensures Refines(Step(s, SetPreempt(key, fn)).0, PlainStep(p, SetPreempt(key, fn), at).1)
  {
    hide Token, Counter;
  }

  lemma ForceReleaseRefines(s: System, p: Plain, key: Key, holder: string, at: nat)
    requires Refines(s, p)
    ensures Refines(Step(s, ForceRelease(key, holder)).0, PlainStep(p, ForceRelease(key, holder), at).1)
    ensures SameOutcome(Step(s, ForceRelease(key, holder)).1, PlainStep(p, ForceRelease(key, holder), at).0,
                        PlainStep(p, ForceRelease(key, holder), at).1)
  {
    hide Token, Counter;
  }

  lemma StepRefines(s: System, p: Plain, e: Event, at: nat)
    requires Refines(s, p) && |p.acquired| <= TOKENS
    ensures Refines(Step(s, e).0, PlainStep(p, e, at).1)
    ensures SameOutcome(Step(s, e).1, PlainStep(p, e, at).0, PlainStep(p, e, at).1)
  {
    hide Refines;
    match e
    case TryLock(key, holder) => TryLockRefines(s, p, key, holder, at);
    case RunUnlocker(n) => RunUnlockerRefines(s, p, n, at);
    case SetPreempt(key, fn) => SetPreemptRefines(s, p, key, fn, at);
    case ForceRelease(key, holder) => ForceReleaseRefines(s, p, key, holder, at);
  }

  /** No more acquisitions than there are tokens. */
  ghost predicate TokensLast(evs: seq<Event>) {
    |PlainAfter(evs).acquired| <= TOKENS
  }

  lemma TokensLastBefore(evs: seq<Event>)
    requires evs != [] && TokensLast(evs)
    ensures TokensLast(evs[..|evs| - 1])
  {
  }

  /** Main result: over every interleaving that takes the lock at most 2^64 times, with
      closures called in any order and any number of times, the lock is the plain map. */
  lemma {:induction false} LockRefinesPlain(evs: seq<Event>)
    requires TokensLast(evs)
    ensures Refines(After(evs), PlainAfter(evs))
    decreases |evs|
  {
    if evs == [] {
    } else {
      TokensLastBefore(evs);
      var before := evs[..|evs| - 1];
      LockRefinesPlain(before);
      StepRefines(After(before), PlainAfter(before), evs[|evs| - 1], |evs| - 1);
    }
  }

  /** ... and every caller is told what the plain map would tell it. */
  lemma {:induction false} CallersSeePlain(evs: seq<Event>, e: Event)
    requires TokensLast(evs)
    ensures SameOutcome(Step(After(evs), e).1, PlainStep(PlainAfter(evs), e, |evs|).0,
                        PlainStep(PlainAfter(evs), e, |evs|).1)
  {
    LockRefinesPlain(evs);
    StepRefines(After(evs), PlainAfter(evs), e, |evs|);
  }

  // ---------------------------------------------------------------------------
  // Who owns what, read off the history alone
  // ---------------------------------------------------------------------------

  /** Only these two operations end acquisition `n`. */
  predicate Ends(e: Event, n: nat, a: Acquisition) {
    e == RunUnlocker(n) || e == ForceRelease(a.key, a.holder)
  }

  ghost predicate NeverEnded(evs: seq<Event>, n: nat, a: Acquisition) {
    forall q :: a.at < q < |evs| ==> !Ends(evs[q], n, a)
  }

  /** The closure of acquisition `n` would release its key now. */
  predicate Holds(s: System, n: nat) {
    && n < |s.issued|
    && s.issued[n].key in s.lock.locks
    && s.lock.locks[s.issued[n].key].token == s.issued[n].token
  }

  predicate Owns(p: Plain, n: nat) {
    n < |p.acquired| && p.acquired[n].key in p.owners && p.owners[p.acquired[n].key] == n
  }

  lemma StepKeepsOwner(p: Plain, e: Event, at: nat, n: nat)
    requires Sound(p) && n < |p.acquired|
    ensures var p' := PlainStep(p, e, at).1;
            n < |p'.acquired| && p'.acquired[n] == p.acquired[n]
    ensures Owns(PlainStep(p, e, at).1, n) <==> Owns(p, n) && !Ends(e, n, p.acquired[n])
  {
  }

  lemma NewestOwns(p: Plain, e: Event, at: nat, n: nat)
    requires Sound(p) && |p.acquired| <= n < |PlainStep(p, e, at).1.acquired|
    ensures Owns(PlainStep(p, e, at).1, n) && PlainStep(p, e, at).1.acquired[n].at == at
  {
  }

  lemma {:induction false} AcquiredEarlier(evs: seq<Event>, n: nat)
    requires n < |PlainAfter(evs).acquired|
    ensures PlainAfter(evs).acquired[n].at < |evs|
    decreases |evs|
  {
    var before := evs[..|evs| - 1];
    var p, e := PlainAfter(before), evs[|evs| - 1];
    hide PlainStep, Owns, Ends, Sound;
    if n < |p.acquired| {
      AcquiredEarlier(before, n);
      StepKeepsOwner(p, e, |before|, n);
    } else {
      NewestOwns(p, e, |before|, n);
    }
  }

  lemma NeverEndedExtends(evs: seq<Event>, e: Event, n: nat, a: Acquisition)
    requires a.at < |evs|
    ensures NeverEnded(evs + [e], n, a) <==> NeverEnded(evs, n, a) && !Ends(e, n, a)
  {
    var all := evs + [e];
    assert all[|evs|] == e;
    if NeverEnded(all, n, a) {
      forall q | a.at < q < |evs| ensures !Ends(evs[q], n, a) {
        assert all[q] == evs[q];
      }
    }
  }

  lemma {:induction false} PlainOwnsExactly(evs: seq<Event>, n: nat)
    requires n < |PlainAfter(evs).acquired|
    ensures Owns(PlainAfter(evs), n) <==> NeverEnded(evs, n, PlainAfter(evs).acquired[n])
    decreases |evs|
  {
    var before := evs[..|evs| - 1];
    var e := evs[|evs| - 1];
    var p := PlainAfter(before);
    assert evs == before + [e];
    hide PlainStep, Owns, Ends;
    if n < |p.acquired| {
      PlainOwnsExactly(before, n);
      AcquiredEarlier(before, n);
      StepKeepsOwner(p, e, |before|, n);
      NeverEndedExtends(before, e, n, p.acquired[n]);
    } else {
      NewestOwns(p, e, |before|, n);
    }
  }

  /** An acquisition lasts until its own closure runs or a ForceRelease names its key and
      holder, and no other operation ends it: not a stale closure, not a repeated one. */
  lemma HoldsExactly(evs: seq<Event>, n: nat)
    requires TokensLast(evs) && n < |PlainAfter(evs).acquired|
    ensures Holds(After(evs), n) <==> NeverEnded(evs, n, PlainAfter(evs).acquired[n])
  {
    LockRefinesPlain(evs);
    PlainOwnsExactly(evs, n);
    var s, p := After(evs), PlainAfter(evs);
    var key := s.issued[n].key;
    if key in s.lock.locks && Token(p.owners[key]) == Token(n) {
      TokensDiffer(p.owners[key], n);
    }
  }

  /** At most one owner per (session, node), and every locked key has one. */
  lemma MutualExclusion(evs: seq<Event>)
    requires TokensLast(evs)
    ensures var s := After(evs);
            forall m: nat, n: nat :: Holds(s, m) && Holds(s, n) && m != n ==> s.issued[m].key != s.issued[n].key
    ensures var s := After(evs);
            forall k :: k in s.lock.locks ==> exists n: nat :: Holds(s, n) && s.issued[n].key == k
  {
    LockRefinesPlain(evs);
    var s, p := After(evs), PlainAfter(evs);
    forall m: nat, n: nat | Holds(s, m) && Holds(s, n) && m != n
      ensures s.issued[m].key != s.issued[n].key
    {
      if s.issued[m].key == s.issued[n].key {
        TokensDiffer(m, n);
      }
    }
    forall k | k in s.lock.locks
      ensures exists n: nat :: Holds(s, n) && s.issued[n].key == k
    {
      assert Holds(s, p.owners[k]) && s.issued[p.owners[k]].key == k;
    }
  }

  // ---------------------------------------------------------------------------
  // One acquisition more than there are tokens
  // ---------------------------------------------------------------------------

  /** Acquire and release `key` properly, acquisitions 1 to `count`. */
  function Churn(key: Key, count: nat): seq<Event> {
    if count == 0 then []
    else Churn(key, count - 1) + [TryLock(key, "verify"), RunUnlocker(count)]
  }

  /** The first holder is preempted and keeps its closure. */
  function Preempted(key: Key, count: nat): seq<Event> {
    [TryLock(key, "console"), ForceRelease(key, "console")] + Churn(key, count)
  }

  lemma AfterAppend(evs: seq<Event>, e: Event)
    ensures After(evs + [e]) == Step(After(evs), e).0
  {
    assert (evs + [e])[..|evs|] == evs;
  }

  /** Nothing is locked, and the first closure handed out was for `key`, with token 1. */
  ghost predicate Churned(s: System, key: Key, n: nat) {
    && s.lock == Lock(map[], Counter(n))
    && |s.issued| == n && n > 0 && s.issued[0] == Unlocker(key, 1)
  }

  /** Acquire and release once more. */
  lemma ChurnStep(s: System, key: Key, n: nat)
    requires Churned(s, key, n)
    ensures Churned(Step(Step(s, TryLock(key, "verify")).0, RunUnlocker(n)).0, key, n + 1)
  {
    hide NextToken;
    var taken := Step(s, TryLock(key, "verify")).0;
    assert taken.issued[n] == Unlocker(key, Counter(n + 1));
    assert taken.lock.locks - {key} == map[];
  }

  lemma FirstPreempted(key: Key)
    ensures Churned(After(Preempted(key, 0)), key, 1)
  {
    var first := [TryLock(key, "console")];
    AfterAppend([], first[0]);
    AfterAppend(first, ForceRelease(key, "console"));
    assert [] + [first[0]] == first;
    assert Preempted(key, 0) == first + [ForceRelease(key, "console")];
    assert Counter(1) == NextToken(Counter(0)) == 1;
    assert After(first).lock.locks == map[key := Entry("console", 1, None)];
  }

  lemma {:induction false} AfterChurn(key: Key, count: nat)
    ensures Churned(After(Preempted(key, count)), key, count + 1)
    decreases count
  {
    hide Churned, After, Step;
    if count == 0 {
      FirstPreempted(key);
    } else {
      AfterChurn(key, count - 1);
      var evs := Preempted(key, count - 1);
      var taken := evs + [TryLock(key, "verify")];
      AfterAppend(evs, TryLock(key, "verify"));
      AfterAppend(taken, RunUnlocker(count));
      assert Preempted(key, count) == taken + [RunUnlocker(count)];
      ChurnStep(After(evs), key, count);
    }
  }

  /** With all closures from before still about, one more acquisition takes the token of the first. */
  lemma WrapStep(s: System, key: Key)
    requires Churned(s, key, TOKENS)
    ensures var taken := Step(s, TryLock(key, "verify")).0;
            && |taken.issued| == TOKENS + 1 && taken.issued[TOKENS].key == key
            && key in taken.lock.locks && key !in Step(taken, RunUnlocker(0)).0.lock.locks
  {
    CounterCounts(TOKENS - 1);
    assert NextToken(TOKENS - 1) == 0 && NextToken(0) == 1;
    assert Counter(TOKENS) == NextToken(Counter(TOKENS - 1));
    hide Counter, NextToken;
    var taken := Step(s, TryLock(key, "verify")).0;
    assert taken.lock.locks[key].token == 1;
    assert taken.issued[0] == Unlocker(key, 1);
  }

  /** The bound is exact: with 2^64 + 1 acquisitions a token comes round again, and the
      closure of the preempted first holder releases a lock that is somebody else's. */
  lemma StaleUnlockAfterWrap(key: Key) returns (evs: seq<Event>)
    ensures |After(evs).issued| == TOKENS + 1
    ensures key in After(evs).lock.locks && After(evs).issued[TOKENS].key == key
    ensures key !in After(evs + [RunUnlocker(0)]).lock.locks
  {
    var churned := Preempted(key, TOKENS - 1);
    AfterChurn(key, TOKENS - 1);
    evs := churned + [TryLock(key, "verify")];
    AfterAppend(churned, TryLock(key, "verify"));
    AfterAppend(evs, RunUnlocker(0));
    hide After, Step, Churned;
    WrapStep(After(churned), key);
  }
}
