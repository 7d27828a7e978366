/**
 The per-IP token bucket of pkg/ratelimit: lazily created buckets, refill on use,
 and a garbage collector that forgets buckets idle for ten minutes.

 Time is a real number of seconds. `Allow` is one atomic step; it reads the clock when it creates a
 bucket and again when it refills one.
 */
module RateLimit {
  import opened Reals

  datatype Bucket = Bucket(tokens: real, lastSeen: real)

  type Buckets = map<string, Bucket>

  const IDLE_SECONDS := 600.0

  /** The limiter's settings: both come from one integer, requests per minute. */
  datatype Config = Config(ratePerMinute: int) {
    function Rate(): real {
      ratePerMinute as real / 60.0
    }

    function Capacity(): real {
      ratePerMinute as real
    }

    /** Tokens that flow in over `dt` seconds. */
    function Flow(dt: real): real {
      Rate() * dt
    }
  }

  lemma FlowMono(c: Config, a: real, b: real)
    requires c.ratePerMinute >= 0 && a <= b
    ensures c.Flow(a) <= c.Flow(b)
  {
    MulMono(c.Rate(), a, b);
  }

  lemma FlowSum(c: Config, a: real, b: real)
    ensures c.Flow(a) + c.Flow(b) == c.Flow(a + b)
  {
    MulSplit(c.Rate(), a, b);
  }

  lemma FlowConstants(c: Config)
    ensures c.Flow(0.0) == 0.0
    ensures c.Flow(IDLE_SECONDS) == 10.0 * c.Capacity()
  {
  }

  // ---------------------------------------------------------------------------
  // The limiter as it is written
  // ---------------------------------------------------------------------------

  /** The bucket a request of `ip` works on, refilled. `first` and `now` are the clock readings. */
  function Refilled(c: Config, bs: Buckets, ip: string, first: real, now: real): real {
    var b := if ip in bs then bs[ip] else Bucket(c.Capacity(), first);
    Min(c.Capacity(), b.tokens + c.Flow(now - b.lastSeen))
  }

  predicate Allowed(c: Config, bs: Buckets, ip: string, first: real, now: real) {
    Refilled(c, bs, ip, first, now) >= 1.0
  }

  function AfterAllow(c: Config, bs: Buckets, ip: string, first: real, now: real): Buckets {
    var x := Refilled(c, bs, ip, first, now);
    bs[ip := Bucket(if x < 1.0 then x else x - 1.0, now)]
  }

  function AfterCleanup(bs: Buckets, now: real): Buckets {
    map ip | ip in bs && !(bs[ip].lastSeen < now - IDLE_SECONDS) :: bs[ip]
  }

  class Limiter {
    const config: Config
    var buckets: Buckets

    constructor (ratePerMinute: int)
      ensures config == Config(ratePerMinute) && buckets == map[]
    {
      config := Config(ratePerMinute);
      buckets := map[];
    }

    method Allow(ip: string, first: real, now: real) returns (ok: bool)
      modifies this
      ensures ok == Allowed(config, old(buckets), ip, first, now)
      ensures buckets == AfterAllow(config, old(buckets), ip, first, now)
    {
      if ip !in buckets {
        buckets := buckets[ip := Bucket(config.Capacity(), first)];
      }
      var b := buckets[ip];
      var elapsed := now - b.lastSeen;
      b := Bucket(Min(config.Capacity(), b.tokens + config.Flow(elapsed)), now);
      if b.tokens < 1.0 {
        ok := false;
      } else {
        ok := true;
        b := b.(tokens := b.tokens - 1.0);
      }
      buckets := buckets[ip := b];
      assert buckets == AfterAllow(config, old(buckets), ip, first, now);
    }

    method Cleanup(now: real)
      modifies this
      ensures buckets == AfterCleanup(old(buckets), now)
      ensures forall ip :: ip in buckets <==> ip in old(buckets) && now - old(buckets)[ip].lastSeen <= 600.0
    {
      var cutoff := now - IDLE_SECONDS;
      var todo := buckets.Keys;
      while todo != {}
        invariant todo <= buckets.Keys <= old(buckets).Keys
        invariant forall ip :: ip in buckets ==> buckets[ip] == old(buckets)[ip]
        invariant forall ip :: ip in old(buckets) && ip !in todo ==>
                                 (ip in buckets <==> !(old(buckets)[ip].lastSeen < cutoff))
        decreases todo
      {
        var ip :| ip in todo;
        if buckets[ip].lastSeen < cutoff {
          buckets := buckets - {ip};
        }
        todo := todo - {ip};
      }
    }
  }

  // ---------------------------------------------------------------------------
  // Runs: requests and cleanups at non-decreasing times
  // ---------------------------------------------------------------------------

  datatype Event =
    | Request(ip: string, first: real, at: real)
    | Cleanup(at: real)

  datatype Reply = Reply(ip: string, at: real, ok: bool)

  ghost predicate InOrder(evs: seq<Event>) {
    && (forall i, j :: 0 <= i < j < |evs| ==> evs[i].at <= evs[j].at)
    && (forall i :: 0 <= i < |evs| && evs[i].Request? ==> evs[i].first <= evs[i].at)
  }

  function Step(c: Config, bs: Buckets, e: Event): Buckets {
    match e
    case Request(ip, first, at) => AfterAllow(c, bs, ip, first, at)
    case Cleanup(at) => AfterCleanup(bs, at)
  }

  /** The limiter's buckets after a run that starts with none. */
  function BucketsAfter(c: Config, evs: seq<Event>): Buckets {
    if evs == [] then map[]
    else Step(c, BucketsAfter(c, evs[..|evs| - 1]), evs[|evs| - 1])
  }

  /** Every answer of the run, in order. */
  function Replies(c: Config, evs: seq<Event>): seq<Reply> {
    if evs == [] then []
    else
      var before := evs[..|evs| - 1];
      match evs[|evs| - 1]
      case Request(ip, first, at) =>
        Replies(c, before) + [Reply(ip, at, Allowed(c, BucketsAfter(c, before), ip, first, at))]
      case Cleanup(_) => Replies(c, before)
  }

  /** The answers one IP got. */
  function RepliesTo(c: Config, evs: seq<Event>, ip: string): seq<bool> {
    if evs == [] then []
    else
      var before := evs[..|evs| - 1];
      var e := evs[|evs| - 1];
      if e.Request? && e.ip == ip
      then RepliesTo(c, before, ip) + [Allowed(c, BucketsAfter(c, before), ip, e.first, e.at)]
      else RepliesTo(c, before, ip)
  }

  /** When one IP asked. */
  function TimesOf(evs: seq<Event>, ip: string): seq<real> {
    if evs == [] then []
    else
      var before := evs[..|evs| - 1];
      var e := evs[|evs| - 1];
      if e.Request? && e.ip == ip then TimesOf(before, ip) + [e.at] else TimesOf(before, ip)
  }

  function WithoutCleanups(evs: seq<Event>): seq<Event> {
    if evs == [] then []
    else
      var rest := WithoutCleanups(evs[..|evs| - 1]);
      if evs[|evs| - 1].Cleanup? then rest else rest + [evs[|evs| - 1]]
  }

  // ---------------------------------------------------------------------------
  // The reference: one bucket, one client, never forgotten
  // ---------------------------------------------------------------------------

  /** What the bucket holds when a request arrives at `t` after the requests `ts`. */
  function Before(c: Config, ts: seq<real>, t: real): real
    decreases |ts|, 0
  {
    if ts == [] then c.Capacity()
    else Min(c.Capacity(), After(c, ts) + c.Flow(t - ts[|ts| - 1]))
  }

  /** What the last of the requests `ts` left in the bucket. */
  function After(c: Config, ts: seq<real>): real
    requires ts != []
    decreases |ts| - 1, 1
  {
    var x := Before(c, ts[..|ts| - 1], ts[|ts| - 1]);
    if x < 1.0 then x else x - 1.0
  }

  predicate Admits(c: Config, ts: seq<real>, t: real) {
    Before(c, ts, t) >= 1.0
  }

  function Ideal(c: Config, ts: seq<real>): seq<bool>
    ensures |Ideal(c, ts)| == |ts|
  {
    if ts == [] then []
    else Ideal(c, ts[..|ts| - 1]) + [Admits(c, ts[..|ts| - 1], ts[|ts| - 1])]
  }

  ghost predicate Sorted(ts: seq<real>) {
    forall i, j :: 0 <= i < j < |ts| ==> ts[i] <= ts[j]
  }

  // ---------------------------------------------------------------------------
  // The limiter answers every IP as the reference bucket does
  // ---------------------------------------------------------------------------

  /** A positive limit keeps the reference bucket between empty and full. */
  lemma {:induction false} LevelInRange(c: Config, ts: seq<real>)
    requires c.ratePerMinute > 0 && ts != [] && Sorted(ts)
    ensures 0.0 <= After(c, ts) <= c.Capacity()
    decreases |ts|
  {
    var n := |ts| - 1;
    if n == 0 {
    } else {
      assert Sorted(ts[..n]);
      LevelInRange(c, ts[..n]);
      assert ts[..n][n - 1] <= ts[n];
      FlowMono(c, 0.0, ts[n] - ts[n - 1]);
      FlowConstants(c);
    }
  }

  /** Without a positive limit nothing is ever admitted, whatever was forgotten. */
  lemma NothingAdmitted(c: Config, bs: Buckets, ip: string, ts: seq<real>, first: real, t: real)
    requires c.ratePerMinute <= 0
    ensures !Allowed(c, bs, ip, first, t) && !Admits(c, ts, t)
  {
    assert c.Capacity() < 1.0;
  }

  /** After ten idle minutes the bucket has refilled to the brim. */
  lemma IdleIsFull(c: Config, ts: seq<real>, t: real)
    requires c.ratePerMinute > 0 && Sorted(ts)
    requires ts == [] || ts[|ts| - 1] < t - IDLE_SECONDS
    ensures Before(c, ts, t) == c.Capacity()
  {
    if ts != [] {
      LevelInRange(c, ts);
      FlowMono(c, IDLE_SECONDS, t - ts[|ts| - 1]);
      FlowConstants(c);
    }
  }

  /** The bucket kept for `ip` is the reference bucket; a bucket not kept would be full. */
  ghost predicate Tracks(c: Config, bs: Buckets, ip: string, ts: seq<real>, now: real) {
    if ip in bs then
      ts != [] && bs[ip] == Bucket(After(c, ts), ts[|ts| - 1])
    else
      ts == [] || ts[|ts| - 1] < now - IDLE_SECONDS
  }

  lemma {:induction false} TimesAreEventTimes(evs: seq<Event>, ip: string, now: real)
    requires InOrder(evs)
    requires evs == [] || evs[|evs| - 1].at <= now
    ensures Sorted(TimesOf(evs, ip))
    ensures var ts := TimesOf(evs, ip); ts == [] || ts[|ts| - 1] <= now
    decreases |evs|
  {
    if evs == [] {
    } else {
      var before := evs[..|evs| - 1];
      var e := evs[|evs| - 1];
      assert InOrder(before);
      if before != [] {
        assert before[|before| - 1] == evs[|evs| - 2];
      }
      TimesAreEventTimes(before, ip, e.at);
      var ts := TimesOf(before, ip);
      if e.Request? && e.ip == ip && ts != [] {
        forall i, j | 0 <= i < j < |ts + [e.at]| ensures (ts + [e.at])[i] <= (ts + [e.at])[j] {
          if j == |ts| {
            assert ts[i] <= ts[|ts| - 1];
          }
        }
      }
    }
  }

  lemma {:induction false} TracksAfter(c: Config, evs: seq<Event>, ip: string, now: real)
    requires c.ratePerMinute > 0 && InOrder(evs)
    requires evs == [] || evs[|evs| - 1].at <= now
    ensures Tracks(c, BucketsAfter(c, evs), ip, TimesOf(evs, ip), now)
    decreases |evs|
  {
    if evs == [] {
    } else {
      var before := evs[..|evs| - 1];
      var e := evs[|evs| - 1];
      assert InOrder(before);
      TracksAfter(c, before, ip, e.at);
      TimesAreEventTimes(before, ip, e.at);
      var ts := TimesOf(before, ip);
      if e.Request? && e.ip == ip {
        TracksDecides(c, BucketsAfter(c, before), ip, ts, e.first, e.at);
        assert (ts + [e.at])[..|ts|] == ts;
      }
    }
  }

  /** Tracking buckets hold, on arrival of a request, exactly what the reference holds. */
  lemma TracksDecides(c: Config, bs: Buckets, ip: string, ts: seq<real>, first: real, t: real)
    requires c.ratePerMinute > 0 && Sorted(ts) && first <= t
    requires Tracks(c, bs, ip, ts, t)
    ensures Refilled(c, bs, ip, first, t) == Before(c, ts, t)
  {
    if ip !in bs {
      IdleIsFull(c, ts, t);
      FlowMono(c, 0.0, t - first);
      FlowConstants(c);
    }
  }

  /** One request at a time: after any run the limiter decides as the reference bucket. */
  lemma DecidesLikeIdeal(c: Config, evs: seq<Event>, ip: string, first: real, t: real)
    requires InOrder(evs) && first <= t
    requires evs == [] || evs[|evs| - 1].at <= t
    ensures Allowed(c, BucketsAfter(c, evs), ip, first, t) <==> Admits(c, TimesOf(evs, ip), t)
  {
    if c.ratePerMinute <= 0 {
      NothingAdmitted(c, BucketsAfter(c, evs), ip, TimesOf(evs, ip), first, t);
    } else {
      TracksAfter(c, evs, ip, t);
      TimesAreEventTimes(evs, ip, t);
      TracksDecides(c, BucketsAfter(c, evs), ip, TimesOf(evs, ip), first, t);
    }
  }

  /** Main result: for any mix of clients and cleanups, an IP's answers are those of a
      private bucket that is never collected. They depend on nothing but its own requests. */
  lemma {:induction false} RefinesIdeal(c: Config, evs: seq<Event>, ip: string)
    requires InOrder(evs)
    ensures RepliesTo(c, evs, ip) == Ideal(c, TimesOf(evs, ip))
    decreases |evs|
  {
    if evs == [] {
    } else {
      var before := evs[..|evs| - 1];
      var e := evs[|evs| - 1];
      assert InOrder(before);
      RefinesIdeal(c, before, ip);
      if e.Request? && e.ip == ip {
        DecidesLikeIdeal(c, before, ip, e.first, e.at);
        var ts := TimesOf(before, ip);
        assert (ts + [e.at])[..|ts|] == ts;
      }
    }
  }

  /** The runs agree on their times and neither ends later. */
  lemma {:induction false} WithoutCleanupsInOrder(evs: seq<Event>)
    requires InOrder(evs)
    ensures InOrder(WithoutCleanups(evs))
    ensures var es := WithoutCleanups(evs); es != [] ==> evs != [] && es[|es| - 1].at <= evs[|evs| - 1].at
    decreases |evs|
  {
    if evs == [] {
    } else {
      var before, e := evs[..|evs| - 1], evs[|evs| - 1];
      assert InOrder(before);
      WithoutCleanupsInOrder(before);
      if before != [] {
        assert evs[|evs| - 2] == before[|before| - 1] && before[|before| - 1].at <= e.at;
      }
      if !e.Cleanup? {
        OneMoreInOrder(WithoutCleanups(before), e);
      }
    }
  }

  lemma OneMoreInOrder(es: seq<Event>, e: Event)
    requires InOrder(es) && (es != [] ==> es[|es| - 1].at <= e.at) && (e.Request? ==> e.first <= e.at)
    ensures InOrder(es + [e])
  {
    forall i, j | 0 <= i < j < |es + [e]| ensures (es + [e])[i].at <= (es + [e])[j].at {
      if j == |es| {
        assert es[i].at <= es[|es| - 1].at;
      }
    }
  }

  lemma {:induction false} CleanupsAskNothing(evs: seq<Event>, ip: string)
    ensures TimesOf(WithoutCleanups(evs), ip) == TimesOf(evs, ip)
    decreases |evs|
  {
    if evs == [] {
    } else {
      var before, e := evs[..|evs| - 1], evs[|evs| - 1];
      CleanupsAskNothing(before, ip);
      var es := WithoutCleanups(before);
      assert (es + [e])[..|es|] == es;
    }
  }

  /** Garbage collection is invisible: dropping every cleanup changes no answer to anyone. */
  lemma {:induction false} CleanupInvisible(c: Config, evs: seq<Event>)
    requires InOrder(evs)
    ensures Replies(c, evs) == Replies(c, WithoutCleanups(evs))
    decreases |evs|
  {
    if evs == [] {
    } else {
      var before := evs[..|evs| - 1];
      var e := evs[|evs| - 1];
      assert InOrder(before);
      CleanupInvisible(c, before);
      if e.Request? {
        var es := WithoutCleanups(before);
        CleanupsAskNothing(before, e.ip);
        WithoutCleanupsInOrder(before);
        DecidesLikeIdeal(c, before, e.ip, e.first, e.at);
        DecidesLikeIdeal(c, es, e.ip, e.first, e.at);
        assert (es + [e])[..|es|] == es;
      }
    }
  }

  // ---------------------------------------------------------------------------
  // How much one client gets
  // ---------------------------------------------------------------------------

  function Count(answers: seq<bool>): nat {
    if answers == [] then 0
    else Count(answers[..|answers| - 1]) + (if answers[|answers| - 1] then 1 else 0)
  }

  /** How many of the requests from index `i` on were admitted. */
  function AdmittedSince(c: Config, ts: seq<real>, i: nat): nat
    requires i <= |ts|
  {
    Count(Ideal(c, ts)[i..])
  }

  /** Tokens left by the budget "capacity plus what flowed in since request `i`", where
      index `|ts|` stands for the request arriving at `t`. */
  function Budget(c: Config, ts: seq<real>, t: real, i: nat): real
    requires i <= |ts|
  {
    var from := if i < |ts| then ts[i] else t;
    c.Capacity() + c.Flow(t - from) - AdmittedSince(c, ts, i) as real
  }

  lemma AdmittedSinceExtends(c: Config, ts: seq<real>, i: nat)
    requires ts != [] && i < |ts|
    ensures AdmittedSince(c, ts, i) ==
            AdmittedSince(c, ts[..|ts| - 1], i) + (if Admits(c, ts[..|ts| - 1], ts[|ts| - 1]) then 1 else 0)
  {
    var n := |ts| - 1;
    var whole := Ideal(c, ts)[i..];
    assert whole[..|whole| - 1] == Ideal(c, ts[..n])[i..];
  }

  /** The level in the bucket is the least of all those budgets. */
  lemma {:induction false} LevelIsLeastBudget(c: Config, ts: seq<real>, t: real) returns (best: nat)
    ensures best <= |ts| && Before(c, ts, t) == Budget(c, ts, t, best)
    ensures forall i :: 0 <= i <= |ts| ==> Before(c, ts, t) <= Budget(c, ts, t, i)
    decreases |ts|
  {
    best := |ts|;
    assert Budget(c, ts, t, |ts|) == c.Capacity() by {
      assert Ideal(c, ts)[|ts|..] == [];
      FlowConstants(c);
    }
    if ts == [] {
    } else {
      var n := |ts| - 1;
      var last := ts[n];
      var b := LevelIsLeastBudget(c, ts[..n], last);
      forall i | 0 <= i <= n
        ensures Budget(c, ts, t, i) ==
                Budget(c, ts[..n], last, i) - (if Admits(c, ts[..n], last) then 1.0 else 0.0) + c.Flow(t - last)
      {
        BudgetFlows(c, ts, t, i);
      }
      if Before(c, ts, t) < c.Capacity() {
        best := b;
      }
    }
  }

  lemma BudgetFlows(c: Config, ts: seq<real>, t: real, i: nat)
    requires ts != [] && i < |ts|
    ensures var n := |ts| - 1;
            Budget(c, ts, t, i) ==
            Budget(c, ts[..n], ts[n], i) - (if Admits(c, ts[..n], ts[n]) then 1.0 else 0.0) + c.Flow(t - ts[n])
  {
    var n := |ts| - 1;
    AdmittedSinceExtends(c, ts, i);
    FlowSum(c, ts[n] - ts[i], t - ts[n]);
  }

  /** At most so many requests may be let through in a window of `seconds`: one limit at once, and from then on the
      limit per minute. Sixty-fold, to stay with whole numbers. */
  predicate WithinLimit(c: Config, admitted: nat, seconds: real) {
    60.0 * admitted as real <= c.ratePerMinute as real * (60.0 + seconds)
  }

  lemma LimitIsBudget(c: Config, admitted: nat, seconds: real)
    ensures WithinLimit(c, admitted, seconds) <==> admitted as real <= c.Capacity() + c.Flow(seconds)
  {
    var r := c.ratePerMinute as real;
    assert c.Flow(seconds) * 60.0 == r * seconds;
    assert r * (60.0 + seconds) == r * 60.0 + r * seconds;
  }

  /** A request is refused exactly when admitting it would let some window that ends with it hold more than the
      limit allows. */
  lemma AdmitsExactly(c: Config, ts: seq<real>, t: real)
    ensures Admits(c, ts, t) <==>
            forall i :: 0 <= i <= |ts| ==>
              WithinLimit(c, AdmittedSince(c, ts, i) + 1, t - (if i < |ts| then ts[i] else t))
  {
    hide WithinLimit, AdmittedSince;
    var best := LevelIsLeastBudget(c, ts, t);
    forall i | 0 <= i <= |ts|
      ensures WithinLimit(c, AdmittedSince(c, ts, i) + 1, t - (if i < |ts| then ts[i] else t)) <==> Budget(c, ts, t, i) >= 1.0
    {
      LimitIsBudget(c, AdmittedSince(c, ts, i) + 1, t - (if i < |ts| then ts[i] else t));
    }
    hide Before, Budget;
  }

  /** Requests admitted at times from `lo` to `hi`. */
  function AdmittedIn(c: Config, ts: seq<real>, lo: real, hi: real): nat {
    if ts == [] then 0
    else
      var n := |ts| - 1;
      AdmittedIn(c, ts[..n], lo, hi)
      + (if lo <= ts[n] <= hi && Admits(c, ts[..n], ts[n]) then 1 else 0)
  }

  lemma {:induction false} NoneBefore(c: Config, ts: seq<real>, lo: real, hi: real)
    requires Sorted(ts) && (ts == [] || ts[|ts| - 1] < lo)
    ensures AdmittedIn(c, ts, lo, hi) == 0
    decreases |ts|
  {
    if |ts| > 1 {
      assert ts[|ts| - 2] <= ts[|ts| - 1];
    }
    if ts == [] {
    } else {
      NoneBefore(c, ts[..|ts| - 1], lo, hi);
    }
  }

  /** What was admitted since `lo`, plus what is left, never exceeds the budget. */
  lemma {:induction false} SpentPlusLeft(c: Config, ts: seq<real>, lo: real, hi: real)
    requires c.ratePerMinute >= 0 && Sorted(ts)
    requires ts != [] && lo <= ts[|ts| - 1] <= hi
    ensures AdmittedIn(c, ts, lo, hi) as real + After(c, ts)
            <= c.Capacity() + c.Flow(ts[|ts| - 1] - lo)
    decreases |ts|
  {
    var n := |ts| - 1;
    var t := ts[n];
    assert Sorted(ts[..n]);
    FlowMono(c, 0.0, t - lo);
    FlowConstants(c);
    if n == 0 {
    } else {
      var u := ts[n - 1];
      assert ts[..n][n - 1] == u;
      if lo <= u {
        SpentPlusLeft(c, ts[..n], lo, hi);
        FlowSum(c, u - lo, t - u);
      } else {
        NoneBefore(c, ts[..n], lo, hi);
      }
    }
  }

  lemma {:induction false} WindowBoundFrom(c: Config, ts: seq<real>, lo: real, hi: real)
    requires c.ratePerMinute > 0 && Sorted(ts) && lo <= hi
    ensures AdmittedIn(c, ts, lo, hi) as real <= c.Capacity() + c.Flow(hi - lo)
    decreases |ts|
  {
    FlowMono(c, 0.0, hi - lo);
    FlowConstants(c);
    if ts == [] {
    } else {
      var n := |ts| - 1;
      var t := ts[n];
      if lo <= t <= hi {
        SpentPlusLeft(c, ts, lo, hi);
        LevelInRange(c, ts);
        FlowMono(c, t - lo, hi - lo);
      } else {
        assert Sorted(ts[..n]);
        WindowBoundFrom(c, ts[..n], lo, hi);
      }
    }
  }

  /** How many of these answers let the IP through at a time from `lo` to `hi`. */
  function LetThrough(replies: seq<Reply>, ip: string, lo: real, hi: real): nat {
    if replies == [] then 0
    else
      var r := replies[|replies| - 1];
      LetThrough(replies[..|replies| - 1], ip, lo, hi) + (if r.ip == ip && r.ok && lo <= r.at <= hi then 1 else 0)
  }

  /** The answers given and the reference bucket agree on how many these are. */
  lemma {:induction false} LetThroughIsAdmitted(c: Config, evs: seq<Event>, ip: string, lo: real, hi: real)
    requires InOrder(evs)
    ensures LetThrough(Replies(c, evs), ip, lo, hi) == AdmittedIn(c, TimesOf(evs, ip), lo, hi)
    decreases |evs|
  {
    if evs == [] {
    } else {
      var before, e := evs[..|evs| - 1], evs[|evs| - 1];
      assert InOrder(before);
      LetThroughIsAdmitted(c, before, ip, lo, hi);
      if e.Request? {
        var rs := Replies(c, before);
        assert Replies(c, evs)[..|rs|] == rs;
        if e.ip == ip {
          var ts := TimesOf(before, ip);
          DecidesLikeIdeal(c, before, ip, e.first, e.at);
          assert (ts + [e.at])[..|ts|] == ts;
        }
      }
    }
  }

  /** Main result: for any IP, any run and any window, no more of the answers given in it let the IP through than
      the limit allows; in a minute, twice the limit per minute. */
  lemma {:induction false} WindowBound(c: Config, evs: seq<Event>, ip: string, lo: real, hi: real)
    requires c.ratePerMinute >= 0 && InOrder(evs) && lo <= hi
    ensures WithinLimit(c, LetThrough(Replies(c, evs), ip, lo, hi), hi - lo)
    ensures hi - lo <= 60.0 ==> LetThrough(Replies(c, evs), ip, lo, hi) <= 2 * c.ratePerMinute
  {
    hide Replies, LetThrough, AdmittedIn;
    LetThroughIsAdmitted(c, evs, ip, lo, hi);
    if evs != [] {
      TimesAreEventTimes(evs, ip, evs[|evs| - 1].at);
    }
    var ts := TimesOf(evs, ip);
    if c.ratePerMinute > 0 {
      WindowBoundFrom(c, ts, lo, hi);
    } else {
      NeverAdmitted(c, ts, lo, hi);
      FlowMono(c, 0.0, hi - lo);
      FlowConstants(c);
    }
    LimitIsBudget(c, LetThrough(Replies(c, evs), ip, lo, hi), hi - lo);
    if hi - lo <= 60.0 {
      WithinAMinute(c, LetThrough(Replies(c, evs), ip, lo, hi), hi - lo);
    }
  }

  lemma WithinAMinute(c: Config, admitted: nat, seconds: real)
    requires c.ratePerMinute >= 0 && seconds <= 60.0 && WithinLimit(c, admitted, seconds)
    ensures admitted <= 2 * c.ratePerMinute
  {
    var r := c.ratePerMinute as real;
    TwoLimits(r, 60.0 + seconds, admitted as real, r * (60.0 + seconds));
    hide WithinLimit;
    NotMoreThan(admitted, 2 * c.ratePerMinute);
  }

  lemma TwoLimits(r: real, s: real, n: real, most: real)
    requires r >= 0.0 && s <= 120.0 && most == r * s && 60.0 * n <= most
    ensures n <= 2.0 * r
  {
    MulMono(r, s, 120.0);
  }

  lemma NotMoreThan(a: int, b: int)
    requires a as real <= b as real
    ensures a <= b
  {
  }

  /** The same moment, `n` times. */
  function At(t: real, n: nat): (ts: seq<real>)
    ensures |ts| == n && forall i :: 0 <= i < n ==> ts[i] == t
  {
    seq(n, _ => t)
  }

  /** From a full bucket the limit is admitted at once, and not one more. */
  lemma {:induction false} BurstExactly(c: Config, ts: seq<real>, t: real, n: nat)
    requires c.ratePerMinute >= 0 && Before(c, ts, t) == c.Capacity()
    ensures Before(c, ts + At(t, n), t) == if n <= c.ratePerMinute then (c.ratePerMinute - n) as real else 0.0
    ensures Admits(c, ts + At(t, n), t) <==> n < c.ratePerMinute
    decreases n
  {
    FlowConstants(c);
    if n == 0 {
      assert ts + At(t, 0) == ts;
    } else {
      BurstExactly(c, ts, t, n - 1);
      var all := ts + At(t, n);
      assert all[..|all| - 1] == ts + At(t, n - 1) && all[|all| - 1] == t;
      hide Before;
      BurstStep(c, all, t);
    }
  }

  lemma BurstStep(c: Config, all: seq<real>, t: real)
    requires all != [] && all[|all| - 1] == t
    ensures var x := Before(c, all[..|all| - 1], t);
            Before(c, all, t) == Min(c.Capacity(), if x < 1.0 then x else x - 1.0)
  {
    FlowConstants(c);
  }

  lemma {:induction false} BurstIsAdmitted(c: Config, ts: seq<real>, t: real, n: nat, lo: real, hi: real)
    requires c.ratePerMinute >= 0 && Before(c, ts, t) == c.Capacity() && n <= c.ratePerMinute && lo <= t <= hi
    ensures AdmittedIn(c, ts + At(t, n), lo, hi) == AdmittedIn(c, ts, lo, hi) + n
    decreases n
  {
    hide Before;
    if n == 0 {
      assert ts + At(t, 0) == ts;
    } else {
      BurstIsAdmitted(c, ts, t, n - 1, lo, hi);
      BurstExactly(c, ts, t, n - 1);
      var all := ts + At(t, n);
      assert all[..|all| - 1] == ts + At(t, n - 1) && all[|all| - 1] == t;
    }
  }

  function RequestsAt(ip: string, ts: seq<real>): (evs: seq<Event>)
    ensures |evs| == |ts| && forall i :: 0 <= i < |ts| ==> evs[i] == Request(ip, ts[i], ts[i])
  {
    seq(|ts|, i requires 0 <= i < |ts| => Request(ip, ts[i], ts[i]))
  }

  lemma {:induction false} TimesOfRequests(ip: string, ts: seq<real>)
    ensures TimesOf(RequestsAt(ip, ts), ip) == ts
    decreases |ts|
  {
    if ts == [] {
    } else {
      var n := |ts| - 1;
      TimesOfRequests(ip, ts[..n]);
      assert RequestsAt(ip, ts)[..n] == RequestsAt(ip, ts[..n]);
      assert ts[..n] + [ts[n]] == ts;
    }
  }

  /** The limit per minute is not what a minute lets through at most: a limit's worth of requests at its beginning
      and as many at its end all pass. */
  lemma TwiceInAMinute(c: Config, ip: string)
    requires c.ratePerMinute >= 0
    ensures var ts := At(0.0, c.ratePerMinute) + At(60.0, c.ratePerMinute);
            LetThrough(Replies(c, RequestsAt(ip, ts)), ip, 0.0, 60.0) == 2 * c.ratePerMinute
  {
    var r := c.ratePerMinute;
    var first := At(0.0, r);
    var ts := first + At(60.0, r);
    BothBursts(c);
    hide Replies, LetThrough, AdmittedIn, TimesOf;
    TimesOfRequests(ip, ts);
    assert InOrder(RequestsAt(ip, ts));
    LetThroughIsAdmitted(c, RequestsAt(ip, ts), ip, 0.0, 60.0);
  }

  lemma BothBursts(c: Config)
    requires c.ratePerMinute >= 0
    ensures AdmittedIn(c, At(0.0, c.ratePerMinute) + At(60.0, c.ratePerMinute), 0.0, 60.0) == 2 * c.ratePerMinute
  {
    hide AdmittedIn, Before;
    var r := c.ratePerMinute;
    var first := At(0.0, r);
    FirstBurst(c);
    NoRequests(c);
    BurstIsAdmitted(c, [], 0.0, r, 0.0, 60.0);
    assert [] + first == first;
    BurstIsAdmitted(c, first, 60.0, r, 0.0, 60.0);
  }

  lemma NoRequests(c: Config)
    ensures AdmittedIn(c, [], 0.0, 60.0) == 0
  {
  }

  /** A minute after the first burst the bucket is full again. */
  lemma FirstBurst(c: Config)
    requires c.ratePerMinute >= 0
    ensures Before(c, [], 0.0) == c.Capacity()
    ensures Before(c, At(0.0, c.ratePerMinute), 60.0) == c.Capacity()
  {
    var first := At(0.0, c.ratePerMinute);
    BurstExactly(c, [], 0.0, c.ratePerMinute);
    assert [] + first == first;
    assert c.Flow(60.0) == c.Capacity();
    if first != [] {
      LastOfBurst(c, first);
    }
  }

  lemma LastOfBurst(c: Config, first: seq<real>)
    requires first != [] && first[|first| - 1] == 0.0 && Before(c, first, 0.0) == 0.0 && c.Flow(60.0) == c.Capacity()
    requires c.ratePerMinute > 0
    ensures Before(c, first, 60.0) == c.Capacity()
  {
    FlowConstants(c);
    assert Min(c.Capacity(), After(c, first)) == 0.0;
  }

  lemma {:induction false} NeverAdmitted(c: Config, ts: seq<real>, lo: real, hi: real)
    requires c.ratePerMinute <= 0
    ensures AdmittedIn(c, ts, lo, hi) == 0
    decreases |ts|
  {
    if ts == [] {
    } else {
      NeverAdmitted(c, ts[..|ts| - 1], lo, hi);
      NothingAdmitted(c, map[], "", ts[..|ts| - 1], 0.0, ts[|ts| - 1]);
    }
  }

  lemma EnoughTime(c: Config, seconds: real)
    requires c.ratePerMinute as real * seconds >= 60.0
    ensures c.Flow(seconds) >= 1.0
  {
    var r := c.ratePerMinute as real;
    assert c.Flow(seconds) * 60.0 == r * seconds;
  }

  /** A client that leaves at least a minute divided by the limit between two requests is not refused the second,
      whatever the rest of the world did before and whatever was collected. */
  lemma {:induction false} PacedNeverRefused(c: Config, evs: seq<Event>, ip: string, first: real, t: real)
    requires c.ratePerMinute >= 1 && InOrder(evs) && first <= t
    requires evs == [] || evs[|evs| - 1].at <= t
    requires var ts := TimesOf(evs, ip); ts == [] || c.ratePerMinute as real * (t - ts[|ts| - 1]) >= 60.0
    ensures Allowed(c, BucketsAfter(c, evs), ip, first, t)
  {
    hide BucketsAfter, Allowed, TimesOf;
    DecidesLikeIdeal(c, evs, ip, first, t);
    TimesAreEventTimes(evs, ip, t);
    var ts := TimesOf(evs, ip);
    if ts == [] {
    } else {
      LevelInRange(c, ts);
      EnoughTime(c, t - ts[|ts| - 1]);
    }
  }

  /** The buckets the limiter holds are never overdrawn and never overfull. */
  lemma TokensInRange(c: Config, evs: seq<Event>, ip: string)
    requires c.ratePerMinute > 0 && InOrder(evs)
    requires ip in BucketsAfter(c, evs)
    ensures 0.0 <= BucketsAfter(c, evs)[ip].tokens <= c.Capacity()
  {
    var now := evs[|evs| - 1].at;
    TracksAfter(c, evs, ip, now);
    TimesAreEventTimes(evs, ip, now);
    LevelInRange(c, TimesOf(evs, ip));
  }
}
