/**
The token-bucket limiter (internal/middleware/rate_limiter.go). Calls are taken in the order in
which they get the lock; their clock readings were taken before and need not be in that order.
*/
module Limiter {
  import opened Wrappers

  datatype Bucket = Bucket(tokens: real, lastRefill: real)

  datatype Config = Config(rate: real, capacity: real)

  datatype Call = Call(key: string, now: real)

  function Min(a: real, b: real): real { if a < b then a else b }

  function Get(buckets: map<string, Bucket>, key: string): Option<Bucket> {
    if key in buckets then Some(buckets[key]) else None
  }

  /** The tokens that accrue in a time span, negative when the clock went back. */
  function Gain(cfg: Config, span: real): real { span * cfg.rate }

  lemma GainAdds(cfg: Config, a: real, b: real)
    ensures Gain(cfg, a) + Gain(cfg, b) == Gain(cfg, a + b) && Gain(cfg, 0.0) == 0.0
  {
  }

  /** The level after the refill; a key without a bucket starts full. */
  function Level(cfg: Config, b: Option<Bucket>, now: real): real {
    var was := if b.None? then Bucket(cfg.capacity, now) else b.value;
    Min(cfg.capacity, was.tokens + Gain(cfg, now - was.lastRefill))
  }

  /** The bucket after a call that was or was not admitted. */
  function Next(cfg: Config, b: Option<Bucket>, now: real, admitted: bool): Bucket {
    Bucket(Level(cfg, b, now) - (if admitted then 1.0 else 0.0), now)
  }

  predicate Admits(cfg: Config, b: Option<Bucket>, now: real) { Level(cfg, b, now) >= 1.0 }

  /** `RateLimitWith` clamps its parameters to a positive rate and a capacity of at least one. */
  predicate Usable(cfg: Config) { cfg.rate > 0.0 && cfg.capacity >= 1.0 }

  function Configure(rpm: int, burst: int): (cfg: Config)
    ensures Usable(cfg)
    ensures rpm > 0 ==> cfg.rate * 60.0 == rpm as real
    ensures burst > 0 ==> cfg.capacity == burst as real
    ensures rpm <= 0 ==> cfg.rate == 0.000001
    ensures burst <= 0 ==> cfg.capacity == 1.0
  {
    var rps := rpm as real / 60.0;
    Config(if rps <= 0.0 then 0.000001 else rps, (if burst <= 0 then 1 else burst) as real)
  }

  /** The buckets after a sequence of calls. */
  function After(cfg: Config, calls: seq<Call>): map<string, Bucket> {
    if calls == [] then map[]
    else
      var before, call := After(cfg, calls[..|calls| - 1]), calls[|calls| - 1];
      before[call.key := Next(cfg, Get(before, call.key), call.now, Admits(cfg, Get(before, call.key), call.now))]
  }

  /** Call `i` of the run is admitted. */
  predicate Admitted(cfg: Config, calls: seq<Call>, i: nat)
    requires i < |calls|
  {
    Admits(cfg, Get(After(cfg, calls[..i]), calls[i].key), calls[i].now)
  }

  /** The number of admitted calls for a key from call `i` up to, not including, call `n`. */
  function Count(cfg: Config, calls: seq<Call>, key: string, i: nat, n: nat): nat
    requires i <= n <= |calls|
  {
    if n == i then 0
    else Count(cfg, calls, key, i, n - 1) + (if calls[n - 1].key == key && Admitted(cfg, calls, n - 1) then 1 else 0)
  }

  class Limiter {
    const cfg: Config
    var buckets: map<string, Bucket>
    /** The calls so far, in the order in which they got the lock. */
    ghost var history: seq<Call>

    ghost predicate Valid()
      reads this
    {
      buckets == After(cfg, history)
    }

    constructor (cfg: Config)
      ensures Valid() && this.cfg == cfg && history == []
    {
      this.cfg, buckets, history := cfg, map[], [];
    }

    method Allow(key: string, now: real) returns (ok: bool)
      requires Valid()
      modifies this
      ensures Valid() && history == old(history) + [Call(key, now)]
      ensures ok <==> Admitted(cfg, history, |old(history)|)
      ensures buckets == old(buckets)[key := Next(cfg, Get(old(buckets), key), now, ok)]
    {
      if key !in buckets {
        buckets := buckets[key := Bucket(cfg.capacity, now)];
      }
      var b := buckets[key];
      var elapsed := now - b.lastRefill;
      b := Bucket(Min(cfg.capacity, b.tokens + Gain(cfg, elapsed)), now);
      ok := b.tokens >= 1.0;
      if ok {
        b := b.(tokens := b.tokens - 1.0);
      }
      buckets := buckets[key := b];
      history := history + [Call(key, now)];
      assert history[..|old(history)|] == old(history);
    }
  }

  lemma AfterOneMore(cfg: Config, calls: seq<Call>, n: nat)
    requires n < |calls|
    ensures var before := After(cfg, calls[..n]);
            After(cfg, calls[..n + 1])
            == before[calls[n].key := Next(cfg, Get(before, calls[n].key), calls[n].now, Admitted(cfg, calls, n))]
  {
    assert calls[..n + 1][..n] == calls[..n];
  }

  lemma GetAfter(cfg: Config, calls: seq<Call>, key: string)
    ensures Get(After(cfg, calls), key) == if key in After(cfg, calls) then Some(After(cfg, calls)[key]) else None
  {
  }

  // ---------- Window bound ----------

  lemma {:induction false} SpentSince(cfg: Config, calls: seq<Call>, key: string, i: nat, n: nat)
    requires Usable(cfg) && i < n <= |calls| && calls[i].key == key
    ensures key in After(cfg, calls[..n])
    ensures var b := After(cfg, calls[..n])[key];
            b.tokens + Count(cfg, calls, key, i, n) as real <= cfg.capacity + Gain(cfg, b.lastRefill - calls[i].now)
    decreases n
  {
    hide Gain, Get, After;
    AfterOneMore(cfg, calls, n - 1);
    GetAfter(cfg, calls[..n - 1], key);
    if n == i + 1 {
      assert Count(cfg, calls, key, i, i) == 0;
      GainAdds(cfg, 0.0, 0.0);
    } else {
      SpentSince(cfg, calls, key, i, n - 1);
      var b, now := After(cfg, calls[..n - 1])[key], calls[n - 1].now;
      GainAdds(cfg, now - b.lastRefill, b.lastRefill - calls[i].now);
    }
  }

  /**
  Window bound: from call `i` to a later admitted call `j` for the same key, both counted, at most
  capacity + rate * (time of j - time of i) calls for that key are admitted, whatever the clock
  readings of the calls are.
  */
  lemma WindowBound(cfg: Config, calls: seq<Call>, key: string, i: nat, j: nat)
    requires Usable(cfg) && i < j < |calls| && calls[i].key == key && calls[j].key == key && Admitted(cfg, calls, j)
    ensures Count(cfg, calls, key, i, j + 1) as real <= cfg.capacity + (calls[j].now - calls[i].now) * cfg.rate
  {
    assert Gain(cfg, calls[j].now - calls[i].now) == (calls[j].now - calls[i].now) * cfg.rate;
    WindowGain(cfg, calls, key, i, j);
  }

  lemma WindowGain(cfg: Config, calls: seq<Call>, key: string, i: nat, j: nat)
    requires Usable(cfg) && i < j < |calls| && calls[i].key == key && calls[j].key == key && Admitted(cfg, calls, j)
    ensures Count(cfg, calls, key, i, j + 1) as real <= cfg.capacity + Gain(cfg, calls[j].now - calls[i].now)
    ensures Count(cfg, calls, key, i, j + 1) == Count(cfg, calls, key, i, j) + 1
  {
    hide Gain, Get, After;
    GetAfter(cfg, calls[..j], key);
    SpentSince(cfg, calls, key, i, j + 1);
    AfterOneMore(cfg, calls, j);
  }

  /** A bucket holds what is left of a full one since some call for its key: the last that found it full. */
  lemma {:induction false} FullAtSomeCall(cfg: Config, calls: seq<Call>, key: string, n: nat) returns (i: nat)
    requires Usable(cfg) && n <= |calls| && key in After(cfg, calls[..n])
    ensures i < n && calls[i].key == key
    ensures var b := After(cfg, calls[..n])[key];
            b.tokens + Count(cfg, calls, key, i, n) as real == cfg.capacity + Gain(cfg, b.lastRefill - calls[i].now)
    decreases n
  {
    hide Gain, Get, After;
    if n == 0 {
      assert After(cfg, calls[..0]) == map[] by { NoBuckets(cfg); }
      assert false;
    }
    AfterOneMore(cfg, calls, n - 1);
    GetAfter(cfg, calls[..n - 1], key);
    GainAdds(cfg, 0.0, 0.0);
    var before, now := Get(After(cfg, calls[..n - 1]), key), calls[n - 1].now;
    if calls[n - 1].key != key {
      i := FullAtSomeCall(cfg, calls, key, n - 1);
    } else if before.None? || Level(cfg, before, now) == cfg.capacity {
      i := n - 1;
      assert Count(cfg, calls, key, i, i) == 0;
    } else {
      i := FullAtSomeCall(cfg, calls, key, n - 1);
      GainAdds(cfg, now - before.value.lastRefill, before.value.lastRefill - calls[i].now);
    }
  }

  lemma NoBuckets(cfg: Config)
    ensures After(cfg, []) == map[]
  {
  }

  /** Since call `i` more calls have been admitted than a bucket that was full then can have left a token for. */
  ghost predicate UsedUpSince(cfg: Config, calls: seq<Call>, i: nat, j: nat)
    requires i < j < |calls|
  {
    && calls[i].key == calls[j].key
    && Count(cfg, calls, calls[j].key, i, j) as real > cfg.capacity - 1.0 + (calls[j].now - calls[i].now) * cfg.rate
  }

  lemma UsedUpGain(cfg: Config, calls: seq<Call>, i: nat, j: nat)
    requires i < j < |calls| && calls[i].key == calls[j].key
    ensures UsedUpSince(cfg, calls, i, j) <==>
              Count(cfg, calls, calls[j].key, i, j) as real
              > cfg.capacity - 1.0 + Gain(cfg, calls[j].now - calls[i].now)
  {
    hide Count;
  }

  lemma RejectedWhenUsedUp(cfg: Config, calls: seq<Call>, i: nat, j: nat)
    requires Usable(cfg) && i < j < |calls| && UsedUpSince(cfg, calls, i, j)
    ensures !Admitted(cfg, calls, j)
  {
    hide Admitted, UsedUpSince, Count, Gain;
    UsedUpOnlySince(cfg, calls, i, j);
    UsedUpGain(cfg, calls, i, j);
    if Admitted(cfg, calls, j) {
      WindowGain(cfg, calls, calls[j].key, i, j);
    }
  }

  lemma UsedUpWhenRejected(cfg: Config, calls: seq<Call>, j: nat) returns (i: nat)
    requires Usable(cfg) && j < |calls| && !Admitted(cfg, calls, j)
    ensures i < j && UsedUpSince(cfg, calls, i, j)
  {
    hide Gain, UsedUpSince, After, Count;
    var key, now := calls[j].key, calls[j].now;
    GainAdds(cfg, 0.0, 0.0);
    i := FullAtSomeCall(cfg, calls, key, j);
    var b := After(cfg, calls[..j])[key];
    GainAdds(cfg, now - b.lastRefill, b.lastRefill - calls[i].now);
    UsedUpGain(cfg, calls, i, j);
  }

  /**
  Exactly which calls are rejected, on any clock: those with an earlier call for the same key from
  which on more than capacity - 1 + rate * (time in between) calls for the key have been admitted.
  */
  lemma RejectedExactly(cfg: Config, calls: seq<Call>, j: nat)
    requires Usable(cfg) && j < |calls|
    ensures !Admitted(cfg, calls, j) <==> exists i: nat :: i < j && UsedUpSince(cfg, calls, i, j)
  {
    hide Admitted, UsedUpSince;
    if !Admitted(cfg, calls, j) {
      var i := UsedUpWhenRejected(cfg, calls, j);
    } else if i: nat :| i < j && UsedUpSince(cfg, calls, i, j) {
      RejectedWhenUsedUp(cfg, calls, i, j);
    }
  }

  lemma {:induction false} CountSplits(cfg: Config, calls: seq<Call>, key: string, i: nat, k: nat, n: nat)
    requires i <= k <= n <= |calls|
    ensures Count(cfg, calls, key, i, n) == Count(cfg, calls, key, i, k) + Count(cfg, calls, key, k, n)
  {
    hide Admitted;
    if n > k {
      CountSplits(cfg, calls, key, i, k, n - 1);
    }
  }

  /** On a clock that does not go back, a burst of capacity calls in all is always admitted. */
  lemma BurstIsAdmitted(cfg: Config, calls: seq<Call>, j: nat)
    requires Usable(cfg) && j < |calls|
    requires forall i :: 0 <= i < j && calls[i].key == calls[j].key ==> calls[i].now <= calls[j].now
    requires Count(cfg, calls, calls[j].key, 0, j) as real + 1.0 <= cfg.capacity
    ensures Admitted(cfg, calls, j)
  {
    hide Admitted, UsedUpSince, Count, Gain;
    RejectedExactly(cfg, calls, j);
    if i: nat :| i < j && UsedUpSince(cfg, calls, i, j) {
      UsedUpOnlySince(cfg, calls, i, j);
      UsedUpGain(cfg, calls, i, j);
      CountSplits(cfg, calls, calls[j].key, 0, i, j);
      GainIsMonotone(cfg, calls[j].now - calls[i].now);
    }
  }

  lemma UsedUpOnlySince(cfg: Config, calls: seq<Call>, i: nat, j: nat)
    requires i < j < |calls| && UsedUpSince(cfg, calls, i, j)
    ensures calls[i].key == calls[j].key
  {
  }

  lemma GainIsMonotone(cfg: Config, span: real)
    requires Usable(cfg) && span >= 0.0
    ensures Gain(cfg, span) >= 0.0
  {
  }

  // ---------- Greedy optimality ----------

  /** A schedule's own bucket after the first `n` calls, at times `times`, with its decisions. */
  function Scheduled(cfg: Config, times: seq<real>, decisions: seq<bool>, n: nat): Option<Bucket>
    requires n <= |times| == |decisions|
  {
    if n == 0 then None
    else Some(Next(cfg, Scheduled(cfg, times, decisions, n - 1), times[n - 1], decisions[n - 1]))
  }

  /** The schedule only admits when its own level is at least one. */
  predicate Affordable(cfg: Config, times: seq<real>, decisions: seq<bool>)
    requires |times| == |decisions|
  {
    forall k :: 0 <= k < |times| && decisions[k] ==> Admits(cfg, Scheduled(cfg, times, decisions, k), times[k])
  }

  function CountTrue(decisions: seq<bool>, n: nat): nat
    requires n <= |decisions|
  {
    if n == 0 then 0 else CountTrue(decisions, n - 1) + (if decisions[n - 1] then 1 else 0)
  }

  /** What `allow` decides on a sequence of calls for one key. */
  predicate IsGreedy(cfg: Config, times: seq<real>, decisions: seq<bool>)
    requires |times| == |decisions|
  {
    forall k :: 0 <= k < |times| ==> (decisions[k] <==> Admits(cfg, Scheduled(cfg, times, decisions, k), times[k]))
  }

  lemma {:induction false} GreedyLeads(cfg: Config, times: seq<real>, greedy: seq<bool>, other: seq<bool>, n: nat)
    requires n <= |times| == |greedy| == |other|
    requires IsGreedy(cfg, times, greedy) && Affordable(cfg, times, other)
    ensures var lead := CountTrue(greedy, n) - CountTrue(other, n);
            && lead >= 0
            && forall now :: Level(cfg, Scheduled(cfg, times, other, n), now)
                             <= Level(cfg, Scheduled(cfg, times, greedy, n), now) + lead as real
  {
    hide Gain, Level, Next, Admits;
    if n > 0 {
      GreedyLeads(cfg, times, greedy, other, n - 1);
      var lead := CountTrue(greedy, n - 1) - CountTrue(other, n - 1);
      var g, o := Scheduled(cfg, times, greedy, n - 1), Scheduled(cfg, times, other, n - 1);
      LeadStep(cfg, g, o, lead, times[n - 1], greedy[n - 1], other[n - 1]);
    }
  }

  /** One call: the greedy bucket gives up a token of level only for a lead of one admission. */
  lemma LeadStep(cfg: Config, g: Option<Bucket>, o: Option<Bucket>, lead: nat, now: real, admitted: bool, chosen: bool)
    requires forall later :: Level(cfg, o, later) <= Level(cfg, g, later) + lead as real
    requires admitted <==> Admits(cfg, g, now)
    requires chosen ==> Admits(cfg, o, now)
    ensures var lead' := lead + (if admitted then 1 else 0) - (if chosen then 1 else 0);
            && lead' >= 0
            && forall later :: Level(cfg, Some(Next(cfg, o, now, chosen)), later)
                               <= Level(cfg, Some(Next(cfg, g, now, admitted)), later) + lead' as real
  {
    hide Gain;
    assert Level(cfg, o, now) <= Level(cfg, g, now) + lead as real;
  }

  /** No affordable schedule has admitted more calls than `allow` in any prefix. */
  lemma {:induction false} GreedyIsOptimal(cfg: Config, times: seq<real>, greedy: seq<bool>, other: seq<bool>, n: nat)
    requires n <= |times| == |greedy| == |other|
    requires IsGreedy(cfg, times, greedy) && Affordable(cfg, times, other)
    ensures CountTrue(other, n) <= CountTrue(greedy, n)
  {
    GreedyLeads(cfg, times, greedy, other, n);
  }

  // What a run of calls for any keys means to one key.

  /** The clock readings of the calls for a key. */
  function TimesOf(calls: seq<Call>, key: string): seq<real> {
    if calls == [] then []
    else
      var n := |calls| - 1;
      TimesOf(calls[..n], key) + (if calls[n].key == key then [calls[n].now] else [])
  }

  /** What `allow` decides on the calls for a key, in order. */
  function DecisionsOf(cfg: Config, calls: seq<Call>, key: string): (decisions: seq<bool>)
    ensures |decisions| == |TimesOf(calls, key)|
  {
    if calls == [] then []
    else
      var n := |calls| - 1;
      DecisionsOf(cfg, calls[..n], key) + (if calls[n].key == key then [Admitted(cfg, calls, n)] else [])
  }

  /** A longer sequence of calls at later times does not change what was scheduled before. */
  lemma {:induction false} ScheduledBefore(
    cfg: Config, times: seq<real>, decisions: seq<bool>, moreTimes: seq<real>, more: seq<bool>, n: nat)
    requires n <= |times| == |decisions| && |moreTimes| == |more|
    ensures Scheduled(cfg, times + moreTimes, decisions + more, n) == Scheduled(cfg, times, decisions, n)
  {
    hide Next;
    if n > 0 {
      ScheduledBefore(cfg, times, decisions, moreTimes, more, n - 1);
    }
  }

  /** On every run the limiter's decisions on the calls for a key are that key's greedy schedule. */
  lemma {:induction false} AllowIsGreedy(cfg: Config, calls: seq<Call>, key: string)
    ensures var times, decisions := TimesOf(calls, key), DecisionsOf(cfg, calls, key);
            && Get(After(cfg, calls), key) == Scheduled(cfg, times, decisions, |times|)
            && IsGreedy(cfg, times, decisions)
    decreases |calls|
  {
    hide Next, Admits, Scheduled, IsGreedy;
    if calls == [] {
      NothingScheduled(cfg);
    } else {
      var n := |calls| - 1;
      AllowIsGreedy(cfg, calls[..n], key);
      if calls[n].key == key {
        GreedyOneMore(
          cfg, TimesOf(calls[..n], key), DecisionsOf(cfg, calls[..n], key), calls[n].now, Admitted(cfg, calls, n));
      } else {
        assert TimesOf(calls, key) == TimesOf(calls[..n], key);
        assert DecisionsOf(cfg, calls, key) == DecisionsOf(cfg, calls[..n], key);
      }
    }
  }

  lemma NothingScheduled(cfg: Config)
    ensures Scheduled(cfg, [], [], 0) == None && IsGreedy(cfg, [], [])
  {
  }

  lemma GreedyOneMore(cfg: Config, times: seq<real>, decisions: seq<bool>, now: real, admitted: bool)
    requires |times| == |decisions| && IsGreedy(cfg, times, decisions)
    requires admitted <==> Admits(cfg, Scheduled(cfg, times, decisions, |times|), now)
    ensures IsGreedy(cfg, times + [now], decisions + [admitted])
    ensures Scheduled(cfg, times + [now], decisions + [admitted], |times| + 1)
            == Some(Next(cfg, Scheduled(cfg, times, decisions, |times|), now, admitted))
  {
    hide Next, Admits;
    forall k | 0 <= k <= |times|
      ensures Scheduled(cfg, times + [now], decisions + [admitted], k) == Scheduled(cfg, times, decisions, k)
    {
      ScheduledBefore(cfg, times, decisions, [now], [admitted], k);
    }
  }

  /** The first calls of a run are the first calls of each key, with the same decisions. */
  lemma {:induction false} FirstCalls(cfg: Config, calls: seq<Call>, key: string, n: nat)
    requires n <= |calls|
    ensures TimesOf(calls[..n], key) <= TimesOf(calls, key)
    ensures DecisionsOf(cfg, calls[..n], key) <= DecisionsOf(cfg, calls, key)
    decreases |calls|
  {
    hide Admitted;
    if n == |calls| {
      assert calls[..n] == calls;
    } else {
      var last := |calls| - 1;
      FirstCalls(cfg, calls[..last], key, n);
      assert calls[..last][..n] == calls[..n];
    }
  }

  lemma {:induction false} CountTruePrefix(a: seq<bool>, b: seq<bool>, n: nat)
    requires n <= |a| <= |b| && a <= b
    ensures CountTrue(a, n) == CountTrue(b, n)
  {
    if n > 0 {
      CountTruePrefix(a, b, n - 1);
    }
  }

  lemma {:induction false} CountOfDecisions(cfg: Config, calls: seq<Call>, key: string, n: nat)
    requires n <= |calls|
    ensures var decisions := DecisionsOf(cfg, calls[..n], key);
            CountTrue(decisions, |decisions|) == Count(cfg, calls, key, 0, n)
  {
    hide Admits, After;
    if n > 0 {
      CountOfDecisions(cfg, calls, key, n - 1);
      var before, all := calls[..n - 1], calls[..n];
      assert all[..n - 1] == before && all[n - 1] == calls[n - 1];
      assert Admitted(cfg, all, n - 1) <==> Admitted(cfg, calls, n - 1);
      var decisions := DecisionsOf(cfg, before, key);
      CountTruePrefix(decisions, DecisionsOf(cfg, all, key), |decisions|);
    }
  }

  /**
  Greedy optimality on any run of calls for any keys: however a schedule that stays within its own
  bucket decides on the calls for a key, after each call of the run it has admitted no more of them
  than the limiter.
  */
  lemma LimiterIsOptimal(cfg: Config, calls: seq<Call>, key: string, other: seq<bool>, n: nat)
    requires |other| == |TimesOf(calls, key)| && Affordable(cfg, TimesOf(calls, key), other)
    requires n <= |calls|
    ensures |TimesOf(calls[..n], key)| <= |other|
    ensures CountTrue(other, |TimesOf(calls[..n], key)|) <= Count(cfg, calls, key, 0, n)
  {
    hide IsGreedy, Affordable;
    var m := |TimesOf(calls[..n], key)|;
    AllowIsGreedy(cfg, calls, key);
    FirstCalls(cfg, calls, key, n);
    GreedyIsOptimal(cfg, TimesOf(calls, key), DecisionsOf(cfg, calls, key), other, m);
    CountTruePrefix(DecisionsOf(cfg, calls[..n], key), DecisionsOf(cfg, calls, key), m);
    CountOfDecisions(cfg, calls, key, n);
  }

  // ---------- Rejected calls are free, keys are independent ----------

  /** The calls that are kept. */
  function Erase(calls: seq<Call>, keep: seq<bool>): seq<Call>
    requires |calls| == |keep|
  {
    if calls == [] then []
    else Erase(calls[..|calls| - 1], keep[..|keep| - 1]) + (if keep[|keep| - 1] then [calls[|calls| - 1]] else [])
  }

  /** The decisions of a run on the kept calls for a key, in order. */
  function KeptDecisions(cfg: Config, calls: seq<Call>, keep: seq<bool>, key: string): seq<bool>
    requires |calls| == |keep|
    decreases |calls|
  {
    if calls == [] then []
    else
      var n := |calls| - 1;
      KeptDecisions(cfg, calls[..n], keep[..n], key)
      + (if keep[n] && calls[n].key == key then [Admits(cfg, Get(After(cfg, calls[..n]), key), calls[n].now)] else [])
  }

  /** Both buckets refill to the same level at every time. */
  ghost predicate Alike(cfg: Config, a: Option<Bucket>, b: Option<Bucket>) {
    forall now :: Level(cfg, a, now) == Level(cfg, b, now)
  }

  /** A rejected call moves a bucket along its own refill line. */
  lemma RejectedCallIsFree(cfg: Config, b: Option<Bucket>, now: real)
    requires Usable(cfg) && !Admits(cfg, b, now)
    ensures Alike(cfg, Some(Next(cfg, b, now, false)), b)
  {
    hide Gain;
    GainAdds(cfg, 0.0, 0.0);
    var was := if b.None? then Bucket(cfg.capacity, now) else b.value;
    forall later ensures Level(cfg, Some(Next(cfg, b, now, false)), later) == Level(cfg, b, later) {
      GainAdds(cfg, now - was.lastRefill, later - now);
    }
  }

  lemma AlikeDecideAlike(cfg: Config, a: Option<Bucket>, b: Option<Bucket>, now: real)
    requires Alike(cfg, a, b)
    ensures Admits(cfg, a, now) <==> Admits(cfg, b, now)
    ensures Next(cfg, a, now, Admits(cfg, a, now)) == Next(cfg, b, now, Admits(cfg, b, now))
  {
  }

  lemma EarlierDecisions(cfg: Config, calls: seq<Call>, keep: seq<bool>, key: string, n: nat)
    requires n < |calls| == |keep|
    requires forall i :: 0 <= i < |calls| && calls[i].key == key && !keep[i] ==> !Admitted(cfg, calls, i)
    ensures forall i :: 0 <= i < n && calls[..n][i].key == key && !keep[..n][i] ==> !Admitted(cfg, calls[..n], i)
  {
    hide Admits;
    forall i | 0 <= i < n ensures Admitted(cfg, calls[..n], i) <==> Admitted(cfg, calls, i) {
      assert calls[..n][..i] == calls[..i];
    }
  }

  /** Erasing such calls leaves a bucket that refills alike. */
  lemma {:induction false} ErasingKeepsAlike(cfg: Config, calls: seq<Call>, keep: seq<bool>, key: string)
    requires Usable(cfg) && |calls| == |keep|
    requires forall i :: 0 <= i < |calls| && calls[i].key == key && !keep[i] ==> !Admitted(cfg, calls, i)
    ensures Alike(cfg, Get(After(cfg, Erase(calls, keep)), key), Get(After(cfg, calls), key))
    decreases |calls|
  {
    hide Next, Admits;
    if calls != [] {
      var n := |calls| - 1;
      var before, call, kept := calls[..n], calls[n], Erase(calls[..n], keep[..n]);
      EarlierDecisions(cfg, calls, keep, key, n);
      ErasingKeepsAlike(cfg, before, keep[..n], key);
      var a, b := Get(After(cfg, kept), key), Get(After(cfg, before), key);
      hide Alike;
      if keep[n] {
        assert Erase(calls, keep)[..|kept|] == kept;
        if call.key == key {
          AlikeDecideAlike(cfg, a, b, call.now);
          AlikeToItself(cfg, Some(Next(cfg, a, call.now, Admits(cfg, a, call.now))));
        }
      } else {
        assert Erase(calls, keep) == kept;
        if call.key == key {
          RejectedCallIsFree(cfg, b, call.now);
          AlikeTransitive(cfg, a, b, Some(Next(cfg, b, call.now, false)));
        }
      }
    } else {
      AlikeToItself(cfg, None);
    }
  }

  lemma AlikeToItself(cfg: Config, a: Option<Bucket>)
    ensures Alike(cfg, a, a)
  {
  }

  lemma AlikeTransitive(cfg: Config, a: Option<Bucket>, b: Option<Bucket>, c: Option<Bucket>)
    requires Alike(cfg, a, b) && Alike(cfg, c, b)
    ensures Alike(cfg, a, c)
  {
    hide Level;
  }

  /**
  Erasing rejected calls of a key, and any calls of other keys, changes no decision on the calls
  of the key that remain.
  */
  lemma {:induction false} ErasingIsInvisible(cfg: Config, calls: seq<Call>, keep: seq<bool>, key: string)
    requires Usable(cfg) && |calls| == |keep|
    requires forall i :: 0 <= i < |calls| && calls[i].key == key && !keep[i] ==> !Admitted(cfg, calls, i)
    ensures DecisionsOf(cfg, Erase(calls, keep), key) == KeptDecisions(cfg, calls, keep, key)
    decreases |calls|
  {
    hide Level, After, Next;
    if calls != [] {
      var n := |calls| - 1;
      var before, kept, kept' := calls[..n], Erase(calls[..n], keep[..n]), Erase(calls, keep);
      EarlierDecisions(cfg, calls, keep, key, n);
      ErasingIsInvisible(cfg, before, keep[..n], key);
      ErasingKeepsAlike(cfg, before, keep[..n], key);
      if keep[n] {
        assert kept'[..|kept|] == kept;
      } else {
        assert kept' == kept;
      }
    }
  }

  // ---------- Spacing ----------

  /** After an admitted call a bucket refills at least as one that was empty at that time. */
  lemma RefillsFromAdmitted(cfg: Config, b: Option<Bucket>, t: real)
    requires Admits(cfg, b, t)
    ensures forall now :: Level(cfg, Some(Next(cfg, b, t, true)), now) >= Min(cfg.capacity, Gain(cfg, now - t))
  {
    hide Gain;
  }

  /** It still does after any rejected calls and calls of other keys. */
  lemma {:induction false} RefillsFromLastAdmitted(cfg: Config, calls: seq<Call>, key: string, i: nat, n: nat)
    requires Usable(cfg) && i < n <= |calls| && calls[i].key == key && Admitted(cfg, calls, i)
    requires forall k :: i < k < n && calls[k].key == key ==> !Admitted(cfg, calls, k)
    ensures forall now ::
              Level(cfg, Get(After(cfg, calls[..n]), key), now) >= Min(cfg.capacity, Gain(cfg, now - calls[i].now))
    decreases n
  {
    hide Gain, After, Level, Next, Admits, Min;
    AfterOneMore(cfg, calls, n - 1);
    var before := Get(After(cfg, calls[..n - 1]), key);
    if n == i + 1 {
      RefillsFromAdmitted(cfg, before, calls[i].now);
    } else {
      RefillsFromLastAdmitted(cfg, calls, key, i, n - 1);
      if calls[n - 1].key == key {
        RejectedCallIsFree(cfg, before, calls[n - 1].now);
      }
    }
  }

  /** A call at least 1/rate after the last admitted call for its key is admitted, on any clock. */
  lemma SpacedCallIsAdmitted(cfg: Config, calls: seq<Call>, i: nat, j: nat)
    requires Usable(cfg) && i < j < |calls| && calls[i].key == calls[j].key && Admitted(cfg, calls, i)
    requires forall k :: i < k < j && calls[k].key == calls[j].key ==> !Admitted(cfg, calls, k)
    requires (calls[j].now - calls[i].now) * cfg.rate >= 1.0
    ensures Admitted(cfg, calls, j)
  {
    assert Gain(cfg, calls[j].now - calls[i].now) >= 1.0;
    hide Gain, After, Level;
    RefillsFromLastAdmitted(cfg, calls, calls[j].key, i, j);
  }

  /** Call `i` is the last one before call `j` for the same key. */
  ghost predicate Previous(calls: seq<Call>, i: nat, j: nat) {
    i < j < |calls| && calls[i].key == calls[j].key && forall k :: i < k < j ==> calls[k].key != calls[j].key
  }

  lemma {:induction false} FirstCallStartsFull(cfg: Config, calls: seq<Call>, key: string, n: nat)
    requires n <= |calls| && forall k :: 0 <= k < n ==> calls[k].key != key
    ensures key !in After(cfg, calls[..n])
  {
    if n > 0 {
      FirstCallStartsFull(cfg, calls, key, n - 1);
      AfterOneMore(cfg, calls, n - 1);
    }
  }

  /** Calls for a key that each come at least 1/rate after the one before are never rejected. */
  lemma {:induction false} SpacedCallsAreNeverRejected(cfg: Config, calls: seq<Call>, j: nat)
    requires Usable(cfg) && j < |calls|
    requires forall i: nat, k: nat :: Previous(calls, i, k) && calls[k].key == calls[j].key
                                      ==> (calls[k].now - calls[i].now) * cfg.rate >= 1.0
    ensures Admitted(cfg, calls, j)
    decreases j
  {
    if forall k :: 0 <= k < j ==> calls[k].key != calls[j].key {
      FirstCallStartsFull(cfg, calls, calls[j].key, j);
      GainAdds(cfg, 0.0, 0.0);
    } else {
      var i := LastBefore(calls, j);
      SpacedCallsAreNeverRejected(cfg, calls, i);
      SpacedCallIsAdmitted(cfg, calls, i, j);
    }
  }

  lemma LastBefore(calls: seq<Call>, j: nat) returns (i: nat)
    requires j < |calls| && exists k :: 0 <= k < j && calls[k].key == calls[j].key
    ensures Previous(calls, i, j)
  {
    i := j - 1;
    while calls[i].key != calls[j].key
      invariant 0 <= i < j
      invariant exists k :: 0 <= k <= i && calls[k].key == calls[j].key
      invariant forall k :: i < k < j ==> calls[k].key != calls[j].key
      decreases i
    {
      i := i - 1;
    }
  }
}
