/** A token bucket for each key, over real-valued milliseconds. */
module RateLimiter {
  import opened Hashing

  datatype Config = Config(rps: real, burst: real)

  datatype Bucket = Bucket(tokens: real, lastRefillMs: real)

  function Min(a: real, b: real): real { if a < b then a else b }

  /** Seconds between two instants; none when the clock went back. */
  function ElapsedSec(from: real, to: real): real { if to > from then (to - from) / 1000.0 else 0.0 }

  /** Tokens earned between two instants. */
  function Gain(c: Config, from: real, to: real): real { ElapsedSec(from, to) * c.rps }

  /** The bucket at an instant, before a token is taken. */
  function Refill(c: Config, b: Option<Bucket>, now: real): Bucket {
    match b
    case None => Bucket(c.burst, now)
    case Some(e) => Bucket(Min(c.burst, e.tokens + Gain(c, e.lastRefillMs, now)), now)
  }

  function Admits(c: Config, b: Option<Bucket>, now: real): bool { Refill(c, b, now).tokens >= 1.0 }

  function Debited(c: Config, b: Option<Bucket>, now: real): Bucket {
    var r := Refill(c, b, now);
    if Admits(c, b, now) then r.(tokens := r.tokens - 1.0) else r
  }

  /** The bucket of a key after calls at these instants. */
  function After(c: Config, ts: seq<real>): Option<Bucket> {
    if ts == [] then None else Some(Debited(c, After(c, ts[..|ts| - 1]), ts[|ts| - 1]))
  }

  /** Whether call `k` of a key's calls is admitted. */
  predicate Accepted(c: Config, ts: seq<real>, k: nat)
    requires k < |ts|
  {
    Admits(c, After(c, ts[..k]), ts[k])
  }

  /** How many of the calls `i..j` are admitted. */
  function Count(c: Config, ts: seq<real>, i: nat, j: nat): nat
    requires i <= j <= |ts|
    decreases j
  {
    if i == j then 0 else Count(c, ts, i, j - 1) + if Accepted(c, ts, j - 1) then 1 else 0
  }

  class RateLimiter {
    const config: Config
    var buckets: map<string, Bucket>
    ghost var calls: seq<(string, real)>

    ghost function Lookup(key: string): Option<Bucket>
      reads this`buckets
    {
      if key in buckets then Some(buckets[key]) else None
    }

    /** Every bucket is what the calls for its key led to. */
    ghost predicate Valid()
      reads this
    {
      forall key :: Lookup(key) == After(config, Times(calls, key))
    }

    constructor (config: Config)
      ensures Valid() && calls == [] && this.config == config
    {
      this.config := config;
      buckets, calls := map[], [];
    }

    /** `consume`: the decision and the new state depend on the calls for this key alone. */
    method Consume(key: string, nowMs: real) returns (ok: bool)
      requires Valid()
      modifies this
      ensures Valid() && calls == old(calls) + [(key, nowMs)]
      ensures ok == Admits(config, After(config, Times(old(calls), key)), nowMs)
      ensures forall other :: other != key ==>
                && (other in buckets <==> other in old(buckets))
                && (other in buckets ==> buckets[other] == old(buckets)[other])
    {
      hide After;
      assert Lookup(key) == After(config, Times(calls, key));
      var state := Bucket(config.burst, nowMs);
      if key in buckets {
        var existing := buckets[key];
        var elapsedSec := (nowMs - existing.lastRefillMs) / 1000.0;
        if elapsedSec < 0.0 { elapsedSec := 0.0; }
        assert elapsedSec == ElapsedSec(existing.lastRefillMs, nowMs);
        assert elapsedSec * config.rps == Gain(config, existing.lastRefillMs, nowMs);
        state := Bucket(Min(config.burst, existing.tokens + elapsedSec * config.rps), nowMs);
      }
      ghost var was := After(config, Times(calls, key));
      assert state == Refill(config, was, nowMs) by { hide Gain; }
      ok := !(state.tokens < 1.0);
      if ok { state := state.(tokens := state.tokens - 1.0); }
      buckets := buckets[key := state];
      forall k ensures Times(calls + [(key, nowMs)], k) == Times(calls, k) + if k == key then [nowMs] else [] {
        TimesSnoc(calls, key, nowMs, k);
      }
      AfterSnoc(config, Times(calls, key), nowMs);
      calls := calls + [(key, nowMs)];
      assert Lookup(key) == Some(Debited(config, was, nowMs)) == After(config, Times(calls, key));
      forall k | k != key ensures Lookup(k) == After(config, Times(calls, k)) {
        assert Lookup(k) == old(Lookup(k)) == After(config, Times(old(calls), k));
        assert Times(old(calls), k) + [] == Times(old(calls), k);
      }
    }
  }

  /** The instants of the calls for one key. */
  function Times(calls: seq<(string, real)>, key: string): seq<real> {
    if calls == [] then [] else (if calls[0].0 == key then [calls[0].1] else []) + Times(calls[1..], key)
  }

  lemma {:induction false} TimesSnoc(calls: seq<(string, real)>, key: string, now: real, k: string)
    ensures Times(calls + [(key, now)], k) == Times(calls, k) + if k == key then [now] else []
  {
    if calls == [] {
      assert calls + [(key, now)] == [(key, now)];
    } else {
      assert (calls + [(key, now)])[1..] == calls[1..] + [(key, now)];
      TimesSnoc(calls[1..], key, now, k);
      ConcatAssoc(if calls[0].0 == k then [calls[0].1] else [], Times(calls[1..], k), if k == key then [now] else []);
    }
  }

  lemma AfterSnoc(c: Config, ts: seq<real>, now: real)
    ensures After(c, ts + [now]) == Some(Debited(c, After(c, ts), now))
    ensures Accepted(c, ts + [now], |ts|) == Admits(c, After(c, ts), now)
  {
    assert (ts + [now])[..|ts|] == ts;
  }

  // ----- The rate

  predicate NonDecreasing(ts: seq<real>) {
    forall i, j :: 0 <= i <= j < |ts| ==> ts[i] <= ts[j]
  }

  lemma GainAdds(c: Config, a: real, b: real, d: real)
    requires a <= b <= d
    ensures Gain(c, a, b) + Gain(c, b, d) == Gain(c, a, d)
  {
    var x, y := ElapsedSec(a, b), ElapsedSec(b, d);
    assert ElapsedSec(a, d) == x + y;
    assert x * c.rps + y * c.rps == (x + y) * c.rps;
  }

  lemma AfterStep(c: Config, ts: seq<real>, k: nat)
    requires k < |ts|
    ensures After(c, ts[..k + 1]) == Some(Debited(c, After(c, ts[..k]), ts[k]))
  {
    assert ts[..k + 1][..k] == ts[..k];
  }

  function Tokens(c: Config, ts: seq<real>, k: nat): real
    requires k < |ts|
  {
    Refill(c, After(c, ts[..k]), ts[k]).tokens
  }

  /** What the steps from call `i` to call `j` earn, one by one. */
  function GainSum(c: Config, ts: seq<real>, i: nat, j: nat): real
    requires i <= j < |ts|
    decreases j
  {
    if i == j then 0.0 else GainSum(c, ts, i, j - 1) + Gain(c, ts[j - 1], ts[j])
  }

  /** What is in the bucket at call `j` is at most what was there at call `i`, plus the gain, less what was taken. */
  lemma {:induction false} TokensBound(c: Config, ts: seq<real>, i: nat, j: nat)
    requires i <= j < |ts|
    ensures Tokens(c, ts, j) <= Tokens(c, ts, i) + GainSum(c, ts, i, j) - Count(c, ts, i, j) as real
    decreases j
  {
    hide After, Gain;
    if i < j {
      TokensBound(c, ts, i, j - 1);
      AfterStep(c, ts, j - 1);
    }
  }

  lemma AtMostBurst(c: Config, ts: seq<real>, i: nat)
    requires i < |ts|
    ensures Tokens(c, ts, i) <= c.burst
  {
  }

  lemma GainPositive(c: Config, from: real, to: real)
    requires c.rps >= 0.0
    ensures Gain(c, from, to) >= 0.0
  {
    assert ElapsedSec(from, to) * c.rps >= 0.0;
  }

  /** For any clock: the calls admitted in a window are at most the burst and what its steps earn. */
  lemma {:induction false} RateBoundAnyClock(c: Config, ts: seq<real>, i: nat, j: nat)
    requires i <= j < |ts| && c.rps >= 0.0
    ensures Count(c, ts, i, j + 1) == 0 || Count(c, ts, i, j + 1) as real <= c.burst + GainSum(c, ts, i, j)
    decreases j
  {
    hide After, Gain;
    if Accepted(c, ts, j) {
      TokensBound(c, ts, i, j);
      AtMostBurst(c, ts, i);
    } else if i < j {
      RateBoundAnyClock(c, ts, i, j - 1);
      GainPositive(c, ts[j - 1], ts[j]);
    }
  }

  predicate NonIncreasing(ts: seq<real>) {
    forall i, j :: 0 <= i <= j < |ts| ==> ts[i] >= ts[j]
  }

  /** A clock that keeps one direction earns in a window what the window is long, or nothing. */
  lemma {:induction false} GainSumMonotone(c: Config, ts: seq<real>, i: nat, j: nat)
    requires (NonDecreasing(ts) || NonIncreasing(ts)) && i <= j < |ts|
    ensures GainSum(c, ts, i, j) == Gain(c, ts[i], ts[j])
    decreases j
  {
    if i < j {
      GainSumMonotone(c, ts, i, j - 1);
      if NonDecreasing(ts) { GainAdds(c, ts[i], ts[j - 1], ts[j]); }
    }
  }

  /** The calls admitted in the window are at most the burst and what the window earns. */
  predicate Bounded(c: Config, ts: seq<real>, i: nat, j: nat)
    requires i <= j < |ts|
  {
    Count(c, ts, i, j + 1) == 0 || Count(c, ts, i, j + 1) as real <= c.burst + Gain(c, ts[i], ts[j])
  }

  /** In any window of a clock that keeps one direction, the promised bound. */
  lemma RateBound(c: Config, ts: seq<real>, i: nat, j: nat)
    requires (NonDecreasing(ts) || NonIncreasing(ts)) && i <= j < |ts| && c.rps >= 0.0
    ensures Bounded(c, ts, i, j)
  {
    RateBoundAnyClock(c, ts, i, j);
    GainSumMonotone(c, ts, i, j);
  }

  // ----- One token

  /** While calls come at one instant, each takes one token of the burst. */
  lemma {:induction false} AtOneInstant(c: Config, ts: seq<real>, n: nat, k: nat)
    requires c.burst == n as real && 1 <= k <= n <= |ts| && forall i :: 0 <= i < n ==> ts[i] == ts[0]
    ensures After(c, ts[..k]) == Some(Bucket((n - k) as real, ts[0])) && Accepted(c, ts, k - 1)
  {
    AfterStep(c, ts, k - 1);
    if k == 1 {
      assert ts[..0] == [];
    } else {
      AtOneInstant(c, ts, n, k - 1);
      assert Gain(c, ts[0], ts[0]) == 0.0;
    }
  }

  /**
   * Of `n` calls at one instant a burst of `n` admits all; one more is admitted once `1000 / rps` milliseconds are
   * over.
   */
  lemma NextTokenIff(c: Config, n: nat, t: real, later: real)
    requires n >= 1 && c.burst == n as real && c.rps >= 0.0
    ensures var ts := seq(n, _ => t) + [later];
            && (forall k :: 0 <= k < n ==> Accepted(c, ts, k))
            && (Accepted(c, ts, n) <==> (later - t) * c.rps >= 1000.0)
  {
    hide Gain;
    var ts := seq(n, _ => t) + [later];
    forall k: nat | k < n ensures Accepted(c, ts, k) { AtOneInstant(c, ts, n, k + 1); }
    AtOneInstant(c, ts, n, n);
    GainIff(c, t, later);
  }

  lemma GainIff(c: Config, t: real, later: real)
    requires c.rps >= 0.0
    ensures Gain(c, t, later) >= 1.0 <==> (later - t) * c.rps >= 1000.0
  {
    if later > t {
      Thousandths(later - t, c.rps);
    } else {
      NotYet(later - t, c.rps);
      assert Gain(c, t, later) == 0.0;
    }
  }

  lemma Thousandths(ms: real, rps: real)
    ensures ms / 1000.0 * rps == ms * rps / 1000.0
  {
  }

  lemma NotYet(ms: real, rps: real)
    requires ms <= 0.0 && rps >= 0.0
    ensures ms * rps <= 0.0
  {
  }

  // ----- A clock that turns

  /** The first call at which the clock has gone both ways. */
  lemma {:induction false} FirstTurn(ts: seq<real>) returns (n: nat)
    requires !NonDecreasing(ts) && !NonIncreasing(ts)
    ensures 2 <= n < |ts|
    ensures (NonDecreasing(ts[..n]) && ts[0] < ts[n - 1] && ts[n] < ts[n - 1])
         || (NonIncreasing(ts[..n]) && ts[0] > ts[n - 1] && ts[n] > ts[n - 1])
  {
    var init := ts[..|ts| - 1];
    if !NonDecreasing(init) && !NonIncreasing(init) {
      n := FirstTurn(init);
      assert init[..n] == ts[..n];
    } else {
      n := |ts| - 1;
    }
  }

  lemma {:induction false} CountOnce(c: Config, ts: seq<real>, i: nat, k: nat, j: nat)
    requires i <= k < j <= |ts| && Accepted(c, ts, k)
    ensures Count(c, ts, i, j) >= 1 + Count(c, ts, i, k)
    decreases j
  {
    if k < j - 1 { CountOnce(c, ts, i, k, j - 1); }
  }

  /** While the clock goes back nothing is earned: after the first call the bucket is empty. */
  lemma {:induction false} EmptyGoingBack(c: Config, ts: seq<real>, n: nat, k: nat)
    requires c.burst == 1.0 && c.rps >= 0.0 && 1 <= k <= n <= |ts| && NonIncreasing(ts[..n])
    ensures After(c, ts[..k]) == Some(Bucket(0.0, ts[k - 1]))
  {
    AfterStep(c, ts, k - 1);
    if k == 1 {
      assert ts[..0] == [];
    } else {
      EmptyGoingBack(c, ts, n, k - 1);
      assert ts[..n][k - 2] >= ts[..n][k - 1];
    }
  }

  /** While less than one token is earned, the bucket fills from empty. */
  lemma {:induction false} FillsGoingOn(c: Config, ts: seq<real>, n: nat, k: nat)
    requires c.burst == 1.0 && c.rps >= 0.0 && 1 <= k <= n <= |ts| && NonDecreasing(ts[..n])
    requires Gain(c, ts[0], ts[k - 1]) < 1.0
    ensures After(c, ts[..k]) == Some(Bucket(Gain(c, ts[0], ts[k - 1]), ts[k - 1]))
  {
    AfterStep(c, ts, k - 1);
    if k == 1 {
      assert ts[..0] == [];
    } else {
      assert ts[..n][0] <= ts[..n][k - 2] <= ts[..n][k - 1];
      GainAdds(c, ts[0], ts[k - 2], ts[k - 1]);
      GainPositive(c, ts[k - 2], ts[k - 1]);
      FillsGoingOn(c, ts, n, k - 1);
    }
  }

  /** The rate that earns one token from `from` to `to`, and less in any shorter time. */
  lemma OneToken(from: real, to: real) returns (c: Config)
    requires from < to
    ensures c.burst == 1.0 && c.rps > 0.0 && Gain(c, from, to) == 1.0
    ensures forall a, b :: b - a < to - from ==> Gain(c, a, b) < 1.0
  {
    var e := ElapsedSec(from, to);
    c := Config(1.0 / e, 1.0);
    Reciprocal(e);
    forall a, b | b - a < to - from ensures Gain(c, a, b) < 1.0 { LessTime(c.rps, ElapsedSec(a, b), e); }
  }

  lemma Reciprocal(e: real)
    requires e > 0.0
    ensures 1.0 / e > 0.0 && e * (1.0 / e) == 1.0
  {
  }

  lemma LessTime(rate: real, s: real, t: real)
    requires rate > 0.0 && s < t
    ensures s * rate < t * rate
  {
  }

  lemma BackThenOnBreaksTheBound(ts: seq<real>, n: nat) returns (c: Config)
    requires 2 <= n < |ts| && NonIncreasing(ts[..n]) && ts[0] > ts[n - 1] && ts[n] > ts[n - 1]
    ensures c.rps >= 0.0 && !Bounded(c, ts, 0, n)
  {
    c := OneToken(ts[n - 1], ts[n]);
    EmptyGoingBack(c, ts, n, n);
    assert ts[..0] == [];
    hide After, Gain;
    assert Accepted(c, ts, n);
    FirstAccepted(c, ts);
    CountOnce(c, ts, 0, 0, n);
    CountOnce(c, ts, 0, n, n + 1);
    assert Gain(c, ts[0], ts[n]) < 1.0;
  }

  lemma FirstAccepted(c: Config, ts: seq<real>)
    requires ts != [] && c.burst == 1.0
    ensures Accepted(c, ts, 0)
  {
    assert ts[..0] == [];
  }

  lemma OnThenBackBreaksTheBound(ts: seq<real>, n: nat) returns (c: Config)
    requires 2 <= n < |ts| && NonDecreasing(ts[..n]) && ts[0] < ts[n - 1] && ts[n] < ts[n - 1]
    ensures c.rps >= 0.0 && !Bounded(c, ts, 0, n)
  {
    c := OneToken(ts[0], ts[n - 1]);
    var m := FirstAtTop(ts, n);
    assert Gain(c, ts[0], ts[m - 1]) < 1.0;
    FillsGoingOn(c, ts, n, m);
    assert ts[..n][0] <= ts[..n][m - 1] <= ts[..n][m];
    GainAdds(c, ts[0], ts[m - 1], ts[m]);
    assert Accepted(c, ts, m);
    hide After, Gain;
    FirstAccepted(c, ts);
    CountOnce(c, ts, 0, 0, m);
    CountOnce(c, ts, 0, m, n + 1);
    assert Gain(c, ts[0], ts[n]) < 1.0;
  }

  lemma FirstAtTop(ts: seq<real>, n: nat) returns (m: nat)
    requires 2 <= n <= |ts| && NonDecreasing(ts[..n]) && ts[0] < ts[n - 1]
    ensures 1 <= m < n && ts[m] == ts[n - 1] && ts[m - 1] < ts[n - 1]
  {
    m := n - 1;
    while ts[m - 1] == ts[n - 1]
      invariant 1 <= m < n && ts[m] == ts[n - 1]
      decreases m
    {
      m := m - 1;
    }
    assert ts[..n][m - 1] <= ts[..n][n - 1];
  }

  /** One such clock: the second it goes back over is earned twice. */
  lemma BackwardClockBreaksTheBound()
    ensures !Bounded(Config(1.0, 1.0), [1000.0, 0.0, 1000.0], 0, 2)
  {
    var c, ts := Config(1.0, 1.0), [1000.0, 0.0, 1000.0];
    EmptyGoingBack(c, ts, 2, 2);
    assert Accepted(c, ts, 2);
    FirstAccepted(c, ts);
    CountOnce(c, ts, 0, 0, 2);
    CountOnce(c, ts, 0, 2, 3);
  }

  /**
   * The bound holds in every window and for every rate and burst exactly when the clock keeps one
   * direction: at the first turn, a burst of one and the rate that earns one token on the way up
   * admit a second call too early.
   */
  lemma BoundIffOneDirection(ts: seq<real>)
    ensures (forall c: Config, i: nat, j: nat :: c.rps >= 0.0 && i <= j < |ts| ==> Bounded(c, ts, i, j))
       <==> NonDecreasing(ts) || NonIncreasing(ts)
  {
    hide Bounded;
    if NonDecreasing(ts) || NonIncreasing(ts) {
      forall c: Config, i: nat, j: nat | c.rps >= 0.0 && i <= j < |ts| ensures Bounded(c, ts, i, j) {
        RateBound(c, ts, i, j);
      }
    } else {
      var n := FirstTurn(ts);
      if NonDecreasing(ts[..n]) && ts[n] < ts[n - 1] && ts[0] < ts[n - 1] {
        var c := OnThenBackBreaksTheBound(ts, n);
        assert !Bounded(c, ts, 0, n);
      } else {
        var c := BackThenOnBreaksTheBound(ts, n);
        assert !Bounded(c, ts, 0, n);
      }
    }
  }

  // ----- Rejected calls

  /** Two buckets that no later call can tell apart. */
  ghost predicate SameFrom(c: Config, b: Option<Bucket>, d: Option<Bucket>, now: real) {
    forall t :: t >= now ==> Refill(c, b, t) == Refill(c, d, t)
  }

  /** A rejected call leaves a bucket that later calls cannot tell from the one it found. */
  lemma RejectedLeavesNoTrace(c: Config, b: Option<Bucket>, now: real)
    requires c.rps >= 0.0 && !Admits(c, b, now) && (b.Some? ==> b.value.lastRefillMs <= now)
    ensures SameFrom(c, Some(Debited(c, b, now)), b, now)
  {
    forall t | t >= now ensures Refill(c, Some(Debited(c, b, now)), t) == Refill(c, b, t) {
      assert Gain(c, now, t) >= 0.0 by { assert ElapsedSec(now, t) * c.rps >= 0.0; }
      if b.Some? { GainAdds(c, b.value.lastRefillMs, now, t); }
    }
  }

  /** The instants of the admitted calls alone. */
  function AdmittedOnly(c: Config, ts: seq<real>): seq<real> {
    if ts == [] then []
    else
      var init, last := ts[..|ts| - 1], ts[|ts| - 1];
      AdmittedOnly(c, init) + if Admits(c, After(c, init), last) then [last] else []
  }

  lemma {:induction false} LastRefill(c: Config, ts: seq<real>)
    requires ts != []
    ensures After(c, ts).value.lastRefillMs == ts[|ts| - 1]
  {
  }

  /**
   * Leaving out every rejected call changes no decision: the rest are all admitted, and the bucket is as good as the
   * same.
   */
  lemma {:induction false} RejectedCallsDoNotMatter(c: Config, ts: seq<real>, now: real)
    requires c.rps >= 0.0 && NonDecreasing(ts + [now])
    ensures SameFrom(c, After(c, ts), After(c, AdmittedOnly(c, ts)), now)
    ensures forall k :: 0 <= k < |AdmittedOnly(c, ts)| ==> Accepted(c, AdmittedOnly(c, ts), k)
  {
    hide Admits, Refill;
    if ts != [] {
      var init, last := ts[..|ts| - 1], ts[|ts| - 1];
      assert forall k :: 0 <= k < |ts| ==> (init + [last])[k] == (ts + [now])[k];
      assert (ts + [now])[|ts|] == now;
      assert last <= now && (init != [] ==> (ts + [now])[|init| - 1] <= (ts + [now])[|init|]);
      RejectedCallsDoNotMatter(c, init, last);
      if Admits(c, After(c, init), last) {
        AdmittedStep(c, init, last);
      } else {
        if init != [] { LastRefill(c, init); }
        RejectedLeavesNoTrace(c, After(c, init), last);
        assert AdmittedOnly(c, ts) == AdmittedOnly(c, init);
      }
    }
  }

  lemma AdmittedStep(c: Config, init: seq<real>, last: real)
    requires SameFrom(c, After(c, init), After(c, AdmittedOnly(c, init)), last) && Admits(c, After(c, init), last)
    requires forall k :: 0 <= k < |AdmittedOnly(c, init)| ==> Accepted(c, AdmittedOnly(c, init), k)
    ensures var kept := AdmittedOnly(c, init) + [last];
            && After(c, kept) == Some(Debited(c, After(c, init), last))
            && forall k :: 0 <= k < |kept| ==> Accepted(c, kept, k)
  {
    var some := AdmittedOnly(c, init);
    AfterSnoc(c, some, last);
    forall k | 0 <= k < |some| ensures Accepted(c, some + [last], k) {
      assert (some + [last])[..k] == some[..k] && (some + [last])[k] == some[k];
      assert Accepted(c, some, k);
    }
  }

  // ----- ... unless the clock goes back

  /** Seconds gone by from call to call, none while the clock goes back. */
  function Seconds(ts: seq<real>, k: nat): real
    requires k < |ts|
  {
    if k == 0 then 0.0 else Seconds(ts, k - 1) + ElapsedSec(ts[k - 1], ts[k])
  }

  function Earned(c: Config, seconds: real): real { seconds * c.rps }

  lemma EarnedAdds(c: Config, a: real, b: real)
    ensures Earned(c, a + b) == Earned(c, a) + Earned(c, b)
  {
  }

  lemma {:induction false} SecondsEarn(c: Config, ts: seq<real>, k: nat)
    requires k < |ts|
    ensures GainSum(c, ts, 0, k) == Earned(c, Seconds(ts, k))
  {
    if k > 0 {
      SecondsEarn(c, ts, k - 1);
      EarnedAdds(c, Seconds(ts, k - 1), ElapsedSec(ts[k - 1], ts[k]));
      GainIsEarned(c, ts[k - 1], ts[k]);
      hide Earned, Gain, ElapsedSec;
    } else {
      assert Earned(c, 0.0) == 0.0;
    }
  }

  lemma GainIsEarned(c: Config, from: real, to: real)
    ensures Gain(c, from, to) == Earned(c, ElapsedSec(from, to))
  {
  }

  lemma {:induction false} SomeLater(ts: seq<real>) returns (t: real)
    ensures forall k :: 0 <= k < |ts| ==> ts[k] < t
  {
    if ts == [] {
      t := 0.0;
    } else {
      var u := SomeLater(ts[1..]);
      t := if u > ts[0] then u else ts[0] + 1.0;
      assert forall k :: 0 < k < |ts| ==> ts[k] == ts[1..][k - 1];
    }
  }

  /** Seen from later on, more seconds have gone by than lie in between exactly when the clock went back. */
  lemma {:induction false} BackCountsTwice(ts: seq<real>, k: nat, t: real)
    requires k < |ts| && forall i :: 0 <= i < |ts| ==> ts[i] < t
    ensures Seconds(ts, k) + ElapsedSec(ts[k], t) >= ElapsedSec(ts[0], t)
    ensures Seconds(ts, k) + ElapsedSec(ts[k], t) > ElapsedSec(ts[0], t) <==> !NonDecreasing(ts[..k + 1])
  {
    if k > 0 {
      BackCountsTwice(ts, k - 1, t);
      var init, all := ts[..k], ts[..k + 1];
      assert all == init + [ts[k]] && init[k - 1] == ts[k - 1];
      if NonDecreasing(init) && ts[k - 1] <= ts[k] {
        forall i, j | 0 <= i <= j < |all| ensures all[i] <= all[j] {
          if j == k && i < k { assert init[i] <= init[k - 1]; }
        }
      } else if NonDecreasing(init) {
        assert all[k - 1] > all[k];
      } else {
        var i, j :| 0 <= i <= j < |init| && init[i] > init[j];
        assert all[i] > all[j];
      }
    }
  }

  /** With a burst of one and a rate too low to earn a token, only the first call is admitted. */
  lemma {:induction false} OnlyTheFirst(c: Config, ts: seq<real>, k: nat)
    requires c.burst == 1.0 && c.rps >= 0.0 && k < |ts| && GainSum(c, ts, 0, k) < 1.0
    ensures After(c, ts[..k + 1]) == Some(Bucket(GainSum(c, ts, 0, k), ts[k]))
    ensures AdmittedOnly(c, ts[..k + 1]) == [ts[0]]
  {
    AfterStep(c, ts, k);
    var init, all := ts[..k], ts[..k + 1];
    assert all[..|all| - 1] == init && all[|all| - 1] == ts[k];
    hide Gain;
    if k == 0 {
      assert init == [] && AdmittedOnly(c, init) == [];
    } else {
      GainPositive(c, ts[k - 1], ts[k]);
      OnlyTheFirst(c, ts, k - 1);
    }
  }

  /** A rate at which so much time earns less than one token, and less time earns less. */
  lemma SlowRate(seconds: real) returns (c: Config)
    requires seconds >= 0.0
    ensures c.burst == 1.0 && c.rps > 0.0 && Earned(c, seconds) < 1.0
    ensures forall less :: less < seconds ==> Earned(c, less) < Earned(c, seconds)
  {
    var more := seconds + 1.0;
    var rps := Inverse(more);
    LessTime(rps, seconds, more);
    c := Config(rps, 1.0);
    forall less | less < seconds ensures Earned(c, less) < Earned(c, seconds) { LessTime(rps, less, seconds); }
  }

  lemma Inverse(e: real) returns (i: real)
    requires e > 0.0
    ensures i > 0.0 && e * i == 1.0
  {
    i := 1.0 / e;
    Reciprocal(e);
  }

  lemma {:induction false} SecondsPositive(ts: seq<real>, k: nat)
    requires k < |ts|
    ensures Seconds(ts, k) >= 0.0
  {
    if k > 0 { SecondsPositive(ts, k - 1); }
  }

  /** All the time that went by, until and since the last call. */
  function Passed(ts: seq<real>, t: real): real
    requires ts != []
  {
    Seconds(ts, |ts| - 1) + ElapsedSec(ts[|ts| - 1], t)
  }

  /** What has been earned where it was too little for a second token. */
  lemma SlowRefill(c: Config, ts: seq<real>, t: real)
    requires c.burst == 1.0 && c.rps >= 0.0 && ts != [] && Earned(c, Passed(ts, t)) < 1.0
    ensures Refill(c, After(c, ts), t).tokens == Earned(c, Passed(ts, t)) && AdmittedOnly(c, ts) == [ts[0]]
  {
    hide Earned, Gain, AdmittedOnly, After, GainSum, Seconds, ElapsedSec;
    var n := |ts| - 1;
    SecondsEarn(c, ts, n);
    EarnedAdds(c, Seconds(ts, n), ElapsedSec(ts[n], t));
    GainIsEarned(c, ts[n], t);
    GainPositive(c, ts[n], t);
    assert ts[..n + 1] == ts;
    OnlyTheFirst(c, ts, n);
  }

  /** A clock that went back: at some rate the rejected calls have given the caller time it would not have had. */
  lemma RejectedMatter(ts: seq<real>) returns (c: Config)
    requires !NonDecreasing(ts)
    ensures c.rps >= 0.0 && !SameFrom(c, After(c, ts), After(c, AdmittedOnly(c, ts)), ts[|ts| - 1])
  {
    var n := |ts| - 1;
    var t := SomeLater(ts);
    SecondsPositive(ts, n);
    assert ts[..n + 1] == ts;
    BackCountsTwice(ts, n, t);
    var once := [ts[0]];
    assert Passed(once, t) == ElapsedSec(ts[0], t) < Passed(ts, t);
    hide Passed, Earned, After, AdmittedOnly, ElapsedSec, Seconds, NonDecreasing, Refill;
    c := SlowRate(Passed(ts, t));
    assert Earned(c, Passed(once, t)) < Earned(c, Passed(ts, t));
    SlowRefill(c, ts, t);
    SlowRefill(c, once, t);
    assert Refill(c, After(c, ts), t) != Refill(c, After(c, AdmittedOnly(c, ts)), t);
  }

  /**
   * From the last call on, at every rate and burst, rejected calls do not matter exactly when the clock never went
   * back.
   */
  lemma RejectedMatterIffClockWentBack(ts: seq<real>)
    requires ts != []
    ensures (forall c: Config :: c.rps >= 0.0 ==>
               SameFrom(c, After(c, ts), After(c, AdmittedOnly(c, ts)), ts[|ts| - 1]))
            <==> NonDecreasing(ts)
  {
    hide SameFrom;
    if NonDecreasing(ts) {
      var now := ts[|ts| - 1];
      assert NonDecreasing(ts + [now]);
      forall c: Config | c.rps >= 0.0 ensures SameFrom(c, After(c, ts), After(c, AdmittedOnly(c, ts)), now) {
        RejectedCallsDoNotMatter(c, ts, now);
      }
    } else {
      var c := RejectedMatter(ts);
      assert c.rps >= 0.0;
    }
  }

  // ----- Spaced callers

  /** Consecutive calls are at least `1 / rps` seconds apart. */
  predicate Spaced(c: Config, ts: seq<real>) {
    forall k :: 0 < k < |ts| ==> ts[k - 1] <= ts[k] && Gain(c, ts[k - 1], ts[k]) >= 1.0
  }

  /** A caller that keeps the steady rate is never throttled exactly when the burst is at least one. */
  lemma {:induction false} SpacedNeverThrottled(c: Config, ts: seq<real>, k: nat)
    requires Spaced(c, ts) && k < |ts|
    ensures Accepted(c, ts, k) <==> c.burst >= 1.0
  {
    if k > 0 {
      SpacedNeverThrottled(c, ts, k - 1);
      AfterStep(c, ts, k - 1);
    }
    AtMostBurst(c, ts, k);
  }
}
