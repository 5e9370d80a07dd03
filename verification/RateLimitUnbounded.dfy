/**
 The bounded limiter against one that never forgets an address: when they answer
 alike, and exactly when they stay in step.
 */
module RateLimitUnbounded {
  import opened Common
  import opened RateLimit
  import opened RateLimitLru

  datatype Unbounded = Unbounded(buckets: map<Address, BucketState>, global: BucketState, started: bool)

  function InitialUnbounded(cfg: Config): Unbounded {
    Unbounded(map[], BucketState(cfg.globalBurst, 0.0), false)
  }

  function AllowUnbounded(cfg: Config, u: Unbounded, c: Call): (Unbounded, bool) {
    var b := if c.ip in u.buckets then u.buckets[c.ip] else BucketState(cfg.burst, c.now);
    var (b', g', ok) := Charge(cfg, b, StartGlobal(u.global, u.started, c.now), c.now);
    (Unbounded(u.buckets[c.ip := b'], g', true), ok)
  }

  function RunUnbounded(cfg: Config, calls: seq<Call>): Unbounded {
    if calls == [] then InitialUnbounded(cfg)
    else AllowUnbounded(cfg, RunUnbounded(cfg, calls[..|calls| - 1]), calls[|calls| - 1]).0
  }

  /** What the bounded limiter knows, the unbounded one knows too, with the same balances. */
  ghost predicate Agree(s: State, u: Unbounded) {
    && s.global == u.global && s.started == u.started
    && forall a :: a in s.table ==> a in u.buckets && s.table[a] == u.buckets[a]
  }

  function Bounded(cfg: Config, calls: seq<Call>): State {
    Run(cfg, Initial(cfg), calls)
  }

  /** Both give `c` the same answer and agree afterwards. */
  ghost predicate SameStep(cfg: Config, before: seq<Call>, c: Call) {
    var (s, ok) := AllowStep(cfg, Bounded(cfg, before), c);
    var (u, ok') := AllowUnbounded(cfg, RunUnbounded(cfg, before), c);
    ok == ok' && Agree(s, u)
  }

  /** The caller was forgotten earlier, and by now its true bucket would be full again. */
  ghost predicate ReturnsFull(cfg: Config, before: seq<Call>, c: Call) {
    var u := RunUnbounded(cfg, before);
    c.ip !in Bounded(cfg, before).table && c.ip in u.buckets
    ==> Refill(u.buckets[c.ip], c.now, cfg.burst, cfg.refillSecs).tokens == cfg.burst
  }

  ghost predicate InStep(cfg: Config, calls: seq<Call>) {
    forall k :: 0 <= k < |calls| ==> SameStep(cfg, calls[..k], calls[k])
  }

  ghost predicate AllReturnFull(cfg: Config, calls: seq<Call>) {
    forall k :: 0 <= k < |calls| ==> ReturnsFull(cfg, calls[..k], calls[k])
  }

  /** No bucket leaves the range from empty to burst. */
  ghost predicate InRange(b: BucketState, burst: real) {
    MinReal(0.0, burst) <= b.tokens <= burst
  }

  lemma RefillInRange(b: BucketState, now: real, burst: real, refillSecs: real)
    requires InRange(b, burst)
    ensures InRange(Refill(b, now, burst, refillSecs), burst)
    ensures refillSecs > 0.0 ==> Refill(b, now, burst, refillSecs).tokens >= b.tokens
  {
    if refillSecs > 0.0 {
      assert MaxReal(0.0, now - b.last) / refillSecs >= 0.0;
    }
  }

  lemma ChargeInRange(cfg: Config, b: BucketState, g: BucketState, now: real)
    requires InRange(b, cfg.burst) && InRange(g, cfg.globalBurst)
    ensures InRange(Charge(cfg, b, g, now).0, cfg.burst)
    ensures InRange(Charge(cfg, b, g, now).1, cfg.globalBurst)
    ensures Charge(cfg, b, g, now).0.last == now
  {
    RefillInRange(b, now, cfg.burst, cfg.refillSecs);
    RefillInRange(g, now, cfg.globalBurst, cfg.globalRefillSecs);
  }

  /** Every true balance is in range. */
  lemma {:induction false} BalancesInRange(cfg: Config, calls: seq<Call>)
    ensures InRange(RunUnbounded(cfg, calls).global, cfg.globalBurst)
    ensures forall a :: a in RunUnbounded(cfg, calls).buckets ==> InRange(RunUnbounded(cfg, calls).buckets[a], cfg.burst)
  {
    if calls != [] {
      var before, c := calls[..|calls| - 1], calls[|calls| - 1];
      BalancesInRange(cfg, before);
      var u := RunUnbounded(cfg, before);
      ChargeInRange(cfg, if c.ip in u.buckets then u.buckets[c.ip] else BucketState(cfg.burst, c.now),
                    StartGlobal(u.global, u.started, c.now), c.now);
    }
  }

  /** A true balance was last brought up to date at its owner's last call. */
  lemma {:induction false} BalanceDatedAtLastCall(cfg: Config, calls: seq<Call>, i: nat)
    requires IsLastCall(calls, i)
    ensures calls[i].ip in RunUnbounded(cfg, calls).buckets
    ensures RunUnbounded(cfg, calls).buckets[calls[i].ip].last == calls[i].now
  {
    var n := |calls| - 1;
    if i < n {
      assert calls[n].ip != calls[i].ip;
      BalanceDatedAtLastCall(cfg, calls[..n], i);
    }
  }

  /** The same of the bounded table: every balance it holds is in range. */
  lemma {:induction false} TableInRange(cfg: Config, calls: seq<Call>)
    ensures InRange(Bounded(cfg, calls).global, cfg.globalBurst)
    ensures forall a :: a in Bounded(cfg, calls).table ==> InRange(Bounded(cfg, calls).table[a], cfg.burst)
  {
    if calls != [] {
      var before, c := calls[..|calls| - 1], calls[|calls| - 1];
      TableInRange(cfg, before);
      var s := Bounded(cfg, before);
      var b := if c.ip in s.table then s.table[c.ip] else BucketState(cfg.burst, c.now);
      ChargeInRange(cfg, b, StartGlobal(s.global, s.started, c.now), c.now);
    }
  }

  /** And dated at its owner's last call, as long as the owner is tracked. */
  lemma {:induction false} TableDatedAtLastCall(cfg: Config, calls: seq<Call>, i: nat)
    requires IsLastCall(calls, i) && calls[i].ip in Bounded(cfg, calls).table
    ensures Bounded(cfg, calls).table[calls[i].ip].last == calls[i].now
  {
    var n := |calls| - 1;
    if i < n {
      assert calls[n].ip != calls[i].ip;
      TableDatedAtLastCall(cfg, calls[..n], i);
    }
  }

  /** A burst below one never lets anything through. */
  lemma NoBurstNeverGrants(cfg: Config, history: seq<Call>, c: Call)
    requires cfg.burst < 1.0 || cfg.globalBurst < 1.0
    ensures !AllowStep(cfg, Bounded(cfg, history), c).1
  {
    var s := Bounded(cfg, history);
    TableInRange(cfg, history);
    var b := if c.ip in s.table then s.table[c.ip] else BucketState(cfg.burst, c.now);
    RefillInRange(b, c.now, cfg.burst, cfg.refillSecs);
    RefillInRange(StartGlobal(s.global, s.started, c.now), c.now, cfg.globalBurst, cfg.globalRefillSecs);
  }

  lemma {:induction false} BalancesOfCallers(cfg: Config, calls: seq<Call>)
    ensures RunUnbounded(cfg, calls).buckets.Keys == Callers(calls)
  {
    if calls != [] {
      var before, c := calls[..|calls| - 1], calls[|calls| - 1];
      BalancesOfCallers(cfg, before);
      assert calls == before + [c];
      CallersSnoc(before, c);
    }
  }

  /** From agreeing states one more call keeps them agreeing exactly when a forgotten caller returns full. */
  lemma StepInStepIff(cfg: Config, before: seq<Call>, c: Call)
    requires Agree(Bounded(cfg, before), RunUnbounded(cfg, before))
    ensures ReturnsFull(cfg, before, c) <==> SameStep(cfg, before, c)
  {
    var s, u := Bounded(cfg, before), RunUnbounded(cfg, before);
    RunWellFormed(cfg, Initial(cfg), before);
    AdmitKeepsDistinct(cfg, s.order, c.ip);
    var s', u' := AllowStep(cfg, s, c).0, AllowUnbounded(cfg, u, c).0;
    assert c.ip in s'.table;
    if c.ip !in s.table && c.ip in u.buckets {
      var full := Refill(BucketState(cfg.burst, c.now), c.now, cfg.burst, cfg.refillSecs);
      FreshIsFull(cfg, c.now);
      var kept := Refill(u.buckets[c.ip], c.now, cfg.burst, cfg.refillSecs);
      assert full == kept <==> kept.tokens == cfg.burst;
      assert full == kept ==> s'.table[c.ip] == u'.buckets[c.ip];
    }
  }

  lemma FreshIsFull(cfg: Config, now: real)
    ensures Refill(BucketState(cfg.burst, now), now, cfg.burst, cfg.refillSecs) == BucketState(cfg.burst, now)
  {
    if cfg.refillSecs > 0.0 {
      assert 0.0 / cfg.refillSecs == 0.0;
    }
  }

  lemma InStepSnoc(cfg: Config, before: seq<Call>, c: Call)
    ensures InStep(cfg, before + [c]) <==> InStep(cfg, before) && SameStep(cfg, before, c)
  {
    var calls := before + [c];
    assert forall k :: 0 <= k <= |before| ==> calls[..k] == before[..k];
    assert calls[..|before|] == before && calls[|before|] == c;
    assert InStep(cfg, calls) ==> InStep(cfg, before) by {
      assert forall k :: 0 <= k < |before| && SameStep(cfg, calls[..k], calls[k]) ==> SameStep(cfg, before[..k], before[k]);
    }
  }

  lemma AllReturnFullSnoc(cfg: Config, before: seq<Call>, c: Call)
    ensures AllReturnFull(cfg, before + [c]) <==> AllReturnFull(cfg, before) && ReturnsFull(cfg, before, c)
  {
    var calls := before + [c];
    assert forall k :: 0 <= k <= |before| ==> calls[..k] == before[..k];
    assert calls[..|before|] == before && calls[|before|] == c;
    assert AllReturnFull(cfg, calls) ==> AllReturnFull(cfg, before) by {
      assert forall k :: 0 <= k < |before| && ReturnsFull(cfg, calls[..k], calls[k]) ==> ReturnsFull(cfg, before[..k], before[k]);
    }
  }

  lemma {:induction false} InStepAgrees(cfg: Config, calls: seq<Call>)
    requires InStep(cfg, calls)
    ensures Agree(Bounded(cfg, calls), RunUnbounded(cfg, calls))
  {
    if calls != [] {
      assert SameStep(cfg, calls[..|calls| - 1], calls[|calls| - 1]);
    }
  }

  /**
   Exactly when bounding the table is invisible: the two limiters give the same answers
   with the same balances throughout if and only if every forgotten address that comes
   back would by then have had a full bucket.
   */
  lemma {:induction false} InStepIffReturnsFull(cfg: Config, calls: seq<Call>)
    ensures InStep(cfg, calls) <==> AllReturnFull(cfg, calls)
  {
    if calls == [] {
      assert calls[..0] == [];
    } else {
      var before, c := calls[..|calls| - 1], calls[|calls| - 1];
      assert calls == before + [c];
      InStepIffReturnsFull(cfg, before);
      InStepSnoc(cfg, before, c);
      AllReturnFullSnoc(cfg, before, c);
      if InStep(cfg, before) {
        InStepAgrees(cfg, before);
        StepInStepIff(cfg, before, c);
      }
    }
  }

  /**
   Each address that at least `Capacity` others have displaced since its last call
   has been away for the time a drained bucket needs to fill.
   */
  ghost predicate ReturnsLate(cfg: Config, calls: seq<Call>) {
    forall i, k :: 0 <= i < k < |calls| && calls[k].ip == calls[i].ip && IsLastCall(calls[..k], i)
                && |Callers(calls[i + 1..k])| >= cfg.Capacity()
      ==> calls[k].now - calls[i].now >= cfg.burst * cfg.refillSecs
  }

  lemma LateReturnIsFull(cfg: Config, b: BucketState, now: real)
    requires InRange(b, cfg.burst) && now - b.last >= cfg.burst * cfg.refillSecs
    ensures Refill(b, now, cfg.burst, cfg.refillSecs).tokens == cfg.burst
  {
    if cfg.refillSecs > 0.0 {
      var elapsed := MaxReal(0.0, now - b.last);
      assert elapsed / cfg.refillSecs >= MaxReal(0.0, cfg.burst) by {
        assert (elapsed / cfg.refillSecs) * cfg.refillSecs == elapsed;
        if elapsed / cfg.refillSecs < cfg.burst {
          assert (elapsed / cfg.refillSecs) * cfg.refillSecs < cfg.burst * cfg.refillSecs;
        }
      }
    }
  }

  lemma LastCallExists(calls: seq<Call>, a: Address) returns (i: nat)
    requires a in Callers(calls)
    ensures IsLastCall(calls, i) && calls[i].ip == a
  {
    var n := |calls| - 1;
    if calls[n].ip == a {
      i := n;
    } else {
      assert calls == calls[..n] + [calls[n]];
      CallersSnoc(calls[..n], calls[n]);
      i := LastCallExists(calls[..n], a);
    }
  }

  /**
   Addresses that only return after burst x refill seconds are answered as if the table had
   no bound: same answers, same global bucket, same balances for the addresses still tracked.
   */
  lemma LateReturnsHideTheBound(cfg: Config, calls: seq<Call>)
    requires ReturnsLate(cfg, calls)
    ensures InStep(cfg, calls)
  {
    forall k | 0 <= k < |calls|
      ensures ReturnsFull(cfg, calls[..k], calls[k])
    {
      var before, a := calls[..k], calls[k].ip;
      BalancesInRange(cfg, before);
      if a !in Bounded(cfg, before).table && a in RunUnbounded(cfg, before).buckets {
        BalancesOfCallers(cfg, before);
        var i := LastCallExists(before, a);
        BalanceDatedAtLastCall(cfg, before, i);
        TrackedIffFewSince(cfg, before, i);
        assert before[i + 1..] == calls[i + 1..k];
        assert calls[i] == before[i];
        LateReturnIsFull(cfg, RunUnbounded(cfg, before).buckets[a], calls[k].now);
      }
    }
    InStepIffReturnsFull(cfg, calls);
  }

  lemma SecondCallerDisplaces(cfg: Config, c0: Call, c1: Call)
    requires cfg.slots == 1 && c0.ip != c1.ip
    ensures c0.ip !in Bounded(cfg, [c0, c1]).table
  {
    var calls := [c0, c1];
    assert calls[1..] == [c1] && c1 in calls[1..];
    CallersSnoc([], c1);
    assert [] + [c1] == [c1] && Callers([]) == {};
    assert calls[0] == c0 && calls[1] == c1;
    assert IsLastCall(calls, 0);
    TrackedIffFewSince(cfg, calls, 0);
  }

  lemma FirstCallerIsEmpty(cfg: Config, c0: Call, c1: Call)
    requires cfg == Config(1, 1.0, 10.0, 9.0, 1.0) && c0 == Call("a", 0.0) && c1 == Call("b", 0.0)
    ensures var u := RunUnbounded(cfg, [c0, c1]); "a" in u.buckets && u.buckets["a"] == BucketState(0.0, 0.0)
  {
    assert [c0, c1][..1] == [c0] && [c0][..0] == [];
    assert RunUnbounded(cfg, [c0]) == AllowUnbounded(cfg, InitialUnbounded(cfg), c0).0;
    assert RunUnbounded(cfg, [c0, c1]) == AllowUnbounded(cfg, RunUnbounded(cfg, [c0]), c1).0;
    assert c0.ip != c1.ip;
  }

  /** Without that wait the bound shows: one slot, one token, an address back in the same second. */
  lemma EarlyReturnShows()
    ensures
      var cfg := Config(1, 1.0, 10.0, 9.0, 1.0);
      var calls := [Call("a", 0.0), Call("b", 0.0), Call("a", 0.0)];
      !InStep(cfg, calls)
  {
    var cfg := Config(1, 1.0, 10.0, 9.0, 1.0);
    var c0, c1 := Call("a", 0.0), Call("b", 0.0);
    var calls := [c0, c1, c0];
    assert calls[..2] == [c0, c1];
    assert c0.ip != c1.ip;
    SecondCallerDisplaces(cfg, c0, c1);
    FirstCallerIsEmpty(cfg, c0, c1);
    assert !ReturnsFull(cfg, [c0, c1], c0);
    assert !AllReturnFull(cfg, calls);
    InStepIffReturnsFull(cfg, calls);
  }
}
