/**
 How many calls the limiter can let through in any stretch of calls: one burst plus
 what the clock's forward movement refills, overall and for a single address.
 */
module RateLimitAdmission {
  import opened Common
  import opened RateLimit

  function Elapsed(from: real, to: real): real {
    MaxReal(0.0, to - from)
  }

  /** Total forward movement of the clock over the calls; backward jumps count nothing. */
  function Forward(calls: seq<Call>): (r: real)
    ensures r >= 0.0
  {
    var n := |calls| - 1;
    if n <= 0 then 0.0
    else Forward(calls[..n]) + Elapsed(calls[n - 1].now, calls[n].now)
  }

  ghost predicate NonDecreasing(calls: seq<Call>) {
    forall i, j :: 0 <= i < j < |calls| ==> calls[i].now <= calls[j].now
  }

  /** On a clock that never goes back, the forward movement is the length of the stretch. */
  lemma {:induction false} ForwardIsDuration(calls: seq<Call>)
    requires calls != [] && NonDecreasing(calls)
    ensures Forward(calls) == calls[|calls| - 1].now - calls[0].now
  {
    if |calls| > 1 {
      ForwardIsDuration(calls[..|calls| - 1]);
    }
  }

  /** Calls answered True. */
  function Granted(cfg: Config, s: State, calls: seq<Call>): nat {
    if calls == [] then 0
    else
      var n := |calls| - 1;
      Granted(cfg, s, calls[..n]) + if AllowStep(cfg, Run(cfg, s, calls[..n]), calls[n]).1 then 1 else 0
  }

  /** Calls of address `a` answered True. */
  function GrantedTo(cfg: Config, s: State, calls: seq<Call>, a: Address): nat {
    if calls == [] then 0
    else
      var n := |calls| - 1;
      GrantedTo(cfg, s, calls[..n], a)
      + if calls[n].ip == a && AllowStep(cfg, Run(cfg, s, calls[..n]), calls[n]).1 then 1 else 0
  }

  /** The balance a refill at time `t` would find, before capping. */
  function Credit(b: BucketState, t: real, refillSecs: real): real
    requires refillSecs > 0.0
  {
    b.tokens + Elapsed(b.last, t) / refillSecs
  }

  lemma DivSum(a: real, b: real, d: real)
    requires d > 0.0
    ensures (a + b) / d == a / d + b / d
  {
  }

  lemma DivMonotone(a: real, b: real, d: real)
    requires d > 0.0 && a <= b
    ensures a / d <= b / d
  {
    var gap := b - a;
    assert gap / d >= 0.0;
    DivSum(a, gap, d);
  }

  /** How much a bucket can have granted over `f` seconds of forward movement. */
  function Ceiling(burst: real, refillSecs: real, f: real): real
    requires refillSecs > 0.0
  {
    MaxReal(0.0, burst) + f / refillSecs
  }

  lemma CeilingMonotone(burst: real, refillSecs: real, f: real, f': real)
    requires refillSecs > 0.0 && f <= f'
    ensures Ceiling(burst, refillSecs, f) <= Ceiling(burst, refillSecs, f')
    ensures f' >= 0.0 ==> Ceiling(burst, refillSecs, f') >= 0.0
  {
    DivMonotone(f, f', refillSecs);
    if f' >= 0.0 {
      DivMonotone(0.0, f', refillSecs);
      assert 0.0 / refillSecs == 0.0;
    }
  }

  /** Granted so far plus credit at time `t` is within a burst plus the forward movement `f`. */
  ghost predicate Within(n: nat, b: BucketState, t: real, f: real, burst: real, refillSecs: real)
    requires refillSecs > 0.0
  {
    n as real + Credit(b, t, refillSecs) <= burst + f / refillSecs
  }

  /** Time passing gives credit no faster than the clock moves forward. */
  lemma WithinLater(n: nat, b: BucketState, t: real, t': real, f: real, burst: real, refillSecs: real)
    requires refillSecs > 0.0 && Within(n, b, t, f, burst, refillSecs)
    ensures Within(n, b, t', f + Elapsed(t, t'), burst, refillSecs)
  {
    var first, more := Elapsed(b.last, t), Elapsed(t, t');
    DivMonotone(Elapsed(b.last, t'), first + more, refillSecs);
    DivSum(first, more, refillSecs);
    DivSum(f, more, refillSecs);
  }

  /** A refill turns credit into balance without adding to it, and never above the burst. */
  lemma RefillWithin(n: nat, b: BucketState, t: real, f: real, burst: real, refillSecs: real)
    requires refillSecs > 0.0 && f >= 0.0 && b.tokens <= burst
    requires Within(n, b, t, f, burst, refillSecs) || n == 0
    ensures Refill(b, t, burst, refillSecs).tokens <= burst
    ensures Within(n, Refill(b, t, burst, refillSecs), t, f, burst, refillSecs)
  {
    DivMonotone(0.0, f, refillSecs);
    assert 0.0 / refillSecs == 0.0;
    assert Elapsed(t, t) == 0.0;
  }

  /** One charge keeps what the global bucket has granted within its cover. */
  lemma ChargeGlobalWithin(cfg: Config, b: BucketState, g: BucketState, now: real, n: nat, f: real)
    requires cfg.globalRefillSecs > 0.0 && f >= 0.0 && g.tokens <= cfg.globalBurst
    requires n == 0 || Within(n, g, now, f, cfg.globalBurst, cfg.globalRefillSecs)
    ensures var (_, g', ok) := Charge(cfg, b, g, now);
      var n' := n + if ok then 1 else 0;
      g'.tokens <= cfg.globalBurst
      && (n' == 0 || Within(n', g', now, f, cfg.globalBurst, cfg.globalRefillSecs))
  {
    RefillWithin(n, g, now, f, cfg.globalBurst, cfg.globalRefillSecs);
  }

  ghost predicate GlobalCovered(cfg: Config, g: BucketState, n: nat, t: real, f: real)
    requires cfg.globalRefillSecs > 0.0
  {
    g.tokens <= cfg.globalBurst && (n == 0 || Within(n, g, t, f, cfg.globalBurst, cfg.globalRefillSecs))
  }

  lemma GlobalStep(cfg: Config, s: State, c: Call, n: nat, f: real)
    requires cfg.globalRefillSecs > 0.0 && f >= 0.0
    requires GlobalCovered(cfg, StartGlobal(s.global, s.started, c.now), n, c.now, f)
    ensures var (s', ok) := AllowStep(cfg, s, c);
      GlobalCovered(cfg, s'.global, n + (if ok then 1 else 0), c.now, f)
  {
    var b := if c.ip in s.table then s.table[c.ip] else BucketState(cfg.burst, c.now);
    ChargeGlobalWithin(cfg, b, StartGlobal(s.global, s.started, c.now), c.now, n, f);
  }

  /** What has been granted overall stays covered by the global bucket. */
  lemma {:induction false} GlobalWithin(cfg: Config, s: State, calls: seq<Call>)
    requires cfg.globalRefillSecs > 0.0 && s.global.tokens <= cfg.globalBurst && calls != []
    ensures GlobalCovered(cfg, Run(cfg, s, calls).global, Granted(cfg, s, calls), calls[|calls| - 1].now, Forward(calls))
  {
    var k := |calls| - 1;
    var before, c := calls[..k], calls[k];
    var n := Granted(cfg, s, before);
    if before != [] {
      GlobalWithin(cfg, s, before);
      RunStarted(cfg, s, before);
      if n > 0 {
        WithinLater(n, Run(cfg, s, before).global, before[k - 1].now, c.now, Forward(before), cfg.globalBurst, cfg.globalRefillSecs);
      }
    }
    GlobalStep(cfg, Run(cfg, s, before), c, n, Forward(calls));
  }

  lemma RunStarted(cfg: Config, s: State, calls: seq<Call>)
    requires calls != []
    ensures Run(cfg, s, calls).started
  {
  }

  lemma {:induction false} GlobalNeverAboveBurst(cfg: Config, calls: seq<Call>)
    ensures Run(cfg, Initial(cfg), calls).global.tokens <= cfg.globalBurst
  {
    if calls != [] {
      GlobalNeverAboveBurst(cfg, calls[..|calls| - 1]);
    }
  }

  /**
   In any stretch of calls after any history, on any clock, at most one global burst
   plus the forward movement divided by the refill time is let through.
   */
  lemma AdmissionBound(cfg: Config, history: seq<Call>, stretch: seq<Call>, forward: real)
    requires cfg.globalRefillSecs > 0.0 && forward == Forward(stretch)
    ensures Granted(cfg, Run(cfg, Initial(cfg), history), stretch) as real
         <= Ceiling(cfg.globalBurst, cfg.globalRefillSecs, forward)
  {
    GlobalNeverAboveBurst(cfg, history);
    DivMonotone(0.0, forward, cfg.globalRefillSecs);
    assert 0.0 / cfg.globalRefillSecs == 0.0;
    if stretch != [] {
      var s := Run(cfg, Initial(cfg), history);
      GlobalWithin(cfg, s, stretch);
      GlobalNonNegative(cfg, history + stretch);
      RunConcat(cfg, Initial(cfg), history, stretch);
      var g := Run(cfg, s, stretch).global;
      DivMonotone(0.0, Elapsed(g.last, stretch[|stretch| - 1].now), cfg.globalRefillSecs);
    }
  }

  lemma {:induction false} GlobalNonNegative(cfg: Config, calls: seq<Call>)
    ensures Run(cfg, Initial(cfg), calls).global.tokens >= MinReal(0.0, cfg.globalBurst)
  {
    if calls != [] {
      var before, c := calls[..|calls| - 1], calls[|calls| - 1];
      GlobalNonNegative(cfg, before);
      var s := Run(cfg, Initial(cfg), before);
      var g := StartGlobal(s.global, s.started, c.now);
      if cfg.globalRefillSecs > 0.0 {
        DivMonotone(0.0, Elapsed(g.last, c.now), cfg.globalRefillSecs);
        assert 0.0 / cfg.globalRefillSecs == 0.0;
      }
    }
  }

  /** From its first call in the stretch to its last, the address is never forgotten. */
  ghost predicate StaysTracked(cfg: Config, s: State, calls: seq<Call>, a: Address) {
    forall i, k :: 0 <= i < k < |calls| && calls[i].ip == a && calls[k].ip == a ==> a in Run(cfg, s, calls[..k]).table
  }

  ghost predicate AddressCovered(cfg: Config, s: State, a: Address, n: nat, t: real, f: real)
    requires cfg.refillSecs > 0.0
  {
    && (a in s.table ==> s.table[a].tokens <= cfg.burst)
    && (n > 0 ==> n as real <= cfg.burst + f / cfg.refillSecs)
    && (n > 0 && a in s.table ==> Within(n, s.table[a], t, f, cfg.burst, cfg.refillSecs))
  }

  lemma CoveredLater(cfg: Config, s: State, a: Address, n: nat, t: real, t': real, f: real)
    requires cfg.refillSecs > 0.0 && AddressCovered(cfg, s, a, n, t, f)
    ensures AddressCovered(cfg, s, a, n, t', f + Elapsed(t, t'))
  {
    DivMonotone(f, f + Elapsed(t, t'), cfg.refillSecs);
    if n > 0 && a in s.table {
      WithinLater(n, s.table[a], t, t', f, cfg.burst, cfg.refillSecs);
    }
  }

  lemma ChargeAddressWithin(cfg: Config, b: BucketState, g: BucketState, now: real, n: nat, f: real)
    requires cfg.refillSecs > 0.0 && f >= 0.0 && b.tokens <= cfg.burst
    requires n == 0 || (Within(n, b, now, f, cfg.burst, cfg.refillSecs) && n as real <= cfg.burst + f / cfg.refillSecs)
    ensures var (b', _, ok) := Charge(cfg, b, g, now);
      var n' := n + if ok then 1 else 0;
      b'.tokens <= cfg.burst
      && (n' == 0 || (Within(n', b', now, f, cfg.burst, cfg.refillSecs) && n' as real <= cfg.burst + f / cfg.refillSecs))
  {
    RefillWithin(n, b, now, f, cfg.burst, cfg.refillSecs);
    assert Elapsed(now, now) / cfg.refillSecs == 0.0;
  }

  lemma StaysTrackedBefore(cfg: Config, s: State, calls: seq<Call>, a: Address)
    requires StaysTracked(cfg, s, calls, a) && calls != []
    ensures StaysTracked(cfg, s, calls[..|calls| - 1], a)
  {
    var k := |calls| - 1;
    assert forall j :: 0 <= j < k ==> calls[..k][..j] == calls[..j];
  }

  /** One call keeps `a` covered; it is charged only when the call is its own. */
  lemma AddressStep(cfg: Config, s: State, c: Call, a: Address, n: nat, f: real)
    requires cfg.refillSecs > 0.0 && WellFormed(cfg, s) && f >= 0.0 && AddressCovered(cfg, s, a, n, c.now, f)
    requires c.ip == a && n > 0 ==> a in s.table
    ensures var (s', ok) := AllowStep(cfg, s, c);
      AddressCovered(cfg, s', a, n + (if c.ip == a && ok then 1 else 0), c.now, f)
  {
    AdmitKeepsDistinct(cfg, s.order, c.ip);
    if c.ip == a {
      var b := if a in s.table then s.table[a] else BucketState(cfg.burst, c.now);
      ChargeAddressWithin(cfg, b, StartGlobal(s.global, s.started, c.now), c.now, n, f);
    }
  }

  /** What address `a` has been granted while it stays tracked is covered by its own bucket. */
  lemma {:induction false} AddressWithin(cfg: Config, s: State, calls: seq<Call>, a: Address)
    requires cfg.refillSecs > 0.0 && WellFormed(cfg, s) && calls != [] && StaysTracked(cfg, s, calls, a)
    requires a in s.table ==> s.table[a].tokens <= cfg.burst
    ensures AddressCovered(cfg, Run(cfg, s, calls), a, GrantedTo(cfg, s, calls, a), calls[|calls| - 1].now, Forward(calls))
  {
    var k := |calls| - 1;
    var before, c := calls[..k], calls[k];
    var n := GrantedTo(cfg, s, before, a);
    RunWellFormed(cfg, s, before);
    if before != [] {
      StaysTrackedBefore(cfg, s, calls, a);
      AddressWithin(cfg, s, before, a);
      CoveredLater(cfg, Run(cfg, s, before), a, n, before[k - 1].now, c.now, Forward(before));
      if n > 0 {
        var i := GrantedCalled(cfg, s, before, a);
        assert calls[i].ip == a;
      }
    }
    AddressStep(cfg, Run(cfg, s, before), c, a, n, Forward(calls));
  }

  lemma GrantedCalled(cfg: Config, s: State, calls: seq<Call>, a: Address) returns (i: nat)
    requires GrantedTo(cfg, s, calls, a) > 0
    ensures i < |calls| && calls[i].ip == a
  {
    var n := |calls| - 1;
    if calls[n].ip == a {
      i := n;
    } else {
      i := GrantedCalled(cfg, s, calls[..n], a);
    }
  }

  lemma {:induction false} AddressNeverAboveBurst(cfg: Config, calls: seq<Call>, a: Address)
    ensures a in Run(cfg, Initial(cfg), calls).table ==> Run(cfg, Initial(cfg), calls).table[a].tokens <= cfg.burst
  {
    if calls != [] {
      AddressNeverAboveBurst(cfg, calls[..|calls| - 1], a);
    }
  }

  /** One address, while it stays tracked, is let through at most one burst plus its own refill. */
  lemma AddressAdmissionBound(cfg: Config, history: seq<Call>, stretch: seq<Call>, a: Address)
    requires cfg.refillSecs > 0.0 && StaysTracked(cfg, Run(cfg, Initial(cfg), history), stretch, a)
    ensures GrantedTo(cfg, Run(cfg, Initial(cfg), history), stretch, a) as real
         <= Ceiling(cfg.burst, cfg.refillSecs, Forward(stretch))
  {
    AddressNeverAboveBurst(cfg, history, a);
    RunWellFormed(cfg, Initial(cfg), history);
    DivMonotone(0.0, Forward(stretch), cfg.refillSecs);
    assert 0.0 / cfg.refillSecs == 0.0;
    if stretch != [] {
      AddressWithin(cfg, Run(cfg, Initial(cfg), history), stretch, a);
    }
  }

  /** On a clock that never goes back the bound is by duration. */
  lemma AdmissionBoundByDuration(cfg: Config, history: seq<Call>, stretch: seq<Call>, seconds: real)
    requires cfg.globalRefillSecs > 0.0 && stretch != [] && NonDecreasing(stretch)
    requires seconds == stretch[|stretch| - 1].now - stretch[0].now
    ensures Granted(cfg, Run(cfg, Initial(cfg), history), stretch) as real
         <= Ceiling(cfg.globalBurst, cfg.globalRefillSecs, seconds)
  {
    ForwardIsDuration(stretch);
    AdmissionBound(cfg, history, stretch, seconds);
  }
}
