/**
 The limiter told without tokens: a call is let through exactly when letting it through
 keeps every stretch of calls ending with it within one burst plus its refill.
 */
module RateLimitExact {
  import opened Common
  import opened RateLimit
  import opened RateLimitUnbounded
  import opened RateLimitAdmission

  function UnboundedAnswer(cfg: Config, before: seq<Call>, c: Call): bool {
    AllowUnbounded(cfg, RunUnbounded(cfg, before), c).1
  }

  /** Calls from position `i` on that the unbounded limiter let through. */
  function GrantsSince(cfg: Config, calls: seq<Call>, i: nat): nat {
    if |calls| <= i then 0
    else
      var n := |calls| - 1;
      GrantsSince(cfg, calls[..n], i) + if UnboundedAnswer(cfg, calls[..n], calls[n]) then 1 else 0
  }

  function GrantsToSince(cfg: Config, calls: seq<Call>, a: Address, i: nat): nat {
    if |calls| <= i then 0
    else
      var n := |calls| - 1;
      GrantsToSince(cfg, calls[..n], a, i)
      + if calls[n].ip == a && UnboundedAnswer(cfg, calls[..n], calls[n]) then 1 else 0
  }

  /** What is left at time `t` of one burst and the refill since `from`, `n` tokens having been spent. */
  function Left(burst: real, refillSecs: real, from: real, t: real, n: nat): real
    requires refillSecs > 0.0
  {
    burst + (t - from) / refillSecs - n as real
  }

  /** `x` tokens are left of every stretch of calls up to time `t`, the empty one included. */
  ghost predicate AddressLeft(cfg: Config, calls: seq<Call>, a: Address, t: real, x: real)
    requires cfg.refillSecs > 0.0
  {
    && x <= cfg.burst
    && forall i: nat :: i < |calls| ==> x <= Left(cfg.burst, cfg.refillSecs, calls[i].now, t, GrantsToSince(cfg, calls, a, i))
  }

  ghost predicate GlobalLeft(cfg: Config, calls: seq<Call>, t: real, x: real)
    requires cfg.globalRefillSecs > 0.0
  {
    && x <= cfg.globalBurst
    && forall i: nat :: i < |calls| ==> x <= Left(cfg.globalBurst, cfg.globalRefillSecs, calls[i].now, t, GrantsSince(cfg, calls, i))
  }

  /** The refilled bucket of `a` at time `t`; a stranger has a full one. */
  function AddressBucketAt(cfg: Config, calls: seq<Call>, a: Address, t: real): BucketState {
    var u := RunUnbounded(cfg, calls);
    Refill(if a in u.buckets then u.buckets[a] else BucketState(cfg.burst, t), t, cfg.burst, cfg.refillSecs)
  }

  function GlobalBucketAt(cfg: Config, calls: seq<Call>, t: real): BucketState {
    var u := RunUnbounded(cfg, calls);
    Refill(StartGlobal(u.global, u.started, t), t, cfg.globalBurst, cfg.globalRefillSecs)
  }

  /** The token `c` spends of the bucket of `a` when it is let through. */
  function SpentBy(cfg: Config, before: seq<Call>, c: Call, a: Address): nat {
    if c.ip == a && UnboundedAnswer(cfg, before, c) then 1 else 0
  }

  function Spent(cfg: Config, before: seq<Call>, c: Call): nat {
    if UnboundedAnswer(cfg, before, c) then 1 else 0
  }

  /** What must have been there at `c` before it spent `n`, for `x` to be there `secs` later. */
  function Needed(x: real, n: nat, secs: real, refillSecs: real): real
    requires refillSecs > 0.0
  {
    x + n as real - secs / refillSecs
  }

  /** Moving the end of a stretch moves what is left by the refill in between. */
  lemma LeftLater(burst: real, refillSecs: real, from: real, t: real, t': real, n: nat)
    requires refillSecs > 0.0
    ensures Left(burst, refillSecs, from, t', n) == Left(burst, refillSecs, from, t, n) + (t' - t) / refillSecs
    ensures t <= t' ==> (t' - t) / refillSecs >= 0.0
  {
    assert (t' - from) / refillSecs == (t - from) / refillSecs + (t' - t) / refillSecs;
  }

  /** A bucket brought up to date at `t` and then spent from, seen again at `t'`. */
  lemma RefillAfter(tokens: real, t: real, t': real, burst: real, refillSecs: real, x: real)
    requires refillSecs > 0.0 && t <= t'
    ensures x <= Refill(BucketState(tokens, t), t', burst, refillSecs).tokens
       <==> x <= burst && x - (t' - t) / refillSecs <= tokens
  {
  }

  /** Refilling in two steps is refilling once. */
  lemma RefillTwice(b: BucketState, t: real, t': real, burst: real, refillSecs: real)
    requires refillSecs > 0.0 && b.last <= t <= t' && b.tokens <= burst
    ensures Refill(Refill(b, t, burst, refillSecs), t', burst, refillSecs) == Refill(b, t', burst, refillSecs)
  {
    assert (t' - b.last) / refillSecs == (t - b.last) / refillSecs + (t' - t) / refillSecs;
    assert (t' - t) / refillSecs >= 0.0;
  }

  /** A stretch seen at `t`, its last call included, against the same stretch just before that call. */
  lemma LeftSnoc(burst: real, refillSecs: real, from: real, now: real, t: real, n: nat, spent: nat, x: real, y: real)
    requires refillSecs > 0.0 && y == Needed(x, spent, t - now, refillSecs)
    ensures x <= Left(burst, refillSecs, from, t, n + spent) <==> y <= Left(burst, refillSecs, from, now, n)
    ensures x <= Left(burst, refillSecs, now, t, spent) <==> y <= burst
  {
    LeftLater(burst, refillSecs, from, now, t, n);
  }

  lemma AddressLeftSnoc(cfg: Config, before: seq<Call>, c: Call, a: Address, t: real, x: real, y: real)
    requires cfg.refillSecs > 0.0 && c.now <= t
    requires y == Needed(x, SpentBy(cfg, before, c, a), t - c.now, cfg.refillSecs)
    ensures AddressLeft(cfg, before + [c], a, t, x) <==> x <= cfg.burst && AddressLeft(cfg, before, a, c.now, y)
  {
    var calls, n, spent := before + [c], |before|, SpentBy(cfg, before, c, a);
    assert calls[..n] == before && calls[n] == c;
    forall i: nat | i <= n
      ensures GrantsToSince(cfg, calls, a, i) == GrantsToSince(cfg, before, a, i) + spent
      ensures i < n ==> (x <= Left(cfg.burst, cfg.refillSecs, calls[i].now, t, GrantsToSince(cfg, calls, a, i))
                         <==> y <= Left(cfg.burst, cfg.refillSecs, before[i].now, c.now, GrantsToSince(cfg, before, a, i)))
    {
      LeftSnoc(cfg.burst, cfg.refillSecs, calls[i].now, c.now, t, GrantsToSince(cfg, before, a, i), spent, x, y);
    }
    LeftSnoc(cfg.burst, cfg.refillSecs, c.now, c.now, t, 0, spent, x, y);
    assert x <= Left(cfg.burst, cfg.refillSecs, calls[n].now, t, GrantsToSince(cfg, calls, a, n)) <==> y <= cfg.burst;
    if AddressLeft(cfg, calls, a, t, x) {
      forall i: nat | i < n
        ensures y <= Left(cfg.burst, cfg.refillSecs, before[i].now, c.now, GrantsToSince(cfg, before, a, i))
      {
        assert x <= Left(cfg.burst, cfg.refillSecs, calls[i].now, t, GrantsToSince(cfg, calls, a, i));
      }
    }
  }

  lemma GlobalLeftSnoc(cfg: Config, before: seq<Call>, c: Call, t: real, x: real, y: real)
    requires cfg.globalRefillSecs > 0.0 && c.now <= t
    requires y == Needed(x, Spent(cfg, before, c), t - c.now, cfg.globalRefillSecs)
    ensures GlobalLeft(cfg, before + [c], t, x) <==> x <= cfg.globalBurst && GlobalLeft(cfg, before, c.now, y)
  {
    var calls, n, spent := before + [c], |before|, Spent(cfg, before, c);
    assert calls[..n] == before && calls[n] == c;
    forall i: nat | i <= n
      ensures GrantsSince(cfg, calls, i) == GrantsSince(cfg, before, i) + spent
      ensures i < n ==> (x <= Left(cfg.globalBurst, cfg.globalRefillSecs, calls[i].now, t, GrantsSince(cfg, calls, i))
                         <==> y <= Left(cfg.globalBurst, cfg.globalRefillSecs, before[i].now, c.now, GrantsSince(cfg, before, i)))
    {
      LeftSnoc(cfg.globalBurst, cfg.globalRefillSecs, calls[i].now, c.now, t, GrantsSince(cfg, before, i), spent, x, y);
    }
    LeftSnoc(cfg.globalBurst, cfg.globalRefillSecs, c.now, c.now, t, 0, spent, x, y);
    assert x <= Left(cfg.globalBurst, cfg.globalRefillSecs, calls[n].now, t, GrantsSince(cfg, calls, n)) <==> y <= cfg.globalBurst;
    if GlobalLeft(cfg, calls, t, x) {
      forall i: nat | i < n
        ensures y <= Left(cfg.globalBurst, cfg.globalRefillSecs, before[i].now, c.now, GrantsSince(cfg, before, i))
      {
        assert x <= Left(cfg.globalBurst, cfg.globalRefillSecs, calls[i].now, t, GrantsSince(cfg, calls, i));
      }
    }
  }

  /** The calls come in clock order and none is later than `t`. */
  ghost predicate Until(calls: seq<Call>, t: real) {
    NonDecreasing(calls) && (calls != [] ==> calls[|calls| - 1].now <= t)
  }

  /** The address bucket holds exactly what every stretch of its calls leaves. */
  lemma {:induction false} AddressBucketIsLeft(cfg: Config, calls: seq<Call>, a: Address, t: real, x: real)
    requires cfg.refillSecs > 0.0 && Until(calls, t)
    ensures x <= AddressBucketAt(cfg, calls, a, t).tokens <==> AddressLeft(cfg, calls, a, t, x)
  {
    if calls == [] {
      FullStays(cfg.burst, t, t, cfg.refillSecs);
    } else {
      var before, c := calls[..|calls| - 1], calls[|calls| - 1];
      assert calls == before + [c];
      var y := Needed(x, SpentBy(cfg, before, c, a), t - c.now, cfg.refillSecs);
      AddressLeftSnoc(cfg, before, c, a, t, x, y);
      AddressBucketIsLeft(cfg, before, a, c.now, y);
      BucketLater(cfg, before, c, a, t, x, y);
    }
  }

  lemma BucketLater(cfg: Config, before: seq<Call>, c: Call, a: Address, t: real, x: real, y: real)
    requires cfg.refillSecs > 0.0 && c.now <= t && Until(before, c.now)
    requires y == Needed(x, SpentBy(cfg, before, c, a), t - c.now, cfg.refillSecs)
    ensures x <= AddressBucketAt(cfg, before + [c], a, t).tokens <==>
      x <= cfg.burst && y <= AddressBucketAt(cfg, before, a, c.now).tokens
  {
    if c.ip == a {
      OwnBucketLater(cfg, before, c, t, x, y);
    } else {
      BalancesInRange(cfg, before);
      BucketDatedBefore(cfg, before, a, c.now);
      OtherBucketLater(cfg, before, c, a, t, x, y);
    }
  }

  lemma OwnBucketLater(cfg: Config, before: seq<Call>, c: Call, t: real, x: real, y: real)
    requires cfg.refillSecs > 0.0 && c.now <= t
    requires y == Needed(x, SpentBy(cfg, before, c, c.ip), t - c.now, cfg.refillSecs)
    ensures x <= AddressBucketAt(cfg, before + [c], c.ip, t).tokens <==>
      x <= cfg.burst && y <= AddressBucketAt(cfg, before, c.ip, c.now).tokens
  {
    assert (before + [c])[..|before|] == before;
    var kept := AddressBucketAt(cfg, before, c.ip, c.now).tokens - SpentBy(cfg, before, c, c.ip) as real;
    assert RunUnbounded(cfg, before + [c]).buckets[c.ip] == BucketState(kept, c.now);
    RefillAfter(kept, c.now, t, cfg.burst, cfg.refillSecs, x);
  }

  lemma OtherBucketLater(cfg: Config, before: seq<Call>, c: Call, a: Address, t: real, x: real, y: real)
    requires cfg.refillSecs > 0.0 && c.ip != a && c.now <= t
    requires y == Needed(x, 0, t - c.now, cfg.refillSecs)
    requires a in RunUnbounded(cfg, before).buckets ==>
      RunUnbounded(cfg, before).buckets[a].last <= c.now && RunUnbounded(cfg, before).buckets[a].tokens <= cfg.burst
    ensures x <= AddressBucketAt(cfg, before + [c], a, t).tokens <==>
      x <= cfg.burst && y <= AddressBucketAt(cfg, before, a, c.now).tokens
  {
    assert (before + [c])[..|before|] == before;
    var u := RunUnbounded(cfg, before);
    if a in u.buckets {
      KeptBucketLater(u.buckets[a], c.now, t, cfg.burst, cfg.refillSecs, x, y);
    } else {
      FullStays(cfg.burst, t, t, cfg.refillSecs);
      FullStays(cfg.burst, c.now, c.now, cfg.refillSecs);
      FullStays(cfg.burst, c.now, t, cfg.refillSecs);
    }
  }

  lemma KeptBucketLater(b: BucketState, now: real, t: real, burst: real, refillSecs: real, x: real, y: real)
    requires refillSecs > 0.0 && b.last <= now <= t && b.tokens <= burst && y == Needed(x, 0, t - now, refillSecs)
    ensures x <= Refill(b, t, burst, refillSecs).tokens <==> x <= burst && y <= Refill(b, now, burst, refillSecs).tokens
  {
    var kept := Refill(b, now, burst, refillSecs);
    RefillAfter(kept.tokens, now, t, burst, refillSecs, x);
    RefillTwice(b, now, t, burst, refillSecs);
  }

  /** A full bucket is full at any later time, and refilling one asks for nothing. */
  lemma FullStays(burst: real, t: real, t': real, refillSecs: real)
    requires refillSecs > 0.0 && t <= t'
    ensures Refill(BucketState(burst, t), t', burst, refillSecs) == BucketState(burst, t')
    ensures (t' - t) / refillSecs >= 0.0
  {
    DivMonotone(0.0, t' - t, refillSecs);
    assert 0.0 / refillSecs == 0.0;
  }

  lemma {:induction false} BucketDatedBefore(cfg: Config, calls: seq<Call>, a: Address, t: real)
    requires Until(calls, t)
    ensures a in RunUnbounded(cfg, calls).buckets ==> RunUnbounded(cfg, calls).buckets[a].last <= t
    ensures calls != [] ==> RunUnbounded(cfg, calls).started && RunUnbounded(cfg, calls).global.last <= t
  {
    if calls != [] {
      BucketDatedBefore(cfg, calls[..|calls| - 1], a, t);
    }
  }

  /** The global bucket holds exactly what every stretch of calls leaves. */
  lemma {:induction false} GlobalBucketIsLeft(cfg: Config, calls: seq<Call>, t: real, x: real)
    requires cfg.globalRefillSecs > 0.0 && Until(calls, t)
    ensures x <= GlobalBucketAt(cfg, calls, t).tokens <==> GlobalLeft(cfg, calls, t, x)
  {
    if calls == [] {
      FullStays(cfg.globalBurst, t, t, cfg.globalRefillSecs);
    } else {
      var before, c := calls[..|calls| - 1], calls[|calls| - 1];
      assert calls == before + [c];
      var y := Needed(x, Spent(cfg, before, c), t - c.now, cfg.globalRefillSecs);
      GlobalLeftSnoc(cfg, before, c, t, x, y);
      GlobalBucketIsLeft(cfg, before, c.now, y);
      BalancesInRange(cfg, before);
      BucketDatedBefore(cfg, before, c.ip, c.now);
      GlobalBucketLater(cfg, before, c, t, x, y);
    }
  }

  lemma GlobalBucketLater(cfg: Config, before: seq<Call>, c: Call, t: real, x: real, y: real)
    requires cfg.globalRefillSecs > 0.0 && c.now <= t
    requires y == Needed(x, Spent(cfg, before, c), t - c.now, cfg.globalRefillSecs)
    requires RunUnbounded(cfg, before).global.tokens <= cfg.globalBurst
    requires RunUnbounded(cfg, before).started ==> RunUnbounded(cfg, before).global.last <= c.now
    ensures x <= GlobalBucketAt(cfg, before + [c], t).tokens <==>
      x <= cfg.globalBurst && y <= GlobalBucketAt(cfg, before, c.now).tokens
  {
    assert (before + [c])[..|before|] == before;
    var u := RunUnbounded(cfg, before);
    var g := StartGlobal(u.global, u.started, c.now);
    var full := Refill(g, c.now, cfg.globalBurst, cfg.globalRefillSecs);
    var kept := full.tokens - Spent(cfg, before, c) as real;
    GlobalAfter(cfg, before, c);
    RefillTwice(g, c.now, t, cfg.globalBurst, cfg.globalRefillSecs);
    RefillAfter(kept, c.now, t, cfg.globalBurst, cfg.globalRefillSecs, x);
  }

  /** The global bucket after a call: untouched, or brought up to date and spent from. */
  lemma GlobalAfter(cfg: Config, before: seq<Call>, c: Call)
    ensures var u, u' := RunUnbounded(cfg, before), RunUnbounded(cfg, before + [c]);
      var g := StartGlobal(u.global, u.started, c.now);
      var full := Refill(g, c.now, cfg.globalBurst, cfg.globalRefillSecs);
      && u'.started
      && (u'.global == BucketState(full.tokens - Spent(cfg, before, c) as real, c.now)
          || (u'.global == g && Spent(cfg, before, c) == 0))
  {
    assert (before + [c])[..|before|] == before;
  }

  /**
   The unbounded limiter lets a call through exactly when one token is left of every stretch
   of earlier calls, by its own address and overall.
   */
  lemma UnboundedGrantsIffLeft(cfg: Config, calls: seq<Call>, c: Call)
    requires cfg.refillSecs > 0.0 && cfg.globalRefillSecs > 0.0 && Until(calls, c.now)
    ensures UnboundedAnswer(cfg, calls, c) <==>
      AddressLeft(cfg, calls, c.ip, c.now, 1.0) && GlobalLeft(cfg, calls, c.now, 1.0)
  {
    AddressBucketIsLeft(cfg, calls, c.ip, c.now, 1.0);
    GlobalBucketIsLeft(cfg, calls, c.now, 1.0);
  }

  /** The last call of an in-step run, seen by both limiters. */
  lemma LastAnswerSame(cfg: Config, calls: seq<Call>, i: nat)
    requires InStep(cfg, calls) && i < |calls|
    ensures var n := |calls| - 1;
      && InStep(cfg, calls[..n])
      && calls[i..] != [] && calls[i..][..|calls[i..]| - 1] == calls[..n][i..] && calls[i..][|calls[i..]| - 1] == calls[n]
      && calls[..n][..i] == calls[..i]
      && AllowStep(cfg, Run(cfg, Bounded(cfg, calls[..i]), calls[..n][i..]), calls[n]).1 == UnboundedAnswer(cfg, calls[..n], calls[n])
  {
    var before, c := calls[..|calls| - 1], calls[|calls| - 1];
    SplitBeforeLast(calls, i);
    RunConcat(cfg, Initial(cfg), calls[..i], before[i..]);
    InStepSnoc(cfg, before, c);
    assert SameStep(cfg, before, c);
  }

  lemma {:induction false} InStepCountsSame(cfg: Config, calls: seq<Call>, i: nat)
    requires InStep(cfg, calls) && i <= |calls|
    ensures Granted(cfg, Bounded(cfg, calls[..i]), calls[i..]) == GrantsSince(cfg, calls, i)
  {
    if i < |calls| {
      LastAnswerSame(cfg, calls, i);
      InStepCountsSame(cfg, calls[..|calls| - 1], i);
    } else {
      assert calls[i..] == [];
    }
  }

  lemma {:induction false} InStepCountsSameTo(cfg: Config, calls: seq<Call>, i: nat, a: Address)
    requires InStep(cfg, calls) && i <= |calls|
    ensures GrantedTo(cfg, Bounded(cfg, calls[..i]), calls[i..], a) == GrantsToSince(cfg, calls, a, i)
  {
    if i < |calls| {
      LastAnswerSame(cfg, calls, i);
      InStepCountsSameTo(cfg, calls[..|calls| - 1], i, a);
    } else {
      assert calls[i..] == [];
    }
  }

  /** One more token fits into every stretch of calls, from position `i` to now, that the limiter has answered. */
  ghost predicate FitsEveryStretch(cfg: Config, calls: seq<Call>, c: Call)
    requires cfg.refillSecs > 0.0 && cfg.globalRefillSecs > 0.0
  {
    && 1.0 <= cfg.burst && 1.0 <= cfg.globalBurst
    && forall i: nat :: i < |calls| ==>
      && 1.0 <= Left(cfg.burst, cfg.refillSecs, calls[i].now, c.now, GrantedTo(cfg, Bounded(cfg, calls[..i]), calls[i..], c.ip))
      && 1.0 <= Left(cfg.globalBurst, cfg.globalRefillSecs, calls[i].now, c.now, Granted(cfg, Bounded(cfg, calls[..i]), calls[i..]))
  }

  lemma FitsIffLeft(cfg: Config, calls: seq<Call>, c: Call)
    requires cfg.refillSecs > 0.0 && cfg.globalRefillSecs > 0.0 && InStep(cfg, calls)
    ensures FitsEveryStretch(cfg, calls, c) <==> AddressLeft(cfg, calls, c.ip, c.now, 1.0) && GlobalLeft(cfg, calls, c.now, 1.0)
  {
    forall i: nat | i < |calls|
      ensures Granted(cfg, Bounded(cfg, calls[..i]), calls[i..]) == GrantsSince(cfg, calls, i)
      ensures GrantedTo(cfg, Bounded(cfg, calls[..i]), calls[i..], c.ip) == GrantsToSince(cfg, calls, c.ip, i)
    {
      InStepCountsSame(cfg, calls, i);
      InStepCountsSameTo(cfg, calls, i, c.ip);
    }
  }

  lemma OrderUntil(calls: seq<Call>, c: Call)
    requires NonDecreasing(calls + [c])
    ensures Until(calls, c.now)
  {
    var all := calls + [c];
    assert forall i :: 0 <= i < |calls| ==> all[i] == calls[i];
    assert all[|calls|] == c;
  }

  /**
   The bounded limiter is an exact admission control: on a clock that never goes back, and with
   forgotten addresses returning late enough, it lets a call through if and only if every
   stretch ending with that call stays within one burst plus its refill, for the address and overall.
   */
  lemma GrantedIffFits(cfg: Config, calls: seq<Call>, c: Call)
    requires cfg.refillSecs > 0.0 && cfg.globalRefillSecs > 0.0
    requires NonDecreasing(calls + [c]) && ReturnsLate(cfg, calls + [c])
    ensures AllowStep(cfg, Bounded(cfg, calls), c).1 <==> FitsEveryStretch(cfg, calls, c)
  {
    LateReturnsHideTheBound(cfg, calls + [c]);
    InStepSnoc(cfg, calls, c);
    OrderUntil(calls, c);
    UnboundedGrantsIffLeft(cfg, calls, c);
    FitsIffLeft(cfg, calls, c);
    assert SameStep(cfg, calls, c);
  }
}
