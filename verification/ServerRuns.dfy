/**
 Whole runs of the dispatcher: limiter and replay window each see their own run, and
 together they bound the nonce table and the body bytes read.
 */
module ServerRuns {
  import opened Common
  import opened Server
  import RateLimit
  import Admission = RateLimitAdmission
  import Replay
  import Signing

  ghost function After(env: Env, incs: seq<Incoming>): World
    requires Signing.HashIsHex(env.crypto)
  {
    if incs == [] then World(RateLimit.Initial(env.limits), map[])
    else Step(env, After(env, incs[..|incs| - 1]), incs[|incs| - 1]).0
  }

  /** The limiter call of one request, if it gets that far. */
  ghost function CallOf(env: Env, inc: Incoming): seq<RateLimit.Call> {
    if Asks(env, inc) then [LimiterCall(inc)] else []
  }

  ghost predicate Allowed(env: Env, w: World, inc: Incoming) {
    Asks(env, inc) && RateLimit.AllowStep(env.limits, w.limiter, LimiterCall(inc)).1
  }

  /** The arrival at the replay window of one request, if it gets that far. */
  ghost function AttemptsOf(env: Env, w: World, inc: Incoming): seq<Replay.Attempt>
    requires Signing.HashIsHex(env.crypto)
  {
    if !Allowed(env, w, inc) then []
    else
      var (i, n) := Triage(env, inc).value;
      match ArrivalOf(env, inc, env.routes[i], n)
      case None => []
      case Some(a) => [a]
  }

  ghost function Calls(env: Env, incs: seq<Incoming>): seq<RateLimit.Call> {
    if incs == [] then [] else Calls(env, incs[..|incs| - 1]) + CallOf(env, incs[|incs| - 1])
  }

  ghost function Attempts(env: Env, incs: seq<Incoming>): seq<Replay.Attempt>
    requires Signing.HashIsHex(env.crypto)
  {
    if incs == [] then []
    else
      var before := incs[..|incs| - 1];
      Attempts(env, before) + AttemptsOf(env, After(env, before), incs[|incs| - 1])
  }

  lemma StepSeenByLimiter(env: Env, w: World, inc: Incoming)
    requires Signing.HashIsHex(env.crypto)
    ensures Step(env, w, inc).0.limiter
         == if Asks(env, inc) then RateLimit.AllowStep(env.limits, w.limiter, LimiterCall(inc)).0 else w.limiter
  {
  }

  lemma StepSeenByWindow(env: Env, w: World, inc: Incoming, attempts: seq<Replay.Attempt>)
    requires Signing.HashIsHex(env.crypto) && attempts == AttemptsOf(env, w, inc)
    ensures Step(env, w, inc).0.nonces
         == if attempts == [] then w.nonces else Replay.Arrive(env.policy.window, w.nonces, attempts[0]).0
    ensures attempts != [] ==> Allowed(env, w, inc) && attempts[0].now == inc.wall
  {
  }

  lemma StepReads(env: Env, w: World, inc: Incoming)
    requires Signing.HashIsHex(env.crypto)
    ensures Step(env, w, inc).2 > 0 ==> Allowed(env, w, inc) && Step(env, w, inc).2 <= env.maxRequestBytes
  {
  }

  /** One request seen by the limiter and by the replay window. */
  lemma StepSeen(env: Env, w: World, inc: Incoming)
    requires Signing.HashIsHex(env.crypto)
    ensures var w' := Step(env, w, inc).0;
      && w'.limiter == (if Asks(env, inc) then RateLimit.AllowStep(env.limits, w.limiter, LimiterCall(inc)).0 else w.limiter)
      && w'.nonces == (if AttemptsOf(env, w, inc) == [] then w.nonces
                       else Replay.Arrive(env.policy.window, w.nonces, AttemptsOf(env, w, inc)[0]).0)
      && (AttemptsOf(env, w, inc) != [] ==> Allowed(env, w, inc) && AttemptsOf(env, w, inc)[0].now == inc.wall)
      && (Step(env, w, inc).2 > 0 ==> Allowed(env, w, inc) && Step(env, w, inc).2 <= env.maxRequestBytes)
  {
    StepSeenByLimiter(env, w, inc);
    StepSeenByWindow(env, w, inc, AttemptsOf(env, w, inc));
    StepReads(env, w, inc);
  }

  /** The dispatcher's limiter and nonce table are those of the calls and arrivals it lets through. */
  lemma {:induction false} DispatchRefines(env: Env, incs: seq<Incoming>)
    requires Signing.HashIsHex(env.crypto)
    ensures After(env, incs).limiter == RateLimit.Run(env.limits, RateLimit.Initial(env.limits), Calls(env, incs))
    ensures After(env, incs).nonces == Replay.Run(env.policy.window, Attempts(env, incs))
  {
    if incs != [] {
      var before, inc := incs[..|incs| - 1], incs[|incs| - 1];
      DispatchRefines(env, before);
      var w := After(env, before);
      StepSeen(env, w, inc);
      if Asks(env, inc) {
        RateLimit.RunSnoc(env.limits, RateLimit.Initial(env.limits), Calls(env, before), LimiterCall(inc));
      } else {
        assert Calls(env, before) + [] == Calls(env, before);
      }
      var a := AttemptsOf(env, w, inc);
      if a == [] {
        assert Attempts(env, before) + [] == Attempts(env, before);
      } else {
        assert (Attempts(env, before) + [a[0]])[..|Attempts(env, before)|] == Attempts(env, before);
      }
    }
  }

  /** Requests from position `from` on that the limiter let through. */
  ghost function GrantedFrom(env: Env, incs: seq<Incoming>, from: nat): nat
    requires Signing.HashIsHex(env.crypto) && from <= |incs|
  {
    Admission.Granted(env.limits, After(env, incs[..from]).limiter, Calls(env, incs[from..]))
  }

  lemma {:induction false} CallsConcat(env: Env, a: seq<Incoming>, b: seq<Incoming>)
    ensures Calls(env, a + b) == Calls(env, a) + Calls(env, b)
  {
    if b == [] {
      assert a + b == a;
    } else {
      assert (a + b)[..|a + b| - 1] == a + b[..|b| - 1];
      CallsConcat(env, a, b[..|b| - 1]);
    }
  }

  lemma GrantedSnoc(env: Env, incs: seq<Incoming>, from: nat)
    requires Signing.HashIsHex(env.crypto) && from < |incs|
    ensures var before := incs[..|incs| - 1];
      GrantedFrom(env, incs, from)
      == GrantedFrom(env, before, from) + if Allowed(env, After(env, before), incs[|incs| - 1]) then 1 else 0
  {
    var before, inc := incs[..|incs| - 1], incs[|incs| - 1];
    SplitBeforeLast(incs, from);
    CallsConcat(env, before[..from], before[from..]);
    DispatchRefines(env, before);
    DispatchRefines(env, before[..from]);
    var early, late := Calls(env, before[..from]), Calls(env, before[from..]);
    RateLimit.RunConcat(env.limits, RateLimit.Initial(env.limits), early, late);
    if Asks(env, inc) {
      assert Calls(env, incs[from..]) == late + [LimiterCall(inc)];
      assert (late + [LimiterCall(inc)])[..|late|] == late;
    } else {
      assert Calls(env, incs[from..]) == late + [];
      assert late + [] == late;
    }
  }

  // ---- the nonce table ----------------------------------------------------

  /**
   One clock that never goes back: the wall clock is its whole seconds, read no earlier than the
   limiter's and at most `gap` seconds later, once the body is there.
   */
  ghost predicate SingleClock(incs: seq<Incoming>, offset: int, gap: real) {
    && (forall i :: 0 <= i < |incs| ==> incs[i].mono.Floor + offset <= incs[i].wall <= (incs[i].mono + gap).Floor + offset)
    && (forall i, j :: 0 <= i < j < |incs| ==> incs[i].mono <= incs[j].mono)
  }

  /** No row outlives the window of the last request that could have written it. */
  ghost predicate Expired(w: World, n: int) {
    forall p :: p in w.nonces ==> w.nonces[p] <= n
  }

  lemma {:induction false} EarlyRowsExpired(env: Env, incs: seq<Incoming>, n: int)
    requires Signing.HashIsHex(env.crypto)
    requires forall i :: 0 <= i < |incs| ==> incs[i].wall + env.policy.window <= n
    ensures Expired(After(env, incs), n)
  {
    if incs != [] {
      EarlyRowsExpired(env, incs[..|incs| - 1], n);
      StepSeen(env, After(env, incs[..|incs| - 1]), incs[|incs| - 1]);
    }
  }

  /** An arrival adds at most one row to what a purge at `n` would leave. */
  lemma ArrivalAddsOne(window: int, t: Replay.Table, a: Replay.Attempt, n: int)
    ensures |Replay.Purged(Replay.Arrive(window, t, a).0, n)| <= |Replay.Purged(t, n)| + 1
  {
    var kept, kept' := Replay.Purged(t, n), Replay.Purged(Replay.Arrive(window, t, a).0, n);
    SubsetSize(kept'.Keys, kept.Keys + {a.pair});
    if a.pair in kept {
      assert kept.Keys + {a.pair} == kept.Keys;
    }
  }

  /** Rows alive at `n` were written by requests let through since the first whose window reaches past `n`. */
  lemma {:induction false} RowsWereGranted(env: Env, incs: seq<Incoming>, from: nat, n: int)
    requires Signing.HashIsHex(env.crypto) && from <= |incs|
    requires forall i :: 0 <= i < from ==> incs[i].wall + env.policy.window <= n
    ensures |Replay.Purged(After(env, incs).nonces, n)| <= GrantedFrom(env, incs, from)
  {
    if from == |incs| {
      assert incs[..from] == incs;
      EarlyRowsExpired(env, incs, n);
      assert Replay.Purged(After(env, incs).nonces, n) == map[];
    } else {
      var before, inc := incs[..|incs| - 1], incs[|incs| - 1];
      RowsWereGranted(env, before, from, n);
      GrantedSnoc(env, incs, from);
      var w := After(env, before);
      StepSeen(env, w, inc);
      if AttemptsOf(env, w, inc) != [] {
        ArrivalAddsOne(env.policy.window, w.nonces, AttemptsOf(env, w, inc)[0], n);
      }
    }
  }

  lemma {:induction false} CallsInOrder(env: Env, incs: seq<Incoming>)
    requires forall i, j :: 0 <= i < j < |incs| ==> incs[i].mono <= incs[j].mono
    ensures Admission.NonDecreasing(Calls(env, incs))
    ensures forall k :: 0 <= k < |Calls(env, incs)| ==> incs != [] && incs[0].mono <= Calls(env, incs)[k].now <= incs[|incs| - 1].mono
  {
    if incs != [] {
      CallsInOrder(env, incs[..|incs| - 1]);
    }
  }

  lemma GrantedOver(limits: RateLimit.Config, history: seq<RateLimit.Call>, calls: seq<RateLimit.Call>, seconds: real)
    requires limits.globalRefillSecs > 0.0 && Admission.NonDecreasing(calls)
    requires calls != [] && calls[|calls| - 1].now - calls[0].now <= seconds
    ensures Admission.Granted(limits, RateLimit.Run(limits, RateLimit.Initial(limits), history), calls) as real
         <= Admission.Ceiling(limits.globalBurst, limits.globalRefillSecs, seconds)
  {
    var took := calls[|calls| - 1].now - calls[0].now;
    Admission.AdmissionBoundByDuration(limits, history, calls, took);
    Admission.CeilingMonotone(limits.globalBurst, limits.globalRefillSecs, took, seconds);
  }

  /** In `seconds` of a clock that never goes back, at most one global burst plus the refill gets through. */
  lemma GrantedWithin(env: Env, incs: seq<Incoming>, from: nat, seconds: real)
    requires Signing.HashIsHex(env.crypto) && env.limits.globalRefillSecs > 0.0
    requires from < |incs| && incs[|incs| - 1].mono - incs[from].mono <= seconds
    requires forall i, j :: 0 <= i < j < |incs| ==> incs[i].mono <= incs[j].mono
    ensures GrantedFrom(env, incs, from) as real <= Admission.Ceiling(env.limits.globalBurst, env.limits.globalRefillSecs, seconds)
  {
    var late := incs[from..];
    assert late[0] == incs[from] && late[|late| - 1] == incs[|incs| - 1];
    CallsInOrder(env, late);
    DispatchRefines(env, incs[..from]);
    if Calls(env, late) == [] {
      Admission.CeilingMonotone(env.limits.globalBurst, env.limits.globalRefillSecs, 0.0, seconds);
    } else {
      GrantedOver(env.limits, Calls(env, incs[..from]), Calls(env, late), seconds);
    }
  }

  lemma FirstAlive(incs: seq<Incoming>, window: int, n: int) returns (from: nat)
    requires incs != [] && window >= 1 && incs[|incs| - 1].wall == n
    ensures from < |incs| && incs[from].wall + window > n
    ensures forall i :: 0 <= i < from ==> incs[i].wall + window <= n
  {
    from := 0;
    while incs[from].wall + window <= n
      invariant from < |incs|
      invariant forall i :: 0 <= i < from ==> incs[i].wall + window <= n
      decreases |incs| - from
    {
      from := from + 1;
    }
  }

  /** Rounding down to whole seconds hides less than one second. */
  lemma FloorGap(a: real, b: real, window: int)
    requires b.Floor < a.Floor + window
    ensures b - a <= window as real
  {
  }

  lemma PurgedAfterArrival(window: int, t: Replay.Table, a: Replay.Attempt)
    requires window >= 1
    ensures var t' := Replay.Arrive(window, t, a).0; t' == t || Replay.Purged(t', a.now) == t'
  {
  }

  /**
   The nonce table never holds more rows than one global burst plus the refill of one window and
   the gap between the two clock reads: every row's request passed the limiter no earlier.
   */
  lemma {:induction false} NonceTableBounded(env: Env, incs: seq<Incoming>, offset: int, gap: real, span: real)
    requires Signing.HashIsHex(env.crypto) && env.limits.globalRefillSecs > 0.0 && env.policy.window >= 1
    requires SingleClock(incs, offset, gap) && gap >= 0.0 && span == env.policy.window as real + gap
    ensures |After(env, incs).nonces| as real <= Admission.Ceiling(env.limits.globalBurst, env.limits.globalRefillSecs, span)
  {
    if incs == [] {
      Admission.CeilingMonotone(env.limits.globalBurst, env.limits.globalRefillSecs, 0.0, span);
    } else {
      var before, inc := incs[..|incs| - 1], incs[|incs| - 1];
      var w, w', n := After(env, before), After(env, incs), inc.wall;
      StepSeen(env, w, inc);
      if w'.nonces == w.nonces {
        NonceTableBounded(env, before, offset, gap, span);
      } else {
        PurgedAfterArrival(env.policy.window, w.nonces, AttemptsOf(env, w, inc)[0]);
        var from := FirstAlive(incs, env.policy.window, n);
        RowsWereGranted(env, incs, from, n);
        FloorGap(incs[from].mono + gap, inc.mono, env.policy.window);
        GrantedWithin(env, incs, from, span);
      }
    }
  }

  // ---- body bytes ---------------------------------------------------------

  /** Body bytes read for the requests from position `from` on. */
  ghost function BytesFrom(env: Env, incs: seq<Incoming>, from: nat): nat
    requires Signing.HashIsHex(env.crypto)
  {
    if |incs| <= from then 0
    else
      var before := incs[..|incs| - 1];
      BytesFrom(env, before, from) + Step(env, After(env, before), incs[|incs| - 1]).2
  }

  /** `m` added up `k` times. */
  function Repeated(m: nat, k: nat): nat {
    if k == 0 then 0 else Repeated(m, k - 1) + m
  }

  lemma {:induction false} RepeatedIsProduct(m: nat, k: nat)
    ensures Repeated(m, k) == m * k
  {
    if k > 0 {
      RepeatedIsProduct(m, k - 1);
      assert m * k == m * (k - 1) + m;
    }
  }

  lemma SumStep(m: nat, b: nat, k: nat, g: nat, k': nat)
    requires b <= Repeated(m, k) && g <= m && k' <= k + 1 && k' >= if g > 0 then k + 1 else k
    ensures b + g <= Repeated(m, k')
  {
  }

  lemma BytesSnoc(env: Env, incs: seq<Incoming>, from: nat) returns (g: nat)
    requires Signing.HashIsHex(env.crypto) && from < |incs| && env.maxRequestBytes >= 0
    ensures var before := incs[..|incs| - 1];
      && BytesFrom(env, incs, from) == BytesFrom(env, before, from) + g
      && g <= env.maxRequestBytes && (g > 0 ==> Allowed(env, After(env, before), incs[|incs| - 1]))
  {
    var before := incs[..|incs| - 1];
    StepSeen(env, After(env, before), incs[|incs| - 1]);
    g := Step(env, After(env, before), incs[|incs| - 1]).2;
  }

  /** The bytes read for the requests from `from` on, given how many of them were let through. */
  lemma {:induction false} BytesCharged(env: Env, incs: seq<Incoming>, from: nat, k: nat)
    requires Signing.HashIsHex(env.crypto) && from <= |incs| && env.maxRequestBytes >= 0
    requires k == GrantedFrom(env, incs, from)
    ensures BytesFrom(env, incs, from) <= Repeated(env.maxRequestBytes, k)
  {
    if from < |incs| {
      var before := incs[..|incs| - 1];
      var k' := GrantedFrom(env, before, from);
      GrantedSnoc(env, incs, from);
      var ok := Allowed(env, After(env, before), incs[|incs| - 1]);
      assert k == k' + if ok then 1 else 0;
      BytesCharged(env, before, from, k');
      var g := BytesSnoc(env, incs, from);
      SumStep(env.maxRequestBytes, BytesFrom(env, before, from), k', g, k);
    }
  }

  /** No body byte is read for a request the limiter refused, and none beyond the ceiling for the others. */
  lemma BytesWereGranted(env: Env, incs: seq<Incoming>, from: nat)
    requires Signing.HashIsHex(env.crypto) && from <= |incs| && env.maxRequestBytes >= 0
    ensures BytesFrom(env, incs, from) <= env.maxRequestBytes * GrantedFrom(env, incs, from)
  {
    BytesCharged(env, incs, from, GrantedFrom(env, incs, from));
    RepeatedIsProduct(env.maxRequestBytes, GrantedFrom(env, incs, from));
  }
}
