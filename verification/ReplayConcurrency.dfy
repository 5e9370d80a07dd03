/**
 The replay window with any number of workers: reading the clock, purging and inserting
 are three separate steps, and the database connection opens no transaction around them.
 A worker that crashes simply takes no further step.
 */
module ReplayConcurrency {
  import opened Common
  import opened Replay

  datatype Request = Request(pair: Pair, ts: int)

  /** A verified request and the clock its worker read. */
  datatype Work = Work(req: Request, read: int)

  datatype Phase = ToPurge(work: Work) | ToInsert(work: Work)

  datatype System = System(clock: int, table: Table, workers: map<nat, Phase>, accepted: seq<Work>)

  datatype Step = Tick(to: int) | Begin(w: nat, req: Request) | Purge(w: nat) | Insert(w: nat)

  /** `window` seconds of replay window; a worker purges and inserts within `delay` of its clock read. */
  datatype Params = Params(window: int, delay: nat)

  ghost predicate Enabled(c: Params, s: System, step: Step) {
    match step
    case Tick(to) => s.clock <= to
    case Begin(w, req) => w !in s.workers && Abs(s.clock - req.ts) <= c.window
    case Purge(w) => w in s.workers && s.workers[w].ToPurge? && s.clock <= s.workers[w].work.read + c.delay
    case Insert(w) => w in s.workers && s.workers[w].ToInsert? && s.clock <= s.workers[w].work.read + c.delay
  }

  function Next(c: Params, s: System, step: Step): System {
    match step
    case Tick(to) => s.(clock := to)
    case Begin(w, req) => s.(workers := s.workers[w := ToPurge(Work(req, s.clock))])
    case Purge(w) =>
      if w !in s.workers then s else
      var work := s.workers[w].work;
      s.(table := Purged(s.table, work.read), workers := s.workers[w := ToInsert(work)])
    case Insert(w) =>
      if w !in s.workers then s else
      var work := s.workers[w].work;
      var idle := s.workers - {w};
      if work.req.pair in s.table then s.(workers := idle)
      else s.(table := s.table[work.req.pair := work.read + c.window], workers := idle, accepted := s.accepted + [work])
  }

  function Start(clock: int): System {
    System(clock, map[], map[], [])
  }

  function RunFrom(c: Params, s: System, steps: seq<Step>): System
    decreases |steps|
  {
    if steps == [] then s else RunFrom(c, Next(c, s, steps[0]), steps[1..])
  }

  ghost predicate Possible(c: Params, s: System, steps: seq<Step>)
    decreases |steps|
  {
    steps == [] || (Enabled(c, s, steps[0]) && Possible(c, Next(c, s, steps[0]), steps[1..]))
  }

  ghost predicate Timely(c: Params, work: Work, clock: int) {
    Abs(work.read - work.req.ts) <= c.window && work.read <= clock
  }

  /** The pair of an acceptance is still on record with its own expiry, or its window is over. */
  ghost predicate Guarded(c: Params, s: System, work: Work) {
    || s.clock >= work.read + c.window
    || (work.req.pair in s.table && s.table[work.req.pair] == work.read + c.window)
  }

  ghost predicate Invariant(c: Params, s: System) {
    && (forall w :: w in s.workers ==> Timely(c, s.workers[w].work, s.clock))
    && (forall a :: a in s.accepted ==> Timely(c, a, s.clock) && Guarded(c, s, a))
    && (forall i, j :: 0 <= i < j < |s.accepted| && s.accepted[i].req.pair == s.accepted[j].req.pair
          ==> s.accepted[i].read + c.window <= s.accepted[j].read + c.delay)
  }

  lemma StepKeepsInvariant(c: Params, s: System, step: Step)
    requires Invariant(c, s) && Enabled(c, s, step)
    ensures Invariant(c, Next(c, s, step))
  {
    if step.Insert? {
      var log, log' := s.accepted, Next(c, s, step).accepted;
      forall i, j | 0 <= i < j < |log'| && log'[i].req.pair == log'[j].req.pair
        ensures log'[i].read + c.window <= log'[j].read + c.delay
      {
        assert log[i] in log;
      }
    }
  }

  lemma {:induction false} RunKeepsInvariant(c: Params, s: System, steps: seq<Step>)
    requires Invariant(c, s) && Possible(c, s, steps)
    ensures Invariant(c, RunFrom(c, s, steps))
    decreases |steps|
  {
    if steps != [] {
      StepKeepsInvariant(c, s, steps[0]);
      RunKeepsInvariant(c, Next(c, s, steps[0]), steps[1..]);
    }
  }

  /**
   In any interleaving, a request accepted twice carries a timestamp no more than `delay` before
   the clock read of the earlier insert, and the two reads are a window apart, less the delay.
   */
  lemma AcceptedTwiceConcurrently(c: Params, clock: int, steps: seq<Step>, i: nat, j: nat)
    requires Possible(c, Start(clock), steps)
    requires var log := RunFrom(c, Start(clock), steps).accepted; i < j < |log| && log[i].req == log[j].req
    ensures var log := RunFrom(c, Start(clock), steps).accepted;
      && log[i].req.ts >= log[i].read - c.delay
      && log[i].read + c.window - c.delay <= log[j].read <= log[j].req.ts + c.window
  {
    RunKeepsInvariant(c, Start(clock), steps);
    var log := RunFrom(c, Start(clock), steps).accepted;
    assert log[j] in log;
  }

  /** Acceptances of one request in a log. */
  function Times(log: seq<Work>, req: Request): nat {
    if log == [] then 0 else Times(log[..|log| - 1], req) + if log[|log| - 1].req == req then 1 else 0
  }

  lemma {:induction false} TimesSpread(c: Params, log: seq<Work>, req: Request) returns (i: nat)
    requires Times(log, req) > 0
    requires forall a :: a in log ==> Abs(a.read - a.req.ts) <= c.window
    requires forall i, j :: 0 <= i < j < |log| && log[i].req.pair == log[j].req.pair ==> log[i].read + c.window <= log[j].read + c.delay
    ensures i < |log| && log[i].req == req
    ensures (Times(log, req) - 1) * (c.window - c.delay) <= log[i].read - (req.ts - c.window)
  {
    var n := |log| - 1;
    var k := Times(log[..n], req);
    if log[n].req == req {
      i := n;
      assert log[n] in log;
      if k > 0 {
        var last := TimesSpread(c, log[..n], req);
        assert log[last].read + c.window <= log[n].read + c.delay;
        MulSucc(k, c.window - c.delay);
      }
    } else {
      i := TimesSpread(c, log[..n], req);
    }
  }

  /**
   However the workers interleave, k acceptances of one request fit k - 1 windows, each less the
   delay, into the two windows around its timestamp. Without delay that is the limit of three.
   */
  lemma AcceptancesBounded(c: Params, clock: int, steps: seq<Step>, req: Request)
    requires Possible(c, Start(clock), steps)
    ensures var k := Times(RunFrom(c, Start(clock), steps).accepted, req);
      k > 0 ==> (k - 1) * (c.window - c.delay) <= 2 * c.window
  {
    RunKeepsInvariant(c, Start(clock), steps);
    var log := RunFrom(c, Start(clock), steps).accepted;
    if Times(log, req) > 0 {
      var i := TimesSpread(c, log, req);
      assert log[i] in log;
    }
  }

  lemma OneStep(c: Params, s: System, steps: seq<Step>)
    requires |steps| == 1
    ensures RunFrom(c, s, steps) == Next(c, s, steps[0])
    ensures Possible(c, s, steps) <==> Enabled(c, s, steps[0])
  {
    assert steps[1..] == [];
  }

  lemma TwoSteps(c: Params, s: System, steps: seq<Step>)
    requires |steps| >= 2
    ensures var s' := Next(c, Next(c, s, steps[0]), steps[1]);
      && RunFrom(c, s, steps) == RunFrom(c, s', steps[2..])
      && (Possible(c, s, steps) <==>
            Enabled(c, s, steps[0]) && Enabled(c, Next(c, s, steps[0]), steps[1]) && Possible(c, s', steps[2..]))
  {
    assert steps[1..][0] == steps[1] && steps[1..][1..] == steps[2..];
  }

  lemma ThreeSteps(c: Params, s: System, steps: seq<Step>)
    requires |steps| >= 3
    ensures var s1 := Next(c, s, steps[0]); var s2 := Next(c, s1, steps[1]); var s3 := Next(c, s2, steps[2]);
      && RunFrom(c, s, steps) == RunFrom(c, s3, steps[3..])
      && (Possible(c, s, steps) <==>
            Enabled(c, s, steps[0]) && Enabled(c, s1, steps[1]) && Enabled(c, s2, steps[2]) && Possible(c, s3, steps[3..]))
  {
    TwoSteps(c, s, steps);
    assert steps[2..][0] == steps[2] && steps[2..][1..] == steps[3..];
  }

  /** A worker alone takes its three steps as one call of check_and_record. */
  lemma AloneIsOneCall(c: Params, s: System, w: nat, req: Request)
    requires Enabled(c, s, Begin(w, req))
    ensures var after := RunFrom(c, s, [Begin(w, req), Purge(w), Insert(w)]);
      var (t, ok) := Record(s.table, req.pair, s.clock, c.window);
      && Possible(c, s, [Begin(w, req), Purge(w), Insert(w)])
      && after.table == t && after.workers == s.workers
      && after.accepted == if ok then s.accepted + [Work(req, s.clock)] else s.accepted
  {
    var steps := [Begin(w, req), Purge(w), Insert(w)];
    ThreeSteps(c, s, steps);
    assert steps[3..] == [];
    assert RunFrom(c, s, steps).workers == s.workers;
  }

  /** Steps of worker 2 and of a purging worker 3, from a state where worker 1 has just recorded `p`. */
  function Overtaking(c: Params, p: Pair, q: Pair, n: int): seq<Step> {
    var req, other := Request(p, n - c.delay), Request(q, n + c.window);
    [Tick(n + c.window - c.delay), Begin(2, req), Purge(2), Tick(n + c.window), Begin(3, other), Purge(3), Insert(2)]
  }

  lemma OvertakingAccepts(c: Params, s: System, p: Pair, q: Pair, n: int)
    requires 1 <= c.window && c.delay <= c.window
    requires s.clock == n && s.table == map[p := n + c.window] && s.workers == map[]
    ensures Possible(c, s, Overtaking(c, p, q, n))
    ensures RunFrom(c, s, Overtaking(c, p, q, n)).accepted == s.accepted + [Work(Request(p, n - c.delay), n + c.window - c.delay)]
  {
    var steps := Overtaking(c, p, q, n);
    var s1 := Next(c, s, steps[0]);
    var s2 := Next(c, s1, steps[1]);
    var s3 := Next(c, s2, steps[2]);
    var s4 := Next(c, s3, steps[3]);
    var s5 := Next(c, s4, steps[4]);
    var s6 := Next(c, s5, steps[5]);
    assert p !in s6.table;
    ThreeSteps(c, s, steps);
    ThreeSteps(c, s3, steps[3..]);
    assert steps[3..][3..] == [steps[6]];
    OneStep(c, s6, [steps[6]]);
  }

  lemma {:induction false} RunThenRun(c: Params, s: System, a: seq<Step>, b: seq<Step>)
    ensures RunFrom(c, s, a + b) == RunFrom(c, RunFrom(c, s, a), b)
    ensures Possible(c, s, a + b) <==> Possible(c, s, a) && Possible(c, RunFrom(c, s, a), b)
    decreases |a|
  {
    if a == [] {
      assert a + b == b;
    } else {
      assert (a + b)[0] == a[0] && (a + b)[1..] == a[1..] + b;
      RunThenRun(c, Next(c, s, a[0]), a[1..], b);
    }
  }

  /** The bound on the timestamp is attained: a third worker purges between the second one's purge and insert. */
  lemma DelayAttained(c: Params, p: Pair, q: Pair, n: int)
    requires 1 <= c.window && c.delay <= c.window
    ensures exists steps ::
      && Possible(c, Start(n), steps)
      && RunFrom(c, Start(n), steps).accepted
         == [Work(Request(p, n - c.delay), n), Work(Request(p, n - c.delay), n + c.window - c.delay)]
  {
    var req := Request(p, n - c.delay);
    var first := [Begin(1, req), Purge(1), Insert(1)];
    AloneIsOneCall(c, Start(n), 1, req);
    var s := RunFrom(c, Start(n), first);
    assert s.clock == n by { ThreeSteps(c, Start(n), first); }
    OvertakingAccepts(c, s, p, q, n);
    RunThenRun(c, Start(n), first, Overtaking(c, p, q, n));
    assert [Work(req, n)] + [Work(req, n + c.window - c.delay)] == [Work(req, n), Work(req, n + c.window - c.delay)];
  }
}
