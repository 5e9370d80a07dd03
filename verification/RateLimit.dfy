/**
 The token-bucket limiter: one bucket per address in a bounded table that forgets
 the least recently used address, and one bucket across all of them.

 The value functions say what a call does to the limiter; the class below them is
 the limiter as the daemon keeps it, with bucket objects updated in place.
 */
module RateLimit {
  import opened Common

  type Address = string

  datatype BucketState = BucketState(tokens: real, last: real)

  datatype Config = Config(slots: int, burst: real, refillSecs: real, globalBurst: real, globalRefillSecs: real) {
    function Capacity(): nat {
      if slots < 1 then 1 else slots
    }
  }

  datatype Call = Call(ip: Address, now: real)

  /** `order` is the key order of the dictionary, least recently used first. */
  datatype State = State(table: map<Address, BucketState>, order: seq<Address>, global: BucketState, started: bool)

  function Initial(cfg: Config): State {
    State(map[], [], BucketState(cfg.globalBurst, 0.0), false)
  }

  function Refill(b: BucketState, now: real, burst: real, refillSecs: real): BucketState {
    if refillSecs <= 0.0 then BucketState(burst, now)
    else BucketState(MinReal(burst, b.tokens + MaxReal(0.0, now - b.last) / refillSecs), now)
  }

  /** Refills and, when both buckets hold a token, spends one of each. */
  function Charge(cfg: Config, b: BucketState, g: BucketState, now: real): (BucketState, BucketState, bool) {
    var b1 := Refill(b, now, cfg.burst, cfg.refillSecs);
    if b1.tokens < 1.0 then (b1, g, false)
    else
      var g1 := Refill(g, now, cfg.globalBurst, cfg.globalRefillSecs);
      if g1.tokens < 1.0 then (b1, g1, false)
      else (b1.(tokens := b1.tokens - 1.0), g1.(tokens := g1.tokens - 1.0), true)
  }

  function StartGlobal(g: BucketState, started: bool, now: real): BucketState {
    if started then g else g.(last := now)
  }

  /** The addresses kept once `ip` has been given its slot at the recent end. */
  function Admit(cfg: Config, order: seq<Address>, ip: Address): seq<Address> {
    if ip in order then Without(order, ip) + [ip]
    else if |order| >= cfg.Capacity() then order[1..] + [ip]
    else order + [ip]
  }

  function AllowStep(cfg: Config, s: State, c: Call): (State, bool) {
    var g := StartGlobal(s.global, s.started, c.now);
    var b := if c.ip in s.table then s.table[c.ip] else BucketState(cfg.burst, c.now);
    var (b', g', ok) := Charge(cfg, b, g, c.now);
    var order := Admit(cfg, s.order, c.ip);
    (State(map a | a in order && (a in s.table || a == c.ip) :: if a == c.ip then b' else s.table[a], order, g', true), ok)
  }

  function Run(cfg: Config, s: State, calls: seq<Call>): State {
    if calls == [] then s
    else AllowStep(cfg, Run(cfg, s, calls[..|calls| - 1]), calls[|calls| - 1]).0
  }

  /** The answers given, call by call. */
  function Answers(cfg: Config, s: State, calls: seq<Call>): (r: seq<bool>)
    ensures |r| == |calls|
  {
    if calls == [] then []
    else
      var before := calls[..|calls| - 1];
      Answers(cfg, s, before) + [AllowStep(cfg, Run(cfg, s, before), calls[|calls| - 1]).1]
  }

  ghost predicate WellFormed(cfg: Config, s: State) {
    && Distinct(s.order)
    && |s.order| <= cfg.Capacity()
    && (forall a :: a in s.table <==> a in s.order)
  }

  /** Two runs one after the other are one run. */
  lemma {:induction false} RunConcat(cfg: Config, s: State, a: seq<Call>, b: seq<Call>)
    ensures Run(cfg, s, a + b) == Run(cfg, Run(cfg, s, a), b)
    ensures Answers(cfg, s, a + b) == Answers(cfg, s, a) + Answers(cfg, Run(cfg, s, a), b)
  {
    if b == [] {
      assert a + b == a;
    } else {
      var b' := b[..|b| - 1];
      assert (a + b)[..|a + b| - 1] == a + b';
      RunConcat(cfg, s, a, b');
    }
  }

  lemma RunSnoc(cfg: Config, s: State, calls: seq<Call>, c: Call)
    ensures Run(cfg, s, calls + [c]) == AllowStep(cfg, Run(cfg, s, calls), c).0
    ensures Answers(cfg, s, calls + [c]) == Answers(cfg, s, calls) + [AllowStep(cfg, Run(cfg, s, calls), c).1]
  {
    assert (calls + [c])[..|calls + [c]| - 1] == calls;
  }

  /** A state agreeing slot by slot with the step's result is that result. */
  lemma StepMatches(cfg: Config, s: State, c: Call, after: State, ok: bool)
    requires forall a :: a in s.table <==> a in s.order
    requires after.order == Admit(cfg, s.order, c.ip) && after.started
    requires forall a :: a in after.table <==> a in after.order
    requires c.ip in after.table
    requires forall a :: a in after.table && a != c.ip ==> a in s.table && after.table[a] == s.table[a]
    requires (after.table[c.ip], after.global, ok)
          == Charge(cfg, if c.ip in s.table then s.table[c.ip] else BucketState(cfg.burst, c.now),
                    StartGlobal(s.global, s.started, c.now), c.now)
    ensures (after, ok) == AllowStep(cfg, s, c)
  {
    assert after.table == AllowStep(cfg, s, c).0.table;
  }

  lemma AdmitKeepsDistinct(cfg: Config, order: seq<Address>, ip: Address)
    requires Distinct(order) && |order| <= cfg.Capacity()
    ensures Distinct(Admit(cfg, order, ip)) && |Admit(cfg, order, ip)| <= cfg.Capacity()
    ensures forall a :: a in Admit(cfg, order, ip) ==> a in order || a == ip
  {
    if ip in order {
      var i :| 0 <= i < |order| && order[i] == ip;
      WithoutAt(order, i);
    }
  }

  lemma StepWellFormed(cfg: Config, s: State, c: Call)
    requires WellFormed(cfg, s)
    ensures WellFormed(cfg, AllowStep(cfg, s, c).0)
  {
    AdmitKeepsDistinct(cfg, s.order, c.ip);
  }

  lemma {:induction false} RunWellFormed(cfg: Config, s: State, calls: seq<Call>)
    requires WellFormed(cfg, s)
    ensures WellFormed(cfg, Run(cfg, s, calls))
  {
    if calls != [] {
      RunWellFormed(cfg, s, calls[..|calls| - 1]);
      StepWellFormed(cfg, Run(cfg, s, calls[..|calls| - 1]), calls[|calls| - 1]);
    }
  }

  /** Without a refill time a bucket is full whenever it is looked at, so a burst of one or more never refuses. */
  lemma NoRefillTimeNeverRefuses(cfg: Config, s: State, c: Call)
    requires cfg.refillSecs <= 0.0 && cfg.globalRefillSecs <= 0.0 && cfg.burst >= 1.0 && cfg.globalBurst >= 1.0
    ensures AllowStep(cfg, s, c).1
  {
  }

  class Bucket {
    var tokens: real
    var last: real

    constructor (tokens: real, last: real)
      ensures View() == BucketState(tokens, last)
    {
      this.tokens, this.last := tokens, last;
    }

    ghost function View(): BucketState
      reads this
    {
      BucketState(tokens, last)
    }
  }

  class TokenBucketLimiter {
    const cfg: Config
    var buckets: map<Address, Bucket>
    var order: seq<Address>
    var globalBucket: Bucket
    var globalStarted: bool
    ghost var trace: seq<Call>  // every call so far, refused ones included

    /** Keys and recency list agree, and no two slots share a bucket object. */
    ghost predicate Shape()
      reads `buckets, `order, `globalBucket
    {
      && Distinct(order)
      && |order| <= cfg.Capacity()
      && (forall a :: a in buckets <==> a in order)
      && globalBucket !in buckets.Values
      && (forall a, b :: a in buckets && b in buckets && buckets[a] == buckets[b] ==> a == b)
    }

    ghost predicate Valid()
      reads this, buckets.Values, globalBucket
    {
      Shape() && View() == Run(cfg, Initial(cfg), trace)
    }

    ghost function View(): State
      reads `buckets, `order, `globalBucket, `globalStarted, buckets.Values, globalBucket
    {
      State(map a | a in buckets :: buckets[a].View(), order, globalBucket.View(), globalStarted)
    }

    constructor (slots: int, burst: int, refillSecs: real, globalBurst: int, globalRefillSecs: real)
      ensures cfg == Config(slots, burst as real, refillSecs, globalBurst as real, globalRefillSecs)
      ensures Valid() && trace == [] && buckets == map[] && fresh(globalBucket)
    {
      cfg := Config(slots, burst as real, refillSecs, globalBurst as real, globalRefillSecs);
      buckets, order := map[], [];
      globalBucket := new Bucket(globalBurst as real, 0.0);
      globalStarted := false;
      trace := [];
      new;
      assert View() == Initial(cfg);
    }

    method Tracked() returns (n: nat)
      requires Valid()
      ensures n == |Run(cfg, Initial(cfg), trace).table| && n <= cfg.Capacity()
    {
      n := |buckets|;
      assert buckets.Keys == Run(cfg, Initial(cfg), trace).table.Keys;
      DistinctSize(order);
      assert buckets.Keys == Elements(order);
    }

    static method RefillBucket(bucket: Bucket, now: real, burst: real, refillSecs: real)
      modifies bucket
      ensures bucket.View() == Refill(old(bucket.View()), now, burst, refillSecs)
    {
      if refillSecs <= 0.0 {
        bucket.tokens := burst;
      } else {
        var elapsed := MaxReal(0.0, now - bucket.last);
        bucket.tokens := MinReal(burst, bucket.tokens + elapsed / refillSecs);
      }
      bucket.last := now;
    }

    /** Drops the least recently used address when the table is full. */
    method MakeRoom()
      requires Shape()
      modifies this`buckets, this`order
      ensures Shape() && |order| < cfg.Capacity()
      ensures order == if |old(order)| >= cfg.Capacity() then old(order)[1..] else old(order)
      ensures forall a :: a in buckets ==> a in old(buckets) && buckets[a] == old(buckets)[a]
    {
      DistinctSize(order);
      assert buckets.Keys == Elements(order);
      if |buckets| >= cfg.Capacity() {
        buckets := buckets - {order[0]};
        order := order[1..];
      }
    }

    /** Finds or makes the address's bucket and moves it to the recent end of the table. */
    method Slot(ip: Address, now: real) returns (bucket: Bucket)
      requires Shape()
      modifies this`buckets, this`order
      ensures Shape() && order == Admit(cfg, old(order), ip)
      ensures ip in buckets && buckets[ip] == bucket
      ensures forall a :: a in buckets && a != ip ==> a in old(buckets) && buckets[a] == old(buckets)[a]
      ensures ip in old(buckets) ==> bucket == old(buckets)[ip]
      ensures ip !in old(buckets) ==> fresh(bucket) && bucket.View() == BucketState(cfg.burst, now)
      ensures fresh(buckets.Values - old(buckets.Values))
    {
      AdmitKeepsDistinct(cfg, order, ip);
      if ip in buckets {
        bucket := buckets[ip];
      } else {
        MakeRoom();
        bucket := new Bucket(cfg.burst, now);
        buckets := buckets[ip := bucket];
        order := order + [ip];
        WithoutAt(order, |order| - 1);
      }
      order := Without(order, ip) + [ip];
    }

    /** The address bucket first; the global one only when that still holds a token. */
    method Spend(bucket: Bucket, now: real) returns (ok: bool)
      requires bucket != globalBucket
      modifies bucket, globalBucket
      ensures (bucket.View(), globalBucket.View(), ok) == Charge(cfg, old(bucket.View()), old(globalBucket.View()), now)
    {
      RefillBucket(bucket, now, cfg.burst, cfg.refillSecs);
      if bucket.tokens < 1.0 {
        return false;
      }
      RefillBucket(globalBucket, now, cfg.globalBurst, cfg.globalRefillSecs);
      if globalBucket.tokens < 1.0 {
        return false;
      }
      bucket.tokens := bucket.tokens - 1.0;
      globalBucket.tokens := globalBucket.tokens - 1.0;
      return true;
    }

    /** The global bucket's clock starts at the first call, not at construction. */
    method StartClock(now: real)
      modifies this`globalStarted, globalBucket
      ensures globalStarted
      ensures globalBucket.View() == StartGlobal(old(globalBucket.View()), old(globalStarted), now)
    {
      if !globalStarted {
        globalBucket.last := now;
        globalStarted := true;
      }
    }

    /** The call's effect, slot by slot. */
    method Decide(ip: Address, now: real) returns (ok: bool)
      requires Shape()
      modifies this`buckets, this`order, this`globalStarted, buckets.Values, globalBucket
      ensures Shape() && globalStarted && order == Admit(cfg, old(order), ip)
      ensures ip in buckets
      ensures forall a :: a in buckets && a != ip ==> a in old(buckets) && buckets[a] == old(buckets)[a]
      ensures forall a :: a in buckets && a != ip ==> buckets[a].View() == old(buckets[a].View())
      ensures (buckets[ip].View(), globalBucket.View(), ok)
           == Charge(cfg, if ip in old(buckets) then old(buckets[ip].View()) else BucketState(cfg.burst, now),
                     StartGlobal(old(globalBucket.View()), old(globalStarted), now), now)
      ensures fresh(buckets.Values - old(buckets.Values))
    {
      StartClock(now);
      var bucket := Slot(ip, now);
      ok := Spend(bucket, now);
    }

    method Answer(ip: Address, now: real) returns (ok: bool)
      requires Shape()
      modifies this`buckets, this`order, this`globalStarted, buckets.Values, globalBucket
      ensures Shape() && fresh(buckets.Values - old(buckets.Values))
      ensures (View(), ok) == AllowStep(cfg, old(View()), Call(ip, now))
    {
      ghost var before := View();
      ok := Decide(ip, now);
      StepMatches(cfg, before, Call(ip, now), View(), ok);
    }

    method Allow(ip: Address, now: real) returns (ok: bool)
      requires Valid()
      modifies this`buckets, this`order, this`globalStarted, this`trace, buckets.Values, globalBucket
      ensures Valid() && trace == old(trace) + [Call(ip, now)]
      ensures (View(), ok) == AllowStep(cfg, old(View()), Call(ip, now))
      ensures fresh(buckets.Values - old(buckets.Values))
    {
      RunSnoc(cfg, Initial(cfg), trace, Call(ip, now));
      ok := Answer(ip, now);
      trace := trace + [Call(ip, now)];
    }
  }
}
