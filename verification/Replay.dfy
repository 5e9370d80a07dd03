/**
 The replay window: which (key, nonce) pairs are on record, and how often one signed
 request can be accepted when purge and insert run as one call.
 */
module Replay {
  import opened Common

  type Pair = (string, string)  // key, nonce

  /** Expiry by pair; the pair is the primary key. */
  type Table = map<Pair, int>

  function Purged(t: Table, now: int): Table {
    map p | p in t && t[p] > now :: t[p]
  }

  function Record(t: Table, p: Pair, now: int, window: int): (Table, bool) {
    var kept := Purged(t, now);
    if p in kept then (kept, false) else (kept[p := now + window], true)
  }

  class ReplayWindow {
    var nonces: Table

    constructor ()
      ensures nonces == map[]
    {
      nonces := map[];
    }

    method Purge(now: int) returns (removed: nat)
      modifies this
      ensures nonces == Purged(old(nonces), now)
      ensures forall p :: p in nonces <==> p in old(nonces) && old(nonces)[p] > now
      ensures forall p :: p in nonces ==> nonces[p] == old(nonces)[p]
      ensures removed == |old(nonces)| - |nonces|
    {
      var expired := set p | p in nonces && nonces[p] <= now;
      removed := |expired|;
      assert nonces.Keys == (nonces.Keys - expired) + expired;
      assert (nonces - expired).Keys == nonces.Keys - expired;
      nonces := nonces - expired;
      assert nonces == Purged(old(nonces), now);
    }

    /** Purges first; the primary key then refuses a pair still on record. */
    method CheckAndRecord(key: string, nonce: string, now: int, window: int) returns (accepted: bool)
      modifies this
      ensures (nonces, accepted) == Record(old(nonces), (key, nonce), now, window)
      ensures accepted <==> !((key, nonce) in old(nonces) && old(nonces)[(key, nonce)] > now)
      ensures forall p :: p in nonces <==> p == (key, nonce) || (p in old(nonces) && old(nonces)[p] > now)
      ensures forall p :: p in nonces ==>
        nonces[p] == if p in old(nonces) && old(nonces)[p] > now then old(nonces)[p] else now + window
    {
      var _ := Purge(now);
      if (key, nonce) in nonces {
        return false;
      }
      nonces := nonces[(key, nonce) := now + window];
      return true;
    }
  }

  /** One arrival of a signed request: `authentic` is the signature's verdict. */
  datatype Attempt = Attempt(pair: Pair, ts: int, authentic: bool, now: int)

  datatype Outcome = Stale | BadSignature | Replayed | Accepted

  /** Timestamp window, then signature, then nonce. */
  function Arrive(window: int, t: Table, e: Attempt): (Table, Outcome) {
    if Abs(e.now - e.ts) > window then (t, Stale)
    else if !e.authentic then (t, BadSignature)
    else
      var (t', isFresh) := Record(t, e.pair, e.now, window);
      (t', if isFresh then Accepted else Replayed)
  }

  function Run(window: int, events: seq<Attempt>): Table {
    if events == [] then map[]
    else Arrive(window, Run(window, events[..|events| - 1]), events[|events| - 1]).0
  }

  ghost predicate ClockOrder(events: seq<Attempt>) {
    forall i, j :: 0 <= i < j < |events| ==> events[i].now <= events[j].now
  }

  /** The clock has not passed `n` yet. */
  ghost predicate Until(events: seq<Attempt>, n: int) {
    ClockOrder(events) && forall i :: 0 <= i < |events| ==> events[i].now <= n
  }

  ghost predicate AcceptedAt(window: int, events: seq<Attempt>, i: nat) {
    i < |events| && Arrive(window, Run(window, events[..i]), events[i]).1 == Accepted
  }

  /** Event `i` recorded `p` less than a window before time `n`. */
  ghost predicate RecordedSince(window: int, events: seq<Attempt>, i: nat, p: Pair, n: int) {
    AcceptedAt(window, events, i) && events[i].pair == p && events[i].now + window > n
  }

  lemma AcceptedSnoc(window: int, before: seq<Attempt>, e: Attempt, i: nat)
    ensures i < |before| ==> (AcceptedAt(window, before + [e], i) <==> AcceptedAt(window, before, i))
    ensures AcceptedAt(window, before + [e], |before|) <==> Arrive(window, Run(window, before), e).1 == Accepted
  {
    assert (before + [e])[..|before|] == before;
    if i < |before| {
      assert (before + [e])[..i] == before[..i];
    }
  }

  /** Some event before position `upTo` recorded `p` less than a window before `n`. */
  ghost predicate OnRecord(window: int, events: seq<Attempt>, upTo: nat, p: Pair, n: int) {
    exists i: nat :: i < upTo && RecordedSince(window, events, i, p, n)
  }

  /** An arrival no later than `n` leaves the rows that outlive `n` as they are. */
  lemma ArriveKeeps(window: int, t: Table, e: Attempt, p: Pair, n: int)
    requires p in t && t[p] > n >= e.now
    ensures var t' := Arrive(window, t, e).0; p in t' && t'[p] == t[p]
  {
  }

  lemma ArriveRecords(window: int, t: Table, e: Attempt)
    requires Arrive(window, t, e).1 == Accepted
    ensures var t' := Arrive(window, t, e).0; e.pair in t' && t'[e.pair] == e.now + window
  {
  }

  /** A recorded pair stays on record, with its expiry, until its window has passed. */
  lemma {:induction false} RecordedIsKept(window: int, events: seq<Attempt>, i: nat, p: Pair, n: int)
    requires Until(events, n) && RecordedSince(window, events, i, p, n)
    ensures p in Purged(Run(window, events), n) && Run(window, events)[p] == events[i].now + window
  {
    var before, e := events[..|events| - 1], events[|events| - 1];
    assert events == before + [e];
    AcceptedSnoc(window, before, e, i);
    if i < |before| {
      RecordedIsKept(window, before, i, p, n);
      ArriveKeeps(window, Run(window, before), e, p, n);
    } else {
      ArriveRecords(window, Run(window, before), e);
    }
  }

  /** Nothing else is on record. */
  lemma {:induction false} KeptIsRecorded(window: int, events: seq<Attempt>, p: Pair, n: int) returns (i: nat)
    requires p in Purged(Run(window, events), n)
    ensures RecordedSince(window, events, i, p, n)
  {
    var before, e := events[..|events| - 1], events[|events| - 1];
    assert events == before + [e];
    if Arrive(window, Run(window, before), e).1 == Accepted && p == e.pair {
      i := |before|;
      AcceptedSnoc(window, before, e, i);
    } else {
      i := KeptIsRecorded(window, before, p, n);
      AcceptedSnoc(window, before, e, i);
    }
  }

  /** What a purge at time `n` leaves: exactly the pairs accepted less than a window ago. */
  lemma KeptIffOnRecord(window: int, events: seq<Attempt>, p: Pair, n: int)
    requires Until(events, n)
    ensures p in Purged(Run(window, events), n) <==> OnRecord(window, events, |events|, p, n)
  {
    if p in Purged(Run(window, events), n) {
      var i := KeptIsRecorded(window, events, p, n);
    }
    if i: nat :| i < |events| && RecordedSince(window, events, i, p, n) {
      RecordedIsKept(window, events, i, p, n);
    }
  }

  lemma OnRecordPrefix(window: int, events: seq<Attempt>, j: nat, p: Pair, n: int)
    requires j <= |events|
    ensures OnRecord(window, events[..j], j, p, n) <==> OnRecord(window, events, j, p, n)
  {
    forall i: nat | i < j
      ensures RecordedSince(window, events[..j], i, p, n) <==> RecordedSince(window, events, i, p, n)
    {
      assert events[..j][..i] == events[..i];
    }
  }

  /**
   An arrival is accepted exactly when its timestamp is in the window, its signature holds, and its
   pair was not accepted less than a window ago.
   */
  lemma AcceptedIff(window: int, events: seq<Attempt>, j: nat)
    requires ClockOrder(events) && j < |events|
    ensures AcceptedAt(window, events, j) <==>
      && Abs(events[j].now - events[j].ts) <= window
      && events[j].authentic
      && !OnRecord(window, events, j, events[j].pair, events[j].now)
  {
    KeptIffOnRecord(window, events[..j], events[j].pair, events[j].now);
    OnRecordPrefix(window, events, j, events[j].pair, events[j].now);
  }

  /** Right after an acceptance the table holds exactly the pairs recorded less than a window ago. */
  lemma TableAfterAcceptance(window: int, events: seq<Attempt>, j: nat, p: Pair)
    requires window >= 1 && ClockOrder(events) && AcceptedAt(window, events, j)
    ensures p in Run(window, events[..j + 1]) <==> OnRecord(window, events, j + 1, p, events[j].now)
  {
    var upTo, n := events[..j + 1], events[j].now;
    assert upTo[..j] == events[..j];
    KeptIffOnRecord(window, upTo, p, n);
    OnRecordPrefix(window, events, j + 1, p, n);
    assert Purged(Run(window, upTo), n) == Run(window, upTo);
  }

  ghost predicate AcceptedRequest(window: int, events: seq<Attempt>, i: nat, p: Pair, ts: int) {
    AcceptedAt(window, events, i) && events[i].pair == p && events[i].ts == ts
  }

  /** Two acceptances of one request are at least a window apart, the second no later than its timestamp allows. */
  lemma AcceptedTwice(window: int, events: seq<Attempt>, i: nat, j: nat, p: Pair, ts: int)
    requires ClockOrder(events) && i < j
    requires AcceptedRequest(window, events, i, p, ts) && AcceptedRequest(window, events, j, p, ts)
    ensures events[i].now + window <= events[j].now <= ts + window
    ensures events[i].now <= ts
  {
    AcceptedIff(window, events, j);
    assert !RecordedSince(window, events, i, p, events[j].now);
  }

  /** How often a request has been accepted. */
  function TimesAccepted(window: int, events: seq<Attempt>, p: Pair, ts: int): nat {
    if events == [] then 0
    else
      var before, e := events[..|events| - 1], events[|events| - 1];
      TimesAccepted(window, before, p, ts)
      + if e.pair == p && e.ts == ts && Arrive(window, Run(window, before), e).1 == Accepted then 1 else 0
  }

  lemma AcceptedInWindow(window: int, events: seq<Attempt>, i: nat, p: Pair, ts: int)
    requires AcceptedRequest(window, events, i, p, ts)
    ensures ts - window <= events[i].now <= ts + window
  {
  }

  lemma MulSucc(k: nat, w: int)
    ensures k * w == (k - 1) * w + w
  {
  }

  /** The k-th acceptance comes k - 1 windows after the earliest time the timestamp allows. */
  lemma {:induction false} AcceptancesSpread(window: int, events: seq<Attempt>, p: Pair, ts: int) returns (i: nat)
    requires ClockOrder(events) && TimesAccepted(window, events, p, ts) > 0
    ensures AcceptedRequest(window, events, i, p, ts)
    ensures (TimesAccepted(window, events, p, ts) - 1) * window <= events[i].now - (ts - window)
  {
    var before, e := events[..|events| - 1], events[|events| - 1];
    assert events == before + [e];
    var k := TimesAccepted(window, before, p, ts);
    AcceptedSnoc(window, before, e, |before|);
    if TimesAccepted(window, events, p, ts) == k {
      i := AcceptancesSpread(window, before, p, ts);
      AcceptedSnoc(window, before, e, i);
    } else {
      i := |before|;
      assert AcceptedRequest(window, events, i, p, ts);
      if k == 0 {
        AcceptedInWindow(window, events, i, p, ts);
      } else {
        var last := AcceptancesSpread(window, before, p, ts);
        assert events[last].now + window <= events[i].now by {
          AcceptedSnoc(window, before, e, last);
          AcceptedTwice(window, events, last, i, p, ts);
        }
        MulSucc(k, window);
      }
    }
  }

  lemma AtMostThreeTimes(window: int, events: seq<Attempt>, p: Pair, ts: int)
    requires window != 0 && ClockOrder(events)
    ensures TimesAccepted(window, events, p, ts) <= 3
  {
    var k := TimesAccepted(window, events, p, ts);
    if k > 0 {
      var i := AcceptancesSpread(window, events, p, ts);
      AcceptedInWindow(window, events, i, p, ts);
      assert (k - 1) * window <= 2 * window;
    }
  }

  /** Three is attained: a window early, on time, and a window late. */
  lemma ThreeTimesAttained(window: int, p: Pair, ts: int)
    requires window >= 1
    ensures var events := [Attempt(p, ts, true, ts - window), Attempt(p, ts, true, ts), Attempt(p, ts, true, ts + window)];
      ClockOrder(events) && TimesAccepted(window, events, p, ts) == 3
  {
    var e1, e2, e3 := Attempt(p, ts, true, ts - window), Attempt(p, ts, true, ts), Attempt(p, ts, true, ts + window);
    assert [e1][..0] == [] && [e1, e2][..1] == [e1] && [e1, e2, e3][..2] == [e1, e2];
    assert Run(window, [e1]) == map[p := ts];
    assert Purged(map[p := ts], ts) == map[];
    assert Run(window, [e1, e2]) == map[p := ts + window];
    assert Purged(map[p := ts + window], ts + window) == map[];
    assert TimesAccepted(window, [e1], p, ts) == 1;
    assert TimesAccepted(window, [e1, e2], p, ts) == 2;
  }

  /** With a window of zero a request is accepted as often as it arrives within its second. */
  lemma {:induction false} ZeroWindowNeverRefuses(p: Pair, ts: int, k: nat)
    ensures var events := seq(k, _ => Attempt(p, ts, true, ts));
      ClockOrder(events) && TimesAccepted(0, events, p, ts) == k && forall q :: q in Run(0, events) ==> Run(0, events)[q] <= ts
  {
    if k > 0 {
      ZeroWindowNeverRefuses(p, ts, k - 1);
      assert seq(k, _ => Attempt(p, ts, true, ts))[..k - 1] == seq(k - 1, _ => Attempt(p, ts, true, ts));
    }
  }

  /** The three-acceptance limit holds for every run exactly when the window is not zero. */
  lemma LimitIffWindow(window: int)
    ensures (forall events, p, ts :: ClockOrder(events) ==> TimesAccepted(window, events, p, ts) <= 3) <==> window != 0
  {
    if window == 0 {
      ZeroWindowNeverRefuses(("", ""), 0, 4);
    } else {
      forall events, p, ts | ClockOrder(events)
        ensures TimesAccepted(window, events, p, ts) <= 3
      {
        AtMostThreeTimes(window, events, p, ts);
      }
    }
  }

  /** A request just accepted can be accepted once more exactly when its timestamp was not yet past. */
  lemma AcceptableAgainIff(window: int, events: seq<Attempt>, e: Attempt)
    requires window >= 1 && ClockOrder(events + [e]) && AcceptedAt(window, events + [e], |events|)
    ensures (exists n :: n >= e.now && AcceptedAt(window, events + [e] + [e.(now := n)], |events| + 1)) <==> e.now <= e.ts
  {
    var first := events + [e];
    if n :| n >= e.now && AcceptedAt(window, first + [e.(now := n)], |events| + 1) {
      var all := first + [e.(now := n)];
      AcceptedSnoc(window, first, e.(now := n), |events|);
      assert forall i :: 0 <= i < |first| ==> all[i] == first[i];
      assert first[|events|] == e;
      assert ClockOrder(all) by {
        forall i | 0 <= i < |first|
          ensures all[i].now <= n
        {
          assert first[i].now <= first[|events|].now;
        }
      }
      AcceptedTwice(window, all, |events|, |events| + 1, e.pair, e.ts);
    }
    if e.now <= e.ts {
      var again := e.(now := e.now + window);
      assert first[..|events|] == events;
      assert e.pair !in Purged(Run(window, first), again.now);
      AcceptedSnoc(window, first, again, |first|);
      assert AcceptedAt(window, first + [again], |events| + 1);
    }
  }
}
