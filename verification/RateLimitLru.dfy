/**
 Which addresses the bounded table still knows after a run, told from the calls alone.
 */
module RateLimitLru {
  import opened Common
  import opened RateLimit

  /** Every address that has called, ordered by its last call. */
  function Recency(calls: seq<Call>): seq<Address> {
    if calls == [] then []
    else
      var ip := calls[|calls| - 1].ip;
      Without(Recency(calls[..|calls| - 1]), ip) + [ip]
  }

  function Callers(calls: seq<Call>): set<Address> {
    set c | c in calls :: c.ip
  }

  ghost predicate IsLastCall(calls: seq<Call>, i: nat) {
    i < |calls| && forall j :: i < j < |calls| ==> calls[j].ip != calls[i].ip
  }

  lemma {:induction false} RecencyDistinct(calls: seq<Call>)
    ensures Distinct(Recency(calls))
  {
    if calls != [] {
      var r := Recency(calls[..|calls| - 1]);
      var ip := calls[|calls| - 1].ip;
      RecencyDistinct(calls[..|calls| - 1]);
      if ip in r {
        var i :| 0 <= i < |r| && r[i] == ip;
        WithoutAt(r, i);
      } else {
        WithoutAbsent(r, ip);
      }
    }
  }

  lemma CutPresent(cut: seq<Address>, kept: seq<Address>, ip: Address)
    requires Distinct(cut + kept) && ip in kept
    ensures Without(cut + kept, ip) == cut + Without(kept, ip)
    ensures |Without(kept, ip)| == |kept| - 1
  {
    var all := cut + kept;
    assert all[|cut|..] == kept;
    var i :| 0 <= i < |kept| && kept[i] == ip;
    assert all[|cut| + i] == ip;
    WithoutConcat(cut, kept, ip);
    WithoutAbsent(cut, ip);
    WithoutAt(kept, i);
  }

  lemma CutAbsent(cut: seq<Address>, kept: seq<Address>, ip: Address)
    requires ip !in kept
    ensures Without(cut + kept, ip) == Without(cut, ip) + kept
    ensures cut == [] ==> Without(cut, ip) == []
  {
    WithoutConcat(cut, kept, ip);
    WithoutAbsent(kept, ip);
  }

  lemma LastOfTail(front: seq<Address>, tail: seq<Address>, k: nat)
    requires |tail| == k || (|tail| <= k && front == [])
    ensures LastOf(front + tail, k) == tail
  {
  }

  /** One admission is one step of the full recency list, cut to the capacity. */
  lemma AdmitIsCutRecency(cfg: Config, cut: seq<Address>, kept: seq<Address>, ip: Address)
    requires Distinct(cut + kept) && |kept| <= cfg.Capacity() && (cut != [] ==> |kept| == cfg.Capacity())
    ensures Admit(cfg, kept, ip) == LastOf(Without(cut + kept, ip) + [ip], cfg.Capacity())
  {
    if ip in kept {
      CutPresent(cut, kept, ip);
      var tail := Without(kept, ip) + [ip];
      assert Without(cut + kept, ip) + [ip] == cut + tail;
      LastOfTail(cut, tail, cfg.Capacity());
    } else {
      CutAbsent(cut, kept, ip);
      var cut' := Without(cut, ip);
      if |kept| < cfg.Capacity() {
        assert Without(cut + kept, ip) + [ip] == cut' + (kept + [ip]);
        LastOfTail(cut', kept + [ip], cfg.Capacity());
      } else {
        assert Without(cut + kept, ip) + [ip] == (cut' + kept[..1]) + (kept[1..] + [ip]);
        LastOfTail(cut' + kept[..1], kept[1..] + [ip], cfg.Capacity());
      }
    }
  }

  /** The table's keys, in order, are the last `Capacity` distinct callers ordered by last call. */
  lemma {:induction false} TableIsRecentCallers(cfg: Config, calls: seq<Call>)
    ensures Run(cfg, Initial(cfg), calls).order == LastOf(Recency(calls), cfg.Capacity())
  {
    if calls != [] {
      var before := calls[..|calls| - 1];
      TableIsRecentCallers(cfg, before);
      RecencyDistinct(before);
      var kept := LastOf(Recency(before), cfg.Capacity());
      var cut := Recency(before)[..|Recency(before)| - |kept|];
      assert cut + kept == Recency(before);
      AdmitIsCutRecency(cfg, cut, kept, calls[|calls| - 1].ip);
    }
  }

  /** Those behind a caller in the recency list are those who called after its last call. */
  lemma {:induction false} BehindIsCalledSince(calls: seq<Call>, i: nat) returns (p: nat)
    requires IsLastCall(calls, i)
    ensures p < |Recency(calls)| && Recency(calls)[p] == calls[i].ip
    ensures Elements(Recency(calls)[p + 1..]) == Callers(calls[i + 1..])
  {
    var n := |calls| - 1;
    var before, ip := calls[..n], calls[n].ip;
    RecencyDistinct(before);
    var r := Recency(before);
    var r' := Without(r, ip);
    if i == n {
      p := |r'|;
      assert Recency(calls)[p + 1..] == [];
    } else {
      var q := BehindIsCalledSince(before, i);
      assert r == r[..q] + ([r[q]] + r[q + 1..]);
      WithoutConcat(r[..q], [r[q]] + r[q + 1..], ip);
      WithoutConcat([r[q]], r[q + 1..], ip);
      p := |Without(r[..q], ip)|;
      var tail := Without(r[q + 1..], ip) + [ip];
      assert Recency(calls) == Without(r[..q], ip) + ([r[q]] + tail);
      assert Recency(calls)[p + 1..] == tail;
      assert calls[i + 1..] == before[i + 1..] + [calls[n]];
      CallersSnoc(before[i + 1..], calls[n]);
      assert Elements(tail) == Elements(r[q + 1..]) + {ip};
    }
  }

  lemma CallersSnoc(calls: seq<Call>, c: Call)
    ensures Callers(calls + [c]) == Callers(calls) + {c.ip}
  {
    assert forall x :: x in calls + [c] <==> x in calls || x == c;
    assert c in calls + [c];
  }

  lemma {:induction false} RecencyMembers(calls: seq<Call>)
    ensures Elements(Recency(calls)) == Callers(calls)
  {
    if calls != [] {
      RecencyMembers(calls[..|calls| - 1]);
      assert calls == calls[..|calls| - 1] + [calls[|calls| - 1]];
      CallersSnoc(calls[..|calls| - 1], calls[|calls| - 1]);
    }
  }

  /**
   An address keeps its bucket exactly as long as fewer than `Capacity` other
   addresses have called since its own last call, refused calls included.
   */
  lemma TrackedIffFewSince(cfg: Config, calls: seq<Call>, i: nat)
    requires IsLastCall(calls, i)
    ensures calls[i].ip in Run(cfg, Initial(cfg), calls).table <==> |Callers(calls[i + 1..])| < cfg.Capacity()
  {
    var r := Recency(calls);
    var p := BehindIsCalledSince(calls, i);
    RecencyDistinct(calls);
    DistinctSize(r[p + 1..]);
    TableIsRecentCallers(cfg, calls);
    RunWellFormed(cfg, Initial(cfg), calls);
    var kept := LastOf(r, cfg.Capacity());
    assert kept == r[|r| - |kept|..];
    if p >= |r| - |kept| {
      assert kept[p - (|r| - |kept|)] == calls[i].ip;
    } else {
      assert calls[i].ip !in kept;
    }
  }

  /** An address that never called is not in the table. */
  lemma StrangersUntracked(cfg: Config, calls: seq<Call>, a: Address)
    requires a !in Callers(calls)
    ensures a !in Run(cfg, Initial(cfg), calls).table
  {
    TableIsRecentCallers(cfg, calls);
    RecencyMembers(calls);
    RunWellFormed(cfg, Initial(cfg), calls);
    assert a !in Elements(Recency(calls));
  }
}
