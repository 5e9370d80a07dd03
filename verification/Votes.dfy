/**
 Votes and the counters kept beside each model. The handler writes the vote and then
 recounts; the connection is in autocommit, so the two are separate steps that the
 steps of other workers may fall between.
 */
module Votes {
  type Key = string

  /** One row of the votes table; (model, voter) is the primary key. */
  datatype Vote = Vote(model: int, voter: Key, value: int, createdAt: int)

  datatype Counters = Counters(score: int, up: int, down: int)

  predicate SameBallot(v: Vote, model: int, voter: Key) {
    v.model == model && v.voter == voter
  }

  // ---- the statements -----------------------------------------------------

  function UpsertVote(votes: seq<Vote>, v: Vote): seq<Vote> {
    if votes == [] then [v]
    else if SameBallot(votes[0], v.model, v.voter) then [votes[0].(value := v.value, createdAt := v.createdAt)] + votes[1..]
    else [votes[0]] + UpsertVote(votes[1..], v)
  }

  function DeleteVote(votes: seq<Vote>, model: int, voter: Key): seq<Vote> {
    if votes == [] then []
    else if SameBallot(votes[0], model, voter) then DeleteVote(votes[1..], model, voter)
    else [votes[0]] + DeleteVote(votes[1..], model, voter)
  }

  function WriteVote(votes: seq<Vote>, model: int, voter: Key, value: int, now: int): seq<Vote> {
    if value == 0 then DeleteVote(votes, model, voter) else UpsertVote(votes, Vote(model, voter, value, now))
  }

  /** COALESCE(SUM(value), 0) over the model's rows. */
  function SumValues(votes: seq<Vote>, model: int): int {
    if votes == [] then 0 else (if votes[0].model == model then votes[0].value else 0) + SumValues(votes[1..], model)
  }

  /** COUNT(*) of the model's rows with this value. */
  function CountValues(votes: seq<Vote>, model: int, value: int): nat {
    if votes == [] then 0
    else (if votes[0].model == model && votes[0].value == value then 1 else 0) + CountValues(votes[1..], model, value)
  }

  function Recount(votes: seq<Vote>, model: int): Counters {
    Counters(SumValues(votes, model), CountValues(votes, model, 1), CountValues(votes, model, -1))
  }

  // ---- what the table means -----------------------------------------------

  /** The vote `voter` has on `model`; none is 0. */
  function VoteOf(votes: seq<Vote>, model: int, voter: Key): int {
    if votes == [] then 0 else if SameBallot(votes[0], model, voter) then votes[0].value else VoteOf(votes[1..], model, voter)
  }

  function Voters(votes: seq<Vote>): set<Key> {
    set v | v in votes :: v.voter
  }

  function VotersFor(votes: seq<Vote>, model: int, value: int): set<Key> {
    set k | k in Voters(votes) && VoteOf(votes, model, k) == value
  }

  /** The value check and the primary key of the schema: no later row repeats a ballot. */
  ghost predicate Legal(votes: seq<Vote>) {
    votes == [] ||
    ((votes[0].value == 1 || votes[0].value == -1) && VoteOf(votes[1..], votes[0].model, votes[0].voter) == 0 && Legal(votes[1..]))
  }

  /** The counters say how many distinct keys stand behind each value. */
  ghost predicate Exact(votes: seq<Vote>, model: int, c: Counters) {
    && c.up == |VotersFor(votes, model, 1)|
    && c.down == |VotersFor(votes, model, -1)|
    && c.score == c.up - c.down
  }

  lemma {:induction false} VoteOfStranger(votes: seq<Vote>, model: int, voter: Key)
    requires VoteOf(votes, model, voter) != 0
    ensures voter in Voters(votes)
  {
    if !SameBallot(votes[0], model, voter) {
      VoteOfStranger(votes[1..], model, voter);
      var v :| v in votes[1..] && v.voter == voter;
      assert v in votes;
    } else {
      assert votes[0] in votes;
    }
  }

  /** Who stands behind `value`, with the first row looked at alone. */
  lemma VotersForFirst(votes: seq<Vote>, model: int, value: int)
    requires Legal(votes) && votes != [] && value != 0
    ensures var here := if votes[0].model == model && votes[0].value == value then {votes[0].voter} else {};
      && VotersFor(votes, model, value) == VotersFor(votes[1..], model, value) + here
      && VotersFor(votes[1..], model, value) !! here
  {
    var head, tail := votes[0], votes[1..];
    assert Voters(votes) == Voters(tail) + {head.voter} by {
      assert votes == [head] + tail;
    }
    forall k | VoteOf(tail, model, k) == value
      ensures k in Voters(tail)
    {
      VoteOfStranger(tail, model, k);
    }
  }

  /** COUNT(*) counts distinct keys: the primary key allows each only one row. */
  lemma {:induction false} CountIsVoters(votes: seq<Vote>, model: int, value: int)
    requires Legal(votes) && value != 0
    ensures CountValues(votes, model, value) == |VotersFor(votes, model, value)|
  {
    if votes == [] {
      assert VotersFor(votes, model, value) == {};
    } else {
      CountIsVoters(votes[1..], model, value);
      VotersForFirst(votes, model, value);
    }
  }

  lemma {:induction false} SumIsDifference(votes: seq<Vote>, model: int)
    requires Legal(votes)
    ensures SumValues(votes, model) == CountValues(votes, model, 1) - CountValues(votes, model, -1)
  {
    if votes != [] {
      SumIsDifference(votes[1..], model);
    }
  }

  lemma RecountIsExact(votes: seq<Vote>, model: int)
    requires Legal(votes)
    ensures Exact(votes, model, Recount(votes, model))
  {
    CountIsVoters(votes, model, 1);
    CountIsVoters(votes, model, -1);
    SumIsDifference(votes, model);
  }

  /** Exactness leaves no choice. */
  lemma ExactIffRecount(votes: seq<Vote>, model: int, c: Counters)
    requires Legal(votes)
    ensures Exact(votes, model, c) <==> c == Recount(votes, model)
  {
    RecountIsExact(votes, model);
  }

  lemma {:induction false} DeleteChangesOneBallot(votes: seq<Vote>, model: int, voter: Key)
    requires Legal(votes)
    ensures Legal(DeleteVote(votes, model, voter))
    ensures forall m, k :: VoteOf(DeleteVote(votes, model, voter), m, k) == if m == model && k == voter then 0 else VoteOf(votes, m, k)
  {
    if votes != [] {
      DeleteChangesOneBallot(votes[1..], model, voter);
    }
  }

  lemma {:induction false} UpsertChangesOneBallot(votes: seq<Vote>, incoming: Vote)
    requires Legal(votes) && (incoming.value == 1 || incoming.value == -1)
    ensures Legal(UpsertVote(votes, incoming))
    ensures forall m, k :: VoteOf(UpsertVote(votes, incoming), m, k)
                        == if m == incoming.model && k == incoming.voter then incoming.value else VoteOf(votes, m, k)
  {
    if votes != [] {
      UpsertChangesOneBallot(votes[1..], incoming);
    }
  }

  /** A write sets this one ballot, leaves every other, and keeps the table legal. */
  lemma WriteChangesOneBallot(votes: seq<Vote>, model: int, voter: Key, value: int, now: int)
    requires Legal(votes) && -1 <= value <= 1
    ensures Legal(WriteVote(votes, model, voter, value, now))
    ensures forall m, k :: VoteOf(WriteVote(votes, model, voter, value, now), m, k)
                        == if m == model && k == voter then value else VoteOf(votes, m, k)
  {
    if value == 0 {
      DeleteChangesOneBallot(votes, model, voter);
    } else {
      UpsertChangesOneBallot(votes, Vote(model, voter, value, now));
    }
  }

  lemma {:induction false} NoBallotNoRow(votes: seq<Vote>, model: int, voter: Key)
    requires Legal(votes) && VoteOf(votes, model, voter) == 0
    ensures forall v :: v in votes ==> !SameBallot(v, model, voter)
  {
    if votes != [] {
      NoBallotNoRow(votes[1..], model, voter);
      assert forall v :: v in votes ==> v == votes[0] || v in votes[1..];
    }
  }

  lemma {:induction false} DeleteRows(votes: seq<Vote>, model: int, voter: Key)
    ensures forall v :: v in DeleteVote(votes, model, voter) <==> v in votes && !SameBallot(v, model, voter)
  {
    if votes != [] {
      DeleteRows(votes[1..], model, voter);
      assert forall v :: v in votes <==> v == votes[0] || v in votes[1..];
    }
  }

  lemma {:induction false} UpsertRows(votes: seq<Vote>, row: Vote)
    requires Legal(votes)
    ensures forall v :: v in UpsertVote(votes, row) <==> v == row || (v in votes && !SameBallot(v, row.model, row.voter))
  {
    if votes != [] {
      var first, rest := votes[0], votes[1..];
      assert forall v :: v in votes <==> v == first || v in rest;
      if SameBallot(first, row.model, row.voter) {
        NoBallotNoRow(rest, row.model, row.voter);
        assert UpsertVote(votes, row) == [row] + rest;
      } else {
        UpsertRows(rest, row);
        assert UpsertVote(votes, row) == [first] + UpsertVote(rest, row);
      }
    }
  }

  /** The rows after a write: this ballot's row as written, or gone for 0, and every other row as it was. */
  lemma RowsAfterWrite(votes: seq<Vote>, model: int, voter: Key, value: int, now: int)
    requires Legal(votes)
    ensures forall v :: v in WriteVote(votes, model, voter, value, now) <==>
      (value != 0 && v == Vote(model, voter, value, now)) || (v in votes && !(v.model == model && v.voter == voter))
  {
    DeleteRows(votes, model, voter);
    UpsertRows(votes, Vote(model, voter, value, now));
  }

  /** Models the write does not touch recount as before. */
  lemma OthersRecountSame(votes: seq<Vote>, model: int, voter: Key, value: int, now: int, other: int)
    requires Legal(votes) && -1 <= value <= 1 && other != model
    ensures Recount(WriteVote(votes, model, voter, value, now), other) == Recount(votes, other)
  {
    var votes' := WriteVote(votes, model, voter, value, now);
    WriteChangesOneBallot(votes, model, voter, value, now);
    SameBallotsSameVoters(votes, votes', other, 1);
    SameBallotsSameVoters(votes, votes', other, -1);
    RecountIsExact(votes, other);
    RecountIsExact(votes', other);
  }

  lemma SameBallotsSameVoters(a: seq<Vote>, b: seq<Vote>, model: int, value: int)
    requires value != 0 && forall k :: VoteOf(a, model, k) == VoteOf(b, model, k)
    ensures VotersFor(a, model, value) == VotersFor(b, model, value)
  {
    forall k
      ensures k in VotersFor(a, model, value) <==> k in VotersFor(b, model, value)
    {
      if VoteOf(a, model, k) == value {
        VoteOfStranger(a, model, k);
        VoteOfStranger(b, model, k);
      }
    }
  }

  /** After one undisturbed vote the recounted score has moved by exactly the change of this key's vote. */
  lemma {:induction false} ScoreMovesByTheVote(votes: seq<Vote>, model: int, voter: Key, value: int, now: int)
    requires Legal(votes) && -1 <= value <= 1
    ensures SumValues(WriteVote(votes, model, voter, value, now), model)
         == SumValues(votes, model) - VoteOf(votes, model, voter) + value
  {
    if votes != [] {
      ScoreMovesByTheVote(votes[1..], model, voter, value, now);
      if SameBallot(votes[0], model, voter) && value == 0 {
        DeleteAbsent(votes[1..], model, voter);
      }
    }
  }

  lemma {:induction false} DeleteAbsent(votes: seq<Vote>, model: int, voter: Key)
    requires Legal(votes) && VoteOf(votes, model, voter) == 0
    ensures DeleteVote(votes, model, voter) == votes
  {
    if votes != [] {
      DeleteAbsent(votes[1..], model, voter);
    }
  }

  // ---- the handler --------------------------------------------------------

  datatype Reply = Refused(status: int, code: string) | Tally(score: int, up: int, down: int, yourVote: int)

  /** The tables the vote handler works on: votes, counters by model, models not deleted, banned keys. */
  class VoteStore {
    var votes: seq<Vote>
    var counters: map<int, Counters>
    var visible: set<int>
    var bans: set<Key>

    ghost predicate Valid()
      reads this
    {
      && Legal(votes)
      && visible <= counters.Keys
      && forall m :: m in counters ==> Exact(votes, m, counters[m])
    }

    method HandleVote(voter: Key, model: int, value: int, now: int) returns (reply: Reply)
      requires Valid()
      modifies `votes, `counters
      ensures Valid()
      ensures reply.Refused? <==> model < 1 || !(-1 <= value <= 1) || voter in bans || model !in visible
      ensures reply.Refused? ==> votes == old(votes) && counters == old(counters)
      ensures reply.Refused? ==> reply == if model < 1 || !(-1 <= value <= 1) then Refused(400, "bad_request")
                                          else if voter in bans then Refused(403, "banned") else Refused(404, "not_found")
      ensures reply.Tally? ==>
        && votes == WriteVote(old(votes), model, voter, value, now)
        && (forall v :: v in votes <==>
              (value != 0 && v == Vote(model, voter, value, now)) || (v in old(votes) && !(v.model == model && v.voter == voter)))
        && counters == old(counters)[model := Recount(votes, model)]
        && reply.yourVote == value && VoteOf(votes, model, voter) == value
        && (forall m, k :: (m != model || k != voter) ==> VoteOf(votes, m, k) == VoteOf(old(votes), m, k))
        && counters == old(counters)[model := Counters(reply.score, reply.up, reply.down)]
        && reply.score == old(counters[model].score) - VoteOf(old(votes), model, voter) + value
    {
      if model < 1 || !(-1 <= value <= 1) {
        return Refused(400, "bad_request");
      }
      if voter in bans {
        return Refused(403, "banned");
      }
      if model !in visible {
        return Refused(404, "not_found");
      }
      ghost var before := votes;
      if value == 0 {
        votes := DeleteVote(votes, model, voter);
      } else {
        votes := UpsertVote(votes, Vote(model, voter, value, now));
      }
      counters := counters[model := Recount(votes, model)];
      WriteChangesOneBallot(before, model, voter, value, now);
      RowsAfterWrite(before, model, voter, value, now);
      ScoreMovesByTheVote(before, model, voter, value, now);
      forall m | m in counters
        ensures Exact(votes, m, counters[m])
      {
        ExactIffRecount(votes, m, counters[m]);
        if m != model {
          ExactIffRecount(before, m, counters[m]);
          OthersRecountSame(before, model, voter, value, now, m);
        }
      }
      ExactIffRecount(before, model, old(counters[model]));
      reply := Tally(counters[model].score, counters[model].up, counters[model].down, VoteOf(votes, model, voter));
    }
  }

  // ---- any number of workers ----------------------------------------------

  datatype Phase = ToWrite(model: int, voter: Key, value: int) | ToRecount(model: int)

  /** `lost` are the models whose last writer died before it recounted. */
  datatype System = System(votes: seq<Vote>, counters: map<int, Counters>, workers: map<nat, Phase>, lost: set<int>)

  /** `Begin` is a vote that has passed its checks; `Upload` a new model; `Crash` a worker that dies where it is. */
  datatype Step = Upload(model: int) | Begin(w: nat, model: int, voter: Key, value: int) | Write(w: nat, now: int) | Recounts(w: nat) | Crash(w: nat)

  ghost predicate Enabled(s: System, step: Step) {
    match step
    case Upload(m) => m !in s.counters
    case Begin(w, m, k, v) => w !in s.workers && m in s.counters && -1 <= v <= 1
    case Write(w, now) => w in s.workers && s.workers[w].ToWrite?
    case Recounts(w) => w in s.workers && s.workers[w].ToRecount?
    case Crash(w) => w in s.workers
  }

  function Next(s: System, step: Step): System {
    match step
    case Upload(m) => s.(counters := s.counters[m := Counters(0, 0, 0)])
    case Begin(w, m, k, v) => s.(workers := s.workers[w := ToWrite(m, k, v)])
    case Write(w, now) =>
      if w in s.workers && s.workers[w].ToWrite? then
        var p := s.workers[w];
        s.(votes := WriteVote(s.votes, p.model, p.voter, p.value, now), workers := s.workers[w := ToRecount(p.model)])
      else s
    case Recounts(w) =>
      if w in s.workers && s.workers[w].ToRecount? then
        var m := s.workers[w].model;
        s.(counters := s.counters[m := Recount(s.votes, m)], workers := s.workers - {w}, lost := s.lost - {m})
      else s
    case Crash(w) =>
      if w in s.workers then
        s.(workers := s.workers - {w}, lost := if s.workers[w].ToRecount? then s.lost + {s.workers[w].model} else s.lost)
      else s
  }

  function RunFrom(s: System, steps: seq<Step>): System
    decreases |steps|
  {
    if steps == [] then s else RunFrom(Next(s, steps[0]), steps[1..])
  }

  ghost predicate Possible(s: System, steps: seq<Step>)
    decreases |steps|
  {
    steps == [] || (Enabled(s, steps[0]) && Possible(Next(s, steps[0]), steps[1..]))
  }

  const EMPTY := System([], map[], map[], {})

  /** A write on `m` is waiting for its recount, or its worker died waiting. */
  ghost predicate Pending(s: System, m: int) {
    m in s.lost || exists w :: w in s.workers && s.workers[w] == ToRecount(m)
  }

  ghost predicate Invariant(s: System) {
    && Legal(s.votes)
    && (forall m, k :: VoteOf(s.votes, m, k) != 0 ==> m in s.counters)
    && (forall w :: w in s.workers ==> s.workers[w].model in s.counters && (s.workers[w].ToWrite? ==> -1 <= s.workers[w].value <= 1))
    && (forall m :: m in s.counters && !Pending(s, m) ==> s.counters[m] == Recount(s.votes, m))
  }

  lemma {:induction false} NoVotesNoCount(votes: seq<Vote>, m: int)
    requires Legal(votes) && forall k :: VoteOf(votes, m, k) == 0
    ensures Recount(votes, m) == Counters(0, 0, 0)
  {
    SameBallotsSameVoters(votes, [], m, 1);
    SameBallotsSameVoters(votes, [], m, -1);
    RecountIsExact(votes, m);
    RecountIsExact([], m);
  }

  lemma WriteKeepsInvariant(s: System, w: nat, now: int)
    requires Invariant(s) && Enabled(s, Write(w, now))
    ensures Invariant(Next(s, Write(w, now)))
  {
    var p, s' := s.workers[w], Next(s, Write(w, now));
    WriteChangesOneBallot(s.votes, p.model, p.voter, p.value, now);
    assert s'.workers[w] == ToRecount(p.model);
    forall m | m in s'.counters && !Pending(s', m)
      ensures s'.counters[m] == Recount(s'.votes, m)
    {
      assert m != p.model;
      OthersRecountSame(s.votes, p.model, p.voter, p.value, now, m);
      PendingCarries(s, s', m);
    }
  }

  /** Workers still waiting to recount keep a model pending. */
  lemma PendingCarries(s: System, s': System, m: int)
    requires m in s.lost ==> m in s'.lost
    requires forall u :: u in s.workers && s.workers[u] == ToRecount(m) ==> u in s'.workers && s'.workers[u] == ToRecount(m)
    ensures Pending(s, m) ==> Pending(s', m)
  {
  }

  lemma StepKeepsInvariant(s: System, step: Step)
    requires Invariant(s) && Enabled(s, step)
    ensures Invariant(Next(s, step))
  {
    var s' := Next(s, step);
    match step
    case Upload(m) =>
      NoVotesNoCount(s.votes, m);
      assert forall n :: Pending(s', n) <==> Pending(s, n);
    case Begin(w, m, k, v) =>
      forall n {
        PendingCarries(s, s', n);
      }
    case Write(w, now) =>
      WriteKeepsInvariant(s, w, now);
    case Recounts(w) =>
      forall n | n != s.workers[w].model {
        PendingCarries(s, s', n);
      }
    case Crash(w) =>
      forall n | s.workers[w] != ToRecount(n) {
        PendingCarries(s, s', n);
      }
  }

  lemma {:induction false} RunKeepsInvariant(s: System, steps: seq<Step>)
    requires Invariant(s) && Possible(s, steps)
    ensures Invariant(RunFrom(s, steps))
    decreases |steps|
  {
    if steps != [] {
      StepKeepsInvariant(s, steps[0]);
      RunKeepsInvariant(Next(s, steps[0]), steps[1..]);
    }
  }

  /**
   After any interleaving of votes by any number of workers, a model none of whose writes is still
   waiting for its recount has counters that say exactly how many distinct keys stand behind each
   value; a write lost in a crash is made good by the next vote on the model.
   */
  lemma TalliesExactWhenQuiet(steps: seq<Step>, m: int)
    requires Possible(EMPTY, steps)
    ensures var s := RunFrom(EMPTY, steps);
      m in s.counters && !Pending(s, m) ==> Exact(s.votes, m, s.counters[m])
  {
    RunKeepsInvariant(EMPTY, steps);
    var s := RunFrom(EMPTY, steps);
    RecountIsExact(s.votes, m);
  }

  /** Left alone, the two statements of a vote come to what the handler does as a whole. */
  lemma VoteAlone(s: System, w: nat, model: int, voter: Key, value: int, now: int)
    requires Enabled(s, Begin(w, model, voter, value))
    ensures var steps := [Begin(w, model, voter, value), Write(w, now), Recounts(w)]; var t := RunFrom(s, steps);
      && Possible(s, steps) && t.workers == s.workers
      && t.votes == WriteVote(s.votes, model, voter, value, now)
      && t.counters == s.counters[model := Recount(t.votes, model)]
  {
    var begun := Next(s, Begin(w, model, voter, value));
    var written := Next(begun, Write(w, now));
    var done := Next(written, Recounts(w));
    RunCons(written, Recounts(w), []);
    RunCons(begun, Write(w, now), [Recounts(w)]);
    RunCons(s, Begin(w, model, voter, value), [Write(w, now), Recounts(w)]);
    assert [Recounts(w)] + [] == [Recounts(w)];
    assert [Write(w, now)] + [Recounts(w)] == [Write(w, now), Recounts(w)];
    assert [Begin(w, model, voter, value)] + [Write(w, now), Recounts(w)] == [Begin(w, model, voter, value), Write(w, now), Recounts(w)];
    assert done.workers == s.workers;
  }

  lemma RunCons(s: System, step: Step, rest: seq<Step>)
    ensures RunFrom(s, [step] + rest) == RunFrom(Next(s, step), rest)
    ensures Possible(s, [step] + rest) <==> Enabled(s, step) && Possible(Next(s, step), rest)
  {
    assert ([step] + rest)[1..] == rest;
  }
}
