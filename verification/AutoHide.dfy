/**
 The moderation tables with any number of workers and the command line as a further writer:
 every SQL statement is a step of its own, and a worker may die between any two.
 */
module AutoHide {
  import opened Common
  import opened Moderation

  /** Where a worker stands between two statements; `author` is the one its SELECT read. */
  datatype Phase =
    | ToFind(m: int, k: Key)
    | ToUpsert(m: int, k: Key)
    | ToCount(m: int)
    | ToHide(m: int, count: nat)
    | ToSetVisibility(m: int, action: Action, author: Key)
    | ToResolve(m: int, action: Action, author: Key)
    | ToBan(m: int, action: Action, author: Key)
    | ToDeleteAll(m: int, action: Action, author: Key)
    | ToLog(m: int, action: Action)
    | ToInsert(m: int, author: Key)

  /** `lost` are the models whose last report or approve died part-way, and no later one has made up for it. */
  datatype System = System(db: Db, workers: map<nat, Phase>, lost: set<int>)

  /** A report or an upload past its ban check, an admin action past its SELECT; one more statement of a worker; a worker's death. */
  datatype Step =
    | BeginReport(w: nat, m: int, k: Key)
    | BeginAction(w: nat, m: int, action: Action)
    | BeginUpload(w: nat, m: int, author: Key)
    | Statement(w: nat, actor: string, reason: string, detail: string, now: int)
    | Crash(w: nat)
    | LiftBan(k: Key)

  ghost predicate Enabled(s: System, step: Step) {
    match step
    case BeginReport(w, m, k) => w !in s.workers && k !in s.db.bans
    case BeginAction(w, m, action) => w !in s.workers && m in s.db.models
    case BeginUpload(w, m, author) => w !in s.workers && author !in s.db.bans
    case Statement(w, actor, reason, detail, now) => w in s.workers
    case Crash(w) => w in s.workers
    case LiftBan(k) => true
  }

  /** One statement: the new tables and the worker's next phase, if any. */
  function Execute(threshold: int, db: Db, p: Phase, actor: string, reason: string, detail: string, now: int): (Db, Option<Phase>) {
    match p
    case ToFind(m, k) => (db, if m in db.models && !IsDeleted(db, m) then Some(ToUpsert(m, k)) else None)
    case ToUpsert(m, k) => (UpsertReport(db, m, k, reason, detail, now), Some(ToCount(m)))
    case ToCount(m) => (db, Some(ToHide(m, |OpenReporters(db, m)|)))
    case ToHide(m, count) => (if count >= threshold then SetVisibility(db, m, Unlisted) else db, None)
    case ToSetVisibility(m, a, author) =>
      (SetVisibility(db, m, ActionVisibility(a)), Some(if a == Unlist then ToLog(m, a) else ToResolve(m, a, author)))
    case ToResolve(m, a, author) => (ResolveReports(db, m, now), Some(if a == BanAuthor then ToBan(m, a, author) else ToLog(m, a)))
    case ToBan(m, a, author) => (UpsertBan(db, author, reason, now), Some(ToDeleteAll(m, a, author)))
    case ToDeleteAll(m, a, author) => (DeleteByAuthor(db, author), Some(ToLog(m, a)))
    case ToLog(m, a) => (AppendLog(db, LogEntry(m, actor, a, reason, now)), None)
    case ToInsert(m, author) => (InsertModel(db, m, author), None)
  }

  /** A report on `m` after its insert, or an approve of `m` before its reports are closed. */
  predicate PartWay(p: Phase, m: int) {
    p.m == m && (p.ToCount? || p.ToHide? || (p.ToResolve? && p.action == Approve))
  }

  /** A fresh count, a resolve or a moderator's hiding makes up for whoever died part-way on the model before. */
  predicate MakesUp(p: Phase) {
    p.ToCount? || p.ToResolve? || (p.ToSetVisibility? && p.action != Approve)
  }

  function Next(threshold: int, s: System, step: Step): System {
    match step
    case BeginReport(w, m, k) => s.(workers := s.workers[w := ToFind(m, k)])
    case BeginAction(w, m, action) =>
      if m in s.db.models then s.(workers := s.workers[w := ToSetVisibility(m, action, s.db.models[m].author)]) else s
    case BeginUpload(w, m, author) => s.(workers := s.workers[w := ToInsert(m, author)])
    case Statement(w, actor, reason, detail, now) =>
      if w !in s.workers then s
      else
        var p := s.workers[w];
        var (db, next) := Execute(threshold, s.db, p, actor, reason, detail, now);
        System(db, if next.Some? then s.workers[w := next.value] else s.workers - {w}, if MakesUp(p) then s.lost - {p.m} else s.lost)
    case Crash(w) =>
      if w !in s.workers then s
      else
        var p := s.workers[w];
        System(s.db, s.workers - {w}, if PartWay(p, p.m) then s.lost + {p.m} else s.lost)
    case LiftBan(k) => s.(db := Unban(s.db, k))
  }

  function RunFrom(threshold: int, s: System, steps: seq<Step>): System
    decreases |steps|
  {
    if steps == [] then s else RunFrom(threshold, Next(threshold, s, steps[0]), steps[1..])
  }

  ghost predicate Possible(threshold: int, s: System, steps: seq<Step>)
    decreases |steps|
  {
    steps == [] || (Enabled(s, steps[0]) && Possible(threshold, Next(threshold, s, steps[0]), steps[1..]))
  }

  const START := System(EMPTY, map[], {})

  /** Nobody is part-way on `m`, and nobody died part-way without being made up for. */
  ghost predicate Quiet(s: System, m: int) {
    m !in s.lost && forall w :: w in s.workers ==> !PartWay(s.workers[w], m)
  }

  /** A worker that will still act on enough open reports: it has yet to count, has counted enough, or will close them. */
  predicate WillSettle(threshold: int, p: Phase, m: int) {
    PartWay(p, m) && (p.ToHide? ==> p.count >= threshold)
  }

  ghost predicate Settled(threshold: int, s: System, m: int) {
    || |OpenReporters(s.db, m)| < threshold
    || !IsPublic(s.db, m)
    || m in s.lost
    || exists w :: w in s.workers && WillSettle(threshold, s.workers[w], m)
  }

  ghost predicate Invariant(threshold: int, s: System) {
    && (forall w :: w in s.workers && (s.workers[w].ToUpsert? || s.workers[w].ToCount?) ==> s.workers[w].m in s.db.models)
    && (forall m, k :: (m, k) in s.db.reports ==> m in s.db.models)
    && (forall m :: m in s.db.models ==> Settled(threshold, s, m))
  }

  /** The settling worker is not the one that moves, or the tables for `m` did not change against it. */
  lemma SettledCarries(threshold: int, s: System, s': System, w: nat, m: int)
    requires Settled(threshold, s, m)
    requires IsPublic(s'.db, m) ==> IsPublic(s.db, m)
    requires |OpenReporters(s'.db, m)| <= |OpenReporters(s.db, m)|
    requires m in s.lost ==> m in s'.lost
    requires forall u :: u in s.workers && u != w ==> u in s'.workers && s'.workers[u] == s.workers[u]
    requires w in s.workers && WillSettle(threshold, s.workers[w], m) ==> w in s'.workers && WillSettle(threshold, s'.workers[w], m)
    ensures Settled(threshold, s', m)
  {
    if u :| u in s.workers && WillSettle(threshold, s.workers[u], m) {
      assert WillSettle(threshold, s'.workers[u], m);
    }
  }

  lemma NoReportsNoneOpen(db: Db, m: int)
    requires forall k :: (m, k) !in db.reports
    ensures OpenReporters(db, m) == {}
  {
  }

  lemma SameReportsSameOpen(db: Db, db': Db, m: int)
    requires db'.reports == db.reports
    ensures OpenReporters(db', m) == OpenReporters(db, m)
  {
  }

  lemma UpsertSettles(threshold: int, s: System, step: Step, m: int)
    requires Invariant(threshold, s) && step.Statement? && Enabled(s, step) && s.workers[step.w].ToUpsert? && m in s.db.models
    ensures Settled(threshold, Next(threshold, s, step), m)
  {
    var w, p, s' := step.w, s.workers[step.w], Next(threshold, s, step);
    UpsertEffect(s.db, p.m, p.k, step.reason, step.detail, step.now, m);
    if p.m == m {
      assert WillSettle(threshold, s'.workers[w], m);
    } else {
      SettledCarries(threshold, s, s', w, m);
    }
  }

  lemma CountSettles(threshold: int, s: System, step: Step, m: int)
    requires Invariant(threshold, s) && step.Statement? && Enabled(s, step) && s.workers[step.w].ToCount? && m in s.db.models
    ensures Settled(threshold, Next(threshold, s, step), m)
  {
    var w, p, s' := step.w, s.workers[step.w], Next(threshold, s, step);
    if |OpenReporters(s.db, m)| >= threshold {
      if p.m == m {
        assert WillSettle(threshold, s'.workers[w], m);
      } else {
        SettledCarries(threshold, s, s', w, m);
      }
    }
  }

  lemma HideSettles(threshold: int, s: System, step: Step, m: int)
    requires Invariant(threshold, s) && step.Statement? && Enabled(s, step) && s.workers[step.w].ToHide? && m in s.db.models
    ensures Settled(threshold, Next(threshold, s, step), m)
  {
    var w, p, s' := step.w, s.workers[step.w], Next(threshold, s, step);
    SameReportsSameOpen(s.db, s'.db, m);
    if p.m != m || p.count < threshold {
      SettledCarries(threshold, s, s', w, m);
    }
  }

  lemma ActionSettles(threshold: int, s: System, step: Step, m: int)
    requires threshold >= 1 && Invariant(threshold, s) && step.Statement? && Enabled(s, step) && m in s.db.models
    requires var p := s.workers[step.w]; p.ToSetVisibility? || p.ToResolve?
    ensures Settled(threshold, Next(threshold, s, step), m)
  {
    var w, p, s' := step.w, s.workers[step.w], Next(threshold, s, step);
    if p.ToResolve? {
      ResolveEffect(s.db, p.m, step.now, m);
      if p.m != m {
        SettledCarries(threshold, s, s', w, m);
      }
    } else {
      SameReportsSameOpen(s.db, s'.db, m);
      if p.m == m && p.action == Approve {
        assert WillSettle(threshold, s'.workers[w], m);
      } else if p.m != m {
        SettledCarries(threshold, s, s', w, m);
      }
    }
  }

  /** The remaining statements neither touch reports nor make an existing model public. */
  lemma OtherSettles(threshold: int, s: System, step: Step, m: int)
    requires threshold >= 1 && Invariant(threshold, s) && step.Statement? && Enabled(s, step)
    requires var p := s.workers[step.w]; p.ToFind? || p.ToBan? || p.ToDeleteAll? || p.ToLog? || p.ToInsert?
    requires m in Next(threshold, s, step).db.models
    ensures Settled(threshold, Next(threshold, s, step), m)
  {
    var s' := Next(threshold, s, step);
    SameReportsSameOpen(s.db, s'.db, m);
    if m in s.db.models {
      SettledCarries(threshold, s, s', step.w, m);
    } else {
      NoReportsNoneOpen(s.db, m);
    }
  }

  lemma StatementSettles(threshold: int, s: System, step: Step, m: int)
    requires threshold >= 1 && Invariant(threshold, s) && step.Statement? && Enabled(s, step)
    requires m in Next(threshold, s, step).db.models
    ensures Settled(threshold, Next(threshold, s, step), m)
  {
    match s.workers[step.w]
    case ToUpsert(_, _) => UpsertSettles(threshold, s, step, m);
    case ToCount(_) => CountSettles(threshold, s, step, m);
    case ToHide(_, _) => HideSettles(threshold, s, step, m);
    case ToSetVisibility(_, _, _) => ActionSettles(threshold, s, step, m);
    case ToResolve(_, _, _) => ActionSettles(threshold, s, step, m);
    case _ => OtherSettles(threshold, s, step, m);
  }

  /** A worker that dies before settling `m` leaves it on record as lost. */
  lemma CrashSettles(threshold: int, s: System, w: nat, m: int)
    requires Invariant(threshold, s) && w in s.workers && m in s.db.models
    ensures Settled(threshold, Next(threshold, s, Crash(w)), m)
  {
    var s' := Next(threshold, s, Crash(w));
    if u :| u in s.workers && WillSettle(threshold, s.workers[u], m) {
      assert u != w ==> u in s'.workers && WillSettle(threshold, s'.workers[u], m);
    }
  }

  /** Taking up work, or lifting a ban, leaves models and reports alone. */
  lemma OtherStepSettles(threshold: int, s: System, step: Step, m: int)
    requires Invariant(threshold, s) && !step.Statement? && !step.Crash? && Enabled(s, step) && m in s.db.models
    ensures Settled(threshold, Next(threshold, s, step), m)
  {
    var s' := Next(threshold, s, step);
    SameReportsSameOpen(s.db, s'.db, m);
    assert forall u :: u in s.workers ==> u in s'.workers && s'.workers[u] == s.workers[u];
    if u :| u in s.workers && WillSettle(threshold, s.workers[u], m) {
      assert WillSettle(threshold, s'.workers[u], m);
    }
  }

  lemma StepKeepsInvariant(threshold: int, s: System, step: Step)
    requires threshold >= 1 && Invariant(threshold, s) && Enabled(s, step)
    ensures Invariant(threshold, Next(threshold, s, step))
  {
    var s' := Next(threshold, s, step);
    forall m | m in s'.db.models
      ensures Settled(threshold, s', m)
    {
      if step.Statement? {
        StatementSettles(threshold, s, step, m);
      } else if step.Crash? {
        CrashSettles(threshold, s, step.w, m);
      } else {
        OtherStepSettles(threshold, s, step, m);
      }
    }
    StepKeepsKeys(threshold, s, step);
  }

  /** Models are never removed, so no report and no waiting report statement loses its model. */
  lemma StepKeepsKeys(threshold: int, s: System, step: Step)
    requires Invariant(threshold, s) && Enabled(s, step)
    ensures var s' := Next(threshold, s, step);
      && s.db.models.Keys <= s'.db.models.Keys
      && (forall w :: w in s'.workers && (s'.workers[w].ToUpsert? || s'.workers[w].ToCount?) ==> s'.workers[w].m in s'.db.models)
      && (forall m, k :: (m, k) in s'.db.reports ==> m in s'.db.models)
  {
    var s' := Next(threshold, s, step);
    assert s.db.models.Keys <= s'.db.models.Keys;
    assert forall m, k :: (m, k) in s'.db.reports ==>
      (m, k) in s.db.reports || (step.Statement? && s.workers[step.w].ToUpsert? && m == s.workers[step.w].m);
  }

  lemma {:induction false} RunKeepsInvariant(threshold: int, s: System, steps: seq<Step>)
    requires threshold >= 1 && Invariant(threshold, s) && Possible(threshold, s, steps)
    ensures Invariant(threshold, RunFrom(threshold, s, steps))
    decreases |steps|
  {
    if steps != [] {
      StepKeepsInvariant(threshold, s, steps[0]);
      RunKeepsInvariant(threshold, Next(threshold, s, steps[0]), steps[1..]);
    }
  }

  /**
   However reports and admin actions interleave and die, once no report on `m` is past its insert
   and no approve of `m` before its resolve, and a later count, resolve or hiding has made up for
   any that died there, enough open reports mean the model is not public.
   */
  lemma EnoughReportsHide(threshold: int, steps: seq<Step>, m: int)
    requires threshold >= 1 && Possible(threshold, START, steps)
    ensures var s := RunFrom(threshold, START, steps);
      Quiet(s, m) && |OpenReporters(s.db, m)| >= threshold ==> !IsPublic(s.db, m)
  {
    RunKeepsInvariant(threshold, START, steps);
    var s := RunFrom(threshold, START, steps);
    if IsPublic(s.db, m) {
      assert Settled(threshold, s, m);
    }
  }

  /** Nobody dies in the run of an upload alone. */
  lemma NothingLost(threshold: int, s: System, begin: Step, st: Step)
    requires st.Statement? && begin.BeginUpload? && begin.w == st.w && Enabled(s, begin)
    ensures RunFrom(threshold, s, AllOf(threshold, s, begin, st)).lost == s.lost
  {
    var s' := Next(threshold, s, begin);
    assert Repeat(st, 1) == [st] + Repeat(st, 0) && Repeat(st, 0) == [];
    Cons(threshold, s, begin, Repeat(st, 1));
    Cons(threshold, s', st, Repeat(st, 0));
  }

  /** The claim needs a positive threshold: otherwise a fresh upload is public with enough reports already. */
  lemma ThresholdMustBePositive(threshold: int)
    ensures (forall steps, m :: Possible(threshold, START, steps) ==>
               var s := RunFrom(threshold, START, steps);
               Quiet(s, m) && |OpenReporters(s.db, m)| >= threshold ==> !IsPublic(s.db, m))
       <==> threshold >= 1
  {
    if threshold >= 1 {
      forall steps, m | Possible(threshold, START, steps)
        ensures var s := RunFrom(threshold, START, steps);
          Quiet(s, m) && |OpenReporters(s.db, m)| >= threshold ==> !IsPublic(s.db, m)
      {
        EnoughReportsHide(threshold, steps, m);
      }
    } else {
      var st := Statement(0, "", "", "", 0);
      var steps := AllOf(threshold, START, BeginUpload(0, 1, "a"), st);
      UploadAlone(threshold, START, 1, "a", st);
      NothingLost(threshold, START, BeginUpload(0, 1, "a"), st);
      var s := RunFrom(threshold, START, steps);
      assert Quiet(s, 1) && IsPublic(s.db, 1);
    }
  }

  /** No statement of anyone takes a deleted model out of that state. */
  lemma {:induction false} DeletedForever(threshold: int, s: System, steps: seq<Step>, m: int)
    requires IsDeleted(s.db, m)
    ensures IsDeleted(RunFrom(threshold, s, steps).db, m)
    decreases |steps|
  {
    if steps != [] {
      DeletedForever(threshold, Next(threshold, s, steps[0]), steps[1..], m);
    }
  }

  // ---- a worker left alone --------------------------------------------------

  /** At most so many statements are left to the worker. */
  function Remaining(p: Phase): nat {
    match p
    case ToFind(_, _) => 4
    case ToUpsert(_, _) => 3
    case ToCount(_) => 2
    case ToSetVisibility(_, a, _) => if a == Unlist then 2 else if a == BanAuthor then 5 else 3
    case ToResolve(_, a, _) => if a == BanAuthor then 4 else 2
    case ToBan(_, _, _) => 3
    case ToDeleteAll(_, _, _) => 2
    case _ => 1
  }

  /** The tables once the worker has run all its statements undisturbed. */
  function Finish(threshold: int, db: Db, p: Phase, st: Step): Db
    requires st.Statement?
    decreases Remaining(p)
  {
    var (db', next) := Execute(threshold, db, p, st.actor, st.reason, st.detail, st.now);
    if next.Some? then Finish(threshold, db', next.value, st) else db'
  }

  /** How many that were. */
  function Length(threshold: int, db: Db, p: Phase, st: Step): nat
    requires st.Statement?
    decreases Remaining(p)
  {
    var (db', next) := Execute(threshold, db, p, st.actor, st.reason, st.detail, st.now);
    1 + if next.Some? then Length(threshold, db', next.value, st) else 0
  }

  function Repeat(st: Step, n: nat): seq<Step> {
    if n == 0 then [] else [st] + Repeat(st, n - 1)
  }

  lemma {:induction false} RunAlone(threshold: int, s: System, st: Step)
    requires st.Statement? && st.w in s.workers
    ensures var p := s.workers[st.w]; var steps := Repeat(st, Length(threshold, s.db, p, st)); var t := RunFrom(threshold, s, steps);
      && Possible(threshold, s, steps)
      && t.db == Finish(threshold, s.db, p, st) && t.workers == s.workers - {st.w}
    decreases Remaining(s.workers[st.w])
  {
    var p, s' := s.workers[st.w], Next(threshold, s, st);
    var next := Execute(threshold, s.db, p, st.actor, st.reason, st.detail, st.now).1;
    Cons(threshold, s, st, Repeat(st, Length(threshold, s.db, p, st) - 1));
    if next.Some? {
      RunAlone(threshold, s', st);
      assert s'.workers - {st.w} == s.workers - {st.w};
    } else {
      assert Repeat(st, 0) == [];
    }
  }

  lemma FinishDelete(threshold: int, db: Db, m: int, a: Action, author: Key, st: Step)
    requires st.Statement?
    ensures Finish(threshold, db, ToDeleteAll(m, a, author), st)
         == AppendLog(DeleteByAuthor(db, author), LogEntry(m, st.actor, a, st.reason, st.now))
    ensures Finish(threshold, db, ToLog(m, a), st) == AppendLog(db, LogEntry(m, st.actor, a, st.reason, st.now))
  {
  }

  lemma FinishResolve(threshold: int, db: Db, m: int, a: Action, author: Key, st: Step)
    requires st.Statement? && a != Unlist
    ensures var db' := ResolveReports(db, m, st.now);
      Finish(threshold, db, ToResolve(m, a, author), st)
      == AppendLog(if a == BanAuthor then DeleteByAuthor(UpsertBan(db', author, st.reason, st.now), author) else db',
                   LogEntry(m, st.actor, a, st.reason, st.now))
  {
    var db' := ResolveReports(db, m, st.now);
    FinishDelete(threshold, db', m, a, author, st);
    FinishDelete(threshold, UpsertBan(db', author, st.reason, st.now), m, a, author, st);
    if a == BanAuthor {
      assert Finish(threshold, db', ToBan(m, a, author), st)
          == Finish(threshold, UpsertBan(db', author, st.reason, st.now), ToDeleteAll(m, a, author), st);
    }
  }

  /** `begin` and then every statement of its worker, with nobody in between. */
  function AllOf(threshold: int, s: System, begin: Step, st: Step): seq<Step>
    requires st.Statement?
  {
    var s' := Next(threshold, s, begin);
    [begin] + if st.w in s'.workers then Repeat(st, Length(threshold, s'.db, s'.workers[st.w], st)) else []
  }

  lemma AllOfRuns(threshold: int, s: System, begin: Step, st: Step)
    requires st.Statement? && Enabled(s, begin) && st.w in Next(threshold, s, begin).workers
    ensures var s' := Next(threshold, s, begin); var t := RunFrom(threshold, s, AllOf(threshold, s, begin, st));
      && Possible(threshold, s, AllOf(threshold, s, begin, st))
      && t.db == Finish(threshold, s'.db, s'.workers[st.w], st) && t.workers == s'.workers - {st.w}
  {
    var s' := Next(threshold, s, begin);
    RunAlone(threshold, s', st);
    Cons(threshold, s, begin, Repeat(st, Length(threshold, s'.db, s'.workers[st.w], st)));
  }

  /** Left alone, an admin action's statements come to the action as a whole. */
  lemma ActionAlone(threshold: int, s: System, m: int, a: Action, st: Step)
    requires st.Statement? && Enabled(s, BeginAction(st.w, m, a))
    ensures var steps := AllOf(threshold, s, BeginAction(st.w, m, a), st); var t := RunFrom(threshold, s, steps);
      && Possible(threshold, s, steps)
      && t.db == AfterAction(s.db, m, a, st.actor, st.reason, st.now) && t.workers == s.workers
  {
    var author := s.db.models[m].author;
    var s' := Next(threshold, s, BeginAction(st.w, m, a));
    AllOfRuns(threshold, s, BeginAction(st.w, m, a), st);
    assert s'.workers - {st.w} == s.workers;
    var db1 := SetVisibility(s.db, m, ActionVisibility(a));
    if a == Unlist {
      FinishDelete(threshold, db1, m, a, author, st);
    } else {
      FinishResolve(threshold, db1, m, a, author, st);
    }
    StatementsAreAction(s.db, m, a, st.actor, st.reason, st.now);
  }

  /** Left alone, an approve of a model that is not deleted ends with it public and no report on it open. */
  lemma ApproveAlone(threshold: int, s: System, m: int, st: Step)
    requires st.Statement? && Enabled(s, BeginAction(st.w, m, Approve)) && !IsDeleted(s.db, m)
    ensures var steps := AllOf(threshold, s, BeginAction(st.w, m, Approve), st); var t := RunFrom(threshold, s, steps);
      Possible(threshold, s, steps) && IsPublic(t.db, m) && OpenReporters(t.db, m) == {}
  {
    ActionAlone(threshold, s, m, Approve, st);
    ActionMoves(s.db, m, Approve, st.actor, st.reason, st.now);
  }

  /** Left alone, a report's statements come to the report as a whole, or to nothing when the model is not there. */
  lemma ReportAlone(threshold: int, s: System, m: int, k: Key, st: Step)
    requires st.Statement? && Enabled(s, BeginReport(st.w, m, k))
    ensures var steps := AllOf(threshold, s, BeginReport(st.w, m, k), st); var t := RunFrom(threshold, s, steps);
      && Possible(threshold, s, steps) && t.workers == s.workers
      && t.db == if m in s.db.models && !IsDeleted(s.db, m) then AfterReport(threshold, s.db, m, k, st.reason, st.detail, st.now) else s.db
  {
    var s' := Next(threshold, s, BeginReport(st.w, m, k));
    AllOfRuns(threshold, s, BeginReport(st.w, m, k), st);
    assert s'.workers - {st.w} == s.workers;
    var db' := UpsertReport(s.db, m, k, st.reason, st.detail, st.now);
    assert Finish(threshold, db', ToCount(m), st) == Finish(threshold, db', ToHide(m, |OpenReporters(db', m)|), st);
    assert Finish(threshold, s.db, ToUpsert(m, k), st) == Finish(threshold, db', ToCount(m), st);
  }

  /** Left alone, an upload of a new model makes it public. */
  lemma UploadAlone(threshold: int, s: System, m: int, author: Key, st: Step)
    requires st.Statement? && Enabled(s, BeginUpload(st.w, m, author))
    ensures var steps := AllOf(threshold, s, BeginUpload(st.w, m, author), st); var t := RunFrom(threshold, s, steps);
      Possible(threshold, s, steps) && t.db == InsertModel(s.db, m, author) && t.workers == s.workers
    ensures var t := RunFrom(threshold, s, AllOf(threshold, s, BeginUpload(st.w, m, author), st));
      && (m !in s.db.models ==> IsPublic(t.db, m) && t.db.models[m].author == author)
      && (forall i :: i in s.db.models ==> i in t.db.models && t.db.models[i] == s.db.models[i])
  {
    AllOfRuns(threshold, s, BeginUpload(st.w, m, author), st);
    assert Next(threshold, s, BeginUpload(st.w, m, author)).workers - {st.w} == s.workers;
  }

  lemma Cons(threshold: int, s: System, step: Step, rest: seq<Step>)
    ensures RunFrom(threshold, s, [step] + rest) == RunFrom(threshold, Next(threshold, s, step), rest)
    ensures Possible(threshold, s, [step] + rest) <==> Enabled(s, step) && Possible(threshold, Next(threshold, s, step), rest)
  {
    assert ([step] + rest)[1..] == rest;
  }

  lemma {:induction false} RunThenRun(threshold: int, s: System, a: seq<Step>, b: seq<Step>)
    ensures RunFrom(threshold, s, a + b) == RunFrom(threshold, RunFrom(threshold, s, a), b)
    ensures Possible(threshold, s, a + b) <==> Possible(threshold, s, a) && Possible(threshold, RunFrom(threshold, s, a), b)
    decreases |a|
  {
    if a == [] {
      assert a + b == b;
    } else {
      assert (a + b)[0] == a[0] && (a + b)[1..] == a[1..] + b;
      RunThenRun(threshold, Next(threshold, s, a[0]), a[1..], b);
    }
  }
}
