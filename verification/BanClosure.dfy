/**
 When a ban is airtight, statement by statement: exactly which steps leave a model by a banned key
 standing, and two runs that do.
 */
module BanClosure {
  import opened Moderation
  import opened AutoHide

  /** Some worker has still to delete everything by `k`. */
  ghost predicate Doomed(s: System, k: Key) {
    exists w :: w in s.workers && s.workers[w].ToDeleteAll? && s.workers[w].author == k
  }

  ghost predicate Standing(db: Db, m: int) {
    m in db.models && db.models[m].author in db.bans && db.models[m].visibility != Deleted
  }

  /** Every model by a banned key is deleted, or about to be. */
  ghost predicate Closed(s: System) {
    forall m :: Standing(s.db, m) ==> Doomed(s, s.db.models[m].author)
  }

  /** An upload that passed its ban check inserts under a key banned since, with nobody left to delete it. */
  ghost predicate InsertsLate(s: System, step: Step) {
    step.Statement? && step.w in s.workers && s.workers[step.w].ToInsert?
    && var p := s.workers[step.w]; p.author in s.db.bans && p.m !in s.db.models && !Doomed(s, p.author)
  }

  /** A ban dies between its ban statement and its delete, with a model standing and nobody else to delete it. */
  ghost predicate DiesBeforeDelete(s: System, step: Step) {
    step.Crash? && step.w in s.workers && s.workers[step.w].ToDeleteAll?
    && var k := s.workers[step.w].author;
       && (exists m :: Standing(s.db, m) && s.db.models[m].author == k)
       && (forall w :: w in s.workers && w != step.w && s.workers[w].ToDeleteAll? ==> s.workers[w].author != k)
  }

  ghost predicate Breaks(s: System, step: Step) {
    InsertsLate(s, step) || DiesBeforeDelete(s, step)
  }

  /** Workers other than the one that moves keep a key doomed. */
  lemma DoomedCarries(s: System, s': System, w: nat, k: Key)
    requires Doomed(s, k)
    requires forall u :: u in s.workers && u != w ==> u in s'.workers && s'.workers[u] == s.workers[u]
    requires w in s.workers && s.workers[w].ToDeleteAll? ==> s.workers[w].author != k
    ensures Doomed(s', k)
  {
    var u :| u in s.workers && s.workers[u].ToDeleteAll? && s.workers[u].author == k;
    assert u in s'.workers && s'.workers[u] == s.workers[u];
  }

  lemma StatementCloses(threshold: int, s: System, step: Step, m: int)
    requires Closed(s) && step.Statement? && Enabled(s, step) && !InsertsLate(s, step)
    requires Standing(Next(threshold, s, step).db, m)
    ensures Doomed(Next(threshold, s, step), Next(threshold, s, step).db.models[m].author)
  {
    var s', p := Next(threshold, s, step), s.workers[step.w];
    var k := s'.db.models[m].author;
    if p.ToBan? && p.author == k {
      assert s'.workers[step.w].ToDeleteAll? && s'.workers[step.w].author == k;
    } else {
      if !p.ToInsert? || p.m != m || p.m in s.db.models {
        assert Standing(s.db, m);
      }
      DoomedCarries(s, s', step.w, k);
    }
  }

  lemma OtherStepCloses(threshold: int, s: System, step: Step, m: int)
    requires Closed(s) && !step.Statement? && Enabled(s, step) && !DiesBeforeDelete(s, step)
    requires Standing(Next(threshold, s, step).db, m)
    ensures Doomed(Next(threshold, s, step), Next(threshold, s, step).db.models[m].author)
  {
    var s' := Next(threshold, s, step);
    var k := s'.db.models[m].author;
    assert Standing(s.db, m) && s.db.models[m].author == k;
    if step.Crash? && s.workers[step.w].ToDeleteAll? && s.workers[step.w].author == k {
      var u :| u in s.workers && u != step.w && s.workers[u].ToDeleteAll? && s.workers[u].author == k;
      assert u in s'.workers && s'.workers[u] == s.workers[u];
    } else {
      var u :| u in s.workers && s.workers[u].ToDeleteAll? && s.workers[u].author == k;
      assert u in s'.workers && s'.workers[u] == s.workers[u];
    }
  }

  lemma LateInsertOpens(threshold: int, s: System, step: Step)
    requires Enabled(s, step) && InsertsLate(s, step)
    ensures !Closed(Next(threshold, s, step))
  {
    var s', p := Next(threshold, s, step), s.workers[step.w];
    assert Standing(s'.db, p.m) && s'.db.models[p.m].author == p.author;
    assert forall u :: u in s'.workers ==> u in s.workers && s'.workers[u] == s.workers[u];
  }

  lemma DeathOpens(threshold: int, s: System, step: Step)
    requires Enabled(s, step) && DiesBeforeDelete(s, step)
    ensures !Closed(Next(threshold, s, step))
  {
    var s', k := Next(threshold, s, step), s.workers[step.w].author;
    var m :| Standing(s.db, m) && s.db.models[m].author == k;
    assert Standing(s'.db, m);
    assert forall u :: u in s'.workers ==> u in s.workers && u != step.w && s'.workers[u] == s.workers[u];
  }

  /** One step keeps bans airtight exactly when it is not one of the two that break them. */
  lemma StepClosesIff(threshold: int, s: System, step: Step)
    requires Closed(s) && Enabled(s, step)
    ensures Closed(Next(threshold, s, step)) <==> !Breaks(s, step)
  {
    var s' := Next(threshold, s, step);
    if InsertsLate(s, step) {
      LateInsertOpens(threshold, s, step);
    } else if DiesBeforeDelete(s, step) {
      DeathOpens(threshold, s, step);
    } else {
      forall m | Standing(s'.db, m)
        ensures Doomed(s', s'.db.models[m].author)
      {
        if step.Statement? {
          StatementCloses(threshold, s, step, m);
        } else {
          OtherStepCloses(threshold, s, step, m);
        }
      }
    }
  }

  ghost predicate AlwaysClosed(threshold: int, s: System, steps: seq<Step>)
    decreases |steps|
  {
    Closed(s) && (steps != [] ==> AlwaysClosed(threshold, Next(threshold, s, steps[0]), steps[1..]))
  }

  ghost predicate NeverBreaks(threshold: int, s: System, steps: seq<Step>)
    decreases |steps|
  {
    steps != [] ==> !Breaks(s, steps[0]) && NeverBreaks(threshold, Next(threshold, s, steps[0]), steps[1..])
  }

  lemma {:induction false} RunClosesIff(threshold: int, s: System, steps: seq<Step>)
    requires Closed(s) && Possible(threshold, s, steps)
    ensures AlwaysClosed(threshold, s, steps) <==> NeverBreaks(threshold, s, steps)
    decreases |steps|
  {
    if steps != [] {
      StepClosesIff(threshold, s, steps[0]);
      if Closed(Next(threshold, s, steps[0])) {
        RunClosesIff(threshold, Next(threshold, s, steps[0]), steps[1..]);
      }
    }
  }

  lemma {:induction false} ClosedAtTheEnd(threshold: int, s: System, steps: seq<Step>)
    requires AlwaysClosed(threshold, s, steps)
    ensures Closed(RunFrom(threshold, s, steps))
    decreases |steps|
  {
    if steps != [] {
      ClosedAtTheEnd(threshold, Next(threshold, s, steps[0]), steps[1..]);
    }
  }

  /**
   Bans are airtight throughout a run, every model by a banned key deleted or about to be, if and only if no
   upload inserts late and no ban dies before its delete; and then every model by a banned key nobody is still
   deleting is deleted.
   */
  lemma BansAirtightIff(threshold: int, steps: seq<Step>)
    requires Possible(threshold, START, steps)
    ensures AlwaysClosed(threshold, START, steps) <==> NeverBreaks(threshold, START, steps)
    ensures NeverBreaks(threshold, START, steps) ==>
      var s := RunFrom(threshold, START, steps);
      forall m :: m in s.db.models && s.db.models[m].author in s.db.bans && !Doomed(s, s.db.models[m].author) ==> IsDeleted(s.db, m)
  {
    RunClosesIff(threshold, START, steps);
    if NeverBreaks(threshold, START, steps) {
      ClosedAtTheEnd(threshold, START, steps);
      var s := RunFrom(threshold, START, steps);
      forall m | m in s.db.models && s.db.models[m].author in s.db.bans && !Doomed(s, s.db.models[m].author)
        ensures IsDeleted(s.db, m)
      {
        assert !Standing(s.db, m);
      }
    }
  }

  // ---- the two ways to break it ---------------------------------------------

  /** Nobody is at work, and a model by a banned key is public. */
  ghost predicate Leaked(s: System, m: int) {
    s.workers == map[] && IsPublic(s.db, m) && s.db.models[m].author in s.db.bans
  }

  /** A worker past its ban check inserts, whatever was banned meanwhile. */
  lemma InsertsAnyway(threshold: int, s: System, m: int, author: Key, st: Step)
    requires st.Statement? && s.workers == map[st.w := ToInsert(m, author)] && m !in s.db.models
    ensures var s' := RunFrom(threshold, s, [st]);
      Possible(threshold, s, [st]) && s'.workers == map[] && s'.db == InsertModel(s.db, m, author)
  {
    Cons(threshold, s, st, []);
    assert [st] + [] == [st];
    assert Next(threshold, s, st).workers == map[];
  }

  /** With a public model 1 by "a": an upload by "a" begins, "a" is banned, the upload ends. */
  lemma BanDuringUpload(threshold: int, s: System) returns (steps: seq<Step>)
    requires s.db == InsertModel(EMPTY, 1, "a") && s.workers == map[]
    ensures Possible(threshold, s, steps) && Leaked(RunFrom(threshold, s, steps), 2)
  {
    var go0, go1 := Statement(0, "", "", "", 0), Statement(1, "", "", "", 0);
    var s1 := Next(threshold, s, BeginUpload(0, 2, "a"));
    var ban := AllOf(threshold, s1, BeginAction(1, 1, BanAuthor), go1);
    ActionAlone(threshold, s1, 1, BanAuthor, go1);
    var s2 := RunFrom(threshold, s1, ban);
    InsertsAnyway(threshold, s2, 2, "a", go0);
    RunThenRun(threshold, s1, ban, [go0]);
    Cons(threshold, s, BeginUpload(0, 2, "a"), ban + [go0]);
    steps := [BeginUpload(0, 2, "a")] + (ban + [go0]);
  }

  /** A run with an insert that comes late: it ends with a public model by a banned key. */
  lemma BanRace(threshold: int)
    ensures exists steps :: Possible(threshold, START, steps) && Leaked(RunFrom(threshold, START, steps), 2)
  {
    var go := Statement(0, "", "", "", 0);
    var up := AllOf(threshold, START, BeginUpload(0, 1, "a"), go);
    UploadAlone(threshold, START, 1, "a", go);
    var rest := BanDuringUpload(threshold, RunFrom(threshold, START, up));
    RunThenRun(threshold, START, up, rest);
  }

  /** With public models 1 and 2 by "a": the ban of "a" over model 1 dies before it deletes. */
  lemma BanCutShort(threshold: int, s: System)
    requires s.db == InsertModel(InsertModel(EMPTY, 1, "a"), 2, "a") && s.workers == map[]
    ensures var go := Statement(0, "", "", "", 0); var steps := [BeginAction(0, 1, BanAuthor), go, go, go, Crash(0)];
      Possible(threshold, s, steps) && Leaked(RunFrom(threshold, s, steps), 2)
  {
    var go := Statement(0, "", "", "", 0);
    var s1 := Next(threshold, s, BeginAction(0, 1, BanAuthor));
    var s2 := Next(threshold, s1, go);
    var s3 := Next(threshold, s2, go);
    var s4 := Next(threshold, s3, go);
    var s5 := Next(threshold, s4, Crash(0));
    assert s4.workers[0].ToDeleteAll? && s5.workers == map[];
    FiveSteps(threshold, s, BeginAction(0, 1, BanAuthor), go, go, go, Crash(0));
  }

  lemma FiveSteps(threshold: int, s: System, a: Step, b: Step, c: Step, d: Step, e: Step)
    ensures var s1 := Next(threshold, s, a); var s2 := Next(threshold, s1, b); var s3 := Next(threshold, s2, c); var s4 := Next(threshold, s3, d);
      && RunFrom(threshold, s, [a, b, c, d, e]) == Next(threshold, s4, e)
      && (Possible(threshold, s, [a, b, c, d, e]) <==>
            Enabled(s, a) && Enabled(s1, b) && Enabled(s2, c) && Enabled(s3, d) && Enabled(s4, e))
  {
    var s1 := Next(threshold, s, a);
    var s2 := Next(threshold, s1, b);
    var s3 := Next(threshold, s2, c);
    Cons(threshold, s, a, [b, c, d, e]);
    assert [a] + [b, c, d, e] == [a, b, c, d, e];
    Cons(threshold, s1, b, [c, d, e]);
    assert [b] + [c, d, e] == [b, c, d, e];
    Cons(threshold, s2, c, [d, e]);
    assert [c] + [d, e] == [c, d, e];
    Cons(threshold, s3, d, [e]);
    assert [d] + [e] == [d, e];
    Cons(threshold, Next(threshold, s3, d), e, []);
    assert [e] + [] == [e];
  }

  /** A run with a ban that dies before its delete: it ends the same way. */
  lemma BanDies(threshold: int)
    ensures exists steps :: Possible(threshold, START, steps) && Leaked(RunFrom(threshold, START, steps), 2)
  {
    var go := Statement(0, "", "", "", 0);
    var up1 := AllOf(threshold, START, BeginUpload(0, 1, "a"), go);
    UploadAlone(threshold, START, 1, "a", go);
    var s1 := RunFrom(threshold, START, up1);
    var up2 := AllOf(threshold, s1, BeginUpload(0, 2, "a"), go);
    UploadAlone(threshold, s1, 2, "a", go);
    var s2 := RunFrom(threshold, s1, up2);
    BanCutShort(threshold, s2);
    var ban := [BeginAction(0, 1, BanAuthor), go, go, go, Crash(0)];
    RunThenRun(threshold, s1, up2, ban);
    RunThenRun(threshold, START, up1, up2 + ban);
  }
}
