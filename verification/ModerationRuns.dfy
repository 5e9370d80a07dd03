/**
 Whole runs of the moderation tables with handlers as single steps: reports, admin actions by
 console or command line, uploads and lifted bans in any order.
 */
module ModerationRuns {
  import opened Common
  import opened Moderation

  datatype Event =
    | ReportBy(m: int, k: Key, reason: string, detail: string, now: int)
    | ActionBy(m: int, action: Action, actor: string, reason: string, now: int)
    | UploadBy(m: int, author: Key)
    | LiftBan(k: Key)

  predicate ReportPasses(db: Db, m: int, k: Key) {
    k !in db.bans && m in db.models && !IsDeleted(db, m)
  }

  /** A handler refuses what fails its checks and otherwise runs to its end. */
  function After(threshold: int, db: Db, e: Event): Db {
    match e
    case ReportBy(m, k, reason, detail, now) => if ReportPasses(db, m, k) then AfterReport(threshold, db, m, k, reason, detail, now) else db
    case ActionBy(m, action, actor, reason, now) => if m in db.models then AfterAction(db, m, action, actor, reason, now) else db
    case UploadBy(m, author) => if author in db.bans then db else InsertModel(db, m, author)
    case LiftBan(k) => Unban(db, k)
  }

  function Run(threshold: int, events: seq<Event>): Db {
    if events == [] then EMPTY
    else After(threshold, Run(threshold, events[..|events| - 1]), events[|events| - 1])
  }

  /** The event takes `m` from public to hidden without a moderator. */
  predicate AutoHides(threshold: int, db: Db, e: Event, m: int) {
    e.ReportBy? && e.m == m && IsPublic(db, m) && !IsPublic(After(threshold, db, e), m)
  }

  function TimesHidden(threshold: int, events: seq<Event>, m: int): nat {
    if events == [] then 0
    else
      var n := |events| - 1;
      TimesHidden(threshold, events[..n], m) + if AutoHides(threshold, Run(threshold, events[..n]), events[n], m) then 1 else 0
  }

  /** Keys whose report against `m` was ever taken, told from the events. */
  function EverReported(threshold: int, events: seq<Event>, m: int): set<Key> {
    if events == [] then {}
    else
      var n := |events| - 1;
      var e := events[n];
      EverReported(threshold, events[..n], m)
      + if e.ReportBy? && e.m == m && ReportPasses(Run(threshold, events[..n]), m, e.k) then {e.k} else {}
  }

  function Closed(db: Db, m: int): set<Key> {
    Reporters(db, m) - OpenReporters(db, m)
  }

  /** Reports that hid `m` are used up: closed while it is public, on the table while it is not. */
  ghost predicate Paid(threshold: int, db: Db, m: int, hidden: nat) {
    && threshold * hidden <= (if IsPublic(db, m) then |Closed(db, m)| else |Reporters(db, m)|)
    && (threshold >= 1 && IsPublic(db, m) ==> |OpenReporters(db, m)| < threshold)
    && (m !in db.models ==> hidden == 0 && Reporters(db, m) == {})
  }

  lemma TableSame(db: Db, db': Db, m: int)
    requires db'.reports == db.reports
    ensures Reporters(db', m) == Reporters(db, m) && OpenReporters(db', m) == OpenReporters(db, m)
  {
  }

  /** The reports table after an action. */
  lemma ActionReports(db: Db, n: int, action: Action, actor: string, reason: string, now: int, m: int)
    requires n in db.models
    ensures var db' := AfterAction(db, n, action, actor, reason, now);
      && Reporters(db', m) == Reporters(db, m)
      && OpenReporters(db', m) == if n == m && action != Unlist then {} else OpenReporters(db, m)
  {
    var db' := AfterAction(db, n, action, actor, reason, now);
    if action == Unlist {
      assert db'.reports == db.reports;
      TableSame(db, db', m);
    } else {
      assert db'.reports == ResolveReports(db, n, now).reports;
      ResolveEffect(db, n, now, m);
      TableSame(ResolveReports(db, n, now), db', m);
    }
  }

  lemma ActionPaid(threshold: int, db: Db, e: Event, m: int, hidden: nat)
    requires e.ActionBy? && Paid(threshold, db, m, hidden)
    ensures Paid(threshold, After(threshold, db, e), m, hidden)
  {
    if e.m in db.models {
      ActionReports(db, e.m, e.action, e.actor, e.reason, e.now, m);
      OpenAreReporters(db, m);
      SubsetSize(OpenReporters(db, m), Reporters(db, m));
      assert IsPublic(After(threshold, db, e), m) && !IsPublic(db, m) ==> e.m == m && e.action == Approve;
    }
  }

  /** The reports table after a report. */
  lemma ReportTable(threshold: int, db: Db, e: Event, m: int)
    requires e.ReportBy? && ReportPasses(db, e.m, e.k)
    ensures var db' := After(threshold, db, e);
      && Reporters(db', m) == Reporters(db, m) + (if e.m == m then {e.k} else {})
      && OpenReporters(db', m) == OpenReporters(db, m) + (if e.m == m && e.k !in Reporters(db, m) then {e.k} else {})
      && (IsPublic(db', m) <==> IsPublic(db, m) && (e.m == m ==> |OpenReporters(db', m)| < threshold))
  {
    var mid := UpsertReport(db, e.m, e.k, e.reason, e.detail, e.now);
    UpsertEffect(db, e.m, e.k, e.reason, e.detail, e.now, m);
    TableSame(mid, After(threshold, db, e), m);
    if e.m == m {
      assert HidesAt(threshold, mid, m) <==> |OpenReporters(mid, m)| >= threshold;
    }
  }

  lemma TimesOneMore(t: int, h: nat)
    ensures t * (h + 1) == t * h + t
  {
  }

  /** The sizes a report changes: at most one more reporter, and one more open report only with it. */
  lemma ReportSizes(threshold: int, db: Db, e: Event, m: int)
    requires e.ReportBy? && ReportPasses(db, e.m, e.k)
    ensures var db' := After(threshold, db, e);
      var isNew := e.m == m && e.k !in Reporters(db, m);
      && |Reporters(db', m)| == |Reporters(db, m)| + (if isNew then 1 else 0)
      && |OpenReporters(db', m)| == |OpenReporters(db, m)| + (if isNew then 1 else 0)
      && |Closed(db', m)| == |Closed(db, m)|
      && |Closed(db, m)| == |Reporters(db, m)| - |OpenReporters(db, m)|
  {
    var db' := After(threshold, db, e);
    ReportTable(threshold, db, e, m);
    OpenAreReporters(db, m);
    OpenAreReporters(db', m);
    SubsetSize(OpenReporters(db, m), Reporters(db, m));
    SubsetSize(OpenReporters(db', m), Reporters(db', m));
    if e.m == m && e.k in Reporters(db, m) {
      assert Reporters(db', m) == Reporters(db, m);
    }
  }

  lemma ReportPaid(threshold: int, db: Db, e: Event, m: int, hidden: nat)
    requires e.ReportBy? && Paid(threshold, db, m, hidden)
    ensures Paid(threshold, After(threshold, db, e), m, hidden + if AutoHides(threshold, db, e, m) then 1 else 0)
  {
    if ReportPasses(db, e.m, e.k) {
      ReportTable(threshold, db, e, m);
      ReportSizes(threshold, db, e, m);
      TimesOneMore(threshold, hidden);
      if threshold < 1 {
        NegativeTimes(threshold, hidden);
      }
    }
  }

  lemma NegativeTimes(t: int, h: nat)
    requires t <= 0
    ensures t * h <= 0 && t * (h + 1) <= 0
  {
  }

  lemma StepPaid(threshold: int, db: Db, e: Event, m: int, hidden: nat)
    requires Paid(threshold, db, m, hidden)
    ensures Paid(threshold, After(threshold, db, e), m, hidden + if AutoHides(threshold, db, e, m) then 1 else 0)
  {
    match e
    case ReportBy(_, _, _, _, _) => ReportPaid(threshold, db, e, m, hidden);
    case ActionBy(_, _, _, _, _) => ActionPaid(threshold, db, e, m, hidden);
    case UploadBy(_, _) => TableSame(db, After(threshold, db, e), m);
    case LiftBan(_) => TableSame(db, After(threshold, db, e), m);
  }

  lemma {:induction false} RunPaid(threshold: int, events: seq<Event>, m: int)
    ensures Paid(threshold, Run(threshold, events), m, TimesHidden(threshold, events, m))
  {
    if events != [] {
      var n := |events| - 1;
      RunPaid(threshold, events[..n], m);
      StepPaid(threshold, Run(threshold, events[..n]), events[n], m, TimesHidden(threshold, events[..n], m));
    }
  }

  /** The table remembers every key that ever reported: rows are resolved, never removed. */
  lemma {:induction false} TableRemembersReporters(threshold: int, events: seq<Event>, m: int)
    ensures Reporters(Run(threshold, events), m) == EverReported(threshold, events, m)
  {
    if events != [] {
      var n := |events| - 1;
      var db, e := Run(threshold, events[..n]), events[n];
      TableRemembersReporters(threshold, events[..n], m);
      match e
      case ReportBy(_, _, _, _, _) =>
        if ReportPasses(db, e.m, e.k) {
          ReportTable(threshold, db, e, m);
        }
      case ActionBy(_, _, _, _, _) =>
        if e.m in db.models {
          ActionReports(db, e.m, e.action, e.actor, e.reason, e.now, m);
        }
      case UploadBy(_, _) => TableSame(db, After(threshold, db, e), m);
      case LiftBan(_) => TableSame(db, After(threshold, db, e), m);
    }
  }

  /**
   Every time a model is hidden without a moderator, that takes a threshold's worth of keys that
   had not reported it before: a closed report is never counted again.
   */
  lemma HidingIsPaidFor(threshold: int, events: seq<Event>, m: int)
    ensures threshold * TimesHidden(threshold, events, m) <= |EverReported(threshold, events, m)|
  {
    RunPaid(threshold, events, m);
    TableRemembersReporters(threshold, events, m);
    var db := Run(threshold, events);
    OpenAreReporters(db, m);
    SubsetSize(OpenReporters(db, m), Reporters(db, m));
  }

  /** A public model always has fewer open reports than the threshold. */
  lemma PublicBelowThreshold(threshold: int, events: seq<Event>, m: int)
    requires threshold >= 1
    ensures IsPublic(Run(threshold, events), m) ==> |OpenReporters(Run(threshold, events), m)| < threshold
  {
    RunPaid(threshold, events, m);
  }

  ghost predicate BansClosed(db: Db) {
    forall m :: m in db.models && db.models[m].author in db.bans ==> db.models[m].visibility == Deleted
  }

  lemma StepBansClosed(threshold: int, db: Db, e: Event)
    requires BansClosed(db)
    ensures BansClosed(After(threshold, db, e))
    ensures forall m :: IsDeleted(db, m) ==> IsDeleted(After(threshold, db, e), m)
  {
  }

  /** Every model by a key that is banned now is deleted, whoever banned it and whatever came between. */
  lemma {:induction false} BannedAuthorsDeleted(threshold: int, events: seq<Event>)
    ensures BansClosed(Run(threshold, events))
  {
    if events != [] {
      BannedAuthorsDeleted(threshold, events[..|events| - 1]);
      StepBansClosed(threshold, Run(threshold, events[..|events| - 1]), events[|events| - 1]);
    }
  }

  /** The keys in `s`, and no others, have reported `m`, all still open, and together have hidden it if they can. */
  ghost predicate Reached(threshold: int, events: seq<Event>, m: int, s: set<Key>) {
    var db := Run(threshold, events);
    && db.bans == map[] && m in db.models && !IsDeleted(db, m)
    && Reporters(db, m) == s && OpenReporters(db, m) == s
    && (IsPublic(db, m) <==> |s| < threshold)
    && TimesHidden(threshold, events, m) == if |s| >= threshold then 1 else 0
  }

  lemma ReachedAfterUpload(threshold: int, m: int, author: Key)
    requires threshold >= 1
    ensures Reached(threshold, [UploadBy(m, author)], m, {})
  {
    var events := [UploadBy(m, author)];
    assert events[..0] == [] && Run(threshold, []) == EMPTY;
    TableSame(EMPTY, Run(threshold, events), m);
    assert Reporters(EMPTY, m) == {};
  }

  lemma ReachedAfterReport(threshold: int, events: seq<Event>, m: int, s: set<Key>, k: Key)
    requires Reached(threshold, events, m, s) && k !in s && |s| < threshold
    ensures Reached(threshold, events + [ReportBy(m, k, "spam", "", 0)], m, s + {k})
  {
    var e := ReportBy(m, k, "spam", "", 0);
    var all := events + [e];
    assert all[..|events|] == events && all[|events|] == e;
    ReportTable(threshold, Run(threshold, events), e, m);
    assert |s + {k}| == |s| + 1;
  }

  lemma ReachedOneMore(threshold: int, events: seq<Event>, m: int, keys: seq<Key>, k: Key)
    requires Distinct(keys + [k]) && |keys| < threshold && Reached(threshold, events, m, Elements(keys))
    ensures Reached(threshold, events + [ReportBy(m, k, "spam", "", 0)], m, Elements(keys + [k]))
  {
    assert forall i :: 0 <= i < |keys| ==> (keys + [k])[i] == keys[i];
    assert (keys + [k])[|keys|] == k;
    DistinctSize(keys);
    ElementsSnoc(keys, k);
    ReachedAfterReport(threshold, events, m, Elements(keys), k);
  }

  lemma {:induction false} ReportsAddUp(threshold: int, keys: seq<Key>, m: int, author: Key) returns (events: seq<Event>)
    requires threshold >= 1 && Distinct(keys) && |keys| <= threshold
    ensures Reached(threshold, events, m, Elements(keys))
  {
    if keys == [] {
      events := [UploadBy(m, author)];
      ReachedAfterUpload(threshold, m, author);
      assert Elements(keys) == {};
    } else {
      var before, k := keys[..|keys| - 1], keys[|keys| - 1];
      assert keys == before + [k];
      var earlier := ReportsAddUp(threshold, before, m, author);
      ReachedOneMore(threshold, earlier, m, before, k);
      events := earlier + [ReportBy(m, k, "spam", "", 0)];
    }
  }

  /** The limit is attained: any threshold's worth of distinct keys hides a fresh model once. */
  lemma HidingAttained(threshold: int, keys: seq<Key>, m: int, author: Key)
    requires threshold >= 1 && Distinct(keys) && |keys| == threshold
    ensures exists events :: TimesHidden(threshold, events, m) == 1 && |EverReported(threshold, events, m)| == threshold
  {
    var events := ReportsAddUp(threshold, keys, m, author);
    DistinctSize(keys);
    TableRemembersReporters(threshold, events, m);
  }
}
