/**
 The moderation tables, the SQL statements on them, and the handlers that run those statements
 in order: reports with auto-hide, and admin actions over HTTP and from the command line.
 */
module Moderation {
  import opened Common
  import opened Text

  type Key = string

  datatype Visibility = Public | Unlisted | Deleted

  datatype Model = Model(author: Key, visibility: Visibility)

  datatype Report = Report(reason: string, detail: string, createdAt: int, resolvedAt: Option<int>)

  datatype Ban = Ban(reason: string, createdAt: int)

  datatype Action = Approve | Unlist | Delete | BanAuthor

  datatype LogEntry = LogEntry(model: int, adminKey: string, action: Action, reason: string, createdAt: int)

  /** Reports are keyed by (model, reporter), bans by key. */
  datatype Db = Db(models: map<int, Model>, reports: map<(int, Key), Report>, bans: map<Key, Ban>, log: seq<LogEntry>)

  const EMPTY := Db(map[], map[], map[], [])

  function ActionVisibility(a: Action): Visibility {
    match a
    case Approve => Public
    case Unlist => Unlisted
    case Delete => Deleted
    case BanAuthor => Deleted
  }

  // ---- statements ---------------------------------------------------------

  /** UPDATE ... WHERE id = ? AND visibility != 'deleted'. */
  function SetVisibility(db: Db, m: int, v: Visibility): Db {
    if m in db.models && db.models[m].visibility != Deleted
    then db.(models := db.models[m := db.models[m].(visibility := v)])
    else db
  }

  function ResolveReports(db: Db, m: int, now: int): Db {
    db.(reports := map p | p in db.reports ::
          if p.0 == m && db.reports[p].resolvedAt.None? then db.reports[p].(resolvedAt := Some(now)) else db.reports[p])
  }

  /** Keeps `resolved_at` when the row is there already. */
  function UpsertReport(db: Db, m: int, k: Key, reason: string, detail: string, now: int): Db {
    db.(reports := db.reports[(m, k) := Report(reason, detail, now, if (m, k) in db.reports then db.reports[(m, k)].resolvedAt else None)])
  }

  /** Keeps `created_at` when the key is banned already. */
  function UpsertBan(db: Db, k: Key, reason: string, now: int): Db {
    db.(bans := db.bans[k := Ban(reason, if k in db.bans then db.bans[k].createdAt else now)])
  }

  function DeleteByAuthor(db: Db, k: Key): Db {
    db.(models := map m | m in db.models :: if db.models[m].author == k then db.models[m].(visibility := Deleted) else db.models[m])
  }

  function AppendLog(db: Db, e: LogEntry): Db {
    db.(log := db.log + [e])
  }

  function InsertModel(db: Db, m: int, author: Key): Db {
    if m in db.models then db else db.(models := db.models[m := Model(author, Public)])
  }

  function Unban(db: Db, k: Key): Db {
    db.(bans := db.bans - {k})
  }

  function Reporters(db: Db, m: int): set<Key> {
    set p | p in db.reports && p.0 == m :: p.1
  }

  /** Keys with an unresolved report against `m`. */
  function OpenReporters(db: Db, m: int): set<Key> {
    set p | p in db.reports && p.0 == m && db.reports[p].resolvedAt.None? :: p.1
  }

  predicate IsPublic(db: Db, m: int) {
    m in db.models && db.models[m].visibility == Public
  }

  predicate IsDeleted(db: Db, m: int) {
    m in db.models && db.models[m].visibility == Deleted
  }

  lemma OpenAreReporters(db: Db, m: int)
    ensures OpenReporters(db, m) <= Reporters(db, m)
  {
  }

  lemma InReporters(db: Db, m: int, k: Key)
    ensures k in Reporters(db, m) <==> (m, k) in db.reports
    ensures k in OpenReporters(db, m) <==> (m, k) in db.reports && db.reports[(m, k)].resolvedAt.None?
  {
    if (m, k) in db.reports {
      assert (m, k).0 == m && (m, k).1 == k;
    }
  }

  /** An upsert opens a report for a new key and leaves a known key's report as open or resolved as it was. */
  lemma UpsertEffect(db: Db, m: int, k: Key, reason: string, detail: string, now: int, n: int)
    ensures var db' := UpsertReport(db, m, k, reason, detail, now);
      && Reporters(db', n) == Reporters(db, n) + (if n == m then {k} else {})
      && OpenReporters(db', n) == OpenReporters(db, n) + (if n == m && k !in Reporters(db, m) then {k} else {})
  {
    var db' := UpsertReport(db, m, k, reason, detail, now);
    forall x
      ensures x in Reporters(db', n) <==> x in Reporters(db, n) + (if n == m then {k} else {})
      ensures x in OpenReporters(db', n) <==> x in OpenReporters(db, n) + (if n == m && k !in Reporters(db, m) then {k} else {})
    {
      InReporters(db, n, x);
      InReporters(db', n, x);
      InReporters(db, m, k);
    }
  }

  lemma ResolveEffect(db: Db, m: int, now: int, n: int)
    ensures var db' := ResolveReports(db, m, now);
      && Reporters(db', n) == Reporters(db, n)
      && OpenReporters(db', n) == if n == m then {} else OpenReporters(db, n)
  {
    var db' := ResolveReports(db, m, now);
    forall x
      ensures x in Reporters(db', n) <==> x in Reporters(db, n)
      ensures x in OpenReporters(db', n) <==> n != m && x in OpenReporters(db, n)
    {
      InReporters(db, n, x);
      InReporters(db', n, x);
    }
  }

  // ---- what the handlers do as a whole ------------------------------------

  /** The state after an admin action on an existing model, in one go. */
  function AfterAction(db: Db, m: int, action: Action, adminKey: string, reason: string, now: int): Db
    requires m in db.models
  {
    var author := db.models[m].author;
    var models := map i | i in db.models ::
      if action == BanAuthor && db.models[i].author == author then db.models[i].(visibility := Deleted)
      else if i == m && db.models[i].visibility != Deleted then db.models[i].(visibility := ActionVisibility(action))
      else db.models[i];
    var reports := map p | p in db.reports ::
      if action != Unlist && p.0 == m && db.reports[p].resolvedAt.None? then db.reports[p].(resolvedAt := Some(now))
      else db.reports[p];
    var bans := if action == BanAuthor
                then db.bans[author := Ban(reason, if author in db.bans then db.bans[author].createdAt else now)]
                else db.bans;
    Db(models, reports, bans, db.log + [LogEntry(m, adminKey, action, reason, now)])
  }

  /** Where an action on `m` leaves model `i`. */
  ghost predicate MovedTo(db: Db, m: int, action: Action, i: int, v: Visibility)
    requires m in db.models && i in db.models
  {
    if db.models[i].visibility == Deleted then v == Deleted
    else if i == m then
      && (action == Approve ==> v == Public) && (action == Unlist ==> v == Unlisted)
      && (action == Delete || action == BanAuthor ==> v == Deleted)
    else if action == BanAuthor && db.models[i].author == db.models[m].author then v == Deleted
    else v == db.models[i].visibility
  }

  /** An action, table by table: what it moves, closes, bans and logs, and that it touches nothing else. */
  lemma ActionIs(db: Db, m: int, action: Action, adminKey: string, reason: string, now: int)
    requires m in db.models
    ensures var after, author := AfterAction(db, m, action, adminKey, reason, now), db.models[m].author;
      && after.models.Keys == db.models.Keys
      && (forall i :: i in db.models ==> after.models[i].author == db.models[i].author && MovedTo(db, m, action, i, after.models[i].visibility))
      && after.reports.Keys == db.reports.Keys
      && (forall p :: p in db.reports && p.0 == m && action != Unlist && db.reports[p].resolvedAt == None ==>
            after.reports[p] == Report(db.reports[p].reason, db.reports[p].detail, db.reports[p].createdAt, Some(now)))
      && (forall p :: p in db.reports && (p.0 != m || action == Unlist || db.reports[p].resolvedAt != None) ==> after.reports[p] == db.reports[p])
      && (action != BanAuthor ==> after.bans == db.bans)
      && (action == BanAuthor ==>
            && after.bans.Keys == db.bans.Keys + {author}
            && after.bans[author].reason == reason
            && after.bans[author].createdAt == (if author in db.bans then db.bans[author].createdAt else now)
            && forall k :: k in db.bans && k != author ==> after.bans[k] == db.bans[k])
      && after.log == db.log + [LogEntry(m, adminKey, action, reason, now)]
  {
  }

  /** An undeleted model goes where the action says; approve makes it public and leaves no report open. */
  lemma ActionMoves(db: Db, m: int, action: Action, adminKey: string, reason: string, now: int)
    requires m in db.models && !IsDeleted(db, m)
    ensures var after := AfterAction(db, m, action, adminKey, reason, now);
      && (action == Approve ==> after.models[m].visibility == Public && OpenReporters(after, m) == {})
      && (action == Unlist ==> after.models[m].visibility == Unlisted && OpenReporters(after, m) == OpenReporters(db, m))
      && (action == Delete ==> after.models[m].visibility == Deleted && OpenReporters(after, m) == {})
      && (action == BanAuthor ==> after.models[m].visibility == Deleted && OpenReporters(after, m) == {} && db.models[m].author in after.bans)
  {
    var after := AfterAction(db, m, action, adminKey, reason, now);
    ActionIs(db, m, action, adminKey, reason, now);
    forall k
      ensures k in OpenReporters(after, m) <==> action == Unlist && k in OpenReporters(db, m)
    {
      InReporters(db, m, k);
      InReporters(after, m, k);
    }
  }

  predicate HidesAt(threshold: int, db: Db, m: int) {
    |OpenReporters(db, m)| >= threshold
  }

  /** The state after a report that passed its checks, in one go. */
  function AfterReport(threshold: int, db: Db, m: int, k: Key, reason: string, detail: string, now: int): Db {
    var db' := UpsertReport(db, m, k, reason, detail, now);
    if HidesAt(threshold, db', m) then SetVisibility(db', m, Unlisted) else db'
  }

  const MAX_CHARS := 512

  const REPORT_REASONS := {"gore", "sexual", "hate", "stolen", "spam", "other"}

  /** Control characters are refused; the rest is trimmed and cut. */
  function CleanDetail(raw: Option<string>): Option<string> {
    match raw
    case None => Some("")
    case Some(s) => if HasControl(s) then None else Some(Truncate(Strip(s), MAX_CHARS))
  }

  /** The detail stored: nothing for none, refused for a control character, else the first 512 characters of the trimmed text. */
  lemma CleanDetailIs(raw: Option<string>)
    ensures raw == None ==> CleanDetail(raw) == Some("")
    ensures raw.Some? ==>
      (CleanDetail(raw) == None <==> exists i :: 0 <= i < |raw.value| && (raw.value[i] as int < 32 || raw.value[i] as int == 127))
    ensures raw.Some? && CleanDetail(raw).Some? ==>
      var kept, trimmed := CleanDetail(raw).value, Strip(raw.value);
      kept <= trimmed && |kept| == if |trimmed| < 512 then |trimmed| else 512
  {
    if raw.Some? {
      assert HasControl(raw.value) <==> exists i :: 0 <= i < |raw.value| && IsControl(raw.value[i]);
    }
  }

  datatype ReportReply = ReportRefused(status: int, code: string) | Reported(count: nat, hidden: bool)

  datatype ActionReply = ActionRefused(status: int, code: string) | Acted(visibility: Visibility, resolved: nat, bannedKey: Option<Key>)

  class ModerationStore {
    var models: map<int, Model>
    var reports: map<(int, Key), Report>
    var bans: map<Key, Ban>
    var log: seq<LogEntry>
    const threshold: int

    constructor (threshold: int)
      ensures View() == EMPTY && this.threshold == threshold
    {
      this.threshold := threshold;
      models, reports, bans, log := map[], map[], map[], [];
    }

    ghost function View(): Db
      reads this
    {
      Db(models, reports, bans, log)
    }

    method UpdateVisibility(m: int, v: Visibility)
      modifies `models
      ensures View() == SetVisibility(old(View()), m, v)
    {
      if m in models && models[m].visibility != Deleted {
        models := models[m := models[m].(visibility := v)];
      }
    }

    method Resolve(m: int, now: int) returns (closed: nat)
      modifies `reports
      ensures View() == ResolveReports(old(View()), m, now)
      ensures closed == |OpenReporters(old(View()), m)|
    {
      var open := set p | p in reports && p.0 == m && reports[p].resolvedAt.None?;
      closed := |open|;
      OpenRows(View(), m, open);
      reports := map p | p in reports :: if p in open then reports[p].(resolvedAt := Some(now)) else reports[p];
      assert reports == ResolveReports(old(View()), m, now).reports;
    }

    method CountOpen(m: int) returns (n: nat)
      ensures n == |OpenReporters(View(), m)|
    {
      var keys := set p | p in reports && p.0 == m && reports[p].resolvedAt.None? :: p.1;
      n := |keys|;
      assert keys == OpenReporters(View(), m);
    }

    method ApplyAutohide(m: int) returns (count: nat, hidden: bool)
      modifies `models
      ensures count == |OpenReporters(old(View()), m)| && hidden == HidesAt(threshold, old(View()), m)
      ensures View() == if hidden then SetVisibility(old(View()), m, Unlisted) else old(View())
    {
      count := CountOpen(m);
      hidden := count >= threshold;
      if hidden {
        UpdateVisibility(m, Unlisted);
      }
    }

    method HandleReport(reporter: Key, m: int, reason: string, detail: Option<string>, now: int) returns (reply: ReportReply)
      modifies `reports, `models
      ensures reply.ReportRefused? <==>
        m < 1 || reason !in {"gore", "sexual", "hate", "stolen", "spam", "other"} || CleanDetail(detail).None? || reporter in old(bans) || m !in old(models) || IsDeleted(old(View()), m)
      ensures reply.ReportRefused? ==> View() == old(View())
      ensures reply.Reported? ==>
        var db := old(View());
        && View() == AfterReport(threshold, db, m, reporter, reason, CleanDetail(detail).value, now)
        && reply.count == |OpenReporters(View(), m)| && reply.hidden == (reply.count >= threshold)
      ensures reply.ReportRefused? ==>
        (reply == if m < 1 || reason !in REPORT_REASONS || CleanDetail(detail).None? then ReportRefused(400, "bad_request")
                  else if reporter in old(bans) then ReportRefused(403, "banned")
                  else ReportRefused(404, "not_found"))
      ensures reply.Reported? ==>
        && reports.Keys == old(reports).Keys + {(m, reporter)}
        && reports[(m, reporter)].reason == reason && Some(reports[(m, reporter)].detail) == CleanDetail(detail)
        && reports[(m, reporter)].createdAt == now
        && reports[(m, reporter)].resolvedAt == (if (m, reporter) in old(reports) then old(reports)[(m, reporter)].resolvedAt else None)
        && (forall p :: p in old(reports) && p != (m, reporter) ==> reports[p] == old(reports)[p])
      ensures reply.Reported? ==>
        && models.Keys == old(models).Keys && (forall i :: i in old(models) && i != m ==> models[i] == old(models)[i])
        && models[m].author == old(models)[m].author
        && models[m].visibility == if reply.hidden then Unlisted else old(models)[m].visibility
    {
      var cleaned := CleanDetail(detail);
      if m < 1 || reason !in REPORT_REASONS || cleaned.None? {
        return ReportRefused(400, "bad_request");
      }
      if reporter in bans {
        return ReportRefused(403, "banned");
      }
      if m !in models || models[m].visibility == Deleted {
        return ReportRefused(404, "not_found");
      }
      ghost var before := View();
      reports := reports[(m, reporter) := Report(reason, cleaned.value, now, if (m, reporter) in reports then reports[(m, reporter)].resolvedAt else None)];
      assert View() == UpsertReport(before, m, reporter, reason, cleaned.value, now);
      var count, hidden := ApplyAutohide(m);
      assert OpenReporters(View(), m) == OpenReporters(UpsertReport(before, m, reporter, reason, cleaned.value, now), m);
      return Reported(count, hidden);
    }

    method RecordBan(key: Key, reason: string, now: int)
      modifies `bans
      ensures View() == UpsertBan(old(View()), key, reason, now)
    {
      bans := bans[key := Ban(reason, if key in bans then bans[key].createdAt else now)];
    }

    method DeleteAllBy(key: Key)
      modifies `models
      ensures View() == DeleteByAuthor(old(View()), key)
    {
      models := map i | i in models :: if models[i].author == key then models[i].(visibility := Deleted) else models[i];
      assert models == DeleteByAuthor(old(View()), key).models;
    }

    /** The HTTP path: the reason is trimmed and cut, the log names the admin's key. */
    method HandleAdminAction(adminKey: Key, m: int, action: Action, reason: string, now: int) returns (reply: ActionReply)
      modifies this
      ensures reply.ActionRefused? <==> m < 1 || m !in old(models)
      ensures reply.ActionRefused? ==> View() == old(View())
      ensures reply.Acted? ==>
        var db := old(View());
        && View() == AfterAction(db, m, action, adminKey, Truncate(Strip(reason), MAX_CHARS), now)
        && reply.visibility == models[m].visibility
        && reply.resolved == (if action == Unlist then 0 else |OpenReporters(db, m)|)
        && reply.bannedKey == (if action == BanAuthor then Some(db.models[m].author) else None)
      ensures reply.ActionRefused? ==> reply == if m < 1 then ActionRefused(400, "bad_request") else ActionRefused(404, "not_found")
      ensures reply.Acted? ==> MovedTo(old(View()), m, action, m, reply.visibility)
      ensures reply.Acted? ==> forall i :: i in old(models) ==> i in models && MovedTo(old(View()), m, action, i, models[i].visibility)
    {
      if m < 1 {
        return ActionRefused(400, "bad_request");
      }
      var cleaned := Truncate(Strip(reason), MAX_CHARS);
      if m !in models {
        return ActionRefused(404, "not_found");
      }
      ghost var before := View();
      var author := models[m].author;
      var resolved := 0;
      var bannedKey := None;
      UpdateVisibility(m, ActionVisibility(action));
      if action != Unlist {
        resolved := Resolve(m, now);
      }
      if action == BanAuthor {
        bannedKey := Some(author);
        RecordBan(author, cleaned, now);
        DeleteAllBy(author);
      }
      log := log + [LogEntry(m, adminKey, action, cleaned, now)];
      StatementsAreAction(before, m, action, adminKey, cleaned, now);
      ActionIs(before, m, action, adminKey, cleaned, now);
      return Acted(models[m].visibility, resolved, bannedKey);
    }

    /** The command line: the reason as typed, the log names the tool. */
    method CliApplyAction(m: int, action: Action, reason: string, now: int) returns (status: int)
      modifies this
      ensures status == if m in old(models) then 0 else 1
      ensures View() == if m in old(models) then AfterAction(old(View()), m, action, CLI_ADMIN_KEY, reason, now) else old(View())
      ensures m in old(models) ==> forall i :: i in old(models) ==> i in models && MovedTo(old(View()), m, action, i, models[i].visibility)
    {
      if m !in models {
        return 1;
      }
      ghost var before := View();
      var author := models[m].author;
      UpdateVisibility(m, ActionVisibility(action));
      if action != Unlist {
        var _ := Resolve(m, now);
      }
      if action == BanAuthor {
        RecordBan(author, reason, now);
        DeleteAllBy(author);
      }
      log := log + [LogEntry(m, CLI_ADMIN_KEY, action, reason, now)];
      StatementsAreAction(before, m, action, CLI_ADMIN_KEY, reason, now);
      ActionIs(before, m, action, CLI_ADMIN_KEY, reason, now);
      return 0;
    }

    method CliUnban(key: Key) returns (status: int)
      modifies `bans
      ensures View() == Unban(old(View()), key) && status == if key in old(bans) then 0 else 1
      ensures bans.Keys == old(bans).Keys - {key} && forall k :: k in bans ==> bans[k] == old(bans)[k]
    {
      status := if key in bans then 0 else 1;
      bans := bans - {key};
    }
  }

  const CLI_ADMIN_KEY := "cli"

  lemma OpenRows(db: Db, m: int, rows: set<(int, Key)>)
    requires rows == set p | p in db.reports && p.0 == m && db.reports[p].resolvedAt.None?
    ensures |rows| == |OpenReporters(db, m)|
  {
    PairsOfModel(rows, m);
    assert OpenReporters(db, m) == set p | p in rows :: p.1;
  }

  lemma {:induction false} PairsOfModel(rows: set<(int, Key)>, m: int)
    requires forall p :: p in rows ==> p.0 == m
    ensures |rows| == |set p | p in rows :: p.1|
  {
    if rows != {} {
      var p :| p in rows;
      PairsOfModel(rows - {p}, m);
      assert (set q | q in rows :: q.1) == (set q | q in rows - {p} :: q.1) + {p.1};
      assert forall q :: q in rows && q.1 == p.1 ==> q == p;
    }
  }

  /** The statements of one action, run one after the other. */
  function Statements(db: Db, m: int, action: Action, adminKey: string, reason: string, now: int): Db
    requires m in db.models
  {
    var author := db.models[m].author;
    var db1 := SetVisibility(db, m, ActionVisibility(action));
    var db2 := if action != Unlist then ResolveReports(db1, m, now) else db1;
    var db3 := if action == BanAuthor then DeleteByAuthor(UpsertBan(db2, author, reason, now), author) else db2;
    AppendLog(db3, LogEntry(m, adminKey, action, reason, now))
  }

  lemma SameModels(db: Db, m: int, action: Action, adminKey: string, reason: string, now: int)
    requires m in db.models
    ensures Statements(db, m, action, adminKey, reason, now).models == AfterAction(db, m, action, adminKey, reason, now).models
  {
  }

  lemma SameReports(db: Db, m: int, action: Action, adminKey: string, reason: string, now: int)
    requires m in db.models
    ensures Statements(db, m, action, adminKey, reason, now).reports == AfterAction(db, m, action, adminKey, reason, now).reports
  {
  }

  lemma StatementsAreAction(db: Db, m: int, action: Action, adminKey: string, reason: string, now: int)
    requires m in db.models
    ensures Statements(db, m, action, adminKey, reason, now) == AfterAction(db, m, action, adminKey, reason, now)
  {
    SameModels(db, m, action, adminKey, reason, now);
    SameReports(db, m, action, adminKey, reason, now);
  }

  /** Whoever acts, the state is the same but for the name in the log and the reason kept. */
  lemma ActorsAgree(db: Db, m: int, action: Action, a1: string, r1: string, a2: string, r2: string, now: int)
    requires m in db.models
    ensures var x, y := AfterAction(db, m, action, a1, r1, now), AfterAction(db, m, action, a2, r2, now);
      && x.models == y.models && x.reports == y.reports && x.bans.Keys == y.bans.Keys
      && (forall k :: k in x.bans ==> x.bans[k].createdAt == y.bans[k].createdAt)
      && (r1 == r2 ==> x.bans == y.bans)
      && |x.log| == |y.log| && x.log[..|x.log| - 1] == y.log[..|y.log| - 1]
  {
  }
}
