/**
 The upload quotas over whole runs, on clocks that may jump either way: what any day and any
 hour can hold when several uploads are between their check and their insert.
 */
module UploadQuota {
  import opened Common
  import opened Uploads

  predicate InWindow(c: int, t: int, length: int) {
    t - length < c <= t
  }

  /** Rows by `author` created in the day up to `t`, deleted ones included. */
  function DayRows(rows: seq<Row>, author: string, t: int): set<nat> {
    set i: nat | i < |rows| && rows[i].author == author && InWindow(rows[i].createdAt, t, DAY_SECONDS)
  }

  function DayPending(workers: map<nat, Work>, author: string, t: int): set<nat> {
    set w | w in workers && workers[w].u.author == author && InWindow(workers[w].u.now, t, DAY_SECONDS)
  }

  function HourRows(rows: seq<Row>, t: int): set<nat> {
    set i: nat | i < |rows| && InWindow(rows[i].createdAt, t, HOUR_SECONDS)
  }

  /** Uploads past the hourly check. */
  function HourPending(workers: map<nat, Work>, t: int): set<nat> {
    set w | w in workers && !workers[w].stage.ToHourCheck? && InWindow(workers[w].u.now, t, HOUR_SECONDS)
  }

  /** `limit` rows, and one for each other upload that can slip in between check and insert. */
  function Allowance(limit: int, inFlight: nat): int {
    if limit < 1 then 0 else limit + inFlight - 1
  }

  ghost predicate DayKept(cfg: Config, s: System, author: string, t: int) {
    |DayRows(s.rows, author, t)| + |DayPending(s.workers, author, t)| <= Allowance(cfg.perDay, cfg.inFlight)
  }

  ghost predicate HourKept(cfg: Config, s: System, t: int) {
    |HourRows(s.rows, t)| + |HourPending(s.workers, t)| <= Allowance(cfg.perHour, cfg.inFlight)
  }

  ghost predicate WithinFlight(cfg: Config, s: System) {
    |s.workers| <= cfg.inFlight
  }

  lemma StepWithinFlight(cfg: Config, s: System, step: Step)
    requires WithinFlight(cfg, s) && Enabled(cfg, s, step)
    ensures WithinFlight(cfg, Next(cfg, s, step))
  {
    var s' := Next(cfg, s, step);
    if step.Begin? {
      assert s'.workers.Keys == s.workers.Keys + {step.w};
    } else {
      assert s'.workers.Keys <= s.workers.Keys;
      SubsetSize(s'.workers.Keys, s.workers.Keys);
    }
  }

  lemma PendingJoins(workers: map<nat, Work>, w: nat, u: Upload, author: string, t: int)
    requires w !in workers && !(u.author == author && InWindow(u.now, t, DAY_SECONDS))
    ensures DayPending(workers[w := Work(u, ToHourCheck)], author, t) == DayPending(workers, author, t)
  {
  }

  lemma AtMostEveryone(workers: map<nat, Work>, w: nat, work: Work, author: string, t: int)
    requires w !in workers
    ensures |DayPending(workers[w := work], author, t)| <= |workers| + 1
  {
    var more := workers[w := work];
    assert more.Keys == workers.Keys + {w};
    SubsetSize(DayPending(more, author, t), more.Keys);
  }

  /** Every window row was there to be counted when an upload dated inside the window checked. */
  lemma BeginKeepsDay(cfg: Config, s: System, w: nat, u: Upload, author: string, t: int)
    requires Enabled(cfg, s, Begin(w, u)) && DayKept(cfg, s, author, t)
    ensures DayKept(cfg, Next(cfg, s, Begin(w, u)), author, t)
  {
    if u.author == author && InWindow(u.now, t, DAY_SECONDS) {
      SubsetSize(DayRows(s.rows, author, t), UploadsToday(s.rows, author, u.now));
      AtMostEveryone(s.workers, w, Work(u, ToHourCheck), author, t);
    } else {
      PendingJoins(s.workers, w, u, author, t);
    }
  }

  lemma CheckKeepsHour(cfg: Config, s: System, w: nat, t: int)
    requires Enabled(cfg, s, CheckHour(w)) && HourKept(cfg, s, t) && WithinFlight(cfg, s)
    ensures HourKept(cfg, Next(cfg, s, CheckHour(w)), t)
  {
    var s', u := Next(cfg, s, CheckHour(w)), s.workers[w].u;
    if |UploadsLastHour(s.rows, u.now)| < cfg.perHour && InWindow(u.now, t, HOUR_SECONDS) {
      SubsetSize(HourRows(s.rows, t), UploadsLastHour(s.rows, u.now));
      assert s'.workers.Keys == s.workers.Keys;
      SubsetSize(HourPending(s'.workers, t), s'.workers.Keys);
    } else {
      assert HourPending(s'.workers, t) == HourPending(s.workers, t);
    }
  }

  lemma DayRowsSnoc(rows: seq<Row>, row: Row, author: string, t: int, mine: bool)
    requires mine == (row.author == author && InWindow(row.createdAt, t, DAY_SECONDS))
    ensures |DayRows(rows + [row], author, t)| == |DayRows(rows, author, t)| + if mine then 1 else 0
  {
    var all := rows + [row];
    assert forall i: nat :: i < |rows| ==> all[i] == rows[i];
    assert all[|rows|] == row;
    if mine {
      assert DayRows(all, author, t) == DayRows(rows, author, t) + {|rows|};
    } else {
      assert DayRows(all, author, t) == DayRows(rows, author, t);
    }
  }

  lemma DayPendingLeaves(workers: map<nat, Work>, w: nat, author: string, t: int, mine: bool)
    requires w in workers && mine == (workers[w].u.author == author && InWindow(workers[w].u.now, t, DAY_SECONDS))
    ensures |DayPending(workers - {w}, author, t)| == |DayPending(workers, author, t)| - if mine then 1 else 0
  {
    assert DayPending(workers - {w}, author, t) == DayPending(workers, author, t) - {w};
    assert w in DayPending(workers, author, t) <==> mine;
  }

  /** A pending upload that becomes a row is counted as often as before; one that only leaves, less. */
  lemma MovesToDayRows(rows: seq<Row>, workers: map<nat, Work>, w: nat, row: Row, author: string, t: int)
    requires w in workers && row.author == workers[w].u.author && row.createdAt == workers[w].u.now
    ensures |DayRows(rows + [row], author, t)| + |DayPending(workers - {w}, author, t)| == |DayRows(rows, author, t)| + |DayPending(workers, author, t)|
    ensures |DayPending(workers - {w}, author, t)| <= |DayPending(workers, author, t)|
  {
    var mine := row.author == author && InWindow(row.createdAt, t, DAY_SECONDS);
    DayRowsSnoc(rows, row, author, t, mine);
    DayPendingLeaves(workers, w, author, t, mine);
  }

  lemma MovesToHourRows(rows: seq<Row>, workers: map<nat, Work>, w: nat, row: Row, t: int)
    requires w in workers && workers[w].stage.ToInsert? && row.createdAt == workers[w].u.now
    ensures |HourRows(rows + [row], t)| + |HourPending(workers - {w}, t)| == |HourRows(rows, t)| + |HourPending(workers, t)|
    ensures |HourPending(workers - {w}, t)| <= |HourPending(workers, t)|
  {
    assert HourPending(workers - {w}, t) == HourPending(workers, t) - {w};
    if InWindow(row.createdAt, t, HOUR_SECONDS) {
      assert HourRows(rows + [row], t) == HourRows(rows, t) + {|rows|};
    } else {
      assert HourRows(rows + [row], t) == HourRows(rows, t);
    }
  }

  /** An insert turns a pending upload into a row; a conflict only removes it. */
  lemma InsertKeeps(cfg: Config, s: System, w: nat, author: string, t: int)
    requires Enabled(cfg, s, Insert(w)) && DayKept(cfg, s, author, t) && HourKept(cfg, s, t)
    ensures DayKept(cfg, Next(cfg, s, Insert(w)), author, t) && HourKept(cfg, Next(cfg, s, Insert(w)), t)
  {
    var row := RowOf(cfg, s.workers[w].u);
    MovesToDayRows(s.rows, s.workers, w, row, author, t);
    MovesToHourRows(s.rows, s.workers, w, row, t);
  }

  /** Every other step leaves the rows alone and at most drops uploads. */
  lemma OtherKeepsDay(cfg: Config, s: System, step: Step, author: string, t: int)
    requires Enabled(cfg, s, step) && !step.Begin? && !step.Insert? && DayKept(cfg, s, author, t)
    ensures DayKept(cfg, Next(cfg, s, step), author, t)
  {
    var s' := Next(cfg, s, step);
    assert s'.rows == s.rows;
    assert forall w :: w in s'.workers ==> w in s.workers && s'.workers[w].u == s.workers[w].u;
    SubsetSize(DayPending(s'.workers, author, t), DayPending(s.workers, author, t));
  }

  lemma OtherKeepsHour(cfg: Config, s: System, step: Step, t: int)
    requires Enabled(cfg, s, step) && !step.Begin? && !step.Insert? && !step.CheckHour? && HourKept(cfg, s, t)
    ensures HourKept(cfg, Next(cfg, s, step), t)
  {
    var s' := Next(cfg, s, step);
    assert s'.rows == s.rows;
    assert forall w :: w in s'.workers && !s'.workers[w].stage.ToHourCheck? ==>
      w in s.workers && s'.workers[w].u == s.workers[w].u && !s.workers[w].stage.ToHourCheck?;
    SubsetSize(HourPending(s'.workers, t), HourPending(s.workers, t));
  }

  lemma BeginKeepsHour(cfg: Config, s: System, w: nat, u: Upload, t: int)
    requires Enabled(cfg, s, Begin(w, u)) && HourKept(cfg, s, t)
    ensures HourKept(cfg, Next(cfg, s, Begin(w, u)), t)
  {
    var s' := Next(cfg, s, Begin(w, u));
    assert HourPending(s'.workers, t) == HourPending(s.workers, t);
  }

  lemma StepKeepsQuota(cfg: Config, s: System, step: Step, author: string, t: int)
    requires WithinFlight(cfg, s) && Enabled(cfg, s, step) && DayKept(cfg, s, author, t) && HourKept(cfg, s, t)
    ensures DayKept(cfg, Next(cfg, s, step), author, t) && HourKept(cfg, Next(cfg, s, step), t)
  {
    match step
    case Begin(w, u) =>
      BeginKeepsDay(cfg, s, w, u, author, t);
      BeginKeepsHour(cfg, s, w, u, t);
    case Insert(w) => InsertKeeps(cfg, s, w, author, t);
    case CheckHour(w) =>
      OtherKeepsDay(cfg, s, step, author, t);
      CheckKeepsHour(cfg, s, w, t);
    case _ =>
      OtherKeepsDay(cfg, s, step, author, t);
      OtherKeepsHour(cfg, s, step, t);
  }

  lemma StartKept(cfg: Config, author: string, t: int)
    ensures DayKept(cfg, START, author, t) && HourKept(cfg, START, t)
  {
    assert DayRows(START.rows, author, t) == {} && DayPending(START.workers, author, t) == {};
    assert HourRows(START.rows, t) == {} && HourPending(START.workers, t) == {};
  }

  lemma {:induction false} RunKeepsQuota(cfg: Config, states: seq<System>, steps: seq<Step>, k: nat, author: string, t: int)
    requires IsRun(cfg, states, steps) && k <= |steps|
    ensures WithinFlight(cfg, states[k]) && DayKept(cfg, states[k], author, t) && HourKept(cfg, states[k], t)
  {
    if k == 0 {
      StartKept(cfg, author, t);
    } else {
      RunKeepsQuota(cfg, states, steps, k - 1, author, t);
      StepWithinFlight(cfg, states[k - 1], steps[k - 1]);
      StepKeepsQuota(cfg, states[k - 1], steps[k - 1], author, t);
    }
  }

  /**
   At every point of every interleaving, on any clocks, each day holds at most the daily limit of
   uploads by one key, and each hour the hourly limit overall, plus one for every other upload
   that can be between check and insert; exactly the limits when there is only one.
   */
  lemma QuotaHolds(cfg: Config, states: seq<System>, steps: seq<Step>, k: nat, author: string, t: int)
    requires IsRun(cfg, states, steps) && k <= |steps|
    ensures |DayRows(states[k].rows, author, t)| <= Allowance(cfg.perDay, cfg.inFlight)
    ensures |HourRows(states[k].rows, t)| <= Allowance(cfg.perHour, cfg.inFlight)
    ensures cfg.inFlight == 1 && cfg.perDay >= 0 ==> |DayRows(states[k].rows, author, t)| <= cfg.perDay
    ensures cfg.inFlight == 1 && cfg.perHour >= 0 ==> |HourRows(states[k].rows, t)| <= cfg.perHour
  {
    RunKeepsQuota(cfg, states, steps, k, author, t);
  }
}
