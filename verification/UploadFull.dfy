/**
 The allowances of UploadQuota are reached: for every limit and every number of uploads in flight, runs in
 which a day, and an hour, hold as many rows as the bound allows.
 */
module UploadFull {
  import opened Text
  import opened Uploads
  import opened UploadQuota
  import opened UploadLoad
  import opened UploadRuns

  // ---- a hash that tells lengths apart ---------------------------------------

  function HexDigit(d: nat): (c: char)
    requires d < 16
    ensures IsHexChar(c)
  {
    if d < 10 then '0' + d as char else 'a' + (d - 10) as char
  }

  function DigitOf(c: char): int {
    if c <= '9' then c as int - '0' as int else c as int - 'a' as int + 10
  }

  function HexName(n: nat, k: nat): (s: string)
    ensures IsLowerHex(s, k)
    decreases k
  {
    if k == 0 then "" else HexName(n / 16, k - 1) + [HexDigit(n % 16)]
  }

  function Power16(k: nat): nat {
    if k == 0 then 1 else 16 * Power16(k - 1)
  }

  /** Different numbers that fit have different names. */
  lemma {:induction false} NamesDiffer(a: nat, b: nat, k: nat)
    requires a < Power16(k) && b < Power16(k) && HexName(a, k) == HexName(b, k)
    ensures a == b
    decreases k
  {
    if k > 0 {
      var x, y := HexName(a, k), HexName(b, k);
      assert x[..k - 1] == HexName(a / 16, k - 1) && y[..k - 1] == HexName(b / 16, k - 1);
      assert x[k - 1] == HexDigit(a % 16) && y[k - 1] == HexDigit(b % 16);
      assert DigitOf(HexDigit(a % 16)) == a % 16 && DigitOf(HexDigit(b % 16)) == b % 16;
      NamesDiffer(a / 16, b / 16, k - 1);
    }
  }

  /** `hash` tells data of different lengths apart, up to length `most`. */
  ghost predicate TellsLengths(hash: Bytes -> Digest, most: nat) {
    forall a, b :: |a| <= most && |b| <= most && hash(a) == hash(b) ==> |a| == |b|
  }

  /** With `k` hex digits there is such a hash for every length that has a name. */
  lemma HashExists(most: nat, k: nat) returns (hash: Bytes -> Digest)
    requires most < Power16(k)
    ensures TellsLengths(hash, most) && forall b :: IsLowerHex(hash(b), k)
  {
    hash := (b: Bytes) => HexName(|b|, k);
    forall a: Bytes, b: Bytes | |a| <= most && |b| <= most && HexName(|a|, k) == HexName(|b|, k)
      ensures |a| == |b|
    {
      NamesDiffer(|a|, |b|, k);
    }
  }

  function Zeros(k: nat): (b: Bytes)
    ensures |b| == k
  {
    if k == 0 then [] else Zeros(k - 1) + [0]
  }

  // ---- uploads of growing length ----------------------------------------------

  /** The `k`th upload of the one author, all at the same second. */
  function Nth(k: nat): Upload {
    Upload("a", Zeros(k + 1), [0], 0)
  }

  /** Bytes of the first `n` uploads. */
  function Used(n: nat): nat {
    if n == 0 then 0 else Used(n - 1) + Nth(n - 1).Size()
  }

  lemma {:induction false} UsedGrows(m: nat, n: nat)
    requires m <= n
    ensures Used(m) <= Used(n)
  {
    if m < n {
      UsedGrows(m, n - 1);
    }
  }

  /** Names and room for `most` uploads, whatever the limits. */
  ghost predicate Roomy(cfg: Config, most: nat) {
    TellsLengths(cfg.hash, most) && cfg.maxDisk == Used(most) && cfg.maxRequest == most + 1
  }

  function Range(n: nat): (r: set<nat>)
    ensures forall i: nat :: i in r <==> i < n
  {
    if n == 0 then {} else Range(n - 1) + {n - 1}
  }

  lemma {:induction false} RangeSize(n: nat)
    ensures |Range(n)| == n
  {
    if n > 0 {
      RangeSize(n - 1);
    }
  }

  ghost predicate FilledRows(cfg: Config, rows: seq<Row>, n: nat) {
    |rows| == n && forall i :: 0 <= i < n ==> rows[i] == RowOf(cfg, Nth(i))
  }

  ghost predicate Filled(cfg: Config, s: System, n: nat) {
    FilledRows(cfg, s.rows, n) && TotalBytes(s.files) <= Used(n) && Temp(0) !in s.files && s.bans == {}
  }

  lemma FilledCounts(cfg: Config, rows: seq<Row>, n: nat)
    requires FilledRows(cfg, rows, n)
    ensures |UploadsToday(rows, "a", 0)| == n && |UploadsLastHour(rows, 0)| == n
    ensures |DayRows(rows, "a", 0)| == n && |HourRows(rows, 0)| == n
  {
    RangeSize(n);
    assert UploadsToday(rows, "a", 0) == Range(n);
    assert UploadsLastHour(rows, 0) == Range(n);
    assert DayRows(rows, "a", 0) == Range(n);
    assert HourRows(rows, 0) == Range(n);
  }

  lemma StoredTotal(cfg: Config, files: Files, data: Bytes)
    ensures TotalBytes(Stored(cfg, files, data)) <= TotalBytes(files) + |data|
  {
    TotalUpdate(files, Blob(cfg.hash(data)), data);
  }

  lemma NewModel(cfg: Config, rows: seq<Row>, n: nat)
    requires TellsLengths(cfg.hash, n + 1) && FilledRows(cfg, rows, n)
    ensures !HasModel(rows, cfg.hash(Nth(n).model))
  {
    forall i | 0 <= i < n
      ensures rows[i].modelHash != cfg.hash(Nth(n).model)
    {
      assert rows[i].modelHash == cfg.hash(Nth(i).model);
      assert |Nth(i).model| == i + 1 && |Nth(n).model| == n + 1;
    }
  }

  lemma RowsFill(cfg: Config, rows: seq<Row>, n: nat, u: Upload)
    requires FilledRows(cfg, rows, n) && u == Nth(n)
    ensures FilledRows(cfg, rows + [RowOf(cfg, u)], n + 1)
  {
  }

  /** One more fits, and leaves the gallery filled with one more. */
  lemma FillOne(cfg: Config, most: nat, s: System, n: nat)
    requires Roomy(cfg, most) && Filled(cfg, s, n) && n < most
    ensures TotalBytes(s.files) + Nth(n).Size() <= cfg.maxDisk
    ensures Filled(cfg, Answered(cfg, s, Nth(n), 201), n + 1)
  {
    var u := Nth(n);
    var one := Stored(cfg, s.files, u.model);
    StoredTotal(cfg, s.files, u.model);
    StoredTotal(cfg, one, u.thumb);
    UsedGrows(n + 1, most);
    assert Used(n + 1) == Used(n) + u.Size();
    RowsFill(cfg, s.rows, n, u);
  }

  // ---- one after the other -----------------------------------------------------

  /** The gallery filled with `n`, and these workers at work. */
  ghost predicate Stands(cfg: Config, s: System, n: nat, workers: map<nat, Work>) {
    Filled(cfg, s, n) && s.workers == workers
  }

  lemma NextAccepted(cfg: Config, most: nat, s: System, n: nat)
    requires Roomy(cfg, most) && n < most && n < cfg.perHour && Filled(cfg, s, n)
    ensures LaterStatus(cfg, s, Nth(n)) == 201
    ensures n < cfg.perDay ==> UploadStatus(cfg, s.rows, s.files, s.bans, Nth(n)) == 201
  {
    FillOne(cfg, most, s, n);
    FilledCounts(cfg, s.rows, n);
    NewModel(cfg, s.rows, n);
  }

  /** One upload from start to finish. */
  lemma UploadNext(cfg: Config, most: nat, s: System, n: nat) returns (t: System)
    requires Roomy(cfg, most) && n < most && n < cfg.perDay && n < cfg.perHour && cfg.inFlight >= 1 && Stands(cfg, s, n, map[])
    ensures Reaches(cfg, s, t) && Stands(cfg, t, n + 1, map[])
  {
    NextAccepted(cfg, most, s, n);
    FillOne(cfg, most, s, n);
    AloneIsHandler(cfg, s, 0, Nth(n), 0);
    t := Answered(cfg, s, Nth(n), 201);
  }

  lemma StartStands(cfg: Config)
    ensures Stands(cfg, START, 0, map[])
  {
    NoFiles();
  }

  lemma {:induction false} OneByOne(cfg: Config, most: nat, n: nat) returns (t: System)
    requires Roomy(cfg, most) && n <= most && n <= cfg.perDay && n <= cfg.perHour && cfg.inFlight >= 1
    ensures Reaches(cfg, START, t) && Stands(cfg, t, n, map[])
  {
    if n == 0 {
      t := START;
      ReachesSelf(cfg, START);
      StartStands(cfg);
    } else {
      var s := OneByOne(cfg, most, n - 1);
      t := UploadNext(cfg, most, s, n - 1);
      ReachesJoin(cfg, START, s, t);
    }
  }

  // ---- all past the same check ---------------------------------------------------

  /** Uploads `j` to `k` waiting at `stage`. */
  function Waiting(n: nat, j: nat, k: nat, stage: Stage): map<nat, Work> {
    map i | i in Range(k) && j <= i :: Work(Nth(n + i), stage)
  }

  lemma WaitingSize(n: nat, k: nat, stage: Stage)
    ensures |Waiting(n, 0, k, stage)| == k && Waiting(n, k, k, stage) == map[]
  {
    RangeSize(k);
    assert Waiting(n, 0, k, stage).Keys == Range(k);
  }

  lemma WaitingGrows(n: nat, k: nat, stage: Stage, work: Work)
    requires work == Work(Nth(n + k), stage)
    ensures Waiting(n, 0, k + 1, stage) == Waiting(n, 0, k, stage)[k := work]
    ensures k !in Waiting(n, 0, k, stage)
  {
    var before, after := Waiting(n, 0, k, stage), Waiting(n, 0, k + 1, stage);
    assert after.Keys == before.Keys + {k};
    assert forall i :: i in before ==> after[i] == before[i];
  }

  lemma WaitingFirst(n: nat, j: nat, k: nat, stage: Stage, work: Work)
    requires j < k && work == Work(Nth(n + j), stage)
    ensures j in Waiting(n, j, k, stage) && Waiting(n, j, k, stage)[j] == work
  {
  }

  lemma WaitingShrinks(n: nat, j: nat, k: nat, stage: Stage)
    ensures Waiting(n, j + 1, k, stage) == Waiting(n, j, k, stage) - {j}
  {
  }

  lemma PassesDay(cfg: Config, s: System, n: nat, w: nat, u: Upload, t: System)
    requires FilledRows(cfg, s.rows, n) && n < cfg.perDay && w !in s.workers && |s.workers| < cfg.inFlight
    requires u.author == "a" && u.now == 0 && u.Size() <= cfg.maxRequest && s.bans == {}
    requires t == s.(workers := s.workers[w := Work(u, ToHourCheck)])
    ensures Reaches(cfg, s, t)
  {
    FilledCounts(cfg, s.rows, n);
    ReachesSelf(cfg, s);
    ReachesStep(cfg, s, s, Begin(w, u), t);
  }

  lemma PassesHour(cfg: Config, s: System, n: nat, w: nat, u: Upload, t: System)
    requires FilledRows(cfg, s.rows, n) && n < cfg.perHour && w in s.workers && s.workers[w] == Work(u, ToHourCheck) && u.now == 0
    requires t == MoveOn(s, w, ToDiskCheck)
    ensures Reaches(cfg, s, t)
  {
    FilledCounts(cfg, s.rows, n);
    ReachesSelf(cfg, s);
    ReachesStep(cfg, s, s, CheckHour(w), t);
  }

  /** An upload passes the daily check, and the hourly one too when it is to wait for the walk. */
  lemma Arrives(cfg: Config, s: System, n: nat, w: nat, u: Upload, stage: Stage, t: System)
    requires FilledRows(cfg, s.rows, n) && n < cfg.perDay && w !in s.workers && |s.workers| < cfg.inFlight
    requires u.author == "a" && u.now == 0 && u.Size() <= cfg.maxRequest && s.bans == {}
    requires stage == ToHourCheck || (stage == ToDiskCheck && n < cfg.perHour)
    requires t == s.(workers := s.workers[w := Work(u, stage)])
    ensures Reaches(cfg, s, t)
  {
    var begun := s.(workers := s.workers[w := Work(u, ToHourCheck)]);
    PassesDay(cfg, s, n, w, u, begun);
    if stage == ToDiskCheck {
      PassesHour(cfg, begun, n, w, u, MoveOn(begun, w, ToDiskCheck));
      assert begun.workers[w := Work(u, stage)] == t.workers;
      ReachesJoin(cfg, s, begun, t);
    }
  }

  lemma BeginNext(cfg: Config, most: nat, s: System, n: nat, k: nat, stage: Stage) returns (t: System)
    requires Roomy(cfg, most) && n + k < most && n < cfg.perDay && k < cfg.inFlight
    requires stage == ToHourCheck || (stage == ToDiskCheck && n < cfg.perHour)
    requires Stands(cfg, s, n, Waiting(n, 0, k, stage))
    ensures Reaches(cfg, s, t) && Stands(cfg, t, n, Waiting(n, 0, k + 1, stage))
  {
    var u := Nth(n + k);
    WaitingSize(n, k, stage);
    WaitingGrows(n, k, stage, Work(u, stage));
    t := s.(workers := s.workers[k := Work(u, stage)]);
    Arrives(cfg, s, n, k, u, stage, t);
  }

  lemma AllBegin(cfg: Config, most: nat, n: nat, k: nat, stage: Stage) returns (t: System)
    requires Roomy(cfg, most) && n + k <= most && n < cfg.perDay && n <= cfg.perHour && 1 <= cfg.inFlight && k <= cfg.inFlight
    requires stage == ToHourCheck || (stage == ToDiskCheck && n < cfg.perHour)
    ensures Reaches(cfg, START, t) && Stands(cfg, t, n, Waiting(n, 0, k, stage))
  {
    t := OneByOne(cfg, most, n);
    WaitingSize(n, 0, stage);
    for i: nat := 0 to k
      invariant Reaches(cfg, START, t) && Stands(cfg, t, n, Waiting(n, 0, i, stage))
    {
      var next := BeginNext(cfg, most, t, n, i, stage);
      ReachesJoin(cfg, START, t, next);
      t := next;
    }
  }

  /** The answer to an upload waiting at `stage` once the gallery holds `m`. */
  lemma FinishesAccepted(cfg: Config, most: nat, s: System, w: nat, m: nat, u: Upload, stage: Stage)
    requires Roomy(cfg, most) && m < most && Filled(cfg, s, m) && u == Nth(m) && w in s.workers && s.workers[w] == Work(u, stage)
    requires stage == ToDiskCheck || (stage == ToHourCheck && m < cfg.perHour)
    ensures Reaches(cfg, s, Leave(Answered(cfg, s, u, 201), w))
  {
    if stage == ToHourCheck {
      NextAccepted(cfg, most, s, m);
      FinishAlone(cfg, s, w, 0);
    } else {
      FillOne(cfg, most, s, m);
      NewModel(cfg, s.rows, m);
      DiskCheckAlone(cfg, s, w, 0, 201);
    }
  }

  lemma FinishOne(cfg: Config, most: nat, s: System, w: nat, m: nat, u: Upload, stage: Stage) returns (t: System)
    requires Roomy(cfg, most) && m < most && Filled(cfg, s, m) && u == Nth(m) && w in s.workers && s.workers[w] == Work(u, stage)
    requires stage == ToDiskCheck || (stage == ToHourCheck && m < cfg.perHour)
    ensures Reaches(cfg, s, t) && Filled(cfg, t, m + 1) && t.workers == s.workers - {w}
  {
    FinishesAccepted(cfg, most, s, w, m, u, stage);
    FillOne(cfg, most, s, m);
    t := Leave(Answered(cfg, s, u, 201), w);
  }

  lemma FinishNext(cfg: Config, most: nat, s: System, n: nat, j: nat, k: nat, stage: Stage, m: nat) returns (t: System, m': nat)
    requires Roomy(cfg, most) && m == n + j && m < most && j < k && Stands(cfg, s, m, Waiting(n, j, k, stage))
    requires stage == ToDiskCheck || (stage == ToHourCheck && m < cfg.perHour)
    ensures Reaches(cfg, s, t) && m' == m + 1 && Stands(cfg, t, m', Waiting(n, j + 1, k, stage))
  {
    var u := Nth(m);
    WaitingShrinks(n, j, k, stage);
    WaitingFirst(n, j, k, stage, Work(u, stage));
    t := FinishOne(cfg, most, s, j, m, u, stage);
    m' := m + 1;
  }

  lemma AllFinish(cfg: Config, most: nat, n: nat, stage: Stage) returns (t: System, m: nat)
    requires Roomy(cfg, most) && n + cfg.inFlight <= most && n < cfg.perDay && n <= cfg.perHour && 1 <= cfg.inFlight
    requires (stage == ToDiskCheck && n < cfg.perHour) || (stage == ToHourCheck && most <= cfg.perHour)
    ensures Reaches(cfg, START, t) && m == n + cfg.inFlight && Filled(cfg, t, m)
  {
    t := AllBegin(cfg, most, n, cfg.inFlight, stage);
    m := n;
    for j: nat := 0 to cfg.inFlight
      invariant Reaches(cfg, START, t) && m == n + j && Stands(cfg, t, m, Waiting(n, j, cfg.inFlight, stage))
    {
      var next, m' := FinishNext(cfg, most, t, n, j, cfg.inFlight, stage, m);
      ReachesJoin(cfg, START, t, next);
      t, m := next, m';
    }
  }

  /** Room for `most` uploads, named by `hash`. */
  function Room(hash: Bytes -> Digest, perDay: nat, perHour: nat, most: nat, inFlight: nat): Config {
    Config(hash, perDay, perHour, Used(most), most + 1, inFlight)
  }

  /** The daily bound of `QuotaHolds` is met exactly, for any limit, any number in flight and any hash that tells so many lengths apart. */
  lemma DailyAllowanceIsReached(hash: Bytes -> Digest, perDay: nat, inFlight: nat) returns (s: System)
    requires perDay >= 1 && inFlight >= 1 && TellsLengths(hash, perDay + inFlight)
    ensures Reaches(Room(hash, perDay, perDay + inFlight, perDay + inFlight, inFlight), START, s)
    ensures |DayRows(s.rows, "a", 0)| == Allowance(perDay, inFlight)
  {
    var cfg := Room(hash, perDay, perDay + inFlight, perDay + inFlight, inFlight);
    var m: nat;
    s, m := AllFinish(cfg, perDay + inFlight, perDay - 1, ToHourCheck);
    FilledCounts(cfg, s.rows, m);
  }

  /** So is the hourly one. */
  lemma HourlyAllowanceIsReached(hash: Bytes -> Digest, perHour: nat, inFlight: nat) returns (s: System)
    requires perHour >= 1 && inFlight >= 1 && TellsLengths(hash, perHour + inFlight)
    ensures Reaches(Room(hash, perHour + inFlight, perHour, perHour + inFlight, inFlight), START, s)
    ensures |HourRows(s.rows, 0)| == Allowance(perHour, inFlight)
  {
    var cfg := Room(hash, perHour + inFlight, perHour, perHour + inFlight, inFlight);
    var m: nat;
    s, m := AllFinish(cfg, perHour + inFlight, perHour - 1, ToDiskCheck);
    FilledCounts(cfg, s.rows, m);
  }
}
