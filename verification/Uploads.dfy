/**
 Uploads: the quota checks, the content-addressed blob store with write-then-rename, and the
 insert, each database statement and each file operation a step of its own.
 */
module Uploads {
  import opened Common
  import opened Text
  import opened Sums

  type Digest = string

  const DAY_SECONDS := 86400
  const HOUR_SECONDS := 3600

  /** `hash` names content; at most `inFlight` uploads are between their first quota check and their insert. */
  datatype Config = Config(hash: Bytes -> Digest, perDay: int, perHour: int, maxDisk: int, maxRequest: nat, inFlight: nat)

  datatype Upload = Upload(author: string, model: Bytes, thumb: Bytes, now: int) {
    function Size(): nat {
      |model| + |thumb|
    }
  }

  datatype Which = ModelBlob | ThumbBlob

  function Data(u: Upload, which: Which): Bytes {
    match which
    case ModelBlob => u.model
    case ThumbBlob => u.thumb
  }

  /** One row of the models table; the id is its place. Rows are never removed. */
  datatype Row = Row(modelHash: Digest, thumbHash: Digest, author: string, createdAt: int)

  datatype Name = Blob(digest: Digest) | Temp(n: nat)

  type Files = map<Name, Bytes>

  ghost function TotalBytes(files: Files): nat {
    Sum(Sizes(files))
  }

  function Sizes(files: Files): map<Name, nat> {
    map n | n in files :: |files[n]|
  }

  /** Each file counts once, with its size. */
  lemma TotalRemove(files: Files, n: Name)
    requires n in files
    ensures TotalBytes(files) == |files[n]| + TotalBytes(files - {n})
  {
    SumRemove(Sizes(files), n);
    assert Sizes(files - {n}) == Sizes(files) - {n};
  }

  function UploadsSince(rows: seq<Row>, since: int): set<nat> {
    set i: nat | i < |rows| && rows[i].createdAt > since
  }

  /** The rows uploads_today counts: by this author, younger than a day, deleted or not. */
  function UploadsToday(rows: seq<Row>, author: string, now: int): set<nat> {
    set i: nat | i < |rows| && rows[i].author == author && rows[i].createdAt > now - DAY_SECONDS
  }

  function UploadsLastHour(rows: seq<Row>, now: int): set<nat> {
    UploadsSince(rows, now - HOUR_SECONDS)
  }

  /** The UNIQUE on model_hash. */
  predicate HasModel(rows: seq<Row>, d: Digest) {
    exists i :: 0 <= i < |rows| && rows[i].modelHash == d
  }

  function RowOf(cfg: Config, u: Upload): Row {
    Row(cfg.hash(u.model), cfg.hash(u.thumb), u.author, u.now)
  }

  /**
   What a worker does next. A walk of the store has `listed` what was there when it began, and adds up
   sizes file by file.
   */
  datatype Stage =
    | ToHourCheck
    | ToDiskCheck
    | ToWalk(listed: set<Name>, visited: set<Name>, total: nat)
    | ToLook(which: Which)
    | ToCreate(which: Which)
    | ToWrite(which: Which, temp: nat, written: nat)
    | ToInsert

  datatype Work = Work(u: Upload, stage: Stage)

  /** `uploads` remembers, row by row, which upload made it; `deleted` are the ids no longer served. */
  datatype System = System(rows: seq<Row>, files: Files, workers: map<nat, Work>, uploads: seq<Upload>, deleted: set<nat>, bans: set<string>)

  /** `Begin` is an upload passing the ban check and the first quota check; clocks are whatever the worker read. */
  datatype Step =
    | Begin(w: nat, u: Upload)
    | CheckHour(w: nat)
    | StartWalk(w: nat)
    | Visit(w: nat, n: Name)
    | CheckDisk(w: nat)
    | Look(w: nat)
    | Create(w: nat, temp: nat)
    | Write(w: nat, count: nat)
    | Rename(w: nat)
    | Fail(w: nat)
    | Crash(w: nat)
    | Insert(w: nat)
    | DeleteModel(id: nat)
    | BanKey(key: string)
    | LiftBan(key: string)

  /** Whatever was there at the start and still is has been visited; files that came or went meanwhile may have been missed. */
  predicate WalkDone(files: Files, st: Stage)
    requires st.ToWalk?
  {
    forall n :: n in st.listed && n in files ==> n in st.visited
  }

  ghost predicate Enabled(cfg: Config, s: System, step: Step) {
    match step
    case Begin(w, u) =>
      w !in s.workers && |s.workers| < cfg.inFlight && u.author !in s.bans && u.Size() <= cfg.maxRequest && |UploadsToday(s.rows, u.author, u.now)| < cfg.perDay
    case CheckHour(w) => w in s.workers && s.workers[w].stage.ToHourCheck?
    case StartWalk(w) => w in s.workers && s.workers[w].stage.ToDiskCheck?
    case Visit(w, n) => w in s.workers && s.workers[w].stage.ToWalk? && n in s.files && n !in s.workers[w].stage.visited
    case CheckDisk(w) => w in s.workers && s.workers[w].stage.ToWalk? && WalkDone(s.files, s.workers[w].stage)
    case Look(w) => w in s.workers && s.workers[w].stage.ToLook?
    case Create(w, temp) => w in s.workers && s.workers[w].stage.ToCreate? && Temp(temp) !in s.files
    case Write(w, count) =>
      w in s.workers && s.workers[w].stage.ToWrite? && s.workers[w].stage.written + count <= |Data(s.workers[w].u, s.workers[w].stage.which)|
    case Rename(w) =>
      w in s.workers && s.workers[w].stage.ToWrite? && s.workers[w].stage.written == |Data(s.workers[w].u, s.workers[w].stage.which)|
    case Fail(w) => w in s.workers && s.workers[w].stage.ToWrite?
    case Crash(w) => w in s.workers
    case Insert(w) => w in s.workers && s.workers[w].stage.ToInsert?
    case DeleteModel(id) => id < |s.rows|
    case BanKey(_) => true
    case LiftBan(_) => true
  }

  /** After one blob is in place: the other blob, then the row. */
  function Following(which: Which): Stage {
    match which
    case ModelBlob => ToLook(ThumbBlob)
    case ThumbBlob => ToInsert
  }

  function MoveOn(s: System, w: nat, stage: Stage): System
    requires w in s.workers
  {
    s.(workers := s.workers[w := s.workers[w].(stage := stage)])
  }

  function Leave(s: System, w: nat): System {
    s.(workers := s.workers - {w})
  }

  ghost function Next(cfg: Config, s: System, step: Step): System
    requires Enabled(cfg, s, step)
  {
    match step
    case Begin(w, u) => s.(workers := s.workers[w := Work(u, ToHourCheck)])
    case CheckHour(w) =>
      if |UploadsLastHour(s.rows, s.workers[w].u.now)| >= cfg.perHour then Leave(s, w) else MoveOn(s, w, ToDiskCheck)
    case StartWalk(w) => MoveOn(s, w, ToWalk(s.files.Keys, {}, 0))
    case Visit(w, n) =>
      var st := s.workers[w].stage;
      MoveOn(s, w, st.(visited := st.visited + {n}, total := st.total + |s.files[n]|))
    case CheckDisk(w) =>
      if s.workers[w].stage.total + s.workers[w].u.Size() > cfg.maxDisk then Leave(s, w) else MoveOn(s, w, ToLook(ModelBlob))
    case Look(w) =>
      var which := s.workers[w].stage.which;
      MoveOn(s, w, if Blob(cfg.hash(Data(s.workers[w].u, which))) in s.files then Following(which) else ToCreate(which))
    case Create(w, temp) => MoveOn(s.(files := s.files[Temp(temp) := []]), w, ToWrite(s.workers[w].stage.which, temp, 0))
    case Write(w, count) =>
      var st := s.workers[w].stage;
      MoveOn(s.(files := s.files[Temp(st.temp) := Data(s.workers[w].u, st.which)[..st.written + count]]), w,
             st.(written := st.written + count))
    case Rename(w) =>
      var st, data := s.workers[w].stage, Data(s.workers[w].u, s.workers[w].stage.which);
      MoveOn(s.(files := (s.files - {Temp(st.temp)})[Blob(cfg.hash(data)) := data]), w, Following(st.which))
    case Fail(w) => Leave(s.(files := s.files - {Temp(s.workers[w].stage.temp)}), w)
    case Crash(w) => Leave(s, w)
    case Insert(w) =>
      var u := s.workers[w].u;
      if HasModel(s.rows, cfg.hash(u.model)) then Leave(s, w)
      else Leave(s.(rows := s.rows + [RowOf(cfg, u)], uploads := s.uploads + [u]), w)
    case DeleteModel(id) => s.(deleted := s.deleted + {id})
    case BanKey(k) => s.(bans := s.bans + {k})
    case LiftBan(k) => s.(bans := s.bans - {k})
  }

  const START := System([], map[], map[], [], {}, {})

  /** A run from the empty gallery: every step was possible where it was taken. */
  ghost predicate IsRun(cfg: Config, states: seq<System>, steps: seq<Step>) {
    && |states| == |steps| + 1
    && states[0] == START
    && forall i :: 0 <= i < |steps| ==> Enabled(cfg, states[i], steps[i]) && states[i + 1] == Next(cfg, states[i], steps[i])
  }

  // ---- the sequential handler ---------------------------------------------

  /** What the gallery answers an upload whose envelope parsed, from the state it finds. */
  ghost function UploadStatus(cfg: Config, rows: seq<Row>, files: Files, bans: set<string>, u: Upload): int {
    if u.author in bans then 403
    else if u.Size() > cfg.maxRequest then 413
    else if |UploadsToday(rows, u.author, u.now)| >= cfg.perDay || |UploadsLastHour(rows, u.now)| >= cfg.perHour then 429
    else if TotalBytes(files) + u.Size() > cfg.maxDisk then 507
    else if HasModel(rows, cfg.hash(u.model)) then 409
    else 201
  }

  /** Rows by `author` younger than a day, and all rows younger than an hour, at time `now`. */
  function RecentBy(rows: seq<Row>, author: string, now: int): set<nat> {
    set i: nat | i < |rows| && rows[i].author == author && now - rows[i].createdAt < 86_400
  }

  function Recent(rows: seq<Row>, now: int): set<nat> {
    set i: nat | i < |rows| && now - rows[i].createdAt < 3_600
  }

  /** When each answer is given: banned, too large, over a quota, no room, known already, or taken. */
  lemma StatusIs(cfg: Config, rows: seq<Row>, files: Files, bans: set<string>, u: Upload)
    ensures var status, size := UploadStatus(cfg, rows, files, bans, u), |u.model| + |u.thumb|;
      var overQuota := |RecentBy(rows, u.author, u.now)| >= cfg.perDay || |Recent(rows, u.now)| >= cfg.perHour;
      var known := exists i :: 0 <= i < |rows| && rows[i].modelHash == cfg.hash(u.model);
      && (status == 403 <==> u.author in bans)
      && (status == 413 <==> u.author !in bans && size > cfg.maxRequest)
      && (status == 429 <==> u.author !in bans && size <= cfg.maxRequest && overQuota)
      && (status == 507 <==> u.author !in bans && size <= cfg.maxRequest && !overQuota && TotalBytes(files) + size > cfg.maxDisk)
      && (status == 409 <==> u.author !in bans && size <= cfg.maxRequest && !overQuota && TotalBytes(files) + size <= cfg.maxDisk && known)
      && (status == 201 <==> u.author !in bans && size <= cfg.maxRequest && !overQuota && TotalBytes(files) + size <= cfg.maxDisk && !known)
  {
    assert RecentBy(rows, u.author, u.now) == UploadsToday(rows, u.author, u.now);
    assert Recent(rows, u.now) == UploadsLastHour(rows, u.now);
  }

  function Stored(cfg: Config, files: Files, data: Bytes): Files {
    if Blob(cfg.hash(data)) in files then files else files[Blob(cfg.hash(data)) := data]
  }

  class BlobStore {
    const cfg: Config
    var files: Files

    constructor (cfg: Config)
      ensures this.cfg == cfg && files == map[]
    {
      this.cfg := cfg;
      files := map[];
    }

    /** `temp` is the unused name the system hands out for the temporary file. */
    method Put(data: Bytes, temp: nat) returns (digest: Digest)
      requires Temp(temp) !in files
      modifies this
      ensures digest == cfg.hash(data) && files == Stored(cfg, old(files), data)
    {
      digest := cfg.hash(data);
      if Blob(digest) in files {
        return;
      }
      files := files[Temp(temp) := []];
      files := files[Temp(temp) := data];
      files := (files - {Temp(temp)})[Blob(digest) := data];
    }

    method Get(digest: Digest) returns (r: Option<Bytes>)
      ensures r == if IsLowerHex(digest, 64) && Blob(digest) in files then Some(files[Blob(digest)]) else None
    {
      if !IsLowerHex(digest, 64) || Blob(digest) !in files {
        return None;
      }
      return Some(files[Blob(digest)]);
    }

    method Total() returns (total: nat)
      ensures total == TotalBytes(files)
    {
      var rest := files;
      total := 0;
      while rest != map[]
        invariant total + TotalBytes(rest) == TotalBytes(files)
        decreases |rest|
      {
        var n :| n in rest;
        TotalRemove(rest, n);
        assert (rest - {n}).Keys == rest.Keys - {n};
        total := total + |rest[n]|;
        rest := rest - {n};
      }
    }
  }

  class Gallery {
    const cfg: Config
    const store: BlobStore
    var rows: seq<Row>
    var bans: set<string>

    constructor (store: BlobStore)
      ensures this.store == store && cfg == store.cfg && rows == [] && bans == {}
    {
      this.store, cfg := store, store.cfg;
      rows, bans := [], {};
    }

    /** The chain of refusals, cheapest first. */
    method CheckUploadAllowed(u: Upload) returns (status: Option<int>)
      requires cfg == store.cfg
      ensures var full := UploadStatus(cfg, rows, store.files, bans, u);
        if full in {201, 409} then status == None else status == Some(full)
      ensures u.author in bans <==> status == Some(403)
      ensures status == Some(413) <==> u.author !in bans && |u.model| + |u.thumb| > cfg.maxRequest
      ensures status == None ==>
        && |RecentBy(rows, u.author, u.now)| < cfg.perDay && |Recent(rows, u.now)| < cfg.perHour
        && TotalBytes(store.files) + |u.model| + |u.thumb| <= cfg.maxDisk
    {
      StatusIs(cfg, rows, store.files, bans, u);
      if u.author in bans {
        return Some(403);
      }
      if u.Size() > cfg.maxRequest {
        return Some(413);
      }
      if |UploadsToday(rows, u.author, u.now)| >= cfg.perDay {
        return Some(429);
      }
      if |UploadsLastHour(rows, u.now)| >= cfg.perHour {
        return Some(429);
      }
      var total := store.Total();
      if total + u.Size() > cfg.maxDisk {
        return Some(507);
      }
      return None;
    }

    /** Check, put the model, put the thumb, insert; a known model is a conflict after both puts. */
    method HandleUpload(u: Upload, temp: nat) returns (status: int)
      requires cfg == store.cfg && Temp(temp) !in store.files
      modifies this, store
      ensures status == UploadStatus(cfg, old(rows), old(store.files), old(bans), u)
      ensures store.files == if status in {201, 409} then Stored(cfg, Stored(cfg, old(store.files), u.model), u.thumb) else old(store.files)
      ensures rows == if status == 201 then old(rows) + [RowOf(cfg, u)] else old(rows)
      ensures bans == old(bans)
      ensures u.author in old(bans) <==> status == 403
      ensures status !in {201, 409} ==> rows == old(rows) && store.files == old(store.files)
      ensures status == 201 <==>
        && u.author !in old(bans) && |u.model| + |u.thumb| <= cfg.maxRequest
        && |RecentBy(old(rows), u.author, u.now)| < cfg.perDay && |Recent(old(rows), u.now)| < cfg.perHour
        && TotalBytes(old(store.files)) + |u.model| + |u.thumb| <= cfg.maxDisk
        && !exists i :: 0 <= i < |old(rows)| && old(rows)[i].modelHash == cfg.hash(u.model)
      ensures status == 201 ==> rows == old(rows) + [Row(cfg.hash(u.model), cfg.hash(u.thumb), u.author, u.now)]
    {
      StatusIs(cfg, rows, store.files, bans, u);
      var refusal := CheckUploadAllowed(u);
      if refusal.Some? {
        return refusal.value;
      }
      var modelHash := store.Put(u.model, temp);
      var thumbHash := store.Put(u.thumb, temp);
      if HasModel(rows, modelHash) {
        return 409;
      }
      rows := rows + [Row(modelHash, thumbHash, u.author, u.now)];
      return 201;
    }
  }
}
