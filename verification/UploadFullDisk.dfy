/** The disk ceiling of UploadDisk is reached: for every number of uploads in flight, a run that fills it to the byte. */
module UploadFullDisk {
  import opened Text
  import opened Uploads
  import opened UploadLoad
  import opened UploadRuns
  import opened UploadFull

  /** The `i`th of fewer than half of `m` uploads, all of size `m`, no two of whose blobs have the same length. */
  function Part(m: nat, i: nat): Upload
    requires 2 * i + 2 < m
  {
    Upload("a", Zeros(i + 1), Zeros(m - i - 1), 0)
  }

  lemma LengthsDiffer(m: nat, i: nat, j: nat, which: Which)
    requires i < j && 2 * j + 2 < m
    ensures |Data(Part(m, i), which)| <= m && |Part(m, j).model| <= m && |Part(m, j).thumb| <= m
    ensures |Data(Part(m, i), which)| != |Part(m, j).model| && |Data(Part(m, i), which)| != |Part(m, j).thumb|
    ensures |Part(m, j).model| != |Part(m, j).thumb|
  {
  }

  /** Room for one upload of size `m`, `t` of them in flight. */
  function Tight(hash: Bytes -> Digest, m: nat, t: nat): Config {
    Config(hash, t, t, m, m, t)
  }

  /** All past the walk of an empty store, the first `j` of them gone again. */
  function Lined(m: nat, j: nat, k: nat): map<nat, Work>
    requires 2 * k < m
  {
    map i | i in Range(k) && j <= i :: Work(Part(m, i), ToLook(ModelBlob))
  }

  lemma FindsNoRows(cfg: Config, s: System, w: nat, u: Upload, hour: System)
    requires s.rows == [] && s.bans == {} && w !in s.workers && |s.workers| < cfg.inFlight && cfg.perDay >= 1 && cfg.perHour >= 1
    requires u.Size() <= cfg.maxRequest && hour == s.(workers := s.workers[w := Work(u, ToDiskCheck)])
    ensures Reaches(cfg, s, hour)
  {
    var begun := s.(workers := s.workers[w := Work(u, ToHourCheck)]);
    assert UploadsToday(s.rows, u.author, u.now) == {} && UploadsLastHour(s.rows, u.now) == {};
    ReachesSelf(cfg, s);
    ReachesStep(cfg, s, s, Begin(w, u), begun);
    assert begun.workers[w := Work(u, ToDiskCheck)] == hour.workers;
    ReachesStep(cfg, s, begun, CheckHour(w), hour);
  }

  lemma FindsNoFiles(cfg: Config, s: System, w: nat, u: Upload, end: System)
    requires s.files == map[] && w in s.workers && s.workers[w] == Work(u, ToDiskCheck) && u.Size() <= cfg.maxDisk
    requires end == s.(workers := s.workers[w := Work(u, ToLook(ModelBlob))])
    ensures Reaches(cfg, s, end)
  {
    var walk := s.(workers := s.workers[w := Work(u, ToWalk({}, {}, 0))]);
    assert s.files.Keys == {};
    ReachesSelf(cfg, s);
    ReachesStep(cfg, s, s, StartWalk(w), walk);
    assert walk.workers[w := Work(u, ToLook(ModelBlob))] == end.workers;
    ReachesStep(cfg, s, walk, CheckDisk(w), end);
  }

  /** One more upload comes in and finds the store empty. */
  lemma ComesIn(cfg: Config, s: System, w: nat, u: Upload, end: System)
    requires s.rows == [] && s.files == map[] && s.bans == {} && w !in s.workers && |s.workers| < cfg.inFlight
    requires cfg.perDay >= 1 && cfg.perHour >= 1 && u.Size() <= cfg.maxRequest && u.Size() <= cfg.maxDisk
    requires end == s.(workers := s.workers[w := Work(u, ToLook(ModelBlob))])
    ensures Reaches(cfg, s, end)
  {
    var hour := s.(workers := s.workers[w := Work(u, ToDiskCheck)]);
    FindsNoRows(cfg, s, w, u, hour);
    assert hour.workers[w := Work(u, ToLook(ModelBlob))] == end.workers;
    FindsNoFiles(cfg, hour, w, u, end);
    ReachesJoin(cfg, s, hour, end);
  }

  lemma LinedGrows(m: nat, k: nat, work: Work)
    requires 2 * k + 2 < m && work == Work(Part(m, k), ToLook(ModelBlob))
    ensures Lined(m, 0, k + 1) == Lined(m, 0, k)[k := work] && k !in Lined(m, 0, k) && |Lined(m, 0, k)| == k
  {
    var before, after := Lined(m, 0, k), Lined(m, 0, k + 1);
    RangeSize(k);
    assert before.Keys == Range(k);
    assert after.Keys == before.Keys + {k};
    assert forall i :: i in before ==> after[i] == before[i];
  }

  lemma AllComeIn(hash: Bytes -> Digest, m: nat, t: nat) returns (s: System)
    requires t >= 1 && 2 * t < m
    ensures Reaches(Tight(hash, m, t), START, s) && s.rows == [] && s.files == map[] && s.bans == {} && s.workers == Lined(m, 0, t)
  {
    s := START;
    ReachesSelf(Tight(hash, m, t), START);
    assert Lined(m, 0, 0) == map[];
    for k: nat := 0 to t
      invariant Reaches(Tight(hash, m, t), START, s) && s.rows == [] && s.files == map[] && s.bans == {} && s.workers == Lined(m, 0, k)
    {
      var work := Work(Part(m, k), ToLook(ModelBlob));
      var next := s.(workers := s.workers[k := work]);
      LinedGrows(m, k, work);
      ComesIn(Tight(hash, m, t), s, k, Part(m, k), next);
      ReachesJoin(Tight(hash, m, t), START, s, next);
      s := next;
    }
  }

  /** `j` times `m`. */
  function Shelf(m: nat, j: nat): nat {
    if j == 0 then 0 else Shelf(m, j - 1) + m
  }

  lemma {:induction false} ShelfIsProduct(m: nat, j: nat)
    ensures Shelf(m, j) == j * m
  {
    if j > 0 {
      ShelfIsProduct(m, j - 1);
      assert j * m == (j - 1) * m + m;
    }
  }

  /** Every file is a blob of one of the first `j` uploads. */
  ghost predicate OnlyTheirs(cfg: Config, files: Files, m: nat, j: nat)
    requires 2 * j < m
  {
    forall n :: n in files ==> exists i: nat, which :: i < j && n == Blob(cfg.hash(Data(Part(m, i), which)))
  }

  ghost predicate TheirRows(cfg: Config, rows: seq<Row>, m: nat, j: nat)
    requires 2 * j < m
  {
    |rows| == j && forall i :: 0 <= i < j ==> rows[i] == RowOf(cfg, Part(m, i))
  }

  /** The first `j` are stored, each with both its blobs. */
  ghost predicate Shelved(cfg: Config, s: System, m: nat, j: nat)
    requires 2 * j < m
  {
    TheirRows(cfg, s.rows, m, j) && OnlyTheirs(cfg, s.files, m, j) && TotalBytes(s.files) == Shelf(m, j)
  }

  lemma NextIsNew(cfg: Config, s: System, m: nat, j: nat)
    requires 2 * j + 2 < m && TellsLengths(cfg.hash, m) && Shelved(cfg, s, m, j)
    ensures var u := Part(m, j);
      && !HasModel(s.rows, cfg.hash(u.model)) && Temp(0) !in s.files
      && Blob(cfg.hash(u.model)) !in s.files && Blob(cfg.hash(u.thumb)) !in s.files && cfg.hash(u.model) != cfg.hash(u.thumb)
  {
    var u := Part(m, j);
    forall i: nat, which | i < j
      ensures cfg.hash(Data(Part(m, i), which)) != cfg.hash(u.model) && cfg.hash(Data(Part(m, i), which)) != cfg.hash(u.thumb)
    {
      LengthsDiffer(m, i, j, which);
    }
    assert |u.model| == j + 1 && |u.thumb| == m - j - 1;
    forall i | 0 <= i < j
      ensures s.rows[i].modelHash != cfg.hash(u.model)
    {
      assert s.rows[i].modelHash == cfg.hash(Data(Part(m, i), ModelBlob));
    }
  }

  /** Two new blobs add their sizes. */
  lemma BothAdd(cfg: Config, files: Files, u: Upload)
    requires Blob(cfg.hash(u.model)) !in files && Blob(cfg.hash(u.thumb)) !in files && cfg.hash(u.model) != cfg.hash(u.thumb)
    ensures TotalBytes(Stored(cfg, Stored(cfg, files, u.model), u.thumb)) == TotalBytes(files) + u.Size()
  {
    var one := Stored(cfg, files, u.model);
    TotalUpdate(files, Blob(cfg.hash(u.model)), u.model);
    TotalUpdate(one, Blob(cfg.hash(u.thumb)), u.thumb);
  }

  lemma StillOnlyTheirs(cfg: Config, files: Files, m: nat, j: nat, u: Upload, after: Files)
    requires 2 * j + 2 < m && OnlyTheirs(cfg, files, m, j) && u == Part(m, j)
    requires after == Stored(cfg, Stored(cfg, files, u.model), u.thumb)
    ensures OnlyTheirs(cfg, after, m, j + 1)
  {
    forall n | n in after
      ensures exists i: nat, which :: i < j + 1 && n == Blob(cfg.hash(Data(Part(m, i), which)))
    {
      if n in files {
        var i: nat, which :| i < j && n == Blob(cfg.hash(Data(Part(m, i), which)));
        assert i < j + 1;
      } else {
        var which := if n == Blob(cfg.hash(u.model)) then ModelBlob else ThumbBlob;
        assert n == Blob(cfg.hash(Data(Part(m, j), which)));
      }
    }
  }

  lemma RowsGrow(cfg: Config, rows: seq<Row>, m: nat, j: nat, u: Upload)
    requires 2 * j + 2 < m && TheirRows(cfg, rows, m, j) && u == Part(m, j)
    ensures TheirRows(cfg, rows + [RowOf(cfg, u)], m, j + 1)
  {
  }

  lemma ShelveOne(cfg: Config, s: System, m: nat, j: nat, u: Upload, after: System)
    requires 2 * j + 2 < m && TellsLengths(cfg.hash, m) && Shelved(cfg, s, m, j) && u == Part(m, j)
    requires after.rows == s.rows + [RowOf(cfg, u)] && after.files == Stored(cfg, Stored(cfg, s.files, u.model), u.thumb)
    ensures Shelved(cfg, after, m, j + 1)
  {
    NextIsNew(cfg, s, m, j);
    BothAdd(cfg, s.files, u);
    StillOnlyTheirs(cfg, s.files, m, j, u, after.files);
    RowsGrow(cfg, s.rows, m, j, u);
    assert u.Size() == m;
  }

  lemma LinedShrinks(m: nat, j: nat, t: nat)
    requires j < t && 2 * t < m
    ensures j in Lined(m, j, t) && Lined(m, j, t)[j] == Work(Part(m, j), ToLook(ModelBlob))
    ensures Lined(m, j + 1, t) == Lined(m, j, t) - {j}
  {
  }

  /** The next of the line stores its blobs and its row. */
  lemma StoresNext(cfg: Config, s: System, m: nat, j: nat, t: nat) returns (after: System)
    requires j < t && 2 * t < m && TellsLengths(cfg.hash, m) && Shelved(cfg, s, m, j) && s.workers == Lined(m, j, t)
    ensures Reaches(cfg, s, after) && Shelved(cfg, after, m, j + 1) && after.workers == Lined(m, j + 1, t)
  {
    var u := Part(m, j);
    LinedShrinks(m, j, t);
    NextIsNew(cfg, s, m, j);
    StoreAlone(cfg, s, j, 0);
    after := Leave(Answered(cfg, s, u, 201), j);
    ShelveOne(cfg, s, m, j, u, after);
  }

  lemma StartShelved(cfg: Config, s: System, m: nat)
    requires s.rows == [] && s.files == map[] && m > 0
    ensures Shelved(cfg, s, m, 0)
  {
    NoFiles();
  }

  lemma AllStore(hash: Bytes -> Digest, m: nat, t: nat) returns (s: System)
    requires t >= 1 && 2 * t < m && TellsLengths(hash, m)
    ensures Reaches(Tight(hash, m, t), START, s) && TotalBytes(s.files) == Shelf(m, t)
  {
    var cfg := Tight(hash, m, t);
    s := AllComeIn(hash, m, t);
    StartShelved(cfg, s, m);
    for j: nat := 0 to t
      invariant Reaches(cfg, START, s) && Shelved(cfg, s, m, j) && s.workers == Lined(m, j, t)
    {
      var next := StoresNext(cfg, s, m, j, t);
      ReachesJoin(cfg, START, s, next);
      s := next;
    }
  }

  lemma CeilingIsShelf(cfg: Config, m: nat, t: nat)
    requires cfg.maxDisk == m && cfg.maxRequest == m && cfg.inFlight == t && t >= 1
    ensures Ceiling(cfg) == Shelf(m, t)
  {
    ShelfIsProduct(m, t - 1);
  }

  /**
   The ceiling of `DiskHolds` is met exactly, for any number in flight, any upload size large enough to
   give so many uploads different lengths, and any hash that tells those apart.
   */
  lemma CeilingIsReached(hash: Bytes -> Digest, size: nat, inFlight: nat) returns (s: System)
    requires inFlight >= 1 && 2 * inFlight < size && TellsLengths(hash, size)
    ensures Reaches(Tight(hash, size, inFlight), START, s) && TotalBytes(s.files) == Ceiling(Tight(hash, size, inFlight))
  {
    s := AllStore(hash, size, inFlight);
    CeilingIsShelf(Tight(hash, size, inFlight), size, inFlight);
  }
}
