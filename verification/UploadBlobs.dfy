/**
 Blob integrity over whole runs: what every file and every row keep at every step of concurrent,
 failing and crashing uploads, and so what a download returns.
 */
module UploadBlobs {
  import opened Common
  import opened Text
  import opened Uploads

  // ---- temporary files ----------------------------------------------------

  ghost predicate Writing(s: System, w: nat) {
    w in s.workers && s.workers[w].stage.ToWrite?
  }

  /** A writing worker's temporary file is there and holds what it has written so far. */
  ghost predicate HoldsTemp(s: System, w: nat)
    requires Writing(s, w)
  {
    var st, data := s.workers[w].stage, Data(s.workers[w].u, s.workers[w].stage.which);
    st.written <= |data| && Temp(st.temp) in s.files && s.files[Temp(st.temp)] == data[..st.written]
  }

  ghost predicate TempsHeld(s: System) {
    && (forall w :: Writing(s, w) ==> HoldsTemp(s, w))
    && (forall v, w :: Writing(s, v) && Writing(s, w) && v != w ==> s.workers[v].stage.temp != s.workers[w].stage.temp)
  }

  lemma StepKeepsHeld(cfg: Config, s: System, step: Step, w: nat)
    requires TempsHeld(s) && Enabled(cfg, s, step) && Writing(Next(cfg, s, step), w)
    ensures HoldsTemp(Next(cfg, s, step), w)
  {
    if Writing(s, w) {
      assert HoldsTemp(s, w);
    }
  }

  lemma StepKeepsApart(cfg: Config, s: System, step: Step, v: nat, w: nat)
    requires TempsHeld(s) && Enabled(cfg, s, step) && Writing(Next(cfg, s, step), v) && Writing(Next(cfg, s, step), w) && v != w
    ensures Next(cfg, s, step).workers[v].stage.temp != Next(cfg, s, step).workers[w].stage.temp
  {
    assert Writing(s, v) || Writing(s, w);
    assert Writing(s, v) ==> HoldsTemp(s, v);
    assert Writing(s, w) ==> HoldsTemp(s, w);
  }

  lemma StepKeepsTemps(cfg: Config, s: System, step: Step)
    requires TempsHeld(s) && Enabled(cfg, s, step)
    ensures TempsHeld(Next(cfg, s, step))
  {
    var s' := Next(cfg, s, step);
    forall w | Writing(s', w)
      ensures HoldsTemp(s', w)
    {
      StepKeepsHeld(cfg, s, step, w);
    }
    forall v, w | Writing(s', v) && Writing(s', w) && v != w
      ensures s'.workers[v].stage.temp != s'.workers[w].stage.temp
    {
      StepKeepsApart(cfg, s, step, v, w);
    }
  }

  // ---- blobs ---------------------------------------------------------------

  /** Every file under a digest holds bytes that hash to it. */
  ghost predicate BlobsNamed(cfg: Config, files: Files) {
    forall d :: Blob(d) in files ==> cfg.hash(files[Blob(d)]) == d
  }

  ghost predicate HasBlob(cfg: Config, files: Files, data: Bytes) {
    Blob(cfg.hash(data)) in files
  }

  /** The stages a worker reaches only with the blob in place. */
  predicate Placed(stage: Stage, which: Which) {
    match which
    case ModelBlob => stage.ToInsert? || (!stage.ToHourCheck? && !stage.ToDiskCheck? && !stage.ToWalk? && stage.which == ThumbBlob)
    case ThumbBlob => stage.ToInsert?
  }

  ghost predicate PlacedBlobs(cfg: Config, s: System, w: nat)
    requires w in s.workers
  {
    forall which :: Placed(s.workers[w].stage, which) ==> HasBlob(cfg, s.files, Data(s.workers[w].u, which))
  }

  /** Row `i` is the row of its upload, and both its blobs are there. */
  ghost predicate Backed(cfg: Config, s: System, i: nat)
    requires |s.rows| == |s.uploads| && i < |s.rows|
  {
    s.rows[i] == RowOf(cfg, s.uploads[i]) && forall which :: HasBlob(cfg, s.files, Data(s.uploads[i], which))
  }

  ghost predicate RowsDiffer(rows: seq<Row>) {
    forall i, j :: 0 <= i < j < |rows| ==> rows[i].modelHash != rows[j].modelHash
  }

  ghost predicate Intact(cfg: Config, s: System) {
    && TempsHeld(s)
    && BlobsNamed(cfg, s.files)
    && (forall w :: w in s.workers ==> PlacedBlobs(cfg, s, w))
    && |s.rows| == |s.uploads|
    && (forall i: nat :: i < |s.rows| ==> Backed(cfg, s, i))
    && RowsDiffer(s.rows)
  }

  /** No step takes a blob away or changes its bytes, except to bytes with the same digest. */
  lemma BlobsStay(cfg: Config, s: System, step: Step, d: Digest)
    requires Enabled(cfg, s, step) && Blob(d) in s.files
    ensures Blob(d) in Next(cfg, s, step).files
  {
  }

  lemma StepKeepsNames(cfg: Config, s: System, step: Step)
    requires BlobsNamed(cfg, s.files) && Enabled(cfg, s, step)
    ensures BlobsNamed(cfg, Next(cfg, s, step).files)
  {
  }

  lemma StepKeepsPlaced(cfg: Config, s: System, step: Step, w: nat)
    requires Enabled(cfg, s, step) && w in Next(cfg, s, step).workers
    requires w in s.workers ==> PlacedBlobs(cfg, s, w)
    ensures PlacedBlobs(cfg, Next(cfg, s, step), w)
  {
    var s' := Next(cfg, s, step);
    forall which | Placed(s'.workers[w].stage, which)
      ensures HasBlob(cfg, s'.files, Data(s'.workers[w].u, which))
    {
      if w in s.workers && Placed(s.workers[w].stage, which) {
        assert HasBlob(cfg, s.files, Data(s.workers[w].u, which));
        BlobsStay(cfg, s, step, cfg.hash(Data(s.workers[w].u, which)));
      }
    }
  }

  lemma StepKeepsRows(cfg: Config, s: System, step: Step)
    requires Intact(cfg, s) && Enabled(cfg, s, step)
    ensures var s' := Next(cfg, s, step);
      && |s'.rows| == |s'.uploads|
      && RowsDiffer(s'.rows)
      && forall i: nat :: i < |s'.rows| ==> Backed(cfg, s', i)
  {
    var s' := Next(cfg, s, step);
    forall i: nat | i < |s'.rows|
      ensures Backed(cfg, s', i)
    {
      if i < |s.rows| {
        assert Backed(cfg, s, i);
        forall which
          ensures HasBlob(cfg, s'.files, Data(s'.uploads[i], which))
        {
          assert HasBlob(cfg, s.files, Data(s.uploads[i], which));
          BlobsStay(cfg, s, step, cfg.hash(Data(s.uploads[i], which)));
        }
      } else {
        assert PlacedBlobs(cfg, s, step.w);
      }
    }
  }

  lemma StepKeepsIntact(cfg: Config, s: System, step: Step)
    requires Intact(cfg, s) && Enabled(cfg, s, step)
    ensures Intact(cfg, Next(cfg, s, step))
  {
    StepKeepsTemps(cfg, s, step);
    StepKeepsNames(cfg, s, step);
    StepKeepsRows(cfg, s, step);
    var s' := Next(cfg, s, step);
    forall w | w in s'.workers
      ensures PlacedBlobs(cfg, s', w)
    {
      StepKeepsPlaced(cfg, s, step, w);
    }
  }

  /** At every point of every run the store and the table are intact. */
  lemma {:induction false} RunIntact(cfg: Config, states: seq<System>, steps: seq<Step>, k: nat)
    requires IsRun(cfg, states, steps) && k <= |steps|
    ensures Intact(cfg, states[k])
  {
    if k > 0 {
      RunIntact(cfg, states, steps, k - 1);
      StepKeepsIntact(cfg, states[k - 1], steps[k - 1]);
    }
  }

  // ---- downloads -----------------------------------------------------------

  function DigestOf(row: Row, which: Which): Digest {
    match which
    case ModelBlob => row.modelHash
    case ThumbBlob => row.thumbHash
  }

  /** What the two download routes answer: the bytes, or nothing for a 404. */
  function Download(s: System, id: nat, which: Which): Option<Bytes> {
    if id >= |s.rows| || id in s.deleted then None
    else
      var d := DigestOf(s.rows[id], which);
      if IsLowerHex(d, 64) && Blob(d) in s.files then Some(s.files[Blob(d)]) else None
  }

  ghost predicate HashIsHex(cfg: Config) {
    forall data :: IsLowerHex(cfg.hash(data), 64)
  }

  /** The models and thumbnails of the uploads that begin in `steps`. */
  function Offered(steps: seq<Step>): set<Bytes> {
    set i, which | 0 <= i < |steps| && steps[i].Begin? :: Data(steps[i].u, which)
  }

  /** No two of these have the same digest. */
  ghost predicate CollisionFreeOn(cfg: Config, offered: set<Bytes>) {
    forall a, b :: a in offered && b in offered && cfg.hash(a) == cfg.hash(b) ==> a == b
  }

  /** Every blob, every upload under way and every upload on record is among `offered`. */
  ghost predicate AllOffered(s: System, offered: set<Bytes>) {
    && (forall d :: Blob(d) in s.files ==> s.files[Blob(d)] in offered)
    && (forall w, which :: w in s.workers ==> Data(s.workers[w].u, which) in offered)
    && (forall i: nat, which :: i < |s.uploads| ==> Data(s.uploads[i], which) in offered)
  }

  lemma StepKeepsOffered(cfg: Config, s: System, step: Step, offered: set<Bytes>)
    requires AllOffered(s, offered) && Enabled(cfg, s, step)
    requires step.Begin? ==> forall which :: Data(step.u, which) in offered
    ensures AllOffered(Next(cfg, s, step), offered)
  {
  }

  lemma {:induction false} RunKeepsOffered(cfg: Config, states: seq<System>, steps: seq<Step>, k: nat)
    requires IsRun(cfg, states, steps) && k <= |steps|
    ensures AllOffered(states[k], Offered(steps))
  {
    if k > 0 {
      RunKeepsOffered(cfg, states, steps, k - 1);
      StepKeepsOffered(cfg, states[k - 1], steps[k - 1], Offered(steps));
    }
  }

  /** Later states remember every earlier upload, and every deletion. */
  lemma {:induction false} HistoryGrows(cfg: Config, states: seq<System>, steps: seq<Step>, j: nat, k: nat)
    requires IsRun(cfg, states, steps) && j <= k <= |steps|
    ensures states[j].uploads <= states[k].uploads && states[j].deleted <= states[k].deleted
  {
    if j < k {
      HistoryGrows(cfg, states, steps, j, k - 1);
    }
  }

  lemma DownloadNow(cfg: Config, s: System, offered: set<Bytes>, id: nat, which: Which)
    requires HashIsHex(cfg) && CollisionFreeOn(cfg, offered) && AllOffered(s, offered) && Intact(cfg, s) && id < |s.rows|
    ensures Download(s, id, which) == if id in s.deleted then None else Some(Data(s.uploads[id], which))
  {
    var data := Data(s.uploads[id], which);
    assert Backed(cfg, s, id);
    assert HasBlob(cfg, s.files, data);
    assert DigestOf(s.rows[id], which) == cfg.hash(data);
    assert cfg.hash(s.files[Blob(cfg.hash(data))]) == cfg.hash(data);
  }

  /** A deleted model is never served again, whatever the hash. */
  lemma DeletedIsGone(cfg: Config, states: seq<System>, steps: seq<Step>, j: nat, k: nat, id: nat, which: Which)
    requires IsRun(cfg, states, steps) && j <= k <= |steps| && id in states[j].deleted
    ensures Download(states[k], id, which) == None
  {
    HistoryGrows(cfg, states, steps, j, k);
  }

  /**
   Once a row is in, every later download of it returns exactly the bytes uploaded, until the model is
   deleted: all the hash must do is tell apart the bytes offered in this run.
   */
  lemma DownloadsWhatWasUploaded(cfg: Config, states: seq<System>, steps: seq<Step>, j: nat, k: nat, id: nat, which: Which)
    requires IsRun(cfg, states, steps) && j <= k <= |steps|
    requires HashIsHex(cfg) && CollisionFreeOn(cfg, Offered(steps))
    requires id < |states[j].rows| && id !in states[k].deleted
    ensures Intact(cfg, states[j]) && Download(states[k], id, which) == Some(Data(states[j].uploads[id], which))
  {
    RunIntact(cfg, states, steps, j);
    RunIntact(cfg, states, steps, k);
    RunKeepsOffered(cfg, states, steps, k);
    HistoryGrows(cfg, states, steps, j, k);
    DownloadNow(cfg, states[k], Offered(steps), id, which);
  }

  /** Without that assumption a download still hashes to the row's digest. */
  lemma DownloadHashes(cfg: Config, states: seq<System>, steps: seq<Step>, k: nat, id: nat, which: Which)
    requires IsRun(cfg, states, steps) && k <= |steps| && HashIsHex(cfg)
    requires id < |states[k].rows| && id !in states[k].deleted
    ensures var got := Download(states[k], id, which);
      got.Some? && cfg.hash(got.value) == DigestOf(states[k].rows[id], which)
  {
    RunIntact(cfg, states, steps, k);
    assert Backed(cfg, states[k], id);
    assert HasBlob(cfg, states[k].files, Data(states[k].uploads[id], which));
  }

  // ---- what a conflict leaves behind ---------------------------------------

  predicate Referenced(rows: seq<Row>, d: Digest) {
    exists i :: 0 <= i < |rows| && (rows[i].modelHash == d || rows[i].thumbHash == d)
  }

  /** No blob without a row. */
  ghost predicate NothingOrphaned(rows: seq<Row>, files: Files) {
    forall d :: Blob(d) in files ==> Referenced(rows, d)
  }

  /** An accepted upload orphans nothing. */
  lemma AcceptedOrphansNothing(cfg: Config, rows: seq<Row>, files: Files, u: Upload)
    requires NothingOrphaned(rows, files)
    ensures NothingOrphaned(rows + [RowOf(cfg, u)], Stored(cfg, Stored(cfg, files, u.model), u.thumb))
  {
    var rows', files' := rows + [RowOf(cfg, u)], Stored(cfg, Stored(cfg, files, u.model), u.thumb);
    assert rows'[|rows|] == RowOf(cfg, u);
    forall d | Blob(d) in files'
      ensures Referenced(rows', d)
    {
      if Blob(d) in files {
        var i :| 0 <= i < |rows| && (rows[i].modelHash == d || rows[i].thumbHash == d);
        assert rows'[i] == rows[i];
      }
    }
  }

  /**
   A 409 puts both blobs before it refuses. It leaves a blob no row refers to exactly when the
   thumbnail's was not there before, whatever the model's.
   */
  lemma ConflictOrphansIffNewThumb(cfg: Config, rows: seq<Row>, files: Files, u: Upload)
    requires NothingOrphaned(rows, files) && HasModel(rows, cfg.hash(u.model)) && HasBlob(cfg, files, u.model)
    requires forall i :: 0 <= i < |rows| ==> Blob(rows[i].modelHash) in files && Blob(rows[i].thumbHash) in files
    ensures NothingOrphaned(rows, Stored(cfg, Stored(cfg, files, u.model), u.thumb)) <==> HasBlob(cfg, files, u.thumb)
  {
    var files', d := Stored(cfg, Stored(cfg, files, u.model), u.thumb), cfg.hash(u.thumb);
    assert Blob(d) in files';
    if HasBlob(cfg, files, u.thumb) {
      assert files' == files;
    } else {
      assert !Referenced(rows, d);
    }
  }
}
