/** A conflict that leaves a thumbnail behind, in a gallery with a single model. */
module UploadConflict {
  import opened Text
  import opened Uploads
  import opened UploadBlobs
  import opened UploadRuns
  import opened UploadFull

  /** A model of one byte, with a thumbnail of the given length. */
  function OneByte(thumb: nat): Upload {
    Upload("a", Zeros(1), Zeros(thumb), 0)
  }

  function Small(hash: Bytes -> Digest): Config {
    Config(hash, 9, 9, 100, 10, 1)
  }

  lemma FirstIsAccepted(hash: Bytes -> Digest)
    ensures UploadStatus(Small(hash), [], map[], {}, OneByte(2)) == 201
  {
    NoFiles();
    assert UploadsToday([], "a", 0) == {} && UploadsLastHour([], 0) == {};
  }

  /** The gallery after the first upload. */
  function AfterFirst(hash: Bytes -> Digest): (r: (seq<Row>, Files)) {
    var cfg, u := Small(hash), OneByte(2);
    ([RowOf(cfg, u)], Stored(cfg, Stored(cfg, map[], u.model), u.thumb))
  }

  lemma SecondConflicts(hash: Bytes -> Digest)
    ensures UploadStatus(Small(hash), AfterFirst(hash).0, AfterFirst(hash).1, {}, OneByte(3)) == 409
  {
    var cfg, u := Small(hash), OneByte(2);
    var rows, files := AfterFirst(hash).0, AfterFirst(hash).1;
    StoredTotal(cfg, map[], u.model);
    StoredTotal(cfg, Stored(cfg, map[], u.model), u.thumb);
    NoFiles();
    RangeSize(1);
    assert UploadsToday(rows, "a", 0) == Range(1) && UploadsLastHour(rows, 0) == Range(1);
    assert rows[0].modelHash == cfg.hash(OneByte(3).model);
  }

  /** Both blobs of the first upload belong to its row. */
  lemma FirstOrphansNothing(hash: Bytes -> Digest)
    ensures NothingOrphaned(AfterFirst(hash).0, AfterFirst(hash).1)
  {
    AcceptedOrphansNothing(Small(hash), [], map[], OneByte(2));
    assert [] + [RowOf(Small(hash), OneByte(2))] == AfterFirst(hash).0;
  }

  lemma SecondOrphansThumb(hash: Bytes -> Digest, second: Upload)
    requires TellsLengths(hash, 3) && second == OneByte(3)
    ensures var rows, files := AfterFirst(hash).0, AfterFirst(hash).1;
      !NothingOrphaned(rows, Stored(Small(hash), Stored(Small(hash), files, second.model), second.thumb))
  {
    var cfg, first := Small(hash), OneByte(2);
    var rows, files := AfterFirst(hash).0, AfterFirst(hash).1;
    FirstOrphansNothing(hash);
    assert |first.model| == 1 && |first.thumb| == 2 && |second.thumb| == 3;
    assert rows[0].modelHash == cfg.hash(second.model);
    ConflictOrphansIffNewThumb(cfg, rows, files, second);
  }

  /**
   The same model byte, first with a thumbnail of two bytes, then with one of three: the first is accepted
   and leaves nothing without a row, the second is a conflict and leaves its thumbnail.
   */
  lemma ConflictOrphansThumb(hash: Bytes -> Digest, s: System, t: System)
    requires TellsLengths(hash, 3)
    requires s == Answered(Small(hash), START, OneByte(2), 201) && t == Answered(Small(hash), s, OneByte(3), 409)
    ensures Reaches(Small(hash), START, s) && NothingOrphaned(s.rows, s.files)
    ensures UploadStatus(Small(hash), s.rows, s.files, s.bans, OneByte(3)) == 409
    ensures Reaches(Small(hash), s, t) && !NothingOrphaned(t.rows, t.files)
  {
    FirstIsAccepted(hash);
    AloneIsHandler(Small(hash), START, 0, OneByte(2), 0);
    assert s.rows == AfterFirst(hash).0 && s.files == AfterFirst(hash).1;
    FirstOrphansNothing(hash);
    SecondConflicts(hash);
    AloneIsHandler(Small(hash), s, 0, OneByte(3), 0);
    SecondOrphansThumb(hash, OneByte(3));
  }
}
