/**
 The step machine against the sequential handler: an upload that nothing interleaves with does
 exactly what `Gallery.HandleUpload` does.
 */
module UploadRuns {
  import opened Uploads
  import opened UploadLoad

  /** `steps`, taken one after the other from `s`, are all possible and end in `t`. */
  ghost predicate Walk(cfg: Config, s: System, steps: seq<Step>, t: System)
    decreases |steps|
  {
    if steps == [] then s == t
    else Enabled(cfg, s, steps[0]) && Walk(cfg, Next(cfg, s, steps[0]), steps[1..], t)
  }

  ghost predicate Reaches(cfg: Config, s: System, t: System) {
    exists steps :: Walk(cfg, s, steps, t)
  }

  lemma {:induction false} WalkJoin(cfg: Config, s: System, a: seq<Step>, t: System, b: seq<Step>, u: System)
    requires Walk(cfg, s, a, t) && Walk(cfg, t, b, u)
    ensures Walk(cfg, s, a + b, u)
    decreases |a|
  {
    if a == [] {
      assert a + b == b;
    } else {
      WalkJoin(cfg, Next(cfg, s, a[0]), a[1..], t, b, u);
      assert (a + b)[1..] == a[1..] + b;
    }
  }

  lemma ReachesSelf(cfg: Config, s: System)
    ensures Reaches(cfg, s, s)
  {
    assert Walk(cfg, s, [], s);
  }

  lemma ReachesJoin(cfg: Config, s: System, t: System, u: System)
    requires Reaches(cfg, s, t) && Reaches(cfg, t, u)
    ensures Reaches(cfg, s, u)
  {
    var a :| Walk(cfg, s, a, t);
    var b :| Walk(cfg, t, b, u);
    WalkJoin(cfg, s, a, t, b, u);
  }

  lemma ReachesStep(cfg: Config, s: System, t: System, step: Step, u: System)
    requires Reaches(cfg, s, t) && Enabled(cfg, t, step) && u == Next(cfg, t, step)
    ensures Reaches(cfg, s, u)
  {
    assert Walk(cfg, u, [], u);
    assert Walk(cfg, t, [step], u);
    ReachesJoin(cfg, s, t, u);
  }

  // ---- one upload alone ----------------------------------------------------

  /** Writing a blob through a temporary file leaves the blob and no temporary file. */
  lemma PutNewAlone(cfg: Config, s: System, w: nat, which: Which, temp: nat)
    requires w in s.workers && s.workers[w].stage == ToCreate(which) && Temp(temp) !in s.files
    requires Blob(cfg.hash(Data(s.workers[w].u, which))) !in s.files
    ensures Reaches(cfg, s, MoveOn(s.(files := Stored(cfg, s.files, Data(s.workers[w].u, which))), w, Following(which)))
  {
    var data := Data(s.workers[w].u, which);
    var created := Next(cfg, s, Create(w, temp));
    var written := Next(cfg, created, Write(w, |data|));
    var renamed := Next(cfg, written, Rename(w));
    ReachesSelf(cfg, s);
    ReachesStep(cfg, s, s, Create(w, temp), created);
    ReachesStep(cfg, s, created, Write(w, |data|), written);
    ReachesStep(cfg, s, written, Rename(w), renamed);
    assert data[..0 + |data|] == data;
    assert written.files - {Temp(temp)} == s.files;
    assert renamed.workers == s.workers[w := s.workers[w].(stage := Following(which))];
  }

  lemma PutAlone(cfg: Config, s: System, w: nat, which: Which, temp: nat)
    requires w in s.workers && s.workers[w].stage == ToLook(which) && Temp(temp) !in s.files
    ensures Reaches(cfg, s, MoveOn(s.(files := Stored(cfg, s.files, Data(s.workers[w].u, which))), w, Following(which)))
  {
    var looked := Next(cfg, s, Look(w));
    ReachesSelf(cfg, s);
    ReachesStep(cfg, s, s, Look(w), looked);
    if looked.workers[w].stage == ToCreate(which) {
      PutNewAlone(cfg, looked, w, which, temp);
      var there := MoveOn(looked.(files := Stored(cfg, s.files, Data(s.workers[w].u, which))), w, Following(which));
      ReachesJoin(cfg, s, looked, there);
      assert there == MoveOn(s.(files := Stored(cfg, s.files, Data(s.workers[w].u, which))), w, Following(which));
    }
  }

  /** The state after the handler has answered `status`. */
  ghost function Answered(cfg: Config, s: System, u: Upload, status: int): System {
    var stored := if status == 201 || status == 409 then Stored(cfg, Stored(cfg, s.files, u.model), u.thumb) else s.files;
    if status == 201 then s.(files := stored, rows := s.rows + [RowOf(cfg, u)], uploads := s.uploads + [u])
    else s.(files := stored)
  }

  /** From the first put to the insert. */
  lemma StoreAlone(cfg: Config, s: System, w: nat, temp: nat)
    requires w in s.workers && s.workers[w].stage == ToLook(ModelBlob) && Temp(temp) !in s.files
    ensures var u := s.workers[w].u;
      Reaches(cfg, s, Leave(Answered(cfg, s, u, if HasModel(s.rows, cfg.hash(u.model)) then 409 else 201), w))
  {
    var u := s.workers[w].u;
    var one := MoveOn(s.(files := Stored(cfg, s.files, u.model)), w, ToLook(ThumbBlob));
    var two := MoveOn(one.(files := Stored(cfg, one.files, u.thumb)), w, ToInsert);
    PutAlone(cfg, s, w, ModelBlob, temp);
    PutAlone(cfg, one, w, ThumbBlob, temp);
    ReachesJoin(cfg, s, one, two);
    ReachesStep(cfg, s, two, Insert(w), Next(cfg, two, Insert(w)));
    assert two.workers - {w} == s.workers - {w};
  }

  /** Worker `w` walks and has all but `rest` behind it. */
  ghost predicate MidWalk(s: System, w: nat, listed: set<Name>, rest: Files) {
    && w in s.workers && rest.Keys <= s.files.Keys
    && (forall n :: n in rest ==> rest[n] == s.files[n])
    && exists total: nat :: s.workers[w].stage == ToWalk(listed, s.files.Keys - rest.Keys, total)
                            && total + TotalBytes(rest) == TotalBytes(s.files)
  }

  lemma VisitOne(cfg: Config, s: System, w: nat, listed: set<Name>, rest: Files, n: Name, next: System)
    requires MidWalk(s, w, listed, rest) && n in rest && Enabled(cfg, s, Visit(w, n)) && next == Next(cfg, s, Visit(w, n))
    ensures MidWalk(next, w, listed, rest - {n})
    ensures forall end :: MoveOn(next, w, end) == MoveOn(s, w, end)
  {
    var left := rest - {n};
    TotalRemove(rest, n);
    assert left.Keys == rest.Keys - {n};
    assert s.files.Keys - left.Keys == (s.files.Keys - rest.Keys) + {n};
    assert next.workers[w].stage == ToWalk(listed, s.files.Keys - left.Keys, s.workers[w].stage.total + |s.files[n]|);
    forall end
      ensures MoveOn(next, w, end) == MoveOn(s, w, end)
    {
      assert next.workers[w := next.workers[w].(stage := end)] == s.workers[w := s.workers[w].(stage := end)];
    }
  }

  lemma VisitNone(s: System, w: nat, listed: set<Name>)
    requires MidWalk(s, w, listed, map[])
    ensures MoveOn(s, w, ToWalk(listed, s.files.Keys, TotalBytes(s.files))) == s
  {
    NoFiles();
    var none: Files := map[];
    assert s.files.Keys - none.Keys == s.files.Keys;
    assert s.workers[w := s.workers[w]] == s.workers;
  }

  /** A walk nothing interleaves with visits what is left, one file after the other. */
  lemma {:induction false} VisitRest(cfg: Config, s: System, w: nat, listed: set<Name>, rest: Files, end: System)
    requires MidWalk(s, w, listed, rest) && end == MoveOn(s, w, ToWalk(listed, s.files.Keys, TotalBytes(s.files)))
    ensures Reaches(cfg, s, end)
    decreases |rest|
  {
    ReachesSelf(cfg, s);
    if rest == map[] {
      VisitNone(s, w, listed);
    } else {
      var n :| n in rest;
      var next := Next(cfg, s, Visit(w, n));
      ReachesStep(cfg, s, s, Visit(w, n), next);
      VisitOne(cfg, s, w, listed, rest, n, next);
      assert (rest - {n}).Keys == rest.Keys - {n};
      VisitRest(cfg, next, w, listed, rest - {n}, end);
      ReachesJoin(cfg, s, next, end);
    }
  }

  lemma NoFiles()
    ensures TotalBytes(map[]) == 0
  {
    assert Sizes(map[]) == map[];
  }

  /** Left alone, a walk comes to the total. */
  lemma WalkAlone(cfg: Config, s: System, w: nat)
    requires w in s.workers && s.workers[w].stage.ToDiskCheck?
    ensures Reaches(cfg, s, MoveOn(s, w, ToWalk(s.files.Keys, s.files.Keys, TotalBytes(s.files))))
  {
    var started := Next(cfg, s, StartWalk(w));
    var end := MoveOn(s, w, ToWalk(s.files.Keys, s.files.Keys, TotalBytes(s.files)));
    ReachesSelf(cfg, s);
    ReachesStep(cfg, s, s, StartWalk(w), started);
    assert s.files.Keys - s.files.Keys == {};
    assert started.workers[w].stage == ToWalk(s.files.Keys, {}, 0);
    assert MidWalk(started, w, s.files.Keys, s.files);
    VisitRest(cfg, started, w, s.files.Keys, s.files, end);
    ReachesJoin(cfg, s, started, end);
  }

  /** The answer to an upload past the daily check. */
  ghost function LaterStatus(cfg: Config, s: System, u: Upload): int {
    if |UploadsLastHour(s.rows, u.now)| >= cfg.perHour then 429
    else if TotalBytes(s.files) + u.Size() > cfg.maxDisk then 507
    else if HasModel(s.rows, cfg.hash(u.model)) then 409
    else 201
  }

  /** The walk and its check, then the rest. */
  lemma DiskCheckAlone(cfg: Config, s: System, w: nat, temp: nat, status: int)
    requires w in s.workers && s.workers[w].stage == ToDiskCheck && Temp(temp) !in s.files
    requires var u := s.workers[w].u;
      status == if TotalBytes(s.files) + u.Size() > cfg.maxDisk then 507 else if HasModel(s.rows, cfg.hash(u.model)) then 409 else 201
    ensures Reaches(cfg, s, Leave(Answered(cfg, s, s.workers[w].u, status), w))
  {
    var u := s.workers[w].u;
    var walked := MoveOn(s, w, ToWalk(s.files.Keys, s.files.Keys, TotalBytes(s.files)));
    WalkAlone(cfg, s, w);
    var checked := Next(cfg, walked, CheckDisk(w));
    ReachesStep(cfg, s, walked, CheckDisk(w), checked);
    if w in checked.workers {
      StoreAlone(cfg, checked, w, temp);
      assert checked.workers - {w} == s.workers - {w};
      ReachesJoin(cfg, s, checked, Leave(Answered(cfg, checked, u, status), w));
    } else {
      assert checked.workers == s.workers - {w};
    }
  }

  /** The two later quota checks, then the rest. */
  lemma FinishAlone(cfg: Config, s: System, w: nat, temp: nat)
    requires w in s.workers && s.workers[w].stage == ToHourCheck && Temp(temp) !in s.files
    ensures Reaches(cfg, s, Leave(Answered(cfg, s, s.workers[w].u, LaterStatus(cfg, s, s.workers[w].u)), w))
  {
    var u, status := s.workers[w].u, LaterStatus(cfg, s, s.workers[w].u);
    var hour := Next(cfg, s, CheckHour(w));
    ReachesSelf(cfg, s);
    ReachesStep(cfg, s, s, CheckHour(w), hour);
    if w in hour.workers {
      DiskCheckAlone(cfg, hour, w, temp, status);
      assert hour.workers - {w} == s.workers - {w};
      ReachesJoin(cfg, s, hour, Leave(Answered(cfg, hour, u, status), w));
    }
  }

  /**
   An upload nothing interleaves with takes the machine from `s` to where the sequential handler
   takes it, refusals and conflicts included.
   */
  lemma AloneIsHandler(cfg: Config, s: System, w: nat, u: Upload, temp: nat)
    requires w !in s.workers && |s.workers| < cfg.inFlight && Temp(temp) !in s.files
    ensures Reaches(cfg, s, Answered(cfg, s, u, UploadStatus(cfg, s.rows, s.files, s.bans, u)))
  {
    ReachesSelf(cfg, s);
    if Enabled(cfg, s, Begin(w, u)) {
      var begun := Next(cfg, s, Begin(w, u));
      ReachesStep(cfg, s, s, Begin(w, u), begun);
      FinishAlone(cfg, begun, w, temp);
      var status := UploadStatus(cfg, s.rows, s.files, s.bans, u);
      assert begun.workers - {w} == s.workers;
      ReachesJoin(cfg, s, begun, Answered(cfg, s, u, status));
    }
  }
}
