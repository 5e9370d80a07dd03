/**
 The load of the store: bytes on disk and bytes that admitted uploads have still to write, and what
 each step does to it.
 */
module UploadLoad {
  import opened Text
  import opened Sums
  import opened Uploads
  import opened UploadBlobs

  function Left(data: Bytes, written: nat): nat {
    if written < |data| then |data| - written else 0
  }

  /** Bytes a worker may still add to the disk. */
  function Remaining(work: Work): nat {
    var thumb := |work.u.thumb|;
    match work.stage
    case ToLook(which) => if which == ModelBlob then |work.u.model| + thumb else thumb
    case ToCreate(which) => if which == ModelBlob then |work.u.model| + thumb else thumb
    case ToWrite(which, _, written) => if which == ModelBlob then Left(work.u.model, written) + thumb else Left(work.u.thumb, written)
    case _ => 0
  }

  function Debts(workers: map<nat, Work>): map<nat, nat> {
    map w | w in workers :: Remaining(workers[w])
  }

  /** Bytes on disk and bytes still to come. */
  ghost function Load(s: System): nat {
    TotalBytes(s.files) + Sum(Debts(s.workers))
  }

  /** One largest upload for each other worker. */
  function Slack(cfg: Config): int {
    (cfg.inFlight - 1) * cfg.maxRequest
  }

  /** The cap, and one largest upload for each other worker that can pass the check on the same total. */
  function Ceiling(cfg: Config): int {
    if cfg.maxDisk < 0 || cfg.inFlight == 0 then 0 else cfg.maxDisk + Slack(cfg)
  }

  ghost predicate Sized(cfg: Config, s: System) {
    forall w :: w in s.workers ==> s.workers[w].u.Size() <= cfg.maxRequest
  }

  lemma TotalUpdate(files: Files, n: Name, b: Bytes)
    ensures n in files ==> TotalBytes(files[n := b]) + |files[n]| == TotalBytes(files) + |b|
    ensures n !in files ==> TotalBytes(files[n := b]) == TotalBytes(files) + |b|
  {
    SumUpdate(Sizes(files), n, |b|);
    assert Sizes(files[n := b]) == Sizes(files)[n := |b|];
  }

  lemma DebtsMove(workers: map<nat, Work>, w: nat, work: Work)
    requires w in workers
    ensures Sum(Debts(workers[w := work])) + Remaining(workers[w]) == Sum(Debts(workers)) + Remaining(work)
  {
    SumUpdate(Debts(workers), w, Remaining(work));
    assert Debts(workers[w := work]) == Debts(workers)[w := Remaining(work)];
  }

  lemma DebtsLeave(workers: map<nat, Work>, w: nat)
    requires w in workers
    ensures Sum(Debts(workers)) == Remaining(workers[w]) + Sum(Debts(workers - {w}))
  {
    SumRemove(Debts(workers), w);
    assert Debts(workers - {w}) == Debts(workers) - {w};
  }

  lemma DebtsJoin(workers: map<nat, Work>, w: nat, work: Work)
    requires w !in workers && Remaining(work) == 0
    ensures Sum(Debts(workers[w := work])) == Sum(Debts(workers))
  {
    SumUpdate(Debts(workers), w, 0);
    assert Debts(workers[w := work]) == Debts(workers)[w := 0];
  }

  lemma BeginKeepsLoad(cfg: Config, s: System, w: nat, u: Upload)
    requires Enabled(cfg, s, Begin(w, u))
    ensures Load(Next(cfg, s, Begin(w, u))) == Load(s)
  {
    DebtsJoin(s.workers, w, Work(u, ToHourCheck));
  }

  /** A worker that leaves takes its debt with it; what it wrote stays, or goes with its temporary file. */
  lemma LeaveKeepsLoad(cfg: Config, s: System, step: Step)
    requires TempsHeld(s) && Enabled(cfg, s, step) && (step.Fail? || step.Crash? || step.Insert?)
    ensures Load(Next(cfg, s, step)) <= Load(s)
  {
    DebtsLeave(s.workers, step.w);
    if step.Fail? {
      assert Writing(s, step.w) && HoldsTemp(s, step.w);
      TotalRemove(s.files, Temp(s.workers[step.w].stage.temp));
    }
  }

  lemma WrittenIsPaid(work: Work, count: nat)
    requires work.stage.ToWrite? && work.stage.written + count <= |Data(work.u, work.stage.which)|
    ensures Remaining(work.(stage := work.stage.(written := work.stage.written + count))) + count == Remaining(work)
  {
  }

  /** A write turns debt into bytes. */
  lemma WriteKeepsLoad(cfg: Config, s: System, w: nat, count: nat)
    requires TempsHeld(s) && Enabled(cfg, s, Write(w, count))
    ensures Load(Next(cfg, s, Write(w, count))) == Load(s)
  {
    var st, data := s.workers[w].stage, Data(s.workers[w].u, s.workers[w].stage.which);
    var work := s.workers[w].(stage := st.(written := st.written + count));
    var more := data[..st.written + count];
    assert Writing(s, w) && HoldsTemp(s, w);
    WrittenIsPaid(s.workers[w], count);
    TotalUpdate(s.files, Temp(st.temp), more);
    DebtsMove(s.workers, w, work);
    assert Next(cfg, s, Write(w, count)) == s.(files := s.files[Temp(st.temp) := more], workers := s.workers[w := work]);
  }

  /** What a rename does to the total. */
  lemma RenameTotal(files: Files, temp: Name, name: Name, data: Bytes, was: nat)
    requires temp in files && files[temp] == data && name != temp
    requires was == if name in files then |files[name]| else 0
    ensures TotalBytes((files - {temp})[name := data]) + was == TotalBytes(files)
  {
    TotalRemove(files, temp);
    TotalUpdate(files - {temp}, name, data);
  }

  lemma PlacedIsPaid(work: Work)
    requires work.stage.ToWrite? && work.stage.written == |Data(work.u, work.stage.which)|
    ensures Remaining(work.(stage := Following(work.stage.which))) == Remaining(work)
  {
  }

  /** A rename moves bytes, over an equal blob perhaps. */
  lemma RenameKeepsLoad(cfg: Config, s: System, w: nat, name: Name, was: nat)
    requires TempsHeld(s) && Enabled(cfg, s, Rename(w)) && name == Blob(cfg.hash(Data(s.workers[w].u, s.workers[w].stage.which)))
    requires was == if name in s.files then |s.files[name]| else 0
    ensures Load(Next(cfg, s, Rename(w))) + was == Load(s)
  {
    var st, data := s.workers[w].stage, Data(s.workers[w].u, s.workers[w].stage.which);
    assert Writing(s, w) && HoldsTemp(s, w);
    assert data[..|data|] == data;
    RenameTotal(s.files, Temp(st.temp), name, data, was);
    PlacedIsPaid(s.workers[w]);
    DebtsMove(s.workers, w, s.workers[w].(stage := Following(st.which)));
  }

  lemma LookOrCreateKeepsLoad(cfg: Config, s: System, step: Step)
    requires Enabled(cfg, s, step) && (step.Look? || step.Create?)
    ensures Load(Next(cfg, s, step)) <= Load(s)
  {
    var s' := Next(cfg, s, step);
    DebtsMove(s.workers, step.w, s'.workers[step.w]);
    assert s'.workers == s.workers[step.w := s'.workers[step.w]];
    if step.Create? {
      TotalUpdate(s.files, Temp(step.temp), []);
    }
  }

  lemma HourCheckKeepsLoad(cfg: Config, s: System, w: nat)
    requires Enabled(cfg, s, CheckHour(w))
    ensures Load(Next(cfg, s, CheckHour(w))) == Load(s)
  {
    DebtsLeave(s.workers, w);
    DebtsMove(s.workers, w, s.workers[w].(stage := ToDiskCheck));
  }

  /** Looking around adds nothing. */
  lemma WalkKeepsLoad(cfg: Config, s: System, step: Step)
    requires Enabled(cfg, s, step) && (step.StartWalk? || step.Visit?)
    ensures Load(Next(cfg, s, step)) == Load(s)
  {
    DebtsMove(s.workers, step.w, Next(cfg, s, step).workers[step.w]);
  }

  lemma RefusalKeepsLoad(cfg: Config, s: System, w: nat)
    requires Enabled(cfg, s, CheckDisk(w)) && s.workers[w].stage.total + s.workers[w].u.Size() > cfg.maxDisk
    ensures Load(Next(cfg, s, CheckDisk(w))) == Load(s)
  {
    DebtsLeave(s.workers, w);
  }

  /** Admission adds the whole upload. */
  lemma AdmissionAddsSize(cfg: Config, s: System, w: nat)
    requires Enabled(cfg, s, CheckDisk(w)) && s.workers[w].stage.total + s.workers[w].u.Size() <= cfg.maxDisk
    ensures Load(Next(cfg, s, CheckDisk(w))) == Load(s) + s.workers[w].u.Size()
  {
    DebtsMove(s.workers, w, s.workers[w].(stage := ToLook(ModelBlob)));
  }

  /** Every step but an admission. */
  predicate Admits(cfg: Config, s: System, step: Step)
    requires step.CheckDisk? ==> step.w in s.workers && s.workers[step.w].stage.ToWalk?
  {
    step.CheckDisk? && s.workers[step.w].stage.total + s.workers[step.w].u.Size() <= cfg.maxDisk
  }

  lemma OthersKeepLoad(cfg: Config, s: System, step: Step)
    requires TempsHeld(s) && Enabled(cfg, s, step) && !Admits(cfg, s, step)
    ensures Load(Next(cfg, s, step)) <= Load(s)
  {
    match step
    case Begin(w, u) => BeginKeepsLoad(cfg, s, w, u);
    case CheckHour(w) => HourCheckKeepsLoad(cfg, s, w);
    case StartWalk(_) => WalkKeepsLoad(cfg, s, step);
    case Visit(_, _) => WalkKeepsLoad(cfg, s, step);
    case CheckDisk(w) => RefusalKeepsLoad(cfg, s, w);
    case Look(_) => LookOrCreateKeepsLoad(cfg, s, step);
    case Create(_, _) => LookOrCreateKeepsLoad(cfg, s, step);
    case Write(w, count) => WriteKeepsLoad(cfg, s, w, count);
    case Rename(w) =>
      var name := Blob(cfg.hash(Data(s.workers[w].u, s.workers[w].stage.which)));
      var was := if name in s.files then |s.files[name]| else 0;
      RenameKeepsLoad(cfg, s, w, name, was);
    case Fail(_) => LeaveKeepsLoad(cfg, s, step);
    case Crash(_) => LeaveKeepsLoad(cfg, s, step);
    case Insert(_) => LeaveKeepsLoad(cfg, s, step);
    case DeleteModel(_) =>
    case BanKey(_) =>
    case LiftBan(_) =>
  }
}
