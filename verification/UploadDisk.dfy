/**
 The disk ceiling over whole runs: bytes on disk, temporary files and crash leftovers included,
 together with the bytes admitted uploads have still to write. The store is walked file by file
 while others write, so the total an upload is admitted on may be stale.
 */
module UploadDisk {
  import opened Common
  import opened Sums
  import opened Uploads
  import opened UploadQuota
  import opened UploadBlobs
  import opened UploadLoad

  // ---- what a walk is sure to see --------------------------------------------

  ghost predicate Walking(s: System, w: nat) {
    w in s.workers && s.workers[w].stage.ToWalk?
  }

  function ActiveTemps(workers: map<nat, Work>): set<Name> {
    set w | w in workers && workers[w].stage.ToWrite? :: Temp(workers[w].stage.temp)
  }

  /** Listed files still to be visited that no writer can take away. */
  function Unseen(files: Files, active: set<Name>, st: Stage): Files
    requires st.ToWalk?
  {
    map n | n in files && n in st.listed && n !in st.visited && n !in active :: files[n]
  }

  /** The walk adds up to no less than this. */
  ghost function Sight(s: System, w: nat): nat
    requires Walking(s, w)
  {
    s.workers[w].stage.total + TotalBytes(Unseen(s.files, ActiveTemps(s.workers), s.workers[w].stage))
  }

  lemma TotalSubmap(a: Files, b: Files)
    requires a.Keys <= b.Keys && forall n :: n in a ==> a[n] == b[n]
    ensures TotalBytes(a) <= TotalBytes(b)
  {
    SumSubmap(Sizes(a), Sizes(b));
  }

  /** A finished walk has seen all it was sure to see. */
  lemma SightAtTheEnd(cfg: Config, s: System, w: nat)
    requires Enabled(cfg, s, CheckDisk(w))
    ensures Sight(s, w) == s.workers[w].stage.total
  {
    assert Unseen(s.files, ActiveTemps(s.workers), s.workers[w].stage) == map[];
    assert Sizes(map[]) == map[];
  }

  lemma VisitKeepsSight(cfg: Config, s: System, w: nat, n: Name)
    requires Enabled(cfg, s, Visit(w, n))
    ensures Sight(Next(cfg, s, Visit(w, n)), w) >= Sight(s, w)
  {
    var s', st := Next(cfg, s, Visit(w, n)), s.workers[w].stage;
    var before := Unseen(s.files, ActiveTemps(s.workers), st);
    SameActive(s.workers, w, s'.workers[w]);
    var after := Unseen(s'.files, ActiveTemps(s'.workers), s'.workers[w].stage);
    assert after == before - {n};
    if n in before {
      TotalRemove(before, n);
    } else {
      assert after == before;
    }
  }

  /** A worker that writes neither before nor after leaves the active files alone. */
  lemma SameActive(workers: map<nat, Work>, w: nat, work: Work)
    requires w in workers && !workers[w].stage.ToWrite? && !work.stage.ToWrite?
    ensures ActiveTemps(workers[w := work]) == ActiveTemps(workers)
  {
    var after := workers[w := work];
    forall n
      ensures n in ActiveTemps(after) <==> n in ActiveTemps(workers)
    {
      if n in ActiveTemps(after) {
        var v :| v in after && after[v].stage.ToWrite? && n == Temp(after[v].stage.temp);
        assert workers[v] == after[v];
      }
      if n in ActiveTemps(workers) {
        var v :| v in workers && workers[v].stage.ToWrite? && n == Temp(workers[v].stage.temp);
        assert after[v] == workers[v];
      }
    }
  }

  /** A step that touches no file and stops no writer. */
  lemma IdleKeepsSight(s: System, s': System, v: nat)
    requires Walking(s, v) && Walking(s', v) && s'.workers[v] == s.workers[v]
    requires s'.files == s.files && ActiveTemps(s'.workers) <= ActiveTemps(s.workers)
    ensures Sight(s', v) >= Sight(s, v)
  {
    TotalSubmap(Unseen(s.files, ActiveTemps(s.workers), s.workers[v].stage), Unseen(s'.files, ActiveTemps(s'.workers), s'.workers[v].stage));
  }

  lemma FewerActive(a: map<nat, Work>, b: map<nat, Work>)
    requires forall w :: w in a && a[w].stage.ToWrite? ==> w in b && b[w].stage.ToWrite? && b[w].stage.temp == a[w].stage.temp
    ensures ActiveTemps(a) <= ActiveTemps(b)
  {
  }

  /** Creating, extending and dropping an active file goes unseen. */
  lemma ActiveKeepsSight(cfg: Config, s: System, step: Step, v: nat)
    requires TempsHeld(s) && Enabled(cfg, s, step) && (step.Create? || step.Write? || step.Fail?)
    requires Walking(s, v) && v != step.w
    ensures Walking(Next(cfg, s, step), v) && Sight(Next(cfg, s, step), v) >= Sight(s, v)
  {
    var s' := Next(cfg, s, step);
    var st := s.workers[v].stage;
    var before, after := Unseen(s.files, ActiveTemps(s.workers), st), Unseen(s'.files, ActiveTemps(s'.workers), st);
    forall n | n in before
      ensures n in after && after[n] == before[n]
    {
      ActiveMoves(cfg, s, step, n);
    }
    TotalSubmap(before, after);
  }

  /** A settled file is untouched and stays settled. */
  lemma ActiveMoves(cfg: Config, s: System, step: Step, n: Name)
    requires TempsHeld(s) && Enabled(cfg, s, step) && (step.Create? || step.Write? || step.Fail?)
    requires n in s.files && n !in ActiveTemps(s.workers)
    ensures var s' := Next(cfg, s, step); n in s'.files && s'.files[n] == s.files[n] && n !in ActiveTemps(s'.workers)
  {
    var s' := Next(cfg, s, step);
    assert Writing(s, step.w) ==> Temp(s.workers[step.w].stage.temp) in ActiveTemps(s.workers);
    forall v | v in s'.workers && s'.workers[v].stage.ToWrite?
      ensures Temp(s'.workers[v].stage.temp) != n
    {
      if v != step.w {
        assert Temp(s.workers[v].stage.temp) in ActiveTemps(s.workers);
      }
    }
  }

  /** What a rename leaves of the files a walk is sure to see. */
  lemma RenameLeaves(cfg: Config, s: System, w: nat, st: Stage, name: Name, n: Name)
    requires TempsHeld(s) && Enabled(cfg, s, Rename(w)) && st.ToWalk?
    requires name == Blob(cfg.hash(Data(s.workers[w].u, s.workers[w].stage.which)))
    requires n != name && n in Unseen(s.files, ActiveTemps(s.workers), st)
    ensures var s' := Next(cfg, s, Rename(w)); var after := Unseen(s'.files, ActiveTemps(s'.workers), st);
      n in after && after[n] == s.files[n]
  {
    var s' := Next(cfg, s, Rename(w));
    assert Temp(s.workers[w].stage.temp) in ActiveTemps(s.workers);
    FewerActive(s'.workers, s.workers);
  }

  /** A rename is seen as what it adds, less what it replaces. */
  lemma RenameKeepsSight(cfg: Config, s: System, w: nat, v: nat, name: Name, was: nat)
    requires TempsHeld(s) && Enabled(cfg, s, Rename(w)) && Walking(s, v)
    requires name == Blob(cfg.hash(Data(s.workers[w].u, s.workers[w].stage.which)))
    requires was == if name in s.files then |s.files[name]| else 0
    ensures Walking(Next(cfg, s, Rename(w)), v) && Sight(Next(cfg, s, Rename(w)), v) + was >= Sight(s, v)
  {
    var s', st := Next(cfg, s, Rename(w)), s.workers[v].stage;
    var before, after := Unseen(s.files, ActiveTemps(s.workers), st), Unseen(s'.files, ActiveTemps(s'.workers), st);
    forall n | n in before - {name}
      ensures n in after && after[n] == before[n]
    {
      RenameLeaves(cfg, s, w, st, name, n);
    }
    TotalSubmap(before - {name}, after);
    if name in before {
      TotalRemove(before, name);
    } else {
      assert before - {name} == before;
    }
  }

  lemma RenameKeepsBooks(cfg: Config, s: System, w: nat, v: nat)
    requires TempsHeld(s) && Enabled(cfg, s, Rename(w)) && Walking(s, v)
    ensures Walking(Next(cfg, s, Rename(w)), v)
    ensures Sight(Next(cfg, s, Rename(w)), v) + Load(s) >= Sight(s, v) + Load(Next(cfg, s, Rename(w)))
  {
    var name := Blob(cfg.hash(Data(s.workers[w].u, s.workers[w].stage.which)));
    var was := if name in s.files then |s.files[name]| else 0;
    RenameKeepsLoad(cfg, s, w, name, was);
    RenameKeepsSight(cfg, s, w, v, name, was);
  }

  /** Steps that touch no file. */
  lemma FilelessKeepsSight(cfg: Config, s: System, step: Step, v: nat)
    requires Enabled(cfg, s, step) && Next(cfg, s, step).files == s.files && !step.Create? && !step.Write? && !step.Rename?
    requires step.Visit? ==> step.w != v
    requires Walking(s, v) && Walking(Next(cfg, s, step), v)
    ensures Sight(Next(cfg, s, step), v) >= Sight(s, v)
  {
    FewerActive(Next(cfg, s, step).workers, s.workers);
    IdleKeepsSight(s, Next(cfg, s, step), v);
  }

  /** No step takes more from what a walk will see than from the load. */
  lemma OthersKeepSight(cfg: Config, s: System, step: Step, v: nat)
    requires TempsHeld(s) && Enabled(cfg, s, step) && !Admits(cfg, s, step)
    requires Walking(s, v) && Walking(Next(cfg, s, step), v)
    ensures Sight(Next(cfg, s, step), v) + Load(s) >= Sight(s, v) + Load(Next(cfg, s, step))
  {
    if step.Rename? {
      RenameKeepsBooks(cfg, s, step.w, v);
    } else {
      OthersKeepLoad(cfg, s, step);
      if step.Create? || step.Write? || step.Fail? {
        ActiveKeepsSight(cfg, s, step, v);
      } else if step.Visit? && step.w == v {
        VisitKeepsSight(cfg, s, v, step.n);
      } else {
        FilelessKeepsSight(cfg, s, step, v);
      }
    }
  }

  // ---- the walks under way, in the order they began ----------------------------

  function SizeOf(workers: map<nat, Work>, w: nat): nat {
    if w in workers then workers[w].u.Size() else 0
  }

  function SizeSum(workers: map<nat, Work>, order: seq<nat>): nat {
    if order == [] then 0 else SizeSum(workers, order[..|order| - 1]) + SizeOf(workers, order[|order| - 1])
  }

  ghost predicate Walkers(s: System, order: seq<nat>) {
    Distinct(order) && forall w :: Walking(s, w) <==> w in order
  }

  /**
   The first `c` walks began before the last admitted one did: they may all still be admitted within the
   ceiling. Any other can be, on what it is sure to see, together with all that began before it.
   */
  ghost predicate Ledger(cfg: Config, s: System, order: seq<nat>, c: nat) {
    && Walkers(s, order) && c <= |order|
    && Load(s) + SizeSum(s.workers, order[..c]) <= Ceiling(cfg)
    && forall i :: c <= i < |order| ==> Load(s) + SizeSum(s.workers, order[..i]) <= Sight(s, order[i]) + Slack(cfg)
  }

  lemma {:induction false} SameSizes(a: map<nat, Work>, b: map<nat, Work>, order: seq<nat>)
    requires forall w :: w in order ==> SizeOf(a, w) == SizeOf(b, w)
    ensures SizeSum(a, order) == SizeSum(b, order)
  {
    if order != [] {
      SameSizes(a, b, order[..|order| - 1]);
    }
  }

  /** A step that begins and ends no walk. */
  lemma LedgerCarries(cfg: Config, s: System, s': System, order: seq<nat>, c: nat)
    requires Ledger(cfg, s, order, c) && Walkers(s', order) && Load(s') <= Load(s)
    requires forall w :: w in order ==> s'.workers[w].u == s.workers[w].u
    requires forall w :: w in order ==> Sight(s', w) + Load(s) >= Sight(s, w) + Load(s')
    ensures Ledger(cfg, s', order, c)
  {
    assert forall w :: w in order ==> Walking(s, w) && Walking(s', w);
    assert forall w :: w in order[..c] ==> w in order;
    SameSizes(s.workers, s'.workers, order[..c]);
    forall i | c <= i < |order|
      ensures Load(s') + SizeSum(s'.workers, order[..i]) <= Sight(s', order[i]) + Slack(cfg)
    {
      assert forall w :: w in order[..i] ==> w in order;
      SameSizes(s.workers, s'.workers, order[..i]);
    }
  }

  /** The others of a list, in order. */
  function Omit(order: seq<nat>, j: nat): seq<nat>
    requires j < |order|
  {
    order[..j] + order[j + 1..]
  }

  lemma {:induction false} OmitSum(workers: map<nat, Work>, order: seq<nat>, j: nat, i: nat)
    requires j < i <= |order|
    ensures Omit(order, j)[..i - 1] == order[..j] + order[j + 1..i]
    ensures SizeSum(workers, Omit(order, j)[..i - 1]) + SizeOf(workers, order[j]) == SizeSum(workers, order[..i])
    decreases i
  {
    assert order[..i][..i - 1] == order[..i - 1];
    if i == j + 1 {
      assert Omit(order, j)[..j] == order[..j];
    } else {
      OmitSum(workers, order, j, i - 1);
      var shorter := Omit(order, j)[..i - 1];
      assert shorter[..i - 2] == Omit(order, j)[..i - 2] && shorter[i - 2] == order[i - 1];
    }
  }

  lemma WalkersOmit(s: System, s': System, order: seq<nat>, j: nat)
    requires Walkers(s, order) && j < |order|
    requires forall w :: Walking(s', w) <==> Walking(s, w) && w != order[j]
    ensures Walkers(s', Omit(order, j))
  {
    var rest := Omit(order, j);
    forall w
      ensures w in rest <==> w in order && w != order[j]
    {
      if w in order && w != order[j] {
        var i :| 0 <= i < |order| && order[i] == w;
        assert rest[if i < j then i else i - 1] == w;
      }
    }
    assert forall i :: 0 <= i < |rest| ==> rest[i] == order[if i < j then i else i + 1];
  }

  /** Where the rest of the order came from. */
  function Back(j: nat, i: nat): nat {
    if i < j then i else i + 1
  }

  lemma OmitAt(order: seq<nat>, j: nat, i: nat)
    requires Distinct(order) && j < |order| && i < |order| - 1
    ensures Omit(order, j)[i] == order[Back(j, i)] && order[Back(j, i)] != order[j]
  {
  }

  lemma RestSum(s: System, s': System, order: seq<nat>, j: nat, i: nat)
    requires Distinct(order) && j < |order| && i <= |order| - 1
    requires forall w :: w in order && w != order[j] ==> w in s.workers && w in s'.workers && s'.workers[w] == s.workers[w]
    ensures SizeSum(s'.workers, Omit(order, j)[..i]) == SizeSum(s.workers, Omit(order, j)[..i])
  {
    var rest := Omit(order, j);
    forall w | w in rest[..i]
      ensures SizeOf(s'.workers, w) == SizeOf(s.workers, w)
    {
      var k: nat :| k < i && rest[k] == w;
      OmitAt(order, j, k);
    }
    SameSizes(s'.workers, s.workers, rest[..i]);
  }

  /** The sum before place `i` of the rest: the one before the same walk, less what ended when that was before it. */
  lemma SumBefore(workers: map<nat, Work>, order: seq<nat>, j: nat, i: nat)
    requires j < |order| && i <= |order| - 1
    ensures SizeSum(workers, Omit(order, j)[..i]) + (if i < j then 0 else SizeOf(workers, order[j]))
         == SizeSum(workers, order[..if i < j then i else i + 1])
  {
    if i < j {
      assert Omit(order, j)[..i] == order[..i];
    } else {
      OmitSum(workers, order, j, i + 1);
    }
  }

  /** Every walk but the one that ends goes on as before. */
  ghost predicate GoesOn(s: System, s': System, order: seq<nat>, j: nat)
    requires j < |order|
  {
    && (forall w :: Walking(s', w) <==> Walking(s, w) && w != order[j])
    && (forall w :: w in order && w != order[j] ==> w in s.workers && w in s'.workers && s'.workers[w] == s.workers[w])
    && (forall w :: Walking(s, w) && Walking(s', w) ==> Sight(s', w) >= Sight(s, w))
  }

  /** One remaining walk, at place `i` of the rest. */
  lemma OneGoesOn(cfg: Config, s: System, s': System, order: seq<nat>, c: nat, j: nat, more: nat, i: nat)
    requires Ledger(cfg, s, order, c) && j < |order| && GoesOn(s, s', order, j) && Load(s') <= Load(s) + more
    requires more <= SizeOf(s.workers, order[j]) && (more > 0 ==> i >= j) && i < |order| - 1 && c <= Back(j, i)
    ensures Walking(s', Omit(order, j)[i])
    ensures Load(s') + SizeSum(s'.workers, Omit(order, j)[..i]) <= Sight(s', Omit(order, j)[i]) + Slack(cfg)
  {
    var k := Back(j, i);
    OmitAt(order, j, i);
    RestSum(s, s', order, j, i);
    SumBefore(s.workers, order, j, i);
    assert order[k] in order && Walking(s, order[k]);
    assert Load(s) + SizeSum(s.workers, order[..k]) <= Sight(s, order[k]) + Slack(cfg);
  }

  lemma FirstOnesFitEarly(s: System, s': System, order: seq<nat>, j: nat, i: nat)
    requires Distinct(order) && j <= i < |order| && GoesOn(s, s', order, j)
    ensures SizeSum(s'.workers, Omit(order, j)[..i]) + SizeOf(s.workers, order[j]) == SizeSum(s.workers, order[..i + 1])
  {
    RestSum(s, s', order, j, i);
    OmitSum(s.workers, order, j, i + 1);
  }

  lemma FirstOnesFitLate(cfg: Config, s: System, s': System, order: seq<nat>, j: nat, c: nat)
    requires Distinct(order) && c <= j < |order| && GoesOn(s, s', order, j)
    requires Load(s') + SizeSum(s.workers, order[..c]) <= Ceiling(cfg)
    ensures Load(s') + SizeSum(s'.workers, Omit(order, j)[..c]) <= Ceiling(cfg)
  {
    RestSum(s, s', order, j, c);
    assert Omit(order, j)[..c] == order[..c];
  }

  lemma FirstOnesFit(cfg: Config, s: System, s': System, order: seq<nat>, c: nat, j: nat, more: nat, c': nat)
    requires Distinct(order) && j < |order| && c <= |order| && GoesOn(s, s', order, j) && Load(s') <= Load(s) + more
    requires more <= SizeOf(s.workers, order[j]) && Load(s) + SizeSum(s.workers, order[..c]) <= Ceiling(cfg)
    requires j >= c && more > 0 ==> Load(s') + SizeSum(s.workers, order[..j]) <= Ceiling(cfg)
    requires c' == if j < c then c - 1 else if more > 0 then j else c
    ensures c' < |order| && Load(s') + SizeSum(s'.workers, Omit(order, j)[..c']) <= Ceiling(cfg)
  {
    if j < c {
      FirstOnesFitEarly(s, s', order, j, c');
    } else {
      FirstOnesFitLate(cfg, s, s', order, j, c');
    }
  }

  /** A walk that ends takes its place out of the order; `more` is what it adds to the load, at most its size. */
  lemma WalkEnds(cfg: Config, s: System, s': System, order: seq<nat>, c: nat, j: nat, more: nat, c': nat)
    requires Ledger(cfg, s, order, c) && j < |order| && GoesOn(s, s', order, j) && Load(s') <= Load(s) + more
    requires more <= SizeOf(s.workers, order[j])
    requires j >= c && more > 0 ==> Load(s') + SizeSum(s.workers, order[..j]) <= Ceiling(cfg)
    requires c' == if j < c then c - 1 else if more > 0 then j else c
    ensures Ledger(cfg, s', Omit(order, j), c')
  {
    WalkersOmit(s, s', order, j);
    FirstOnesFit(cfg, s, s', order, c, j, more, c');
    forall i | c' <= i < |Omit(order, j)|
      ensures Load(s') + SizeSum(s'.workers, Omit(order, j)[..i]) <= Sight(s', Omit(order, j)[i]) + Slack(cfg)
    {
      OneGoesOn(cfg, s, s', order, c, j, more, i);
    }
  }

  // ---- a walk begins ------------------------------------------------------------

  /** Bytes in a writer's temporary file. */
  function Written(work: Work): nat {
    if work.stage.ToWrite? then work.stage.written else 0
  }

  function Drafts(workers: map<nat, Work>): map<nat, nat> {
    map w | w in workers :: Written(workers[w])
  }

  /** All a worker has in the air: its draft, its debt, and its whole size while it walks. */
  function Weights(workers: map<nat, Work>, walks: set<nat>): map<nat, nat> {
    map w | w in workers :: Written(workers[w]) + Remaining(workers[w]) + if w in walks then workers[w].u.Size() else 0
  }

  lemma WithoutWorker(s: System, w: nat)
    requires TempsHeld(s) && w in s.workers
    ensures TempsHeld(s.(workers := s.workers - {w}))
  {
    var t := s.(workers := s.workers - {w});
    forall v | Writing(t, v)
      ensures HoldsTemp(t, v)
    {
      assert HoldsTemp(s, v);
    }
    assert forall v :: Writing(t, v) ==> Writing(s, v);
  }

  lemma ActiveWithout(workers: map<nat, Work>, w: nat)
    requires w in workers
    ensures ActiveTemps(workers)
         == ActiveTemps(workers - {w}) + if workers[w].stage.ToWrite? then {Temp(workers[w].stage.temp)} else {}
  {
    var rest := workers - {w};
    forall n | n in ActiveTemps(workers)
      ensures n in ActiveTemps(rest) || (workers[w].stage.ToWrite? && n == Temp(workers[w].stage.temp))
    {
      var v :| v in workers && workers[v].stage.ToWrite? && n == Temp(workers[v].stage.temp);
      assert v != w ==> v in rest && rest[v] == workers[v];
    }
    FewerActive(rest, workers);
  }

  /** The disk is the settled files and the drafts. */
  lemma {:induction false} DraftsOnDisk(s: System)
    requires TempsHeld(s)
    ensures TotalBytes(s.files) == TotalBytes(s.files - ActiveTemps(s.workers)) + Sum(Drafts(s.workers))
    decreases |s.workers|
  {
    if s.workers == map[] {
      assert Drafts(s.workers) == map[] && s.files - ActiveTemps(s.workers) == s.files;
    } else {
      var w :| w in s.workers;
      var t := s.(workers := s.workers - {w});
      assert t.workers.Keys == s.workers.Keys - {w};
      WithoutWorker(s, w);
      DraftsOnDisk(t);
      DraftCounted(s.workers, w);
      ActiveWithout(s.workers, w);
      DraftTaken(s, w);
    }
  }

  lemma DraftCounted(workers: map<nat, Work>, w: nat)
    requires w in workers
    ensures Sum(Drafts(workers)) == Written(workers[w]) + Sum(Drafts(workers - {w}))
  {
    SumRemove(Drafts(workers), w);
    assert Drafts(workers) - {w} == Drafts(workers - {w});
  }

  lemma DraftTaken(s: System, w: nat)
    requires TempsHeld(s) && w in s.workers
    requires ActiveTemps(s.workers)
          == ActiveTemps(s.workers - {w}) + if s.workers[w].stage.ToWrite? then {Temp(s.workers[w].stage.temp)} else {}
    ensures TotalBytes(s.files - ActiveTemps(s.workers - {w})) == TotalBytes(s.files - ActiveTemps(s.workers)) + Written(s.workers[w])
  {
    var more, less := s.files - ActiveTemps(s.workers - {w}), s.files - ActiveTemps(s.workers);
    if s.workers[w].stage.ToWrite? {
      var n := Temp(s.workers[w].stage.temp);
      assert Writing(s, w) && HoldsTemp(s, w);
      if n in ActiveTemps(s.workers - {w}) {
        var v :| v in s.workers - {w} && s.workers[v].stage.ToWrite? && n == Temp(s.workers[v].stage.temp);
        assert Writing(s, v);
        assert false;
      }
      assert less == more - {n};
      TotalRemove(more, n);
    } else {
      assert more == less;
    }
  }

  lemma NoWalks(workers: map<nat, Work>)
    ensures Sum(Weights(workers, {})) == Sum(Drafts(workers)) + Sum(Debts(workers))
  {
    SumPlus(Drafts(workers), Debts(workers), Weights(workers, {}));
  }

  lemma OneMoreWalk(workers: map<nat, Work>, walks: set<nat>, more: set<nat>, w: nat)
    requires w in workers && w !in walks && more == walks + {w}
    ensures Sum(Weights(workers, more)) == Sum(Weights(workers, walks)) + workers[w].u.Size()
  {
    var before: map<nat, nat> := Weights(workers, walks);
    var after: map<nat, nat> := Weights(workers, more);
    var here := before[w] + workers[w].u.Size();
    SumUpdate(before, w, here);
    assert after[w] == here;
    assert after.Keys == before.Keys;
    assert forall v :: v in workers && v != w ==> after[v] == before[v];
    assert after == before[w := here];
  }

  lemma {:induction false} WeightsSum(workers: map<nat, Work>, order: seq<nat>)
    requires Distinct(order) && forall w :: w in order ==> w in workers
    ensures Sum(Weights(workers, Elements(order))) == Sum(Drafts(workers)) + Sum(Debts(workers)) + SizeSum(workers, order)
  {
    if order == [] {
      NoWalks(workers);
      assert Elements(order) == {};
    } else {
      var before, w := order[..|order| - 1], order[|order| - 1];
      assert order == before + [w];
      WeightsSum(workers, before);
      ElementsSnoc(before, w);
      OneMoreWalk(workers, Elements(before), Elements(order), w);
    }
  }

  lemma WeightBound(s: System, w: nat, walks: set<nat>, most: nat)
    requires TempsHeld(s) && w in s.workers && s.workers[w].u.Size() <= most
    requires w in walks ==> s.workers[w].stage.ToWalk?
    ensures Weights(s.workers, walks)[w] <= most
  {
    assert Writing(s, w) ==> HoldsTemp(s, w);
  }

  lemma SlackCovers(cfg: Config, n: nat)
    requires n + 1 <= cfg.inFlight
    ensures n * cfg.maxRequest <= Slack(cfg)
  {
    ProductGrows(n, cfg.inFlight - 1, cfg.maxRequest);
  }

  lemma OthersWeigh(cfg: Config, s: System, walks: set<nat>, w: nat)
    requires WithinFlight(cfg, s) && TempsHeld(s) && Sized(cfg, s) && w in s.workers
    requires forall v :: v in walks ==> Walking(s, v)
    ensures Sum(Weights(s.workers, walks) - {w}) <= Slack(cfg)
  {
    var others: map<nat, nat> := Weights(s.workers, walks) - {w};
    forall v | v in others
      ensures others[v] <= cfg.maxRequest
    {
      WeightBound(s, v, walks, cfg.maxRequest);
    }
    SumBound(others, cfg.maxRequest);
    assert others.Keys == s.workers.Keys - {w};
    SlackCovers(cfg, |others|);
  }

  /** Everything in the air, walks included, is within one largest upload for each other worker. */
  lemma InTheAir(cfg: Config, s: System, order: seq<nat>, w: nat)
    requires WithinFlight(cfg, s) && TempsHeld(s) && Sized(cfg, s) && Walkers(s, order)
    requires w in s.workers && s.workers[w].stage.ToDiskCheck?
    ensures Sum(Drafts(s.workers)) + Sum(Debts(s.workers)) + SizeSum(s.workers, order) <= Slack(cfg)
  {
    var weights: map<nat, nat> := Weights(s.workers, Elements(order));
    assert forall v :: v in order ==> Walking(s, v);
    assert !Walking(s, w);
    WeightsSum(s.workers, order);
    SumRemove(weights, w);
    OthersWeigh(cfg, s, Elements(order), w);
    assert weights[w] == 0;
  }

  /** A new walk is sure to see everything that is settled, and the rest is in the air. */
  lemma StartSees(cfg: Config, s: System, order: seq<nat>, w: nat)
    requires WithinFlight(cfg, s) && TempsHeld(s) && Sized(cfg, s) && Walkers(s, order) && Enabled(cfg, s, StartWalk(w))
    ensures var s' := Next(cfg, s, StartWalk(w));
      Load(s') + SizeSum(s.workers, order) <= Sight(s', w) + Slack(cfg)
  {
    var s' := Next(cfg, s, StartWalk(w));
    WalkKeepsLoad(cfg, s, StartWalk(w));
    InTheAir(cfg, s, order, w);
    DraftsOnDisk(s);
    SameActive(s.workers, w, s'.workers[w]);
    assert Unseen(s'.files, ActiveTemps(s'.workers), s'.workers[w].stage) == s.files - ActiveTemps(s.workers);
  }

  lemma WalkersSnoc(s: System, s': System, order: seq<nat>, w: nat)
    requires Walkers(s, order) && !Walking(s, w)
    requires forall v :: Walking(s', v) <==> Walking(s, v) || v == w
    ensures Walkers(s', order + [w])
  {
  }

  /** Its own place in the order, and the places of those before. */
  lemma PlaceAfterStart(cfg: Config, s: System, order: seq<nat>, c: nat, w: nat, i: nat)
    requires WithinFlight(cfg, s) && TempsHeld(s) && Sized(cfg, s) && Ledger(cfg, s, order, c) && Enabled(cfg, s, StartWalk(w))
    requires c <= i <= |order|
    ensures var s', longer := Next(cfg, s, StartWalk(w)), order + [w];
      && Walking(s', longer[i])
      && Load(s') + SizeSum(s.workers, order[..i]) <= Sight(s', longer[i]) + Slack(cfg)
  {
    var s' := Next(cfg, s, StartWalk(w));
    WalkKeepsLoad(cfg, s, StartWalk(w));
    if i < |order| {
      assert order[i] in order && Walking(s, order[i]);
      SameActive(s.workers, w, s'.workers[w]);
      IdleKeepsSight(s, s', order[i]);
    } else {
      StartSees(cfg, s, order, w);
      assert order[..i] == order;
    }
  }

  lemma StartKeepsLedger(cfg: Config, s: System, order: seq<nat>, c: nat, w: nat)
    requires WithinFlight(cfg, s) && TempsHeld(s) && Sized(cfg, s) && Ledger(cfg, s, order, c) && Enabled(cfg, s, StartWalk(w))
    ensures Ledger(cfg, Next(cfg, s, StartWalk(w)), order + [w], c)
  {
    var s', longer := Next(cfg, s, StartWalk(w)), order + [w];
    WalkKeepsLoad(cfg, s, StartWalk(w));
    WalkersSnoc(s, s', order, w);
    assert longer[..c] == order[..c];
    SameSizes(s.workers, s'.workers, order[..c]);
    forall i | c <= i < |longer|
      ensures Load(s') + SizeSum(s'.workers, longer[..i]) <= Sight(s', longer[i]) + Slack(cfg)
    {
      assert longer[..i] == order[..i];
      SameSizes(s.workers, s'.workers, order[..i]);
      PlaceAfterStart(cfg, s, order, c, w, i);
    }
  }

  // ---- runs ---------------------------------------------------------------------

  ghost predicate Bounded(cfg: Config, s: System, order: seq<nat>, c: nat) {
    WithinFlight(cfg, s) && TempsHeld(s) && Sized(cfg, s) && Ledger(cfg, s, order, c)
  }

  /** A step that neither begins nor ends a walk. */
  predicate OffWalks(s: System, step: Step) {
    !step.StartWalk? && !step.CheckDisk? && (step.Crash? ==> step.w in s.workers && !s.workers[step.w].stage.ToWalk?)
  }

  lemma SameWalks(cfg: Config, s: System, step: Step, w: nat)
    requires Enabled(cfg, s, step) && OffWalks(s, step)
    ensures Walking(Next(cfg, s, step), w) <==> Walking(s, w)
    ensures Walking(s, w) ==> Next(cfg, s, step).workers[w].u == s.workers[w].u
  {
  }

  lemma OtherKeepsLedger(cfg: Config, s: System, step: Step, order: seq<nat>, c: nat)
    requires Bounded(cfg, s, order, c) && Enabled(cfg, s, step) && OffWalks(s, step)
    ensures Ledger(cfg, Next(cfg, s, step), order, c)
  {
    var s' := Next(cfg, s, step);
    OthersKeepLoad(cfg, s, step);
    forall w
      ensures Walking(s', w) <==> Walking(s, w)
      ensures Walking(s, w) ==> s'.workers[w].u == s.workers[w].u && Sight(s', w) + Load(s) >= Sight(s, w) + Load(s')
    {
      SameWalks(cfg, s, step, w);
      if Walking(s, w) {
        OthersKeepSight(cfg, s, step, w);
      }
    }
    LedgerCarries(cfg, s, s', order, c);
  }

  lemma PlaceOf(order: seq<nat>, w: nat) returns (j: nat)
    requires w in order
    ensures j < |order| && order[j] == w
  {
    j :| j < |order| && order[j] == w;
  }

  /** A walk that is broken off, or refused. */
  lemma BreakKeepsLedger(cfg: Config, s: System, step: Step, order: seq<nat>, c: nat) returns (order': seq<nat>, c': nat)
    requires Bounded(cfg, s, order, c) && Enabled(cfg, s, step) && !Admits(cfg, s, step)
    requires (step.CheckDisk? || step.Crash?) && Walking(s, step.w)
    ensures Ledger(cfg, Next(cfg, s, step), order', c')
  {
    var s' := Next(cfg, s, step);
    var j := PlaceOf(order, step.w);
    OthersKeepLoad(cfg, s, step);
    FewerActive(s'.workers, s.workers);
    assert forall w :: w in order ==> Walking(s, w);
    forall w | Walking(s, w) && Walking(s', w)
      ensures Sight(s', w) >= Sight(s, w)
    {
      IdleKeepsSight(s, s', w);
    }
    order', c' := Omit(order, j), if j < c then c - 1 else c;
    assert GoesOn(s, s', order, j);
    WalkEnds(cfg, s, s', order, c, j, 0, c');
  }

  /** What a walk was admitted on, and the ceiling. */
  lemma AdmissionFits(cfg: Config, s: System, order: seq<nat>, c: nat, j: nat)
    requires Bounded(cfg, s, order, c) && c <= j < |order|
    requires Enabled(cfg, s, CheckDisk(order[j])) && Admits(cfg, s, CheckDisk(order[j]))
    ensures Load(s) + s.workers[order[j]].u.Size() + SizeSum(s.workers, order[..j]) <= Ceiling(cfg)
  {
    SightAtTheEnd(cfg, s, order[j]);
    assert s.workers.Keys != {};
  }

  lemma AdmissionKeepsLedger(cfg: Config, s: System, w: nat, order: seq<nat>, c: nat) returns (order': seq<nat>, c': nat)
    requires Bounded(cfg, s, order, c) && Enabled(cfg, s, CheckDisk(w)) && Admits(cfg, s, CheckDisk(w))
    ensures Ledger(cfg, Next(cfg, s, CheckDisk(w)), order', c')
  {
    var s', size := Next(cfg, s, CheckDisk(w)), s.workers[w].u.Size();
    assert Walking(s, w);
    var j := PlaceOf(order, w);
    AdmissionAddsSize(cfg, s, w);
    SameActive(s.workers, w, s'.workers[w]);
    assert forall v :: v in order ==> Walking(s, v);
    forall v | Walking(s, v) && Walking(s', v)
      ensures Sight(s', v) >= Sight(s, v)
    {
      IdleKeepsSight(s, s', v);
    }
    if j >= c {
      AdmissionFits(cfg, s, order, c, j);
    }
    order', c' := Omit(order, j), if j < c then c - 1 else if size > 0 then j else c;
    assert GoesOn(s, s', order, j);
    WalkEnds(cfg, s, s', order, c, j, size, c');
  }

  lemma StepKeepsSized(cfg: Config, s: System, step: Step)
    requires Sized(cfg, s) && Enabled(cfg, s, step)
    ensures Sized(cfg, Next(cfg, s, step))
  {
  }

  /** Every step keeps the books, with the order of walks brought up to date. */
  lemma StepKeepsLoad(cfg: Config, s: System, step: Step, order: seq<nat>, c: nat) returns (order': seq<nat>, c': nat)
    requires Bounded(cfg, s, order, c) && Enabled(cfg, s, step)
    ensures Bounded(cfg, Next(cfg, s, step), order', c')
  {
    StepWithinFlight(cfg, s, step);
    StepKeepsTemps(cfg, s, step);
    StepKeepsSized(cfg, s, step);
    if step.StartWalk? {
      StartKeepsLedger(cfg, s, order, c, step.w);
      order', c' := order + [step.w], c;
    } else if step.CheckDisk? && Admits(cfg, s, step) {
      order', c' := AdmissionKeepsLedger(cfg, s, step.w, order, c);
    } else if OffWalks(s, step) {
      OtherKeepsLedger(cfg, s, step, order, c);
      order', c' := order, c;
    } else {
      order', c' := BreakKeepsLedger(cfg, s, step, order, c);
    }
  }

  lemma CeilingNatural(cfg: Config)
    ensures Ceiling(cfg) >= 0
  {
    if cfg.inFlight > 0 {
      ProductGrows(0, cfg.inFlight - 1, cfg.maxRequest);
    }
  }

  lemma NothingOwedAtStart()
    ensures Load(START) == 0
  {
    assert Sizes(START.files) == map[] && Debts(START.workers) == map[];
  }

  lemma {:induction false} RunBounded(cfg: Config, states: seq<System>, steps: seq<Step>, k: nat) returns (order: seq<nat>, c: nat)
    requires IsRun(cfg, states, steps) && k <= |steps|
    ensures Bounded(cfg, states[k], order, c)
  {
    if k == 0 {
      CeilingNatural(cfg);
      NothingOwedAtStart();
      order, c := [], 0;
    } else {
      order, c := RunBounded(cfg, states, steps, k - 1);
      order, c := StepKeepsLoad(cfg, states[k - 1], steps[k - 1], order, c);
    }
  }

  /**
   Through every interleaving of the uploads and of their file-by-file walks, through duplicates, failures and
   crashes, the bytes on disk and those still to be written never exceed the cap by more than one largest upload
   for each other upload in flight; with one upload at a time, never exceed the cap.
   */
  lemma DiskHolds(cfg: Config, states: seq<System>, steps: seq<Step>, k: nat)
    requires IsRun(cfg, states, steps) && k <= |steps|
    ensures TotalBytes(states[k].files) + Sum(Debts(states[k].workers)) <= Ceiling(cfg)
    ensures cfg.inFlight == 1 && cfg.maxDisk >= 0 ==> TotalBytes(states[k].files) + Sum(Debts(states[k].workers)) <= cfg.maxDisk
  {
    var _, _ := RunBounded(cfg, states, steps, k);
  }
}
