// What the two hazards of the shared directory history do
// (nebula_app/src/directory_history.rs over nebula_app/src/atomic_file.rs).
//
// A lock file is reclaimed by age, and a save may report failure after its rename.
// Both are judged by what can be observed afterwards, over every continuation in
// which nothing else goes wrong: two holders of the lock, a saved visit that is gone
// from the file, a visit the file counts twice.
module DirectoryHazards {
  import opened Text
  import opened DirectoryPaths
  import opened DirectoryDatabase
  import opened DirectoryProtocol

  type Run = seq<(Pid, Action)>

  // ---- what can go wrong, as observed ----

  // Two processes work under the lock at once.
  ghost predicate Clashes(s: System) {
    exists p, q :: p in s.live && q in s.live && p != q && Critical(s.live[p].phase) && Critical(s.live[q].phase)
  }

  // A live process made an observation that is neither in the file nor pending.
  ghost predicate Loses(s: System, pid: Pid) {
    pid in s.live && pid in s.made && |Of(s.log, pid)| + |s.live[pid].pending| < |s.made[pid]|
  }

  // The file counts more observations of a process than it ever made.
  ghost predicate Overcounts(s: System, pid: Pid) {
    pid in s.made && |Of(s.log, pid)| > |s.made[pid]|
  }

  ghost predicate MayClash(s: System) {
    exists run: Run :: SaneRun(s, run) && Clashes(After(s, run))
  }

  ghost predicate MayLose(s: System) {
    exists run: Run, pid :: SaneRun(s, run) && Loses(After(s, run), pid)
  }

  ghost predicate MayOvercount(s: System) {
    exists run: Run, pid :: SaneRun(s, run) && Overcounts(After(s, run), pid)
  }

  // None of it can follow from a state that satisfies the invariant.
  lemma NothingGoesWrong(s: System, original: File)
    requires Invariant(s, original)
    ensures !MayClash(s) && !MayLose(s) && !MayOvercount(s)
  {
    hide Of;
    hide SaneRun;
    hide After;
    forall run: Run | SaneRun(s, run)
      ensures !Clashes(After(s, run)) && forall pid :: !Loses(After(s, run), pid) && !Overcounts(After(s, run), pid)
    {
      RunKeeps(s, run, original);
      forall pid ensures !Loses(After(s, run), pid) && !Overcounts(After(s, run), pid) {
        if pid in After(s, run).made { assert Fine(After(s, run), pid); }
      }
    }
  }

  // ---- building runs step by step ----

  lemma {:induction false} OneMore(s: System, run: Run, pid: Pid, a: Action)
    requires SaneRun(s, run) && Possible(After(s, run), pid, a) && Sane(After(s, run), pid, a)
    ensures SaneRun(s, run + [(pid, a)]) && After(s, run + [(pid, a)]) == Do(After(s, run), pid, a)
    decreases |run|
  {
    hide Possible;
    hide Sane;
    hide Do;
    var longer := run + [(pid, a)];
    if run == [] {
      assert longer[0] == (pid, a) && longer[1..] == [];
    } else {
      assert longer[0] == run[0] && longer[1..] == run[1..] + [(pid, a)];
      OneMore(Do(s, run[0].0, run[0].1), run[1..], pid, a);
    }
  }

  lemma {:induction false} RunsCompose(s: System, first: Run, second: Run)
    requires SaneRun(s, first) && SaneRun(After(s, first), second)
    ensures SaneRun(s, first + second) && After(s, first + second) == After(After(s, first), second)
    decreases |first|
  {
    hide Possible;
    hide Sane;
    hide Do;
    if first == [] {
      assert first + second == second;
    } else {
      var all := first + second;
      assert all[0] == first[0] && all[1..] == first[1..] + second;
      RunsCompose(Do(s, first[0].0, first[0].1), first[1..], second);
    }
  }

  // ---- a visitor: a process that starts and records one visit ----

  const VISIT := Observation("a", "a", 0)

  lemma VisitIsGenuine(platform: Platform)
    ensures Genuine(platform, VISIT)
  {
    assert Folded("a") == "a";
  }

  lemma {:induction false} UnusedPid(pids: set<Pid>) returns (unused: Pid)
    ensures forall p :: p in pids ==> p < unused
  {
    if pids == {} {
      unused := 0;
    } else {
      var p :| p in pids;
      var above := UnusedPid(pids - {p});
      unused := if above > p then above else p + 1;
      assert forall q :: q in pids ==> q == p || q in pids - {p};
    }
  }

  // The visitor's process once it has merged its visit.
  ghost predicate Visiting(s: System, v: Pid) {
    v in s.live && v in s.made && s.made[v] == [VISIT] && s.live[v].pending == [VISIT] && s.live[v].phase.Merging?
  }

  lemma VisitorStarts(s: System, v: Pid)
    requires v !in s.made && v !in s.live && !ReadDatabase(s.platform, s.file).Refused?
    ensures Possible(s, v, Start([], 0))
    ensures Do(s, v, Start([], 0)) == With(s, v, Process([], None, true, Idle)).(made := s.made[v := []])
  {
    hide ReadDatabase;
    assert Total([]) == 0.0;
  }

  lemma VisitorRecords(s: System, v: Pid)
    requires Genuine(s.platform, VISIT)
    ensures
      var started := With(s, v, Process([], None, true, Idle)).(made := s.made[v := []]);
      && Possible(started, v, Record(VISIT))
      && Do(started, v, Record(VISIT)) == With(s, v, Process([VISIT], None, true, WantLock(Flushing))).(made := s.made[v := [VISIT]])
  {
    hide Genuine;
    assert [] + [VISIT] == [VISIT];
    assert s.made[v := []][v := [VISIT]] == s.made[v := [VISIT]];
    var p, q := Process([], None, true, Idle), Process([VISIT], None, true, WantLock(Flushing));
    assert s.live[v := p][v := q] == s.live[v := q];
  }

  lemma VisitorReads(s: System, v: Pid)
    requires v !in s.made && v !in s.live && !s.lockFile && !ReadDatabase(s.platform, s.file).Refused?
    ensures
      var recorded := With(s, v, Process([VISIT], None, true, WantLock(Flushing))).(made := s.made[v := [VISIT]]);
      && Possible(recorded, v, CreateLock)
      && Possible(Do(recorded, v, CreateLock), v, Read(0))
      && var t := Do(Do(recorded, v, CreateLock), v, Read(0));
         Visiting(t, v) && t == s.(live := s.live[v := t.live[v]], made := s.made[v := [VISIT]], lockFile := true)
  {
    hide ReadDatabase;
    hide AppliedAll;
    hide Aged;
    hide Signed;
  }

  // As long as no lock file exists, a visitor can merge, whatever else is going on.
  lemma VisitorMerges(s: System, v: Pid, original: File) returns (run: Run)
    requires Consistent(s, original) && v !in s.made && !s.lockFile && !ReadDatabase(s.platform, s.file).Refused?
    ensures SaneRun(s, run)
    ensures
      var t := After(s, run);
      && Consistent(t, original) && Visiting(t, v)
      && t == s.(live := s.live[v := t.live[v]], made := s.made[v := [VISIT]], lockFile := true)
  {
    hide Consistent;
    hide Possible;
    hide Do;
    hide Visiting;
    hide Genuine;
    hide ReadDatabase;
    hide SaneRun;
    hide After;
    if v in s.live { LiveWasMade(s, v, original); }
    VisitIsGenuine(s.platform);
    run := NoSteps(s);
    VisitorStarts(s, v);
    run := Continue(s, run, v, Start([], 0), original);
    VisitorRecords(s, v);
    run := Continue(s, run, v, Record(VISIT), original);
    VisitorReads(s, v);
    run := Continue(s, run, v, CreateLock, original);
    run := Continue(s, run, v, Read(0), original);
  }

  lemma LiveWasMade(s: System, pid: Pid, original: File)
    requires Consistent(s, original) && pid in s.live
    ensures pid in s.made
  {
  }

  lemma NoSteps(s: System) returns (run: Run)
    ensures run == [] && SaneRun(s, run) && After(s, run) == s
  {
    run := [];
  }

  // One more step that is not a rename: the contents stay accounted for.
  lemma Continue(s: System, run: Run, pid: Pid, a: Action, original: File) returns (longer: Run)
    requires SaneRun(s, run) && Consistent(After(s, run), original) && !a.Rename?
    requires Possible(After(s, run), pid, a) && Sane(After(s, run), pid, a)
    ensures SaneRun(s, longer) && After(s, longer) == Do(After(s, run), pid, a) && Consistent(After(s, longer), original)
  {
    hide Consistent;
    hide Possible;
    hide Do;
    hide SaneRun;
    hide After;
    OneMore(s, run, pid, a);
    StepStaysConsistent(After(s, run), pid, a, original);
    longer := run + [(pid, a)];
  }

  // ---- a removed lock ----

  // A merging process that no longer holds the only lock overwrites whatever a
  // visitor saves in between: the visitor was told that its visit is saved.
  lemma OverwritesVisitor(s: System, owner: Pid, original: File) returns (run: Run, v: Pid)
    requires Consistent(s, original) && owner in s.live && s.live[owner].phase.Merging? && !s.lockFile
    ensures SaneRun(s, run) && Loses(After(s, run), v)
  {
    hide Consistent;
    hide Of;
    hide ReadDatabase;
    hide SaneRun;
    hide After;
    BusyMeansReadable(s, owner, original);
    v := UnusedPid(s.made.Keys);
    LiveWasMade(s, owner, original);
    run := VisitorMerges(s, v, original);
    var t := After(s, run);
    OwnerKnowsNoVisit(s, owner, v, original);
    OverwritesSaved(t, owner, v);
    RunsCompose(s, run, Overwrite(owner, v));
    run := run + Overwrite(owner, v);
  }

  // One of two merging processes saves and is told so; then the other renames.
  ghost function Overwrite(owner: Pid, v: Pid): Run { [(v, Rename), (v, FinishSave), (owner, Rename)] }

  lemma OverwritesSaved(s: System, owner: Pid, v: Pid)
    requires owner != v && Possible(s, owner, Rename) && Possible(s, v, Rename)
    ensures
      var t := After(s, Overwrite(owner, v));
      && SaneRun(s, Overwrite(owner, v))
      && v in t.live && t.live[v].pending == [] && t.made == s.made && t.log == s.live[owner].phase.log
  {
    hide SaneRun;
    hide After;
    var run := NoSteps(s);
    OneMore(s, run, v, Rename);
    run := run + [(v, Rename)];
    OneMore(s, run, v, FinishSave);
    run := run + [(v, FinishSave)];
    OneMore(s, run, owner, Rename);
    assert run + [(owner, Rename)] == Overwrite(owner, v);
  }

  lemma OwnerKnowsNoVisit(s: System, owner: Pid, v: Pid, original: File)
    requires Consistent(s, original) && owner in s.live && s.live[owner].phase.Merging? && v !in s.made
    ensures Of(s.live[owner].phase.log, v) == []
  {
    hide Of;
    hide Replay;
    hide WellFormed;
    hide Readable;
    assert Fine(s, owner);
  }

  // A process about to release its lock removes a visitor's lock instead, and so lets
  // a second visitor in.
  lemma ReleasesVisitorsLock(s: System, owner: Pid, original: File) returns (run: Run, v: Pid)
    requires Consistent(s, original) && owner in s.live && s.live[owner].phase.Unlocking?
    requires !s.lockFile && !ReadDatabase(s.platform, s.file).Refused?
    ensures SaneRun(s, run) && Loses(After(s, run), v)
  {
    hide Consistent;
    hide ReadDatabase;
    hide SaneRun;
    hide After;
    hide Loses;
    var first := UnusedPid(s.made.Keys);
    LiveWasMade(s, owner, original);
    run := VisitorMerges(s, first, original);
    run := Continue(s, run, owner, Unlock, original);
    var rest;
    rest, v := OverwritesVisitor(After(s, run), first, original);
    RunsCompose(s, run, rest);
    run := run + rest;
  }

  // Reading under a lock leads to merging or to releasing the lock.
  lemma ReadingEnds(s: System, pid: Pid, now: nat)
    requires pid in s.live && s.live[pid].phase.Holding?
    ensures Plan(s, pid, now).phase.Merging? || Plan(s, pid, now).phase.Unlocking?
  {
    hide ReadDatabase;
    hide AppliedAll;
    hide Aged;
    hide Signed;
  }

  // Whatever a live process is doing under a lock: once its lock file is gone, a
  // visit that was reported as saved can be lost.
  lemma RemovedLockLosesVisit(s: System, owner: Pid, original: File) returns (run: Run, v: Pid)
    requires Consistent(s, original) && owner in s.live && Critical(s.live[owner].phase)
    requires !s.lockFile && !ReadDatabase(s.platform, s.file).Refused?
    ensures SaneRun(s, run) && Loses(After(s, run), v)
  {
    hide Consistent;
    hide Plan;
    hide ReadDatabase;
    hide SaneRun;
    hide After;
    hide Loses;
    run := NoSteps(s);
    var phase := s.live[owner].phase;
    if phase.Holding? {
      ReadingEnds(s, owner, 0);
      run := Continue(s, run, owner, Read(0), original);
    } else if phase.Renamed? {
      run := Continue(s, run, owner, FinishSave, original);
    }
    var t := After(s, run);
    var rest;
    if t.live[owner].phase.Merging? {
      rest, v := OverwritesVisitor(t, owner, original);
    } else {
      rest, v := ReleasesVisitorsLock(t, owner, original);
    }
    RunsCompose(s, run, rest);
    run := run + rest;
  }

  lemma ThiefClashes(s: System, thief: Pid, owner: Pid)
    requires Possible(s, thief, RemoveStale) && owner in s.live && Critical(s.live[owner].phase)
    ensures MayClash(Do(s, thief, RemoveStale))
  {
    hide SaneRun;
    hide After;
    var t := Do(s, thief, RemoveStale);
    var run := NoSteps(t);
    OneMore(t, run, thief, Recreate);
    var u := Do(t, thief, Recreate);
    assert Critical(u.live[owner].phase) && Critical(u.live[thief].phase);
    assert Clashes(After(t, run + [(thief, Recreate)]));
  }

  // Removing a lock file that looks stale is what makes two holders possible, and
  // what makes it possible to lose a saved visit, exactly when a live process still
  // works under that lock. Nothing else needs to go wrong.
  lemma ReclaimIsSafeExactly(s: System, thief: Pid, original: File)
    requires Invariant(s, original) && Possible(s, thief, RemoveStale)
    ensures MayClash(Do(s, thief, RemoveStale)) <==> StealsLiveLock(s, RemoveStale)
    ensures MayLose(Do(s, thief, RemoveStale)) <==> StealsLiveLock(s, RemoveStale)
  {
    hide Consistent;
    hide Exclusive;
    hide MayClash;
    hide ReadDatabase;
    var t := Do(s, thief, RemoveStale);
    if StealsLiveLock(s, RemoveStale) {
      var owner :| owner in s.live && Critical(s.live[owner].phase);
      ThiefClashes(s, thief, owner);
      BusyMeansReadable(s, thief, original);
      StepStaysConsistent(s, thief, RemoveStale, original);
      var run, v := RemovedLockLosesVisit(t, owner, original);
    } else {
      StepKeeps(s, thief, RemoveStale, original);
      NothingGoesWrong(t, original);
    }
  }

  // ---- a misreported save ----

  ghost function Retry(pid: Pid, o: Observation, now: nat): Run {
    [(pid, Unlock), (pid, Record(o)), (pid, CreateLock), (pid, Read(now)), (pid, Rename)]
  }

  lemma RetryPlans(s: System, pid: Pid, now: nat, original: File)
    requires Faithful(s, original) && pid in s.live && Trustworthy(s, pid)
    requires s.live[pid].phase == Holding(Flushing) && !ReadDatabase(s.platform, s.file).Refused?
    ensures
      var plan := Plan(s, pid, now);
      plan.phase.Merging? && plan == s.live[pid].(phase := plan.phase) && Of(plan.phase.log, pid) == Of(s.log, pid) + s.live[pid].pending
  {
    hide ReadDatabase;
    hide AppliedAll;
    hide Aged;
    hide Of;
    hide Faithful;
    hide WellFormed;
    hide Replay;
    hide Readable;
    PlanIsUpToDate(s, pid, now, original);
  }

  // Recording another visit and locking again.
  ghost function Relocked(s: System, pid: Pid, o: Observation): System
    requires pid in s.live && pid in s.made
  {
    var p := s.live[pid];
    s.(live := s.live[pid := p.(pending := p.pending + [o], phase := Holding(Flushing))],
       made := s.made[pid := s.made[pid] + [o]], lockFile := true)
  }

  lemma UnlockRecordLock(s: System, pid: Pid, o: Observation)
    requires pid in s.live && pid in s.made && s.live[pid].enabled && s.live[pid].phase.Unlocking? && Genuine(s.platform, o)
    ensures Possible(s, pid, Unlock)
    ensures Possible(Do(s, pid, Unlock), pid, Record(o))
    ensures Possible(Do(Do(s, pid, Unlock), pid, Record(o)), pid, CreateLock)
    ensures Do(Do(Do(s, pid, Unlock), pid, Record(o)), pid, CreateLock) == Relocked(s, pid, o)
  {
    hide Genuine;
    var t := Do(Do(s, pid, Unlock), pid, Record(o));
    assert Do(t, pid, CreateLock).live == Relocked(s, pid, o).live;
  }

  lemma RetryLocks(s: System, pid: Pid, o: Observation)
    requires pid in s.live && pid in s.made && s.live[pid].enabled && s.live[pid].phase.Unlocking? && Genuine(s.platform, o)
    ensures
      var run := [(pid, Unlock), (pid, Record(o)), (pid, CreateLock)];
      SaneRun(s, run) && After(s, run) == Relocked(s, pid, o)
  {
    hide Genuine;
    hide Possible;
    hide Do;
    hide Relocked;
    hide SaneRun;
    hide After;
    UnlockRecordLock(s, pid, o);
    var run := NoSteps(s);
    OneMore(s, run, pid, Unlock);
    run := run + [(pid, Unlock)];
    OneMore(s, run, pid, Record(o));
    run := run + [(pid, Record(o))];
    OneMore(s, run, pid, CreateLock);
    assert run + [(pid, CreateLock)] == [(pid, Unlock), (pid, Record(o)), (pid, CreateLock)];
  }

  lemma RetryStaysTrustworthy(s: System, t: System, pid: Pid, o: Observation)
    requires pid in s.live && Trustworthy(s, pid) && s.live[pid].enabled && Genuine(s.platform, o)
    requires t.platform == s.platform && t.file == s.file && pid in t.live
    requires t.live[pid] == s.live[pid].(pending := s.live[pid].pending + [o], phase := Holding(Flushing))
    ensures Trustworthy(t, pid)
  {
    hide Genuine;
    hide ReadDatabase;
    hide Readable;
    hide UniqueKeys;
  }

  // After a save that was reported as failed although its rename happened, the next
  // visit makes the file count all of its observations a second time.
  lemma MisreportCountsTwice(s: System, pid: Pid, o: Observation, now: nat, original: File)
    requires Invariant(s, original) && Possible(s, pid, FailAfterRename) && Genuine(s.platform, o)
    ensures
      var t := Do(s, pid, FailAfterRename);
      var u := After(t, Retry(pid, o, now));
      && SaneRun(t, Retry(pid, o, now))
      && pid in u.made && u.made[pid] == s.made[pid] + [o]
      && Of(u.log, pid) == s.made[pid] + s.live[pid].pending + [o]
  {
    hide Of;
    hide Invariant;
    hide Genuine;
    hide ReadDatabase;
    hide Faithful;
    hide Trustworthy;
    hide SaneRun;
    hide After;
    RenamedIsSaved(s, pid, original);
    var t := Do(s, pid, FailAfterRename);
    RetryLocks(t, pid, o);
    var lock := [(pid, Unlock), (pid, Record(o)), (pid, CreateLock)];
    var held := After(t, lock);
    RetryStaysTrustworthy(s, held, pid, o);
    SameFileIsFaithful(s, held, original);
    RetrySaves(held, pid, now, original);
    RunsCompose(t, lock, [(pid, Read(now)), (pid, Rename)]);
    assert lock + [(pid, Read(now)), (pid, Rename)] == Retry(pid, o, now);
  }

  lemma RenamedIsSaved(s: System, pid: Pid, original: File)
    requires Invariant(s, original) && Possible(s, pid, FailAfterRename)
    ensures pid in s.made && Of(s.log, pid) == s.made[pid]
    ensures Faithful(s, original) && Trustworthy(s, pid) && s.live[pid].enabled && !ReadDatabase(s.platform, s.file).Refused?
  {
    hide Of;
    hide Faithful;
    hide Exclusive;
    BusyMeansReadable(s, pid, original);
    assert Fine(s, pid);
  }

  lemma RetrySaves(s: System, pid: Pid, now: nat, original: File)
    requires Faithful(s, original) && pid in s.live && Trustworthy(s, pid)
    requires s.live[pid].phase == Holding(Flushing) && !ReadDatabase(s.platform, s.file).Refused?
    ensures
      var run := [(pid, Read(now)), (pid, Rename)];
      && SaneRun(s, run) && After(s, run).made == s.made
      && Of(After(s, run).log, pid) == Of(s.log, pid) + s.live[pid].pending
  {
    hide Of;
    hide ReadDatabase;
    hide Plan;
    hide Faithful;
    hide Trustworthy;
    hide SaneRun;
    hide After;
    RetryPlans(s, pid, now, original);
    var run := NoSteps(s);
    OneMore(s, run, pid, Read(now));
    run := run + [(pid, Read(now))];
    OneMore(s, run, pid, Rename);
    assert run + [(pid, Rename)] == [(pid, Read(now)), (pid, Rename)];
  }

  lemma SameFileIsFaithful(s: System, t: System, original: File)
    requires Faithful(s, original) && t.platform == s.platform && t.file == s.file && t.log == s.log
    ensures Faithful(t, original)
  {
  }

  // So it can be made to count too much exactly when it had observations to save.
  lemma MisreportIsHarmlessExactly(s: System, pid: Pid, original: File)
    requires Invariant(s, original) && Possible(s, pid, FailAfterRename)
    ensures MayOvercount(Do(s, pid, FailAfterRename)) <==> s.live[pid].pending != []
  {
    hide Invariant;
    hide Of;
    hide SaneRun;
    hide After;
    if s.live[pid].pending == [] {
      StepKeeps(s, pid, FailAfterRename, original);
      NothingGoesWrong(Do(s, pid, FailAfterRename), original);
    } else {
      VisitIsGenuine(s.platform);
      MisreportCountsTwice(s, pid, VISIT, 0, original);
      assert Overcounts(After(Do(s, pid, FailAfterRename), Retry(pid, VISIT, 0)), pid);
    }
  }

  // ---- both hazards happen ----

  // The thief takes the lock over, saves and is told so; then the owner renames.
  ghost function Theft(owner: Pid, thief: Pid, now: nat): Run {
    [(thief, Recreate), (thief, Read(now))] + Overwrite(owner, thief)
  }

  lemma TheftRuns(s: System, owner: Pid, thief: Pid, now: nat)
    requires owner != thief && Possible(s, owner, Rename) && !ReadDatabase(s.platform, s.file).Refused?
    requires thief in s.live && s.live[thief].phase == Recreating(Flushing) && !s.lockFile
    ensures
      var t := After(s, Theft(owner, thief, now));
      && SaneRun(s, Theft(owner, thief, now))
      && thief in t.live && t.live[thief].pending == [] && t.made == s.made && t.log == s.live[owner].phase.log
  {
    hide ReadDatabase;
    hide Plan;
    hide SaneRun;
    hide After;
    hide Overwrite;
    var run := NoSteps(s);
    OneMore(s, run, thief, Recreate);
    run := run + [(thief, Recreate)];
    var held := Do(s, thief, Recreate);
    ThiefPlans(held, thief, now);
    OneMore(s, run, thief, Read(now));
    run := run + [(thief, Read(now))];
    OverwritesSaved(Do(held, thief, Read(now)), owner, thief);
    RunsCompose(s, run, Overwrite(owner, thief));
    assert run == [(thief, Recreate), (thief, Read(now))];
  }

  lemma ThiefPlans(s: System, thief: Pid, now: nat)
    requires thief in s.live && s.live[thief].phase == Holding(Flushing) && !ReadDatabase(s.platform, s.file).Refused?
    ensures Plan(s, thief, now).phase.Merging?
  {
    hide ReadDatabase;
    hide AppliedAll;
    hide Aged;
    hide Signed;
  }

  // Whenever the lock of a merging process is stolen by one that saves, everything
  // the thief saved is gone afterwards.
  lemma StolenLockLosesUpdates(s: System, owner: Pid, thief: Pid, now: nat, original: File)
    requires Invariant(s, original) && owner != thief && Possible(s, owner, Rename)
    requires Possible(s, thief, RemoveStale) && s.live[thief].phase.task.Flushing? && s.live[thief].pending != []
    ensures
      var stolen := Do(s, thief, RemoveStale);
      var t := After(stolen, Theft(owner, thief, now));
      && SaneRun(stolen, Theft(owner, thief, now))
      && thief in t.live && t.live[thief].pending == [] && Of(t.log, thief) == Of(s.log, thief) && Loses(t, thief)
  {
    hide Of;
    hide SaneRun;
    hide After;
    hide ReadDatabase;
    hide Faithful;
    hide Exclusive;
    BusyMeansReadable(s, thief, original);
    assert Fine(s, thief) && Fine(s, owner);
    TheftRuns(Do(s, thief, RemoveStale), owner, thief, now);
  }

  lemma VisitorFindsStale(s: System, v: Pid) returns (run: Run)
    requires v !in s.made && v !in s.live && s.lockFile && !ReadDatabase(s.platform, s.file).Refused?
    ensures SaneRun(s, run)
    ensures After(s, run) == With(s, v, Process([VISIT], None, true, Reclaiming(Flushing))).(made := s.made[v := [VISIT]])
  {
    hide ReadDatabase;
    hide Genuine;
    hide SaneRun;
    hide After;
    VisitIsGenuine(s.platform);
    run := NoSteps(s);
    VisitorStarts(s, v);
    OneMore(s, run, v, Start([], 0));
    run := run + [(v, Start([], 0))];
    VisitorRecords(s, v);
    OneMore(s, run, v, Record(VISIT));
    run := run + [(v, Record(VISIT))];
    OneMore(s, run, v, FindStale);
    run := run + [(v, FindStale)];
    var p, q := Process([VISIT], None, true, WantLock(Flushing)), Process([VISIT], None, true, Reclaiming(Flushing));
    assert s.live[v := p][v := q] == s.live[v := q];
  }

  // Process 1 is about to rename when process 2, with a visit of its own to save,
  // finds the lock file stale: nothing has gone wrong so far.
  lemma TheftHappens() returns (run: Run)
    ensures SaneRun(Initial(Unix, Missing), run)
    ensures
      var s := After(Initial(Unix, Missing), run);
      && Possible(s, 2, RemoveStale) && StealsLiveLock(s, RemoveStale)
      && SaneRun(Do(s, 2, RemoveStale), Theft(1, 2, 0))
      && Loses(After(Do(s, 2, RemoveStale), Theft(1, 2, 0)), 2)
  {
    hide Consistent;
    hide Exclusive;
    hide Genuine;
    hide AppliedAll;
    hide Aged;
    hide Plan;
    hide SaneRun;
    hide After;
    hide Loses;
    var start := Initial(Unix, Missing);
    InitialHolds(Unix, Missing);
    VisitIsGenuine(Unix);
    run := VisitorMerges(start, 1, Missing);
    var rest := VisitorFindsStale(After(start, run), 2);
    RunsCompose(start, run, rest);
    run := run + rest;
    RunKeeps(start, run, Missing);
    var s := After(start, run);
    assert Critical(s.live[1].phase);
    StolenLockLosesUpdates(s, 1, 2, 0, Missing);
  }

  // A reclaimer takes the lock over and merges.
  lemma ReclaimerMerges(s: System, v: Pid) returns (run: Run)
    requires v in s.live && s.live[v] == Process([VISIT], None, true, Reclaiming(Flushing))
    requires !ReadDatabase(s.platform, s.file).Refused? && forall q :: q in s.live ==> !Critical(s.live[q].phase)
    ensures SaneRun(s, run)
    ensures
      var t := After(s, run);
      v in t.live && t.live[v].phase.Merging? && t == s.(live := s.live[v := t.live[v]], lockFile := true)
  {
    hide ReadDatabase;
    hide Plan;
    hide SaneRun;
    hide After;
    run := NoSteps(s);
    OneMore(s, run, v, RemoveStale);
    run := run + [(v, RemoveStale)];
    OneMore(s, run, v, Recreate);
    run := run + [(v, Recreate)];
    ThiefPlans(After(s, run), v, 0);
    OneMore(s, run, v, Read(0));
    run := run + [(v, Read(0))];
  }

  // Process 1 crashes under its lock; processes 2 and 3 both find that lock stale.
  lemma TwoFindStale() returns (run: Run)
    ensures SaneRun(Initial(Unix, Missing), run)
    ensures
      var s := After(Initial(Unix, Missing), run);
      var waiting := Process([VISIT], None, true, Reclaiming(Flushing));
      s.live == map[2 := waiting, 3 := waiting] && s.file == Missing && s.platform == Unix
  {
    hide Consistent;
    hide Exclusive;
    hide SaneRun;
    hide After;
    var start := Initial(Unix, Missing);
    InitialHolds(Unix, Missing);
    run := VisitorMerges(start, 1, Missing);
    OneMore(start, run, 1, Crash);
    run := run + [(1, Crash)];
    assert After(start, run).live == map[];
    var second := VisitorFindsStale(After(start, run), 2);
    RunsCompose(start, run, second);
    run := run + second;
    var third := VisitorFindsStale(After(start, run), 3);
    RunsCompose(start, run, third);
    run := run + third;
  }

  // No slow writer is needed: when 2 has reclaimed the lock, 3 removes the lock of 2.
  lemma ReclaimRaceHappens() returns (run: Run)
    ensures SaneRun(Initial(Unix, Missing), run)
    ensures
      var s := After(Initial(Unix, Missing), run);
      && 1 !in s.live && Possible(s, 3, RemoveStale) && StealsLiveLock(s, RemoveStale)
      && SaneRun(Do(s, 3, RemoveStale), Theft(2, 3, 0))
      && Loses(After(Do(s, 3, RemoveStale), Theft(2, 3, 0)), 3)
  {
    hide Invariant;
    hide Initial;
    hide Theft;
    hide SaneRun;
    hide After;
    hide Loses;
    var start := Initial(Unix, Missing);
    run := TwoFindStale();
    var reclaim := ReclaimerMerges(After(start, run), 2);
    RunsCompose(start, run, reclaim);
    run := run + reclaim;
    InitialHolds(Unix, Missing);
    RunKeeps(start, run, Missing);
    var s := After(start, run);
    assert Critical(s.live[2].phase);
    StolenLockLosesUpdates(s, 2, 3, 0, Missing);
  }

  // Two visits, counted as three.
  lemma DoubleCountHappens() returns (run: Run)
    ensures SaneRun(Initial(Unix, Missing), run)
    ensures
      var s := After(Initial(Unix, Missing), run);
      && Possible(s, 1, FailAfterRename)
      && SaneRun(Do(s, 1, FailAfterRename), Retry(1, VISIT, 0))
      && var t := After(Do(s, 1, FailAfterRename), Retry(1, VISIT, 0));
         1 in t.made && t.made[1] == [VISIT, VISIT] && Of(t.log, 1) == [VISIT, VISIT, VISIT]
  {
    hide Consistent;
    hide Exclusive;
    hide Genuine;
    hide SaneRun;
    hide After;
    hide Of;
    var start := Initial(Unix, Missing);
    InitialHolds(Unix, Missing);
    VisitIsGenuine(Unix);
    run := VisitorMerges(start, 1, Missing);
    OneMore(start, run, 1, Rename);
    run := run + [(1, Rename)];
    RunKeeps(start, run, Missing);
    MisreportCountsTwice(After(start, run), 1, VISIT, 0, Missing);
  }
}
