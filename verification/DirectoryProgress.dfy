// What the shared directory history achieves when nobody is in the way
// (nebula_app/src/directory_history.rs): visits and migrated seeds reach the file.
module DirectoryProgress {
  import opened Text
  import opened DirectoryPaths
  import opened DirectoryDatabase
  import opened DirectoryProtocol

  // A path the reader accepts, by its characters.
  predicate PrintablePath(path: string) {
    path != "" && forall i :: 0 <= i < |path| ==> 0x20 <= path[i] as int < 0x7f || 0xa0 <= path[i] as int
  }

  // A file is believed exactly if it has version 1 and all its entries have a printable
  // path and a positive rank; a file that is not there is no error, anything else is.
  lemma ReadExactly(platform: Platform, file: File)
    ensures ReadDatabase(platform, file).Absent? <==> file.Missing?
    ensures forall entries: seq<Entry> :: ReadDatabase(platform, file) == Loaded(entries) <==>
              && file == Json(1, entries)
              && forall i :: 0 <= i < |entries| ==> PrintablePath(entries[i].path) && entries[i].rank > 0.0
  {
    forall path: string ensures PrintablePath(path) <==> path != "" && !HasControl(path) {}
    if file.Json? {
      assert Readable(platform, file.entries) <==>
             forall i :: 0 <= i < |file.entries| ==> PrintablePath(file.entries[i].path) && file.entries[i].rank > 0.0;
    }
  }

  // The steps of a save that nothing disturbs.
  function SavingRun(pid: Pid, now: nat): seq<(Pid, Action)> {
    [(pid, CreateLock), (pid, Read(now)), (pid, Rename), (pid, FinishSave), (pid, Unlock)]
  }

  lemma RunUnfolds(s: System, steps: seq<(Pid, Action)>)
    requires steps != [] && Possible(s, steps[0].0, steps[0].1)
    ensures After(s, steps) == After(Do(s, steps[0].0, steps[0].1), steps[1..])
    ensures Sane(s, steps[0].0, steps[0].1) && SaneRun(Do(s, steps[0].0, steps[0].1), steps[1..]) ==> SaneRun(s, steps)
  {
    hide Do;
    hide Possible;
    hide Sane;
  }

  lemma RunEnds(s: System)
    ensures After(s, []) == s && SaneRun(s, [])
  {
  }

  // A process that has merged writes what it merged and forgets what it wrote.
  lemma MergedIsSaved(s: System, pid: Pid)
    requires pid in s.live && s.live[pid].phase.Merging?
    ensures
      var steps := [(pid, Rename), (pid, FinishSave), (pid, Unlock)];
      var p, t := s.live[pid], After(s, steps);
      && SaneRun(s, steps)
      && t == s.(file := Json(1, p.phase.contents), log := p.phase.log, lockFile := false,
                 live := s.live[pid := Process([], None, p.enabled, Idle)])
  {
    hide SaneRun;
    hide After;
    var a := Do(s, pid, Rename);
    var b := Do(a, pid, FinishSave);
    var c := Do(b, pid, Unlock);
    RunEnds(c);
    assert [(pid, Unlock)][1..] == [] && [(pid, FinishSave), (pid, Unlock)][1..] == [(pid, Unlock)];
    assert [(pid, Rename), (pid, FinishSave), (pid, Unlock)][1..] == [(pid, FinishSave), (pid, Unlock)];
    RunUnfolds(b, [(pid, Unlock)]);
    RunUnfolds(a, [(pid, FinishSave), (pid, Unlock)]);
    RunUnfolds(s, [(pid, Rename), (pid, FinishSave), (pid, Unlock)]);
  }

  lemma LockedIsSaved(s: System, pid: Pid, now: nat)
    requires pid in s.live && s.live[pid].phase.WantLock? && !s.lockFile
    requires Plan(Do(s, pid, CreateLock), pid, now).phase.Merging?
    ensures
      var p := Plan(Do(s, pid, CreateLock), pid, now);
      && SaneRun(s, SavingRun(pid, now))
      && After(s, SavingRun(pid, now)) ==
         s.(file := Json(1, p.phase.contents), log := p.phase.log, live := s.live[pid := Process([], None, p.enabled, Idle)])
  {
    hide SaneRun;
    hide After;
    hide Plan;
    var a := Do(s, pid, CreateLock);
    var b := Do(a, pid, Read(now));
    var rest := [(pid, Rename), (pid, FinishSave), (pid, Unlock)];
    MergedIsSaved(b, pid);
    assert SavingRun(pid, now)[1..] == [(pid, Read(now))] + rest && ([(pid, Read(now))] + rest)[1..] == rest;
    RunUnfolds(a, [(pid, Read(now))] + rest);
    RunUnfolds(s, SavingRun(pid, now));
  }

  // In every state a sane run reaches, a process that may write and records a visit
  // while the lock is free gets everything it ever recorded into the file, once and in
  // order, and keeps nothing back; what the others recorded stays.
  lemma QuietVisitIsSaved(s: System, original: File, pid: Pid, o: Observation, now: nat)
    requires Invariant(s, original) && pid in s.live && s.live[pid].phase.Idle? && s.live[pid].enabled && !s.lockFile
    requires Genuine(s.platform, o)
    ensures
      var steps := [(pid, Record(o))] + SavingRun(pid, now);
      var t := After(s, steps);
      && SaneRun(s, steps) && pid in s.made
      && t.made == s.made[pid := s.made[pid] + [o]] && Of(t.log, pid) == t.made[pid]
      && (forall q :: q != pid ==> Of(t.log, q) == Of(s.log, q))
      && t.live == s.live[pid := Process([], None, true, Idle)] && !t.lockFile
      && t.file == Json(1, Replay(s.platform, t.log))
  {
    hide SaneRun;
    hide After;
    hide Plan;
    hide Genuine;
    hide Invariant;
    hide Of;
    hide Replay;
    var steps := [(pid, Record(o))] + SavingRun(pid, now);
    assert steps[1..] == SavingRun(pid, now);
    var u := Do(s, pid, Record(o));
    VisitIsPending(s, original, pid, o);
    FlushMerges(u, original, pid, now);
    LockedIsSaved(u, pid, now);
    hide SavingRun;
    RunUnfolds(s, steps);
  }

  lemma VisitIsPending(s: System, original: File, pid: Pid, o: Observation)
    requires Invariant(s, original) && pid in s.live && s.live[pid].phase.Idle? && s.live[pid].enabled && !s.lockFile
    requires Genuine(s.platform, o)
    ensures
      var t := Do(s, pid, Record(o));
      && Invariant(t, original) && pid in s.made && t.made == s.made[pid := s.made[pid] + [o]]
      && t.log == s.log && t.platform == s.platform && !t.lockFile
      && t.live == s.live[pid := s.live[pid].(pending := s.live[pid].pending + [o], phase := WantLock(Flushing))]
      && t.made[pid] == Of(s.log, pid) + t.live[pid].pending
  {
    hide Genuine;
    assert pid in s.made && Fine(s, pid);
    StepKeeps(s, pid, Record(o), original);
    assert Of(s.log, pid) + s.live[pid].pending == s.made[pid];
    assert Of(s.log, pid) + (s.live[pid].pending + [o]) == s.made[pid] + [o];
  }

  // Under the lock it has just taken, an enabled process merges its unsaved visits.
  lemma FlushMerges(s: System, original: File, pid: Pid, now: nat)
    requires Invariant(s, original) && pid in s.live && s.live[pid].phase == WantLock(Flushing) && s.live[pid].enabled && !s.lockFile
    ensures
      var p := Plan(Do(s, pid, CreateLock), pid, now);
      && p.phase.Merging? && p.enabled && p.phase.contents == Replay(s.platform, p.phase.log)
      && Of(p.phase.log, pid) == Of(s.log, pid) + s.live[pid].pending
      && (forall q :: q != pid ==> Of(p.phase.log, q) == Of(s.log, q))
  {
    hide Readable;
    hide Genuine;
    hide Aged;
    hide AppliedAll;
    hide Replay;
    hide Of;
    var a := Do(s, pid, CreateLock);
    StepKeeps(s, pid, CreateLock, original);
    assert pid in a.made && Fine(a, pid) && Fine(s, pid);
    PlanIsUpToDate(a, pid, now, original);
    var p := Plan(a, pid, now);
    assert p.phase.Merging?;
    var b := With(a, pid, p);
    assert UpToDate(b, pid);
  }

  // Where there is no file, the first process to load adopts its legacy history.
  lemma QuietSeedIsAdopted(s: System, pid: Pid, legacy: seq<Observation>, now: nat, at: nat)
    requires s.file.Missing? && !s.lockFile && Possible(s, pid, Start(legacy, now))
    requires Aged(AppliedAll(s.platform, [], legacy), now) != []
    ensures
      var seed := Aged(AppliedAll(s.platform, [], legacy), now);
      var steps := [(pid, Start(legacy, now))] + SavingRun(pid, at);
      var t := After(s, steps);
      && SaneRun(s, steps) && t.file == Json(1, seed) && t.log == s.log + [Adopted(seed)]
      && t.live == s.live[pid := Process([], None, true, Idle)] && !t.lockFile
  {
    hide SaneRun;
    hide After;
    hide Aged;
    hide AppliedAll;
    hide Genuine;
    hide Readable;
    var steps := [(pid, Start(legacy, now))] + SavingRun(pid, at);
    assert steps[1..] == SavingRun(pid, at);
    var u := Do(s, pid, Start(legacy, now));
    LockedIsSaved(u, pid, at);
    RunUnfolds(s, steps);
  }

  // Where there is one, it starts from the file if the file can be believed, and keeps
  // to itself otherwise.
  lemma LaterStartsReadTheFile(s: System, pid: Pid, legacy: seq<Observation>, now: nat)
    requires !s.file.Missing? && Possible(s, pid, Start(legacy, now))
    ensures
      var t := Do(s, pid, Start(legacy, now));
      t.live == s.live[pid := Process([], None, ReadDatabase(s.platform, s.file).Loaded?, Idle)] && t.file == s.file && t.log == s.log
  {
  }

  // ---- the lock comes free ----

  // A holder that dies or cannot remove the lock file leaves it behind.
  predicate Abandons(s: System, pid: Pid, a: Action) {
    a.FailUnlock? || (a.Crash? && pid in s.live && Critical(s.live[pid].phase))
  }

  // A run in which no live lock is stolen and no lock file is left behind.
  ghost predicate Orderly(s: System, steps: seq<(Pid, Action)>)
    decreases |steps|
  {
    steps != [] ==>
      && Possible(s, steps[0].0, steps[0].1) && !StealsLiveLock(s, steps[0].1) && !Abandons(s, steps[0].0, steps[0].1)
      && Orderly(Do(s, steps[0].0, steps[0].1), steps[1..])
  }

  // The lock file stands for the one process that works under it.
  ghost predicate LockIsHeld(s: System) {
    Exclusive(s) && (s.lockFile ==> exists p :: p in s.live && Critical(s.live[p].phase))
  }

  lemma HolderStays(s: System, pid: Pid, a: Action)
    requires Possible(s, pid, a) && !Abandons(s, pid, a)
    ensures
      var t := Do(s, pid, a);
      && (forall q :: q in s.live && q != pid ==> q in t.live && t.live[q] == s.live[q])
      && (t.lockFile && pid in s.live && Critical(s.live[pid].phase) ==> pid in t.live && Critical(t.live[pid].phase))
      && (t.lockFile && !s.lockFile ==> pid in t.live && Critical(t.live[pid].phase))
  {
    hide Plan;
    hide Aged;
    hide AppliedAll;
    hide ReadDatabase;
    hide Genuine;
    if a.Read? { PlanStaysCritical(s, pid, a.now); }
  }

  lemma LockStepHeld(s: System, pid: Pid, a: Action)
    requires LockIsHeld(s) && Possible(s, pid, a) && !StealsLiveLock(s, a) && !Abandons(s, pid, a)
    ensures LockIsHeld(Do(s, pid, a))
  {
    hide Do;
    hide Possible;
    hide Exclusive;
    hide Critical;
    StepStaysExclusive(s, pid, a);
    HolderStays(s, pid, a);
  }

  // In every orderly run, from a free disk, the lock file is there exactly while some
  // process works under it: every save, failed save, refused file and failed lock write
  // gives it back.
  lemma {:induction false} LockComesFree(s: System, steps: seq<(Pid, Action)>)
    requires LockIsHeld(s) && Orderly(s, steps)
    ensures
      var t := After(s, steps);
      t.lockFile <==> exists p :: p in t.live && Critical(t.live[p].phase)
    ensures LockIsHeld(After(s, steps))
    decreases |steps|
  {
    hide Do;
    hide Possible;
    hide StealsLiveLock;
    hide Abandons;
    if steps != [] {
      LockStepHeld(s, steps[0].0, steps[0].1);
      LockComesFree(Do(s, steps[0].0, steps[0].1), steps[1..]);
    }
  }
}
