// Several processes sharing one directory history file
// (nebula_app/src/directory_history.rs over nebula_app/src/atomic_file.rs).
//
// Every process keeps its own unsaved observations and merges them into the file
// under a lock file. The steps below are the file-system actions of all processes,
// interleaved in any order; crashes, failed locks and failed saves included. The
// log is the history of what the file contains, kept only to state the theorems.
module DirectoryProtocol {
  import opened Text
  import opened DirectoryPaths
  import opened DirectoryDatabase

  type Pid = nat

  const DATABASE_VERSION := 1

  // ---- the file ----

  datatype File = Missing | Unreadable | Json(version: nat, entries: seq<Entry>)

  datatype ReadResult = Absent | Loaded(entries: seq<Entry>) | Refused

  function ReadDatabase(platform: Platform, file: File): ReadResult {
    match file
    case Missing => Absent
    case Unreadable => Refused
    case Json(version, entries) =>
      if version == DATABASE_VERSION && Readable(platform, entries) then Loaded(entries) else Refused
  }

  // ---- the history of the file's contents ----

  datatype Event =
    | Existing(entries: seq<Entry>)
    | Created
    | Adopted(seed: seq<Entry>)
    | Observed(pid: Pid, observation: Observation)
    | Aging(now: nat)

  predicate Origin(e: Event) { e.Existing? || e.Created? || e.Adopted? }

  function Effect(platform: Platform, before: seq<Entry>, e: Event): seq<Entry> {
    match e
    case Existing(entries) => entries
    case Created => []
    case Adopted(seed) => seed
    case Observed(_, o) => Applied(platform, before, o)
    case Aging(now) => Aged(before, now)
  }

  // The contents a history describes.
  function Replay(platform: Platform, log: seq<Event>): seq<Entry> {
    if log == [] then [] else Effect(platform, Replay(platform, log[..|log| - 1]), log[|log| - 1])
  }

  // One process's observations in the history, in order.
  function Of(log: seq<Event>, pid: Pid): seq<Observation> {
    if log == [] then []
    else
      var e := log[|log| - 1];
      Of(log[..|log| - 1], pid) + (if e.Observed? && e.pid == pid then [e.observation] else [])
  }

  function Signed(pid: Pid, os: seq<Observation>): seq<Event> {
    seq(|os|, i requires 0 <= i < |os| => Observed(pid, os[i]))
  }

  // ---- processes ----

  // Loading saves a migrated seed once; flushing merges pending observations.
  datatype Task = Loading | Flushing

  datatype Phase =
    | Idle
    | WantLock(task: Task)
    | Reclaiming(task: Task)    // judged the lock file stale, about to remove it
    | Recreating(task: Task)    // removed it, about to create its own
    | Holding(task: Task)
    | Merging(contents: seq<Entry>, log: seq<Event>)   // read and merged, about to rename
    | Renamed
    | Unlocking

  datatype Process = Process(pending: seq<Observation>, seed: Option<seq<Entry>>, enabled: bool, phase: Phase)

  datatype System = System(
    platform: Platform, file: File, lockFile: bool, live: map<Pid, Process>,
    made: map<Pid, seq<Observation>>,   // everything each process ever recorded
    log: seq<Event>)

  predicate Critical(phase: Phase) {
    phase.Holding? || phase.Merging? || phase.Renamed? || phase.Unlocking?
  }

  datatype Action =
    | Start(legacy: seq<Observation>, now: nat)
    | Record(observation: Observation)
    | CreateLock | FindBusy | FindStale | RemoveStale | Recreate | GiveUp | FailLockWrite
    | Read(now: nat)
    | Rename | FailSave | FinishSave | FailAfterRename
    | Unlock | FailUnlock
    | Crash

  function With(s: System, pid: Pid, p: Process): System { s.(live := s.live[pid := p]) }

  predicate Possible(s: System, pid: Pid, a: Action) {
    if a.Start? then pid !in s.made && pid !in s.live && forall i :: 0 <= i < |a.legacy| ==> Genuine(s.platform, a.legacy[i])
    else
      && pid in s.live
      && var p := s.live[pid];
         match a
         case Start(_, _) => false
         case Record(o) => p.phase.Idle? && Genuine(s.platform, o)
         case CreateLock => p.phase.WantLock? && !s.lockFile
         case FindBusy => p.phase.WantLock? && s.lockFile
         case FindStale => p.phase.WantLock? && s.lockFile
         case RemoveStale => p.phase.Reclaiming?
         case Recreate => p.phase.Recreating? && !s.lockFile
         case GiveUp => p.phase.WantLock? || p.phase.Reclaiming? || p.phase.Recreating?
         case FailLockWrite => p.phase.Holding?
         case Read(_) => p.phase.Holding?
         case Rename => p.phase.Merging?
         case FailSave => p.phase.Merging?
         case FinishSave => p.phase.Renamed?
         case FailAfterRename => p.phase.Renamed?
         case Unlock => p.phase.Unlocking?
         case FailUnlock => p.phase.Unlocking?
         case Crash => true
  }

  // What a process plans to write after reading the file under the lock, and the
  // history it will then stand for.
  function Plan(s: System, pid: Pid, now: nat): Process
    requires pid in s.live && s.live[pid].phase.Holding?
  {
    var p := s.live[pid];
    match (p.phase.task, ReadDatabase(s.platform, s.file))
    case (_, Refused) => p.(enabled := false, phase := Unlocking, seed := if p.phase.task.Loading? then None else p.seed)
    case (Loading, Loaded(_)) => p.(seed := None, phase := Unlocking)
    case (Loading, Absent) =>
      var seed := if p.seed.Some? then p.seed.value else [];
      p.(phase := Merging(seed, s.log + [Adopted(seed)]))
    case (Flushing, Loaded(entries)) =>
      p.(phase := Merging(Aged(AppliedAll(s.platform, entries, p.pending), now), s.log + Signed(pid, p.pending) + [Aging(now)]))
    case (Flushing, Absent) =>
      var origin := if p.seed.Some? then Adopted(p.seed.value) else Created;
      var base := if p.seed.Some? then p.seed.value else [];
      p.(phase := Merging(Aged(AppliedAll(s.platform, base, p.pending), now), s.log + [origin] + Signed(pid, p.pending) + [Aging(now)]))
  }

  function Do(s: System, pid: Pid, a: Action): System
    requires Possible(s, pid, a)
  {
    match a
    case Start(legacy, now) =>
      var seed := Aged(AppliedAll(s.platform, [], legacy), now);
      var p := match ReadDatabase(s.platform, s.file)
               case Loaded(_) => Process([], None, true, Idle)
               case Refused => Process([], None, false, Idle)
               case Absent => if seed == [] then Process([], None, true, Idle) else Process([], Some(seed), true, WantLock(Loading));
      With(s, pid, p).(made := s.made[pid := []])
    case Record(o) =>
      var p := s.live[pid];
      With(s, pid, p.(pending := p.pending + [o], phase := if p.enabled then WantLock(Flushing) else Idle))
        .(made := s.made[pid := (if pid in s.made then s.made[pid] else []) + [o]])
    case CreateLock => With(s, pid, s.live[pid].(phase := Holding(s.live[pid].phase.task))).(lockFile := true)
    case FindBusy => With(s, pid, s.live[pid].(phase := Idle))
    case FindStale => With(s, pid, s.live[pid].(phase := Reclaiming(s.live[pid].phase.task)))
    case RemoveStale => With(s, pid, s.live[pid].(phase := Recreating(s.live[pid].phase.task))).(lockFile := false)
    case Recreate => With(s, pid, s.live[pid].(phase := Holding(s.live[pid].phase.task))).(lockFile := true)
    case GiveUp => With(s, pid, s.live[pid].(phase := Idle))
    case FailLockWrite => With(s, pid, s.live[pid].(phase := Unlocking))
    case Read(now) => With(s, pid, Plan(s, pid, now))
    case Rename =>
      With(s, pid, s.live[pid].(phase := Renamed))
        .(file := Json(DATABASE_VERSION, s.live[pid].phase.contents), log := s.live[pid].phase.log)
    case FailSave => With(s, pid, s.live[pid].(phase := Unlocking))
    case FinishSave => With(s, pid, s.live[pid].(pending := [], seed := None, phase := Unlocking))
    case FailAfterRename => With(s, pid, s.live[pid].(phase := Unlocking))
    case Unlock => With(s, pid, s.live[pid].(phase := Idle)).(lockFile := false)
    case FailUnlock => With(s, pid, s.live[pid].(phase := Idle))   // the lock file stays behind
    case Crash => s.(live := s.live - {pid})
  }

  function Initial(platform: Platform, file: File): System {
    var log := match ReadDatabase(platform, file)
               case Loaded(entries) => [Existing(entries)]
               case _ => [];
    System(platform, file, false, map[], map[], log)
  }

  // ---- the two hazards ----

  // A lock file is reclaimed although a live process still works under it.
  ghost predicate StealsLiveLock(s: System, a: Action) {
    a.RemoveStale? && exists q :: q in s.live && Critical(s.live[q].phase)
  }

  // The save of some observations reports an error although the new file is already
  // in place.
  predicate MisreportsSave(s: System, pid: Pid, a: Action) {
    a.FailAfterRename? && pid in s.live && s.live[pid].pending != []
  }

  ghost predicate Sane(s: System, pid: Pid, a: Action) { !StealsLiveLock(s, a) && !MisreportsSave(s, pid, a) }

  // ---- runs ----

  // A run of possible steps in which no live lock is stolen.
  ghost predicate Unstolen(s: System, steps: seq<(Pid, Action)>)
    decreases |steps|
  {
    steps != [] ==>
      && Possible(s, steps[0].0, steps[0].1) && !StealsLiveLock(s, steps[0].1)
      && Unstolen(Do(s, steps[0].0, steps[0].1), steps[1..])
  }

  // ... and in which no save of observations misreports its outcome either.
  ghost predicate SaneRun(s: System, steps: seq<(Pid, Action)>)
    decreases |steps|
  {
    steps != [] ==>
      && Possible(s, steps[0].0, steps[0].1) && Sane(s, steps[0].0, steps[0].1)
      && SaneRun(Do(s, steps[0].0, steps[0].1), steps[1..])
  }

  // Where a run leads; it ends early at a step that is not possible.
  ghost function After(s: System, steps: seq<(Pid, Action)>): System
    decreases |steps|
  {
    if steps == [] || !Possible(s, steps[0].0, steps[0].1) then s else After(Do(s, steps[0].0, steps[0].1), steps[1..])
  }

  // ---- the invariant ----

  // Observations name their own keys, origins are readable, and an adopted seed has
  // one entry per key.
  ghost predicate Credible(platform: Platform, e: Event) {
    && (e.Observed? ==> Genuine(platform, e.observation))
    && (e.Adopted? ==> Readable(platform, e.seed) && UniqueKeys(platform, e.seed))
    && (e.Existing? ==> Readable(platform, e.entries))
  }

  // The history starts with an origin and has no other.
  ghost predicate WellFormed(platform: Platform, log: seq<Event>) {
    && (log != [] ==> Origin(log[0]))
    && (forall i :: 1 <= i < |log| ==> !Origin(log[i]))
    && (forall i :: 0 <= i < |log| ==> Credible(platform, log[i]))
  }

  // The file is what the history says; without a history it is the untouched original.
  ghost predicate Faithful(s: System, original: File) {
    && WellFormed(s.platform, s.log)
    && Readable(s.platform, Replay(s.platform, s.log))
    && (s.log != [] ==> ReadDatabase(s.platform, original) == if s.log[0].Existing? then Loaded(s.log[0].entries) else Absent)
    && (s.log != [] ==> s.file == Json(DATABASE_VERSION, Replay(s.platform, s.log)))
    && (s.log == [] ==> s.file == original && !ReadDatabase(s.platform, original).Loaded?)
  }

  // Each observation a process made is in the history once, or still pending.
  ghost predicate Accounted(s: System, pid: Pid) {
    pid in s.made &&
    if pid !in s.live then Of(s.log, pid) <= s.made[pid]
    else if s.live[pid].phase.Renamed? then Of(s.log, pid) == s.made[pid]
    else Of(s.log, pid) + s.live[pid].pending == s.made[pid]
  }

  // A process about to rename holds the current contents plus its own observations.
  ghost predicate UpToDate(s: System, pid: Pid) {
    pid in s.live && s.live[pid].phase.Merging? ==>
      var p := s.live[pid];
      && WellFormed(s.platform, p.phase.log) && p.phase.log != []
      && p.phase.contents == Replay(s.platform, p.phase.log) && Readable(s.platform, p.phase.contents)
      && (if s.log == [] then ReadDatabase(s.platform, s.file).Absent? && !p.phase.log[0].Existing? else p.phase.log[0] == s.log[0])
      && Of(p.phase.log, pid) == Of(s.log, pid) + p.pending
      && forall q :: q != pid ==> Of(p.phase.log, q) == Of(s.log, q)
  }

  ghost predicate Exclusive(s: System) {
    && (forall p, q :: p in s.live && q in s.live && Critical(s.live[p].phase) && Critical(s.live[q].phase) ==> p == q)
    && (forall p :: p in s.live && Critical(s.live[p].phase) ==> s.lockFile)
  }

  predicate StillLoading(phase: Phase) {
    (phase.WantLock? || phase.Reclaiming? || phase.Recreating? || phase.Holding?) && phase.task.Loading?
  }

  // Unsaved observations and seeds are well formed, loading precedes recording, and
  // only a process that may write the file works on it.
  ghost predicate Trustworthy(s: System, pid: Pid) {
    pid in s.live ==>
      && (forall i :: 0 <= i < |s.live[pid].pending| ==> Genuine(s.platform, s.live[pid].pending[i]))
      && (s.live[pid].seed.Some? ==> Readable(s.platform, s.live[pid].seed.value) && UniqueKeys(s.platform, s.live[pid].seed.value))
      && (StillLoading(s.live[pid].phase) ==> s.live[pid].pending == [])
      && (s.live[pid].enabled || s.live[pid].phase.Idle? || s.live[pid].phase.Unlocking?)
      && (ReadDatabase(s.platform, s.file).Refused? ==> !s.live[pid].enabled)
  }

  ghost predicate Fine(s: System, pid: Pid) { Accounted(s, pid) && UpToDate(s, pid) && Trustworthy(s, pid) }

  ghost predicate Consistent(s: System, original: File) {
    && Faithful(s, original)
    && s.live.Keys <= s.made.Keys
    && (forall pid :: pid in s.made ==> Fine(s, pid))
    && (forall pid :: pid !in s.made ==> Of(s.log, pid) == [])
  }

  ghost predicate Invariant(s: System, original: File) { Consistent(s, original) && Exclusive(s) }

  // ---- facts about histories ----

  lemma {:induction false} OfConcat(a: seq<Event>, b: seq<Event>, pid: Pid)
    ensures Of(a + b, pid) == Of(a, pid) + Of(b, pid)
    decreases |b|
  {
    if b == [] {
      assert a + b == a;
    } else {
      var n := |b| - 1;
      assert (a + b)[..|a| + n] == a + b[..n];
      OfConcat(a, b[..n], pid);
    }
  }

  lemma {:induction false} OfSigned(pid: Pid, os: seq<Observation>, q: Pid)
    ensures Of(Signed(pid, os), q) == if q == pid then os else []
  {
    if os != [] {
      var n := |os| - 1;
      assert Signed(pid, os)[..n] == Signed(pid, os[..n]);
      OfSigned(pid, os[..n], q);
      assert os == os[..n] + [os[n]];
    }
  }

  lemma OfOne(e: Event, q: Pid)
    ensures Of([e], q) == if e.Observed? && e.pid == q then [e.observation] else []
  {
    assert [e][..0] == [];
  }

  lemma {:induction false} ReplaySigned(platform: Platform, log: seq<Event>, pid: Pid, os: seq<Observation>)
    ensures Replay(platform, log + Signed(pid, os)) == AppliedAll(platform, Replay(platform, log), os)
  {
    hide Applied;
    if os == [] {
      assert log + Signed(pid, os) == log;
    } else {
      var n, all := |os| - 1, log + Signed(pid, os);
      assert all[..|all| - 1] == log + Signed(pid, os[..n]);
      ReplaySigned(platform, log, pid, os[..n]);
    }
  }

  lemma ReplayLast(platform: Platform, log: seq<Event>, e: Event)
    ensures Replay(platform, log + [e]) == Effect(platform, Replay(platform, log), e)
  {
    hide Effect;
    assert (log + [e])[..|log|] == log;
  }

  lemma {:induction false} AppliedAllReadable(platform: Platform, entries: seq<Entry>, os: seq<Observation>)
    requires Readable(platform, entries) && forall i :: 0 <= i < |os| ==> Genuine(platform, os[i])
    ensures Readable(platform, AppliedAll(platform, entries, os))
    ensures UniqueKeys(platform, entries) ==> UniqueKeys(platform, AppliedAll(platform, entries, os))
  {
    hide Readable;
    hide UniqueKeys;
    hide Applied;
    hide Genuine;
    if os != [] {
      AppliedAllReadable(platform, entries, os[..|os| - 1]);
      AppliedKeepsKeys(platform, AppliedAll(platform, entries, os[..|os| - 1]), os[|os| - 1]);
    }
  }

  lemma AgedReadable(platform: Platform, entries: seq<Entry>, now: nat)
    requires Readable(platform, entries)
    ensures Readable(platform, Aged(entries, now))
    ensures UniqueKeys(platform, entries) ==> UniqueKeys(platform, Aged(entries, now))
  {
    hide Aged;
    AgingThins(platform, entries, now);
  }

  // ---- what a merge writes ----

  // The merged contents replay the extended history, which adds exactly the pending
  // observations of the merging process.
  lemma MergeIsReplay(platform: Platform, log: seq<Event>, base: seq<Entry>, pid: Pid, os: seq<Observation>, now: nat)
    requires base == Replay(platform, log) && Readable(platform, base)
    requires forall i :: 0 <= i < |os| ==> Genuine(platform, os[i])
    ensures
      var all := log + Signed(pid, os) + [Aging(now)];
      var contents := Aged(AppliedAll(platform, base, os), now);
      contents == Replay(platform, all) && Readable(platform, contents)
  {
    hide Readable;
    hide AppliedAll;
    hide Aged;
    hide Genuine;
    ReplaySigned(platform, log, pid, os);
    ReplayLast(platform, log + Signed(pid, os), Aging(now));
    AppliedAllReadable(platform, base, os);
    AgedReadable(platform, AppliedAll(platform, base, os), now);
  }

  lemma MergeAddsOwn(log: seq<Event>, pid: Pid, os: seq<Observation>, now: nat, q: Pid)
    ensures Of(log + Signed(pid, os) + [Aging(now)], q) == Of(log, q) + (if q == pid then os else [])
  {
    OfConcat(log + Signed(pid, os), [Aging(now)], q);
    OfConcat(log, Signed(pid, os), q);
    OfSigned(pid, os, q);
    OfOne(Aging(now), q);
  }

  lemma MergeStaysWellFormed(platform: Platform, log: seq<Event>, pid: Pid, os: seq<Observation>, now: nat)
    requires WellFormed(platform, log) && log != []
    requires forall i :: 0 <= i < |os| ==> Genuine(platform, os[i])
    ensures WellFormed(platform, log + Signed(pid, os) + [Aging(now)])
  {
    hide Genuine;
    hide UniqueKeys;
    var all := log + Signed(pid, os) + [Aging(now)];
    forall i | 0 <= i < |all| ensures (i > 0 ==> !Origin(all[i])) && Credible(platform, all[i]) {
      if i < |log| { assert all[i] == log[i]; }
      else if i < |log| + |os| { assert all[i] == Observed(pid, os[i - |log|]); }
    }
  }

  // Merging on top of a history that agrees with the current one about observations.
  lemma MergeIsUpToDate(s: System, pid: Pid, log: seq<Event>, base: seq<Entry>, now: nat)
    requires pid in s.live && Trustworthy(s, pid)
    requires WellFormed(s.platform, log) && log != [] && base == Replay(s.platform, log) && Readable(s.platform, base)
    requires if s.log == [] then ReadDatabase(s.platform, s.file).Absent? && !log[0].Existing? else log[0] == s.log[0]
    requires forall q :: Of(log, q) == Of(s.log, q)
    ensures
      var p := s.live[pid];
      var next := Merging(Aged(AppliedAll(s.platform, base, p.pending), now), log + Signed(pid, p.pending) + [Aging(now)]);
      UpToDate(With(s, pid, p.(phase := next)), pid)
  {
    hide Readable;
    hide Genuine;
    hide AppliedAll;
    hide Aged;
    hide Replay;
    hide WellFormed;
    var os := s.live[pid].pending;
    MergeIsReplay(s.platform, log, base, pid, os, now);
    MergeStaysWellFormed(s.platform, log, pid, os, now);
    forall q ensures Of(log + Signed(pid, os) + [Aging(now)], q) == Of(s.log, q) + (if q == pid then os else []) {
      MergeAddsOwn(log, pid, os, now, q);
    }
  }

  // The step that plans a merge leaves the planner up to date.
  lemma PlanIsUpToDate(s: System, pid: Pid, now: nat, original: File)
    requires Faithful(s, original) && pid in s.live && s.live[pid].phase.Holding? && Trustworthy(s, pid)
    ensures UpToDate(With(s, pid, Plan(s, pid, now)), pid)
  {
    hide Readable;
    hide Genuine;
    hide AppliedAll;
    hide Aged;
    hide Replay;
    var p := s.live[pid];
    var result := ReadDatabase(s.platform, s.file);
    EmptyIsReadable(s.platform);
    if p.phase.task.Loading? {
      if result.Absent? {
        AdoptionIsUpToDate(s, pid, if p.seed.Some? then p.seed.value else []);
      }
    } else if result.Loaded? {
      MergeIsUpToDate(s, pid, s.log, result.entries, now);
    } else if result.Absent? {
      var origin := if p.seed.Some? then Adopted(p.seed.value) else Created;
      OriginIsNeutral(s.platform, origin);
      assert s.log + [origin] == [origin];
      MergeIsUpToDate(s, pid, [origin], if p.seed.Some? then p.seed.value else [], now);
    }
  }

  lemma OriginIsNeutral(platform: Platform, e: Event)
    requires Origin(e) && Credible(platform, e)
    ensures WellFormed(platform, [e]) && forall q :: Of([e], q) == Of([], q)
    ensures Replay(platform, [e]) == Effect(platform, [], e)
  {
    hide Effect;
    forall q ensures Of([e], q) == [] { OfOne(e, q); }
    assert [] + [e] == [e];
    ReplayLast(platform, [], e);
  }

  lemma EmptyIsReadable(platform: Platform)
    ensures Readable(platform, []) && UniqueKeys(platform, [])
  {
  }

  lemma AdoptionIsUpToDate(s: System, pid: Pid, seed: seq<Entry>)
    requires s.log == [] && pid in s.live && s.live[pid].phase.Holding? && s.live[pid].phase.task.Loading?
    requires ReadDatabase(s.platform, s.file).Absent? && Readable(s.platform, seed) && UniqueKeys(s.platform, seed)
    requires s.live[pid].pending == []
    ensures UpToDate(With(s, pid, s.live[pid].(phase := Merging(seed, s.log + [Adopted(seed)]))), pid)
  {
    hide Readable;
    ReplayLast(s.platform, s.log, Adopted(seed));
    forall q ensures Of(s.log + [Adopted(seed)], q) == Of(s.log, q) {
      OfConcat(s.log, [Adopted(seed)], q);
      OfOne(Adopted(seed), q);
    }
  }

  // ---- every sane step keeps the invariant ----

  // Exclusiveness depends only on who is critical and whether the lock file exists.
  lemma ExclusiveAgain(s: System, t: System, pid: Pid)
    requires Exclusive(s)
    requires forall q :: q in t.live && q != pid ==> q in s.live && t.live[q] == s.live[q]
    requires pid in t.live && Critical(t.live[pid].phase) ==>
               t.lockFile && (if pid in s.live then Critical(s.live[pid].phase) || !s.lockFile else !s.lockFile)
    requires t.lockFile == s.lockFile || t.lockFile || (forall q :: q in s.live && Critical(s.live[q].phase) ==> q == pid)
    requires !t.lockFile ==> !(pid in t.live && Critical(t.live[pid].phase))
    ensures Exclusive(t)
  {
  }

  lemma OutsideStaysExclusive(s: System, pid: Pid, a: Action)
    requires Exclusive(s) && Possible(s, pid, a) && !StealsLiveLock(s, a)
    requires a.Start? || a.Record? || a.FindBusy? || a.FindStale? || a.RemoveStale? || a.GiveUp? || a.Crash?
    ensures Exclusive(Do(s, pid, a))
  {
    hide Exclusive;
    hide ReadDatabase;
    hide AppliedAll;
    hide Aged;
    hide Genuine;
    ExclusiveAgain(s, Do(s, pid, a), pid);
  }

  lemma InsideStaysExclusive(s: System, pid: Pid, a: Action)
    requires Exclusive(s) && Possible(s, pid, a)
    requires !(a.Start? || a.Record? || a.FindBusy? || a.FindStale? || a.RemoveStale? || a.GiveUp? || a.Crash?)
    ensures Exclusive(Do(s, pid, a))
  {
    hide Plan;
    if a.Read? { PlanStaysCritical(s, pid, a.now); }
  }

  lemma StepStaysExclusive(s: System, pid: Pid, a: Action)
    requires Exclusive(s) && Possible(s, pid, a) && !StealsLiveLock(s, a)
    ensures Exclusive(Do(s, pid, a))
  {
    hide Exclusive;
    hide Do;
    if a.Start? || a.Record? || a.FindBusy? || a.FindStale? || a.RemoveStale? || a.GiveUp? || a.Crash? {
      OutsideStaysExclusive(s, pid, a);
    } else {
      InsideStaysExclusive(s, pid, a);
    }
  }

  lemma PlanStaysCritical(s: System, pid: Pid, now: nat)
    requires pid in s.live && s.live[pid].phase.Holding?
    ensures Critical(Plan(s, pid, now).phase)
  {
    hide ReadDatabase;
    hide AppliedAll;
    hide Aged;
    hide Signed;
  }

  lemma OthersDoNotMerge(s: System, pid: Pid, q: Pid)
    requires Exclusive(s) && pid in s.live && Critical(s.live[pid].phase) && q != pid && q in s.live
    ensures !s.live[q].phase.Merging?
  {
  }

  // A process stays fine while neither it nor its part of the history changes.
  lemma UntouchedStaysFine(s: System, t: System, q: Pid)
    requires q in s.made && Fine(s, q) && t.platform == s.platform
    requires q in t.made && t.made[q] == s.made[q] && (q in t.live <==> q in s.live) && (q in s.live ==> t.live[q] == s.live[q])
    requires Of(t.log, q) == Of(s.log, q)
    requires (t.log == s.log && t.file == s.file) ||
             ((q in s.live ==> !s.live[q].phase.Merging?) && !ReadDatabase(t.platform, t.file).Refused?)
    ensures Fine(t, q)
  {
    hide Replay;
    hide Of;
    hide Readable;
    hide Genuine;
    hide WellFormed;
    hide UniqueKeys;
    hide ReadDatabase;
  }

  // A process at work may write the file, and the file can be read.
  lemma BusyMeansReadable(s: System, pid: Pid, original: File)
    requires Consistent(s, original) && pid in s.live && !s.live[pid].phase.Idle? && !s.live[pid].phase.Unlocking?
    ensures s.live[pid].enabled && !ReadDatabase(s.platform, s.file).Refused?
  {
    assert Fine(s, pid);
  }

  lemma PhaseChangeKeeps(s: System, pid: Pid, phase: Phase, lockFile: bool, original: File)
    requires Consistent(s, original) && pid in s.live && (s.live[pid].phase.Renamed? ==> s.live[pid].pending == [])
    requires !phase.Merging? && !phase.Renamed? && (StillLoading(phase) ==> StillLoading(s.live[pid].phase))
    requires phase.Idle? || phase.Unlocking? || s.live[pid].enabled
    ensures Consistent(With(s, pid, s.live[pid].(phase := phase)).(lockFile := lockFile), original)
  {
    hide Replay;
    hide Of;
    hide Readable;
    hide Genuine;
    hide WellFormed;
    hide UniqueKeys;
    hide ReadDatabase;
    var t := With(s, pid, s.live[pid].(phase := phase)).(lockFile := lockFile);
    forall q | q in t.made ensures Fine(t, q) {
      if q == pid { assert Fine(s, q); } else { UntouchedStaysFine(s, t, q); }
    }
  }

  predicate OnlyChangesPhase(a: Action) {
    || a.CreateLock? || a.FindBusy? || a.FindStale? || a.RemoveStale? || a.Recreate? || a.GiveUp?
    || a.FailLockWrite? || a.FailSave? || a.FailAfterRename? || a.Unlock? || a.FailUnlock?
  }

  lemma LockStepKeeps(s: System, pid: Pid, a: Action, original: File)
    requires Consistent(s, original) && Possible(s, pid, a) && !MisreportsSave(s, pid, a) && OnlyChangesPhase(a)
    ensures Consistent(Do(s, pid, a), original)
  {
    hide Consistent;
    if !s.live[pid].phase.Unlocking? { BusyMeansReadable(s, pid, original); }
    var t := Do(s, pid, a);
    PhaseChangeKeeps(s, pid, t.live[pid].phase, t.lockFile, original);
  }

  lemma StartKeeps(s: System, pid: Pid, a: Action, original: File)
    requires Consistent(s, original) && a.Start? && Possible(s, pid, a)
    ensures Consistent(Do(s, pid, a), original)
  {
    hide Replay;
    hide Of;
    hide Readable;
    hide Genuine;
    hide WellFormed;
    hide UniqueKeys;
    hide AppliedAll;
    hide Aged;
    var t := Do(s, pid, a);
    var seed := Aged(AppliedAll(s.platform, [], a.legacy), a.now);
    assert Readable(s.platform, seed) && UniqueKeys(s.platform, seed) by {
      EmptyIsReadable(s.platform);
      AppliedAllReadable(s.platform, [], a.legacy);
      AgedReadable(s.platform, AppliedAll(s.platform, [], a.legacy), a.now);
    }
    forall q | q in t.made ensures Fine(t, q) {
      if q == pid { assert Trustworthy(t, q); } else { UntouchedStaysFine(s, t, q); }
    }
  }

  lemma RecordKeeps(s: System, pid: Pid, a: Action, original: File)
    requires Consistent(s, original) && a.Record? && Possible(s, pid, a)
    ensures Consistent(Do(s, pid, a), original)
  {
    hide Replay;
    hide Of;
    hide Readable;
    hide Genuine;
    hide WellFormed;
    hide UniqueKeys;
    hide ReadDatabase;
    var t := Do(s, pid, a);
    forall q | q in t.made ensures Fine(t, q) {
      if q == pid { assert Fine(s, q); } else { UntouchedStaysFine(s, t, q); }
    }
  }

  lemma PlannerStaysFine(s: System, pid: Pid, now: nat, original: File)
    requires Faithful(s, original) && pid in s.made && Fine(s, pid) && pid in s.live && s.live[pid].phase.Holding?
    ensures Fine(With(s, pid, Plan(s, pid, now)), pid)
  {
    hide Replay;
    hide Of;
    hide Readable;
    hide Genuine;
    hide WellFormed;
    hide UniqueKeys;
    hide AppliedAll;
    hide Aged;
    hide ReadDatabase;
    hide Faithful;
    PlanIsUpToDate(s, pid, now, original);
  }

  lemma ReadKeeps(s: System, pid: Pid, a: Action, original: File)
    requires Consistent(s, original) && a.Read? && Possible(s, pid, a)
    ensures Consistent(Do(s, pid, a), original)
  {
    hide Replay;
    hide Of;
    hide Readable;
    hide Genuine;
    hide WellFormed;
    hide UniqueKeys;
    hide Plan;
    hide Fine;
    var t := Do(s, pid, a);
    PlannerStaysFine(s, pid, a.now, original);
    forall q | q in t.made ensures Fine(t, q) {
      if q != pid { UntouchedStaysFine(s, t, q); }
    }
  }

  lemma RenamerStaysFine(s: System, pid: Pid, original: File)
    requires Faithful(s, original) && pid in s.made && Fine(s, pid) && pid in s.live && s.live[pid].phase.Merging?
    ensures
      var p := s.live[pid];
      var t := With(s, pid, p.(phase := Renamed)).(file := Json(DATABASE_VERSION, p.phase.contents), log := p.phase.log);
      && Faithful(t, original) && Fine(t, pid) && !ReadDatabase(t.platform, t.file).Refused?
      && forall q :: q != pid ==> Of(t.log, q) == Of(s.log, q)
  {
    hide Replay;
    hide Of;
    hide Readable;
    hide Genuine;
    hide WellFormed;
    hide UniqueKeys;
  }

  lemma RenameKeeps(s: System, pid: Pid, original: File)
    requires Consistent(s, original) && Exclusive(s) && Possible(s, pid, Rename)
    ensures Consistent(Do(s, pid, Rename), original)
  {
    hide Replay;
    hide Of;
    hide Readable;
    hide Genuine;
    hide WellFormed;
    hide UniqueKeys;
    hide Exclusive;
    hide Fine;
    hide Faithful;
    hide ReadDatabase;
    var t := Do(s, pid, Rename);
    RenamerStaysFine(s, pid, original);
    forall q | q in t.made ensures Fine(t, q) {
      if q != pid {
        if q in s.live { OthersDoNotMerge(s, pid, q); }
        UntouchedStaysFine(s, t, q);
      }
    }
  }

  lemma FinishKeeps(s: System, pid: Pid, original: File)
    requires Consistent(s, original) && Possible(s, pid, FinishSave)
    ensures Consistent(Do(s, pid, FinishSave), original)
  {
    hide Replay;
    hide Of;
    hide Readable;
    hide Genuine;
    hide WellFormed;
    hide UniqueKeys;
    hide ReadDatabase;
    var t := Do(s, pid, FinishSave);
    forall q | q in t.made ensures Fine(t, q) {
      if q == pid { assert Fine(s, q); } else { UntouchedStaysFine(s, t, q); }
    }
  }

  lemma CrashKeeps(s: System, pid: Pid, original: File)
    requires Consistent(s, original) && Possible(s, pid, Crash)
    ensures Consistent(Do(s, pid, Crash), original)
  {
    hide Replay;
    hide Of;
    hide Readable;
    hide Genuine;
    hide WellFormed;
    hide UniqueKeys;
    hide ReadDatabase;
    var t := Do(s, pid, Crash);
    forall q | q in t.made ensures Fine(t, q) {
      if q == pid { assert Fine(s, q); } else { UntouchedStaysFine(s, t, q); }
    }
  }

  // Only renaming needs the lock for the contents' sake.
  lemma StepStaysConsistent(s: System, pid: Pid, a: Action, original: File)
    requires Consistent(s, original) && (a.Rename? ==> Exclusive(s))
    requires Possible(s, pid, a) && !MisreportsSave(s, pid, a)
    ensures Consistent(Do(s, pid, a), original)
  {
    hide Consistent;
    hide Do;
    hide Exclusive;
    match a
    case Start(_, _) => StartKeeps(s, pid, a, original);
    case Record(_) => RecordKeeps(s, pid, a, original);
    case Read(_) => ReadKeeps(s, pid, a, original);
    case Rename => RenameKeeps(s, pid, original);
    case FinishSave => FinishKeeps(s, pid, original);
    case Crash => CrashKeeps(s, pid, original);
    case _ => LockStepKeeps(s, pid, a, original);
  }

  lemma StepKeeps(s: System, pid: Pid, a: Action, original: File)
    requires Invariant(s, original) && Possible(s, pid, a) && Sane(s, pid, a)
    ensures Invariant(Do(s, pid, a), original)
  {
    hide Consistent;
    hide Exclusive;
    hide Do;
    hide Possible;
    StepStaysConsistent(s, pid, a, original);
    StepStaysExclusive(s, pid, a);
  }

  lemma InitialHolds(platform: Platform, file: File)
    ensures Invariant(Initial(platform, file), file)
  {
    hide Readable;
    var s := Initial(platform, file);
    match ReadDatabase(platform, file) {
      case Loaded(entries) =>
        OriginIsNeutral(platform, Existing(entries));
      case _ => EmptyIsReadable(platform);
    }
  }

  lemma {:induction false} RunKeeps(s: System, steps: seq<(Pid, Action)>, original: File)
    requires Invariant(s, original) && SaneRun(s, steps)
    ensures Invariant(After(s, steps), original)
    decreases |steps|
  {
    hide Invariant;
    hide Do;
    hide Possible;
    hide StealsLiveLock;
    if steps != [] {
      StepKeeps(s, steps[0].0, steps[0].1, original);
      RunKeeps(Do(s, steps[0].0, steps[0].1), steps[1..], original);
    }
  }

  // ---- what a sane run guarantees ----

  // Whatever a well-formed history describes can be read back, and visits and aging
  // never produce a second entry for a key.
  lemma {:induction false} ReplayIsSound(platform: Platform, log: seq<Event>)
    requires WellFormed(platform, log)
    ensures Readable(platform, Replay(platform, log))
    ensures (log != [] && log[0].Existing? ==> UniqueKeys(platform, log[0].entries)) ==> UniqueKeys(platform, Replay(platform, log))
  {
    hide Readable;
    hide UniqueKeys;
    hide Applied;
    hide Aged;
    hide Genuine;
    EmptyIsReadable(platform);
    if log != [] {
      var before, e := log[..|log| - 1], log[|log| - 1];
      assert Credible(platform, e);
      if Origin(e) {
        assert |log| == 1;
      } else {
        assert forall i :: 0 <= i < |before| ==> before[i] == log[i];
        ReplayIsSound(platform, before);
        if e.Observed? { AppliedKeepsKeys(platform, Replay(platform, before), e.observation); }
        if e.Aging? { AgedReadable(platform, Replay(platform, before), e.now); }
      }
    }
  }

  // In every interleaving without the two hazards:
  // - the file replays a history in which each observation of a live process occurs
  //   exactly once, in order, or is still pending, and a crashed process lost at most
  //   a pending tail;
  // - a legacy seed is adopted at most once, and only where there was no file;
  // - a file that cannot be read is never replaced;
  // - what is written can be read again and has one entry per directory key.
  lemma SharedHistoryConserves(platform: Platform, original: File, steps: seq<(Pid, Action)>)
    requires SaneRun(Initial(platform, original), steps)
    ensures
      var s := After(Initial(platform, original), steps);
      && (forall pid :: pid in s.made ==>
            if pid !in s.live then Of(s.log, pid) <= s.made[pid]
            else if s.live[pid].phase.Renamed? then Of(s.log, pid) == s.made[pid]
            else Of(s.log, pid) + s.live[pid].pending == s.made[pid])
      && (s.log == [] ==> s.file == original)
      && (s.log != [] ==> s.file == Json(DATABASE_VERSION, Replay(platform, s.log)))
      && (forall i :: 0 <= i < |s.log| && s.log[i].Adopted? ==> i == 0 && original.Missing?)
      && (ReadDatabase(platform, original).Refused? ==> s.file == original)
      && (s.log != [] ==> ReadDatabase(platform, s.file) == Loaded(Replay(platform, s.log)))
      && ((ReadDatabase(platform, original).Loaded? ==> UniqueKeys(platform, original.entries)) ==>
            UniqueKeys(platform, Replay(platform, s.log)))
  {
    hide Replay;
    hide Of;
    hide Do;
    hide Readable;
    hide UniqueKeys;
    InitialHolds(platform, original);
    RunKeeps(Initial(platform, original), steps, original);
    KeepsPlatform(Initial(platform, original), steps);
    var s := After(Initial(platform, original), steps);
    ReplayIsSound(platform, s.log);
    forall pid | pid in s.made ensures Accounted(s, pid) { assert Fine(s, pid); }
  }

  lemma {:induction false} KeepsPlatform(s: System, steps: seq<(Pid, Action)>)
    ensures After(s, steps).platform == s.platform
    decreases |steps|
  {
    if steps != [] && Possible(s, steps[0].0, steps[0].1) { KeepsPlatform(Do(s, steps[0].0, steps[0].1), steps[1..]); }
  }

  // At most one process ever holds the lock, as long as none is stolen; what saves
  // report does not matter for that.
  lemma {:induction false} LockStaysExclusive(s: System, steps: seq<(Pid, Action)>)
    requires Exclusive(s) && Unstolen(s, steps)
    ensures Exclusive(After(s, steps))
    decreases |steps|
  {
    hide Do;
    hide Possible;
    hide StealsLiveLock;
    hide Exclusive;
    if steps != [] {
      StepStaysExclusive(s, steps[0].0, steps[0].1);
      LockStaysExclusive(Do(s, steps[0].0, steps[0].1), steps[1..]);
    }
  }
}
