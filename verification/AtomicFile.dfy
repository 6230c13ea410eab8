// Crash-safe replacement of a state file (nebula_app/src/atomic_file.rs): write a
// temporary sibling, then rename it over the destination. The steps of all writers
// in all processes interleave freely, a write may stop anywhere, and a process may
// crash at any point, after which its number can be given to a new one.
module AtomicFile {
  import opened Text

  type Bytes = seq<bv8>
  type Pid = nat

  // A temporary name carries the process number and a per-process sequence number.
  datatype Name = Destination | Temporary(pid: Pid, sequence: nat)

  // One call of `write` on one thread of a process.
  datatype Caller = Caller(pid: Pid, thread: nat)

  datatype Phase = Named | Writing(written: nat) | Synced | Renamed

  datatype Writer = Writer(sequence: nat, payload: Bytes, phase: Phase)

  datatype System = System(
    files: map<Name, Bytes>,
    counters: map<Pid, nat>,          // of the running processes
    writers: map<Caller, Writer>,
    submitted: set<Bytes>)            // every payload ever passed to `write`

  datatype Action =
    | Spawn(pid: Pid)
    | Begin(caller: Caller, payload: Bytes)
    | Create(caller: Caller)
    | Write(caller: Caller, amount: nat)
    | Sync(caller: Caller)
    | Rename(caller: Caller)
    | Fail(caller: Caller)            // any error: the temporary file is removed
    | Abandon(caller: Caller)         // ... or stays, because removing it failed too
    | Finish(caller: Caller)
    | Crash(pid: Pid)

  function TemporaryOf(c: Caller, w: Writer): Name { Temporary(c.pid, w.sequence) }

  predicate Possible(s: System, a: Action) {
    match a
    case Spawn(pid) => pid !in s.counters
    case Begin(c, _) => c.pid in s.counters && c !in s.writers
    case Create(c) => c in s.writers && s.writers[c].phase.Named? && TemporaryOf(c, s.writers[c]) !in s.files
    case Write(c, n) => c in s.writers && s.writers[c].phase.Writing? && s.writers[c].phase.written + n <= |s.writers[c].payload|
    case Sync(c) => c in s.writers && s.writers[c].phase.Writing? && s.writers[c].phase.written == |s.writers[c].payload|
    case Rename(c) => c in s.writers && s.writers[c].phase.Synced? && TemporaryOf(c, s.writers[c]) in s.files
    case Fail(c) => c in s.writers
    case Abandon(c) => c in s.writers
    case Finish(c) => c in s.writers && s.writers[c].phase.Renamed?
    case Crash(pid) => pid in s.counters
  }

  function Do(s: System, a: Action): System
    requires Possible(s, a)
  {
    match a
    case Spawn(pid) => s.(counters := s.counters[pid := 1])
    case Begin(c, payload) =>
      var n := s.counters[c.pid];
      s.(counters := s.counters[c.pid := n + 1], writers := s.writers[c := Writer(n, payload, Named)], submitted := s.submitted + {payload})
    case Create(c) =>
      var w := s.writers[c];
      s.(files := s.files[TemporaryOf(c, w) := []], writers := s.writers[c := w.(phase := Writing(0))])
    case Write(c, n) =>
      var w := s.writers[c];
      var k := w.phase.written + n;
      s.(files := s.files[TemporaryOf(c, w) := w.payload[..k]], writers := s.writers[c := w.(phase := Writing(k))])
    case Sync(c) => s.(writers := s.writers[c := s.writers[c].(phase := Synced)])
    case Rename(c) =>
      var w := s.writers[c];
      var t := TemporaryOf(c, w);
      s.(files := (s.files - {t})[Destination := s.files[t]], writers := s.writers[c := w.(phase := Renamed)])
    case Fail(c) => s.(files := s.files - {TemporaryOf(c, s.writers[c])}, writers := s.writers - {c})
    case Abandon(c) => s.(writers := s.writers - {c})
    case Finish(c) => s.(writers := s.writers - {c})
    case Crash(pid) =>
      s.(counters := s.counters - {pid}, writers := map c | c in s.writers && c.pid != pid :: s.writers[c])
  }

  ghost predicate IsRun(s: System, actions: seq<Action>)
    decreases |actions|
  {
    actions != [] ==> Possible(s, actions[0]) && IsRun(Do(s, actions[0]), actions[1..])
  }

  ghost function After(s: System, actions: seq<Action>): System
    requires IsRun(s, actions)
    decreases |actions|
  {
    if actions == [] then s else After(Do(s, actions[0]), actions[1..])
  }

  // ---- the invariant ----

  // What a writer has put into its temporary file so far.
  ghost predicate InProgress(s: System, c: Caller)
    requires c in s.writers
  {
    var w := s.writers[c];
    && c.pid in s.counters && w.sequence < s.counters[c.pid] && w.payload in s.submitted
    && (w.phase.Writing? ==>
          && w.phase.written <= |w.payload|
          && TemporaryOf(c, w) in s.files && s.files[TemporaryOf(c, w)] == w.payload[..w.phase.written])
    && (w.phase.Synced? ==> TemporaryOf(c, w) in s.files && s.files[TemporaryOf(c, w)] == w.payload)
  }

  ghost predicate DistinctTemporaries(s: System) {
    forall c, d :: c in s.writers && d in s.writers && TemporaryOf(c, s.writers[c]) == TemporaryOf(d, s.writers[d]) ==> c == d
  }

  // The destination holds its initial content or one whole payload.
  ghost predicate Whole(s: System, initial: Option<Bytes>) {
    if Destination in s.files then s.files[Destination] in s.submitted || initial == Some(s.files[Destination])
    else initial.None?
  }

  ghost predicate Invariant(s: System, initial: Option<Bytes>) {
    && Whole(s, initial) && DistinctTemporaries(s)
    && forall c :: c in s.writers ==> InProgress(s, c)
  }

  // A caller that does not act keeps its file when nobody else can name it.
  lemma OthersKeepTheirFiles(s: System, a: Action, c: Caller, d: Caller)
    requires Possible(s, a) && DistinctTemporaries(s) && c in s.writers && InProgress(s, c) && c != d
    requires a == Create(d) || (a.Write? && a.caller == d) || a == Sync(d) || a == Rename(d) || a == Fail(d) || a == Abandon(d) || a == Finish(d)
    ensures c in Do(s, a).writers && InProgress(Do(s, a), c)
  {
    assert TemporaryOf(c, s.writers[c]) != TemporaryOf(d, s.writers[d]);
  }

  lemma StepKeeps(s: System, a: Action, initial: Option<Bytes>)
    requires Invariant(s, initial) && Possible(s, a)
    ensures Invariant(Do(s, a), initial)
  {
    match a
    case Spawn(pid) =>
      forall c | c in s.writers ensures InProgress(Do(s, a), c) { assert InProgress(s, c); }
    case Begin(d, payload) => BeginKeeps(s, d, payload, initial);
    case Create(d) => WriterKeeps(s, a, d, initial);
    case Write(d, n) => WriterKeeps(s, a, d, initial);
    case Sync(d) => WriterKeeps(s, a, d, initial);
    case Rename(d) => WriterKeeps(s, a, d, initial);
    case Fail(d) => WriterKeeps(s, a, d, initial);
    case Abandon(d) => WriterKeeps(s, a, d, initial);
    case Finish(d) => WriterKeeps(s, a, d, initial);
    case Crash(pid) =>
      forall c | c in Do(s, a).writers ensures InProgress(Do(s, a), c) { assert InProgress(s, c); }
  }

  lemma BeginKeeps(s: System, d: Caller, payload: Bytes, initial: Option<Bytes>)
    requires Invariant(s, initial) && Possible(s, Begin(d, payload))
    ensures Invariant(Do(s, Begin(d, payload)), initial)
  {
    var t := Do(s, Begin(d, payload));
    forall c | c in t.writers ensures InProgress(t, c) {
      if c != d { assert InProgress(s, c); }
    }
    forall b, c | b in t.writers && c in t.writers && TemporaryOf(b, t.writers[b]) == TemporaryOf(c, t.writers[c]) ensures b == c {
      if b != d { assert InProgress(s, b); }
      if c != d { assert InProgress(s, c); }
    }
  }

  lemma WriterKeeps(s: System, a: Action, d: Caller, initial: Option<Bytes>)
    requires Invariant(s, initial) && Possible(s, a)
    requires a == Create(d) || (a.Write? && a.caller == d) || a == Sync(d) || a == Rename(d) || a == Fail(d) || a == Abandon(d) || a == Finish(d)
    ensures Invariant(Do(s, a), initial)
  {
    var t := Do(s, a);
    assert InProgress(s, d);
    var w := s.writers[d];
    assert w.payload[..|w.payload|] == w.payload;
    forall c | c in t.writers ensures InProgress(t, c) {
      if c != d { OthersKeepTheirFiles(s, a, c, d); }
    }
  }

  // In every run, from any files left behind by earlier processes, the destination
  // is never a torn write and no two writers at work share a temporary file.
  lemma {:induction false} RunKeeps(s: System, actions: seq<Action>, initial: Option<Bytes>)
    requires Invariant(s, initial) && IsRun(s, actions)
    ensures Invariant(After(s, actions), initial)
    decreases |actions|
  {
    hide Invariant;
    hide Do;
    hide Possible;
    if actions != [] {
      StepKeeps(s, actions[0], initial);
      RunKeeps(Do(s, actions[0]), actions[1..], initial);
    }
  }

  lemma DestinationIsNeverTorn(files: map<Name, Bytes>, actions: seq<Action>)
    requires IsRun(System(files, map[], map[], {}), actions)
    ensures
      var s := After(System(files, map[], map[], {}), actions);
      && DistinctTemporaries(s)
      && (Destination in s.files ==>
            s.files[Destination] in s.submitted || (Destination in files && s.files[Destination] == files[Destination]))
      && (Destination in files ==> Destination in s.files)
  {
    hide IsRun;
    hide After;
    var start := System(files, map[], map[], {});
    var initial := if Destination in files then Some(files[Destination]) else None;
    RunKeeps(start, actions, initial);
  }

  // ---- which write is seen, and what is left behind ----

  // The payload of the last rename of a run.
  ghost function LastRenamed(s: System, actions: seq<Action>): Option<Bytes>
    requires IsRun(s, actions)
    decreases |actions|
  {
    if actions == [] then None
    else
      var later := LastRenamed(Do(s, actions[0]), actions[1..]);
      if later.Some? then later
      else if actions[0].Rename? then Some(s.writers[actions[0].caller].payload)
      else None
  }

  function AtDestination(s: System): Option<Bytes> {
    if Destination in s.files then Some(s.files[Destination]) else None
  }

  lemma OnlyRenamesShow(s: System, a: Action, initial: Option<Bytes>)
    requires Invariant(s, initial) && Possible(s, a)
    ensures AtDestination(Do(s, a)) == if a.Rename? then Some(s.writers[a.caller].payload) else AtDestination(s)
  {
    if a.Rename? { assert InProgress(s, a.caller); }
  }

  // In every run the destination holds the whole payload of the last rename, and what it
  // held before when there was none.
  lemma {:induction false} LastRenameIsSeen(s: System, actions: seq<Action>, initial: Option<Bytes>)
    requires Invariant(s, initial) && IsRun(s, actions)
    ensures AtDestination(After(s, actions)) ==
            if LastRenamed(s, actions).Some? then LastRenamed(s, actions) else AtDestination(s)
    decreases |actions|
  {
    hide Invariant;
    hide Do;
    hide Possible;
    if actions != [] {
      StepKeeps(s, actions[0], initial);
      OnlyRenamesShow(s, actions[0], initial);
      LastRenameIsSeen(Do(s, actions[0]), actions[1..], initial);
    }
  }

  // Some writer at work is filling this file.
  ghost predicate Filling(s: System, n: Name) {
    exists c :: c in s.writers && TemporaryOf(c, s.writers[c]) == n && (s.writers[c].phase.Writing? || s.writers[c].phase.Synced?)
  }

  // The processes that crashed, or could not clean up, during a run.
  function Careless(actions: seq<Action>): set<Pid> {
    if actions == [] then {}
    else
      (match actions[0]
       case Crash(pid) => {pid}
       case Abandon(c) => {c.pid}
       case _ => {}) + Careless(actions[1..])
  }

  lemma FillingGoesOn(s: System, a: Action, n: Name)
    requires Possible(s, a) && Filling(s, n)
    ensures
      var t := Do(s, a);
      n !in t.files || Filling(t, n) || (a.Crash? && n == Temporary(a.pid, n.sequence)) || (a.Abandon? && n == Temporary(a.caller.pid, n.sequence))
  {
    var c :| c in s.writers && TemporaryOf(c, s.writers[c]) == n && (s.writers[c].phase.Writing? || s.writers[c].phase.Synced?);
    var t := Do(s, a);
    if c in t.writers && t.writers[c].sequence == s.writers[c].sequence && (t.writers[c].phase.Writing? || t.writers[c].phase.Synced?) {
      assert TemporaryOf(c, t.writers[c]) == n;
    }
  }

  lemma NewFilesAreFilled(s: System, a: Action, n: Name)
    requires Possible(s, a) && n.Temporary? && n !in s.files && n in Do(s, a).files
    ensures Filling(Do(s, a), n)
  {
    var t := Do(s, a);
    assert TemporaryOf(a.caller, t.writers[a.caller]) == n;
  }

  // In every run a temporary file that was not there before belongs to a writer at work,
  // or to a process that crashed or could not remove it.
  lemma {:induction false} NoLitter(s: System, actions: seq<Action>, n: Name)
    requires IsRun(s, actions) && n.Temporary? && n in After(s, actions).files
    ensures n in s.files || Filling(After(s, actions), n) || n.pid in Careless(actions)
    decreases |actions|
  {
    hide Do;
    hide Possible;
    hide Filling;
    if actions != [] && n !in s.files {
      var t := Do(s, actions[0]);
      if n in t.files {
        NewFilesAreFilled(s, actions[0], n);
        FilledOrCareless(t, actions[1..], n);
      } else {
        NoLitter(t, actions[1..], n);
      }
    }
  }

  lemma {:induction false} FilledOrCareless(s: System, actions: seq<Action>, n: Name)
    requires IsRun(s, actions) && n.Temporary? && Filling(s, n) && n in After(s, actions).files
    ensures Filling(After(s, actions), n) || n.pid in Careless(actions)
    decreases |actions|
  {
    hide Do;
    hide Possible;
    hide Filling;
    if actions != [] {
      var t := Do(s, actions[0]);
      FillingGoesOn(s, actions[0], n);
      if n !in t.files {
        NoLitter(t, actions[1..], n);
      } else if Filling(t, n) {
        FilledOrCareless(t, actions[1..], n);
      }
    }
  }
}
