// One process's directory history service (nebula_app/src/directory_history.rs):
// recording a visit updates the process's own database and tries to merge all
// unsaved visits into the shared file.
module DirectoryService {
  import opened Text
  import opened DirectoryPaths
  import opened DirectoryDatabase
  import opened DirectoryAging
  import opened DirectoryProtocol

  // What the file system answers to a save.
  datatype SaveOutcome = Saved | NotSaved | SavedButReportedFailed

  // The service's state as a value.
  datatype Store = Store(database: seq<Entry>, pending: seq<Observation>, seed: Option<seq<Entry>>, enabled: bool)

  function Base(result: ReadResult, seed: Option<seq<Entry>>): seq<Entry>
    requires !result.Refused?
  {
    if result.Loaded? then result.entries else if seed.Some? then seed.value else []
  }

  function Merged(platform: Platform, st: Store, file: File, now: nat): seq<Entry>
    requires !ReadDatabase(platform, file).Refused?
  {
    Aged(AppliedAll(platform, Base(ReadDatabase(platform, file), st.seed), st.pending), now)
  }

  function Flushed(platform: Platform, st: Store, file: File, locked: bool, save: SaveOutcome, now: nat): (Store, File) {
    if !st.enabled || (st.pending == [] && st.seed.None?) || !locked then (st, file)
    else if ReadDatabase(platform, file).Refused? then (st.(enabled := false), file)
    else
      var merged := Merged(platform, st, file, now);
      match save
      case Saved => (Store(merged, [], None, true), Json(DATABASE_VERSION, merged))
      case NotSaved => (st, file)
      case SavedButReportedFailed => (st, Json(DATABASE_VERSION, merged))
  }

  function Recorded(platform: Platform, st: Store, o: Observation, now: nat): Store {
    st.(database := Aged(Applied(platform, st.database, o), now), pending := st.pending + [o])
  }

  class SharedFile {
    var file: File
    constructor (file: File)
      ensures this.file == file
    {
      this.file := file;
    }
  }

  class Service {
    const database: Database
    var pending: seq<Observation>
    var unsavedSeed: Option<seq<Entry>>
    var persistenceEnabled: bool

    function View(): Store
      reads this, database
    {
      Store(database.entries, pending, unsavedSeed, persistenceEnabled)
    }

    constructor (platform: Platform, st: Store)
      ensures View() == st && database.platform == platform && fresh(database)
    {
      database := new Database(platform, st.database);
      pending, unsavedSeed, persistenceEnabled := st.pending, st.seed, st.enabled;
    }

    method Flush(disk: SharedFile, locked: bool, save: SaveOutcome, now: nat)
      modifies this, database, disk
      ensures (View(), disk.file) == Flushed(database.platform, old(View()), old(disk.file), locked, save, now)
    {
      hide AppliedAll;
      hide Aged;
      hide Applied;
      if !persistenceEnabled || (pending == [] && unsavedSeed.None?) {
        return;
      }
      if !locked {
        return;
      }
      var read := ReadDatabase(database.platform, disk.file);
      if read.Refused? {
        persistenceEnabled := false;
        return;
      }
      var base := Base(read, unsavedSeed);
      var merged := MergePending(base, now);
      if save != NotSaved {
        disk.file := Json(DATABASE_VERSION, merged);
      }
      if save == Saved {
        database.entries := merged;
        pending := [];
        unsavedSeed := None;
      }
    }

    // The merge loop, on a copy of what the file holds.
    method MergePending(base: seq<Entry>, now: nat) returns (merged: seq<Entry>)
      ensures merged == Aged(AppliedAll(database.platform, base, pending), now)
    {
      hide Applied;
      hide Aged;
      var copy := new Database(database.platform, base);
      var i := 0;
      assert pending[..0] == [];
      while i < |pending|
        invariant 0 <= i <= |pending|
        invariant copy.entries == AppliedAll(database.platform, base, pending[..i])
      {
        assert pending[..i + 1][..i] == pending[..i];
        copy.Apply(pending[i]);
        i := i + 1;
      }
      assert pending[..i] == pending;
      copy.AgeAndLimit(now);
      merged := copy.entries;
    }

    // `observed` is none when the path is not a recordable directory.
    method Record(observed: Option<Observation>, now: nat, disk: SharedFile, locked: bool, save: SaveOutcome, flushedAt: nat)
      returns (ok: bool)
      modifies this, database, disk
      ensures ok == observed.Some?
      ensures observed.None? ==> View() == old(View()) && disk.file == old(disk.file)
      ensures observed.Some? ==>
                (View(), disk.file) ==
                Flushed(database.platform, Recorded(database.platform, old(View()), observed.value, now), old(disk.file), locked, save, flushedAt)
    {
      if observed.None? {
        return false;
      }
      database.Apply(observed.value);
      pending := pending + [observed.value];
      database.AgeAndLimit(now);
      Flush(disk, locked, save, flushedAt);
      ok := true;
    }
  }

  // ---- a flush is a run of the shared protocol ----

  ghost function SaveSteps(s: System, pid: Pid, save: SaveOutcome): (t: System)
    requires pid in s.live && s.live[pid].phase.Merging?
    ensures Possible(t, pid, Unlock)
  {
    if save == NotSaved then Do(s, pid, FailSave)
    else Do(Do(s, pid, Rename), pid, if save == Saved then FinishSave else FailAfterRename)
  }

  ghost function LockedRead(s: System, pid: Pid, now: nat): (t: System)
    requires pid in s.live && s.live[pid].phase == WantLock(Flushing) && !s.lockFile
    ensures pid in t.live && (t.live[pid].phase.Merging? || Possible(t, pid, Unlock))
  {
    Do(Do(s, pid, CreateLock), pid, Read(now))
  }

  ghost function FlushSteps(s: System, pid: Pid, save: SaveOutcome, now: nat): System
    requires pid in s.live && s.live[pid].phase == WantLock(Flushing) && !s.lockFile
  {
    var read := LockedRead(s, pid, now);
    Do(if read.live[pid].phase.Merging? then SaveSteps(read, pid, save) else read, pid, Unlock)
  }

  // Under the lock a flush either gives up on a refused file or has merged.
  lemma FlushPlans(s: System, pid: Pid, now: nat, st: Store)
    requires pid in s.live && s.live[pid].phase == Holding(Flushing)
    requires st.pending == s.live[pid].pending && st.seed == s.live[pid].seed
    ensures
      var p, plan := s.live[pid], Plan(s, pid, now);
      if ReadDatabase(s.platform, s.file).Refused? then plan == p.(enabled := false, phase := Unlocking)
      else plan.phase.Merging? && plan == p.(phase := plan.phase) && plan.phase.contents == Merged(s.platform, st, s.file, now)
  {
    hide AppliedAll;
    hide Aged;
    hide Signed;
    hide Readable;
  }

  lemma SavingEnds(s: System, pid: Pid, save: SaveOutcome)
    requires pid in s.live && s.live[pid].phase.Merging?
    ensures
      var p, t := s.live[pid], SaveSteps(s, pid, save);
      && t.live == s.live[pid := if save == Saved then Process([], None, p.enabled, Unlocking) else p.(phase := Unlocking)]
      && t.file == (if save == NotSaved then s.file else Json(DATABASE_VERSION, p.phase.contents))
  {
    hide Plan;
  }

  // What `Flush` does in one go is what the protocol's steps do one by one.
  lemma FlushIsProtocolRun(s: System, pid: Pid, save: SaveOutcome, now: nat, database: seq<Entry>)
    requires pid in s.live && s.live[pid].phase == WantLock(Flushing) && !s.lockFile
    requires s.live[pid].enabled && (s.live[pid].pending != [] || s.live[pid].seed.Some?)
    ensures
      var p := s.live[pid];
      var t := FlushSteps(s, pid, save, now);
      var (st, file) := Flushed(s.platform, Store(database, p.pending, p.seed, p.enabled), s.file, true, save, now);
      t.live == s.live[pid := Process(st.pending, st.seed, st.enabled, Idle)] && t.file == file && !t.lockFile
  {
    hide Plan;
    hide Merged;
    hide ReadDatabase;
    hide SaveSteps;
    var p := s.live[pid];
    var held := Do(s, pid, CreateLock);
    FlushPlans(held, pid, now, Store(database, p.pending, p.seed, p.enabled));
    var read := Do(held, pid, Read(now));
    if read.live[pid].phase.Merging? { SavingEnds(read, pid, save); }
  }

  // Whatever a flush meets, a store forgets its unsaved visits and its seed only when
  // the file and the database both hold the merge of them; the file changes only under
  // the lock and only to that merge; and writing is given up for good exactly when a
  // flush that holds the lock and has something to save meets a file it refuses.
  lemma FlushLosesNothing(platform: Platform, st: Store, file: File, locked: bool, save: SaveOutcome, now: nat)
    ensures
      var (t, file') := Flushed(platform, st, file, locked, save, now);
      var due := locked && st.enabled && (st.pending != [] || st.seed.Some?);
      var refused := ReadDatabase(platform, file).Refused?;
      && (if due && !refused && save == Saved
          then file' == Json(1, Merged(platform, st, file, now)) && t == Store(file'.entries, [], None, true)
          else t.pending == st.pending && t.seed == st.seed && t.database == st.database)
      && (file' != file ==> due && !refused && save != NotSaved && file' == Json(1, Merged(platform, st, file, now)))
      && (due && !refused && save != NotSaved ==> file' == Json(1, Merged(platform, st, file, now)))
      && (t.enabled <==> st.enabled && !(due && refused))
  {
    hide Merged;
    hide ReadDatabase;
  }

  // ---- the database after a recorded visit ----

  // The flush behind a recorded visit replaces the database by the merged file.
  predicate Replaces(platform: Platform, st: Store, file: File, locked: bool, save: SaveOutcome) {
    st.enabled && locked && save == Saved && !ReadDatabase(platform, file).Refused?
  }

  // The database a recorded visit is finally applied to: the one in memory, or the file
  // with everything still unsaved.
  function Visitable(platform: Platform, st: Store, file: File, locked: bool, save: SaveOutcome): seq<Entry> {
    if Replaces(platform, st, file, locked, save)
    then AppliedAll(platform, Base(ReadDatabase(platform, file), st.seed), st.pending)
    else st.database
  }

  // The database in memory when `Record` returns.
  function Final(platform: Platform, st: Store, o: Observation, now: nat, file: File, locked: bool, save: SaveOutcome, at: nat): seq<Entry> {
    Flushed(platform, Recorded(platform, st, o, now), file, locked, save, at).0.database
  }

  // It is that database with the visit, aged once; only the time of aging differs.
  lemma FinalIsAged(platform: Platform, st: Store, o: Observation, now: nat, file: File, locked: bool, save: SaveOutcome, at: nat)
    ensures Final(platform, st, o, now, file, locked, save, at) ==
            Aged(Applied(platform, Visitable(platform, st, file, locked, save), o),
                 if Replaces(platform, st, file, locked, save) then at else now)
  {
    hide Applied;
    hide Aged;
    hide ReadDatabase;
    assert (st.pending + [o])[..|st.pending|] == st.pending;
  }

  // Recording can drop the directory it records. It is in the database when the call
  // returns if and only if, in the database the visit is finally applied to, an entry
  // for it does not fade and fewer than 2,048 entries that do not fade go before it.
  lemma RecordedVisitStaysExactly(platform: Platform, st: Store, o: Observation, now: nat,
                                  file: File, locked: bool, save: SaveOutcome, at: nat)
    ensures Some(o.normalized) in Keys(platform, Final(platform, st, o, now, file, locked, save, at)) <==>
            Survives(platform, Applied(platform, Visitable(platform, st, file, locked, save), o), Some(o.normalized),
                     if Replaces(platform, st, file, locked, save) then at else now)
  {
    hide Keys;
    hide Aged;
    hide Applied;
    hide Final;
    hide Survives;
    hide Visitable;
    hide Replaces;
    FinalIsAged(platform, st, o, now, file, locked, save, at);
    KeySurvivesExactly(platform, Applied(platform, Visitable(platform, st, file, locked, save), o), Some(o.normalized),
                       if Replaces(platform, st, file, locked, save) then at else now);
  }

  // Where the directory has at most one entry, this is a matter of its new rank.
  lemma RecordedVisitStaysByRank(platform: Platform, st: Store, o: Observation, now: nat,
                                 file: File, locked: bool, save: SaveOutcome, at: nat)
    requires
      var entries := Visitable(platform, st, file, locked, save);
      Readable(platform, entries) && AtMostOnce(platform, entries, Some(o.normalized)) && Genuine(platform, o)
    ensures
      var entries := Visitable(platform, st, file, locked, save);
      var aged := if Replaces(platform, st, file, locked, save) then at else now;
      Some(o.normalized) in Keys(platform, Final(platform, st, o, now, file, locked, save, at)) <==>
        && !Faint(Total(entries) + 1.0, Visited(platform, entries, o).rank)
        && Preceding(Unfaded(Total(entries) + 1.0, entries), Visited(platform, entries, o), aged) < MAX_ENTRIES
  {
    hide Keys;
    hide Aged;
    hide Applied;
    hide Final;
    hide Visitable;
    hide Replaces;
    hide Readable;
    hide AtMostOnce;
    hide Genuine;
    hide Total;
    hide Faint;
    hide Preceding;
    FinalIsAged(platform, st, o, now, file, locked, save, at);
    VisitIsKeptExactly(platform, Visitable(platform, st, file, locked, save), o,
                       if Replaces(platform, st, file, locked, save) then at else now);
  }

  // Where total rank is 10,000, in memory or only in the file that other processes have
  // filled, a first visit is gone when the call that records it returns.
  lemma VisitFadesHappens(platform: Platform, now: nat, at: nat)
    ensures
      var full, o := [Entry("b", 10_000.0, 0)], Observation("a", "a", now);
      && Genuine(platform, o) && Readable(platform, full) && UniqueKeys(platform, full)
      && Some("a") !in Keys(platform, Final(platform, Store(full, [], None, true), o, now, Missing, false, Saved, at))
      && Some("a") !in Keys(platform, Final(platform, Store([], [], None, true), o, now, Json(DATABASE_VERSION, full), true, Saved, at))
      && Some("a") in Keys(platform, Final(platform, Store([], [], None, true), o, now, Json(DATABASE_VERSION, full), false, Saved, at))
  {
    hide Aged;
    hide Final;
    hide Keys;
    var full, o := [Entry("b", 10_000.0, 0)], Observation("a", "a", now);
    assert Folded("a") == "a";
    FirstVisitFades(platform, o, now);
    FirstVisitFades(platform, o, at);
    FinalIsAged(platform, Store(full, [], None, true), o, now, Missing, false, Saved, at);
    FinalIsAged(platform, Store([], [], None, true), o, now, Json(DATABASE_VERSION, full), true, Saved, at);
    FinalIsAged(platform, Store([], [], None, true), o, now, Json(DATABASE_VERSION, full), false, Saved, at);
    FirstVisitStays(platform, o, now);
  }

  lemma FirstVisitStays(platform: Platform, o: Observation, now: nat)
    requires Genuine(platform, o)
    ensures Some(o.normalized) in Keys(platform, Aged(Applied(platform, [], o), now))
  {
    hide Aged;
    hide Applied;
    hide Keys;
    hide Genuine;
    assert Total([]) == 0.0;
    VisitIsKeptExactly(platform, [], o, now);
  }

  // Whatever the flush does, the database in memory stays readable and within its
  // bounds, and has one entry per key exactly when no two survivors share one; that is
  // so when the file it may have been read from had one entry per key.
  lemma RecordingStaysSound(platform: Platform, st: Store, o: Observation, now: nat,
                            file: File, locked: bool, save: SaveOutcome, at: nat)
    requires Readable(platform, st.database) && Genuine(platform, o)
    requires forall i :: 0 <= i < |st.pending| ==> Genuine(platform, st.pending[i])
    requires st.seed.Some? ==> Readable(platform, st.seed.value)
    ensures
      var db := Final(platform, st, o, now, file, locked, save, at);
      && Readable(platform, db) && Total(db) <= MAX_TOTAL_RANK && |db| <= MAX_ENTRIES
      && (UniqueKeys(platform, db) <==>
          SurvivorsDiffer(platform, Applied(platform, Visitable(platform, st, file, locked, save), o),
                          if Replaces(platform, st, file, locked, save) then at else now))
    ensures
      var origin := if Replaces(platform, st, file, locked, save) then Base(ReadDatabase(platform, file), st.seed) else st.database;
      UniqueKeys(platform, origin) ==> UniqueKeys(platform, Final(platform, st, o, now, file, locked, save, at))
  {
    hide Aged;
    hide Applied;
    hide AppliedAll;
    hide Final;
    hide Genuine;
    hide Readable;
    hide UniqueKeys;
    hide SurvivorsDiffer;
    hide Total;
    var visitable := Visitable(platform, st, file, locked, save);
    var aged := if Replaces(platform, st, file, locked, save) then at else now;
    FinalIsAged(platform, st, o, now, file, locked, save, at);
    if Replaces(platform, st, file, locked, save) {
      EmptyIsReadable(platform);
      AppliedAllReadable(platform, Base(ReadDatabase(platform, file), st.seed), st.pending);
    }
    AppliedKeepsKeys(platform, visitable, o);
    ReadableIsPositive(platform, Applied(platform, visitable, o));
    AgedIsBounded(Applied(platform, visitable, o), aged);
    AgedReadable(platform, Applied(platform, visitable, o), aged);
    AgedUniqueExactly(platform, Applied(platform, visitable, o), aged);
  }

  lemma ReadableIsPositive(platform: Platform, entries: seq<Entry>)
    requires Readable(platform, entries)
    ensures Positive(entries)
  {
  }

  // A file that repeats a key is accepted, and a saved visit brings it into memory.
  lemma RepeatedKeysHappen(platform: Platform, now: nat, at: nat)
    ensures
      var twice, o := [Entry("b", 1.0, 0), Entry("b", 1.0, 0)], Observation("a", "a", now);
      && Genuine(platform, o) && ReadDatabase(platform, Json(DATABASE_VERSION, twice)) == Loaded(twice)
      && !UniqueKeys(platform, Final(platform, Store([], [], None, true), o, now, Json(DATABASE_VERSION, twice), true, Saved, at))
  {
    hide Aged;
    hide Final;
    hide Applied;
    hide UniqueKeys;
    var b, o := Entry("b", 1.0, 0), Observation("a", "a", now);
    var twice := [b, b];
    assert Folded("a") == "a" && Folded("b") == "b";
    FinalIsAged(platform, Store([], [], None, true), o, now, Json(DATABASE_VERSION, twice), true, Saved, at);
    VisitBehindOthers(platform, twice, o);
    RepeatedKeysSurvive(platform, b, Entry("a", 1.0, now), at);
    assert twice + [Entry("a", 1.0, now)] == [b, b, Entry("a", 1.0, now)];
  }

  lemma {:induction false} VisitBehindOthers(platform: Platform, entries: seq<Entry>, o: Observation)
    requires forall i :: 0 <= i < |entries| ==> Key(platform, entries[i]) != Some(o.normalized)
    ensures Applied(platform, entries, o) == entries + [Entry(o.path, 1.0, o.at)]
  {
    hide Key;
    if entries != [] {
      VisitBehindOthers(platform, entries[1..], o);
      assert entries == [entries[0]] + entries[1..];
    }
  }

  lemma RepeatedKeysSurvive(platform: Platform, b: Entry, a: Entry, now: nat)
    requires a.rank == 1.0 && b.rank == 1.0
    ensures !UniqueKeys(platform, Aged([b, b, a], now))
  {
    hide Aged;
    hide Place;
    hide Unfaded;
    hide Key;
    hide UniqueKeys;
    var entries := [b, b, a];
    assert entries[1..] == [b, a] && [b, a][1..] == [a] && [a][1..] == [];
    assert Total([a]) == 1.0;
    assert Total([b, a]) == 2.0;
    assert Total(entries) == 3.0;
    NothingFades(3.0, entries);
    RankedAtPlace(entries, 0, now);
    RankedAtPlace(entries, 1, now);
    assert KeptAt(entries, 0, now) && KeptAt(entries, 1, now);
    AgedUniqueExactly(platform, entries, now);
  }
}
