// Remote backups (nebula_app/src/backup_remote.rs): a push stores one archive and
// prunes the oldest ones, a pull restores the newest. The remote is a map from
// names to packets; listing order, and whether a listing or a deletion succeeds,
// are up to the backend and so are parameters.
module BackupRetention {
  import opened Text
  import opened Calendar
  import opened ArchiveNames

  type Packet = seq<bv8>
  type Files = map<string, Packet>

  const KEEP_ARCHIVES: nat := 10

  class Remote {
    var files: Files
    constructor (files: Files)
      ensures this.files == files
    {
      this.files := files;
    }
  }

  // ---- what retention means ----

  ghost function Archives(files: Files): set<string> {
    set n | n in files && IsArchiveName(n)
  }

  ghost function Later(files: Files, name: string): set<string> {
    set n | n in Archives(files) && LexLess(name, n)
  }

  // Fewer than ten archives are newer.
  ghost predicate AmongNewest(files: Files, name: string) {
    |Later(files, name)| < 10
  }

  // Exactly the ten newest archives and every file that is not an archive.
  ghost function Pruned(files: Files): Files {
    map n | n in files && (IsArchiveName(n) ==> AmongNewest(files, n)) :: files[n]
  }

  ghost predicate Submap(a: Files, b: Files) {
    a.Keys <= b.Keys && forall n :: n in a ==> a[n] == b[n]
  }

  ghost predicate IsLatest(files: Files, name: string) {
    name in Archives(files) && forall n :: n in Archives(files) ==> n == name || LexLess(n, name)
  }

  ghost predicate Distinct(names: seq<string>) {
    forall i, j :: 0 <= i < j < |names| ==> names[i] != names[j]
  }

  // ---- sorting ----

  // The comparison of `sort_archives`: by timestamp, then by name.
  predicate Before(a: string, b: string) {
    var s, t := ArchiveTimestamp(a), ArchiveTimestamp(b);
    if s == t then LexLess(a, b)
    else s.None? || (t.Some? && LexLess(s.value, t.value))
  }

  lemma ArchiveSpelling(name: string)
    requires IsArchiveName(name)
    ensures name == PREFIX + (ArchiveTimestamp(name).value + SUFFIX) && |ArchiveTimestamp(name).value| == 15
  {
    var rest := name[|PREFIX|..];
    assert name == PREFIX + rest;
    assert rest == rest[..|rest| - |SUFFIX|] + rest[|rest| - |SUFFIX|..];
  }

  // Among archives the comparison is plain string order.
  lemma BeforeIsNameOrder(a: string, b: string)
    requires IsArchiveName(a) && IsArchiveName(b)
    ensures Before(a, b) <==> LexLess(a, b)
  {
    hide LexLess;
    hide ArchiveTimestamp;
    ArchiveSpelling(a);
    ArchiveSpelling(b);
    var s, t := ArchiveTimestamp(a).value, ArchiveTimestamp(b).value;
    LexSameSuffix(s, t, SUFFIX);
    LexSamePrefix(PREFIX, s + SUFFIX, t + SUFFIX);
  }

  function Insert(x: string, names: seq<string>): (r: seq<string>)
    ensures multiset(r) == multiset{x} + multiset(names)
  {
    if names == [] then [x]
    else if Before(names[0], x) then
      assert names == [names[0]] + names[1..];
      [names[0]] + Insert(x, names[1..])
    else
      [x] + names
  }

  function Sort(names: seq<string>): (r: seq<string>)
    ensures multiset(r) == multiset(names)
  {
    if names == [] then []
    else
      assert names == [names[0]] + names[1..];
      Insert(names[0], Sort(names[1..]))
  }

  function OnlyArchives(names: seq<string>): (r: seq<string>)
    ensures forall n :: n in r <==> n in names && IsArchiveName(n)
  {
    if names == [] then []
    else (if IsArchiveName(names[0]) then [names[0]] else []) + OnlyArchives(names[1..])
  }

  // Never decreasing; strictly increasing when the names are distinct.
  ghost predicate Ascending(names: seq<string>) {
    && (forall n :: n in names ==> IsArchiveName(n))
    && (forall i, j :: 0 <= i < j < |names| ==> names[i] == names[j] || LexLess(names[i], names[j]))
  }

  lemma {:induction false} InsertKeepsOrder(x: string, names: seq<string>)
    requires Ascending(names) && IsArchiveName(x)
    ensures Ascending(Insert(x, names))
  {
    hide LexLess;
    hide IsArchiveName;
    var r := Insert(x, names);
    forall n | n in r ensures n == x || n in names {
      assert n in multiset(r);
    }
    if names != [] {
      BeforeIsNameOrder(names[0], x);
      if Before(names[0], x) {
        InsertKeepsOrder(x, names[1..]);
        forall j | 1 <= j < |r| ensures r[0] == r[j] || LexLess(r[0], r[j]) {
          assert r[j] in multiset(Insert(x, names[1..]));
          if r[j] != x { var k :| 0 <= k < |names[1..]| && names[1..][k] == r[j]; assert names[k + 1] == r[j]; }
        }
      } else {
        LexTotal(names[0], x);
        forall j | 0 <= j < |names| ensures x == names[j] || LexLess(x, names[j]) {
          if j > 0 && x != names[0] && names[0] != names[j] { LexTransitive(x, names[0], names[j]); }
        }
      }
    }
  }

  lemma {:induction false} SortAscends(names: seq<string>)
    requires forall n :: n in names ==> IsArchiveName(n)
    ensures Ascending(Sort(names))
  {
    if names != [] {
      SortAscends(names[1..]);
      InsertKeepsOrder(names[0], Sort(names[1..]));
    }
  }

  lemma SameMembers(a: seq<string>, b: seq<string>)
    requires multiset(a) == multiset(b)
    ensures |a| == |b|
    ensures forall n :: n in a <==> n in b
    ensures Distinct(a) ==> Distinct(b)
  {
    assert |a| == |multiset(a)| && |b| == |multiset(b)|;
    forall n ensures n in a <==> n in b { assert n in multiset(a) <==> n in multiset(b); }
    if Distinct(a) {
      forall i, j | 0 <= i < j < |b| ensures b[i] != b[j] {
        if b[i] == b[j] {
          TwiceCounts(b, i, j);
          DistinctCountsOnce(a, b[i]);
        }
      }
    }
  }

  lemma TwiceCounts(s: seq<string>, i: nat, j: nat)
    requires i < j < |s| && s[i] == s[j]
    ensures multiset(s)[s[i]] >= 2
  {
    assert s == s[..j] + [s[j]] + s[j + 1..];
    assert s[i] in s[..j];
  }

  lemma {:induction false} DistinctCountsOnce(s: seq<string>, x: string)
    requires Distinct(s)
    ensures multiset(s)[x] <= 1
  {
    if s != [] {
      DistinctCountsOnce(s[1..], x);
      assert s == [s[0]] + s[1..];
    }
  }

  // ---- the sorted listing and the archives it ranks ----

  // A listing shows every stored archive. It may repeat names, name files that are not
  // there, and name files that are not archives.
  ghost predicate Covers(listing: seq<string>, files: Files) {
    forall n :: n in Archives(files) ==> n in listing
  }

  function SortedArchives(listing: seq<string>): seq<string> { Sort(OnlyArchives(listing)) }

  // `names` ranks all the archives in `files`, possibly with repeats and absent names.
  ghost predicate Ranks(names: seq<string>, files: Files) {
    Ascending(names) && Covers(names, files)
  }

  lemma {:induction false} DistinctSize(names: seq<string>)
    ensures |Members(names)| <= |names|
    ensures |Members(names)| == |names| <==> Distinct(names)
  {
    if names != [] {
      var n := |names| - 1;
      var front := names[..n];
      DistinctSize(front);
      assert names == front + [names[n]];
      assert Members(names) == Members(front) + {names[n]};
      if Distinct(names) { DistinctFront(names); }
      if Distinct(front) && names[n] !in front { DistinctBack(names); }
    }
  }

  lemma DistinctFront(names: seq<string>)
    requires names != [] && Distinct(names)
    ensures Distinct(names[..|names| - 1]) && names[|names| - 1] !in names[..|names| - 1]
  {
  }

  lemma DistinctBack(names: seq<string>)
    requires names != [] && Distinct(names[..|names| - 1]) && names[|names| - 1] !in names[..|names| - 1]
    ensures Distinct(names)
  {
    var n := |names| - 1;
    forall i, j | 0 <= i < j < |names| ensures names[i] != names[j] {
      assert names[..n][i] == names[i];
      if j < n { assert names[..n][j] == names[j]; }
    }
  }

  ghost function Members(names: seq<string>): set<string> { set n | n in names }

  // Every archive newer than the one at `i` is ranked behind it.
  lemma LaterIsBehind(files: Files, names: seq<string>, i: nat)
    requires Ranks(names, files) && i < |names|
    ensures Later(files, names[i]) <= Members(names[i + 1..])
  {
    hide LexLess;
    hide IsArchiveName;
    var behind := names[i + 1..];
    forall n | n in Later(files, names[i]) ensures n in behind {
      assert n in names;
      var k :| 0 <= k < |names| && names[k] == n;
      LexIrreflexive(n);
      if k < i { LexTransitive(names[k], names[i], names[k]); }
      assert k > i && behind[k - i - 1] == n;
    }
  }

  lemma SortedListing(listing: seq<string>, files: Files)
    ensures
      var names := SortedArchives(listing);
      && Ascending(names) && |names| == |OnlyArchives(listing)|
      && (forall n :: n in names <==> n in listing && IsArchiveName(n))
      && (Covers(listing, files) ==> Ranks(names, files) && |Archives(files)| <= |names|)
  {
    hide IsArchiveName;
    var picked := OnlyArchives(listing);
    SortAscends(picked);
    SameMembers(picked, Sort(picked));
    DistinctSize(Sort(picked));
    if Covers(listing, files) { NoBigger(Archives(files), Members(Sort(picked))); }
  }

  // What is left after the first `i` names of the sorted listing are deleted.
  ghost function Without(files: Files, names: seq<string>, i: nat): Files
    requires i <= |names|
  {
    files - (set n | n in names[..i])
  }

  function Surplus(names: seq<string>): (n: nat)
    ensures n <= |names|
  {
    |names| - Min(|names|, KEEP_ARCHIVES)
  }

  // The ten greatest names are stored archives, and the eleven greatest do not repeat.
  ghost predicate NewestListedOnce(names: seq<string>, files: Files) {
    && |names| > KEEP_ARCHIVES && Distinct(names[Surplus(names) - 1..])
    && forall n :: n in names[Surplus(names)..] ==> n in files
  }

  // None of the surplus names is stored.
  ghost predicate NothingSurplus(names: seq<string>, files: Files) {
    forall n :: n in names[..Surplus(names)] ==> n !in files
  }

  // The condition under which counting names is counting archives.
  ghost predicate CountsArchives(names: seq<string>, files: Files) {
    NothingSurplus(names, files) || NewestListedOnce(names, files)
  }

  lemma NoBigger(a: set<string>, b: set<string>)
    requires a <= b
    ensures |a| <= |b| && (|a| == |b| ==> a == b)
  {
    assert b == a + (b - a);
  }

  lemma NeverLaterThanItself(files: Files, name: string)
    ensures name !in Later(files, name)
  {
    LexIrreflexive(name);
  }

  // The last ten names are among the newest, whatever else is listed.
  lemma LastNamesAreNewest(files: Files, names: seq<string>, k: nat)
    requires Ranks(names, files) && Surplus(names) <= k < |names|
    ensures AmongNewest(files, names[k])
  {
    hide Ranks;
    hide Later;
    LaterIsBehind(files, names, k);
    DistinctSize(names[k + 1..]);
    NoBigger(Later(files, names[k]), Members(names[k + 1..]));
  }

  // With the newest listed once, every surplus name has ten newer archives.
  lemma SurplusIsOld(files: Files, names: seq<string>, j: nat)
    requires Ranks(names, files) && NewestListedOnce(names, files) && j < Surplus(names)
    ensures !AmongNewest(files, names[j])
  {
    hide IsArchiveName;
    hide LexLess;
    var excess := Surplus(names);
    var last, eleven := names[excess..], names[excess - 1..];
    assert Distinct(last) by {
      forall a, b | 0 <= a < b < |last| ensures last[a] != last[b] {
        assert eleven[a + 1] == last[a] && eleven[b + 1] == last[b];
      }
    }
    DistinctSize(last);
    forall n | n in last ensures n in Later(files, names[j]) {
      var k :| 0 <= k < |last| && last[k] == n;
      assert names[excess + k] == n && n in names;
      assert eleven[0] == names[excess - 1] && eleven[k + 1] == n;
      if names[j] != names[excess - 1] { LexTransitive(names[j], names[excess - 1], n); }
    }
    NoBigger(Members(last), Later(files, names[j]));
  }

  lemma LastStored(files: Files, names: seq<string>, i: nat) returns (j: nat)
    requires i <= |names| && exists n :: n in names[..i] && n in files
    ensures j < i && names[j] in files && forall k :: j < k < i ==> names[k] !in files
  {
    var n :| n in names[..i] && n in files;
    var k :| 0 <= k < i && names[..i][k] == n;
    j := i - 1;
    while names[j] !in files
      invariant k <= j < i && forall m :: j < m < i ==> names[m] !in files
      decreases j
    {
      j := j - 1;
    }
  }

  // If the greatest stored surplus name has ten newer archives, they are the last ten
  // names, each listed once.
  lemma OldSurplusMeansListedOnce(files: Files, names: seq<string>, j: nat)
    requires Ranks(names, files) && j < Surplus(names) && names[j] in files
    requires (forall k :: j < k < Surplus(names) ==> names[k] !in files) && !AmongNewest(files, names[j])
    ensures NewestListedOnce(names, files)
  {
    hide IsArchiveName;
    hide LexLess;
    hide Ranks;
    var excess := Surplus(names);
    var last, newer := names[excess..], Later(files, names[j]);
    LaterIsLast(files, names, j);
    DistinctSize(last);
    NoBigger(newer, Members(last));
    NeverLaterThanItself(files, names[j]);
    assert forall n :: n in last ==> n in newer;
    assert names[excess - 1] !in last;
    DistinctCons(names[excess - 1], last);
    assert names[excess - 1..] == [names[excess - 1]] + last;
  }

  lemma LaterIsLast(files: Files, names: seq<string>, j: nat)
    requires Ranks(names, files) && j < Surplus(names)
    requires forall k :: j < k < Surplus(names) ==> names[k] !in files
    ensures Later(files, names[j]) <= Members(names[Surplus(names)..])
  {
    hide IsArchiveName;
    hide LexLess;
    hide Ranks;
    var excess := Surplus(names);
    var behind, last := names[j + 1..], names[excess..];
    LaterIsBehind(files, names, j);
    forall n | n in Later(files, names[j]) ensures n in Members(last) {
      var k :| 0 <= k < |behind| && behind[k] == n;
      assert names[j + 1 + k] == n && j + 1 + k >= excess;
      assert last[j + 1 + k - excess] == n;
    }
  }

  lemma DistinctCons(name: string, names: seq<string>)
    requires Distinct(names) && name !in names
    ensures Distinct([name] + names)
  {
  }

  // Deleting the surplus names leaves the ten newest archives and every other file
  // exactly when none of them is stored or the newest are listed once.
  lemma PruningIsExact(files: Files, names: seq<string>)
    requires Ranks(names, files)
    ensures Without(files, names, Surplus(names)) == Pruned(files) <==> CountsArchives(names, files)
  {
    hide IsArchiveName;
    hide LexLess;
    hide AmongNewest;
    hide NewestListedOnce;
    hide Ascending;
    var excess := Surplus(names);
    if CountsArchives(names, files) {
      forall n | n in files ensures n in Without(files, names, excess) <==> n in Pruned(files) {
        DeletionIsExact(files, names, n);
      }
    } else {
      var j := LastStored(files, names, excess);
      if !AmongNewest(files, names[j]) { OldSurplusMeansListedOnce(files, names, j); }
      assert names[..excess][j] == names[j];
      assert names[j] in Pruned(files) && names[j] !in Without(files, names, excess);
    }
  }

  lemma DeletionIsExact(files: Files, names: seq<string>, n: string)
    requires Ranks(names, files) && CountsArchives(names, files) && n in files
    ensures n in names[..Surplus(names)] <==> IsArchiveName(n) && !AmongNewest(files, n)
  {
    hide AmongNewest;
    hide NewestListedOnce;
    hide IsArchiveName;
    hide LexLess;
    var deleted := names[..Surplus(names)];
    if n in deleted {
      var i :| 0 <= i < |deleted| && deleted[i] == n;
      assert names[i] == n && n in names;
      SurplusIsOld(files, names, i);
    } else if IsArchiveName(n) {
      assert n in Archives(files);
      var k :| 0 <= k < |names| && names[k] == n;
      LastNamesAreNewest(files, names, k);
    }
  }

  // Wherever the deletions stop, only surplus names are missing.
  lemma DeletingOldest(files: Files, names: seq<string>, i: nat)
    requires Ascending(names) && i <= Surplus(names)
    ensures Submap(Without(files, names, i), files)
    ensures forall n :: n in files && n !in names[..Surplus(names)] ==> n in Without(files, names, i)
    ensures forall n :: n in files && !IsArchiveName(n) ==> n in Without(files, names, i)
    ensures Ranks(names, files) && CountsArchives(names, files) ==> Submap(Pruned(files), Without(files, names, i))
  {
    hide IsArchiveName;
    hide CountsArchives;
    hide Pruned;
    hide Covers;
    hide LexLess;
    var excess := Surplus(names);
    forall n | n in names[..i] ensures n in names && n in names[..excess] {
      var k :| 0 <= k < i && names[..i][k] == n;
      assert names[k] == n && names[..excess][k] == n;
    }
    if Ranks(names, files) && CountsArchives(names, files) {
      PruningIsExact(files, names);
      assert Submap(Without(files, names, excess), Without(files, names, i));
    }
  }

  // The newest archive is spared exactly when the eleventh greatest name is older.
  ghost predicate SparesNewest(names: seq<string>, newest: string) {
    |names| <= KEEP_ARCHIVES || LexLess(names[Surplus(names) - 1], newest)
  }

  lemma NewestIsSpared(files: Files, names: seq<string>, newest: string)
    requires Ranks(names, files) && newest in Archives(files)
    ensures newest !in names[..Surplus(names)] <==> SparesNewest(names, newest)
  {
    hide IsArchiveName;
    hide LexLess;
    var excess := Surplus(names);
    assert newest in names;
    var k :| 0 <= k < |names| && names[k] == newest;
    LexIrreflexive(newest);
    if newest in names[..excess] {
      var i :| 0 <= i < excess && names[..excess][i] == newest;
      assert names[i] == newest;
      if LexLess(names[excess - 1], newest) && i < excess - 1 { LexTransitive(newest, names[excess - 1], newest); }
    } else {
      if excess > 0 {
        assert names[..excess][excess - 1] == names[excess - 1];
        assert names[excess - 1] != newest;
      }
    }
  }

  // ---- the operations ----

  // Deletes the names beyond the last ten of the sorted listing, and stops at the
  // first deletion the backend refuses. `absentOk` says whether the backend lets a
  // name be deleted that is not there, or not any more.
  method Prune(remote: Remote, listing: Option<seq<string>>, deletable: string -> bool, absentOk: bool) returns (kept: Option<nat>)
    modifies remote
    ensures Submap(remote.files, old(remote.files))
    ensures forall n :: n in old(remote.files) && !IsArchiveName(n) ==> n in remote.files
    ensures listing.None? ==> kept.None? && remote.files == old(remote.files)
    ensures listing.Some? ==>
              var names := SortedArchives(listing.value);
              && (forall n :: n in old(remote.files) && n !in names[..Surplus(names)] ==> n in remote.files)
              && (Covers(listing.value, old(remote.files)) && CountsArchives(names, old(remote.files)) ==>
                    Submap(Pruned(old(remote.files)), remote.files))
              && (kept.None? <==>
                  || (exists n :: n in names[..Surplus(names)] && n in old(remote.files) && !deletable(n))
                  || (!absentOk && !Distinct(names[..Surplus(names)]))
                  || (!absentOk && exists n :: n in names[..Surplus(names)] && n !in old(remote.files)))
    ensures kept.Some? ==>
              var names := SortedArchives(listing.value);
              && (forall n :: n in names[..Surplus(names)] ==> n !in remote.files)
              && (Covers(listing.value, old(remote.files)) ==>
                    && (remote.files == Pruned(old(remote.files)) <==> CountsArchives(names, old(remote.files)))
                    && (kept.value == Min(|Archives(old(remote.files))|, KEEP_ARCHIVES) <==>
                        || |Archives(old(remote.files))| >= KEEP_ARCHIVES
                        || |OnlyArchives(listing.value)| == |Archives(old(remote.files))|))
  {
    hide *;
    ghost var before := remote.files;
    if listing.None? {
      SubmapOfItself(before);
      return None;
    }
    SortedListing(listing.value, remote.files);
    var names := SortedArchives(listing.value);
    var excess := |names| - Min(|names|, KEEP_ARCHIVES);
    SurplusIs(names, excess);
    NothingDeleted(before, names);
    var i := 0;
    while i < excess
      invariant 0 <= i <= excess
      invariant remote.files == Without(before, names, i)
      invariant DeletedInTurn(before, names, i, deletable, absentOk)
    {
      DeletingOldest(before, names, i);
      Presence(before, names, i);
      if !(if names[i] in remote.files then deletable(names[i]) else absentOk) {
        RefusalIsReported(before, names, i, excess, deletable, absentOk);
        return None;
      }
      DeletingNext(before, names, i);
      OneMoreDeleted(before, names, i, deletable, absentOk);
      remote.files := remote.files - {names[i]};
      i := i + 1;
    }
    DeletingOldest(before, names, excess);
    AllDeleted(before, names, excess, deletable, absentOk);
    if Covers(listing.value, before) {
      PruningIsExact(before, names);
      CountIsRight(before, names);
    }
    kept := Some(|names| - excess);
  }

  lemma SubmapOfItself(files: Files)
    ensures Submap(files, files)
  {
  }

  lemma SurplusIs(names: seq<string>, excess: nat)
    requires excess == |names| - Min(|names|, KEEP_ARCHIVES)
    ensures excess == Surplus(names)
  {
  }

  lemma NothingDeleted(files: Files, names: seq<string>)
    ensures Without(files, names, 0) == files
    ensures forall deletable, absentOk :: DeletedInTurn(files, names, 0, deletable, absentOk)
  {
  }

  lemma DeletingNext(files: Files, names: seq<string>, i: nat)
    requires i < |names|
    ensures Without(files, names, i) - {names[i]} == Without(files, names, i + 1)
  {
    assert names[..i + 1] == names[..i] + [names[i]];
  }

  // The first `i` deletions all succeed.
  ghost predicate DeletedInTurn(files: Files, names: seq<string>, i: nat, deletable: string -> bool, absentOk: bool)
    requires i <= |names|
  {
    && (forall n :: n in names[..i] && n in files ==> deletable(n))
    && (absentOk || (Distinct(names[..i]) && forall n :: n in names[..i] ==> n in files))
  }

  // A name is there to be deleted exactly when it is stored and was not deleted before.
  lemma Presence(files: Files, names: seq<string>, i: nat)
    requires i < |names|
    ensures names[i] in Without(files, names, i) <==> names[i] in files && names[i] !in names[..i]
  {
  }

  lemma OneMoreDeleted(files: Files, names: seq<string>, i: nat, deletable: string -> bool, absentOk: bool)
    requires i < |names| && DeletedInTurn(files, names, i, deletable, absentOk)
    requires if names[i] in files && names[i] !in names[..i] then deletable(names[i]) else absentOk
    ensures DeletedInTurn(files, names, i + 1, deletable, absentOk)
  {
    assert names[..i + 1] == names[..i] + [names[i]];
    if !absentOk {
      assert names[..i + 1][..i] == names[..i];
      DistinctBack(names[..i + 1]);
    }
  }

  lemma RefusalIsReported(files: Files, names: seq<string>, i: nat, excess: nat, deletable: string -> bool, absentOk: bool)
    requires i < excess <= |names|
    requires if names[i] in files && names[i] !in names[..i] then !deletable(names[i]) else !absentOk
    ensures
      || (exists n :: n in names[..excess] && n in files && !deletable(n))
      || (!absentOk && !Distinct(names[..excess]))
      || (!absentOk && exists n :: n in names[..excess] && n !in files)
  {
    var deleted := names[..excess];
    assert deleted[i] == names[i];
    if names[i] in names[..i] {
      var k :| 0 <= k < i && names[..i][k] == names[i];
      assert deleted[k] == deleted[i];
    }
  }

  lemma AllDeleted(files: Files, names: seq<string>, excess: nat, deletable: string -> bool, absentOk: bool)
    requires excess <= |names| && DeletedInTurn(files, names, excess, deletable, absentOk)
    ensures !(exists n :: n in names[..excess] && n in files && !deletable(n))
    ensures absentOk || (Distinct(names[..excess]) && !exists n :: n in names[..excess] && n !in files)
    ensures forall n :: n in names[..excess] ==> n !in Without(files, names, excess)
  {
  }

  lemma CountIsRight(files: Files, names: seq<string>)
    requires |Archives(files)| <= |names|
    ensures |names| - Surplus(names) == Min(|Archives(files)|, KEEP_ARCHIVES) <==>
            |Archives(files)| >= KEEP_ARCHIVES || |names| == |Archives(files)|
  {
    hide Archives;
  }

  // Wherever there are ten archives and the listing shows one name more, repeated or
  // absent, nothing is surplus; if the first name is stored, it is deleted.
  lemma ExtraNameLosesArchive(files: Files, listing: seq<string>)
    requires Covers(listing, files) && |Archives(files)| == KEEP_ARCHIVES && |OnlyArchives(listing)| == KEEP_ARCHIVES + 1
    requires SortedArchives(listing) != [] && SortedArchives(listing)[0] in files
    ensures Pruned(files) == files
    ensures
      var names := SortedArchives(listing);
      && Surplus(names) == 1 && !CountsArchives(names, files)
      && |Archives(Without(files, names, Surplus(names)))| == KEEP_ARCHIVES - 1
  {
    hide IsArchiveName;
    hide LexLess;
    hide SortedArchives;
    hide OnlyArchives;
    hide Pruned;
    hide CountsArchives;
    SortedListing(listing, files);
    FewAreAllKept(files);
    var names := SortedArchives(listing);
    assert names[..1] == [names[0]] && names[0] in names;
    assert Archives(Without(files, names, 1)) == Archives(files) - {names[0]};
    PruningIsExact(files, names);
  }

  // Such a listing: ten archives, one of them listed twice.
  lemma RepeatedNameHappens() returns (files: Files, listing: seq<string>)
    ensures Covers(listing, files) && |Archives(files)| == KEEP_ARCHIVES && |OnlyArchives(listing)| == KEEP_ARCHIVES + 1
    ensures SortedArchives(listing) != [] && SortedArchives(listing)[0] in files
  {
    hide ArchiveName;
    hide IsArchiveName;
    hide OnlyArchives;
    hide SortedArchives;
    var once := seq(KEEP_ARCHIVES, t requires 0 <= t < KEEP_ARCHIVES => ArchiveName(t));
    files := map n | n in once :: [];
    listing := [once[0]] + once;
    forall n | n in once ensures IsArchiveName(n) {
      var t :| 0 <= t < KEEP_ARCHIVES && once[t] == n;
      NameIsAccepted(t);
    }
    TenNamesDiffer(once);
    DistinctSize(once);
    assert Archives(files) == Members(once);
    AllArchives(listing);
    SortedListing(listing, files);
    assert SortedArchives(listing)[0] in listing;
  }

  lemma TenNamesDiffer(names: seq<string>)
    requires |names| == KEEP_ARCHIVES && forall t :: 0 <= t < KEEP_ARCHIVES ==> names[t] == ArchiveName(t)
    ensures Distinct(names)
  {
    hide ArchiveName;
    hide LexLess;
    forall i, j | 0 <= i < j < |names| ensures names[i] != names[j] {
      NameOrderIsTimeOrder(i, j);
      LexIrreflexive(names[i]);
    }
  }

  lemma {:induction false} AllArchives(names: seq<string>)
    requires forall n :: n in names ==> IsArchiveName(n)
    ensures OnlyArchives(names) == names
  {
    hide IsArchiveName;
    if names != [] {
      AllArchives(names[1..]);
      assert names[0] in names;
      assert [names[0]] + names[1..] == names;
    }
  }

  lemma FewAreAllKept(files: Files)
    requires |Archives(files)| <= KEEP_ARCHIVES
    ensures Pruned(files) == files
  {
    hide IsArchiveName;
    hide LexLess;
    forall n | n in Archives(files) ensures AmongNewest(files, n) {
      NeverLaterThanItself(files, n);
      NoBigger(Later(files, n), Archives(files) - {n});
    }
  }

  // Stores the packet under the current time's name, then prunes as far as it can.
  // `lister` is what the backend answers to a listing of given contents.
  method PushSnapshot(remote: Remote, now: nat, packet: Packet, stored: bool, lister: Files -> Option<seq<string>>,
                      deletable: string -> bool, absentOk: bool) returns (pushed: Option<string>)
    modifies remote
    ensures pushed == if stored then Some(ArchiveName(now)) else None
    ensures !stored ==> remote.files == old(remote.files)
    ensures stored ==>
              var full := old(remote.files)[ArchiveName(now) := packet];
              && Submap(remote.files, full)
              && (forall n :: n in full && !IsArchiveName(n) ==> n in remote.files)
              && (lister(full).None? ==> remote.files == full)
              && (lister(full).Some? ==>
                    var names := SortedArchives(lister(full).value);
                    && (forall n :: n in full && n !in names[..Surplus(names)] ==> n in remote.files)
                    && (Covers(lister(full).value, full) && CountsArchives(names, full) ==> Submap(Pruned(full), remote.files)))
  {
    hide *;
    var name := ArchiveName(now);
    if !stored {
      return None;
    }
    remote.files := remote.files[name := packet];
    var _ := Prune(remote, lister(remote.files), deletable, absentOk);
    pushed := Some(name);
  }

  // What a push leaves is fit for a restore when the newest archive was spared.
  lemma PushLeavesNewest(full: Files, after: Files, listing: seq<string>)
    requires Submap(after, full) && Covers(listing, full)
    requires
      var names := SortedArchives(listing);
      forall n :: n in full && n !in names[..Surplus(names)] ==> n in after
    requires forall n :: IsLatest(full, n) ==> SparesNewest(SortedArchives(listing), n)
    ensures NewestLeft(full, after)
  {
    hide IsArchiveName;
    hide LexLess;
    hide SortedArchives;
    hide SparesNewest;
    SortedListing(listing, full);
    forall n | IsLatest(full, n) ensures n in after { NewestIsSpared(full, SortedArchives(listing), n); }
  }

  function Dedup(names: seq<string>): (r: seq<string>)
    ensures |r| <= |names| && (names != [] ==> r != [] && r[|r| - 1] == names[|names| - 1])
  {
    if |names| < 2 then names
    else if names[0] == names[1] then Dedup(names[1..])
    else [names[0]] + Dedup(names[1..])
  }

  function Reverse(names: seq<string>): (r: seq<string>)
    ensures |r| == |names| && (names != [] ==> r[0] == names[|names| - 1])
  {
    if names == [] then [] else Reverse(names[1..]) + [names[0]]
  }

  ghost predicate GreatestListed(listing: seq<string>, name: string) {
    && name in listing && IsArchiveName(name)
    && forall n :: n in listing && IsArchiveName(n) ==> n == name || LexLess(n, name)
  }

  // Restores the newest archive the listing shows, if it is there and can be
  // downloaded; with every archive listed, that is the newest archive there is.
  method PullLatest(remote: Remote, listing: Option<seq<string>>, downloadable: string -> bool)
    returns (r: Option<(string, Packet)>)
    ensures r.None? <==>
            listing.None? || !exists n :: GreatestListed(listing.value, n) && n in remote.files && downloadable(n)
    ensures r.Some? ==>
              && GreatestListed(listing.value, r.value.0) && r.value.0 in remote.files
              && r.value.1 == remote.files[r.value.0]
              && (Covers(listing.value, remote.files) ==> IsLatest(remote.files, r.value.0))
  {
    hide IsLatest;
    hide Covers;
    hide Ascending;
    hide SortedArchives;
    hide GreatestListed;
    if listing.None? {
      return None;
    }
    SortedListing(listing.value, remote.files);
    var names := Reverse(Dedup(SortedArchives(listing.value)));
    LastIsGreatest(listing.value, SortedArchives(listing.value));
    if names == [] || names[0] !in remote.files || !downloadable(names[0]) {
      return None;
    }
    GreatestIsLatest(remote.files, listing.value, names[0]);
    r := Some((names[0], remote.files[names[0]]));
  }

  lemma LastIsGreatest(listing: seq<string>, names: seq<string>)
    requires Ascending(names) && forall n :: n in names <==> n in listing && IsArchiveName(n)
    ensures forall n :: GreatestListed(listing, n) <==> names != [] && n == names[|names| - 1]
  {
    hide IsArchiveName;
    hide LexLess;
    if names == [] {
      assert forall n :: GreatestListed(listing, n) ==> n in names;
      return;
    }
    var last := names[|names| - 1];
    assert last in names;
    assert GreatestListed(listing, last);
    forall n | GreatestListed(listing, n) ensures n == last {
      LexIrreflexive(n);
      if n != last { LexTransitive(n, last, n); }
    }
  }

  lemma GreatestIsLatest(files: Files, listing: seq<string>, name: string)
    requires GreatestListed(listing, name) && name in files
    ensures Covers(listing, files) ==> IsLatest(files, name)
  {
    hide IsArchiveName;
    hide LexLess;
  }

  // ---- push, then restore ----

  lemma GreatestExists(names: set<string>) returns (greatest: string)
    requires names != {}
    ensures greatest in names && forall n :: n in names ==> n == greatest || LexLess(n, greatest)
    decreases names
  {
    hide LexLess;
    var n :| n in names;
    if names == {n} {
      greatest := n;
    } else {
      var rest := GreatestExists(names - {n});
      LexTotal(n, rest);
      greatest := if LexLess(rest, n) then n else rest;
      forall m | m in names ensures m == greatest || LexLess(m, greatest) {
        if m != n && m != rest && greatest == n { LexTransitive(m, rest, n); }
      }
    }
  }

  // Pruning behind a store took only files that are not the newest archive.
  ghost predicate NewestLeft(full: Files, after: Files) {
    Submap(after, full) && forall n :: IsLatest(full, n) ==> n in after
  }

  // However far the pruning behind it got, a stored file is what a restore returns if
  // and only if it has an archive name and no archive already there sorts after it.
  lemma StoredIsLatest(before: Files, name: string, packet: Packet, after: Files)
    requires NewestLeft(before[name := packet], after)
    ensures IsLatest(after, name) <==> IsArchiveName(name) && Later(before, name) == {}
    ensures IsLatest(after, name) ==> after[name] == packet
  {
    hide LexLess;
    hide IsArchiveName;
    if IsArchiveName(name) {
      var full := before[name := packet];
      assert name in Archives(full);
      var newest := GreatestExists(Archives(full));
      assert IsLatest(full, newest);
      if newest == name {
        NothingLater(before, full, name);
      } else {
        assert newest in Later(before, name);
        assert newest in Archives(after);
        if IsLatest(after, name) { LexIrreflexive(name); LexTransitive(name, newest, name); }
      }
    }
  }

  // After a push, restoring the latest returns exactly the pushed archive if and
  // only if its year has four digits and no archive already there sorts after it.
  lemma PushThenPullReturnsPacket(before: Files, now: nat, packet: Packet, after: Files)
    requires NewestLeft(before[ArchiveName(now) := packet], after)
    ensures IsLatest(after, ArchiveName(now)) <==> now < END_OF_NAMES && Later(before, ArchiveName(now)) == {}
    ensures IsLatest(after, ArchiveName(now)) ==> after[ArchiveName(now)] == packet
  {
    hide ArchiveName;
    hide IsArchiveName;
    hide NewestLeft;
    NameIsAccepted(now);
    StoredIsLatest(before, ArchiveName(now), packet, after);
  }

  lemma NothingLater(before: Files, full: Files, name: string)
    requires IsLatest(full, name) && before.Keys <= full.Keys
    ensures Later(before, name) == {}
  {
    hide LexLess;
    hide IsArchiveName;
    forall n | n in Archives(before) ensures !LexLess(name, n) {
      assert n in Archives(full);
      LexIrreflexive(name);
      if LexLess(name, n) && n != name { LexTransitive(name, n, name); }
    }
  }

  // An archive stored by a clock that is ahead keeps a new push from being restored.
  lemma LaterArchiveHappens(now: nat, ahead: nat, packet: Packet, after: Files)
    requires now < ahead < END_OF_NAMES && NewestLeft(map[ArchiveName(ahead) := []][ArchiveName(now) := packet], after)
    ensures !IsLatest(after, ArchiveName(now))
  {
    hide ArchiveName;
    hide IsArchiveName;
    hide LexLess;
    hide NewestLeft;
    hide IsLatest;
    NameOrderIsTimeOrder(now, ahead);
    NameIsAccepted(ahead);
    LaterNameWins(ArchiveName(now), ArchiveName(ahead), packet, after);
  }

  lemma LaterNameWins(name: string, later: string, packet: Packet, after: Files)
    requires IsArchiveName(later) && LexLess(name, later) && NewestLeft(map[later := []][name := packet], after)
    ensures !IsLatest(after, name)
  {
    hide IsArchiveName;
    hide LexLess;
    hide NewestLeft;
    hide IsLatest;
    var before: Files := map[later := []];
    StoredIsLatest(before, name, packet, after);
    assert later in Later(before, name);
  }

  // In time order: a push later than everything stored is what a restore returns.
  lemma LaterPushIsRestored(before: Files, times: set<nat>, now: nat, packet: Packet, after: Files)
    requires forall n :: n in Archives(before) ==> exists t :: t in times && n == ArchiveName(t)
    requires (forall t :: t in times ==> t < now) && now < END_OF_NAMES
    requires NewestLeft(before[ArchiveName(now) := packet], after)
    ensures IsLatest(after, ArchiveName(now)) && after[ArchiveName(now)] == packet
  {
    hide ArchiveName;
    hide LexLess;
    hide IsArchiveName;
    hide NewestLeft;
    forall n | n in Archives(before) ensures n !in Later(before, ArchiveName(now)) {
      var t :| t in times && n == ArchiveName(t);
      NameOrderIsTimeOrder(now, t);
    }
    assert Later(before, ArchiveName(now)) == {};
    PushThenPullReturnsPacket(before, now, packet, after);
  }
}
