// What a list of visits adds up to in the database
// (nebula_app/src/directory_history.rs), and how scores fall with age.
module DirectoryVisits {
  import opened Text
  import opened DirectoryPaths
  import opened DirectoryDatabase

  // The entry is the first of its key; a loaded file may repeat keys.
  ghost predicate FirstOfKey(platform: Platform, entries: seq<Entry>, i: nat)
    requires i < |entries|
  {
    forall j :: 0 <= j < i ==> Key(platform, entries[j]) != Key(platform, entries[i])
  }

  // The visits to one directory, in order.
  function VisitsTo(os: seq<Observation>, key: Option<string>): seq<Observation> {
    if os == [] then []
    else
      var o := os[|os| - 1];
      VisitsTo(os[..|os| - 1], key) + (if key == Some(o.normalized) then [o] else [])
  }

  // The entry counts every visit, carries the spelling of the last one, and the latest
  // time of all.
  ghost predicate Tallied(before: Option<Entry>, visits: seq<Observation>, after: Entry) {
    if visits == [] then before == Some(after)
    else
      && after.rank == (if before.Some? then before.value.rank else 0.0) + |visits| as real
      && after.path == visits[|visits| - 1].path
      && (forall k :: 0 <= k < |visits| ==> visits[k].at <= after.lastAccessed)
      && (before.Some? ==> before.value.lastAccessed <= after.lastAccessed)
      && ((exists k :: 0 <= k < |visits| && visits[k].at == after.lastAccessed)
          || (before.Some? && before.value.lastAccessed == after.lastAccessed))
  }

  // Entry `i` of the outcome: the first of its key counts the visits, the others stay.
  ghost predicate EntryAddsUp(platform: Platform, entries: seq<Entry>, os: seq<Observation>, outcome: seq<Entry>, i: nat)
    requires i < |outcome|
  {
    && (i < |entries| ==> Key(platform, outcome[i]) == Key(platform, entries[i]))
    && if FirstOfKey(platform, outcome, i)
       then Tallied(if i < |entries| then Some(entries[i]) else None, VisitsTo(os, Key(platform, outcome[i])), outcome[i])
       else i < |entries| && outcome[i] == entries[i]
  }

  ghost predicate AddsUp(platform: Platform, entries: seq<Entry>, os: seq<Observation>, outcome: seq<Entry>) {
    && |entries| <= |outcome|
    && (forall i :: 0 <= i < |outcome| ==> EntryAddsUp(platform, entries, os, outcome, i))
    && (forall k :: 0 <= k < |os| ==> Some(os[k].normalized) in Keys(platform, outcome))
  }

  lemma VisitsToAppend(os: seq<Observation>, o: Observation, key: Option<string>)
    ensures VisitsTo(os + [o], key) == if key == Some(o.normalized) then VisitsTo(os, key) + [o] else VisitsTo(os, key)
  {
    assert (os + [o])[..|os|] == os;
    assert VisitsTo(os, key) + [] == VisitsTo(os, key);
  }

  // ---- one visit ----

  // Either the first entry of the key is visited, or there is none and one is added.
  lemma {:induction false} AppliedExactly(platform: Platform, entries: seq<Entry>, o: Observation) returns (at: nat)
    ensures at <= |entries| && forall j :: 0 <= j < at ==> Key(platform, entries[j]) != Some(o.normalized)
    ensures at < |entries| ==> Key(platform, entries[at]) == Some(o.normalized)
    ensures Applied(platform, entries, o) ==
            if at < |entries| then entries[at := Visit(entries[at], o)] else entries + [Entry(o.path, 1.0, o.at)]
  {
    hide Key;
    if entries == [] || Key(platform, entries[0]) == Some(o.normalized) {
      at := 0;
    } else {
      var more := AppliedExactly(platform, entries[1..], o);
      at := more + 1;
      forall j | 0 <= j < at ensures Key(platform, entries[j]) != Some(o.normalized) {
        if j > 0 { assert entries[j] == entries[1..][j - 1]; }
      }
      assert entries == [entries[0]] + entries[1..];
    }
  }

  lemma VisitTallies(before: Option<Entry>, visits: seq<Observation>, e: Entry, o: Observation)
    requires e.rank > 0.0 && Tallied(before, visits, e)
    ensures Tallied(before, visits + [o], Visit(e, o))
  {
    var all, after := visits + [o], Visit(e, o);
    assert all[|visits|] == o;
    if after.lastAccessed != o.at && visits != [] && exists k :: 0 <= k < |visits| && visits[k].at == e.lastAccessed {
      var k :| 0 <= k < |visits| && visits[k].at == e.lastAccessed;
      assert all[k].at == after.lastAccessed;
    }
  }

  lemma FirstVisitTallies(o: Observation)
    ensures Tallied(None, [o], Entry(o.path, 1.0, o.at))
  {
    assert [o][0].at == o.at;
  }

  // A visit to an entry that is there.
  lemma RevisitAddsUp(platform: Platform, entries: seq<Entry>, os: seq<Observation>, outcome: seq<Entry>, o: Observation, at: nat)
    requires AddsUp(platform, entries, os, outcome) && Genuine(platform, o) && at < |outcome| && outcome[at].rank > 0.0
    requires Key(platform, outcome[at]) == Some(o.normalized) && forall j :: 0 <= j < at ==> Key(platform, outcome[j]) != Some(o.normalized)
    ensures AddsUp(platform, entries, os + [o], outcome[at := Visit(outcome[at], o)])
  {
    hide Keys;
    hide Tallied;
    var after, all := outcome[at := Visit(outcome[at], o)], os + [o];
    assert all[..|os|] == os;
    assert forall i :: 0 <= i < |after| ==> Key(platform, after[i]) == Key(platform, outcome[i]);
    hide Key;
    hide Genuine;
    forall i | 0 <= i < |after| ensures EntryAddsUp(platform, entries, all, after, i) {
      assert EntryAddsUp(platform, entries, os, outcome, i);
      SameFirst(platform, outcome, after, i);
      VisitsToAppend(os, o, Key(platform, outcome[i]));
      if i == at {
        assert FirstOfKey(platform, outcome, at);
        VisitTallies(if i < |entries| then Some(entries[i]) else None, VisitsTo(os, Key(platform, outcome[i])), outcome[i], o);
      } else if FirstOfKey(platform, outcome, i) {
        assert Key(platform, outcome[i]) != Some(o.normalized);
      }
    }
    SameKeys(platform, outcome, after);
    forall k | 0 <= k < |all| ensures Some(all[k].normalized) in Keys(platform, after) {
      if k < |os| { assert all[k] == os[k]; } else { KeyIsThere(platform, after, at); }
    }
  }

  lemma SameFirst(platform: Platform, a: seq<Entry>, b: seq<Entry>, i: nat)
    requires |a| == |b| && i < |a| && forall j :: 0 <= j < |a| ==> Key(platform, a[j]) == Key(platform, b[j])
    ensures FirstOfKey(platform, a, i) <==> FirstOfKey(platform, b, i)
  {
    hide Key;
  }

  lemma SameKeys(platform: Platform, a: seq<Entry>, b: seq<Entry>)
    requires |a| == |b| && forall j :: 0 <= j < |a| ==> Key(platform, a[j]) == Key(platform, b[j])
    ensures Keys(platform, a) == Keys(platform, b)
  {
    hide Key;
  }

  lemma KeyIsThere(platform: Platform, entries: seq<Entry>, i: nat)
    requires i < |entries|
    ensures Key(platform, entries[i]) in Keys(platform, entries)
  {
  }

  // A visit to a directory that is not there.
  lemma NewVisitAddsUp(platform: Platform, entries: seq<Entry>, os: seq<Observation>, outcome: seq<Entry>, o: Observation)
    requires AddsUp(platform, entries, os, outcome) && Genuine(platform, o)
    requires forall j :: 0 <= j < |outcome| ==> Key(platform, outcome[j]) != Some(o.normalized)
    ensures AddsUp(platform, entries, os + [o], outcome + [Entry(o.path, 1.0, o.at)])
  {
    hide Tallied;
    var e := Entry(o.path, 1.0, o.at);
    var after, all := outcome + [e], os + [o];
    assert all[..|os|] == os;
    assert Key(platform, e) == Some(o.normalized);
    hide Key;
    hide Genuine;
    forall i | 0 <= i < |after| ensures EntryAddsUp(platform, entries, all, after, i) {
      if i < |outcome| {
        assert EntryAddsUp(platform, entries, os, outcome, i) && after[i] == outcome[i];
        assert FirstOfKey(platform, after, i) <==> FirstOfKey(platform, outcome, i) by {
          assert forall j :: 0 <= j < i ==> after[j] == outcome[j];
        }
        VisitsToAppend(os, o, Key(platform, outcome[i]));
      } else {
        VisitsToAppend(os, o, Some(o.normalized));
        NeverVisited(platform, outcome, os, Some(o.normalized));
        FirstVisitTallies(o);
        assert forall j :: 0 <= j < i ==> after[j] == outcome[j];
        assert [] + [o] == [o];
      }
    }
    forall k | 0 <= k < |all| ensures Some(all[k].normalized) in Keys(platform, after) {
      if k < |os| {
        assert Some(os[k].normalized) in Keys(platform, outcome);
        var i :| 0 <= i < |outcome| && Key(platform, outcome[i]) == Some(os[k].normalized);
        assert after[i] == outcome[i];
        KeyIsThere(platform, after, i);
      } else {
        KeyIsThere(platform, after, |outcome|);
      }
    }
  }

  lemma {:induction false} NeverVisited(platform: Platform, outcome: seq<Entry>, os: seq<Observation>, key: Option<string>)
    requires forall k :: 0 <= k < |os| ==> Some(os[k].normalized) in Keys(platform, outcome)
    requires forall j :: 0 <= j < |outcome| ==> Key(platform, outcome[j]) != key
    ensures VisitsTo(os, key) == []
  {
    hide Key;
    if os != [] {
      NeverVisited(platform, outcome, os[..|os| - 1], key);
      assert Some(os[|os| - 1].normalized) in Keys(platform, outcome);
    }
  }

  // ---- all visits ----

  // In any readable database, any list of visits adds up: each visited directory has
  // its old rank plus one for each visit, the spelling of the last visit and the latest
  // time; directories that were not there are appended; nothing else changes.
  lemma {:induction false} VisitsAddUp(platform: Platform, entries: seq<Entry>, os: seq<Observation>)
    requires Readable(platform, entries) && forall k :: 0 <= k < |os| ==> Genuine(platform, os[k])
    ensures AddsUp(platform, entries, os, AppliedAll(platform, entries, os))
    ensures Readable(platform, AppliedAll(platform, entries, os))
    decreases |os|
  {
    hide Key;
    hide Genuine;
    hide Applied;
    hide Tallied;
    if os == [] {
      NothingAddsUp(platform, entries);
    } else {
      var n := |os| - 1;
      var o, front := os[n], AppliedAll(platform, entries, os[..n]);
      VisitsAddUp(platform, entries, os[..n]);
      AppliedKeepsKeys(platform, front, o);
      var at := AppliedExactly(platform, front, o);
      assert os == os[..n] + [o];
      if at < |front| {
        RevisitAddsUp(platform, entries, os[..n], front, o, at);
      } else {
        NewVisitAddsUp(platform, entries, os[..n], front, o);
      }
    }
  }

  lemma NothingAddsUp(platform: Platform, entries: seq<Entry>)
    ensures AddsUp(platform, entries, [], entries)
  {
    hide Key;
  }

  // ---- scores ----

  // A rank counts four times within the hour, twice within the day, half within the
  // week, and a quarter from then on.
  lemma ScoresByAge(e: Entry, now: nat)
    requires e.rank > 0.0
    ensures Score(e, now) == 4.0 * e.rank <==> now < e.lastAccessed + 3_600
    ensures Score(e, now) == 2.0 * e.rank <==> e.lastAccessed + 3_600 <= now < e.lastAccessed + 86_400
    ensures Score(e, now) == 0.5 * e.rank <==> e.lastAccessed + 86_400 <= now < e.lastAccessed + 604_800
    ensures Score(e, now) == 0.25 * e.rank <==> e.lastAccessed + 604_800 <= now
  {
  }
}
