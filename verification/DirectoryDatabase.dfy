// The frecency database (nebula_app/src/directory_history.rs): visits raise a
// directory's rank, and aging keeps the total rank and the number of entries
// bounded. Ranks are real numbers; floating-point rounding is not modelled.
module DirectoryDatabase {
  import opened Text
  import opened DirectoryPaths

  datatype Entry = Entry(path: string, rank: real, lastAccessed: nat)
  datatype Observation = Observation(path: string, normalized: string, at: nat)

  const MAX_TOTAL_RANK := 10_000.0
  const MAX_ENTRIES: nat := 2_048
  const HOUR: nat := 3_600
  const DAY: nat := 24 * HOUR
  const WEEK: nat := 7 * DAY

  function Recency(lastAccessed: nat, now: nat): (r: real)
    ensures r > 0.0
  {
    var age := if now > lastAccessed then now - lastAccessed else 0;
    if age < HOUR then 4.0 else if age < DAY then 2.0 else if age < WEEK then 0.5 else 0.25
  }

  function Score(e: Entry, now: nat): real { e.rank * Recency(e.lastAccessed, now) }

  function Key(platform: Platform, e: Entry): Option<string> { Normalize(platform, e.path) }

  // ---- recording a visit ----

  function Visit(e: Entry, o: Observation): Entry {
    Entry(o.path, if e.rank + 1.0 < 0.0 then 0.0 else e.rank + 1.0, if e.lastAccessed < o.at then o.at else e.lastAccessed)
  }

  function Applied(platform: Platform, entries: seq<Entry>, o: Observation): seq<Entry> {
    if entries == [] then [Entry(o.path, 1.0, o.at)]
    else if Key(platform, entries[0]) == Some(o.normalized) then [Visit(entries[0], o)] + entries[1..]
    else [entries[0]] + Applied(platform, entries[1..], o)
  }

  function AppliedAll(platform: Platform, entries: seq<Entry>, os: seq<Observation>): seq<Entry> {
    if os == [] then entries
    else Applied(platform, AppliedAll(platform, entries, os[..|os| - 1]), os[|os| - 1])
  }

  // ---- aging ----

  function Total(entries: seq<Entry>): real {
    if entries == [] then 0.0 else entries[0].rank + Total(entries[1..])
  }

  function Rescaled(e: Entry, factor: real): Entry { e.(rank := e.rank * factor) }

  function Scaled(entries: seq<Entry>, factor: real): seq<Entry> {
    seq(|entries|, i requires 0 <= i < |entries| => Rescaled(entries[i], factor))
  }

  function AtLeastOne(entries: seq<Entry>): seq<Entry> {
    if entries == [] then []
    else (if entries[0].rank >= 1.0 then [entries[0]] else []) + AtLeastOne(entries[1..])
  }

  function Faded(entries: seq<Entry>): seq<Entry> {
    var total := Total(entries);
    if total > MAX_TOTAL_RANK then AtLeastOne(Scaled(entries, 0.9 * MAX_TOTAL_RANK / total)) else entries
  }

  // Best score first, equal scores by path.
  predicate Precedes(a: Entry, b: Entry, now: nat) {
    Score(a, now) > Score(b, now) || (Score(a, now) == Score(b, now) && LexLess(a.path, b.path))
  }

  function Insert(e: Entry, entries: seq<Entry>, now: nat): seq<Entry> {
    if entries == [] then [e]
    else if Precedes(entries[0], e, now) then [entries[0]] + Insert(e, entries[1..], now)
    else [e] + entries
  }

  function Ranked(entries: seq<Entry>, now: nat): seq<Entry> {
    if entries == [] then [] else Insert(entries[0], Ranked(entries[1..], now), now)
  }

  function Limited(entries: seq<Entry>, now: nat): seq<Entry> {
    if |entries| > MAX_ENTRIES then Ranked(entries, now)[..Min(MAX_ENTRIES, |Ranked(entries, now)|)] else entries
  }

  function Aged(entries: seq<Entry>, now: nat): seq<Entry> { Limited(Faded(entries), now) }

  // One step of the search for the visited entry.
  lemma AppliedFrom(platform: Platform, entries: seq<Entry>, o: Observation, i: nat)
    requires i <= |entries|
    ensures entries[..i] + Applied(platform, entries[i..], o) ==
            if i == |entries| then entries + [Entry(o.path, 1.0, o.at)]
            else if Key(platform, entries[i]) == Some(o.normalized) then entries[i := Visit(entries[i], o)]
            else entries[..i + 1] + Applied(platform, entries[i + 1..], o)
  {
    hide Key;
    if i < |entries| { assert entries[i..][1..] == entries[i + 1..]; }
  }

  // ---- the object, as it is updated ----

  class Database {
    const platform: Platform
    var entries: seq<Entry>

    constructor (platform: Platform, entries: seq<Entry>)
      ensures this.platform == platform && this.entries == entries
    {
      this.platform, this.entries := platform, entries;
    }

    method Apply(o: Observation)
      modifies this
      ensures entries == Applied(platform, old(entries), o)
    {
      hide Applied;
      hide Key;
      var i := 0;
      assert entries[0..] == entries && entries[..0] == [];
      while i < |entries| && Key(platform, entries[i]) != Some(o.normalized)
        invariant 0 <= i <= |entries|
        invariant entries == old(entries)
        invariant Applied(platform, entries, o) == entries[..i] + Applied(platform, entries[i..], o)
      {
        AppliedFrom(platform, entries, o, i);
        i := i + 1;
      }
      AppliedFrom(platform, entries, o, i);
      if i < |entries| {
        entries := entries[i := Visit(entries[i], o)];
      } else {
        entries := entries + [Entry(o.path, 1.0, o.at)];
      }
    }

    method SumRanks() returns (total: real)
      ensures total == Total(entries)
    {
      total := 0.0;
      var i := 0;
      assert entries[0..] == entries;
      while i < |entries|
        invariant 0 <= i <= |entries|
        invariant Total(entries) == total + Total(entries[i..])
      {
        assert entries[i..][1..] == entries[i + 1..];
        total := total + entries[i].rank;
        i := i + 1;
      }
      assert entries[i..] == [];
    }

    method AgeAndLimit(now: nat)
      modifies this
      ensures entries == Aged(old(entries), now)
    {
      var total := SumRanks();
      if total > MAX_TOTAL_RANK {
        entries := Scaled(entries, 0.9 * MAX_TOTAL_RANK / total);
        entries := AtLeastOne(entries);
      }
      if |entries| > MAX_ENTRIES {
        var ranked := Ranked(entries, now);
        entries := ranked[..Min(MAX_ENTRIES, |ranked|)];
      }
    }
  }

  // ---- what aging guarantees ----

  ghost predicate Positive(entries: seq<Entry>) {
    forall i :: 0 <= i < |entries| ==> entries[i].rank > 0.0
  }

  lemma {:induction false} TotalIsPositive(entries: seq<Entry>)
    requires Positive(entries)
    ensures Total(entries) >= 0.0
  {
    if entries != [] { TotalIsPositive(entries[1..]); }
  }

  lemma ScaledTail(entries: seq<Entry>, factor: real)
    requires entries != []
    ensures Scaled(entries, factor)[1..] == Scaled(entries[1..], factor)
  {
    hide Rescaled;
  }

  lemma {:induction false} ScaledTotal(entries: seq<Entry>, factor: real)
    ensures Total(Scaled(entries, factor)) == factor * Total(entries)
  {
    if entries != [] {
      ScaledTail(entries, factor);
      ScaledTotal(entries[1..], factor);
    }
  }

  lemma {:induction false} DroppingLowersTotal(entries: seq<Entry>)
    requires Positive(entries)
    ensures Positive(AtLeastOne(entries)) && Total(AtLeastOne(entries)) <= Total(entries)
  {
    if entries != [] {
      DroppingLowersTotal(entries[1..]);
      var rest := AtLeastOne(entries[1..]);
      assert ([entries[0]] + rest)[1..] == rest;
      assert [] + rest == rest;
    }
  }

  lemma ShareOfTotal(share: real, total: real)
    requires share > 0.0 && total > 0.0
    ensures share / total > 0.0 && (share / total) * total == share
  {
  }

  lemma FadedIsBounded(entries: seq<Entry>)
    requires Positive(entries)
    ensures Positive(Faded(entries)) && Total(Faded(entries)) <= MAX_TOTAL_RANK
  {
    hide Total;
    hide Scaled;
    hide AtLeastOne;
    var total := Total(entries);
    if total > MAX_TOTAL_RANK {
      var factor := 0.9 * MAX_TOTAL_RANK / total;
      ShareOfTotal(0.9 * MAX_TOTAL_RANK, total);
      ScaledTotal(entries, factor);
      ScalingStaysPositive(entries, factor);
      DroppingLowersTotal(Scaled(entries, factor));
    }
  }

  lemma ScalingStaysPositive(entries: seq<Entry>, factor: real)
    requires Positive(entries) && factor > 0.0
    ensures Positive(Scaled(entries, factor))
  {
  }

  lemma {:induction false} InsertAdds(e: Entry, entries: seq<Entry>, now: nat)
    ensures Total(Insert(e, entries, now)) == e.rank + Total(entries)
    ensures |Insert(e, entries, now)| == |entries| + 1
  {
    hide Precedes;
    if entries != [] {
      InsertAdds(e, entries[1..], now);
      var rest := Insert(e, entries[1..], now);
      assert ([entries[0]] + rest)[1..] == rest && ([e] + entries)[1..] == entries;
    }
  }

  lemma {:induction false} InsertPermutes(e: Entry, entries: seq<Entry>, now: nat)
    ensures multiset(Insert(e, entries, now)) == multiset{e} + multiset(entries)
  {
    hide Precedes;
    if entries != [] {
      InsertPermutes(e, entries[1..], now);
      assert entries == [entries[0]] + entries[1..];
    }
  }

  // Ranking only reorders.
  lemma {:induction false} RankedPermutes(entries: seq<Entry>, now: nat)
    ensures Total(Ranked(entries, now)) == Total(entries) && |Ranked(entries, now)| == |entries|
    ensures multiset(Ranked(entries, now)) == multiset(entries)
  {
    hide Insert;
    if entries != [] {
      RankedPermutes(entries[1..], now);
      InsertAdds(entries[0], Ranked(entries[1..], now), now);
      InsertPermutes(entries[0], Ranked(entries[1..], now), now);
      assert entries == [entries[0]] + entries[1..];
    }
  }

  lemma {:induction false} PrefixTotal(entries: seq<Entry>, n: nat)
    requires Positive(entries) && n <= |entries|
    ensures Total(entries[..n]) <= Total(entries)
  {
    TotalIsPositive(entries);
    if n > 0 {
      assert entries[..n][1..] == entries[1..][..n - 1];
      PrefixTotal(entries[1..], n - 1);
    }
  }

  lemma PermutedPositive(a: seq<Entry>, b: seq<Entry>)
    requires Positive(a) && multiset(a) == multiset(b)
    ensures Positive(b)
  {
    forall i | 0 <= i < |b| ensures b[i].rank > 0.0 {
      assert b[i] in multiset(b);
      assert b[i] in a;
    }
  }

  // From any database with positive ranks: bounded total, bounded size, positive ranks.
  lemma AgedIsBounded(entries: seq<Entry>, now: nat)
    requires Positive(entries)
    ensures Positive(Aged(entries, now)) && Total(Aged(entries, now)) <= 10_000.0 && |Aged(entries, now)| <= 2_048
  {
    hide Ranked;
    hide Faded;
    FadedIsBounded(entries);
    var faded := Faded(entries);
    RankedPermutes(faded, now);
    PermutedPositive(faded, Ranked(faded, now));
    if |faded| > MAX_ENTRIES { PrefixTotal(Ranked(faded, now), MAX_ENTRIES); }
  }

  // Rescaling never changes which of two entries scores higher.
  lemma RescalingKeepsOrder(a: Entry, b: Entry, factor: real, now: nat)
    requires factor > 0.0
    ensures Score(Rescaled(a, factor), now) < Score(Rescaled(b, factor), now) <==> Score(a, now) < Score(b, now)
  {
    var x, y := Score(a, now), Score(b, now);
    assert Score(Rescaled(a, factor), now) == factor * x;
    assert Score(Rescaled(b, factor), now) == factor * y;
    if x < y { assert factor * (y - x) > 0.0; } else { assert factor * (x - y) >= 0.0; }
  }

  // A higher score, or the same score and a path that is not greater.
  ghost predicate AtLeastAsGood(a: Entry, b: Entry, now: nat) {
    Score(a, now) > Score(b, now) || (Score(a, now) == Score(b, now) && !LexLess(b.path, a.path))
  }

  lemma GoodnessIsTransitive(a: Entry, b: Entry, c: Entry, now: nat)
    requires AtLeastAsGood(a, b, now) && AtLeastAsGood(b, c, now)
    ensures AtLeastAsGood(a, c, now)
  {
    hide Score;
    hide LexLess;
    LexTotal(a.path, b.path);
    LexTotal(b.path, c.path);
    if LexLess(c.path, a.path) {
      if LexLess(a.path, b.path) { LexTransitive(c.path, a.path, b.path); }
    }
  }

  lemma GoodnessIsTotal(a: Entry, b: Entry, now: nat)
    ensures if Precedes(a, b, now) then AtLeastAsGood(a, b, now) else AtLeastAsGood(b, a, now)
  {
    hide Score;
    hide LexLess;
    if LexLess(a.path, b.path) && LexLess(b.path, a.path) {
      LexTransitive(a.path, b.path, a.path);
      LexIrreflexive(a.path);
    }
  }

  ghost predicate Descending(entries: seq<Entry>, now: nat) {
    forall i, j :: 0 <= i < j < |entries| ==> AtLeastAsGood(entries[i], entries[j], now)
  }

  lemma {:induction false} InsertDescends(e: Entry, entries: seq<Entry>, now: nat)
    requires Descending(entries, now)
    ensures Descending(Insert(e, entries, now), now)
    ensures Insert(e, entries, now) != []
    ensures
      var first := Insert(e, entries, now)[0];
      first == e || (entries != [] && first == entries[0] && AtLeastAsGood(first, e, now))
  {
    hide Precedes;
    hide AtLeastAsGood;
    if entries != [] {
      GoodnessIsTotal(entries[0], e, now);
      if Precedes(entries[0], e, now) {
        InsertDescends(e, entries[1..], now);
        DescendingCons(entries[0], Insert(e, entries[1..], now), now);
      } else {
        DescendingCons(e, entries, now);
      }
    }
  }

  lemma DescendingCons(e: Entry, entries: seq<Entry>, now: nat)
    requires Descending(entries, now) && (entries != [] ==> AtLeastAsGood(e, entries[0], now))
    ensures Descending([e] + entries, now)
  {
    hide AtLeastAsGood;
    var all := [e] + entries;
    forall i, j | 0 <= i < j < |all| ensures AtLeastAsGood(all[i], all[j], now) {
      if i == 0 && j > 1 { GoodnessIsTransitive(e, entries[0], entries[j - 1], now); }
    }
  }

  lemma {:induction false} RankedDescends(entries: seq<Entry>, now: nat)
    ensures Descending(Ranked(entries, now), now)
  {
    hide Insert;
    if entries != [] {
      RankedDescends(entries[1..], now);
      InsertDescends(entries[0], Ranked(entries[1..], now), now);
    }
  }

  // The size limit keeps entries of the database and drops the others; no dropped entry
  // scores above a kept one, and of equal scores the smaller paths are kept.
  lemma LimitKeepsTheBest(entries: seq<Entry>, now: nat) returns (dropped: seq<Entry>)
    ensures multiset(Limited(entries, now)) + multiset(dropped) == multiset(entries)
    ensures forall k, d :: k in Limited(entries, now) && d in dropped ==>
              Score(k, now) > Score(d, now) || (Score(k, now) == Score(d, now) && !LexLess(d.path, k.path))
    ensures |entries| <= 2_048 ==> dropped == []
    ensures |entries| > 2_048 ==> |Limited(entries, now)| == 2_048
  {
    hide Ranked;
    hide Score;
    if |entries| <= MAX_ENTRIES {
      dropped := [];
    } else {
      var ranked := Ranked(entries, now);
      RankedPermutes(entries, now);
      RankedDescends(entries, now);
      dropped := ranked[MAX_ENTRIES..];
      assert ranked == ranked[..MAX_ENTRIES] + dropped;
      forall k, d | k in ranked[..MAX_ENTRIES] && d in dropped ensures AtLeastAsGood(k, d, now) {
        var i :| 0 <= i < MAX_ENTRIES && ranked[..MAX_ENTRIES][i] == k;
        var j :| 0 <= j < |dropped| && dropped[j] == d;
        assert ranked[i] == k && ranked[MAX_ENTRIES + j] == d;
      }
    }
  }

  // ---- keys stay unique ----

  ghost function Keys(platform: Platform, entries: seq<Entry>): set<Option<string>> {
    set i | 0 <= i < |entries| :: Key(platform, entries[i])
  }

  ghost predicate UniqueKeys(platform: Platform, entries: seq<Entry>) {
    forall i, j :: 0 <= i < j < |entries| ==> Key(platform, entries[i]) != Key(platform, entries[j])
  }

  // Every entry has a key and a positive rank; the reader insists on this.
  predicate Readable(platform: Platform, entries: seq<Entry>) {
    forall i :: 0 <= i < |entries| ==> Key(platform, entries[i]).Some? && entries[i].rank > 0.0
  }

  // Observations name the key of their own path.
  predicate Genuine(platform: Platform, o: Observation) {
    Normalize(platform, o.path) == Some(o.normalized)
  }

  lemma KeysOfCons(platform: Platform, e: Entry, rest: seq<Entry>)
    ensures Keys(platform, [e] + rest) == {Key(platform, e)} + Keys(platform, rest)
  {
    hide Key;
    var all := [e] + rest;
    assert all[0] == e;
    forall k | k in Keys(platform, rest) ensures k in Keys(platform, all) {
      var i :| 0 <= i < |rest| && Key(platform, rest[i]) == k;
      assert all[i + 1] == rest[i];
    }
  }

  lemma UniqueUncons(platform: Platform, e: Entry, rest: seq<Entry>)
    requires UniqueKeys(platform, [e] + rest)
    ensures Key(platform, e) !in Keys(platform, rest) && UniqueKeys(platform, rest)
  {
    hide Key;
    var all := [e] + rest;
    forall i | 0 <= i < |rest| ensures Key(platform, rest[i]) != Key(platform, e) { assert all[0] == e && all[i + 1] == rest[i]; }
    forall i, j | 0 <= i < j < |rest| ensures Key(platform, rest[i]) != Key(platform, rest[j]) {
      assert all[i + 1] == rest[i] && all[j + 1] == rest[j];
    }
  }

  lemma UniqueCons(platform: Platform, e: Entry, rest: seq<Entry>)
    requires Key(platform, e) !in Keys(platform, rest) && UniqueKeys(platform, rest)
    ensures UniqueKeys(platform, [e] + rest)
  {
    hide Key;
    var all := [e] + rest;
    forall i, j | 0 <= i < j < |all| ensures Key(platform, all[i]) != Key(platform, all[j]) {
      assert all[j] == rest[j - 1];
      if i > 0 { assert all[i] == rest[i - 1]; }
    }
  }

  lemma ReadableCons(platform: Platform, e: Entry, rest: seq<Entry>)
    ensures Readable(platform, [e] + rest) <==> Key(platform, e).Some? && e.rank > 0.0 && Readable(platform, rest)
  {
    hide Key;
    var all := [e] + rest;
    assert all[0] == e;
    if Readable(platform, all) {
      forall i | 0 <= i < |rest| ensures Key(platform, rest[i]).Some? && rest[i].rank > 0.0 { assert all[i + 1] == rest[i]; }
    }
  }

  lemma KeysCons(platform: Platform, e: Entry, rest: seq<Entry>)
    ensures Keys(platform, [e] + rest) == {Key(platform, e)} + Keys(platform, rest)
    ensures UniqueKeys(platform, [e] + rest) <==> Key(platform, e) !in Keys(platform, rest) && UniqueKeys(platform, rest)
    ensures Readable(platform, [e] + rest) <==> Key(platform, e).Some? && e.rank > 0.0 && Readable(platform, rest)
  {
    hide *;
    KeysOfCons(platform, e, rest);
    if UniqueKeys(platform, [e] + rest) {
      UniqueUncons(platform, e, rest);
    } else if Key(platform, e) !in Keys(platform, rest) && UniqueKeys(platform, rest) {
      UniqueCons(platform, e, rest);
    }
    ReadableCons(platform, e, rest);
  }

  // Applying a visit touches only its own key.
  lemma {:induction false} AppliedKeepsKeys(platform: Platform, entries: seq<Entry>, o: Observation)
    requires Genuine(platform, o)
    ensures Keys(platform, Applied(platform, entries, o)) == Keys(platform, entries) + {Some(o.normalized)}
    ensures UniqueKeys(platform, entries) ==> UniqueKeys(platform, Applied(platform, entries, o))
    ensures Readable(platform, entries) ==> Readable(platform, Applied(platform, entries, o))
  {
    hide Keys;
    hide UniqueKeys;
    hide Readable;
    NoKeys(platform);
    if entries == [] {
      var e := Entry(o.path, 1.0, o.at);
      KeysCons(platform, e, []);
      assert [e] + [] == [e];
    } else {
      var rest := entries[1..];
      assert entries == [entries[0]] + rest;
      KeysCons(platform, entries[0], rest);
      if Key(platform, entries[0]) == Some(o.normalized) {
        KeysCons(platform, Visit(entries[0], o), rest);
      } else {
        AppliedKeepsKeys(platform, rest, o);
        KeysCons(platform, entries[0], Applied(platform, rest, o));
      }
    }
  }

  lemma NoKeys(platform: Platform)
    ensures Keys(platform, []) == {} && UniqueKeys(platform, []) && Readable(platform, [])
  {
  }

  // `b` holds some entries of `a`, with the same keys.
  ghost predicate Thins(platform: Platform, a: seq<Entry>, b: seq<Entry>) {
    && Keys(platform, b) <= Keys(platform, a)
    && (UniqueKeys(platform, a) ==> UniqueKeys(platform, b))
    && (Readable(platform, a) ==> Readable(platform, b))
  }

  lemma {:induction false} DroppingThins(platform: Platform, entries: seq<Entry>)
    ensures Thins(platform, entries, AtLeastOne(entries))
  {
    hide Keys;
    hide UniqueKeys;
    hide Readable;
    hide Key;
    if entries != [] {
      var rest := entries[1..];
      assert entries == [entries[0]] + rest;
      DroppingThins(platform, rest);
      KeysCons(platform, entries[0], rest);
      KeysCons(platform, entries[0], AtLeastOne(rest));
      assert [] + AtLeastOne(rest) == AtLeastOne(rest);
    }
  }

  lemma {:induction false} ScalingThins(platform: Platform, entries: seq<Entry>, factor: real)
    requires factor > 0.0
    ensures Thins(platform, entries, Scaled(entries, factor))
  {
    hide Key;
    hide Rescaled;
    hide Keys;
    hide UniqueKeys;
    hide Readable;
    if entries == [] {
      assert Scaled(entries, factor) == entries;
    } else {
      var rest := entries[1..];
      assert entries == [entries[0]] + rest;
      ScaledTail(entries, factor);
      assert Scaled(entries, factor) == [Rescaled(entries[0], factor)] + Scaled(rest, factor);
      ScalingThins(platform, rest, factor);
      RescaledEntry(platform, entries[0], factor);
      KeysCons(platform, entries[0], rest);
      KeysCons(platform, Rescaled(entries[0], factor), Scaled(rest, factor));
    }
  }

  lemma RescaledEntry(platform: Platform, e: Entry, factor: real)
    requires factor > 0.0
    ensures Key(platform, Rescaled(e, factor)) == Key(platform, e)
    ensures e.rank > 0.0 ==> Rescaled(e, factor).rank > 0.0
  {
  }

  lemma {:induction false} InsertThins(platform: Platform, e: Entry, entries: seq<Entry>, now: nat)
    ensures Keys(platform, Insert(e, entries, now)) == {Key(platform, e)} + Keys(platform, entries)
    ensures UniqueKeys(platform, [e] + entries) ==> UniqueKeys(platform, Insert(e, entries, now))
    ensures Readable(platform, [e] + entries) ==> Readable(platform, Insert(e, entries, now))
  {
    hide Keys;
    hide UniqueKeys;
    hide Readable;
    hide Key;
    hide Precedes;
    KeysCons(platform, e, entries);
    if entries == [] {
      assert [e] + entries == [e];
    } else {
      var rest := entries[1..];
      assert entries == [entries[0]] + rest;
      InsertThins(platform, e, rest, now);
      KeysCons(platform, entries[0], rest);
      KeysCons(platform, entries[0], Insert(e, rest, now));
      KeysCons(platform, e, rest);
    }
  }

  lemma {:induction false} RankingThins(platform: Platform, entries: seq<Entry>, now: nat)
    ensures Keys(platform, Ranked(entries, now)) == Keys(platform, entries)
    ensures Thins(platform, entries, Ranked(entries, now))
  {
    hide Keys;
    hide UniqueKeys;
    hide Readable;
    hide Key;
    hide Insert;
    if entries != [] {
      var rest := entries[1..];
      assert entries == [entries[0]] + rest;
      RankingThins(platform, rest, now);
      KeysCons(platform, entries[0], rest);
      KeysCons(platform, entries[0], Ranked(rest, now));
      InsertThins(platform, entries[0], Ranked(rest, now), now);
    }
  }

  lemma PrefixThins(platform: Platform, entries: seq<Entry>, n: nat)
    requires n <= |entries|
    ensures Thins(platform, entries, entries[..n])
  {
    hide Key;
  }

  lemma AgingThins(platform: Platform, entries: seq<Entry>, now: nat)
    requires Positive(entries)
    ensures Thins(platform, entries, Aged(entries, now))
  {
    hide Keys;
    hide UniqueKeys;
    hide Readable;
    hide Ranked;
    var total := Total(entries);
    if total > MAX_TOTAL_RANK {
      var factor := 0.9 * MAX_TOTAL_RANK / total;
      assert factor > 0.0;
      ScalingThins(platform, entries, factor);
      DroppingThins(platform, Scaled(entries, factor));
    }
    var faded := Faded(entries);
    RankingThins(platform, faded, now);
    PrefixThins(platform, Ranked(faded, now), Min(MAX_ENTRIES, |Ranked(faded, now)|));
  }
}
