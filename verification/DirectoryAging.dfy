// Which directories survive (nebula_app/src/directory_history.rs): an exact account
// of what aging keeps, and what follows for the directory that was just visited.
// Databases may repeat keys here, as a loaded file may.
module DirectoryAging {
  import opened Text
  import opened DirectoryPaths
  import opened DirectoryDatabase

  // The factor aging applies at a given total rank.
  function Factor(total: real): (f: real)
    ensures f > 0.0
  {
    if total > 10_000.0 then 9_000.0 / total else 1.0
  }

  function FadedRank(total: real, rank: real): real { rank * Factor(total) }

  // Ranks that fading removes at a given total rank.
  predicate Faint(total: real, rank: real) {
    total > 10_000.0 && FadedRank(total, rank) < 1.0
  }

  // The entries fading leaves, with the ranks they had.
  function Unfaded(total: real, entries: seq<Entry>): seq<Entry> {
    if entries == [] then []
    else (if Faint(total, entries[0].rank) then [] else [entries[0]]) + Unfaded(total, entries[1..])
  }

  // How many entries rank before `e`, and how many rank equal to it.
  function Preceding(entries: seq<Entry>, e: Entry, now: nat): nat {
    if entries == [] then 0 else (if Precedes(entries[0], e, now) then 1 else 0) + Preceding(entries[1..], e, now)
  }

  predicate Tie(a: Entry, b: Entry, now: nat) { !Precedes(a, b, now) && !Precedes(b, a, now) }

  function Tied(entries: seq<Entry>, e: Entry, now: nat): nat {
    if entries == [] then 0 else (if Tie(entries[0], e, now) then 1 else 0) + Tied(entries[1..], e, now)
  }

  // An entry's place in the ranking: equals keep their order.
  function Place(entries: seq<Entry>, i: nat, now: nat): nat
    requires i < |entries|
  {
    Preceding(entries, entries[i], now) + Tied(entries[..i], entries[i], now)
  }

  ghost predicate KeptAt(entries: seq<Entry>, i: nat, now: nat) {
    i < |entries| && Place(entries, i, now) < MAX_ENTRIES
  }

  // Some occurrence of the entry does not fade and is placed within the size limit.
  ghost predicate Kept(entries: seq<Entry>, e: Entry, now: nat) {
    var unfaded := Unfaded(Total(entries), entries);
    exists i: nat :: KeptAt(unfaded, i, now) && unfaded[i] == e
  }

  // Some entry with the key does not fade and has fewer than 2,048 unfaded ones before it.
  ghost predicate Survives(platform: Platform, entries: seq<Entry>, key: Option<string>, now: nat) {
    var unfaded := Unfaded(Total(entries), entries);
    exists e :: e in unfaded && Key(platform, e) == key && Preceding(unfaded, e, now) < MAX_ENTRIES
  }

  // ---- the ranking is a strict weak order ----

  lemma PrecedesTransitive(a: Entry, b: Entry, c: Entry, now: nat)
    requires Precedes(a, b, now) && Precedes(b, c, now)
    ensures Precedes(a, c, now)
  {
    hide LexLess;
    hide Score;
    if LexLess(a.path, b.path) && LexLess(b.path, c.path) { LexTransitive(a.path, b.path, c.path); }
  }

  lemma PrecedesIrreflexive(a: Entry, now: nat)
    ensures !Precedes(a, a, now)
  {
    LexIrreflexive(a.path);
  }

  lemma PrecedesAsymmetric(a: Entry, b: Entry, now: nat)
    ensures !(Precedes(a, b, now) && Precedes(b, a, now))
  {
    hide Precedes;
    if Precedes(a, b, now) && Precedes(b, a, now) {
      PrecedesTransitive(a, b, a, now);
      PrecedesIrreflexive(a, now);
    }
  }

  // Entries that tie belong to one path and have one score.
  lemma TiesShareTheirPath(a: Entry, b: Entry, now: nat)
    ensures Tie(a, b, now) <==> a.path == b.path && Score(a, now) == Score(b, now)
  {
    hide LexLess;
    hide Score;
    LexTotal(a.path, b.path);
    LexIrreflexive(a.path);
  }

  lemma WeakOrder(a: Entry, b: Entry, c: Entry, now: nat)
    requires Precedes(a, c, now)
    ensures Precedes(a, b, now) || Precedes(b, c, now)
  {
    hide Precedes;
    if !Precedes(a, b, now) && !Precedes(b, c, now) {
      if Precedes(b, a, now) {
        PrecedesTransitive(b, a, c, now);
      } else if Precedes(c, b, now) {
        PrecedesTransitive(a, c, b, now);
      } else {
        TiesShareTheirPath(a, b, now);
        TiesShareTheirPath(b, c, now);
        TiesShareTheirPath(a, c, now);
      }
    }
  }

  ghost predicate InOrder(entries: seq<Entry>, now: nat) {
    forall i, j :: 0 <= i < j < |entries| ==> !Precedes(entries[j], entries[i], now)
  }

  // ---- the sort puts every entry at its place ----

  // Inserting cuts a sorted list behind the entries that come first.
  lemma {:induction false} InsertCuts(e: Entry, entries: seq<Entry>, now: nat)
    requires InOrder(entries, now)
    ensures
      var k := Preceding(entries, e, now);
      && k <= |entries| && Insert(e, entries, now) == entries[..k] + [e] + entries[k..]
      && (forall p :: 0 <= p < |entries| ==> (Precedes(entries[p], e, now) <==> p < k))
  {
    hide Precedes;
    if entries != [] {
      var rest := entries[1..];
      if Precedes(entries[0], e, now) {
        InsertCuts(e, rest, now);
        var k := Preceding(rest, e, now);
        assert entries[..k + 1] == [entries[0]] + rest[..k] && entries[k + 1..] == rest[k..];
        forall p | 0 <= p < |entries| ensures Precedes(entries[p], e, now) <==> p < k + 1 {
          if p > 0 { assert entries[p] == rest[p - 1]; }
        }
      } else {
        forall p | 0 <= p < |entries| ensures !Precedes(entries[p], e, now) {
          if p > 0 && Precedes(entries[p], e, now) { WeakOrder(entries[p], entries[0], e, now); }
        }
        NonePrecede(entries, e, now);
        assert entries[..0] + [e] + entries[0..] == [e] + entries;
      }
    }
  }

  lemma {:induction false} NonePrecede(entries: seq<Entry>, e: Entry, now: nat)
    requires forall p :: 0 <= p < |entries| ==> !Precedes(entries[p], e, now)
    ensures Preceding(entries, e, now) == 0
  {
    hide Precedes;
    if entries != [] { NonePrecede(entries[1..], e, now); }
  }

  lemma InsertStaysInOrder(e: Entry, entries: seq<Entry>, now: nat)
    requires InOrder(entries, now)
    ensures InOrder(Insert(e, entries, now), now)
  {
    hide Precedes;
    hide Insert;
    InsertCuts(e, entries, now);
    var k, all := Preceding(entries, e, now), Insert(e, entries, now);
    forall i, j | 0 <= i < j < |all| ensures !Precedes(all[j], all[i], now) {
      if i == k {
        assert all[j] == entries[j - 1];
      } else if j == k {
        PrecedesAsymmetric(entries[i], e, now);
      } else {
        assert all[i] == entries[if i < k then i else i - 1] && all[j] == entries[if j < k then j else j - 1];
      }
    }
  }

  lemma {:induction false} InsertCounts(x: Entry, entries: seq<Entry>, e: Entry, now: nat)
    ensures Preceding(Insert(x, entries, now), e, now) == Preceding([x] + entries, e, now)
  {
    hide Precedes;
    assert ([x] + entries)[1..] == entries;
    if entries != [] {
      var rest := entries[1..];
      InsertCounts(x, rest, e, now);
      assert ([x] + rest)[1..] == rest;
      assert ([entries[0]] + Insert(x, rest, now))[1..] == Insert(x, rest, now);
    }
  }

  lemma {:induction false} RankedCounts(entries: seq<Entry>, e: Entry, now: nat)
    ensures Preceding(Ranked(entries, now), e, now) == Preceding(entries, e, now)
  {
    hide Precedes;
    hide Insert;
    if entries != [] {
      var rest := Ranked(entries[1..], now);
      RankedCounts(entries[1..], e, now);
      InsertCounts(entries[0], rest, e, now);
      assert ([entries[0]] + rest)[1..] == rest;
    }
  }

  lemma {:induction false} RankedInOrder(entries: seq<Entry>, now: nat)
    ensures InOrder(Ranked(entries, now), now)
  {
    hide Insert;
    hide Precedes;
    if entries != [] {
      RankedInOrder(entries[1..], now);
      InsertStaysInOrder(entries[0], Ranked(entries[1..], now), now);
    }
  }

  // Putting one more entry in front moves the places it goes before.
  lemma PlaceBehindFirst(entries: seq<Entry>, i: nat, now: nat)
    requires 0 < i < |entries|
    ensures Place(entries, i, now) == Place(entries[1..], i - 1, now) + (if Precedes(entries[i], entries[0], now) then 0 else 1)
  {
    hide Precedes;
    var rest, x := entries[1..], entries[i];
    assert rest[i - 1] == x;
    assert entries[..i][1..] == rest[..i - 1] && entries[..i][0] == entries[0];
    PrecedesAsymmetric(entries[0], x, now);
  }

  lemma PlaceOfFirst(entries: seq<Entry>, now: nat)
    requires entries != []
    ensures Place(entries, 0, now) == Preceding(entries[1..], entries[0], now)
  {
    hide Precedes;
    PrecedesIrreflexive(entries[0], now);
    assert entries[..0] == [];
  }

  // How inserting the first entry shifts the ranking of the others.
  lemma FirstCuts(entries: seq<Entry>, now: nat)
    requires entries != []
    ensures
      var rest, k := Ranked(entries[1..], now), Place(entries, 0, now);
      && |rest| == |entries| - 1 && k <= |rest| && Ranked(entries, now) == rest[..k] + [entries[0]] + rest[k..]
      && (forall p :: 0 <= p < |rest| ==> (Precedes(rest[p], entries[0], now) <==> p < k))
  {
    hide Precedes;
    hide Insert;
    hide Preceding;
    var rest := Ranked(entries[1..], now);
    RankedPermutes(entries[1..], now);
    RankedInOrder(entries[1..], now);
    InsertCuts(entries[0], rest, now);
    RankedCounts(entries[1..], entries[0], now);
    PlaceOfFirst(entries, now);
  }

  lemma {:induction false} RankedAtPlace(entries: seq<Entry>, i: nat, now: nat)
    requires i < |entries|
    ensures Place(entries, i, now) < |Ranked(entries, now)| == |entries|
    ensures Ranked(entries, now)[Place(entries, i, now)] == entries[i]
  {
    hide Precedes;
    hide Ranked;
    hide Place;
    FirstCuts(entries, now);
    if i > 0 {
      RankedAtPlace(entries[1..], i - 1, now);
      PlaceBehindFirst(entries, i, now);
    }
  }

  // Different entries have different places, and every place is taken.
  lemma {:induction false} PlacesDiffer(entries: seq<Entry>, i: nat, j: nat, now: nat)
    requires i < j < |entries|
    ensures Place(entries, i, now) != Place(entries, j, now)
  {
    hide Precedes;
    hide Ranked;
    hide Place;
    FirstCuts(entries, now);
    RankedAtPlace(entries[1..], j - 1, now);
    PlaceBehindFirst(entries, j, now);
    if i > 0 {
      RankedAtPlace(entries[1..], i - 1, now);
      PlaceBehindFirst(entries, i, now);
      PlacesDiffer(entries[1..], i - 1, j - 1, now);
    }
  }

  lemma {:induction false} PlaceIsTaken(entries: seq<Entry>, p: nat, now: nat) returns (i: nat)
    requires p < |entries|
    ensures i < |entries| && Place(entries, i, now) == p
  {
    hide Precedes;
    hide Ranked;
    hide Place;
    FirstCuts(entries, now);
    var k := Place(entries, 0, now);
    if p == k {
      i := 0;
    } else {
      var i' := PlaceIsTaken(entries[1..], if p < k then p else p - 1, now);
      i := i' + 1;
      RankedAtPlace(entries[1..], i', now);
      PlaceBehindFirst(entries, i, now);
    }
  }

  // The size limit keeps exactly the entries placed within it.
  lemma LimitedExactly(entries: seq<Entry>, e: Entry, now: nat)
    ensures e in Limited(entries, now) <==> exists i: nat :: KeptAt(entries, i, now) && entries[i] == e
  {
    hide Place;
    hide Ranked;
    var ranked := Ranked(entries, now);
    RankedPermutes(entries, now);
    if i: nat :| KeptAt(entries, i, now) && entries[i] == e {
      RankedAtPlace(entries, i, now);
      if |entries| > MAX_ENTRIES { assert ranked[..MAX_ENTRIES][Place(entries, i, now)] == e; }
    }
    if e in Limited(entries, now) {
      if |entries| <= MAX_ENTRIES {
        var i :| 0 <= i < |entries| && entries[i] == e;
        RankedAtPlace(entries, i, now);
        assert KeptAt(entries, i, now);
      } else {
        var p :| 0 <= p < MAX_ENTRIES && ranked[..MAX_ENTRIES][p] == e;
        var i := PlaceIsTaken(entries, p, now);
        RankedAtPlace(entries, i, now);
        assert KeptAt(entries, i, now);
      }
    }
  }

  // ---- fading and rescaling commute with the ranking ----

  lemma RescalingKeepsPlace(a: Entry, b: Entry, factor: real, now: nat)
    requires factor > 0.0
    ensures Precedes(Rescaled(a, factor), Rescaled(b, factor), now) <==> Precedes(a, b, now)
  {
    hide Score;
    RescalingKeepsOrder(a, b, factor, now);
    RescalingKeepsOrder(b, a, factor, now);
  }

  lemma ScaledCons(e: Entry, entries: seq<Entry>, factor: real)
    ensures Scaled([e] + entries, factor) == [Rescaled(e, factor)] + Scaled(entries, factor)
  {
    hide Rescaled;
  }

  lemma {:induction false} ScaledInsert(e: Entry, entries: seq<Entry>, factor: real, now: nat)
    requires factor > 0.0
    ensures Insert(Rescaled(e, factor), Scaled(entries, factor), now) == Scaled(Insert(e, entries, now), factor)
  {
    hide Precedes;
    hide Rescaled;
    if entries == [] {
      assert Scaled([], factor) == [];
      assert Scaled([e], factor) == [Rescaled(e, factor)];
    } else {
      var rest := entries[1..];
      assert entries == [entries[0]] + rest;
      ScaledCons(entries[0], rest, factor);
      assert Scaled(entries, factor)[1..] == Scaled(rest, factor);
      RescalingKeepsPlace(entries[0], e, factor, now);
      ScaledInsert(e, rest, factor, now);
      ScaledCons(entries[0], Insert(e, rest, now), factor);
      ScaledCons(e, entries, factor);
    }
  }

  lemma {:induction false} ScaledRanked(entries: seq<Entry>, factor: real, now: nat)
    requires factor > 0.0
    ensures Ranked(Scaled(entries, factor), now) == Scaled(Ranked(entries, now), factor)
  {
    hide Insert;
    hide Rescaled;
    if entries != [] {
      var rest := entries[1..];
      assert entries == [entries[0]] + rest;
      ScaledCons(entries[0], rest, factor);
      assert Scaled(entries, factor)[1..] == Scaled(rest, factor);
      ScaledRanked(rest, factor, now);
      ScaledInsert(entries[0], Ranked(rest, now), factor, now);
    }
  }

  lemma ScaledLimited(entries: seq<Entry>, factor: real, now: nat)
    requires factor > 0.0
    ensures Limited(Scaled(entries, factor), now) == Scaled(Limited(entries, now), factor)
  {
    hide Ranked;
    hide Rescaled;
    ScaledRanked(entries, factor, now);
    var n := Min(MAX_ENTRIES, |Ranked(entries, now)|);
    assert Scaled(Ranked(entries, now), factor)[..n] == Scaled(Ranked(entries, now)[..n], factor);
  }

  lemma NothingScaled(factor: real)
    ensures Scaled([], factor) == []
  {
  }

  lemma FaintIsBelowOne(total: real, e: Entry)
    requires total > MAX_TOTAL_RANK
    ensures Faint(total, e.rank) <==> Rescaled(e, Factor(total)).rank < 1.0
  {
    hide Factor;
  }

  lemma {:induction false} DroppingIsUnfading(total: real, entries: seq<Entry>)
    requires total > MAX_TOTAL_RANK
    ensures AtLeastOne(Scaled(entries, Factor(total))) == Scaled(Unfaded(total, entries), Factor(total))
  {
    hide Factor;
    hide Rescaled;
    hide Faint;
    hide Scaled;
    var f := Factor(total);
    if entries == [] {
      NothingScaled(f);
    } else {
      var rest := entries[1..];
      FaintIsBelowOne(total, entries[0]);
      assert entries == [entries[0]] + rest;
      ScaledCons(entries[0], rest, f);
      assert Scaled(entries, f)[0] == Rescaled(entries[0], f) && Scaled(entries, f)[1..] == Scaled(rest, f);
      DroppingIsUnfading(total, rest);
      ScaledCons(entries[0], Unfaded(total, rest), f);
      assert [] + Unfaded(total, rest) == Unfaded(total, rest);
      assert [] + AtLeastOne(Scaled(rest, f)) == AtLeastOne(Scaled(rest, f));
    }
  }

  lemma {:induction false} NothingFades(total: real, entries: seq<Entry>)
    requires total <= MAX_TOTAL_RANK
    ensures Unfaded(total, entries) == entries
  {
    if entries != [] {
      NothingFades(total, entries[1..]);
      assert entries == [entries[0]] + entries[1..];
    }
  }

  lemma RescaledByOne(entries: seq<Entry>)
    ensures Scaled(entries, 1.0) == entries
  {
    forall i | 0 <= i < |entries| ensures Rescaled(entries[i], 1.0) == entries[i] {
      assert entries[i].rank * 1.0 == entries[i].rank;
    }
  }

  lemma FadedIsScaled(entries: seq<Entry>)
    ensures Faded(entries) == Scaled(Unfaded(Total(entries), entries), Factor(Total(entries)))
  {
    hide Total;
    hide Scaled;
    hide Unfaded;
    var total := Total(entries);
    if total > MAX_TOTAL_RANK {
      DroppingIsUnfading(total, entries);
    } else {
      NothingFades(total, entries);
      RescaledByOne(entries);
    }
  }

  lemma {:induction false} UnfadedMembers(total: real, entries: seq<Entry>, e: Entry)
    ensures e in Unfaded(total, entries) <==> e in entries && !Faint(total, e.rank)
  {
    hide Faint;
    if entries != [] { UnfadedMembers(total, entries[1..], e); }
  }

  // ---- what aging keeps ----

  // Aging is the size limit on the unfaded entries, rescaled.
  lemma AgedIsScaledLimit(entries: seq<Entry>, now: nat)
    ensures Aged(entries, now) == Scaled(Limited(Unfaded(Total(entries), entries), now), Factor(Total(entries)))
  {
    hide Total;
    hide Scaled;
    hide Limited;
    hide Faded;
    hide Unfaded;
    FadedIsScaled(entries);
    ScaledLimited(Unfaded(Total(entries), entries), Factor(Total(entries)), now);
  }

  lemma ScaledMembers(entries: seq<Entry>, factor: real, a: Entry)
    ensures a in Scaled(entries, factor) <==> exists e :: e in entries && a == Rescaled(e, factor)
  {
    hide Rescaled;
    if e :| e in entries && a == Rescaled(e, factor) {
      var i :| 0 <= i < |entries| && entries[i] == e;
      assert Scaled(entries, factor)[i] == a;
    }
  }

  // Aging leaves exactly the rescaled entries that do not fade and have a place among
  // the first 2,048 of those that do not fade.
  lemma AgedExactly(entries: seq<Entry>, a: Entry, now: nat)
    ensures a in Aged(entries, now) <==> exists e :: Kept(entries, e, now) && a == Rescaled(e, Factor(Total(entries)))
  {
    hide Total;
    hide Aged;
    hide Limited;
    hide Unfaded;
    hide KeptAt;
    hide Factor;
    hide Rescaled;
    hide Scaled;
    AgedIsScaledLimit(entries, now);
    var unfaded := Unfaded(Total(entries), entries);
    ScaledMembers(Limited(unfaded, now), Factor(Total(entries)), a);
    forall e ensures e in Limited(unfaded, now) <==> Kept(entries, e, now) { LimitedExactly(unfaded, e, now); }
  }

  lemma KeptIsUnfaded(entries: seq<Entry>, e: Entry, now: nat)
    requires Kept(entries, e, now)
    ensures e in entries && !Faint(Total(entries), e.rank)
  {
    hide Faint;
    hide Total;
    hide Place;
    hide Unfaded;
    var unfaded := Unfaded(Total(entries), entries);
    var i: nat :| KeptAt(unfaded, i, now) && unfaded[i] == e;
    UnfadedMembers(Total(entries), entries, e);
  }

  lemma {:induction false} BetterHasFewerBefore(entries: seq<Entry>, d: Entry, k: Entry, now: nat)
    requires Precedes(d, k, now)
    ensures Preceding(entries, d, now) + Tied(entries, d, now) <= Preceding(entries, k, now)
  {
    hide Precedes;
    if entries != [] {
      BetterHasFewerBefore(entries[1..], d, k, now);
      var x := entries[0];
      if !Precedes(x, k, now) { WeakOrder(d, x, k, now); PrecedesAsymmetric(x, d, now); }
    }
  }

  lemma {:induction false} TiedPrefix(entries: seq<Entry>, n: nat, e: Entry, now: nat)
    requires n <= |entries|
    ensures Tied(entries[..n], e, now) <= Tied(entries, e, now)
  {
    hide Tie;
    if n > 0 {
      assert entries[..n][1..] == entries[1..][..n - 1];
      TiedPrefix(entries[1..], n - 1, e, now);
    }
  }

  // An entry that scores above a kept one is itself kept, exactly unless it fades.
  lemma OnlyFadingDropsTheBetter(entries: seq<Entry>, k: Entry, d: Entry, now: nat)
    requires Kept(entries, k, now) && d in entries && Score(d, now) > Score(k, now)
    ensures Kept(entries, d, now) <==> !Faint(Total(entries), d.rank)
    ensures Faint(Total(entries), d.rank) ==> d.rank < k.rank
  {
    hide Total;
    hide Score;
    hide Faint;
    hide Unfaded;
    hide Preceding;
    hide Tied;
    var total := Total(entries);
    var unfaded := Unfaded(total, entries);
    UnfadedMembers(total, entries, d);
    KeptIsUnfaded(entries, k, now);
    if Faint(total, d.rank) {
      if Kept(entries, d, now) { KeptIsUnfaded(entries, d, now); }
      FainterIsLower(total, d.rank, k.rank);
    } else {
      var i :| 0 <= i < |unfaded| && unfaded[i] == d;
      BetterHasFewerBefore(unfaded, d, k, now);
      TiedPrefix(unfaded, i, d, now);
      assert KeptAt(unfaded, i, now);
    }
  }

  lemma FainterIsLower(total: real, a: real, b: real)
    requires Faint(total, a) && !Faint(total, b)
    ensures a < b
  {
    hide FadedRank;
    if a >= b { FadingIsMonotone(total, b, a); }
  }

  lemma FadingIsMonotone(total: real, a: real, b: real)
    requires a <= b
    ensures FadedRank(total, a) <= FadedRank(total, b)
  {
    hide Factor;
    var f := Factor(total);
    assert (b - a) * f >= 0.0;
  }

  // With ranks 10,000 and 1.2 from long ago, a first visit a moment ago has the second
  // best score and is the one that is dropped.
  lemma FadingDropsTheBetterHappens()
    ensures
      var strong, weak, recent := Entry("a", 10_000.0, 0), Entry("b", 1.2, 0), Entry("c", 1.0, WEEK);
      var entries := [strong, weak, recent];
      && Score(recent, WEEK) > Score(weak, WEEK) && Faint(Total(entries), recent.rank)
      && (exists a :: a in Aged(entries, WEEK) && a.path == "b")
      && (forall a :: a in Aged(entries, WEEK) ==> a.path != "c")
  {
    hide Precedes;
    hide Aged;
    hide Kept;
    var strong, weak, recent := Entry("a", 10_000.0, 0), Entry("b", 1.2, 0), Entry("c", 1.0, WEEK);
    var entries := [strong, weak, recent];
    assert entries[1..] == [weak, recent] && [weak, recent][1..] == [recent] && [recent][1..] == [];
    assert Total([recent]) == 1.0;
    assert Total([weak, recent]) == 2.2;
    var total := Total(entries);
    assert total == 10_002.2;
    assert !Faint(total, weak.rank) && Faint(total, recent.rank);
    FewAreKept(entries, weak, WEEK);
    AgedExactly(entries, Rescaled(weak, Factor(total)), WEEK);
    assert Rescaled(weak, Factor(total)).path == "b";
    forall a | a in Aged(entries, WEEK) ensures a.path != "c" {
      AgedExactly(entries, a, WEEK);
      var e :| Kept(entries, e, WEEK) && a == Rescaled(e, Factor(total));
      KeptIsUnfaded(entries, e, WEEK);
    }
  }

  // The size limit drops nothing while there are few entries.
  lemma FewAreKept(entries: seq<Entry>, e: Entry, now: nat)
    requires e in entries && !Faint(Total(entries), e.rank) && |entries| <= MAX_ENTRIES
    ensures Kept(entries, e, now)
  {
    hide Total;
    hide Faint;
    hide Place;
    hide Unfaded;
    var unfaded := Unfaded(Total(entries), entries);
    UnfadedMembers(Total(entries), entries, e);
    UnfadedIsShorter(Total(entries), entries);
    var i :| 0 <= i < |unfaded| && unfaded[i] == e;
    RankedAtPlace(unfaded, i, now);
    assert KeptAt(unfaded, i, now);
  }

  lemma {:induction false} UnfadedIsShorter(total: real, entries: seq<Entry>)
    ensures |Unfaded(total, entries)| <= |entries|
  {
    hide Faint;
    if entries != [] { UnfadedIsShorter(total, entries[1..]); }
  }

  // ---- which keys survive ----

  lemma {:induction false} FirstTie(entries: seq<Entry>, e: Entry, now: nat) returns (i: nat)
    requires e in entries
    ensures i < |entries| && Tie(entries[i], e, now) && Tied(entries[..i], e, now) == 0
  {
    hide Precedes;
    if Tie(entries[0], e, now) {
      i := 0;
      assert entries[..0] == [];
    } else {
      PrecedesIrreflexive(e, now);
      var i' := FirstTie(entries[1..], e, now);
      i := i' + 1;
      assert entries[..i][1..] == entries[1..][..i'] && entries[..i][0] == entries[0];
    }
  }

  lemma {:induction false} TiesCountAlike(entries: seq<Entry>, a: Entry, b: Entry, now: nat)
    requires Tie(a, b, now)
    ensures Preceding(entries, a, now) == Preceding(entries, b, now) && Tied(entries, a, now) == Tied(entries, b, now)
  {
    hide Score;
    hide LexLess;
    TiesShareTheirPath(a, b, now);
    if entries != [] { TiesCountAlike(entries[1..], a, b, now); }
  }

  lemma KeysMember(platform: Platform, entries: seq<Entry>, key: Option<string>)
    ensures key in Keys(platform, entries) <==> exists a :: a in entries && Key(platform, a) == key
  {
    hide Key;
    if a :| a in entries && Key(platform, a) == key {
      var i :| 0 <= i < |entries| && entries[i] == a;
    }
  }

  lemma ScaledKeys(platform: Platform, entries: seq<Entry>, factor: real)
    requires factor > 0.0
    ensures |Scaled(entries, factor)| == |entries|
    ensures forall i :: 0 <= i < |entries| ==> Key(platform, Scaled(entries, factor)[i]) == Key(platform, entries[i])
    ensures Keys(platform, Scaled(entries, factor)) == Keys(platform, entries)
  {
    hide Key;
    forall i | 0 <= i < |entries| ensures Key(platform, Scaled(entries, factor)[i]) == Key(platform, entries[i]) {
      RescaledEntry(platform, entries[i], factor);
    }
  }

  // A key survives aging exactly when an entry with it does not fade and has fewer than
  // 2,048 unfaded entries before it.
  lemma KeySurvivesExactly(platform: Platform, entries: seq<Entry>, key: Option<string>, now: nat)
    ensures key in Keys(platform, Aged(entries, now)) <==> Survives(platform, entries, key, now)
  {
    hide Total;
    hide Aged;
    hide Keys;
    hide Limited;
    hide Unfaded;
    hide Factor;
    hide Scaled;
    hide Key;
    AgedIsScaledLimit(entries, now);
    var unfaded := Unfaded(Total(entries), entries);
    ScaledKeys(platform, Limited(unfaded, now), Factor(Total(entries)));
    LimitedKeys(platform, unfaded, key, now);
  }

  lemma LimitedKeys(platform: Platform, entries: seq<Entry>, key: Option<string>, now: nat)
    ensures key in Keys(platform, Limited(entries, now)) <==>
            exists e :: e in entries && Key(platform, e) == key && Preceding(entries, e, now) < MAX_ENTRIES
  {
    hide Limited;
    hide Keys;
    hide Preceding;
    hide Tied;
    hide Tie;
    KeysMember(platform, Limited(entries, now), key);
    if a :| a in Limited(entries, now) && Key(platform, a) == key {
      LimitedExactly(entries, a, now);
    }
    if e :| e in entries && Key(platform, e) == key && Preceding(entries, e, now) < MAX_ENTRIES {
      var i := FirstTie(entries, e, now);
      TiesShareTheirPath(entries[i], e, now);
      TiesCountAlike(entries, entries[i], e, now);
      TiesCountAlike(entries[..i], entries[i], e, now);
      assert KeptAt(entries, i, now);
      LimitedExactly(entries, entries[i], now);
    }
  }

  // No two survivors share a key.
  ghost predicate SurvivorsDiffer(platform: Platform, entries: seq<Entry>, now: nat) {
    var unfaded := Unfaded(Total(entries), entries);
    forall i: nat, j: nat :: i < j && KeptAt(unfaded, i, now) && KeptAt(unfaded, j, now) ==>
      Key(platform, unfaded[i]) != Key(platform, unfaded[j])
  }

  lemma LimitedUnique(platform: Platform, entries: seq<Entry>, now: nat)
    ensures UniqueKeys(platform, Limited(entries, now)) <==>
            forall i: nat, j: nat :: i < j && KeptAt(entries, i, now) && KeptAt(entries, j, now) ==>
              Key(platform, entries[i]) != Key(platform, entries[j])
  {
    hide Ranked;
    hide Place;
    hide Key;
    var kept := Limited(entries, now);
    RankedPermutes(entries, now);
    if |entries| <= MAX_ENTRIES {
      forall i: nat | i < |entries| ensures KeptAt(entries, i, now) { RankedAtPlace(entries, i, now); }
    } else {
      if UniqueKeys(platform, kept) {
        forall i: nat, j: nat | i < j && KeptAt(entries, i, now) && KeptAt(entries, j, now)
          ensures Key(platform, entries[i]) != Key(platform, entries[j])
        {
          RankedAtPlace(entries, i, now);
          RankedAtPlace(entries, j, now);
          PlacesDiffer(entries, i, j, now);
          assert kept[Place(entries, i, now)] == entries[i] && kept[Place(entries, j, now)] == entries[j];
        }
      } else {
        var p, q :| 0 <= p < q < |kept| && Key(platform, kept[p]) == Key(platform, kept[q]);
        var i := PlaceIsTaken(entries, p, now);
        var j := PlaceIsTaken(entries, q, now);
        RankedAtPlace(entries, i, now);
        RankedAtPlace(entries, j, now);
        assert KeptAt(entries, i, now) && KeptAt(entries, j, now);
        assert kept[p] == entries[i] && kept[q] == entries[j];
      }
    }
  }

  // Aging leaves one entry per key exactly when no two survivors share one.
  lemma AgedUniqueExactly(platform: Platform, entries: seq<Entry>, now: nat)
    ensures UniqueKeys(platform, Aged(entries, now)) <==> SurvivorsDiffer(platform, entries, now)
  {
    hide Total;
    hide Aged;
    hide Limited;
    hide Unfaded;
    hide Factor;
    hide Scaled;
    hide Key;
    hide KeptAt;
    AgedIsScaledLimit(entries, now);
    var unfaded := Unfaded(Total(entries), entries);
    ScaledKeys(platform, Limited(unfaded, now), Factor(Total(entries)));
    LimitedUnique(platform, unfaded, now);
  }

  // ---- the directory that was just visited ----

  // The entry a visit raises or creates.
  function Visited(platform: Platform, entries: seq<Entry>, o: Observation): Entry {
    if entries == [] then Entry(o.path, 1.0, o.at)
    else if Key(platform, entries[0]) == Some(o.normalized) then Visit(entries[0], o)
    else Visited(platform, entries[1..], o)
  }

  ghost predicate AtMostOnce(platform: Platform, entries: seq<Entry>, key: Option<string>) {
    forall i, j :: 0 <= i < j < |entries| && Key(platform, entries[i]) == key ==> Key(platform, entries[j]) != key
  }

  lemma {:induction false} AppliedMembers(platform: Platform, entries: seq<Entry>, o: Observation, e: Entry)
    requires AtMostOnce(platform, entries, Some(o.normalized))
    ensures e in Applied(platform, entries, o) <==>
            e == Visited(platform, entries, o) || (e in entries && Key(platform, e) != Some(o.normalized))
  {
    hide Key;
    hide Visit;
    if entries != [] {
      var rest := entries[1..];
      assert forall i :: 0 <= i < |rest| ==> rest[i] == entries[i + 1];
      if Key(platform, entries[0]) != Some(o.normalized) { AppliedMembers(platform, rest, o, e); }
    }
  }

  lemma {:induction false} AppliedAddsOne(platform: Platform, entries: seq<Entry>, o: Observation)
    requires Positive(entries)
    ensures Total(Applied(platform, entries, o)) == Total(entries) + 1.0
  {
    hide Key;
    if entries != [] {
      var rest := entries[1..];
      AppliedAddsOne(platform, rest, o);
      assert ([Visit(entries[0], o)] + rest)[1..] == rest;
      assert ([entries[0]] + Applied(platform, rest, o))[1..] == Applied(platform, rest, o);
    } else {
      assert [Entry(o.path, 1.0, o.at)][1..] == [];
    }
  }

  lemma {:induction false} VisitedHasItsKey(platform: Platform, entries: seq<Entry>, o: Observation)
    requires Genuine(platform, o)
    ensures Key(platform, Visited(platform, entries, o)) == Some(o.normalized)
  {
    if entries != [] { VisitedHasItsKey(platform, entries[1..], o); }
  }

  // A visit raises the score.
  lemma VisitScoresHigher(e: Entry, o: Observation, now: nat)
    requires e.rank > 0.0
    ensures !Precedes(e, Visit(e, o), now)
  {
    hide LexLess;
    var v := Visit(e, o);
    var r, s := Recency(e.lastAccessed, now), Recency(v.lastAccessed, now);
    assert 0.0 < r <= s;
    assert v.rank * s >= v.rank * r;
    assert v.rank * r == e.rank * r + r;
  }

  // For the visited entry, the others before it are those before the visit.
  lemma {:induction false} VisitKeepsRivals(platform: Platform, entries: seq<Entry>, o: Observation, total: real, now: nat)
    requires Positive(entries)
    ensures
      var v := Visited(platform, entries, o);
      Preceding(Unfaded(total, Applied(platform, entries, o)), v, now) == Preceding(Unfaded(total, entries), v, now)
  {
    hide Precedes;
    hide Faint;
    hide Key;
    hide Visit;
    var v := Visited(platform, entries, o);
    PrecedesIrreflexive(v, now);
    if entries == [] {
      PrecedingUnfaded(total, v, [], v, now);
      assert [v] + [] == [v];
    } else {
      var rest := entries[1..];
      assert entries == [entries[0]] + rest;
      PrecedingUnfaded(total, entries[0], rest, v, now);
      if Key(platform, entries[0]) == Some(o.normalized) {
        VisitScoresHigher(entries[0], o, now);
        PrecedingUnfaded(total, v, rest, v, now);
      } else {
        VisitKeepsRivals(platform, rest, o, total, now);
        PrecedingUnfaded(total, entries[0], Applied(platform, rest, o), v, now);
      }
    }
  }

  lemma PrecedingUnfaded(total: real, x: Entry, rest: seq<Entry>, v: Entry, now: nat)
    ensures Preceding(Unfaded(total, [x] + rest), v, now) ==
            (if !Faint(total, x.rank) && Precedes(x, v, now) then 1 else 0) + Preceding(Unfaded(total, rest), v, now)
  {
    hide Precedes;
    hide Faint;
    assert ([x] + rest)[1..] == rest;
    assert ([x] + Unfaded(total, rest))[1..] == Unfaded(total, rest);
    assert [] + Unfaded(total, rest) == Unfaded(total, rest);
  }

  // In a database with at most one entry for it, a visited directory is still there
  // after the aging behind its visit if and only if its new rank does not fade at the
  // new total rank, and fewer than 2,048 directories that do not fade go before it.
  lemma VisitIsKeptExactly(platform: Platform, entries: seq<Entry>, o: Observation, now: nat)
    requires Readable(platform, entries) && AtMostOnce(platform, entries, Some(o.normalized)) && Genuine(platform, o)
    ensures Some(o.normalized) in Keys(platform, Aged(Applied(platform, entries, o), now)) <==>
            && !Faint(Total(entries) + 1.0, Visited(platform, entries, o).rank)
            && Preceding(Unfaded(Total(entries) + 1.0, entries), Visited(platform, entries, o), now) < MAX_ENTRIES
  {
    hide Total;
    hide Applied;
    hide Visited;
    hide Aged;
    hide Faint;
    hide Genuine;
    hide Key;
    hide Keys;
    hide Unfaded;
    hide Preceding;
    hide AtMostOnce;
    var applied, v, total := Applied(platform, entries, o), Visited(platform, entries, o), Total(entries) + 1.0;
    AppliedAddsOne(platform, entries, o);
    KeySurvivesExactly(platform, applied, Some(o.normalized), now);
    VisitKeepsRivals(platform, entries, o, total, now);
    VisitedHasItsKey(platform, entries, o);
    AppliedMembers(platform, entries, o, v);
    UnfadedMembers(total, applied, v);
    forall e | e in Unfaded(total, applied) && Key(platform, e) == Some(o.normalized) ensures e == v {
      UnfadedMembers(total, applied, e);
      AppliedMembers(platform, entries, o, e);
    }
  }

  // A first visit to a full database fades with the aging behind it.
  lemma FirstVisitFades(platform: Platform, o: Observation, now: nat)
    requires Genuine(platform, o) && o.normalized != "b"
    ensures
      var entries := [Entry("b", 10_000.0, 0)];
      Readable(platform, entries) && UniqueKeys(platform, entries) && Some(o.normalized) !in Keys(platform, Aged(Applied(platform, entries, o), now))
  {
    hide Aged;
    hide Applied;
    hide Genuine;
    hide Keys;
    hide Preceding;
    var entries := [Entry("b", 10_000.0, 0)];
    assert Folded("b") == "b";
    assert entries[1..] == [];
    assert Total(entries) == 10_000.0;
    assert Visited(platform, entries, o) == Entry(o.path, 1.0, o.at);
    VisitIsKeptExactly(platform, entries, o, now);
  }
}
