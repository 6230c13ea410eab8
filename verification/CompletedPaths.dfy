// What path completion finds (nebula-completions/src/file.rs), told by paths and
// directory entries instead of a search.
//
// A way picks a starting path and, for every component asked for, an entry of the
// directory reached so far. The theorems are that completion returns the path of every
// admissible way, once, and nothing else, in the order of the matcher.
module CompletedPaths {
  import opened Text
  import opened NDots
  import opened PathCompletion

  datatype Way = Way(start: nat, picks: seq<nat>)

  // The components asked for; behind a final separator, or when nothing is typed, any
  // name will do.
  function Asked(partial: seq<string>, o: Options): (comps: seq<string>)
    ensures comps != []
  {
    if partial == [] || o.isDir then partial + [""] else partial
  }

  // `.` and `..` with more behind them are kept as they are.
  predicate Verbatim(comps: seq<string>, j: nat) {
    j < |comps| - 1 && (comps[j] == "." || comps[j] == "..")
  }

  // Entry `pick` of a directory, if it may be offered.
  function EntryAt(w: World, cwd: string, texts: seq<string>, want: bool, pick: nat): Option<Entry> {
    match w.readDir(cwd, texts)
    case None => None
    case Some(entries) => if pick < |entries| && (want ==> entries[pick].isDir) then Some(entries[pick]) else None
  }

  // ---- typed names ----

  // The way spells the first `n` components out: every entry has exactly the typed name.
  ghost predicate SpeltOut(w: World, starts: seq<Built>, comps: seq<string>, want: bool, n: nat, way: Way, texts: seq<string>) {
    && way.start < |starts| && |way.picks| == n == |texts| && n <= |comps|
    && forall j :: 0 <= j < n ==> SpeltAt(w, starts[way.start], comps, want, j, way.picks[j], texts)
  }

  ghost predicate SpeltAt(w: World, s: Built, comps: seq<string>, want: bool, j: nat, pick: nat, texts: seq<string>)
    requires j < |texts| <= |comps|
  {
    if Verbatim(comps, j) then texts[j] == comps[j] && pick == 0
    else
      var e := EntryAt(w, s.cwd, Texts(s.parts) + texts[..j], want, pick);
      e.Some? && e.value.name == texts[j] && w.sameName(texts[j], comps[j])
  }

  // There is exactly one way to spell them out.
  ghost predicate SpeltOnce(w: World, starts: seq<Built>, comps: seq<string>, want: bool, n: nat) {
    exists way, texts :: SpeltOut(w, starts, comps, want, n, way, texts) && SpeltOnlyBy(w, starts, comps, want, n, way)
  }

  ghost predicate SpeltOnlyBy(w: World, starts: seq<Built>, comps: seq<string>, want: bool, n: nat, way: Way) {
    forall way', texts' :: SpeltOut(w, starts, comps, want, n, way', texts') ==> way' == way
  }

  // With exact matching on, a typed name is taken as it is, without looking further, as
  // long as there is exactly one way to spell out everything up to it.
  ghost predicate Taken(w: World, starts: seq<Built>, comps: seq<string>, want: bool, exact: bool, j: nat) {
    && exact && j < |comps| - 1 && !Verbatim(comps, j)
    && forall i :: 0 <= i <= j && !Verbatim(comps, i) ==> SpeltOnce(w, starts, comps, want, i + 1)
  }

  // ---- paths ----

  // Part `j` behind the starting path is the component itself, or an entry of the
  // directory reached by the parts before it that is taken or matched.
  ghost predicate PartFits(w: World, comps: seq<string>, want: bool, taken: bool, b: Built, base: nat, j: nat, pick: nat)
    requires j < |comps| && base + j < |b.parts|
  {
    var part := b.parts[base + j];
    if Verbatim(comps, j) then part == Part(comps[j], []) && pick == 0
    else
      var e := EntryAt(w, b.cwd, Texts(b.parts[..base + j]), want, pick);
      && e.Some? && e.value.name == part.text
      && (if taken then w.sameName(part.text, comps[j]) && part.matches == w.everyPosition(part.text)
          else w.positions(comps[j], part.text) == Some(part.matches))
      && (j == |comps| - 1 ==> b.isDir == e.value.isDir)
  }

  // The way leads to the path.
  ghost predicate LeadsTo(w: World, starts: seq<Built>, comps: seq<string>, want: bool, exact: bool, way: Way, b: Built) {
    && way.start < |starts| && |way.picks| == |comps|
    && var s := starts[way.start];
       && b.cwd == s.cwd && |b.parts| == |s.parts| + |comps| && b.parts[..|s.parts|] == s.parts
       && forall j :: 0 <= j < |comps| ==>
            PartFits(w, comps, want, Taken(w, starts, comps, want, exact, j), b, |s.parts|, j, way.picks[j])
  }

  // The paths are those of all the ways, one each.
  ghost predicate Found(w: World, starts: seq<Built>, comps: seq<string>, want: bool, exact: bool, ways: seq<Way>, bs: seq<Built>) {
    && |ways| == |bs|
    && (forall k :: 0 <= k < |ways| ==> LeadsTo(w, starts, comps, want, exact, ways[k], bs[k]))
    && (forall i, k :: 0 <= i < k < |ways| ==> ways[i] != ways[k])
    && (forall way, b :: LeadsTo(w, starts, comps, want, exact, way, b) ==> exists k :: 0 <= k < |ways| && ways[k] == way && bs[k] == b)
  }

  // ---- the order of the paths ----

  // Directories to look into: where they start from and the parts walked.
  type Place = (string, seq<string>)

  // The starting paths, `j` components kept verbatim further on.
  function StartPlaces(starts: seq<Built>, comps: seq<string>, j: nat): seq<Place>
    requires j <= |comps|
  {
    seq(|starts|, i requires 0 <= i < |starts| => (starts[i].cwd, Texts(starts[i].parts) + comps[..j]))
  }

  function Offered(w: World, places: seq<Place>, want: bool, at: (nat, nat)): Option<Entry> {
    if at.0 < |places| then EntryAt(w, places[at.0].0, places[at.0].1, want, at.1) else None
  }

  // All entries that may be offered, directory by directory.
  ghost predicate Offers(w: World, places: seq<Place>, want: bool, ats: seq<(nat, nat)>) {
    && (forall k :: 0 <= k < |ats| ==> Offered(w, places, want, ats[k]).Some?)
    && (forall i, k :: 0 <= i < k < |ats| ==> Earlier(ats[i], ats[k]))
    && (forall at :: Offered(w, places, want, at).Some? ==> at in ats)
  }

  function OfferedNames(w: World, places: seq<Place>, want: bool, ats: seq<(nat, nat)>): seq<string>
    requires forall k :: 0 <= k < |ats| ==> Offered(w, places, want, ats[k]).Some?
  {
    seq(|ats|, k requires 0 <= k < |ats| => Offered(w, places, want, ats[k]).value.name)
  }

  // The matcher, given all offered names, lists the one entry before the other.
  ghost predicate ListedBefore(w: World, places: seq<Place>, comp: string, want: bool, x: (nat, nat), y: (nat, nat)) {
    exists ats :: Offers(w, places, want, ats) && ListedAmong(w.matching(comp, OfferedNames(w, places, want, ats)), ats, x, y)
  }

  predicate ListedAmong(ms: seq<(nat, seq<nat>)>, ats: seq<(nat, nat)>, x: (nat, nat), y: (nat, nat)) {
    exists p, q :: 0 <= p < q < |ms| && ms[p].0 < |ats| && ms[q].0 < |ats| && ats[ms[p].0] == x && ats[ms[q].0] == y
  }

  // Some component before the `j`-th was looked up, so that only one directory is left.
  predicate Narrowed(comps: seq<string>, j: nat) {
    exists i :: 0 <= i < j && !Verbatim(comps, i)
  }

  // Two ways part at component `j`, where the matcher lists the entry of the first one
  // before that of the second.
  ghost predicate PartsAt(w: World, starts: seq<Built>, comps: seq<string>, want: bool, way: Way, b: Built, way': Way, j: nat) {
    && j < |comps| && !Verbatim(comps, j)
    && way.start < |starts| && |way.picks| == |comps| == |way'.picks| && way.picks[..j] == way'.picks[..j]
    && if Narrowed(comps, j) then
         && way.start == way'.start && |starts[way.start].parts| + j <= |b.parts|
         && ListedBefore(w, [(b.cwd, Texts(b.parts[..|starts[way.start].parts| + j]))], comps[j], want, (0, way.picks[j]), (0, way'.picks[j]))
       else ListedBefore(w, StartPlaces(starts, comps, j), comps[j], want, (way.start, way.picks[j]), (way'.start, way'.picks[j]))
  }

  ghost predicate InMatcherOrder(w: World, starts: seq<Built>, comps: seq<string>, want: bool, ways: seq<Way>, bs: seq<Built>) {
    |ways| == |bs| && forall i, k :: 0 <= i < k < |ways| ==> Before(w, starts, comps, want, ways[i], bs[i], ways[k])
  }

  ghost predicate Before(w: World, starts: seq<Built>, comps: seq<string>, want: bool, way: Way, b: Built, way': Way) {
    exists j :: PartsAt(w, starts, comps, want, way, b, way', j)
  }

  // ---- candidates and where they come from ----

  // The entry at an origin: starting path and place in its directory.
  function Origin(w: World, starts: seq<Built>, want: bool, at: (nat, nat)): Option<Entry> {
    if at.0 < |starts| then EntryAt(w, starts[at.0].cwd, Texts(starts[at.0].parts), want, at.1) else None
  }

  predicate Earlier(a: (nat, nat), b: (nat, nat)) { a.0 < b.0 || (a.0 == b.0 && a.1 < b.1) }

  // All admissible origins, in order.
  ghost predicate Lists(w: World, starts: seq<Built>, want: bool, ats: seq<(nat, nat)>) {
    && (forall k :: 0 <= k < |ats| ==> Origin(w, starts, want, ats[k]).Some?)
    && (forall i, k :: 0 <= i < k < |ats| ==> Earlier(ats[i], ats[k]))
    && (forall at: (nat, nat) :: Origin(w, starts, want, at).Some? ==> at in ats)
  }

  ghost predicate ComeFrom(w: World, starts: seq<Built>, want: bool, cs: seq<Candidate>, ats: seq<(nat, nat)>) {
    && |cs| == |ats|
    && forall k :: 0 <= k < |ats| ==>
         var e := Origin(w, starts, want, ats[k]);
         e.Some? && cs[k] == Candidate(starts[ats[k].0].(isDir := e.value.isDir), e.value.name)
  }

  lemma {:induction false} AdmittedFrom(w: World, starts: seq<Built>, i: nat, want: bool, entries: seq<Entry>, n: nat) returns (ats: seq<(nat, nat)>)
    requires i < |starts| && n <= |entries| && w.readDir(starts[i].cwd, Texts(starts[i].parts)) == Some(entries)
    ensures ComeFrom(w, starts, want, Admitted(starts[i], entries[..n], want), ats)
    ensures forall k :: 0 <= k < |ats| ==> ats[k].0 == i && ats[k].1 < n
    ensures forall j, k :: 0 <= j < k < |ats| ==> ats[j].1 < ats[k].1
    ensures forall p :: 0 <= p < n && (want ==> entries[p].isDir) ==> (i, p) in ats
    decreases n
  {
    if n == 0 {
      ats := [];
    } else {
      var front := AdmittedFrom(w, starts, i, want, entries, n - 1);
      assert entries[..n][..n - 1] == entries[..n - 1];
      if want ==> entries[n - 1].isDir {
        ats := front + [(i, n - 1)];
      } else {
        ats := front;
      }
    }
  }

  // The admissible origins in some of the directories, in order.
  ghost predicate ListsBetween(w: World, starts: seq<Built>, want: bool, from: nat, to: nat, ats: seq<(nat, nat)>) {
    && (forall k :: 0 <= k < |ats| ==> from <= ats[k].0 < to)
    && (forall i, k :: 0 <= i < k < |ats| ==> Earlier(ats[i], ats[k]))
    && (forall at: (nat, nat) :: Origin(w, starts, want, at).Some? && from <= at.0 < to ==> at in ats)
  }

  lemma ListsAppend(w: World, starts: seq<Built>, want: bool, i: nat, front: seq<(nat, nat)>, more: seq<(nat, nat)>)
    requires ListsBetween(w, starts, want, 0, i, front) && ListsBetween(w, starts, want, i, i + 1, more)
    ensures ListsBetween(w, starts, want, 0, i + 1, front + more)
  {
    hide Origin;
    var ats := front + more;
    forall at: (nat, nat) | Origin(w, starts, want, at).Some? && 0 <= at.0 < i + 1 ensures at in ats {
      if at.0 < i { assert at in front; } else { assert at in more; }
    }
  }

  lemma ComeFromAppend(w: World, starts: seq<Built>, want: bool, cs: seq<Candidate>, ats: seq<(nat, nat)>, cs': seq<Candidate>, ats': seq<(nat, nat)>)
    requires ComeFrom(w, starts, want, cs, ats) && ComeFrom(w, starts, want, cs', ats')
    ensures ComeFrom(w, starts, want, cs + cs', ats + ats')
  {
    hide Origin;
  }

  lemma {:induction false} CandidatesFrom(w: World, starts: seq<Built>, want: bool, n: nat) returns (ats: seq<(nat, nat)>)
    requires n <= |starts|
    ensures ComeFrom(w, starts, want, Candidates(w, starts[..n], want), ats) && ListsBetween(w, starts, want, 0, n, ats)
    decreases n
  {
    hide Origin;
    hide Admitted;
    hide Listing;
    if n == 0 {
      ats := [];
    } else {
      var front := CandidatesFrom(w, starts, want, n - 1);
      assert starts[..n][..n - 1] == starts[..n - 1] && starts[..n][n - 1] == starts[n - 1];
      var more := DirectoryFrom(w, starts, n - 1, want);
      hide ComeFrom;
      hide ListsBetween;
      ats := front + more;
      ListsAppend(w, starts, want, n - 1, front, more);
      ComeFromAppend(w, starts, want, Candidates(w, starts[..n - 1], want), front,
                     Admitted(starts[n - 1], Listing(w, starts[n - 1]), want), more);
    }
  }

  lemma DirectoryFrom(w: World, starts: seq<Built>, i: nat, want: bool) returns (ats: seq<(nat, nat)>)
    requires i < |starts|
    ensures ComeFrom(w, starts, want, Admitted(starts[i], Listing(w, starts[i]), want), ats)
    ensures ListsBetween(w, starts, want, i, i + 1, ats)
  {
    var read := w.readDir(starts[i].cwd, Texts(starts[i].parts));
    match read
    case None =>
      ats := [];
    case Some(entries) =>
      ats := AdmittedFrom(w, starts, i, want, entries, |entries|);
      assert entries[..|entries|] == entries;
      forall at: (nat, nat) | Origin(w, starts, want, at).Some? && at.0 == i ensures at in ats { assert at == (i, at.1); }
  }

  // The candidates of a stage are the admissible entries of its directories, in order.
  lemma CandidatesAreListed(w: World, starts: seq<Built>, want: bool) returns (ats: seq<(nat, nat)>)
    ensures Lists(w, starts, want, ats) && ComeFrom(w, starts, want, Candidates(w, starts, want), ats)
  {
    ats := CandidatesFrom(w, starts, want, |starts|);
    assert starts[..|starts|] == starts;
  }

  // ---- the first part ----

  // The paths of one stage: one for each admissible entry that is taken or matched.
  ghost predicate FirstParts(w: World, starts: seq<Built>, comp: string, want: bool, taken: bool, firsts: seq<(nat, nat)>, bs: seq<Built>) {
    && |firsts| == |bs|
    && (forall k :: 0 <= k < |firsts| ==> FirstPart(w, starts, comp, want, taken, firsts[k], bs[k]))
    && (forall i, k :: 0 <= i < k < |firsts| ==> firsts[i] != firsts[k])
    && (forall at, b :: FirstPart(w, starts, comp, want, taken, at, b) ==> at in firsts)
  }

  ghost predicate FirstPart(w: World, starts: seq<Built>, comp: string, want: bool, taken: bool, at: (nat, nat), b: Built) {
    var e := Origin(w, starts, want, at);
    && e.Some?
    && var s := starts[at.0];
       exists matches ::
         && b == Built(s.cwd, s.parts + [Part(e.value.name, matches)], e.value.isDir)
         && (if taken then w.sameName(e.value.name, comp) && matches == w.everyPosition(e.value.name)
             else w.positions(comp, e.value.name) == Some(matches))
  }

  // What the matcher returns for the candidates, by origin.
  function MatchedOrigins(ats: seq<(nat, nat)>, ms: seq<(nat, seq<nat>)>): seq<(nat, nat)>
    requires forall k :: 0 <= k < |ms| ==> ms[k].0 < |ats|
  {
    seq(|ms|, k requires 0 <= k < |ms| => ats[ms[k].0])
  }

  lemma MatchesAreFirstParts(w: World, starts: seq<Built>, comp: string, want: bool, ats: seq<(nat, nat)>)
    requires Faithful(w) && Lists(w, starts, want, ats) && ComeFrom(w, starts, want, Candidates(w, starts, want), ats)
    ensures
      var ms := w.matching(comp, Names(Candidates(w, starts, want)));
      && (forall k :: 0 <= k < |ms| ==> ms[k].0 < |ats|)
      && FirstParts(w, starts, comp, want, false, MatchedOrigins(ats, ms), Matches(w, comp, Candidates(w, starts, want)))
  {
    hide Candidates;
    hide Origin;
    hide FirstPart;
    var cs := Candidates(w, starts, want);
    var names, ms := Names(cs), w.matching(comp, Names(cs));
    assert Arranges(w, comp, names, ms);
    var firsts, bs := MatchedOrigins(ats, ms), Matches(w, comp, cs);
    forall k | 0 <= k < |firsts| ensures FirstPart(w, starts, comp, want, false, firsts[k], bs[k]) {
      MatchIsFirstPart(w, starts, comp, want, ats[ms[k].0], cs[ms[k].0], ms[k].1);
    }
    forall i, k | 0 <= i < k < |firsts| ensures firsts[i] != firsts[k] { Apart(ats, ms[i].0, ms[k].0); }
    forall at, b | FirstPart(w, starts, comp, want, false, at, b) ensures at in firsts {
      FirstPartMatches(w, starts, comp, want, at, b);
      var i := PlaceOf(ats, at);
      assert names[i] == cs[i].name;
      var k :| 0 <= k < |ms| && ms[k].0 == i;
      assert firsts[k] == at;
    }
  }

  lemma MatchIsFirstPart(w: World, starts: seq<Built>, comp: string, want: bool, at: (nat, nat), c: Candidate, matches: seq<nat>)
    requires Origin(w, starts, want, at).Some? && w.positions(comp, c.name) == Some(matches)
    requires c == Candidate(starts[at.0].(isDir := Origin(w, starts, want, at).value.isDir), Origin(w, starts, want, at).value.name)
    ensures FirstPart(w, starts, comp, want, false, at, Extended(c.built, Part(c.name, matches)))
  {
  }

  lemma FirstPartMatches(w: World, starts: seq<Built>, comp: string, want: bool, at: (nat, nat), b: Built)
    requires FirstPart(w, starts, comp, want, false, at, b)
    ensures Origin(w, starts, want, at).Some? && w.positions(comp, Origin(w, starts, want, at).value.name).Some?
  {
  }

  lemma Apart(ats: seq<(nat, nat)>, i: nat, k: nat)
    requires i < |ats| && k < |ats| && i != k && forall i, k :: 0 <= i < k < |ats| ==> Earlier(ats[i], ats[k])
    ensures ats[i] != ats[k]
  {
    if i < k { assert Earlier(ats[i], ats[k]); } else { assert Earlier(ats[k], ats[i]); }
  }

  // ---- exact names ----

  lemma {:induction false} NoExact(w: World, comp: string, cs: seq<Candidate>)
    requires forall k :: 0 <= k < |cs| ==> !w.sameName(cs[k].name, comp)
    ensures Exact(w, comp, cs) == []
  {
    if cs != [] { NoExact(w, comp, cs[..|cs| - 1]); }
  }

  // One exact path means one candidate of that name, and the other way round.
  lemma {:induction false} OneExact(w: World, comp: string, cs: seq<Candidate>, k: nat)
    requires k < |cs| && w.sameName(cs[k].name, comp) && forall i :: 0 <= i < |cs| && w.sameName(cs[i].name, comp) ==> i == k
    ensures Exact(w, comp, cs) == [Extended(cs[k].built, Part(cs[k].name, w.everyPosition(cs[k].name)))]
  {
    var n := |cs| - 1;
    if k == n { NoExact(w, comp, cs[..n]); } else { OneExact(w, comp, cs[..n], k); }
  }

  lemma {:induction false} ExactIsSomewhere(w: World, comp: string, cs: seq<Candidate>) returns (k: nat)
    requires Exact(w, comp, cs) != []
    ensures k < |cs| && w.sameName(cs[k].name, comp)
    ensures |Exact(w, comp, cs)| == 1 ==> forall i :: 0 <= i < |cs| && w.sameName(cs[i].name, comp) ==> i == k
  {
    var n := |cs| - 1;
    if w.sameName(cs[n].name, comp) {
      k := n;
      if |Exact(w, comp, cs)| == 1 && exists i :: 0 <= i < n && w.sameName(cs[i].name, comp) {
        var i :| 0 <= i < n && w.sameName(cs[i].name, comp);
        assert cs[..n][i] == cs[i];
        ExactHas(w, comp, cs[..n], i);
      }
    } else {
      k := ExactIsSomewhere(w, comp, cs[..n]);
    }
  }

  lemma {:induction false} ExactHas(w: World, comp: string, cs: seq<Candidate>, i: nat)
    requires i < |cs| && w.sameName(cs[i].name, comp)
    ensures Exact(w, comp, cs) != []
  {
    var n := |cs| - 1;
    if i < n { ExactHas(w, comp, cs[..n], i); }
  }

  // Spelling out one component: an admissible entry with exactly that name.
  lemma SpeltFirst(w: World, starts: seq<Built>, comps: seq<string>, want: bool, way: Way, texts: seq<string>)
    requires comps != [] && !Verbatim(comps, 0)
    ensures SpeltOut(w, starts, comps, want, 1, way, texts) <==>
            && |way.picks| == 1 && |texts| == 1
            && var e := Origin(w, starts, want, (way.start, way.picks[0]));
               e.Some? && texts[0] == e.value.name && w.sameName(e.value.name, comps[0])
  {
    if |texts| == 1 && way.start < |starts| {
      assert Texts(starts[way.start].parts) + texts[..0] == Texts(starts[way.start].parts);
    }
  }

  // The search drills into an exact match exactly when the component can be spelt once.
  lemma ExactMeansOnce(w: World, starts: seq<Built>, comps: seq<string>, want: bool)
    requires comps != [] && !Verbatim(comps, 0)
    ensures |Exact(w, comps[0], Candidates(w, starts, want))| == 1 <==> SpeltOnce(w, starts, comps, want, 1)
  {
    hide Candidates;
    hide Exact;
    hide Origin;
    hide SpeltOut;
    var cs := Candidates(w, starts, want);
    var ats := CandidatesAreListed(w, starts, want);
    if |Exact(w, comps[0], cs)| == 1 {
      var k := ExactIsSomewhere(w, comps[0], cs);
      var way := Way(ats[k].0, [ats[k].1]);
      assert ats[k] == (way.start, way.picks[0]);
      SpeltFirst(w, starts, comps, want, way, [cs[k].name]);
      forall way', texts' | SpeltOut(w, starts, comps, want, 1, way', texts') ensures way' == way {
        SpeltFirst(w, starts, comps, want, way', texts');
        var i := PlaceOf(ats, (way'.start, way'.picks[0]));
        assert w.sameName(cs[i].name, comps[0]);
        assert way'.picks == [way'.picks[0]];
      }
    }
    if SpeltOnce(w, starts, comps, want, 1) {
      var way, texts :| SpeltOut(w, starts, comps, want, 1, way, texts) && SpeltOnlyBy(w, starts, comps, want, 1, way);
      SpeltFirst(w, starts, comps, want, way, texts);
      var k := PlaceOf(ats, (way.start, way.picks[0]));
      forall i | 0 <= i < |cs| && w.sameName(cs[i].name, comps[0]) ensures i == k {
        var other := Way(ats[i].0, [ats[i].1]);
        assert ats[i] == (other.start, other.picks[0]);
        SpeltFirst(w, starts, comps, want, other, [cs[i].name]);
        if i != k { Apart(ats, i, k); }
      }
      OneExact(w, comps[0], cs, k);
    }
  }

  lemma PlaceOf(ats: seq<(nat, nat)>, at: (nat, nat)) returns (k: nat)
    requires at in ats
    ensures k < |ats| && ats[k] == at
  {
    k :| k < |ats| && ats[k] == at;
  }

  // The single exact path, as the only first part.
  lemma ExactIsFirstPart(w: World, starts: seq<Built>, comp: string, want: bool) returns (at: (nat, nat))
    requires |Exact(w, comp, Candidates(w, starts, want))| == 1
    ensures FirstParts(w, starts, comp, want, true, [at], Exact(w, comp, Candidates(w, starts, want)))
  {
    hide Candidates;
    hide Exact;
    hide Origin;
    var cs := Candidates(w, starts, want);
    var ats := CandidatesAreListed(w, starts, want);
    var k := ExactIsSomewhere(w, comp, cs);
    OneExact(w, comp, cs, k);
    at := ats[k];
    forall other, b | FirstPart(w, starts, comp, want, true, other, b) ensures other in [at] {
      var i := PlaceOf(ats, other);
      assert w.sameName(cs[i].name, comp);
    }
  }

  // ---- one component ----

  lemma LastPart(w: World, starts: seq<Built>, comp: string, want: bool, exact: bool, way: Way, b: Built)
    ensures LeadsTo(w, starts, [comp], want, exact, way, b) <==>
            |way.picks| == 1 && FirstPart(w, starts, comp, want, false, (way.start, way.picks[0]), b)
  {
    var comps := [comp];
    if LeadsTo(w, starts, comps, want, exact, way, b) {
      var s := starts[way.start];
      var n := |s.parts|;
      assert PartFits(w, comps, want, Taken(w, starts, comps, want, exact, 0), b, n, 0, way.picks[0]);
      assert b.parts[..n + 0] == s.parts;
      assert b.parts == s.parts + [b.parts[n]];
      assert b == Built(s.cwd, s.parts + [Part(b.parts[n].text, b.parts[n].matches)], b.isDir);
    }
    if |way.picks| == 1 && FirstPart(w, starts, comp, want, false, (way.start, way.picks[0]), b) {
      var s := starts[way.start];
      var n := |s.parts|;
      assert b.parts[..n] == s.parts && b.parts[..n + 0] == s.parts;
      assert PartFits(w, comps, want, Taken(w, starts, comps, want, exact, 0), b, n, 0, way.picks[0]);
    }
  }

  function FirstWays(firsts: seq<(nat, nat)>): seq<Way> {
    seq(|firsts|, k requires 0 <= k < |firsts| => Way(firsts[k].0, [firsts[k].1]))
  }

  lemma LastFound(w: World, starts: seq<Built>, comp: string, want: bool, exact: bool, firsts: seq<(nat, nat)>, bs: seq<Built>)
    requires FirstParts(w, starts, comp, want, false, firsts, bs)
    ensures Found(w, starts, [comp], want, exact, FirstWays(firsts), bs)
  {
    hide FirstPart;
    hide LeadsTo;
    var ways := FirstWays(firsts);
    forall k | 0 <= k < |ways| ensures LeadsTo(w, starts, [comp], want, exact, ways[k], bs[k]) {
      assert (ways[k].start, ways[k].picks[0]) == firsts[k];
      LastPart(w, starts, comp, want, exact, ways[k], bs[k]);
    }
    forall i, k | 0 <= i < k < |ways| ensures ways[i] != ways[k] {
      assert (ways[i].start, ways[i].picks[0]) == firsts[i] != firsts[k] == (ways[k].start, ways[k].picks[0]);
    }
    forall way, b | LeadsTo(w, starts, [comp], want, exact, way, b) ensures exists k :: 0 <= k < |ways| && ways[k] == way && bs[k] == b {
      LastPart(w, starts, comp, want, exact, way, b);
      var k := PlaceOf(firsts, (way.start, way.picks[0]));
      assert way.picks == [way.picks[0]] && ways[k] == way;
      FirstPartIsOne(w, starts, comp, want, false, firsts[k], b, bs[k]);
    }
  }

  lemma FirstPartIsOne(w: World, starts: seq<Built>, comp: string, want: bool, taken: bool, at: (nat, nat), a: Built, b: Built)
    requires FirstPart(w, starts, comp, want, taken, at, a) && FirstPart(w, starts, comp, want, taken, at, b)
    ensures a == b
  {
  }

  // ---- behind the first part ----

  // `s'` is a starting path with one more part.
  ghost predicate OneFurther(s: Built, s': Built, text: string) {
    s'.cwd == s.cwd && |s'.parts| == |s.parts| + 1 && s'.parts[..|s.parts|] == s.parts && s'.parts[|s.parts|].text == text
  }

  lemma FurtherTexts(s: Built, s': Built, text: string, texts: seq<string>, j: nat)
    requires OneFurther(s, s', text) && 0 < |texts| && texts[0] == text && j < |texts|
    ensures Texts(s'.parts) + texts[1..][..j] == Texts(s.parts) + texts[..j + 1]
  {
    var n := |s.parts|;
    assert forall i :: 0 <= i < n ==> s'.parts[i] == s.parts[i] by {
      forall i | 0 <= i < n ensures s'.parts[i] == s.parts[i] { assert s'.parts[i] == s'.parts[..n][i]; }
    }
    assert Texts(s'.parts) == Texts(s.parts) + [text];
    assert texts[..j + 1] == [text] + texts[1..][..j];
  }

  lemma SpeltFurther(w: World, s: Built, s': Built, comps: seq<string>, want: bool, picks: seq<nat>, texts: seq<string>)
    requires 0 < |texts| == |picks| <= |comps| && OneFurther(s, s', texts[0])
    ensures (forall j :: 1 <= j < |texts| ==> SpeltAt(w, s, comps, want, j, picks[j], texts)) <==>
            (forall j :: 0 <= j < |texts| - 1 ==> SpeltAt(w, s', comps[1..], want, j, picks[1..][j], texts[1..]))
  {
    forall j | 0 <= j < |texts| - 1
      ensures SpeltAt(w, s, comps, want, j + 1, picks[j + 1], texts) <==> SpeltAt(w, s', comps[1..], want, j, picks[1..][j], texts[1..])
    {
      FurtherTexts(s, s', texts[0], texts, j);
    }
    if forall j :: 1 <= j < |texts| ==> SpeltAt(w, s, comps, want, j, picks[j], texts) {
      forall j | 0 <= j < |texts| - 1 ensures SpeltAt(w, s', comps[1..], want, j, picks[1..][j], texts[1..]) {
        assert SpeltAt(w, s, comps, want, j + 1, picks[j + 1], texts);
      }
    }
    if forall j :: 0 <= j < |texts| - 1 ==> SpeltAt(w, s', comps[1..], want, j, picks[1..][j], texts[1..]) {
      forall j | 1 <= j < |texts| ensures SpeltAt(w, s, comps, want, j, picks[j], texts) {
        assert SpeltAt(w, s', comps[1..], want, j - 1, picks[1..][j - 1], texts[1..]);
      }
    }
  }

  // Ways behind a component kept verbatim are ways from the starting paths entered.
  lemma SpeltBehindDots(w: World, starts: seq<Built>, comps: seq<string>, want: bool, n: nat, way: Way, texts: seq<string>)
    requires Verbatim(comps, 0) && n < |comps|
    ensures SpeltOut(w, starts, comps, want, n + 1, way, texts) <==>
            && |way.picks| == n + 1 == |texts| && way.picks[0] == 0 && texts[0] == comps[0]
            && SpeltOut(w, Entered(starts, comps[0]), comps[1..], want, n, Way(way.start, way.picks[1..]), texts[1..])
  {
    var entered := Entered(starts, comps[0]);
    if way.start < |starts| && |way.picks| == n + 1 == |texts| && texts[0] == comps[0] {
      var s := starts[way.start];
      assert entered[way.start].parts[..|s.parts|] == s.parts;
      SpeltFurther(w, s, entered[way.start], comps, want, way.picks, texts);
    }
    if SpeltOut(w, starts, comps, want, n + 1, way, texts) {
      assert SpeltAt(w, starts[way.start], comps, want, 0, way.picks[0], texts);
    }
  }

  // Ways behind a component that can be spelt once are ways from its only path.
  lemma SpeltBehindExact(w: World, starts: seq<Built>, comps: seq<string>, want: bool, n: nat, way: Way, texts: seq<string>, at: (nat, nat), b: Built)
    requires !Verbatim(comps, 0) && n < |comps| && FirstParts(w, starts, comps[0], want, true, [at], [b]) && b.parts != []
    ensures SpeltOut(w, starts, comps, want, n + 1, way, texts) <==>
            && |way.picks| == n + 1 == |texts| && (way.start, way.picks[0]) == at && texts[0] == b.parts[|b.parts| - 1].text
            && SpeltOut(w, [b], comps[1..], want, n, Way(0, way.picks[1..]), texts[1..])
  {
    hide SpeltAt;
    assert FirstPart(w, starts, comps[0], want, true, [at][0], [b][0]);
    var e := Origin(w, starts, want, at).value;
    var s := starts[at.0];
    assert b.parts[..|s.parts|] == s.parts && b.parts[|b.parts| - 1].text == e.name;
    if SpeltOut(w, starts, comps, want, n + 1, way, texts) {
      assert SpeltAt(w, starts[way.start], comps, want, 0, way.picks[0], texts);
      SpeltHeadIsFirst(w, starts, comps, want, way, texts);
      var other :| FirstPart(w, starts, comps[0], want, true, (way.start, way.picks[0]), other);
      assert (way.start, way.picks[0]) in [at];
      SpeltFurther(w, s, b, comps, want, way.picks, texts);
    }
    if |way.picks| == n + 1 == |texts| && (way.start, way.picks[0]) == at && texts[0] == e.name
       && SpeltOut(w, [b], comps[1..], want, n, Way(0, way.picks[1..]), texts[1..]) {
      SpeltFurther(w, s, b, comps, want, way.picks, texts);
      SpeltHead(w, starts, comps, want, at, b, texts);
    }
  }

  lemma SpeltHeadIsFirst(w: World, starts: seq<Built>, comps: seq<string>, want: bool, way: Way, texts: seq<string>)
    requires 0 < |texts| <= |comps| && !Verbatim(comps, 0) && way.start < |starts| && way.picks != []
    requires SpeltAt(w, starts[way.start], comps, want, 0, way.picks[0], texts)
    ensures exists b :: FirstPart(w, starts, comps[0], want, true, (way.start, way.picks[0]), b) && texts[0] == b.parts[|b.parts| - 1].text
  {
    var s := starts[way.start];
    assert Texts(s.parts) + texts[..0] == Texts(s.parts);
    var e := Origin(w, starts, want, (way.start, way.picks[0])).value;
    var b := Built(s.cwd, s.parts + [Part(e.name, w.everyPosition(e.name))], e.isDir);
    assert FirstPart(w, starts, comps[0], want, true, (way.start, way.picks[0]), b);
  }

  lemma SpeltHead(w: World, starts: seq<Built>, comps: seq<string>, want: bool, at: (nat, nat), b: Built, texts: seq<string>)
    requires 0 < |texts| <= |comps| && !Verbatim(comps, 0) && FirstPart(w, starts, comps[0], want, true, at, b)
    requires texts[0] == Origin(w, starts, want, at).value.name
    ensures SpeltAt(w, starts[at.0], comps, want, 0, at.1, texts)
  {
    assert Texts(starts[at.0].parts) + texts[..0] == Texts(starts[at.0].parts);
  }

  lemma SpeltLengths(w: World, starts: seq<Built>, comps: seq<string>, want: bool, n: nat, way: Way, texts: seq<string>)
    requires SpeltOut(w, starts, comps, want, n, way, texts)
    ensures |way.picks| == n == |texts| && way.start < |starts|
  {
  }

  lemma DotsOutward(w: World, starts: seq<Built>, comps: seq<string>, want: bool, n: nat, way: Way, texts: seq<string>)
    requires Verbatim(comps, 0) && n < |comps| && SpeltOut(w, Entered(starts, comps[0]), comps[1..], want, n, way, texts)
    ensures SpeltOut(w, starts, comps, want, n + 1, Way(way.start, [0] + way.picks), [comps[0]] + texts)
  {
    hide SpeltOut;
    SpeltLengths(w, Entered(starts, comps[0]), comps[1..], want, n, way, texts);
    var outer := Way(way.start, [0] + way.picks);
    assert outer.picks[1..] == way.picks && ([comps[0]] + texts)[1..] == texts;
    SpeltBehindDots(w, starts, comps, want, n, outer, [comps[0]] + texts);
  }

  lemma OnceBehindDots(w: World, starts: seq<Built>, comps: seq<string>, want: bool, n: nat, m: nat)
    requires Verbatim(comps, 0) && m == n + 1 <= |comps|
    ensures SpeltOnce(w, starts, comps, want, m) <==> SpeltOnce(w, Entered(starts, comps[0]), comps[1..], want, n)
  {
    hide SpeltOut;
    var entered, more := Entered(starts, comps[0]), comps[1..];
    if SpeltOnce(w, starts, comps, want, m) {
      var way, texts :| SpeltOut(w, starts, comps, want, m, way, texts) && SpeltOnlyBy(w, starts, comps, want, m, way);
      SpeltBehindDots(w, starts, comps, want, n, way, texts);
      var inner := Way(way.start, way.picks[1..]);
      forall way', texts' | SpeltOut(w, entered, more, want, n, way', texts') ensures way' == inner {
        DotsOutward(w, starts, comps, want, n, way', texts');
        assert ([0] + way'.picks)[1..] == way'.picks;
      }
    }
    if SpeltOnce(w, entered, more, want, n) {
      var way, texts :| SpeltOut(w, entered, more, want, n, way, texts) && SpeltOnlyBy(w, entered, more, want, n, way);
      DotsOutward(w, starts, comps, want, n, way, texts);
      var outer := Way(way.start, [0] + way.picks);
      forall way', texts' | SpeltOut(w, starts, comps, want, m, way', texts') ensures way' == outer {
        SpeltBehindDots(w, starts, comps, want, n, way', texts');
        assert way'.picks == [0] + way'.picks[1..];
      }
    }
  }

  lemma ExactOutward(w: World, starts: seq<Built>, comps: seq<string>, want: bool, n: nat, way: Way, texts: seq<string>, at: (nat, nat), b: Built)
    requires !Verbatim(comps, 0) && n < |comps| && FirstParts(w, starts, comps[0], want, true, [at], [b]) && b.parts != []
    requires SpeltOut(w, [b], comps[1..], want, n, way, texts)
    ensures SpeltOut(w, starts, comps, want, n + 1, Way(at.0, [at.1] + way.picks), [b.parts[|b.parts| - 1].text] + texts)
    ensures way.start == 0
  {
    hide SpeltOut;
    hide FirstParts;
    hide Verbatim;
    var text := b.parts[|b.parts| - 1].text;
    SpeltLengths(w, [b], comps[1..], want, n, way, texts);
    var outer := Way(at.0, [at.1] + way.picks);
    assert outer.picks[1..] == way.picks && ([text] + texts)[1..] == texts;
    assert Way(0, way.picks) == way;
    SpeltBehindExact(w, starts, comps, want, n, outer, [text] + texts, at, b);
  }

  lemma ExactInward(w: World, starts: seq<Built>, comps: seq<string>, want: bool, n: nat, way: Way, texts: seq<string>, at: (nat, nat), b: Built)
    requires !Verbatim(comps, 0) && n < |comps| && FirstParts(w, starts, comps[0], want, true, [at], [b]) && b.parts != []
    requires SpeltOut(w, starts, comps, want, n + 1, way, texts)
    ensures |texts| == n + 1 == |way.picks| && SpeltOut(w, [b], comps[1..], want, n, Way(0, way.picks[1..]), texts[1..])
    ensures way == Way(at.0, [at.1] + way.picks[1..])
  {
    hide SpeltOut;
    hide FirstParts;
    hide Verbatim;
    SpeltBehindExact(w, starts, comps, want, n, way, texts, at, b);
    assert way.picks == [at.1] + way.picks[1..];
  }

  lemma OnceBehindExact(w: World, starts: seq<Built>, comps: seq<string>, want: bool, n: nat, m: nat, at: (nat, nat), b: Built)
    requires !Verbatim(comps, 0) && m == n + 1 <= |comps| && FirstParts(w, starts, comps[0], want, true, [at], [b]) && b.parts != []
    ensures SpeltOnce(w, starts, comps, want, m) <==> SpeltOnce(w, [b], comps[1..], want, n)
  {
    hide SpeltOut;
    hide FirstParts;
    hide Verbatim;
    var more := comps[1..];
    if SpeltOnce(w, starts, comps, want, m) {
      var way, texts :| SpeltOut(w, starts, comps, want, m, way, texts) && SpeltOnlyBy(w, starts, comps, want, m, way);
      ExactInward(w, starts, comps, want, n, way, texts, at, b);
      var inner := Way(0, way.picks[1..]);
      forall way', texts' | SpeltOut(w, [b], more, want, n, way', texts') ensures way' == inner {
        ExactOutward(w, starts, comps, want, n, way', texts', at, b);
        assert ([at.1] + way'.picks)[1..] == way'.picks;
      }
    }
    if SpeltOnce(w, [b], more, want, n) {
      var way, texts :| SpeltOut(w, [b], more, want, n, way, texts) && SpeltOnlyBy(w, [b], more, want, n, way);
      ExactOutward(w, starts, comps, want, n, way, texts, at, b);
      forall way', texts' | SpeltOut(w, starts, comps, want, m, way', texts') ensures way' == Way(at.0, [at.1] + way.picks) {
        ExactInward(w, starts, comps, want, n, way', texts', at, b);
      }
    }
  }

  lemma VerbatimFurther(comps: seq<string>, j: nat)
    requires comps != []
    ensures Verbatim(comps, j + 1) == Verbatim(comps[1..], j)
  {
  }

  // What is taken behind the first component does not depend on where one starts to
  // look, as long as spelling out once means the same.
  lemma TakenFurther(w: World, starts: seq<Built>, starts': seq<Built>, comps: seq<string>, want: bool, exact: bool, j: nat)
    requires |comps| > 1 && j < |comps| - 1
    requires !Verbatim(comps, 0) ==> SpeltOnce(w, starts, comps, want, 1)
    requires forall n :: 0 < n < |comps| ==> (SpeltOnce(w, starts, comps, want, n + 1) <==> SpeltOnce(w, starts', comps[1..], want, n))
    ensures Taken(w, starts, comps, want, exact, j + 1) <==> Taken(w, starts', comps[1..], want, exact, j)
  {
    hide SpeltOnce;
    hide Verbatim;
    forall i: nat ensures Verbatim(comps, i + 1) == Verbatim(comps[1..], i) { VerbatimFurther(comps, i); }
    if Taken(w, starts, comps, want, exact, j + 1) {
      forall i | 0 <= i <= j && !Verbatim(comps[1..], i) ensures SpeltOnce(w, starts', comps[1..], want, i + 1) {
        assert !Verbatim(comps, i + 1) && SpeltOnce(w, starts, comps, want, i + 1 + 1);
      }
    }
    if Taken(w, starts', comps[1..], want, exact, j) {
      forall i | 0 <= i <= j + 1 && !Verbatim(comps, i) ensures SpeltOnce(w, starts, comps, want, i + 1) {
        if i > 0 { assert !Verbatim(comps[1..], i - 1) && SpeltOnce(w, starts', comps[1..], want, i - 1 + 1); }
      }
    }
  }

  // Nothing is taken without exact matching, or behind a component that is not.
  lemma NothingTaken(w: World, starts: seq<Built>, comps: seq<string>, want: bool, exact: bool, j: nat)
    requires !exact || (!Verbatim(comps, 0) && |comps| > 1 && !Taken(w, starts, comps, want, exact, 0))
    ensures !Taken(w, starts, comps, want, exact, j)
  {
    hide SpeltOnce;
  }

  // ---- from a first part on ----

  lemma FitsFurther(w: World, comps: seq<string>, want: bool, taken: bool, b: Built, base: nat, j: nat, pick: nat)
    requires j + 1 < |comps| && base + j + 1 < |b.parts|
    ensures PartFits(w, comps, want, taken, b, base, j + 1, pick) <==> PartFits(w, comps[1..], want, taken, b, base + 1, j, pick)
  {
    VerbatimFurther(comps, j);
  }

  // The same path seen from a starting path with its first part added.
  lemma LeadsFurther(w: World, starts: seq<Built>, starts': seq<Built>, comps: seq<string>, want: bool, exact: bool, exact': bool, way: Way, inner: Way, b: Built)
    requires |comps| > 1 && |way.picks| == |comps| && inner.picks == way.picks[1..]
    requires way.start < |starts| && inner.start < |starts'|
    requires
      var s, s' := starts[way.start], starts'[inner.start];
      s'.cwd == s.cwd && |s'.parts| == |s.parts| + 1 && s'.parts[..|s.parts|] == s.parts
    requires forall j :: 0 <= j < |comps| - 1 ==> (Taken(w, starts, comps, want, exact, j + 1) <==> Taken(w, starts', comps[1..], want, exact', j))
    ensures
      var n := |starts[way.start].parts|;
      LeadsTo(w, starts', comps[1..], want, exact', inner, b)
      && PartFits(w, comps, want, Taken(w, starts, comps, want, exact, 0), b, n, 0, way.picks[0])
      <==>
      LeadsTo(w, starts, comps, want, exact, way, b) && b.parts[n] == starts'[inner.start].parts[n]
  {
    hide PartFits;
    hide Taken;
    var s, s', more := starts[way.start], starts'[inner.start], comps[1..];
    var n := |s.parts|;
    if |b.parts| == n + |comps| {
      forall j | 0 <= j < |more|
        ensures PartFits(w, comps, want, Taken(w, starts, comps, want, exact, j + 1), b, n, j + 1, way.picks[j + 1]) <==>
                PartFits(w, more, want, Taken(w, starts', more, want, exact', j), b, n + 1, j, inner.picks[j])
      {
        FitsFurther(w, comps, want, Taken(w, starts, comps, want, exact, j + 1), b, n, j, way.picks[j + 1]);
      }
      if LeadsTo(w, starts', more, want, exact', inner, b) {
        assert b.parts[n] == b.parts[..n + 1][n] && b.parts[..n] == b.parts[..n + 1][..n];
        if PartFits(w, comps, want, Taken(w, starts, comps, want, exact, 0), b, n, 0, way.picks[0]) {
          forall j | 0 <= j < |comps| ensures PartFits(w, comps, want, Taken(w, starts, comps, want, exact, j), b, n, j, way.picks[j]) {
            if j > 0 { assert PartFits(w, more, want, Taken(w, starts', more, want, exact', j - 1), b, n + 1, j - 1, inner.picks[j - 1]); }
          }
        }
      }
      if LeadsTo(w, starts, comps, want, exact, way, b) && b.parts[n] == s'.parts[n] {
        assert b.parts[..n + 1] == b.parts[..n] + [b.parts[n]];
        assert s'.parts == s'.parts[..n] + [s'.parts[n]];
        forall j | 0 <= j < |more| ensures PartFits(w, more, want, Taken(w, starts', more, want, exact', j), b, n + 1, j, inner.picks[j]) {
          assert PartFits(w, comps, want, Taken(w, starts, comps, want, exact, j + 1), b, n, j + 1, way.picks[j + 1]);
        }
      }
    }
  }

  // A component kept verbatim.
  lemma LeadsBehindDots(w: World, starts: seq<Built>, comps: seq<string>, want: bool, exact: bool, way: Way, b: Built)
    requires Verbatim(comps, 0)
    ensures LeadsTo(w, starts, comps, want, exact, way, b) <==>
            && |way.picks| == |comps| && way.picks[0] == 0
            && LeadsTo(w, Entered(starts, comps[0]), comps[1..], want, exact, Way(way.start, way.picks[1..]), b)
  {
    hide Taken;
    hide SpeltOnce;
    if way.start < |starts| && |way.picks| == |comps| {
      var entered := Entered(starts, comps[0]);
      var s, n := starts[way.start], |starts[way.start].parts|;
      forall j | 0 <= j < |comps| - 1 ensures Taken(w, starts, comps, want, exact, j + 1) <==> Taken(w, entered, comps[1..], want, exact, j) {
        forall n | 0 < n < |comps| ensures SpeltOnce(w, starts, comps, want, n + 1) <==> SpeltOnce(w, entered, comps[1..], want, n) {
          OnceBehindDots(w, starts, comps, want, n, n + 1);
        }
        TakenFurther(w, starts, entered, comps, want, exact, j);
      }
      assert entered[way.start].parts[..n] == s.parts;
      LeadsFurther(w, starts, entered, comps, want, exact, exact, way, Way(way.start, way.picks[1..]), b);
      if LeadsTo(w, starts, comps, want, exact, way, b) {
        assert PartFits(w, comps, want, Taken(w, starts, comps, want, exact, 0), b, n, 0, way.picks[0]);
      }
      if LeadsTo(w, entered, comps[1..], want, exact, Way(way.start, way.picks[1..]), b) {
        assert b.parts[n] == b.parts[..n + 1][n];
      }
    }
  }

  // The first part of a path decides which first part it extends.
  lemma HeadFits(w: World, starts: seq<Built>, comps: seq<string>, want: bool, taken: bool, at: (nat, nat), s': Built, b: Built)
    requires |comps| > 1 && !Verbatim(comps, 0) && FirstPart(w, starts, comps[0], want, taken, at, s')
    requires
      var s := starts[at.0];
      b.cwd == s.cwd && |b.parts| > |s.parts| && b.parts[..|s.parts|] == s.parts
    ensures
      var n := |starts[at.0].parts|;
      |s'.parts| == n + 1 && (PartFits(w, comps, want, taken, b, n, 0, at.1) <==> b.parts[n] == s'.parts[n])
  {
    var n := |starts[at.0].parts|;
    assert b.parts[..n + 0] == starts[at.0].parts;
  }

  // How looking on from one first part relates to looking from the start.
  ghost predicate LooksOn(w: World, starts: seq<Built>, comps: seq<string>, want: bool, exact: bool, exact': bool, s': Built) {
    forall j :: 0 <= j < |comps| - 1 ==> (Taken(w, starts, comps, want, exact, j + 1) <==> Taken(w, [s'], comps[1..], want, exact', j))
  }

  lemma LeadsBehindPart(w: World, starts: seq<Built>, comps: seq<string>, want: bool, exact: bool, exact': bool, at: (nat, nat), s': Built, picks: seq<nat>, b: Built)
    requires |comps| > 1 && !Verbatim(comps, 0) && |picks| == |comps| - 1
    requires FirstPart(w, starts, comps[0], want, Taken(w, starts, comps, want, exact, 0), at, s')
    requires LooksOn(w, starts, comps, want, exact, exact', s')
    ensures LeadsTo(w, starts, comps, want, exact, Way(at.0, [at.1] + picks), b) <==>
            LeadsTo(w, [s'], comps[1..], want, exact', Way(0, picks), b)
  {
    hide Taken;
    var way, inner := Way(at.0, [at.1] + picks), Way(0, picks);
    var s, n := starts[at.0], |starts[at.0].parts|;
    assert s'.parts[..n] == s.parts && |s'.parts| == n + 1;
    assert way.picks[1..] == picks;
    LeadsFurther(w, starts, [s'], comps, want, exact, exact', way, inner, b);
    hide FirstPart;
    hide PartFits;
    if LeadsTo(w, starts, comps, want, exact, way, b) {
      assert PartFits(w, comps, want, Taken(w, starts, comps, want, exact, 0), b, n, 0, way.picks[0]);
      HeadFits(w, starts, comps, want, Taken(w, starts, comps, want, exact, 0), at, s', b);
    }
    if LeadsTo(w, [s'], comps[1..], want, exact', inner, b) {
      assert b.parts[n] == b.parts[..n + 1][n] && b.parts[..n] == b.parts[..n + 1][..n];
      HeadFits(w, starts, comps, want, Taken(w, starts, comps, want, exact, 0), at, s', b);
    }
  }

  // Every path begins with some first part.
  lemma LeadsFromPart(w: World, starts: seq<Built>, comps: seq<string>, want: bool, exact: bool, way: Way, b: Built)
    requires |comps| > 1 && !Verbatim(comps, 0) && LeadsTo(w, starts, comps, want, exact, way, b)
    ensures exists s' :: FirstPart(w, starts, comps[0], want, Taken(w, starts, comps, want, exact, 0), (way.start, way.picks[0]), s')
  {
    hide Taken;
    var s := starts[way.start];
    var n, taken := |s.parts|, Taken(w, starts, comps, want, exact, 0);
    assert PartFits(w, comps, want, taken, b, n, 0, way.picks[0]);
    assert b.parts[..n + 0] == s.parts;
    var e := Origin(w, starts, want, (way.start, way.picks[0])).value;
    assert FirstPart(w, starts, comps[0], want, taken, (way.start, way.picks[0]), Built(s.cwd, s.parts + [Part(e.name, b.parts[n].matches)], e.isDir));
  }

  // ---- all the paths ----

  // Found, as far as ways with one of these heads are concerned.
  ghost predicate FoundFor(w: World, starts: seq<Built>, comps: seq<string>, want: bool, exact: bool, heads: seq<(nat, nat)>, ways: seq<Way>, bs: seq<Built>) {
    && |ways| == |bs|
    && (forall k :: 0 <= k < |ways| ==> LeadsTo(w, starts, comps, want, exact, ways[k], bs[k]) && HeadIn(ways[k], heads))
    && (forall i, k :: 0 <= i < k < |ways| ==> ways[i] != ways[k])
    && (forall way, b :: LeadsTo(w, starts, comps, want, exact, way, b) && HeadIn(way, heads) ==> InFound(ways, bs, way, b))
  }

  predicate HeadIn(way: Way, heads: seq<(nat, nat)>) { way.picks != [] && (way.start, way.picks[0]) in heads }

  predicate InFound(ways: seq<Way>, bs: seq<Built>, way: Way, b: Built)
    requires |ways| == |bs|
  {
    exists k :: 0 <= k < |ways| && ways[k] == way && bs[k] == b
  }

  function Headed(at: (nat, nat), ways: seq<Way>): seq<Way> {
    seq(|ways|, k requires 0 <= k < |ways| => Way(at.0, [at.1] + ways[k].picks))
  }

  lemma HeadedFound(w: World, starts: seq<Built>, comps: seq<string>, want: bool, exact: bool, exact': bool, at: (nat, nat), s': Built, ways: seq<Way>, bs: seq<Built>)
    requires |comps| > 1 && !Verbatim(comps, 0)
    requires FirstPart(w, starts, comps[0], want, Taken(w, starts, comps, want, exact, 0), at, s')
    requires LooksOn(w, starts, comps, want, exact, exact', s')
    requires Found(w, [s'], comps[1..], want, exact', ways, bs)
    ensures FoundFor(w, starts, comps, want, exact, [at], Headed(at, ways), bs)
  {
    hide Taken;
    hide FirstPart;
    hide LooksOn;
    hide LeadsTo;
    hide Verbatim;
    hide InFound;
    var outer := Headed(at, ways);
    forall k | 0 <= k < |outer|
      ensures LeadsTo(w, starts, comps, want, exact, outer[k], bs[k]) && HeadIn(outer[k], [at]) && outer[k].picks[1..] == ways[k].picks && ways[k].start == 0
    {
      HeadedLeads(w, starts, comps, want, exact, exact', at, s', ways[k], bs[k]);
    }
    forall i, k | 0 <= i < k < |outer| ensures outer[i] != outer[k] {
      assert outer[i].picks[1..] == ways[i].picks && outer[k].picks[1..] == ways[k].picks;
    }
    forall way, b | LeadsTo(w, starts, comps, want, exact, way, b) && HeadIn(way, [at]) ensures InFound(outer, bs, way, b) {
      HeadedIsFound(w, starts, comps, want, exact, exact', at, s', ways, bs, way, b);
    }
  }

  lemma HeadedLeads(w: World, starts: seq<Built>, comps: seq<string>, want: bool, exact: bool, exact': bool, at: (nat, nat), s': Built, way: Way, b: Built)
    requires |comps| > 1 && !Verbatim(comps, 0)
    requires FirstPart(w, starts, comps[0], want, Taken(w, starts, comps, want, exact, 0), at, s')
    requires LooksOn(w, starts, comps, want, exact, exact', s') && LeadsTo(w, [s'], comps[1..], want, exact', way, b)
    ensures
      var outer := Way(at.0, [at.1] + way.picks);
      LeadsTo(w, starts, comps, want, exact, outer, b) && HeadIn(outer, [at]) && outer.picks[1..] == way.picks && way.start == 0
  {
    hide Taken;
    hide FirstPart;
    hide LooksOn;
    hide LeadsTo;
    hide Verbatim;
    WayLength(w, [s'], comps[1..], want, exact', way, b);
    assert way == Way(0, way.picks);
    LeadsBehindPart(w, starts, comps, want, exact, exact', at, s', way.picks, b);
  }

  lemma HeadedIsFound(w: World, starts: seq<Built>, comps: seq<string>, want: bool, exact: bool, exact': bool, at: (nat, nat), s': Built, ways: seq<Way>, bs: seq<Built>, way: Way, b: Built)
    requires |comps| > 1 && !Verbatim(comps, 0)
    requires FirstPart(w, starts, comps[0], want, Taken(w, starts, comps, want, exact, 0), at, s')
    requires LooksOn(w, starts, comps, want, exact, exact', s')
    requires Found(w, [s'], comps[1..], want, exact', ways, bs)
    requires LeadsTo(w, starts, comps, want, exact, way, b) && HeadIn(way, [at])
    ensures InFound(Headed(at, ways), bs, way, b)
  {
    hide Taken;
    hide FirstPart;
    hide LooksOn;
    hide LeadsTo;
    hide Verbatim;
    WayLength(w, starts, comps, want, exact, way, b);
    var picks := way.picks[1..];
    assert way.picks == [at.1] + picks && way == Way(at.0, [at.1] + picks);
    LeadsBehindPart(w, starts, comps, want, exact, exact', at, s', picks, b);
    var k :| 0 <= k < |ways| && ways[k] == Way(0, picks) && bs[k] == b;
    assert Headed(at, ways)[k] == way;
  }

  lemma WayLength(w: World, starts: seq<Built>, comps: seq<string>, want: bool, exact: bool, way: Way, b: Built)
    requires LeadsTo(w, starts, comps, want, exact, way, b)
    ensures |way.picks| == |comps| && way.start < |starts|
  {
  }

  lemma FoundTogether(w: World, starts: seq<Built>, comps: seq<string>, want: bool, exact: bool,
                      heads: seq<(nat, nat)>, ways: seq<Way>, bs: seq<Built>, at: (nat, nat), ways': seq<Way>, bs': seq<Built>)
    requires FoundFor(w, starts, comps, want, exact, heads, ways, bs) && FoundFor(w, starts, comps, want, exact, [at], ways', bs')
    requires at !in heads
    ensures FoundFor(w, starts, comps, want, exact, heads + [at], ways + ways', bs + bs')
  {
    hide LeadsTo;
    hide InFound;
    var all, paths := ways + ways', bs + bs';
    forall i, k | 0 <= i < k < |all| ensures all[i] != all[k] {
      if i < |ways| <= k { assert HeadIn(all[i], heads) && HeadIn(all[k], [at]); }
    }
    forall way, b | LeadsTo(w, starts, comps, want, exact, way, b) && HeadIn(way, heads + [at]) ensures InFound(all, paths, way, b) {
      if HeadIn(way, heads) { InFoundGrows(ways, bs, ways', bs', way, b); }
      else { assert HeadIn(way, [at]); InFoundGrows(ways, bs, ways', bs', way, b); }
    }
  }

  lemma InFoundGrows(ways: seq<Way>, bs: seq<Built>, ways': seq<Way>, bs': seq<Built>, way: Way, b: Built)
    requires |ways| == |bs| && |ways'| == |bs'| && (InFound(ways, bs, way, b) || InFound(ways', bs', way, b))
    ensures InFound(ways + ways', bs + bs', way, b)
  {
    if InFound(ways, bs, way, b) {
      var k :| 0 <= k < |ways| && ways[k] == way && bs[k] == b;
      assert (ways + ways')[k] == way && (bs + bs')[k] == b;
    } else {
      var k :| 0 <= k < |ways'| && ways'[k] == way && bs'[k] == b;
      assert (ways + ways')[|ways| + k] == way && (bs + bs')[|ways| + k] == b;
    }
  }

  // Every way has one of the heads of the first parts.
  lemma FoundForAll(w: World, starts: seq<Built>, comps: seq<string>, want: bool, exact: bool, firsts: seq<(nat, nat)>, parts: seq<Built>, ways: seq<Way>, bs: seq<Built>)
    requires |comps| > 1 && !Verbatim(comps, 0)
    requires FirstParts(w, starts, comps[0], want, Taken(w, starts, comps, want, exact, 0), firsts, parts)
    requires FoundFor(w, starts, comps, want, exact, firsts, ways, bs)
    ensures Found(w, starts, comps, want, exact, ways, bs)
  {
    hide LeadsTo;
    hide Taken;
    hide FirstPart;
    forall way, b | LeadsTo(w, starts, comps, want, exact, way, b) ensures exists k :: 0 <= k < |ways| && ways[k] == way && bs[k] == b {
      WayLength(w, starts, comps, want, exact, way, b);
      LeadsFromPart(w, starts, comps, want, exact, way, b);
      assert HeadIn(way, firsts);
      assert InFound(ways, bs, way, b);
    }
  }

  lemma DotsFound(w: World, starts: seq<Built>, comps: seq<string>, want: bool, exact: bool, ways: seq<Way>, bs: seq<Built>) returns (outer: seq<Way>)
    requires Verbatim(comps, 0) && Found(w, Entered(starts, comps[0]), comps[1..], want, exact, ways, bs)
    ensures |outer| == |ways| && forall k :: 0 <= k < |ways| ==> outer[k] == Way(ways[k].start, [0] + ways[k].picks)
    ensures Found(w, starts, comps, want, exact, outer, bs)
  {
    hide LeadsTo;
    var entered, more := Entered(starts, comps[0]), comps[1..];
    outer := seq(|ways|, k requires 0 <= k < |ways| => Way(ways[k].start, [0] + ways[k].picks));
    forall k | 0 <= k < |outer| ensures LeadsTo(w, starts, comps, want, exact, outer[k], bs[k]) && outer[k].picks[1..] == ways[k].picks {
      WayLength(w, entered, more, want, exact, ways[k], bs[k]);
      assert outer[k].picks[1..] == ways[k].picks && Way(ways[k].start, outer[k].picks[1..]) == ways[k];
      LeadsBehindDots(w, starts, comps, want, exact, outer[k], bs[k]);
    }
    forall i, k | 0 <= i < k < |outer| ensures outer[i] != outer[k] {
      assert outer[i].picks[1..] == ways[i].picks && outer[k].picks[1..] == ways[k].picks;
    }
    forall way, b | LeadsTo(w, starts, comps, want, exact, way, b) ensures exists k :: 0 <= k < |outer| && outer[k] == way && bs[k] == b {
      LeadsBehindDots(w, starts, comps, want, exact, way, b);
      var k :| 0 <= k < |ways| && ways[k] == Way(way.start, way.picks[1..]) && bs[k] == b;
      assert way.picks == [0] + way.picks[1..];
      assert outer[k] == way;
    }
  }

  // ---- the paths in order ----

  lemma SamePlaces(w: World, starts: seq<Built>, comps: seq<string>, want: bool, ats: seq<(nat, nat)>, cs: seq<Candidate>)
    requires Lists(w, starts, want, ats) && ComeFrom(w, starts, want, cs, ats)
    ensures Offers(w, StartPlaces(starts, comps, 0), want, ats)
    ensures OfferedNames(w, StartPlaces(starts, comps, 0), want, ats) == Names(cs)
  {
    hide EntryAt;
    var places := StartPlaces(starts, comps, 0);
    forall at: (nat, nat) ensures Offered(w, places, want, at) == Origin(w, starts, want, at) {
      if at.0 < |starts| { assert Texts(starts[at.0].parts) + comps[..0] == Texts(starts[at.0].parts); }
    }
  }

  // The first parts, as the matcher arranges them.
  ghost predicate HeadsInOrder(w: World, starts: seq<Built>, comps: seq<string>, want: bool, firsts: seq<(nat, nat)>)
    requires comps != []
  {
    forall i, k :: 0 <= i < k < |firsts| ==> ListedBefore(w, StartPlaces(starts, comps, 0), comps[0], want, firsts[i], firsts[k])
  }

  lemma MatchedInOrder(w: World, starts: seq<Built>, comps: seq<string>, want: bool, ats: seq<(nat, nat)>)
    requires comps != [] && Lists(w, starts, want, ats) && ComeFrom(w, starts, want, Candidates(w, starts, want), ats)
    requires
      var ms := w.matching(comps[0], Names(Candidates(w, starts, want)));
      forall k :: 0 <= k < |ms| ==> ms[k].0 < |ats|
    ensures HeadsInOrder(w, starts, comps, want, MatchedOrigins(ats, w.matching(comps[0], Names(Candidates(w, starts, want)))))
  {
    hide Candidates;
    hide Offers;
    hide OfferedNames;
    var cs := Candidates(w, starts, want);
    var ms := w.matching(comps[0], Names(cs));
    SamePlaces(w, starts, comps, want, ats, cs);
    var firsts := MatchedOrigins(ats, ms);
    forall i, k | 0 <= i < k < |firsts| ensures ListedBefore(w, StartPlaces(starts, comps, 0), comps[0], want, firsts[i], firsts[k]) {
      assert ListedAmong(ms, ats, firsts[i], firsts[k]);
    }
  }

  lemma HeadsPart(w: World, starts: seq<Built>, comps: seq<string>, want: bool, way: Way, b: Built, way': Way)
    requires comps != [] && !Verbatim(comps, 0) && way.start < |starts| && |way.picks| == |comps| == |way'.picks|
    requires ListedBefore(w, StartPlaces(starts, comps, 0), comps[0], want, (way.start, way.picks[0]), (way'.start, way'.picks[0]))
    ensures Before(w, starts, comps, want, way, b, way')
  {
    hide ListedBefore;
    assert way.picks[..0] == way'.picks[..0];
    assert PartsAt(w, starts, comps, want, way, b, way', 0);
  }

  lemma LastInOrder(w: World, starts: seq<Built>, comp: string, want: bool, firsts: seq<(nat, nat)>, bs: seq<Built>)
    requires FirstParts(w, starts, comp, want, false, firsts, bs) && HeadsInOrder(w, starts, [comp], want, firsts)
    ensures InMatcherOrder(w, starts, [comp], want, FirstWays(firsts), bs)
  {
    hide ListedBefore;
    hide Before;
    var ways := FirstWays(firsts);
    forall i, k | 0 <= i < k < |ways| ensures Before(w, starts, [comp], want, ways[i], bs[i], ways[k]) {
      assert (ways[i].start, ways[i].picks[0]) == firsts[i] && (ways[k].start, ways[k].picks[0]) == firsts[k];
      assert FirstPart(w, starts, comp, want, false, firsts[i], bs[i]);
      HeadsPart(w, starts, [comp], want, ways[i], bs[i], ways[k]);
    }
  }

  // The parts kept verbatim behind a starting path.
  lemma {:induction false} VerbatimTexts(w: World, starts: seq<Built>, comps: seq<string>, want: bool, exact: bool, way: Way, b: Built, j: nat)
    requires LeadsTo(w, starts, comps, want, exact, way, b) && j <= |comps| && !Narrowed(comps, j)
    ensures
      var s := starts[way.start];
      Texts(b.parts[..|s.parts| + j]) == Texts(s.parts) + comps[..j]
    decreases j
  {
    hide Taken;
    var s := starts[way.start];
    var n := |s.parts|;
    if j == 0 {
      assert b.parts[..n + 0] == s.parts && comps[..0] == [];
    } else {
      assert !Narrowed(comps, j - 1);
      VerbatimTexts(w, starts, comps, want, exact, way, b, j - 1);
      assert Verbatim(comps, j - 1);
      assert PartFits(w, comps, want, Taken(w, starts, comps, want, exact, j - 1), b, n, j - 1, way.picks[j - 1]);
      var front, last := b.parts[..n + (j - 1)], b.parts[n + (j - 1)];
      assert b.parts[..n + j] == front + [last];
      assert Texts(front + [last]) == Texts(front) + [last.text];
      assert comps[..j] == comps[..j - 1] + [comps[j - 1]];
    }
  }

  lemma NarrowedFurther(comps: seq<string>, j: nat)
    requires comps != []
    ensures Narrowed(comps, j + 1) == (!Verbatim(comps, 0) || Narrowed(comps[1..], j))
  {
    hide Verbatim;
    forall i: nat ensures Verbatim(comps, i + 1) == Verbatim(comps[1..], i) { VerbatimFurther(comps, i); }
    if Narrowed(comps, j + 1) && Verbatim(comps, 0) {
      var i :| 0 <= i < j + 1 && !Verbatim(comps, i);
      assert !Verbatim(comps[1..], i - 1);
    }
    if Narrowed(comps[1..], j) {
      var i :| 0 <= i < j && !Verbatim(comps[1..], i);
      assert !Verbatim(comps, i + 1);
    }
  }

  // Ways that part behind a common first part.
  lemma PartsBehindPart(w: World, starts: seq<Built>, comps: seq<string>, want: bool, exact': bool, at: (nat, nat), s': Built, way: Way, b: Built, way': Way, j: nat)
    requires |comps| > 1 && !Verbatim(comps, 0) && at.0 < |starts| && |s'.parts| == |starts[at.0].parts| + 1
    requires LeadsTo(w, [s'], comps[1..], want, exact', way, b) && way'.start == 0
    requires PartsAt(w, [s'], comps[1..], want, way, b, way', j)
    ensures Before(w, starts, comps, want, Way(at.0, [at.1] + way.picks), b, Way(at.0, [at.1] + way'.picks))
  {
    hide ListedBefore;
    hide LeadsTo;
    hide Verbatim;
    var outer, outer' := Way(at.0, [at.1] + way.picks), Way(at.0, [at.1] + way'.picks);
    VerbatimFurther(comps, j);
    NarrowedFurther(comps, j);
    WayLength(w, [s'], comps[1..], want, exact', way, b);
    assert outer.picks[..j + 1] == [at.1] + way.picks[..j] && outer'.picks[..j + 1] == [at.1] + way'.picks[..j];
    if !Narrowed(comps[1..], j) {
      VerbatimTexts(w, [s'], comps[1..], want, exact', way, b, j);
      LeadsPlace(w, [s'], comps[1..], want, exact', way, b);
      assert StartPlaces([s'], comps[1..], j) == [(b.cwd, Texts(b.parts[..|s'.parts| + j]))];
    }
    assert PartsAt(w, starts, comps, want, outer, b, outer', j + 1);
  }

  lemma LeadsPlace(w: World, starts: seq<Built>, comps: seq<string>, want: bool, exact: bool, way: Way, b: Built)
    requires LeadsTo(w, starts, comps, want, exact, way, b)
    ensures way.start < |starts| && b.cwd == starts[way.start].cwd && |b.parts| == |starts[way.start].parts| + |comps|
  {
  }

  lemma HeadedInOrder(w: World, starts: seq<Built>, comps: seq<string>, want: bool, exact': bool, at: (nat, nat), s': Built, ways: seq<Way>, bs: seq<Built>)
    requires |comps| > 1 && !Verbatim(comps, 0) && at.0 < |starts| && |s'.parts| == |starts[at.0].parts| + 1
    requires Found(w, [s'], comps[1..], want, exact', ways, bs) && InMatcherOrder(w, [s'], comps[1..], want, ways, bs)
    ensures InMatcherOrder(w, starts, comps, want, Headed(at, ways), bs)
  {
    hide LeadsTo;
    hide PartsAt;
    hide Verbatim;
    var outer := Headed(at, ways);
    forall i, k | 0 <= i < k < |outer| ensures Before(w, starts, comps, want, outer[i], bs[i], outer[k]) {
      assert Before(w, [s'], comps[1..], want, ways[i], bs[i], ways[k]);
      var j :| PartsAt(w, [s'], comps[1..], want, ways[i], bs[i], ways[k], j);
      WayLength(w, [s'], comps[1..], want, exact', ways[k], bs[k]);
      PartsBehindPart(w, starts, comps, want, exact', at, s', ways[i], bs[i], ways[k], j);
    }
  }

  // Ways that part behind a component kept verbatim.
  lemma PartsBehindDots(w: World, starts: seq<Built>, comps: seq<string>, want: bool, way: Way, b: Built, way': Way, j: nat)
    requires Verbatim(comps, 0) && PartsAt(w, Entered(starts, comps[0]), comps[1..], want, way, b, way', j)
    ensures Before(w, starts, comps, want, Way(way.start, [0] + way.picks), b, Way(way'.start, [0] + way'.picks))
  {
    hide ListedBefore;
    var outer, outer' := Way(way.start, [0] + way.picks), Way(way'.start, [0] + way'.picks);
    var entered := Entered(starts, comps[0]);
    VerbatimFurther(comps, j);
    NarrowedFurther(comps, j);
    hide Verbatim;
    hide Narrowed;
    assert outer.picks[..j + 1] == [0] + way.picks[..j] && outer'.picks[..j + 1] == [0] + way'.picks[..j];
    PlacesBehindDots(starts, comps, j);
    assert PartsAt(w, starts, comps, want, outer, b, outer', j + 1);
  }

  lemma PlacesBehindDots(starts: seq<Built>, comps: seq<string>, j: nat)
    requires j < |comps|
    ensures StartPlaces(Entered(starts, comps[0]), comps[1..], j) == StartPlaces(starts, comps, j + 1)
  {
    var entered := Entered(starts, comps[0]);
    forall i | 0 <= i < |starts| ensures Texts(entered[i].parts) + comps[1..][..j] == Texts(starts[i].parts) + comps[..j + 1] {
      assert Texts(entered[i].parts) == Texts(starts[i].parts) + [comps[0]];
      assert comps[..j + 1] == [comps[0]] + comps[1..][..j];
    }
  }

  lemma DotsInOrder(w: World, starts: seq<Built>, comps: seq<string>, want: bool, ways: seq<Way>, outer: seq<Way>, bs: seq<Built>)
    requires Verbatim(comps, 0) && InMatcherOrder(w, Entered(starts, comps[0]), comps[1..], want, ways, bs)
    requires |outer| == |ways| && forall k :: 0 <= k < |ways| ==> outer[k] == Way(ways[k].start, [0] + ways[k].picks)
    ensures InMatcherOrder(w, starts, comps, want, outer, bs)
  {
    hide PartsAt;
    var entered := Entered(starts, comps[0]);
    forall i, k | 0 <= i < k < |outer| ensures Before(w, starts, comps, want, outer[i], bs[i], outer[k]) {
      assert Before(w, entered, comps[1..], want, ways[i], bs[i], ways[k]);
      var j :| PartsAt(w, entered, comps[1..], want, ways[i], bs[i], ways[k], j);
      PartsBehindDots(w, starts, comps, want, ways[i], bs[i], ways[k], j);
    }
  }

  // Paths of a later first part go behind those of the earlier ones.
  lemma OrderTogether(w: World, starts: seq<Built>, comps: seq<string>, want: bool, exact: bool, firsts: seq<(nat, nat)>, n: nat,
                      ways: seq<Way>, bs: seq<Built>, ways': seq<Way>, bs': seq<Built>)
    requires comps != [] && !Verbatim(comps, 0) && n < |firsts| && HeadsInOrder(w, starts, comps, want, firsts)
    requires FoundFor(w, starts, comps, want, exact, firsts[..n], ways, bs) && InMatcherOrder(w, starts, comps, want, ways, bs)
    requires FoundFor(w, starts, comps, want, exact, [firsts[n]], ways', bs') && InMatcherOrder(w, starts, comps, want, ways', bs')
    ensures InMatcherOrder(w, starts, comps, want, ways + ways', bs + bs')
  {
    hide LeadsTo;
    hide Before;
    hide ListedBefore;
    hide Verbatim;
    hide InFound;
    var all, paths := ways + ways', bs + bs';
    forall i, k | 0 <= i < k < |all| ensures Before(w, starts, comps, want, all[i], paths[i], all[k]) {
      if i < |ways| <= k {
        assert HeadIn(all[i], firsts[..n]) && HeadIn(all[k], [firsts[n]]);
        var p := PlaceOf(firsts[..n], (all[i].start, all[i].picks[0]));
        assert firsts[p] == firsts[..n][p];
        WayLength(w, starts, comps, want, exact, all[i], paths[i]);
        WayLength(w, starts, comps, want, exact, all[k], paths[k]);
        HeadsPart(w, starts, comps, want, all[i], paths[i], all[k]);
      } else if k < |ways| {
        assert Before(w, starts, comps, want, ways[i], bs[i], ways[k]);
      } else {
        assert Before(w, starts, comps, want, ways'[i - |ways|], bs'[i - |ways|], ways'[k - |ways|]);
      }
    }
  }

  // ---- the theorem ----

  lemma AskedBehind(partial: seq<string>, o: Options)
    requires HasMore(partial, o)
    ensures Asked(partial[1..], o) == Asked(partial, o)[1..] && |Asked(partial, o)| > 1 && Asked(partial, o)[0] == partial[0]
    ensures Verbatim(Asked(partial, o), 0) == IsDotComponent(partial[0])
  {
  }

  // Without a component taken, looking on goes by matching alone.
  lemma LooksOnByMatching(w: World, starts: seq<Built>, comps: seq<string>, want: bool, exact: bool, s': Built)
    requires |comps| > 1 && !Verbatim(comps, 0) && !Taken(w, starts, comps, want, exact, 0)
    ensures LooksOn(w, starts, comps, want, exact, false, s')
  {
    hide Taken;
    forall j | 0 <= j < |comps| - 1 ensures !Taken(w, starts, comps, want, exact, j + 1) && !Taken(w, [s'], comps[1..], want, false, j) {
      NothingTaken(w, starts, comps, want, exact, j + 1);
      NothingTaken(w, [s'], comps[1..], want, false, j);
    }
  }

  lemma LooksOnExactly(w: World, starts: seq<Built>, comps: seq<string>, want: bool, at: (nat, nat), s': Built)
    requires |comps| > 1 && !Verbatim(comps, 0) && SpeltOnce(w, starts, comps, want, 1)
    requires FirstParts(w, starts, comps[0], want, true, [at], [s'])
    ensures LooksOn(w, starts, comps, want, true, true, s')
  {
    hide Taken;
    hide SpeltOnce;
    assert FirstPart(w, starts, comps[0], want, true, [at][0], [s'][0]);
    forall n | 0 < n < |comps| ensures SpeltOnce(w, starts, comps, want, n + 1) <==> SpeltOnce(w, [s'], comps[1..], want, n) {
      OnceBehindExact(w, starts, comps, want, n, n + 1, at, s');
    }
    forall j | 0 <= j < |comps| - 1 ensures Taken(w, starts, comps, want, true, j + 1) <==> Taken(w, [s'], comps[1..], want, true, j) {
      TakenFurther(w, starts, [s'], comps, want, true, j);
    }
  }

  lemma {:induction false} EachFound(w: World, partial: seq<string>, starts: seq<Built>, o: Options, exact: bool, firsts: seq<(nat, nat)>, parts: seq<Built>, n: nat)
    returns (ways: seq<Way>)
    requires Faithful(w) && HasMore(partial, o) && n <= |firsts|
    requires
      var comps := Asked(partial, o);
      && !Verbatim(comps, 0) && !Taken(w, starts, comps, o.wantDirectory, exact, 0)
      && FirstParts(w, starts, comps[0], o.wantDirectory, false, firsts, parts)
      && HeadsInOrder(w, starts, comps, o.wantDirectory, firsts)
    ensures FoundFor(w, starts, Asked(partial, o), o.wantDirectory, exact, firsts[..n], ways, CompleteEach(w, partial[1..], parts[..n], o))
    ensures InMatcherOrder(w, starts, Asked(partial, o), o.wantDirectory, ways, CompleteEach(w, partial[1..], parts[..n], o))
    decreases |partial| - 1, 1, n
  {
    hide LeadsTo;
    hide Taken;
    hide FirstPart;
    hide Complete;
    hide LooksOn;
    hide Found;
    hide FoundFor;
    hide Faithful;
    hide InMatcherOrder;
    hide HeadsInOrder;
    var comps, want := Asked(partial, o), o.wantDirectory;
    if n == 0 {
      ways := [];
      NoneFound(w, starts, comps, want, exact);
      assert firsts[..0] == [] && parts[..0] == [];
    } else {
      var front := EachFound(w, partial, starts, o, exact, firsts, parts, n - 1);
      AskedBehind(partial, o);
      var s' := parts[n - 1];
      var inner := CompletionFinds(w, partial[1..], [s'], o, false);
      LooksOnByMatching(w, starts, comps, want, exact, s');
      var found := Complete(w, partial[1..], [s'], o, false);
      HeadedFound(w, starts, comps, want, exact, false, firsts[n - 1], s', inner, found);
      PartIsFurther(w, starts, comps[0], want, false, firsts[n - 1], s');
      HeadedInOrder(w, starts, comps, want, false, firsts[n - 1], s', inner, found);
      assert parts[..n][..n - 1] == parts[..n - 1] && firsts[..n] == firsts[..n - 1] + [firsts[n - 1]];
      ways := front + Headed(firsts[n - 1], inner);
      FoundTogether(w, starts, comps, want, exact, firsts[..n - 1], front, CompleteEach(w, partial[1..], parts[..n - 1], o),
                    firsts[n - 1], Headed(firsts[n - 1], inner), found);
      OrderTogether(w, starts, comps, want, exact, firsts, n - 1, front, CompleteEach(w, partial[1..], parts[..n - 1], o),
                    Headed(firsts[n - 1], inner), found);
    }
  }

  lemma PartIsFurther(w: World, starts: seq<Built>, comp: string, want: bool, taken: bool, at: (nat, nat), s': Built)
    requires FirstPart(w, starts, comp, want, taken, at, s')
    ensures at.0 < |starts| && |s'.parts| == |starts[at.0].parts| + 1
  {
  }

  lemma NoneFound(w: World, starts: seq<Built>, comps: seq<string>, want: bool, exact: bool)
    ensures FoundFor(w, starts, comps, want, exact, [], [], []) && InMatcherOrder(w, starts, comps, want, [], [])
  {
  }

  // Completion returns the path of every admissible way, once, and no other path, in
  // the order of the matcher.
  lemma {:induction false} CompletionFinds(w: World, partial: seq<string>, starts: seq<Built>, o: Options, exact: bool) returns (ways: seq<Way>)
    requires Faithful(w)
    ensures Found(w, starts, Asked(partial, o), o.wantDirectory, exact, ways, Complete(w, partial, starts, o, exact))
    ensures InMatcherOrder(w, starts, Asked(partial, o), o.wantDirectory, ways, Complete(w, partial, starts, o, exact))
    decreases |partial|, 0
  {
    hide LeadsTo;
    hide FirstPart;
    hide SpeltOnce;
    hide LooksOn;
    hide Found;
    hide FirstParts;
    hide Faithful;
    hide Candidates;
    hide Matches;
    hide Exact;
    hide CompleteEach;
    hide InMatcherOrder;
    hide HeadsInOrder;
    var comps, want := Asked(partial, o), o.wantDirectory;
    var more := HasMore(partial, o);
    if more { AskedBehind(partial, o); }
    var prefix := if partial == [] then "" else partial[0];
    var cs := Candidates(w, starts, want);
    if more && IsDotComponent(partial[0]) {
      var inner := CompletionFinds(w, partial[1..], Entered(starts, partial[0]), o, exact);
      var found := Complete(w, partial[1..], Entered(starts, partial[0]), o, exact);
      ways := DotsFound(w, starts, comps, want, exact, inner, found);
      DotsInOrder(w, starts, comps, want, inner, ways, found);
    } else if !more {
      assert comps == [prefix];
      var ats := CandidatesAreListed(w, starts, want);
      MatchesAreFirstParts(w, starts, prefix, want, ats);
      MatchedInOrder(w, starts, comps, want, ats);
      var firsts := MatchedOrigins(ats, w.matching(prefix, Names(cs)));
      LastFound(w, starts, prefix, want, exact, firsts, Matches(w, prefix, cs));
      LastInOrder(w, starts, prefix, want, firsts, Matches(w, prefix, cs));
      ways := FirstWays(firsts);
    } else {
      ExactMeansOnce(w, starts, comps, want);
      if exact && |Exact(w, prefix, cs)| == 1 {
        ways := ExactFound(w, partial, starts, o);
      } else {
        var ats := CandidatesAreListed(w, starts, want);
        MatchesAreFirstParts(w, starts, prefix, want, ats);
        MatchedInOrder(w, starts, comps, want, ats);
        var firsts := MatchedOrigins(ats, w.matching(prefix, Names(cs)));
        var parts := Matches(w, prefix, cs);
        PartsPerFirst(w, starts, prefix, want, firsts, parts);
        ways := EachFound(w, partial, starts, o, exact, firsts, parts, |firsts|);
        assert firsts[..|firsts|] == firsts && parts[..|firsts|] == parts;
        FoundForAll(w, starts, comps, want, exact, firsts, parts, ways, CompleteEach(w, partial[1..], parts, o));
      }
    }
  }

  lemma PartsPerFirst(w: World, starts: seq<Built>, comp: string, want: bool, firsts: seq<(nat, nat)>, parts: seq<Built>)
    requires FirstParts(w, starts, comp, want, false, firsts, parts)
    ensures |firsts| == |parts|
  {
  }

  lemma ExactFound(w: World, partial: seq<string>, starts: seq<Built>, o: Options) returns (ways: seq<Way>)
    requires Faithful(w) && HasMore(partial, o) && !IsDotComponent(partial[0])
    requires |Exact(w, partial[0], Candidates(w, starts, o.wantDirectory))| == 1
    ensures
      Found(w, starts, Asked(partial, o), o.wantDirectory, true, ways,
            Complete(w, partial[1..], Exact(w, partial[0], Candidates(w, starts, o.wantDirectory)), o, true))
    ensures
      InMatcherOrder(w, starts, Asked(partial, o), o.wantDirectory, ways,
                     Complete(w, partial[1..], Exact(w, partial[0], Candidates(w, starts, o.wantDirectory)), o, true))
    decreases |partial| - 1, 2
  {
    hide LeadsTo;
    hide FirstPart;
    hide SpeltOnce;
    hide LooksOn;
    hide Found;
    hide FoundFor;
    hide Candidates;
    hide Exact;
    hide Complete;
    hide Faithful;
    hide InMatcherOrder;
    var comps, want := Asked(partial, o), o.wantDirectory;
    AskedBehind(partial, o);
    ExactMeansOnce(w, starts, comps, want);
    var exacts := Exact(w, partial[0], Candidates(w, starts, want));
    var s' := exacts[0];
    assert exacts == [s'];
    var at := ExactIsFirstPart(w, starts, partial[0], want);
    assert Taken(w, starts, comps, want, true, 0);
    assert FirstPart(w, starts, comps[0], want, true, [at][0], [s'][0]);
    LooksOnExactly(w, starts, comps, want, at, s');
    var inner := CompletionFinds(w, partial[1..], [s'], o, true);
    var found := Complete(w, partial[1..], [s'], o, true);
    HeadedFound(w, starts, comps, want, true, true, at, s', inner, found);
    PartIsFurther(w, starts, comps[0], want, true, at, s');
    HeadedInOrder(w, starts, comps, want, true, at, s', inner, found);
    ways := Headed(at, inner);
    FoundForAll(w, starts, comps, want, true, [at], [s'], ways, found);
  }

  // A path is completed if and only if some way leads to it.
  lemma CompletedExactly(w: World, partial: seq<string>, starts: seq<Built>, o: Options, exact: bool, b: Built)
    requires Faithful(w)
    ensures b in Complete(w, partial, starts, o, exact) <==>
            exists way :: LeadsTo(w, starts, Asked(partial, o), o.wantDirectory, exact, way, b)
  {
    hide LeadsTo;
    hide Complete;
    hide Faithful;
    var ways := CompletionFinds(w, partial, starts, o, exact);
    var found := Complete(w, partial, starts, o, exact);
    if b in found {
      var k :| 0 <= k < |found| && found[k] == b;
      assert LeadsTo(w, starts, Asked(partial, o), o.wantDirectory, exact, ways[k], b);
    }
  }
}
