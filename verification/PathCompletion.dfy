// Recursive path completion with cooperative cancellation
// (nebula-completions/src/file.rs, token in nebula_app/src/completion.rs).
//
// `Complete` is the completion nobody cancels. The methods below it run the same
// search while polling a token that another thread may trip at any moment.
module PathCompletion {
  import opened Text
  import opened NDots

  datatype Entry = Entry(name: string, isDir: bool)

  // A path under construction: where it starts and the components matched so far.
  datatype Built = Built(cwd: string, parts: seq<Part>, isDir: bool)

  // What the search asks of its surroundings: directory contents (none when a
  // directory cannot be read), name equality under the case option, the positions of a
  // whole name, the positions at which a prefix matches a name if it does, and the
  // matches among several names in the order of the matcher.
  datatype World = World(
    readDir: (string, seq<string>) -> Option<seq<Entry>>,
    sameName: (string, string) -> bool,
    everyPosition: string -> seq<nat>,
    positions: (string, string) -> Option<seq<nat>>,
    matching: (string, seq<string>) -> seq<(nat, seq<nat>)>)

  // The matcher arranges the names that match, each once, with their positions.
  ghost predicate Arranges(w: World, prefix: string, names: seq<string>, ms: seq<(nat, seq<nat>)>) {
    && (forall k :: 0 <= k < |ms| ==> ms[k].0 < |names| && w.positions(prefix, names[ms[k].0]) == Some(ms[k].1))
    && (forall j, k :: 0 <= j < k < |ms| ==> ms[j].0 != ms[k].0)
    && (forall i :: 0 <= i < |names| && w.positions(prefix, names[i]).Some? ==> exists k :: 0 <= k < |ms| && ms[k].0 == i)
  }

  ghost predicate Faithful(w: World) {
    forall prefix, names :: Arranges(w, prefix, names, w.matching(prefix, names))
  }

  // ---- the search ----

  datatype Candidate = Candidate(built: Built, name: string)

  function Extended(b: Built, part: Part): Built { b.(parts := b.parts + [part]) }

  function Entered(bs: seq<Built>, name: string): seq<Built> {
    seq(|bs|, i requires 0 <= i < |bs| => Extended(bs[i], Part(name, [])).(isDir := true))
  }

  function Admitted(b: Built, entries: seq<Entry>, wantDirectory: bool): seq<Candidate> {
    if entries == [] then []
    else
      var e := entries[|entries| - 1];
      Admitted(b, entries[..|entries| - 1], wantDirectory) +
      (if !wantDirectory || e.isDir then [Candidate(b.(isDir := e.isDir), e.name)] else [])
  }

  function Listing(w: World, b: Built): seq<Entry> {
    match w.readDir(b.cwd, Texts(b.parts))
    case None => []
    case Some(entries) => entries
  }

  function Candidates(w: World, bs: seq<Built>, wantDirectory: bool): seq<Candidate> {
    if bs == [] then []
    else
      var b := bs[|bs| - 1];
      Candidates(w, bs[..|bs| - 1], wantDirectory) + Admitted(b, Listing(w, b), wantDirectory)
  }

  // Candidates whose name is exactly the component typed.
  function Exact(w: World, prefix: string, cs: seq<Candidate>): seq<Built> {
    if cs == [] then []
    else
      var c := cs[|cs| - 1];
      Exact(w, prefix, cs[..|cs| - 1]) +
      (if w.sameName(c.name, prefix) then [Extended(c.built, Part(c.name, w.everyPosition(c.name)))] else [])
  }

  function Names(cs: seq<Candidate>): seq<string> {
    seq(|cs|, i requires 0 <= i < |cs| => cs[i].name)
  }

  function Matches(w: World, prefix: string, cs: seq<Candidate>): seq<Built>
    requires Faithful(w)
  {
    var ms := w.matching(prefix, Names(cs));
    assert Arranges(w, prefix, Names(cs), ms);
    seq(|ms|, k requires 0 <= k < |ms| => Extended(cs[ms[k].0].built, Part(cs[ms[k].0].name, ms[k].1)))
  }

  datatype Options = Options(wantDirectory: bool, isDir: bool)

  predicate HasMore(partial: seq<string>, o: Options) { partial != [] && (|partial| > 1 || o.isDir) }

  predicate IsDotComponent(s: string) { s == "." || s == ".." }

  function Complete(w: World, partial: seq<string>, bs: seq<Built>, o: Options, exact: bool): seq<Built>
    requires Faithful(w)
    decreases |partial|, 0
  {
    var more := HasMore(partial, o);
    if more && IsDotComponent(partial[0]) then Complete(w, partial[1..], Entered(bs, partial[0]), o, exact)
    else
      var prefix := if partial == [] then "" else partial[0];
      var cs := Candidates(w, bs, o.wantDirectory);
      var exacts := if exact && more then Exact(w, prefix, cs) else [];
      if |exacts| == 1 then Complete(w, partial[1..], exacts, o, true)
      else if more then CompleteEach(w, partial[1..], Matches(w, prefix, cs), o)
      else Matches(w, prefix, cs)
  }

  function CompleteEach(w: World, partial: seq<string>, bs: seq<Built>, o: Options): seq<Built>
    requires Faithful(w)
    decreases |partial|, 1, |bs|
  {
    if bs == [] then []
    else CompleteEach(w, partial, bs[..|bs| - 1], o) + Complete(w, partial, [bs[|bs| - 1]], o, false)
  }

  // ---- the token ----

  // A flag another thread sets once and never clears; `at` is the first poll that
  // would see it set, if any does.
  class Cancellation {
    const at: Option<nat>
    var polls: nat

    constructor (at: Option<nat>)
      ensures this.at == at && polls == 0
    {
      this.at, polls := at, 0;
    }

    // Some poll so far has seen the flag set.
    ghost predicate Seen()
      reads this
    {
      at.Some? && polls > at.value
    }

    method IsCancelled() returns (cancelled: bool)
      modifies this
      ensures polls == old(polls) + 1
      ensures cancelled <==> Seen()
      ensures old(Seen()) ==> Seen()
    {
      cancelled := at.Some? && polls >= at.value;
      polls := polls + 1;
    }
  }

  // ---- the search, polling ----

  // What one pass over the directories has collected.
  datatype Collected = Collected(candidates: seq<Candidate>, exact: Option<Built>, several: bool)

  predicate Tracks(c: Collected, cs: seq<Candidate>, exacts: seq<Built>) {
    && c.candidates == cs
    && (c.exact.Some? <==> exacts != []) && (c.exact.Some? ==> c.exact.value == exacts[0])
    && (c.several <==> |exacts| > 1)
  }

  function ExactsOf(w: World, prefix: string, cs: seq<Candidate>, look: bool): seq<Built> {
    if look then Exact(w, prefix, cs) else []
  }

  function Note(w: World, prefix: string, look: bool, c: Collected, item: Candidate): Collected {
    var hit := look && !c.several && w.sameName(item.name, prefix);
    Collected(c.candidates + [item],
              if hit && c.exact.None? then Some(Extended(item.built, Part(item.name, w.everyPosition(item.name)))) else c.exact,
              c.several || (hit && c.exact.Some?))
  }

  lemma NoteTracks(w: World, prefix: string, look: bool, c: Collected, cs: seq<Candidate>, item: Candidate)
    requires Tracks(c, cs, ExactsOf(w, prefix, cs, look))
    ensures Tracks(Note(w, prefix, look, c, item), cs + [item], ExactsOf(w, prefix, cs + [item], look))
  {
    assert (cs + [item])[..|cs|] == cs;
  }

  lemma AdmittedGrows(b: Built, entries: seq<Entry>, i: nat, wantDirectory: bool, cs: seq<Candidate>)
    requires i < |entries|
    ensures
      var e := entries[i];
      cs + Admitted(b, entries[..i + 1], wantDirectory) ==
      cs + Admitted(b, entries[..i], wantDirectory) +
      (if !wantDirectory || e.isDir then [Candidate(b.(isDir := e.isDir), e.name)] else [])
  {
    assert entries[..i + 1][..i] == entries[..i];
  }

  lemma NothingAdmitted(b: Built, wantDirectory: bool, cs: seq<Candidate>)
    ensures cs + Admitted(b, [], wantDirectory) == cs
  {
  }

  // The entries of one directory.
  method ScanEntries(w: World, prefix: string, look: bool, wantDirectory: bool, b: Built, entries: seq<Entry>,
                     start: Collected, ghost cs: seq<Candidate>, token: Cancellation) returns (r: Option<Collected>)
    requires Tracks(start, cs, ExactsOf(w, prefix, cs, look))
    modifies token
    ensures old(token.Seen()) ==> token.Seen()
    ensures !token.Seen() ==> r.Some?
    ensures r.Some? ==>
              var now := cs + Admitted(b, entries, wantDirectory);
              Tracks(r.value, now, ExactsOf(w, prefix, now, look))
  {
    hide Admitted;
    hide Tracks;
    hide ExactsOf;
    hide Note;
    var c := start;
    var i := 0;
    assert entries[..0] == [];
    NothingAdmitted(b, wantDirectory, cs);
    while i < |entries|
      invariant 0 <= i <= |entries|
      invariant old(token.Seen()) ==> token.Seen()
      invariant
        var now := cs + Admitted(b, entries[..i], wantDirectory);
        Tracks(c, now, ExactsOf(w, prefix, now, look))
    {
      var cancelled := token.IsCancelled();
      if cancelled {
        return None;
      }
      var e := entries[i];
      ghost var now := cs + Admitted(b, entries[..i], wantDirectory);
      AdmittedGrows(b, entries, i, wantDirectory, cs);
      if !wantDirectory || e.isDir {
        var item := Candidate(b.(isDir := e.isDir), e.name);
        NoteTracks(w, prefix, look, c, now, item);
        c := Note(w, prefix, look, c, item);
      } else {
        assert now + [] == now;
      }
      i := i + 1;
    }
    assert entries[..i] == entries;
    r := Some(c);
  }

  lemma CandidatesGrow(w: World, bs: seq<Built>, i: nat, wantDirectory: bool)
    requires i < |bs|
    ensures Candidates(w, bs[..i + 1], wantDirectory) ==
            Candidates(w, bs[..i], wantDirectory) + Admitted(bs[i], Listing(w, bs[i]), wantDirectory)
  {
    assert bs[..i + 1][..i] == bs[..i];
  }

  lemma NothingTracked(w: World, prefix: string, look: bool, wantDirectory: bool)
    ensures Candidates(w, [], wantDirectory) == []
    ensures Tracks(Collected([], None, false), [], ExactsOf(w, prefix, [], look))
  {
  }

  // All directories reached so far.
  method ScanDirectories(w: World, prefix: string, look: bool, wantDirectory: bool, bs: seq<Built>, token: Cancellation)
    returns (r: Option<Collected>)
    modifies token
    ensures old(token.Seen()) ==> token.Seen()
    ensures !token.Seen() ==> r.Some?
    ensures r.Some? ==>
              var cs := Candidates(w, bs, wantDirectory);
              Tracks(r.value, cs, ExactsOf(w, prefix, cs, look))
  {
    hide Candidates;
    hide Admitted;
    hide Tracks;
    hide ExactsOf;
    var c := Collected([], None, false);
    var i := 0;
    NothingTracked(w, prefix, look, wantDirectory);
    assert bs[..0] == [];
    while i < |bs|
      invariant 0 <= i <= |bs|
      invariant old(token.Seen()) ==> token.Seen()
      invariant
        var cs := Candidates(w, bs[..i], wantDirectory);
        Tracks(c, cs, ExactsOf(w, prefix, cs, look))
    {
      var cancelled := token.IsCancelled();
      if cancelled {
        return None;
      }
      CandidatesGrow(w, bs, i, wantDirectory);
      var next := ScanEntries(w, prefix, look, wantDirectory, bs[i], Listing(w, bs[i]), c,
                              Candidates(w, bs[..i], wantDirectory), token);
      if next.None? {
        return None;
      }
      c := next.value;
      i := i + 1;
    }
    assert bs[..i] == bs;
    r := Some(c);
  }

  // Every recursive call drops the first remaining component, so the search ends.
  method CompletePolling(w: World, partial: seq<string>, bs: seq<Built>, o: Options, exact: bool, token: Cancellation)
    returns (r: seq<Built>)
    requires Faithful(w)
    modifies token
    ensures old(token.Seen()) ==> token.Seen()
    ensures !token.Seen() ==> r == Complete(w, partial, bs, o, exact)
    decreases |partial|, 0
  {
    var cancelled := token.IsCancelled();
    if cancelled {
      return [];
    }
    var more := HasMore(partial, o);
    if more && IsDotComponent(partial[0]) {
      r := CompletePolling(w, partial[1..], Entered(bs, partial[0]), o, exact, token);
      return;
    }
    var prefix := if partial == [] then "" else partial[0];
    var scan := ScanDirectories(w, prefix, exact && more, o.wantDirectory, bs, token);
    if scan.None? {
      return [];
    }
    if !scan.value.several && scan.value.exact.Some? {
      r := CompletePolling(w, partial[1..], [scan.value.exact.value], o, true, token);
      assert ExactsOf(w, prefix, Candidates(w, bs, o.wantDirectory), exact && more) == [scan.value.exact.value];
      return;
    }
    var matches := Matches(w, prefix, scan.value.candidates);
    if more {
      r := CompleteEachPolling(w, partial[1..], matches, o, token);
    } else {
      r := matches;
    }
  }

  method CompleteEachPolling(w: World, partial: seq<string>, bs: seq<Built>, o: Options, token: Cancellation)
    returns (r: seq<Built>)
    requires Faithful(w)
    modifies token
    ensures old(token.Seen()) ==> token.Seen()
    ensures !token.Seen() ==> r == CompleteEach(w, partial, bs, o)
    decreases |partial|, 1
  {
    r := [];
    var i := 0;
    while i < |bs|
      invariant 0 <= i <= |bs|
      invariant old(token.Seen()) ==> token.Seen()
      invariant !token.Seen() ==> r == CompleteEach(w, partial, bs[..i], o)
    {
      assert bs[..i + 1][..i] == bs[..i];
      var found := CompletePolling(w, partial, [bs[i]], o, false, token);
      r := r + found;
      i := i + 1;
    }
    assert bs[..i] == bs;
  }

  // ---- the caller: rendering and the last polls ----

  function Rendered<S>(render: Built -> S, bs: seq<Built>): seq<S> {
    seq(|bs|, i requires 0 <= i < |bs| => render(bs[i]))
  }

  // Cancellation is all or nothing: at whatever poll the token trips, the result is
  // empty; if no poll sees it, the result is that of the search nobody cancels.
  method CompletePaths<S>(w: World, partial: seq<string>, bs: seq<Built>, o: Options, exact: bool,
                          render: Built -> S, token: Cancellation) returns (r: seq<S>)
    requires Faithful(w)
    modifies token
    ensures token.Seen() ==> r == []
    ensures !token.Seen() ==> r == Rendered(render, Complete(w, partial, bs, o, exact))
  {
    var cancelled := token.IsCancelled();
    if cancelled {
      return [];
    }
    var completed := CompletePolling(w, partial, bs, o, exact, token);
    cancelled := token.IsCancelled();
    if cancelled {
      return [];
    }
    r := [];
    var i, stop := 0, false;
    while i < |completed| && !stop
      invariant 0 <= i <= |completed|
      invariant stop ==> token.Seen()
      invariant !token.Seen() ==> completed == Complete(w, partial, bs, o, exact)
      invariant !stop ==> r == Rendered(render, completed[..i])
      decreases |completed| - i, !stop
    {
      stop := token.IsCancelled();
      if !stop {
        r := r + [render(completed[i])];
        i := i + 1;
      }
    }
    assert !stop ==> completed[..i] == completed;
    cancelled := token.IsCancelled();
    if cancelled {
      return [];
    }
  }
}
