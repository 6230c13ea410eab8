// The per-pane answer inbox (nebula_app/src/assistant_answer.rs): it binds answers
// reported by assistant hooks to the session that owns the pane.
module AnswerInbox {
  import opened Text

  datatype Kind = SessionStart | PromptSubmit | SessionEnd | Other

  datatype Answer = Complete(text: string) | Missing | TooLarge(bytes: nat)

  // A session is known by its provider and its id.
  datatype Session = Session(provider: string, id: string)

  datatype Event = Event(
    pane: Option<nat>, source: string, session: Option<string>, kind: Kind, sequence: nat,
    answer: Option<Answer>, cwd: Option<string>)

  datatype Snapshot = Snapshot(session: Session, sequence: nat, content: Answer, cwd: Option<string>)

  datatype State = State(owner: Option<Session>, closed: bool, lastSequence: nat, latest: Option<Snapshot>)

  const Fresh := State(None, false, 0, None)

  predicate Starts(e: Event) { e.kind == SessionStart || e.kind == PromptSubmit }

  // Events the inbox may act on at all: this pane, a known provider, a new number
  // and a named session.
  predicate Relevant(s: State, e: Event, pane: nat) {
    && e.pane == Some(pane) && (e.source == "claude" || e.source == "codex")
    && e.sequence > s.lastSequence && e.session.Some? && e.session.value != ""
  }

  function SessionOf(e: Event): Session
    requires e.session.Some?
  {
    Session(e.source, e.session.value)
  }

  predicate Accepts(s: State, e: Event, pane: nat) {
    Relevant(s, e, pane) && (Starts(e) || (!s.closed && (s.owner.None? || s.owner.value == SessionOf(e))))
  }

  // The state after an event; events that are not accepted change nothing.
  function Observed(s: State, e: Event, pane: nat): State {
    if !Accepts(s, e, pane) then s
    else
      var who := SessionOf(e);
      State(Some(who),
            e.kind == SessionEnd || (s.closed && !Starts(e)),
            e.sequence,
            if e.answer.Some? then Some(Snapshot(who, e.sequence, e.answer.value, e.cwd))
            else if s.owner != Some(who) || (Starts(e) && s.closed) then None
            else s.latest)
  }

  class Inbox {
    var owner: Option<Session>
    var closed: bool
    var lastSequence: nat
    var latest: Option<Snapshot>

    function View(): State
      reads this
    {
      State(owner, closed, lastSequence, latest)
    }

    constructor ()
      ensures View() == Fresh
    {
      owner, closed, lastSequence, latest := None, false, 0, None;
    }

    method Observe(e: Event, pane: nat) returns (stored: bool)
      modifies this
      ensures View() == Observed(old(View()), e, pane)
      ensures stored == (Accepts(old(View()), e, pane) && e.answer.Some?)
    {
      if e.pane != Some(pane) || !(e.source == "claude" || e.source == "codex") || e.sequence <= lastSequence {
        return false;
      }
      if e.session.None? || e.session.value == "" {
        return false;
      }
      var identity := Session(e.source, e.session.value);
      var starts := e.kind == SessionStart || e.kind == PromptSubmit;
      if owner.Some? && owner.value != identity && !starts {
        return false;
      }
      if closed && !starts {
        return false;
      }
      if owner != Some(identity) || (starts && closed) {
        latest := None;
      }
      owner := Some(identity);
      lastSequence := e.sequence;
      if starts {
        closed := false;
      }
      if e.kind == SessionEnd {
        closed := true;
      }
      if e.answer.Some? {
        latest := Some(Snapshot(identity, e.sequence, e.answer.value, e.cwd));
        return true;
      }
      stored := false;
    }

    method Close()
      modifies this
      ensures View() == old(View()).(closed := old(owner).Some?)
    {
      closed := owner.Some?;
    }

    method BeginCommand()
      modifies this
      ensures View() == old(View()).(owner := None, closed := false)
    {
      owner := None;
      closed := false;
    }
  }

  // ---- whole runs ----

  datatype Operation = Observe(event: Event) | Close | BeginCommand

  function Step(s: State, op: Operation, pane: nat): State {
    match op
    case Observe(e) => Observed(s, e, pane)
    case Close => s.(closed := s.owner.Some?)
    case BeginCommand => s.(owner := None, closed := false)
  }

  function Run(s: State, ops: seq<Operation>, pane: nat): State
    decreases |ops|
  {
    if ops == [] then s else Run(Step(s, ops[0], pane), ops[1..], pane)
  }

  // The snapshots a run stores, in order.
  function Stored(s: State, ops: seq<Operation>, pane: nat): seq<Snapshot>
    decreases |ops|
  {
    if ops == [] then []
    else
      (if ops[0].Observe? && Accepts(s, ops[0].event, pane) && ops[0].event.answer.Some?
       then [Step(s, ops[0], pane).latest.value] else [])
      + Stored(Step(s, ops[0], pane), ops[1..], pane)
  }

  // A stored answer belongs to the owner when there is one, and is not from the future.
  ghost predicate Sound(s: State) {
    && (s.latest.Some? && s.owner.Some? ==> s.latest.value.session == s.owner.value)
    && (s.latest.Some? ==> s.latest.value.sequence <= s.lastSequence)
    && (s.closed ==> s.owner.Some?)
  }

  lemma {:induction false} RunsStaySound(s: State, ops: seq<Operation>, pane: nat)
    requires Sound(s)
    ensures Sound(Run(s, ops, pane))
    ensures Run(s, ops, pane).lastSequence >= s.lastSequence
    decreases |ops|
  {
    if ops != [] { RunsStaySound(Step(s, ops[0], pane), ops[1..], pane); }
  }

  // Every run stores answers under strictly increasing sequence numbers, newer than
  // anything seen before the run.
  lemma {:induction false} StoredSequencesIncrease(s: State, ops: seq<Operation>, pane: nat)
    ensures forall i :: 0 <= i < |Stored(s, ops, pane)| ==> Stored(s, ops, pane)[i].sequence > s.lastSequence
    ensures forall i, j :: 0 <= i < j < |Stored(s, ops, pane)| ==>
              Stored(s, ops, pane)[i].sequence < Stored(s, ops, pane)[j].sequence
    decreases |ops|
  {
    if ops != [] { StoredSequencesIncrease(Step(s, ops[0], pane), ops[1..], pane); }
  }

  // A session whose answers the inbox refuses: it was closed, or another one owns the pane.
  ghost predicate LockedOut(s: State, who: Session) {
    s.owner.Some? && (s.owner.value != who || s.closed)
  }

  predicate Starting(op: Operation, who: Session) {
    op.Observe? && Starts(op.event) && op.event.session.Some? && SessionOf(op.event) == who
  }

  // Closing the pane, ending the session, or another session starting locks it out.
  lemma EndingLocksOut(s: State, op: Operation, pane: nat, who: Session)
    requires s.owner == Some(who)
    requires || op.Close?
             || (op.Observe? && Accepts(s, op.event, pane) && op.event.kind == SessionEnd)
             || (op.Observe? && Accepts(s, op.event, pane) && SessionOf(op.event) != who)
    ensures LockedOut(Step(s, op, pane), who)
  {
  }

  // No answer of an ended session is stored until that session starts again or a
  // new command begins, whatever else happens in between.
  lemma {:induction false} EndedSessionStaysOut(s: State, ops: seq<Operation>, pane: nat, who: Session)
    requires LockedOut(s, who)
    requires forall i :: 0 <= i < |ops| ==> !ops[i].BeginCommand? && !Starting(ops[i], who)
    ensures LockedOut(Run(s, ops, pane), who)
    ensures forall i :: 0 <= i < |Stored(s, ops, pane)| ==> Stored(s, ops, pane)[i].session != who
    decreases |ops|
  {
    if ops != [] { EndedSessionStaysOut(Step(s, ops[0], pane), ops[1..], pane, who); }
  }

  // Those two are also the only ways back in: a single step readmits a locked-out
  // session exactly when it begins a command or is an accepted start of it.
  lemma OnlyWaysBack(s: State, op: Operation, pane: nat, who: Session)
    requires LockedOut(s, who)
    ensures LockedOut(Step(s, op, pane), who) <==>
            !op.BeginCommand? && !(Starting(op, who) && Relevant(s, op.event, pane))
  {
  }

  // ---- what a run leaves, told by its events ----

  // Which operations of a run were accepted events. Everything below speaks of the
  // operations and this list only.
  type Verdicts = seq<bool>

  // The session of an accepted event owns the pane until another event is accepted or a
  // command begins.
  ghost predicate Owns(ops: seq<Operation>, accepted: Verdicts, i: nat, who: Session)
    requires i <= |ops| == |accepted|
  {
    exists j :: 0 <= j < i && accepted[j] && Sender(ops[j]) == Some(who)
      && forall k :: j < k < i ==> !accepted[k] && !ops[k].BeginCommand?
  }

  function Sender(op: Operation): Option<Session> {
    if op.Observe? && op.event.session.Some? then Some(Session(op.event.source, op.event.session.value)) else None
  }

  predicate EndsSession(op: Operation) { op.Observe? && op.event.kind == SessionEnd }

  predicate StartsSession(op: Operation) { op.Observe? && (op.event.kind == SessionStart || op.event.kind == PromptSubmit) }

  // The session in the pane has ended: it said so or the pane was closed on it, and
  // since then no start was accepted and no command began.
  ghost predicate HasEnded(ops: seq<Operation>, accepted: Verdicts, i: nat)
    requires i <= |ops| == |accepted|
  {
    exists j :: 0 <= j < i && EndsAt(ops, accepted, j) && forall k :: j < k < i ==> !ops[k].BeginCommand? && !(accepted[k] && StartsSession(ops[k]))
  }

  ghost predicate EndsAt(ops: seq<Operation>, accepted: Verdicts, j: nat)
    requires j < |ops| == |accepted|
  {
    (ops[j].Close? && exists who :: Owns(ops, accepted, j, who)) || (accepted[j] && EndsSession(ops[j]))
  }

  // An event counts if it is for this pane, from a known provider, of a named session,
  // newer than everything accepted, and starts a session or continues the open one.
  ghost predicate Admits(ops: seq<Operation>, accepted: Verdicts, pane: nat, i: nat)
    requires i < |ops| == |accepted|
  {
    && ops[i].Observe?
    && var e := ops[i].event;
       && e.pane == Some(pane) && e.source in {"claude", "codex"} && e.session.Some? && e.session.value != "" && e.sequence > 0
       && (forall j :: 0 <= j < i && accepted[j] && ops[j].Observe? ==> ops[j].event.sequence < e.sequence)
       && (StartsSession(ops[i]) ||
           (!HasEnded(ops, accepted, i) && forall who :: Owns(ops, accepted, i, who) ==> Sender(ops[i]) == Some(who)))
  }

  ghost predicate Judged(ops: seq<Operation>, accepted: Verdicts, pane: nat) {
    |accepted| == |ops| && forall i :: 0 <= i < |ops| ==> (accepted[i] <==> Admits(ops, accepted, pane, i))
  }

  // An accepted event that drops the stored answer: it changes the owner or reopens an
  // ended session.
  ghost predicate Drops(ops: seq<Operation>, accepted: Verdicts, i: nat)
    requires i < |ops| == |accepted|
  {
    && accepted[i]
    && (!(exists who :: Sender(ops[i]) == Some(who) && Owns(ops, accepted, i, who))
        || (StartsSession(ops[i]) && HasEnded(ops, accepted, i)))
  }

  predicate Carries(op: Operation) { op.Observe? && op.event.session.Some? && op.event.answer.Some? }

  // The answer as the event brought it.
  function Brought(op: Operation): Snapshot
    requires Carries(op)
  {
    var e := op.event;
    Snapshot(Session(e.source, e.session.value), e.sequence, e.answer.value, e.cwd)
  }

  // The answers of the events accepted among the first `n` operations, in order.
  function Answers(ops: seq<Operation>, accepted: Verdicts, n: nat): seq<Snapshot>
    requires n <= |ops| == |accepted|
  {
    if n == 0 then []
    else Answers(ops, accepted, n - 1) + (if accepted[n - 1] && Carries(ops[n - 1]) then [Brought(ops[n - 1])] else [])
  }

  // The last of these answers is still there, because nothing dropped it.
  ghost predicate Remains(ops: seq<Operation>, accepted: Verdicts, n: nat, i: nat)
    requires i < n <= |ops| == |accepted|
  {
    && accepted[i] && Carries(ops[i])
    && forall k :: i < k < n ==> !(accepted[k] && Carries(ops[k])) && !Drops(ops, accepted, k)
  }

  // Owner, openness and sequence number after `n` operations.
  ghost predicate Settles(ops: seq<Operation>, accepted: Verdicts, n: nat, s: State)
    requires n <= |ops| == |accepted|
  {
    && (forall who :: s.owner == Some(who) <==> Owns(ops, accepted, n, who))
    && (s.closed <==> HasEnded(ops, accepted, n)) && (s.closed ==> s.owner.Some?)
    && (forall j :: 0 <= j < n && accepted[j] && ops[j].Observe? ==> ops[j].event.sequence <= s.lastSequence)
    && (s.lastSequence == 0 || exists j :: 0 <= j < n && accepted[j] && ops[j].Observe? && ops[j].event.sequence == s.lastSequence)
  }

  // The answer held after `n` operations.
  ghost predicate Holds(ops: seq<Operation>, accepted: Verdicts, n: nat, latest: Option<Snapshot>)
    requires n <= |ops| == |accepted|
  {
    forall snapshot :: latest == Some(snapshot) <==>
      exists i :: 0 <= i < n && Remains(ops, accepted, n, i) && Brought(ops[i]) == snapshot
  }

  lemma OwnsNext(ops: seq<Operation>, accepted: Verdicts, n: nat, who: Session)
    requires n < |ops| == |accepted|
    ensures Owns(ops, accepted, n + 1, who) <==>
            if accepted[n] then Sender(ops[n]) == Some(who) else !ops[n].BeginCommand? && Owns(ops, accepted, n, who)
  {
  }

  lemma EndedNext(ops: seq<Operation>, accepted: Verdicts, n: nat)
    requires n < |ops| == |accepted|
    ensures HasEnded(ops, accepted, n + 1) <==>
            || EndsAt(ops, accepted, n)
            || (HasEnded(ops, accepted, n) && !ops[n].BeginCommand? && !(accepted[n] && StartsSession(ops[n])))
  {
    hide EndsAt;
  }

  // The verdict on the next operation is the inbox's own.
  lemma VerdictIsAcceptance(ops: seq<Operation>, accepted: Verdicts, n: nat, s: State, pane: nat)
    requires n < |ops| == |accepted| && Settles(ops, accepted, n, s)
    ensures Admits(ops, accepted, pane, n) <==> ops[n].Observe? && Accepts(s, ops[n].event, pane)
  {
    hide Owns;
    hide HasEnded;
    if ops[n].Observe? {
      var e := ops[n].event;
      if e.sequence > 0 && (forall j :: 0 <= j < n && accepted[j] && ops[j].Observe? ==> ops[j].event.sequence < e.sequence) {
        assert e.sequence > s.lastSequence;
      }
      if e.session.Some? {
        assert Sender(ops[n]) == Some(SessionOf(e));
        assert s.owner.Some? ==> Owns(ops, accepted, n, s.owner.value);
      }
    }
  }

  lemma SettlesNext(ops: seq<Operation>, accepted: Verdicts, n: nat, s: State, pane: nat)
    requires n < |ops| == |accepted| && Settles(ops, accepted, n, s)
    requires accepted[n] <==> ops[n].Observe? && Accepts(s, ops[n].event, pane)
    ensures Settles(ops, accepted, n + 1, Step(s, ops[n], pane))
  {
    hide Owns;
    hide HasEnded;
    var t := Step(s, ops[n], pane);
    forall who ensures t.owner == Some(who) <==> Owns(ops, accepted, n + 1, who) { OwnsNext(ops, accepted, n, who); }
    EndedNext(ops, accepted, n);
    assert s.owner.Some? <==> exists who :: Owns(ops, accepted, n, who) by {
      if s.owner.Some? { assert Owns(ops, accepted, n, s.owner.value); }
    }
    if !accepted[n] && t.lastSequence != 0 {
      var j :| 0 <= j < n && accepted[j] && ops[j].Observe? && ops[j].event.sequence == s.lastSequence;
      assert 0 <= j < n + 1;
    }
  }

  lemma {:induction false} RunAppend(s: State, ops: seq<Operation>, op: Operation, pane: nat)
    ensures Run(s, ops + [op], pane) == Step(Run(s, ops, pane), op, pane)
    ensures Stored(s, ops + [op], pane) ==
            Stored(s, ops, pane) +
            (if op.Observe? && Accepts(Run(s, ops, pane), op.event, pane) && op.event.answer.Some?
             then [Step(Run(s, ops, pane), op, pane).latest.value] else [])
    decreases |ops|
  {
    hide Step;
    hide Accepts;
    if ops == [] {
      assert ops + [op] == [op] && [op][1..] == [];
    } else {
      assert (ops + [op])[1..] == ops[1..] + [op];
      RunAppend(Step(s, ops[0], pane), ops[1..], op, pane);
    }
  }

  lemma HoldsNext(ops: seq<Operation>, accepted: Verdicts, n: nat, s: State, pane: nat)
    requires n < |ops| == |accepted| && Settles(ops, accepted, n, s) && Holds(ops, accepted, n, s.latest)
    requires accepted[n] <==> ops[n].Observe? && Accepts(s, ops[n].event, pane)
    ensures Holds(ops, accepted, n + 1, Step(s, ops[n], pane).latest)
  {
    hide Owns;
    hide HasEnded;
    hide Settles;
    var t := Step(s, ops[n], pane);
    var drops := accepted[n] && (s.owner != Sender(ops[n]) || (StartsSession(ops[n]) && s.closed));
    assert drops == Drops(ops, accepted, n) by { DropsExactly(ops, accepted, n, s); }
    forall i | 0 <= i < n ensures Remains(ops, accepted, n + 1, i) <==>
                                  Remains(ops, accepted, n, i) && !(accepted[n] && Carries(ops[n])) && !drops {
      hide Drops;
    }
    if accepted[n] && Carries(ops[n]) {
      assert Remains(ops, accepted, n + 1, n) && t.latest == Some(Brought(ops[n]));
    }
  }

  lemma DropsExactly(ops: seq<Operation>, accepted: Verdicts, n: nat, s: State)
    requires n < |ops| == |accepted| && Settles(ops, accepted, n, s) && (accepted[n] ==> Sender(ops[n]).Some?)
    ensures Drops(ops, accepted, n) <==> accepted[n] && (s.owner != Sender(ops[n]) || (StartsSession(ops[n]) && s.closed))
  {
    hide Owns;
    hide HasEnded;
  }

  // The verdicts of a run, and the state it leaves.
  lemma {:induction false} PrefixTold(ops: seq<Operation>, accepted: Verdicts, pane: nat, n: nat)
    requires Judged(ops, accepted, pane) && n <= |ops|
    ensures Settles(ops, accepted, n, Run(Fresh, ops[..n], pane)) && Holds(ops, accepted, n, Run(Fresh, ops[..n], pane).latest)
    ensures Stored(Fresh, ops[..n], pane) == Answers(ops, accepted, n)
    decreases n
  {
    hide Owns;
    hide HasEnded;
    hide Settles;
    hide Holds;
    if n == 0 {
      NothingTold(ops, accepted);
    } else {
      PrefixTold(ops, accepted, pane, n - 1);
      var s := Run(Fresh, ops[..n - 1], pane);
      assert ops[..n] == ops[..n - 1] + [ops[n - 1]];
      RunAppend(Fresh, ops[..n - 1], ops[n - 1], pane);
      VerdictIsAcceptance(ops, accepted, n - 1, s, pane);
      SettlesNext(ops, accepted, n - 1, s, pane);
      HoldsNext(ops, accepted, n - 1, s, pane);
    }
  }

  lemma NothingTold(ops: seq<Operation>, accepted: Verdicts)
    requires |ops| == |accepted|
    ensures Settles(ops, accepted, 0, Fresh) && Holds(ops, accepted, 0, None)
  {
  }

  // Over every run from a fresh inbox, with the events that count judged by the
  // operations alone: the stored snapshots are exactly the answers of the events that
  // count, in order, as the events brought them; the answer held at the end is the last
  // of them unless a later event that counts changed the owner or reopened an ended
  // session; owner, openness and sequence number are those of the events that count.
  lemma RunIsToldByItsEvents(ops: seq<Operation>, accepted: Verdicts, pane: nat)
    requires Judged(ops, accepted, pane)
    ensures Stored(Fresh, ops, pane) == Answers(ops, accepted, |ops|)
    ensures Settles(ops, accepted, |ops|, Run(Fresh, ops, pane))
    ensures forall snapshot :: Run(Fresh, ops, pane).latest == Some(snapshot) <==>
              exists i :: 0 <= i < |ops| && Remains(ops, accepted, |ops|, i) && Brought(ops[i]) == snapshot
  {
    hide Settles;
    hide Remains;
    assert ops[..|ops|] == ops;
    PrefixTold(ops, accepted, pane, |ops|);
  }

  // Every run can be judged in exactly one way.
  lemma {:induction false} RunsAreJudgedOnce(ops: seq<Operation>, pane: nat) returns (accepted: Verdicts)
    ensures Judged(ops, accepted, pane)
    ensures forall other :: Judged(ops, other, pane) ==> other == accepted
    decreases |ops|
  {
    hide Admits;
    if ops == [] {
      accepted := [];
    } else {
      var n := |ops| - 1;
      var front := RunsAreJudgedOnce(ops[..n], pane);
      var tried := front + [false];
      accepted := front + [Admits(ops, tried, pane, n)];
      forall i | 0 <= i < |ops| ensures accepted[i] <==> Admits(ops, accepted, pane, i) {
        if i < n {
          AdmitsLocally(ops, accepted, ops[..n], front, pane, i);
        } else {
          AdmitsLocally(ops, accepted, ops, tried, pane, n);
        }
      }
      forall other | Judged(ops, other, pane) ensures other == accepted {
        forall i | 0 <= i < n ensures other[..n][i] <==> Admits(ops[..n], other[..n], pane, i) {
          AdmitsLocally(ops, other, ops[..n], other[..n], pane, i);
        }
        assert Judged(ops[..n], other[..n], pane);
        AdmitsLocally(ops, other, ops, tried, pane, n);
        assert other == other[..n] + [other[n]];
      }
    }
  }

  // A verdict depends on the operation and what came before it.
  lemma AdmitsLocally(a: seq<Operation>, va: Verdicts, b: seq<Operation>, vb: Verdicts, pane: nat, i: nat)
    requires i < |a| == |va| && i < |b| == |vb| && a[..i + 1] == b[..i + 1] && va[..i] == vb[..i]
    ensures Admits(a, va, pane, i) <==> Admits(b, vb, pane, i)
  {
    hide Owns;
    hide HasEnded;
    assert forall j :: 0 <= j <= i ==> a[j] == b[j] by {
      forall j | 0 <= j <= i ensures a[j] == b[j] { assert a[j] == a[..i + 1][j]; }
    }
    assert forall j :: 0 <= j < i ==> va[j] == vb[j] by {
      forall j | 0 <= j < i ensures va[j] == vb[j] { assert va[j] == va[..i][j]; }
    }
    forall j, who | 0 <= j <= i ensures Owns(a, va, j, who) <==> Owns(b, vb, j, who) { OwnsLocally(a, va, b, vb, j, who); }
    EndedLocally(a, va, b, vb, i);
  }

  lemma OwnsLocally(a: seq<Operation>, va: Verdicts, b: seq<Operation>, vb: Verdicts, i: nat, who: Session)
    requires i <= |a| == |va| && i <= |b| == |vb|
    requires forall j :: 0 <= j < i ==> a[j] == b[j] && va[j] == vb[j]
    ensures Owns(a, va, i, who) <==> Owns(b, vb, i, who)
  {
  }

  lemma EndedLocally(a: seq<Operation>, va: Verdicts, b: seq<Operation>, vb: Verdicts, i: nat)
    requires i <= |a| == |va| && i <= |b| == |vb|
    requires forall j :: 0 <= j < i ==> a[j] == b[j] && va[j] == vb[j]
    requires forall j, who :: 0 <= j <= i ==> (Owns(a, va, j, who) <==> Owns(b, vb, j, who))
    ensures HasEnded(a, va, i) <==> HasEnded(b, vb, i)
  {
    hide Owns;
    forall j | 0 <= j < i ensures EndsAt(a, va, j) <==> EndsAt(b, vb, j) {}
  }
}
