// What single reports do to a pane (nebula_app/src/completion_context.rs), field by
// field and in terms of what was typed or reported.
module ShellReports {
  import opened Text
  import opened ShellNesting

  // Everything about a pane except its stack, place and line buffer.
  ghost predicate SameRecords(p: Pane, q: Pane) {
    q.pendingHistory == p.pendingHistory && q.lastCommitted == p.lastCommitted && q.history == p.history
  }

  // Arriving in another environment forgets what belonged to the old one.
  ghost predicate Arrives(p: Pane, q: Pane, env: Env, cwd: string) {
    if env == p.env then q.env == env && q.cwd == p.cwd && q.pendingRemoteDir == p.pendingRemoteDir && q.lineBuffer == p.lineBuffer
    else q.env == env && q.cwd == cwd && q.pendingRemoteDir.None? && q.lineBuffer == ""
  }

  // ---- connections ----

  // Two environments share a history scope only if they are the same, one is the typed
  // form of the other, or both are the default WSL distribution.
  lemma ScopesDiffer(a: Env, b: Env)
    ensures !a.Nested? && !b.Nested? ==>
              (ScopeOf(a) == ScopeOf(b) <==> a == b || (a in {Wsl(""), Wsl("<default>")} && b in {Wsl(""), Wsl("<default>")}))
    ensures a.Nested? && b.Nested? ==> (ScopeOf(a) == ScopeOf(b) <==> a == b)
    ensures ScopeOf(a).LocalScope? <==> a.Local? || a == Nested(LocalScope)
    ensures a.Wsl? ==> ScopeOf(a).WslScope?
    ensures a.Ssh? ==> ScopeOf(a).SshScope?
  {
  }

  // Words that open no connection change nothing; words that do leave the submitting
  // shell parked where it stood, and put the pane into an environment of its own, known
  // by kind, enclosing scope and words, in no directory yet.
  lemma SubmitExactly(k: Commands, p: Pane, words: seq<string>)
    requires Coherent(p)
    ensures
      var q := SubmitWords(k, p, words);
      if k.opens(words).NoLink? then q == p
      else
        var n := if p.frames == [] then 1 else |p.frames|;
        var name := Typed(ScopeOf(p.env), words);
        && q.env == Nested(if k.opens(words).SshLink? then SshScope(name) else WslScope(name))
        && q.cwd == "" && q.pendingRemoteDir.None? && q.lineBuffer == "" && SameRecords(p, q)
        && |q.frames| == n + 1 && q.frames[n] == Frame(None, q.env, "")
        && q.frames[n - 1] == Frame(if p.frames == [] then None else p.frames[n - 1].token, p.env, p.cwd)
        && q.frames[..n - 1] == p.frames[..n - 1]
  {
    var q := SubmitWords(k, p, words);
    if !k.opens(words).NoLink? {
      var n := if p.frames == [] then 1 else |p.frames|;
      assert q.frames[..n - 1] == p.frames[..n - 1];
    }
  }

  // Different words, or the same words in different scopes, are different connections.
  lemma ConnectionsDiffer(k: Commands, a: Env, b: Env, words: seq<string>, others: seq<string>)
    requires !k.opens(words).NoLink? && !k.opens(others).NoLink?
    ensures ChildEnv(k, a, words) == ChildEnv(k, b, others) <==>
            ScopeOf(a) == ScopeOf(b) && words == others
  {
  }

  // ---- prompts ----

  // A token is believed if it is short, not empty, and printable.
  lemma TokensExactly(token: string)
    ensures ValidToken(token) <==>
            0 < |token| && Utf8Length(token) <= 256 && forall i :: 0 <= i < |token| ==> 0x20 <= token[i] as int < 0x7f || 0xa0 <= token[i] as int
  {
  }

  // The prompt of a shell on the stack pops everything above it and takes the pane back
  // to where it is.
  lemma ReturningPrompt(k: Commands, p: Pane, i: nat)
    requires Coherent(p) && i < |p.frames| && p.frames[i].token.Some?
    ensures
      var q := Report(k, p, SHELL_VAR, p.frames[i].token.value);
      && q.frames == p.frames[..i + 1] && Arrives(p, q, p.frames[i].env, p.frames[i].cwd)
      && q.pendingHistory.None? && q.history == p.history && q.lastCommitted == p.lastCommitted
  {
    hide ValidToken;
    hide Introduce;
    FoundAtItsPlace(p, i);
  }

  lemma FoundAtItsPlace(p: Pane, i: nat)
    requires Coherent(p) && i < |p.frames| && p.frames[i].token.Some?
    ensures FindToken(p.frames, p.frames[i].token.value) == Some(i) && ValidToken(p.frames[i].token.value)
  {
    hide ValidToken;
    var at := FindToken(p.frames, p.frames[i].token.value);
    assert at.Some? && at.value <= i;
  }

  // The name in a report of the form `wsl|name|...`.
  ghost predicate ReportsDistro(token: string, name: string) {
    name != "" && '|' !in name && exists rest :: token == "wsl|" + name + "|" + rest
  }

  lemma ReportedDistro(token: string, name: string)
    requires ReportsDistro(token, name)
    ensures Reported(Wsl(""), token) == Wsl(name)
  {
    var rest :| token == "wsl|" + name + "|" + rest;
    assert token[..4] == "wsl|" && token[4..] == name + ['|'] + rest;
    SplitOnceAt(name, '|', rest);
  }

  lemma NothingReported(env: Env, token: string)
    requires env != Wsl("") || forall name :: !ReportsDistro(token, name)
    ensures Reported(env, token) == env
  {
    if env == Wsl("") && "wsl|" <= token && SplitOnce(token[4..], '|').Some? {
      var (name, rest) := SplitOnce(token[4..], '|').value;
      assert token == "wsl|" + token[4..];
      assert token == "wsl|" + name + "|" + rest;
      if name != "" { assert ReportsDistro(token, name); }
    }
  }

  // The prompt of an unknown shell names the connection waiting on top, or adds a shell
  // on the same host; the shells below stay.
  lemma NewPrompt(k: Commands, p: Pane, token: string)
    requires Coherent(p) && ValidToken(token) && forall i :: 0 <= i < |p.frames| ==> p.frames[i].token != Some(token)
    ensures
      var q := Report(k, p, SHELL_VAR, token);
      var waiting := p.frames != [] && p.frames[|p.frames| - 1].token.None?;
      var n := if waiting then |p.frames| - 1 else |p.frames|;
      && |q.frames| == n + 1 && q.frames[..n] == p.frames[..n]
      && q.frames[n] == Frame(Some(token), q.env, if waiting then p.frames[n].cwd else p.cwd)
      && Arrives(p, q, q.env, p.cwd) && q.pendingHistory.None? && q.history == p.history && q.lastCommitted == p.lastCommitted
  {
    hide ValidToken;
    hide Reported;
    hide Coherent;
    var q := Report(k, p, SHELL_VAR, token);
    var n := if p.frames != [] && p.frames[|p.frames| - 1].token.None? then |p.frames| - 1 else |p.frames|;
    assert q.frames[..n] == p.frames[..n];
  }

  // Only the default WSL distribution learns its name from it.
  lemma PromptNamesDistro(k: Commands, p: Pane, token: string)
    requires ValidToken(token) && forall i :: 0 <= i < |p.frames| ==> p.frames[i].token != Some(token)
    ensures
      var q := Report(k, p, SHELL_VAR, token);
      && (forall name :: p.env == Wsl("") && ReportsDistro(token, name) ==> q.env == Wsl(name))
      && (p.env != Wsl("") || (forall name :: !ReportsDistro(token, name)) ==> q.env == p.env)
  {
    hide ValidToken;
    hide Reported;
    hide ReportsDistro;
    var q := Report(k, p, SHELL_VAR, token);
    assert q.env == Reported(p.env, token);
    forall name | p.env == Wsl("") && ReportsDistro(token, name) ensures q.env == Wsl(name) { ReportedDistro(token, name); }
    if p.env != Wsl("") || forall name :: !ReportsDistro(token, name) { NothingReported(p.env, token); }
  }

  // ---- input lines ----

  ghost predicate IsInputLine(line: string) {
    Utf8Length(line) <= 4096 && forall i :: 0 <= i < |line| ==> 0x20 <= line[i] as int < 0x7f || 0xa0 <= line[i] as int
  }

  lemma InputLinesExactly(line: string)
    ensures IsInputLine(line) <==> !(Utf8Length(line) > 4096 || HasControl(line))
  {
  }

  // A line read by a shell on the stack is recorded under that shell's scope and in its
  // directory, unless it is the very line that was just recorded for it; nothing moves.
  lemma InputExactly(k: Commands, p: Pane, i: nat, line: string)
    requires Coherent(p) && i < |p.frames| && p.frames[i].token.Some? && IsInputLine(line)
    ensures
      var q := Report(k, p, INPUT_VAR, p.frames[i].token.value + "\n" + line);
      var scope, cwd := ScopeOf(p.frames[i].env), if p.frames[i].env == p.env then p.cwd else p.frames[i].cwd;
      && q == p.(pendingHistory := None, lastCommitted := k.trim(line), history := q.history)
      && q.history == if p.pendingHistory == Some((scope, k.trim(line))) then p.history else p.history + [(scope, line, cwd)]
  {
    hide ValidToken;
    var token := p.frames[i].token.value;
    FoundAtItsPlace(p, i);
    InputLinesExactly(line);
    TokenSplits(token, line);
  }

  lemma TokenSplits(token: string, line: string)
    requires ValidToken(token)
    ensures SplitOnce(token + "\n" + line, '\n') == Some((token, line))
  {
    assert forall i :: 0 <= i < |token| ==> !IsControl(token[i]);
    SplitOnceAt(token, '\n', line);
    assert token + "\n" + line == token + ['\n'] + line;
  }

  // A line is refused that is too long, unprintable, or from an unknown shell.
  lemma InputRefused(k: Commands, p: Pane, token: string, line: string)
    requires ValidToken(token)
    requires !IsInputLine(line) || forall i :: 0 <= i < |p.frames| ==> p.frames[i].token != Some(token)
    ensures Report(k, p, INPUT_VAR, token + "\n" + line) == p
  {
    hide ValidToken;
    InputLinesExactly(line);
    TokenSplits(token, line);
  }

  // A submitted line counts once, whether the pane saw it, its shell reported it, or
  // both did; and once more each time the shell reports it again.
  lemma LineCountsOnce(k: Commands, p: Pane, token: string, line: string)
    requires Coherent(p) && OwnsCurrent(p, token) && IsInputLine(line)
    ensures
      var seen, reported := Recorded(line), Reporting(INPUT_VAR, token + "\n" + line);
      var once := p.history + [(ScopeOf(p.env), line, p.cwd)];
      && Run(k, p, [seen]).history == once
      && Run(k, p, [seen, reported]).history == once
      && (p.pendingHistory.None? ==> Run(k, p, [reported]).history == once)
      && Run(k, p, [seen, reported, reported]).history == once + [(ScopeOf(p.env), line, p.cwd)]
  {
    hide IsInputLine;
    hide Report;
    var seen, reported := Recorded(line), Reporting(INPUT_VAR, token + "\n" + line);
    var n := |p.frames| - 1;
    var p1 := Step(k, p, seen);
    assert p.frames[n].env == p.env && p.frames[n].token == Some(token);
    SameFramesStayCoherent(p, p1);
    InputExactly(k, p1, n, line);
    InputExactly(k, p, n, line);
    var p2 := Step(k, p1, reported);
    SameFramesStayCoherent(p1, p2);
    InputExactly(k, p2, n, line);
    assert [seen][1..] == [] && [reported][1..] == [];
    assert [seen, reported][1..] == [reported] && [seen, reported, reported][1..] == [reported, reported] && [reported, reported][1..] == [reported];
    RunOne(k, p, seen);
    RunOne(k, p, reported);
    RunOne(k, p1, reported);
    RunOne(k, p2, reported);
  }

  lemma RunOne(k: Commands, p: Pane, e: Event)
    ensures Run(k, p, [e]) == Step(k, p, e)
  {
    hide Step;
    assert [e][1..] == [];
  }

  // ---- argument vectors ----

  function JoinedByNul(words: seq<string>): string {
    if words == [] then "" else if |words| == 1 then words[0] else words[0] + "\0" + JoinedByNul(words[1..])
  }

  lemma {:induction false} WordsComeBack(words: seq<string>)
    requires words != [] && forall i :: 0 <= i < |words| ==> '\0' !in words[i]
    ensures Split(JoinedByNul(words), '\0') == words
  {
    if |words| == 1 {
      assert words == [words[0]];
    } else {
      WordsComeBack(words[1..]);
      SplitOnceAt(words[0], '\0', JoinedByNul(words[1..]));
      assert JoinedByNul(words) == words[0] + ['\0'] + JoinedByNul(words[1..]);
      assert words == [words[0]] + words[1..];
    }
  }

  // The words a shell reports as a vector are submitted as they are.
  lemma ArgvExactly(k: Commands, p: Pane, token: string, words: seq<string>)
    requires Coherent(p) && OwnsCurrent(p, token) && words != [] && forall i :: 0 <= i < |words| ==> '\0' !in words[i]
    ensures Report(k, p, ARGV_VAR, token + "\n" + JoinedByNul(words)) == SubmitWords(k, p, words)
  {
    assert ValidToken(token);
    hide *;
    var line := JoinedByNul(words);
    TokenSplits(token, line);
    CommandOfOwner(k, p, token, line);
    WordsComeBack(words);
  }

  lemma CommandOfOwner(k: Commands, p: Pane, token: string, line: string)
    requires Coherent(p) && OwnsCurrent(p, token) && SplitOnce(token + "\n" + line, '\n') == Some((token, line))
    ensures Report(k, p, ARGV_VAR, token + "\n" + line) == SubmitWords(k, p, Split(line, '\0'))
  {
    hide SubmitWords;
    hide Truncate;
    hide Split;
    hide SplitOnce;
    hide Coherent;
    OwnerIsOnTop(p, token);
  }
}
