// Which shell a pane is talking to (nebula_app/src/completion_context.rs): typed
// SSH and WSL connections push a frame, prompt reports name it, and a report from
// an enclosing shell pops everything above it.
module ShellNesting {
  import opened Text

  // A typed connection is known by its parent's scope and its words. The program
  // hashes the two; the model keeps them, so scopes are collision-free.
  datatype Scope = LocalScope | WslScope(name: Name) | SshScope(name: Name)
  datatype Name = Plain(text: string) | Typed(parent: Scope, words: seq<string>)

  datatype Env = Local | Wsl(distro: string) | Ssh(destination: string) | Nested(scope: Scope)

  function ScopeOf(env: Env): Scope {
    match env
    case Local => LocalScope
    case Wsl(distro) => WslScope(Plain(if distro == "" then "<default>" else distro))
    case Ssh(destination) => SshScope(Plain(destination))
    case Nested(scope) => scope
  }

  datatype Frame = Frame(token: Option<string>, env: Env, cwd: string)

  datatype Pane = Pane(
    frames: seq<Frame>, env: Env, cwd: string, pendingHistory: Option<(Scope, string)>,
    pendingRemoteDir: Option<string>, lineBuffer: string, lastCommitted: string,
    history: seq<(Scope, string, string)>)

  // What command lines mean is decided elsewhere: how a line splits into words,
  // which words open a connection, and what trimming removes.
  datatype Link = NoLink | SshLink | WslLink
  datatype Commands = Commands(split: string -> Option<seq<string>>, opens: seq<string> -> Link, trim: string -> string)

  const SHELL_VAR := "pebrel_shell"
  const COMMAND_VAR := "pebrel_command"
  const ARGV_VAR := "pebrel_connection"
  const INPUT_VAR := "pebrel_input"

  // ---- the transitions ----

  function Switch(p: Pane, env: Env, cwd: string): Pane {
    p.(env := env, cwd := cwd, pendingRemoteDir := None, lineBuffer := "")
  }

  function ChildEnv(k: Commands, parent: Env, words: seq<string>): Option<Env> {
    match k.opens(words)
    case NoLink => None
    case SshLink => Some(Nested(SshScope(Typed(ScopeOf(parent), words))))
    case WslLink => Some(Nested(WslScope(Typed(ScopeOf(parent), words))))
  }

  // The submitting shell's frame, remembering where it stood.
  function Parked(frames: seq<Frame>, env: Env, cwd: string): seq<Frame> {
    if frames == [] then [Frame(None, env, cwd)]
    else frames[|frames| - 1 := frames[|frames| - 1].(cwd := cwd)]
  }

  function SubmitWords(k: Commands, p: Pane, words: seq<string>): Pane {
    match ChildEnv(k, p.env, words)
    case None => p
    case Some(child) =>
      Switch(p.(frames := Parked(p.frames, p.env, p.cwd) + [Frame(None, child, "")]), child, "")
  }

  function Submit(k: Commands, p: Pane, line: string): Pane {
    match k.split(line)
    case None => p
    case Some(words) => SubmitWords(k, p, words)
  }

  function FindToken(frames: seq<Frame>, token: string): (r: Option<nat>)
    ensures r.Some? ==> r.value < |frames| && frames[r.value].token == Some(token)
    ensures r.Some? ==> forall i :: 0 <= i < r.value ==> frames[i].token != Some(token)
    ensures r.None? ==> forall i :: 0 <= i < |frames| ==> frames[i].token != Some(token)
  {
    if frames == [] then None
    else if frames[0].token == Some(token) then Some(0)
    else
      match FindToken(frames[1..], token)
      case None => None
      case Some(i) => Some(i + 1)
  }

  predicate ValidToken(token: string) {
    token != "" && Utf8Length(token) <= 256 && !HasControl(token)
  }

  // An unnamed default WSL distribution takes the name its shell reports.
  function Reported(env: Env, token: string): Env {
    if env == Wsl("") && "wsl|" <= token then
      match SplitOnce(token[4..], '|')
      case Some((name, _)) => if name != "" then Wsl(name) else env
      case None => env
    else env
  }

  function Truncate(p: Pane, index: nat): Pane
    requires index < |p.frames|
  {
    var frame := p.frames[index];
    var q := p.(frames := p.frames[..index + 1]);
    if frame.env != p.env then Switch(q, frame.env, frame.cwd) else q
  }

  function Introduce(p: Pane, token: string): Pane {
    var env := Reported(p.env, token);
    var n := |p.frames|;
    var frames := if n > 0 && p.frames[n - 1].token.None?
                  then p.frames[n - 1 := p.frames[n - 1].(token := Some(token), env := env)]
                  else p.frames + [Frame(Some(token), env, p.cwd)];
    var q := p.(frames := frames);
    if env != p.env then Switch(q, env, p.cwd) else q
  }

  predicate OwnsCurrent(p: Pane, token: string) {
    p.frames != [] && p.frames[|p.frames| - 1].token == Some(token)
  }

  function Prompt(p: Pane, token: string): Pane {
    var q := if !ValidToken(token) then p
             else match FindToken(p.frames, token)
                  case Some(i) => Truncate(p, i)
                  case None => Introduce(p, token);
    if OwnsCurrent(q, token) then q.(pendingHistory := None) else q
  }

  function Split(s: string, separator: char): seq<string>
    decreases |s|
  {
    match SplitOnce(s, separator)
    case None => [s]
    case Some((head, tail)) => [head] + Split(tail, separator)
  }

  // A command report: the named shell is on top again before its command counts.
  function Command(k: Commands, p: Pane, argv: bool, token: string, line: string): Pane {
    match FindToken(p.frames, token)
    case None => p
    case Some(i) =>
      if argv then SubmitWords(k, Truncate(p, i), Split(line, '\0')) else Submit(k, Truncate(p, i), line)
  }

  // An accepted input line counts once, under the scope of the shell that read it.
  function Input(k: Commands, p: Pane, token: string, line: string): Pane {
    if Utf8Length(line) > 4096 || HasControl(line) then p
    else
      match FindToken(p.frames, token)
      case None => p
      case Some(i) =>
        var frame := p.frames[i];
        var scope := ScopeOf(frame.env);
        var known := p.pendingHistory == Some((scope, k.trim(line)));
        p.(pendingHistory := None, lastCommitted := k.trim(line),
           history := if known then p.history
                      else p.history + [(scope, line, if frame.env == p.env then p.cwd else frame.cwd)])
  }

  function Report(k: Commands, p: Pane, name: string, value: string): Pane {
    if name == SHELL_VAR then Prompt(p, value)
    else if name == COMMAND_VAR || name == ARGV_VAR || name == INPUT_VAR then
      match SplitOnce(value, '\n')
      case None => p
      case Some((token, line)) =>
        if name == INPUT_VAR then Input(k, p, token, line) else Command(k, p, name == ARGV_VAR, token, line)
    else p
  }

  // ---- the pane, as it is updated ----

  class PaneState {
    const commands: Commands
    var frames: seq<Frame>
    var env: Env
    var cwd: string
    var pendingHistory: Option<(Scope, string)>
    var pendingRemoteDir: Option<string>
    var lineBuffer: string
    var lastCommitted: string
    var history: seq<(Scope, string, string)>

    function View(): Pane
      reads this
    {
      Pane(frames, env, cwd, pendingHistory, pendingRemoteDir, lineBuffer, lastCommitted, history)
    }

    constructor (commands: Commands, env: Env, cwd: string)
      ensures this.commands == commands
      ensures View() == Pane([], env, cwd, None, None, "", "", [])
    {
      this.commands, this.env, this.cwd := commands, env, cwd;
      frames, pendingHistory, pendingRemoteDir := [], None, None;
      lineBuffer, lastCommitted, history := "", "", [];
    }

    method SwitchEnvironment(env: Env, cwd: string)
      modifies this
      ensures View() == Switch(old(View()), env, cwd)
    {
      this.env := env;
      this.cwd := cwd;
      pendingRemoteDir := None;
      lineBuffer := "";
    }

    method SubmitArgv(words: seq<string>)
      modifies this
      ensures View() == SubmitWords(commands, old(View()), words)
    {
      var child := ChildEnv(commands, env, words);
      if child.Some? {
        if frames == [] {
          frames := frames + [Frame(None, env, cwd)];
        } else {
          frames := frames[|frames| - 1 := frames[|frames| - 1].(cwd := cwd)];
        }
        frames := frames + [Frame(None, child.value, "")];
        SwitchEnvironment(child.value, "");
      }
    }

    method CompletionSubmitted(line: string)
      modifies this
      ensures View() == Submit(commands, old(View()), line)
    {
      var words := commands.split(line);
      if words.Some? {
        SubmitArgv(words.value);
      }
    }

    method PromptReport(token: string)
      modifies this
      ensures View() == Prompt(old(View()), token)
    {
      if ValidToken(token) {
        var index := FindToken(frames, token);
        if index.Some? {
          var frame := frames[index.value];
          frames := frames[..index.value + 1];
          if frame.env != env {
            SwitchEnvironment(frame.env, frame.cwd);
          }
        } else {
          var reported := Reported(env, token);
          var last := |frames| - 1;
          if last >= 0 && frames[last].token.None? {
            frames := frames[last := frames[last].(token := Some(token), env := reported)];
          } else {
            frames := frames + [Frame(Some(token), reported, cwd)];
          }
          if reported != env {
            SwitchEnvironment(reported, cwd);
          }
        }
      }
      if OwnsCurrent(View(), token) {
        pendingHistory := None;
      }
    }

    method CommandReport(argv: bool, token: string, line: string)
      modifies this
      ensures View() == Command(commands, old(View()), argv, token, line)
    {
      var index := FindToken(frames, token);
      if index.None? {
        return;
      }
      var frame := frames[index.value];
      frames := frames[..index.value + 1];
      if frame.env != env {
        SwitchEnvironment(frame.env, frame.cwd);
      }
      if argv {
        SubmitArgv(Split(line, '\0'));
      } else {
        CompletionSubmitted(line);
      }
    }

    method InputReport(token: string, line: string)
      modifies this
      ensures View() == Input(commands, old(View()), token, line)
    {
      if Utf8Length(line) > 4096 || HasControl(line) {
        return;
      }
      var index := FindToken(frames, token);
      if index.None? {
        return;
      }
      var frame := frames[index.value];
      var at := if frame.env == env then cwd else frame.cwd;
      var scope := ScopeOf(frame.env);
      var recorded := pendingHistory == Some((scope, commands.trim(line)));
      pendingHistory := None;
      if !recorded {
        history := history + [(scope, line, at)];
      }
      lastCommitted := commands.trim(line);
    }

    method ShellReport(name: string, value: string)
      modifies this
      ensures View() == Report(commands, old(View()), name, value)
    {
      if name == SHELL_VAR {
        PromptReport(value);
      } else if name == COMMAND_VAR || name == ARGV_VAR || name == INPUT_VAR {
        var parts := SplitOnce(value, '\n');
        if parts.Some? {
          if name == INPUT_VAR {
            InputReport(parts.value.0, parts.value.1);
          } else {
            CommandReport(name == ARGV_VAR, parts.value.0, parts.value.1);
          }
        }
      }
    }
  }

  // ---- whole runs ----

  datatype Event = Submitted(line: string) | Reporting(name: string, value: string) | Moved(cwd: string) | Recorded(line: string)

  function Step(k: Commands, p: Pane, e: Event): Pane {
    match e
    case Submitted(line) => Submit(k, p, line)
    case Reporting(name, value) => Report(k, p, name, value)
    case Moved(cwd) => p.(cwd := cwd)
    case Recorded(line) =>
      p.(history := p.history + [(ScopeOf(p.env), line, p.cwd)], pendingHistory := Some((ScopeOf(p.env), k.trim(line))))
  }

  function Run(k: Commands, p: Pane, events: seq<Event>): Pane
    decreases |events|
  {
    if events == [] then p else Run(k, Step(k, p, events[0]), events[1..])
  }

  // Tokens are valid and pairwise distinct, and the top frame is where the pane is.
  ghost predicate Coherent(p: Pane) {
    && (forall i, j :: 0 <= i < j < |p.frames| && p.frames[i].token.Some? ==> p.frames[i].token != p.frames[j].token)
    && (forall i :: 0 <= i < |p.frames| && p.frames[i].token.Some? ==> ValidToken(p.frames[i].token.value))
    && (p.frames != [] ==> p.frames[|p.frames| - 1].env == p.env)
  }

  lemma SubmitStaysCoherent(k: Commands, p: Pane, words: seq<string>)
    requires Coherent(p)
    ensures Coherent(SubmitWords(k, p, words))
  {
    hide ValidToken;
    var q := SubmitWords(k, p, words);
    if q != p {
      forall i | 0 <= i < |p.frames| ensures q.frames[i].token == p.frames[i].token {}
    }
  }

  lemma TruncateStaysCoherent(p: Pane, i: nat)
    requires Coherent(p) && i < |p.frames|
    ensures Coherent(Truncate(p, i))
  {
    hide ValidToken;
  }

  lemma IntroduceStaysCoherent(p: Pane, token: string)
    requires Coherent(p) && ValidToken(token) && FindToken(p.frames, token).None?
    ensures Coherent(Introduce(p, token))
  {
    hide ValidToken;
    hide Reported;
  }

  lemma StepStaysCoherent(k: Commands, p: Pane, e: Event)
    requires Coherent(p)
    ensures Coherent(Step(k, p, e))
  {
    hide Coherent;
    match e
    case Submitted(line) =>
      if k.split(line).Some? { SubmitStaysCoherent(k, p, k.split(line).value); }
    case Reporting(name, value) => ReportStaysCoherent(k, p, name, value);
    case Moved(cwd) => SameFramesStayCoherent(p, Step(k, p, e));
    case Recorded(line) => SameFramesStayCoherent(p, Step(k, p, e));
  }

  lemma SameFramesStayCoherent(p: Pane, q: Pane)
    requires Coherent(p) && q.frames == p.frames && q.env == p.env
    ensures Coherent(q)
  {
    hide ValidToken;
  }

  lemma CommandStaysCoherent(k: Commands, p: Pane, argv: bool, token: string, line: string)
    requires Coherent(p)
    ensures Coherent(Command(k, p, argv, token, line))
  {
    hide Coherent;
    hide Truncate;
    var at := FindToken(p.frames, token);
    if at.Some? {
      TruncateStaysCoherent(p, at.value);
      var q := Truncate(p, at.value);
      if argv { SubmitStaysCoherent(k, q, Split(line, '\0')); }
      else if k.split(line).Some? { SubmitStaysCoherent(k, q, k.split(line).value); }
    }
  }

  lemma PromptStaysCoherent(p: Pane, token: string)
    requires Coherent(p)
    ensures Coherent(Prompt(p, token))
  {
    hide Coherent;
    hide Truncate;
    hide Introduce;
    var at := FindToken(p.frames, token);
    var q := if !ValidToken(token) then p else if at.Some? then Truncate(p, at.value) else Introduce(p, token);
    if ValidToken(token) {
      if at.Some? { TruncateStaysCoherent(p, at.value); } else { IntroduceStaysCoherent(p, token); }
    }
    SameFramesStayCoherent(q, Prompt(p, token));
  }

  lemma ReportStaysCoherent(k: Commands, p: Pane, name: string, value: string)
    requires Coherent(p)
    ensures Coherent(Report(k, p, name, value))
  {
    hide Coherent;
    hide Prompt;
    hide Command;
    if name == SHELL_VAR {
      PromptStaysCoherent(p, value);
    } else if SplitOnce(value, '\n').Some? {
      var (token, line) := SplitOnce(value, '\n').value;
      if name == INPUT_VAR {
        SameFramesStayCoherent(p, Input(k, p, token, line));
      } else {
        CommandStaysCoherent(k, p, name == ARGV_VAR, token, line);
      }
    }
  }

  // In every reachable state tokens are distinct and the top frame is the pane's environment.
  lemma {:induction false} RunsStayCoherent(k: Commands, p: Pane, events: seq<Event>)
    requires Coherent(p)
    ensures Coherent(Run(k, p, events))
    decreases |events|
  {
    if events != [] {
      StepStaysCoherent(k, p, events[0]);
      RunsStayCoherent(k, Step(k, p, events[0]), events[1..]);
    }
  }

  // ---- nested restoration ----

  function Depth(s: Scope): nat {
    match s
    case LocalScope => 0
    case WslScope(Plain(_)) => 0
    case SshScope(Plain(_)) => 0
    case WslScope(Typed(parent, _)) => 1 + Depth(parent)
    case SshScope(Typed(parent, _)) => 1 + Depth(parent)
  }

  function EnvDepth(env: Env): nat { Depth(ScopeOf(env)) }

  // The frames of `base` are untouched, and everything on top of them is reached
  // through more connections than `depth`.
  ghost predicate Above(p: Pane, base: seq<Frame>, depth: nat) {
    && Coherent(p)
    && |p.frames| > |base| && p.frames[..|base|] == base
    && forall i :: |base| <= i < |p.frames| ==> EnvDepth(p.frames[i].env) > depth
  }

  // The event does not speak for a shell of `base`.
  ghost predicate Foreign(e: Event, base: seq<Frame>) {
    match e
    case Reporting(name, value) =>
      if name == SHELL_VAR then forall i :: 0 <= i < |base| ==> base[i].token != Some(value)
      else if name == COMMAND_VAR || name == ARGV_VAR then
        SplitOnce(value, '\n').Some? ==> forall i :: 0 <= i < |base| ==> base[i].token != Some(SplitOnce(value, '\n').value.0)
      else true
    case _ => true
  }

  lemma SubmitStaysAbove(k: Commands, p: Pane, words: seq<string>, base: seq<Frame>, depth: nat)
    requires Above(p, base, depth)
    ensures Above(SubmitWords(k, p, words), base, depth)
  {
    hide ValidToken;
    SubmitStaysCoherent(k, p, words);
    var q := SubmitWords(k, p, words);
    if q != p {
      assert forall i :: 0 <= i < |base| ==> q.frames[i] == p.frames[i];
    }
  }

  lemma TruncateStaysAbove(p: Pane, i: nat, base: seq<Frame>, depth: nat)
    requires Above(p, base, depth) && |base| <= i < |p.frames|
    ensures Above(Truncate(p, i), base, depth)
  {
    hide ValidToken;
    TruncateStaysCoherent(p, i);
    assert p.frames[..i + 1][..|base|] == p.frames[..|base|];
  }

  lemma IntroduceStaysAbove(p: Pane, token: string, base: seq<Frame>, depth: nat)
    requires Above(p, base, depth) && ValidToken(token) && FindToken(p.frames, token).None?
    ensures Above(Introduce(p, token), base, depth)
  {
    hide ValidToken;
    IntroduceStaysCoherent(p, token);
    ReportedDepth(p.env, token);
    hide Reported;
    var q := Introduce(p, token);
    assert forall i :: 0 <= i < |base| ==> q.frames[i] == p.frames[i];
  }

  lemma ReportedDepth(env: Env, token: string)
    ensures EnvDepth(Reported(env, token)) == EnvDepth(env)
  {
  }

  lemma SameFramesStayAbove(p: Pane, q: Pane, base: seq<Frame>, depth: nat)
    requires Above(p, base, depth) && q.frames == p.frames && q.env == p.env
    ensures Above(q, base, depth)
  {
    hide ValidToken;
  }

  lemma FoundAbove(p: Pane, token: string, base: seq<Frame>, depth: nat)
    requires Above(p, base, depth) && forall i :: 0 <= i < |base| ==> base[i].token != Some(token)
    ensures FindToken(p.frames, token).Some? ==> FindToken(p.frames, token).value >= |base|
  {
    hide Coherent;
    var at := FindToken(p.frames, token);
    assert forall i :: 0 <= i < |base| ==> p.frames[i] == base[i];
  }

  lemma StepStaysAbove(k: Commands, p: Pane, e: Event, base: seq<Frame>, depth: nat)
    requires Above(p, base, depth) && Foreign(e, base)
    ensures Above(Step(k, p, e), base, depth)
  {
    hide Above;
    match e
    case Submitted(line) =>
      if k.split(line).Some? { SubmitStaysAbove(k, p, k.split(line).value, base, depth); }
    case Reporting(name, value) => ReportStaysAbove(k, p, name, value, base, depth);
    case Moved(cwd) => SameFramesStayAbove(p, Step(k, p, e), base, depth);
    case Recorded(line) => SameFramesStayAbove(p, Step(k, p, e), base, depth);
  }

  lemma CommandStaysAbove(k: Commands, p: Pane, argv: bool, token: string, line: string, base: seq<Frame>, depth: nat)
    requires Above(p, base, depth) && forall i :: 0 <= i < |base| ==> base[i].token != Some(token)
    ensures Above(Command(k, p, argv, token, line), base, depth)
  {
    hide Above;
    hide Truncate;
    FoundAbove(p, token, base, depth);
    var at := FindToken(p.frames, token);
    if at.Some? {
      TruncateStaysAbove(p, at.value, base, depth);
      var q := Truncate(p, at.value);
      if argv { SubmitStaysAbove(k, q, Split(line, '\0'), base, depth); }
      else if k.split(line).Some? { SubmitStaysAbove(k, q, k.split(line).value, base, depth); }
    }
  }

  lemma PromptStaysAbove(p: Pane, token: string, base: seq<Frame>, depth: nat)
    requires Above(p, base, depth) && forall i :: 0 <= i < |base| ==> base[i].token != Some(token)
    ensures Above(Prompt(p, token), base, depth)
  {
    hide Above;
    hide Truncate;
    hide Introduce;
    FoundAbove(p, token, base, depth);
    var at := FindToken(p.frames, token);
    var q := if !ValidToken(token) then p else if at.Some? then Truncate(p, at.value) else Introduce(p, token);
    if ValidToken(token) {
      if at.Some? { TruncateStaysAbove(p, at.value, base, depth); } else { IntroduceStaysAbove(p, token, base, depth); }
    }
    SameFramesStayAbove(q, Prompt(p, token), base, depth);
  }

  lemma ReportStaysAbove(k: Commands, p: Pane, name: string, value: string, base: seq<Frame>, depth: nat)
    requires Above(p, base, depth) && Foreign(Reporting(name, value), base)
    ensures Above(Report(k, p, name, value), base, depth)
  {
    hide Above;
    hide Prompt;
    hide Command;
    if name == SHELL_VAR {
      PromptStaysAbove(p, value, base, depth);
    } else if SplitOnce(value, '\n').Some? {
      var (token, line) := SplitOnce(value, '\n').value;
      if name == INPUT_VAR {
        SameFramesStayAbove(p, Input(k, p, token, line), base, depth);
      } else if name == COMMAND_VAR || name == ARGV_VAR {
        CommandStaysAbove(k, p, name == ARGV_VAR, token, line, base, depth);
      }
    }
  }

  lemma {:induction false} RunsStayAbove(k: Commands, p: Pane, events: seq<Event>, base: seq<Frame>, depth: nat)
    requires Above(p, base, depth) && forall i :: 0 <= i < |events| ==> Foreign(events[i], base)
    ensures Above(Run(k, p, events), base, depth)
    decreases |events|
  {
    hide Above;
    if events != [] {
      StepStaysAbove(k, p, events[0], base, depth);
      RunsStayAbove(k, Step(k, p, events[0]), events[1..], base, depth);
    }
  }

  lemma ConnectingGoesAbove(k: Commands, p: Pane, words: seq<string>)
    requires Coherent(p) && p.frames != [] && ChildEnv(k, p.env, words).Some?
    ensures Above(SubmitWords(k, p, words), Parked(p.frames, p.env, p.cwd), EnvDepth(p.env))
  {
    hide ValidToken;
    SubmitStaysCoherent(k, p, words);
    var q, base := SubmitWords(k, p, words), Parked(p.frames, p.env, p.cwd);
    assert q.frames[..|base|] == base;
  }

  // The owner of the last frame of `base` finds exactly that frame again.
  lemma ReturnRestores(p: Pane, base: seq<Frame>, token: string)
    requires base != [] && base[|base| - 1].token == Some(token)
    requires Above(p, base, EnvDepth(base[|base| - 1].env))
    ensures FindToken(p.frames, token) == Some(|base| - 1) && ValidToken(token)
    ensures
      var owner := base[|base| - 1];
      var q := Truncate(p, |base| - 1);
      q.frames == base && q.env == owner.env && q.cwd == owner.cwd
  {
    hide ValidToken;
    var n := |base| - 1;
    assert p.frames[n] == p.frames[..|base|][n];
    var at := FindToken(p.frames, token);
    assert at.Some? && at.value == n;
    assert EnvDepth(p.env) > EnvDepth(base[n].env);
  }

  // A shell that submits a connection and later shows its prompt again gets back its
  // environment, its directory and the frames around it, after any run of events
  // that do not speak for it or for a shell enclosing it.
  lemma NestedRestoration(k: Commands, p: Pane, token: string, words: seq<string>, events: seq<Event>)
    requires Coherent(p) && OwnsCurrent(p, token) && ChildEnv(k, p.env, words).Some?
    requires forall i :: 0 <= i < |events| ==> Foreign(events[i], p.frames)
    ensures
      var back := Report(k, Run(k, SubmitWords(k, p, words), events), SHELL_VAR, token);
      && back.env == p.env && back.cwd == p.cwd
      && back.frames == Parked(p.frames, p.env, p.cwd)
      && back.frames[..|p.frames| - 1] == p.frames[..|p.frames| - 1]
      && OwnsCurrent(back, token) && back.pendingHistory.None?
  {
    hide Above;
    hide Run;
    hide Report;
    hide SubmitWords;
    hide Coherent;
    var base := Parked(p.frames, p.env, p.cwd);
    TopIsPane(p);
    ConnectingGoesAbove(k, p, words);
    forall i | 0 <= i < |events| ensures Foreign(events[i], base) { ForeignToParked(events[i], p.frames, p.env, p.cwd); }
    var away := Run(k, SubmitWords(k, p, words), events);
    RunsStayAbove(k, SubmitWords(k, p, words), events, base, EnvDepth(p.env));
    PromptReturns(k, away, base, token);
  }

  lemma PromptReturns(k: Commands, p: Pane, base: seq<Frame>, token: string)
    requires base != [] && base[|base| - 1].token == Some(token)
    requires Above(p, base, EnvDepth(base[|base| - 1].env))
    ensures
      var back := Report(k, p, SHELL_VAR, token);
      && back.frames == base && back.env == base[|base| - 1].env && back.cwd == base[|base| - 1].cwd
      && back.pendingHistory.None?
  {
    hide Above;
    hide Truncate;
    hide Introduce;
    ReturnRestores(p, base, token);
  }

  lemma TopIsPane(p: Pane)
    requires Coherent(p) && p.frames != []
    ensures p.frames[|p.frames| - 1].env == p.env
  {
  }

  lemma ForeignToParked(e: Event, frames: seq<Frame>, env: Env, cwd: string)
    requires frames != [] && Foreign(e, frames)
    ensures Foreign(e, Parked(frames, env, cwd))
  {
    forall i | 0 <= i < |frames| ensures Parked(frames, env, cwd)[i].token == frames[i].token {}
  }

  // ---- report reconciliation ----

  function SubmitAll(k: Commands, p: Pane, lines: seq<string>): Pane
    decreases |lines|
  {
    if lines == [] then p else SubmitAll(k, Submit(k, p, lines[0]), lines[1..])
  }

  lemma {:induction false} ProvisionalEnters(k: Commands, p: Pane, lines: seq<string>)
    requires Coherent(p) && p.frames != []
    ensures SubmitAll(k, p, lines) == p || Above(SubmitAll(k, p, lines), Parked(p.frames, p.env, p.cwd), EnvDepth(p.env))
    decreases |lines|
  {
    hide Above;
    hide Coherent;
    hide SubmitWords;
    if lines != [] {
      var words := k.split(lines[0]);
      if words.Some? && ChildEnv(k, p.env, words.value).Some? {
        ConnectingGoesAbove(k, p, words.value);
        SubmitAllStaysAbove(k, SubmitWords(k, p, words.value), lines[1..], Parked(p.frames, p.env, p.cwd), EnvDepth(p.env));
      } else {
        assert Submit(k, p, lines[0]) == p by { NoConnection(k, p, lines[0]); }
        ProvisionalEnters(k, p, lines[1..]);
      }
    }
  }

  lemma NoConnection(k: Commands, p: Pane, line: string)
    requires k.split(line).None? || ChildEnv(k, p.env, k.split(line).value).None?
    ensures Submit(k, p, line) == p
  {
  }

  lemma {:induction false} SubmitAllStaysAbove(k: Commands, p: Pane, lines: seq<string>, base: seq<Frame>, depth: nat)
    requires Above(p, base, depth)
    ensures Above(SubmitAll(k, p, lines), base, depth)
    decreases |lines|
  {
    hide Above;
    if lines != [] {
      StepStaysAbove(k, p, Submitted(lines[0]), base, depth);
      SubmitAllStaysAbove(k, Submit(k, p, lines[0]), lines[1..], base, depth);
    }
  }

  // Frames that agree except for the directory parked in the owner's frame.
  ghost predicate SameUpToParking(a: seq<Frame>, b: seq<Frame>, n: nat) {
    |a| == |b| && n < |a| && forall i :: 0 <= i < |a| ==> a[i] == b[i] || (i == n && a[i] == b[i].(cwd := a[i].cwd))
  }

  lemma SubmitFromParked(k: Commands, p: Pane, q: Pane, words: seq<string>)
    requires p.frames != [] && q.frames == Parked(p.frames, p.env, p.cwd) && q.env == p.env && q.cwd == p.cwd
    ensures
      var a, b := SubmitWords(k, q, words), SubmitWords(k, p, words);
      a.env == b.env && a.cwd == b.cwd && SameUpToParking(a.frames, b.frames, |p.frames| - 1)
  {
  }

  lemma CommandReconciles(k: Commands, p: Pane, token: string, lines: seq<string>, argv: bool, line: string)
    requires Coherent(p) && OwnsCurrent(p, token)
    ensures
      var a := Command(k, SubmitAll(k, p, lines), argv, token, line);
      var b := Command(k, p, argv, token, line);
      && a.env == b.env && a.cwd == b.cwd
      && SameUpToParking(a.frames, b.frames, |p.frames| - 1)
  {
    hide Above;
    hide SubmitAll;
    hide SubmitWords;
    hide ChildEnv;
    var n := |p.frames| - 1;
    ProvisionalEnters(k, p, lines);
    OwnerIsOnTop(p, token);
    var q := SubmitAll(k, p, lines);
    if q == p {
      assert SameUpToParking(Command(k, p, argv, token, line).frames, Command(k, p, argv, token, line).frames, n) by {
        CommandKeepsOwner(k, p, argv, token, line);
      }
    } else {
      var base := Parked(p.frames, p.env, p.cwd);
      ReturnRestores(q, base, token);
      var words := if argv then Some(Split(line, '\0')) else k.split(line);
      if words.Some? { SubmitFromParked(k, p, Truncate(q, n), words.value); }
    }
  }

  // A command report from the owning shell leads to the same environment and
  // directory whatever command lines a provisional Enter had already acted on; the
  // frames agree too, up to the directory parked in the owner's own frame.
  lemma ReportReconciles(k: Commands, p: Pane, token: string, lines: seq<string>, argv: bool, line: string)
    requires Coherent(p) && OwnsCurrent(p, token)
    ensures
      var name, value := if argv then ARGV_VAR else COMMAND_VAR, token + "\n" + line;
      var a := Report(k, SubmitAll(k, p, lines), name, value);
      var b := Report(k, p, name, value);
      && a.env == b.env && a.cwd == b.cwd
      && SameUpToParking(a.frames, b.frames, |p.frames| - 1)
  {
    hide Command;
    hide SubmitAll;
    assert ValidToken(token);
    assert forall i :: 0 <= i < |token| ==> !IsControl(token[i]);
    SplitOnceAt(token, '\n', line);
    assert token + "\n" + line == token + ['\n'] + line;
    CommandReconciles(k, p, token, lines, argv, line);
  }

  lemma OwnerIsOnTop(p: Pane, token: string)
    requires Coherent(p) && OwnsCurrent(p, token)
    ensures FindToken(p.frames, token) == Some(|p.frames| - 1) && p.frames[|p.frames| - 1].env == p.env
    ensures Truncate(p, |p.frames| - 1) == p
  {
    assert p.frames[..|p.frames|] == p.frames;
  }

  lemma CommandKeepsOwner(k: Commands, p: Pane, argv: bool, token: string, line: string)
    requires Coherent(p) && OwnsCurrent(p, token)
    ensures |Command(k, p, argv, token, line).frames| >= |p.frames|
  {
    OwnerIsOnTop(p, token);
  }
}
