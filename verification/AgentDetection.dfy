// Recognising assistants on a terminal screen (nebula_app/src/ai_agents.rs):
// the gate trees, the choice among rules, and the memo in front of them.
module AgentRules {
  import opened Text

  // Regular expressions are known by their index; matching, splitting into lines and
  // lower-casing are library functions.
  type Regex = nat

  datatype Library = Library(isMatch: (Regex, string) -> bool, lines: string -> seq<string>, lower: string -> string)

  datatype Gate = Gate(
    contains: seq<string>, regex: seq<Regex>, lineRegex: seq<Regex>, all: seq<Gate>, any: seq<Gate>, notGate: seq<Gate>)

  predicate Substring(hay: string, needle: string) {
    exists i :: 0 <= i <= |hay| && Occurs(hay, needle, i)
  }

  predicate SomeLineMatches(l: Library, regex: Regex, text: string) {
    exists k :: 0 <= k < |l.lines(text)| && l.isMatch(regex, l.lines(text)[k])
  }

  // What a gate means: every node looks at its own lower-case copy.
  predicate Holds(l: Library, g: Gate, text: string) {
    && (forall i :: 0 <= i < |g.contains| ==> Substring(l.lower(text), g.contains[i]))
    && (forall i :: 0 <= i < |g.regex| ==> l.isMatch(g.regex[i], text))
    && (forall i :: 0 <= i < |g.lineRegex| ==> SomeLineMatches(l, g.lineRegex[i], text))
    && (forall i :: 0 <= i < |g.all| ==> Holds(l, g.all[i], text))
    && (g.any == [] || exists i :: 0 <= i < |g.any| && Holds(l, g.any[i], text))
    && !(exists i :: 0 <= i < |g.notGate| && Holds(l, g.notGate[i], text))
  }

  // The shared cell, once filled, holds the lower-case text.
  ghost predicate CellFits(l: Library, text: string, cell: Option<string>) {
    cell.Some? ==> cell.value == l.lower(text)
  }

  method ContainsAll(l: Library, needles: seq<string>, text: string, cell: Option<string>) returns (r: bool, cell': Option<string>)
    requires CellFits(l, text, cell)
    ensures CellFits(l, text, cell') && (cell.Some? ==> cell' == cell)
    ensures needles == [] ==> cell' == cell
    ensures r <==> forall i :: 0 <= i < |needles| ==> Substring(l.lower(text), needles[i])
  {
    cell' := cell;
    var i := 0;
    while i < |needles|
      invariant 0 <= i <= |needles|
      invariant CellFits(l, text, cell') && (cell.Some? ==> cell' == cell)
      invariant i == 0 ==> cell' == cell
      invariant forall k :: 0 <= k < i ==> Substring(l.lower(text), needles[k])
    {
      if cell'.None? {
        cell' := Some(l.lower(text));
      }
      if !Substring(cell'.value, needles[i]) {
        return false, cell';
      }
      i := i + 1;
    }
    r := true;
  }

  method RegexesMatch(l: Library, regexes: seq<Regex>, text: string) returns (r: bool)
    ensures r <==> forall i :: 0 <= i < |regexes| ==> l.isMatch(regexes[i], text)
  {
    var i := 0;
    while i < |regexes|
      invariant 0 <= i <= |regexes|
      invariant forall k :: 0 <= k < i ==> l.isMatch(regexes[k], text)
    {
      if !l.isMatch(regexes[i], text) {
        return false;
      }
      i := i + 1;
    }
    r := true;
  }

  method LineRegexesMatch(l: Library, regexes: seq<Regex>, text: string) returns (r: bool)
    ensures r <==> forall i :: 0 <= i < |regexes| ==> SomeLineMatches(l, regexes[i], text)
  {
    var i := 0;
    while i < |regexes|
      invariant 0 <= i <= |regexes|
      invariant forall j :: 0 <= j < i ==> SomeLineMatches(l, regexes[j], text)
    {
      if !SomeLineMatches(l, regexes[i], text) {
        return false;
      }
      i := i + 1;
    }
    r := true;
  }

  // The recursive evaluation with one lower-case copy for the whole tree.
  method MatchesWith(l: Library, g: Gate, text: string, cell: Option<string>) returns (r: bool, cell': Option<string>)
    requires CellFits(l, text, cell)
    ensures CellFits(l, text, cell') && (cell.Some? ==> cell' == cell)
    ensures r == Holds(l, g, text)
    decreases g, 1
  {
    r, cell' := ContainsAll(l, g.contains, text, cell);
    if !r {
      return;
    }
    r := RegexesMatch(l, g.regex, text);
    if !r {
      return;
    }
    r := LineRegexesMatch(l, g.lineRegex, text);
    if !r {
      return;
    }
    var found;
    found, cell' := FindGate(l, g.all, text, cell', false);
    if found {
      return false, cell';
    }
    if g.any != [] {
      found, cell' := FindGate(l, g.any, text, cell', true);
      if !found {
        return false, cell';
      }
    }
    found, cell' := FindGate(l, g.notGate, text, cell', true);
    r := !found;
  }

  // Whether some gate of the list evaluates to `wanted`, left to right.
  method FindGate(l: Library, gs: seq<Gate>, text: string, cell: Option<string>, wanted: bool) returns (r: bool, cell': Option<string>)
    requires CellFits(l, text, cell)
    ensures CellFits(l, text, cell') && (cell.Some? ==> cell' == cell)
    ensures r <==> exists i :: 0 <= i < |gs| && Holds(l, gs[i], text) == wanted
    decreases gs, 0
  {
    hide Holds;
    cell' := cell;
    var i := 0;
    while i < |gs|
      invariant 0 <= i <= |gs|
      invariant CellFits(l, text, cell') && (cell.Some? ==> cell' == cell)
      invariant forall k :: 0 <= k < i ==> Holds(l, gs[k], text) != wanted
    {
      var here;
      here, cell' := MatchesWith(l, gs[i], text, cell');
      if here == wanted {
        return true, cell';
      }
      i := i + 1;
    }
    r := false;
  }

  method Matches(l: Library, g: Gate, text: string) returns (r: bool)
    ensures r == Holds(l, g, text)
  {
    var lower;
    r, lower := MatchesWith(l, g, text, None);
  }

  // ---- what the gates mean, condition by condition ----

  // A gate without conditions holds, and every condition added to a gate has its own
  // say: a substring of the lower-case text, a match in the text, a match in one of
  // its lines, a gate that must hold and a gate that must not.
  lemma GateByConditions(l: Library, g: Gate, text: string, needle: string, regex: Regex, h: Gate)
    ensures Holds(l, Gate([], [], [], [], [], []), text)
    ensures
      Holds(l, g.(contains := g.contains + [needle]), text) <==>
      Holds(l, g, text) && exists before, after :: l.lower(text) == before + needle + after
    ensures Holds(l, g.(regex := g.regex + [regex]), text) <==> Holds(l, g, text) && l.isMatch(regex, text)
    ensures
      Holds(l, g.(lineRegex := g.lineRegex + [regex]), text) <==>
      Holds(l, g, text) && exists line :: line in l.lines(text) && l.isMatch(regex, line)
    ensures Holds(l, g.(all := g.all + [h]), text) <==> Holds(l, g, text) && Holds(l, h, text)
    ensures Holds(l, g.(notGate := g.notGate + [h]), text) <==> Holds(l, g, text) && !Holds(l, h, text)
  {
    assert Holds(l, Gate([], [], [], [], [], []), text);
    hide *;
    NeedleByCondition(l, g, text, needle);
    RegexByCondition(l, g, text, regex);
    LineByCondition(l, g, text, regex);
    AllByCondition(l, g, text, h);
    NotByCondition(l, g, text, h);
  }

  // Of the alternatives one must hold, once there are any.
  lemma GateByAlternatives(l: Library, g: Gate, text: string, h: Gate)
    ensures
      Holds(l, g.(any := g.any + [h]), text) <==>
      Holds(l, g.(any := []), text) && (Holds(l, h, text) || (g.any != [] && Holds(l, g, text)))
  {
    var grown := g.any + [h];
    assert grown[|g.any|] == h;
    assert forall i :: 0 <= i < |g.any| ==> grown[i] == g.any[i];
  }

  lemma SubstringSplits(hay: string, needle: string)
    ensures Substring(hay, needle) <==> exists before, after :: hay == before + needle + after
  {
    if Substring(hay, needle) {
      var i :| 0 <= i <= |hay| && Occurs(hay, needle, i);
      assert hay == hay[..i] + needle + hay[i + |needle|..];
    }
    if before, after :| hay == before + needle + after {
      assert Occurs(hay, needle, |before|);
    }
  }

  lemma NeedleByCondition(l: Library, g: Gate, text: string, needle: string)
    ensures
      Holds(l, g.(contains := g.contains + [needle]), text) <==>
      Holds(l, g, text) && exists before, after :: l.lower(text) == before + needle + after
  {
    var hay, grown := l.lower(text), g.contains + [needle];
    SubstringSplits(hay, needle);
    hide Substring;
    assert grown[|g.contains|] == needle;
    assert forall i :: 0 <= i < |g.contains| ==> grown[i] == g.contains[i];
  }

  lemma RegexByCondition(l: Library, g: Gate, text: string, regex: Regex)
    ensures Holds(l, g.(regex := g.regex + [regex]), text) <==> Holds(l, g, text) && l.isMatch(regex, text)
  {
    var grown := g.regex + [regex];
    assert grown[|g.regex|] == regex;
    assert forall i :: 0 <= i < |g.regex| ==> grown[i] == g.regex[i];
  }

  lemma LineByCondition(l: Library, g: Gate, text: string, regex: Regex)
    ensures
      Holds(l, g.(lineRegex := g.lineRegex + [regex]), text) <==>
      Holds(l, g, text) && exists line :: line in l.lines(text) && l.isMatch(regex, line)
  {
    var grown := g.lineRegex + [regex];
    assert grown[|g.lineRegex|] == regex;
    assert forall i :: 0 <= i < |g.lineRegex| ==> grown[i] == g.lineRegex[i];
    assert SomeLineMatches(l, regex, text) <==> exists line :: line in l.lines(text) && l.isMatch(regex, line);
    hide SomeLineMatches;
  }

  lemma AllByCondition(l: Library, g: Gate, text: string, h: Gate)
    ensures Holds(l, g.(all := g.all + [h]), text) <==> Holds(l, g, text) && Holds(l, h, text)
  {
    var grown := g.all + [h];
    assert grown[|g.all|] == h;
    assert forall i :: 0 <= i < |g.all| ==> grown[i] == g.all[i];
  }

  lemma NotByCondition(l: Library, g: Gate, text: string, h: Gate)
    ensures Holds(l, g.(notGate := g.notGate + [h]), text) <==> Holds(l, g, text) && !Holds(l, h, text)
  {
    var grown := g.notGate + [h];
    assert grown[|g.notGate|] == h;
    assert forall i :: 0 <= i < |g.notGate| ==> grown[i] == g.notGate[i];
  }

  // ---- choosing a rule ----

  datatype State = Blocked | OtherState(name: string)
  datatype Rule = Rule(id: string, state: State, priority: int, region: string)
  datatype Manifest = Manifest(rules: seq<(Rule, Gate)>, identity: seq<Gate>)
  type Agent = string
  datatype Detection = Detection(agent: Agent, state: State, rule: string)

  // How regions of a screen are cut out is decided elsewhere.
  datatype Screens = Screens(attention: (Agent, string) -> string, live: string -> bool, region: (string, string) -> string)

  predicate Eligible(l: Library, v: Screens, m: Manifest, agent: Agent, screen: string, i: nat)
    requires i < |m.rules|
  {
    var (rule, gate) := m.rules[i];
    var window := v.attention(agent, screen);
    && (rule.state == Blocked ==> v.live(window))
    && Holds(l, gate, v.region(if rule.state == Blocked then window else screen, rule.region))
  }

  // The first declared among the eligible rules of highest priority.
  ghost predicate Chosen(l: Library, v: Screens, m: Manifest, agent: Agent, screen: string, i: nat) {
    && i < |m.rules| && Eligible(l, v, m, agent, screen, i)
    && forall j :: 0 <= j < |m.rules| && Eligible(l, v, m, agent, screen, j) ==>
         m.rules[j].0.priority < m.rules[i].0.priority || (m.rules[j].0.priority == m.rules[i].0.priority && i <= j)
  }

  lemma ChoiceIsUnique(l: Library, v: Screens, m: Manifest, agent: Agent, screen: string, i: nat, j: nat)
    requires Chosen(l, v, m, agent, screen, i) && Chosen(l, v, m, agent, screen, j)
    ensures i == j
  {
  }

  ghost function ChosenIndex(l: Library, v: Screens, m: Manifest, agent: Agent, screen: string): (i: nat)
    requires exists i: nat :: Chosen(l, v, m, agent, screen, i)
    ensures Chosen(l, v, m, agent, screen, i)
  {
    var i: nat :| Chosen(l, v, m, agent, screen, i);
    i
  }

  // The detection a screen deserves: that of the chosen rule, if any rule is eligible.
  ghost function DetectResult(l: Library, v: Screens, manifests: map<Agent, Manifest>, agent: Agent, screen: string): Option<Detection> {
    if agent in manifests && exists i: nat :: Chosen(l, v, manifests[agent], agent, screen, i) then
      var rule := manifests[agent].rules[ChosenIndex(l, v, manifests[agent], agent, screen)].0;
      Some(Detection(agent, rule.state, rule.id))
    else None
  }

  lemma ResultOfChoice(l: Library, v: Screens, manifests: map<Agent, Manifest>, agent: Agent, screen: string, i: nat)
    requires agent in manifests && Chosen(l, v, manifests[agent], agent, screen, i)
    ensures
      var rule := manifests[agent].rules[i].0;
      DetectResult(l, v, manifests, agent, screen) == Some(Detection(agent, rule.state, rule.id))
  {
    hide Eligible;
    ChoiceIsUnique(l, v, manifests[agent], agent, screen, i, ChosenIndex(l, v, manifests[agent], agent, screen));
  }

  // ---- a manifest is the sum of its rules ----

  function Alone(m: Manifest, i: nat): Manifest
    requires i < |m.rules|
  {
    Manifest([m.rules[i]], [])
  }

  // A rule on its own detects its own state: a rule for a blocked assistant where the
  // attention window is live and its region of that window passes the gate, any other
  // rule where its region of the whole screen does.
  lemma RuleAlone(l: Library, v: Screens, rule: Rule, gate: Gate, agent: Agent, screen: string)
    ensures
      var window := v.attention(agent, screen);
      DetectResult(l, v, map[agent := Manifest([(rule, gate)], [])], agent, screen) ==
      match rule.state
      case Blocked =>
        if v.live(window) && Holds(l, gate, v.region(window, rule.region)) then Some(Detection(agent, Blocked, rule.id)) else None
      case OtherState(_) =>
        if Holds(l, gate, v.region(screen, rule.region)) then Some(Detection(agent, rule.state, rule.id)) else None
  {
    hide Holds;
    var m := Manifest([(rule, gate)], []);
    if Eligible(l, v, m, agent, screen, 0) {
      assert Chosen(l, v, m, agent, screen, 0);
      ResultOfChoice(l, v, map[agent := m], agent, screen, 0);
    }
  }

  // Whether a rule detects something on its own.
  ghost predicate Detects(l: Library, v: Screens, m: Manifest, agent: Agent, screen: string, i: nat) {
    i < |m.rules| && DetectResult(l, v, map[agent := Alone(m, i)], agent, screen).Some?
  }

  lemma DetectsIsEligible(l: Library, v: Screens, m: Manifest, agent: Agent, screen: string, i: nat)
    requires i < |m.rules|
    ensures Detects(l, v, m, agent, screen, i) <==> Eligible(l, v, m, agent, screen, i)
    ensures
      Detects(l, v, m, agent, screen, i) ==>
        DetectResult(l, v, map[agent := Alone(m, i)], agent, screen) == Some(Detection(agent, m.rules[i].0.state, m.rules[i].0.id))
  {
    hide Holds;
    RuleAlone(l, v, m.rules[i].0, m.rules[i].1, agent, screen);
    assert Alone(m, i) == Manifest([(m.rules[i].0, m.rules[i].1)], []);
  }

  // A manifest detects what one of its rules detects alone, and no rule of higher
  // priority, nor an earlier one of the same priority, detects anything; without a
  // manifest for the agent, or with no rule that detects anything, there is nothing.
  lemma DetectedExactly(l: Library, v: Screens, manifests: map<Agent, Manifest>, agent: Agent, screen: string, d: Detection)
    ensures DetectResult(l, v, manifests, agent, screen) == Some(d) <==>
            && agent in manifests
            && exists i: nat ::
                 var m := manifests[agent];
                 && Detects(l, v, m, agent, screen, i)
                 && d == Detection(agent, m.rules[i].0.state, m.rules[i].0.id)
                 && forall j: nat :: Detects(l, v, m, agent, screen, j) ==>
                      m.rules[j].0.priority < m.rules[i].0.priority || (m.rules[j].0.priority == m.rules[i].0.priority && i <= j)
  {
    hide Holds;
    hide Eligible;
    if agent in manifests {
      var m := manifests[agent];
      forall i: nat | i < |m.rules| ensures Detects(l, v, m, agent, screen, i) <==> Eligible(l, v, m, agent, screen, i) {
        DetectsIsEligible(l, v, m, agent, screen, i);
      }
      if DetectResult(l, v, manifests, agent, screen) == Some(d) {
        var i := ChosenIndex(l, v, m, agent, screen);
        assert Detects(l, v, m, agent, screen, i);
      }
      if i: nat :|
        && Detects(l, v, m, agent, screen, i)
        && d == Detection(agent, m.rules[i].0.state, m.rules[i].0.id)
        && forall j: nat :: Detects(l, v, m, agent, screen, j) ==>
             m.rules[j].0.priority < m.rules[i].0.priority || (m.rules[j].0.priority == m.rules[i].0.priority && i <= j)
      {
        assert Chosen(l, v, m, agent, screen, i);
        ResultOfChoice(l, v, manifests, agent, screen, i);
      }
    }
  }

  method DetectFromManifests(l: Library, v: Screens, manifests: map<Agent, Manifest>, agent: Agent, screen: string)
    returns (r: Option<Detection>)
    ensures r == DetectResult(l, v, manifests, agent, screen)
    ensures r.Some? <==> agent in manifests && exists i :: 0 <= i < |manifests[agent].rules| && Eligible(l, v, manifests[agent], agent, screen, i)
  {
    if agent !in manifests {
      return None;
    }
    var m := manifests[agent];
    var window := v.attention(agent, screen);
    var live := v.live(window);
    var best: Option<nat> := None;
    var i := 0;
    while i < |m.rules|
      invariant 0 <= i <= |m.rules|
      invariant best.None? ==> forall j :: 0 <= j < i ==> !Eligible(l, v, m, agent, screen, j)
      invariant best.Some? ==>
        && best.value < i && Eligible(l, v, m, agent, screen, best.value)
        && forall j :: 0 <= j < i && Eligible(l, v, m, agent, screen, j) ==>
             m.rules[j].0.priority < m.rules[best.value].0.priority
             || (m.rules[j].0.priority == m.rules[best.value].0.priority && best.value <= j)
    {
      var (rule, gate) := m.rules[i];
      var blocked := rule.state == Blocked;
      if !(blocked && !live) {
        var matched := Matches(l, gate, v.region(if blocked then window else screen, rule.region));
        assert matched == Eligible(l, v, m, agent, screen, i);
        if matched && (best.None? || rule.priority > m.rules[best.value].0.priority) {
          best := Some(i);
        }
      }
      i := i + 1;
    }
    if best.None? {
      return None;
    }
    ResultOfChoice(l, v, manifests, agent, screen, best.value);
    var rule := m.rules[best.value].0;
    r := Some(Detection(agent, rule.state, rule.id));
  }

  // ---- identity ----

  ghost predicate Claims(l: Library, m: Manifest, screen: string) {
    exists i :: 0 <= i < |m.identity| && Holds(l, m.identity[i], screen)
  }

  ghost function Claimants(l: Library, manifests: map<Agent, Manifest>, screen: string): set<Agent> {
    set a | a in manifests && Claims(l, manifests[a], screen)
  }

  ghost function IdentifyResult(l: Library, manifests: map<Agent, Manifest>, screen: string): Option<Agent> {
    if exists a :: Claimants(l, manifests, screen) == {a} then
      var a :| Claimants(l, manifests, screen) == {a};
      Some(a)
    else None
  }

  // Any order a hash map may be walked in.
  ghost predicate Enumerates(order: seq<Agent>, manifests: map<Agent, Manifest>) {
    && (forall a :: a in order <==> a in manifests)
    && forall i, j :: 0 <= i < j < |order| ==> order[i] != order[j]
  }

  // The one agent whose identity the screen shows, or none, in every walking order.
  method IdentifyFromManifests(l: Library, manifests: map<Agent, Manifest>, order: seq<Agent>, screen: string)
    returns (r: Option<Agent>)
    requires Enumerates(order, manifests)
    ensures r == IdentifyResult(l, manifests, screen)
    ensures forall a :: r == Some(a) <==> Claimants(l, manifests, screen) == {a}
  {
    hide Holds;
    var found: Option<Agent> := None;
    var i := 0;
    while i < |order|
      invariant 0 <= i <= |order|
      invariant found.None? ==> forall k :: 0 <= k < i ==> !Claims(l, manifests[order[k]], screen)
      invariant found.Some? ==>
        && found.value in order[..i] && Claims(l, manifests[found.value], screen)
        && forall k :: 0 <= k < i && Claims(l, manifests[order[k]], screen) ==> order[k] == found.value
    {
      var agent := order[i];
      var hit, _ := FindGate(l, manifests[agent].identity, screen, None, true);
      assert hit == Claims(l, manifests[agent], screen);
      if hit {
        if found.Some? {
          TwoClaimants(l, manifests, screen, found.value, agent);
          return None;
        }
        found := Some(agent);
      }
      assert order[..i + 1] == order[..i] + [agent];
      i := i + 1;
    }
    ClaimantsFound(l, manifests, order, screen, found);
    r := found;
    assert r.Some? ==> Claimants(l, manifests, screen) == {r.value};
  }

  lemma TwoClaimants(l: Library, manifests: map<Agent, Manifest>, screen: string, a: Agent, b: Agent)
    requires a in manifests && b in manifests && a != b && Claims(l, manifests[a], screen) && Claims(l, manifests[b], screen)
    ensures forall c :: Claimants(l, manifests, screen) != {c}
  {
    hide Claims;
    assert a in Claimants(l, manifests, screen) && b in Claimants(l, manifests, screen);
  }

  lemma ClaimantsFound(l: Library, manifests: map<Agent, Manifest>, order: seq<Agent>, screen: string, found: Option<Agent>)
    requires Enumerates(order, manifests)
    requires found.None? ==> forall k :: 0 <= k < |order| ==> !Claims(l, manifests[order[k]], screen)
    requires found.Some? ==>
      && found.value in order && Claims(l, manifests[found.value], screen)
      && forall k :: 0 <= k < |order| && Claims(l, manifests[order[k]], screen) ==> order[k] == found.value
    ensures forall a :: found == Some(a) <==> Claimants(l, manifests, screen) == {a}
  {
    hide Claims;
    var claimants := Claimants(l, manifests, screen);
    if found.None? {
      assert claimants == {} by {
        forall a | a in manifests ensures a !in claimants { var k :| 0 <= k < |order| && order[k] == a; }
      }
    } else {
      assert claimants == {found.value} by {
        forall a | a in claimants ensures a == found.value { var k :| 0 <= k < |order| && order[k] == a; }
      }
    }
  }
}

// The generation-stamped memo in front of a detection kernel. Lookups from several
// threads hold the manifest lock for reading from lookup to publication; a reload of
// the manifests takes it for writing. Both memos of the program, for detection keyed
// by program and screen and for identity keyed by screen, are instances.
module AgentMemo {
  import opened Text
  import opened AgentRules

  const MEMO_SLOTS: nat := 8

  // ---- the table, as it is updated ----

  datatype Memo<K, R> = Memo(generation: nat, table: map<K, R>)

  function Looked<K, R>(m: Memo<K, R>, generation: nat): Memo<K, R> {
    if m.generation != generation then Memo(generation, map[]) else m
  }

  function Hit<K, R>(m: Memo<K, R>, generation: nat, key: K): Option<R> {
    if m.generation == generation && key in m.table then Some(m.table[key]) else None
  }

  function Published<K, R>(m: Memo<K, R>, key: K, result: R): Memo<K, R> {
    m.(table := (if |m.table| >= MEMO_SLOTS then map[] else m.table)[key := result])
  }

  class MemoTable<K(==), R> {
    var generation: nat
    var table: map<K, R>

    function View(): Memo<K, R>
      reads this
    {
      Memo(generation, table)
    }

    constructor ()
      ensures View() == Memo(0, map[])
    {
      generation, table := 0, map[];
    }

    method Lookup(current: nat, key: K) returns (hit: Option<R>)
      modifies this
      ensures View() == Looked(old(View()), current)
      ensures hit == Hit(old(View()), current, key)
    {
      if generation != current {
        generation := current;
        table := map[];
        hit := None;
      } else if key in table {
        hit := Some(table[key]);
      } else {
        hit := None;
      }
    }

    method Publish(key: K, result: R)
      modifies this
      ensures View() == Published(old(View()), key, result)
    {
      if |table| >= MEMO_SLOTS {
        table := map[];
      }
      table := table[key := result];
    }
  }

  // ---- all threads together ----

  type Thread = nat

  datatype Phase<K, R> =
    | Reading(key: K)                                  // holds the read lock, before its lookup
    | Missed(key: K)                                   // holds the read lock, computing
    | Returned(key: K, generation: nat, result: R)     // released the lock

  datatype System<M, K, R> = System(
    manifests: M, generation: nat, nextGeneration: nat, memo: Memo<K, R>, threads: map<Thread, Phase<K, R>>,
    past: map<nat, M>)   // the manifests of every generation so far

  datatype Action<M, K> = Enter(thread: Thread, key: K) | Look(thread: Thread) | Publish(thread: Thread) | Leave(thread: Thread) | Reload(manifests: M)

  predicate HoldsLock<K, R>(p: Phase<K, R>) { p.Reading? || p.Missed? }

  ghost predicate Possible<M, K, R>(s: System<M, K, R>, a: Action<M, K>) {
    match a
    case Enter(t, _) => t !in s.threads
    case Look(t) => t in s.threads && s.threads[t].Reading?
    case Publish(t) => t in s.threads && s.threads[t].Missed?
    case Leave(t) => t in s.threads && s.threads[t].Returned?
    case Reload(_) => forall t :: t in s.threads ==> !HoldsLock(s.threads[t])
  }

  ghost function Do<M, K, R>(kernel: (M, K) -> R, s: System<M, K, R>, a: Action<M, K>): System<M, K, R>
    requires Possible(s, a)
  {
    match a
    case Enter(t, key) => s.(threads := s.threads[t := Reading(key)])
    case Look(t) =>
      var key := s.threads[t].key;
      var hit := Hit(s.memo, s.generation, key);
      s.(memo := Looked(s.memo, s.generation),
         threads := s.threads[t := if hit.Some? then Returned(key, s.generation, hit.value) else Missed(key)])
    case Publish(t) =>
      var key := s.threads[t].key;
      var result := kernel(s.manifests, key);
      s.(memo := Published(s.memo, key, result), threads := s.threads[t := Returned(key, s.generation, result)])
    case Leave(t) => s.(threads := s.threads - {t})
    case Reload(m) =>
      s.(manifests := m, generation := s.nextGeneration, nextGeneration := s.nextGeneration + 1, past := s.past[s.nextGeneration := m])
  }

  ghost predicate IsRun<M, K, R>(kernel: (M, K) -> R, s: System<M, K, R>, actions: seq<Action<M, K>>)
    decreases |actions|
  {
    actions != [] ==> Possible(s, actions[0]) && IsRun(kernel, Do(kernel, s, actions[0]), actions[1..])
  }

  ghost function After<M, K, R>(kernel: (M, K) -> R, s: System<M, K, R>, actions: seq<Action<M, K>>): System<M, K, R>
    requires IsRun(kernel, s, actions)
    decreases |actions|
  {
    if actions == [] then s else After(kernel, Do(kernel, s, actions[0]), actions[1..])
  }

  function Initial<M, K, R>(manifests: M): System<M, K, R> {
    System(manifests, 0, 1, Memo(0, map[]), map[], map[0 := manifests])
  }

  // ---- the invariant ----

  // Every stored entry is the uncached result for the manifests of its generation.
  ghost predicate TableIsTrue<M, K, R>(kernel: (M, K) -> R, s: System<M, K, R>) {
    && s.memo.generation in s.past
    && |s.memo.table| <= 8
    && forall key :: key in s.memo.table ==> s.memo.table[key] == kernel(s.past[s.memo.generation], key)
  }

  // A computing thread publishes under the generation it computes for, and what a
  // thread returned is the uncached result for the generation it saw.
  ghost predicate ThreadIsTrue<M, K, R>(kernel: (M, K) -> R, s: System<M, K, R>, t: Thread)
    requires t in s.threads
  {
    match s.threads[t]
    case Reading(_) => true
    case Missed(_) => s.memo.generation == s.generation
    case Returned(key, g, result) => g in s.past && result == kernel(s.past[g], key)
  }

  ghost predicate Invariant<M, K, R>(kernel: (M, K) -> R, s: System<M, K, R>) {
    && s.generation in s.past && s.past[s.generation] == s.manifests
    && (forall g :: g in s.past ==> g < s.nextGeneration)
    && TableIsTrue(kernel, s)
    && forall t :: t in s.threads ==> ThreadIsTrue(kernel, s, t)
  }

  lemma StepKeeps<M, K, R>(kernel: (M, K) -> R, s: System<M, K, R>, a: Action<M, K>)
    requires Invariant(kernel, s) && Possible(s, a)
    ensures Invariant(kernel, Do(kernel, s, a))
  {
    var u := Do(kernel, s, a);
    match a
    case Enter(t, key) =>
      forall r | r in u.threads ensures ThreadIsTrue(kernel, u, r) { if r != t { assert ThreadIsTrue(kernel, s, r); } }
    case Look(t) =>
      forall r | r in u.threads ensures ThreadIsTrue(kernel, u, r) { if r != t { assert ThreadIsTrue(kernel, s, r); } }
    case Publish(t) => PublishKeeps(kernel, s, t);
    case Leave(t) =>
      forall r | r in u.threads ensures ThreadIsTrue(kernel, u, r) { assert ThreadIsTrue(kernel, s, r); }
    case Reload(m) =>
      forall r | r in u.threads ensures ThreadIsTrue(kernel, u, r) { assert ThreadIsTrue(kernel, s, r); }
  }

  lemma PublishKeeps<M, K, R>(kernel: (M, K) -> R, s: System<M, K, R>, t: Thread)
    requires Invariant(kernel, s) && Possible(s, Publish(t))
    ensures Invariant(kernel, Do(kernel, s, Publish(t)))
  {
    var u := Do(kernel, s, Publish(t));
    assert ThreadIsTrue(kernel, s, t);
    InsertSize(if |s.memo.table| >= MEMO_SLOTS then map[] else s.memo.table, s.threads[t].key, kernel(s.manifests, s.threads[t].key));
    forall r | r in u.threads ensures ThreadIsTrue(kernel, u, r) { if r != t { assert ThreadIsTrue(kernel, s, r); } }
  }

  lemma InsertSize<K, R>(m: map<K, R>, key: K, value: R)
    ensures |m[key := value]| <= |m| + 1
  {
    assert m[key := value].Keys == m.Keys + {key};
  }

  // In every interleaving of lookups, publications and reloads the memo holds at most
  // eight entries, each the uncached result of its generation, and every call returns
  // what the uncached kernel returns for the manifests it read.
  lemma {:induction false} MemoRefinesKernel<M, K, R>(kernel: (M, K) -> R, s: System<M, K, R>, actions: seq<Action<M, K>>)
    requires Invariant(kernel, s) && IsRun(kernel, s, actions)
    ensures Invariant(kernel, After(kernel, s, actions))
    decreases |actions|
  {
    hide Invariant;
    hide Do;
    hide Possible;
    if actions != [] {
      StepKeeps(kernel, s, actions[0]);
      MemoRefinesKernel(kernel, Do(kernel, s, actions[0]), actions[1..]);
    }
  }

  // ... stated for runs from program start.
  lemma CallsEqualKernel<M, K, R>(kernel: (M, K) -> R, manifests: M, actions: seq<Action<M, K>>)
    requires IsRun(kernel, Initial<M, K, R>(manifests), actions)
    ensures
      var s := After(kernel, Initial<M, K, R>(manifests), actions);
      && TableIsTrue(kernel, s)
      && forall t :: t in s.threads && s.threads[t].Returned? ==>
           s.threads[t].generation in s.past && s.threads[t].result == kernel(s.past[s.threads[t].generation], s.threads[t].key)
  {
    hide IsRun;
    hide After;
    MemoRefinesKernel(kernel, Initial<M, K, R>(manifests), actions);
    var s := After(kernel, Initial<M, K, R>(manifests), actions);
    forall t | t in s.threads && s.threads[t].Returned?
      ensures s.threads[t].generation in s.past && s.threads[t].result == kernel(s.past[s.threads[t].generation], s.threads[t].key)
    {
      assert ThreadIsTrue(kernel, s, t);
    }
  }

  // The two memos of the program. A program name that is no agent never gets this far.
  ghost function DetectKernel(l: Library, v: Screens, parse: string -> Option<Agent>): (map<Agent, Manifest>, (string, string)) -> Option<Detection> {
    (manifests: map<Agent, Manifest>, key: (string, string)) => match parse(key.0)
                        case None => None
                        case Some(agent) => DetectResult(l, v, manifests, agent, key.1)
  }

  ghost function IdentifyKernel(l: Library): (map<Agent, Manifest>, string) -> Option<Agent> {
    (manifests, screen) => IdentifyResult(l, manifests, screen)
  }

  lemma DetectAndIdentifyEqualTheirKernels(
    l: Library, v: Screens, parse: string -> Option<Agent>, manifests: map<Agent, Manifest>,
    detects: seq<Action<map<Agent, Manifest>, (string, string)>>, identifies: seq<Action<map<Agent, Manifest>, string>>)
    requires IsRun(DetectKernel(l, v, parse), Initial(manifests), detects)
    requires IsRun(IdentifyKernel(l), Initial(manifests), identifies)
    ensures
      var s := After(DetectKernel(l, v, parse), Initial(manifests), detects);
      forall t :: t in s.threads && s.threads[t].Returned? && parse(s.threads[t].key.0).Some? ==>
        && s.threads[t].generation in s.past
        && s.threads[t].result == DetectResult(l, v, s.past[s.threads[t].generation], parse(s.threads[t].key.0).value, s.threads[t].key.1)
    ensures
      var s := After(IdentifyKernel(l), Initial(manifests), identifies);
      forall t :: t in s.threads && s.threads[t].Returned? ==>
        && s.threads[t].generation in s.past
        && s.threads[t].result == IdentifyResult(l, s.past[s.threads[t].generation], s.threads[t].key)
  {
    hide IsRun;
    hide After;
    CallsEqualKernel(DetectKernel(l, v, parse), manifests, detects);
    CallsEqualKernel(IdentifyKernel(l), manifests, identifies);
  }

  // What a lookup returns belongs to the manifests in force when it returned.
  lemma ReturnsAreCurrent<M, K, R>(kernel: (M, K) -> R, s: System<M, K, R>, a: Action<M, K>)
    requires Invariant(kernel, s) && Possible(s, a) && (a.Look? || a.Publish?)
    ensures
      var p := Do(kernel, s, a).threads[a.thread];
      p.Returned? ==> p.generation == s.generation && p.result == kernel(s.manifests, s.threads[a.thread].key)
  {
  }

  // ---- the memo is worth having ----

  function Publications<M, K>(actions: seq<Action<M, K>>): nat {
    if actions == [] then 0 else (if actions[0].Publish? then 1 else 0) + Publications(actions[1..])
  }

  ghost predicate Remembers<M, K, R>(s: System<M, K, R>, key: K) {
    s.memo.generation == s.generation && key in s.memo.table
  }

  lemma StepRemembers<M, K, R>(kernel: (M, K) -> R, s: System<M, K, R>, a: Action<M, K>, key: K)
    requires Possible(s, a) && !a.Reload?
    ensures Remembers(s, key) && (a.Publish? ==> |s.memo.table| < 8) ==>
              Remembers(Do(kernel, s, a), key) && |Do(kernel, s, a).memo.table| <= |s.memo.table| + (if a.Publish? then 1 else 0)
    ensures Invariant(kernel, s) && a.Publish? ==> Remembers(Do(kernel, s, a), s.threads[a.thread].key)
  {
    if a.Publish? {
      InsertSize(s.memo.table, s.threads[a.thread].key, kernel(s.manifests, s.threads[a.thread].key));
      if Invariant(kernel, s) { assert ThreadIsTrue(kernel, s, a.thread); }
    }
  }

  // A result stays in the memo until the manifests are reloaded or eight are held and
  // another one is published; until then every lookup of its key returns at once.
  lemma {:induction false} MemoRemembers<M, K, R>(kernel: (M, K) -> R, s: System<M, K, R>, actions: seq<Action<M, K>>, key: K)
    requires Invariant(kernel, s) && IsRun(kernel, s, actions) && Remembers(s, key)
    requires (forall i :: 0 <= i < |actions| ==> !actions[i].Reload?) && |s.memo.table| + Publications(actions) <= 8
    ensures Remembers(After(kernel, s, actions), key)
    ensures
      var t := After(kernel, s, actions);
      forall thread :: Possible(t, Look(thread)) && t.threads[thread].key == key ==>
        Do(kernel, t, Look(thread)).threads[thread] == Returned(key, t.generation, kernel(t.manifests, key))
    decreases |actions|
  {
    hide Do;
    hide Possible;
    hide Invariant;
    if actions == [] {
      LookupHits(kernel, s, key);
    } else {
      StepKeeps(kernel, s, actions[0]);
      StepRemembers(kernel, s, actions[0], key);
      MemoRemembers(kernel, Do(kernel, s, actions[0]), actions[1..], key);
    }
  }

  lemma LookupHits<M, K, R>(kernel: (M, K) -> R, s: System<M, K, R>, key: K)
    requires Invariant(kernel, s) && Remembers(s, key)
    ensures forall thread :: Possible(s, Look(thread)) && s.threads[thread].key == key ==>
              Do(kernel, s, Look(thread)).threads[thread] == Returned(key, s.generation, kernel(s.manifests, key))
  {
  }

  // What a thread has just published is remembered.
  lemma PublishedIsRemembered<M, K, R>(kernel: (M, K) -> R, s: System<M, K, R>, thread: Thread)
    requires Invariant(kernel, s) && Possible(s, Publish(thread))
    ensures Remembers(Do(kernel, s, Publish(thread)), s.threads[thread].key)
  {
    StepRemembers(kernel, s, Publish(thread), s.threads[thread].key);
  }
}
