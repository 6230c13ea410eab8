// The literal word scanner of nebula-completions/src/command_context.rs.
//
// `Words` is the meaning of a command line: a recursive reading that knows
// nothing about loops, lookahead iterators or early exits. `ScanWords` is the
// scanner as the program runs it, proved to compute that meaning.
module ShellScanner {
  import opened Text

  datatype ShellSyntax = Posix | PowerShell | Cmd | Literal

  // A dialect together with the platform's notion of "alphanumeric".
  datatype Shell = Shell(syntax: ShellSyntax, alphanumeric: char -> bool)

  // Spans are character positions, `start` inclusive and `end` exclusive.
  datatype Word = Word(value: string, start: nat, end: nat, quote: Option<char>, closed: bool, home: bool)

  const MAX_WORDS := 64

  predicate Blank(c: char) { c == ' ' || c == '\t' }

  predicate Quotes(syntax: ShellSyntax, c: char) {
    || (c == '"' && syntax != Literal)
    || (c == '\'' && (syntax == Posix || syntax == PowerShell))
  }

  predicate ValidQuote(syntax: ShellSyntax, quote: Option<char>) {
    quote.Some? ==> Quotes(syntax, quote.value)
  }

  predicate Escapes(syntax: ShellSyntax, quote: Option<char>, c: char) {
    match syntax
    case Posix => c == '\\' && quote != Some('\'')
    case PowerShell => c == '`' && quote != Some('\'')
    case _ => false
  }

  predicate Escapable(syntax: ShellSyntax, c: char) {
    !IsControl(c) && !(syntax == PowerShell && IsAsciiAlphanumeric(c))
  }

  // What an escape stands for; POSIX keeps the backslash inside double quotes
  // unless it precedes one of the four special characters.
  function Unescaped(syntax: ShellSyntax, quote: Option<char>, escape: char, c: char): string {
    if syntax == Posix && quote == Some('"') && !(c == '$' || c == '`' || c == '"' || c == '\\')
    then [escape, c] else [c]
  }

  predicate PathPunctuation(c: char) {
    c == '/' || c == '.' || c == '_' || c == '-' || c == ':' || c == '='
  }

  predicate Operator(c: char) {
    || c == ';' || c == '|' || c == '&' || c == '<' || c == '>' || c == '(' || c == ')' || c == '{' || c == '}'
    || c == '[' || c == ']' || c == '*' || c == '?' || c == '#' || c == '\'' || c == '"'
  }

  predicate Expands(sh: Shell, quote: Option<char>, c: char) {
    match sh.syntax
    case Cmd => c == '%' || c == '!' || c == '^'
    case Posix => quote != Some('\'') && (c == '$' || c == '`')
    case PowerShell => quote != Some('\'') && (c == '$' || c == '`')
    case Literal => !sh.alphanumeric(c) && !PathPunctuation(c)
  }

  // Characters that stand for themselves.
  predicate Plain(sh: Shell, quote: Option<char>, c: char) {
    !IsControl(c) && !Expands(sh, quote, c) && (quote.None? ==> !Operator(c))
  }

  // One move of the scanner inside a word.
  datatype Move = Refuse | Halt | Take(text: string, width: nat, quote: Option<char>)

  function Step(sh: Shell, s: string, quote: Option<char>): (m: Move)
    requires s != []
    ensures m.Take? ==> 1 <= m.width <= |s|
    ensures m.Halt? <==> quote.None? && Blank(s[0])
    ensures m.Take? && ValidQuote(sh.syntax, quote) ==> ValidQuote(sh.syntax, m.quote)
  {
    var c := s[0];
    if quote == Some(c) then
      if sh.syntax == PowerShell && |s| > 1 && s[1] == c then Take([c], 2, quote) else Take("", 1, None)
    else if quote.None? && Blank(c) then Halt
    else if quote.None? && Quotes(sh.syntax, c) then Take("", 1, Some(c))
    else if Escapes(sh.syntax, quote, c) then
      if |s| > 1 && Escapable(sh.syntax, s[1]) then Take(Unescaped(sh.syntax, quote, c, s[1]), 2, quote) else Refuse
    else if Plain(sh, quote, c) then Take([c], 1, quote)
    else Refuse
  }

  // The rest of a word: its value, how far it reaches and whether its quotes close.
  datatype Scan = Reject | Stop(value: string, length: nat, closed: bool)

  function Prefixed(value: string, length: nat, rest: Scan): Scan {
    match rest
    case Reject => Reject
    case Stop(v, n, closed) => Stop(value + v, length + n, closed)
  }

  function Body(sh: Shell, s: string, quote: Option<char>): (r: Scan)
    ensures r.Stop? ==> r.length <= |s|
    ensures r.Stop? && s != [] && (quote.Some? || !Blank(s[0])) ==> r.length >= 1
    ensures r.Stop? && r.length < |s| ==> r.closed && Blank(s[r.length])
    decreases |s|
  {
    if s == [] then Stop("", 0, quote.None?)
    else
      match Step(sh, s, quote)
      case Refuse => Reject
      case Halt => Stop("", 0, true)
      case Take(text, width, quote') => Prefixed(text, width, Body(sh, s[width..], quote'))
  }

  function Opening(sh: Shell, c: char): Option<char> {
    if Quotes(sh.syntax, c) then Some(c) else None
  }

  predicate MarksHome(sh: Shell, c: char) {
    c == '~' && (sh.syntax == Posix || sh.syntax == PowerShell)
  }

  function Joined(before: seq<Word>, after: Option<seq<Word>>): Option<seq<Word>> {
    match after
    case None => None
    case Some(ws) => Some(before + ws)
  }

  // The words of a line whose first character sits at position `base`.
  function Lex(sh: Shell, s: string, base: nat): Option<seq<Word>>
    decreases |s|
  {
    if s == [] then Some([])
    else if Blank(s[0]) then Lex(sh, s[1..], base + 1)
    else
      match Body(sh, s, None)
      case Reject => None
      case Stop(value, n, closed) =>
        Joined([Word(value, base, base + n, Opening(sh, s[0]), closed, MarksHome(sh, s[0]))],
               Lex(sh, s[n..], base + n))
  }

  // A blank at the end of the line starts an empty word, unless a quote is open.
  function Trailing(line: string, ws: seq<Word>): seq<Word> {
    if line != [] && Blank(line[|line| - 1]) && (ws == [] || ws[|ws| - 1].closed)
    then [Word("", |line|, |line|, None, true, false)] else []
  }

  function Words(sh: Shell, line: string): Option<seq<Word>> {
    match Lex(sh, line, 0)
    case None => None
    case Some(ws) => if |ws| > MAX_WORDS then None else Some(ws + Trailing(line, ws))
  }

  // ---- the running scanner ----

  lemma PrefixedTwice(a: string, n: nat, b: string, m: nat, r: Scan)
    ensures Prefixed(a, n, Prefixed(b, m, r)) == Prefixed(a + b, n + m, r)
  {
    match r
    case Reject =>
    case Stop(v, k, closed) => assert a + (b + v) == (a + b) + v;
  }

  lemma JoinedTwice(a: seq<Word>, b: seq<Word>, c: Option<seq<Word>>)
    ensures Joined(a, Joined(b, c)) == Joined(a + b, c)
  {
    match c
    case None =>
    case Some(ws) => assert a + (b + ws) == (a + b) + ws;
  }

  lemma JoinedUnits(a: seq<Word>, c: Option<seq<Word>>)
    ensures Joined([], c) == c
    ensures Joined(a, Some([])) == Some(a)
  {
    assert a + [] == a;
    if c.Some? { assert [] + c.value == c.value; }
  }

  // One move from position `at`, seen from the start of the word.
  lemma BodyMoves(sh: Shell, line: string, start: nat, at: nat, value: string, quote: Option<char>)
    requires start <= at < |line|
    requires Body(sh, line[start..], None) == Prefixed(value, at - start, Body(sh, line[at..], quote))
    ensures
      match Step(sh, line[at..], quote)
      case Refuse => Body(sh, line[start..], None) == Reject
      case Halt => Body(sh, line[start..], None) == Stop(value, at - start, true)
      case Take(text, width, quote') =>
        Body(sh, line[start..], None) ==
        Prefixed(value + text, at + width - start, Body(sh, line[at + width..], quote'))
  {
    hide Step;
    match Step(sh, line[at..], quote)
    case Refuse =>
    case Halt => assert value + "" == value;
    case Take(text, width, quote') =>
      assert line[at..][width..] == line[at + width..];
      PrefixedTwice(value, at - start, text, width, Body(sh, line[at + width..], quote'));
  }

  lemma BodyStarts(sh: Shell, line: string, start: nat)
    requires start < |line| && !Blank(line[start])
    ensures
      var quote := if Quotes(sh.syntax, line[start]) then Some(line[start]) else None;
      var at := if quote.Some? then start + 1 else start;
      Body(sh, line[start..], None) == Prefixed("", at - start, Body(sh, line[at..], quote))
  {
    assert line[start..][1..] == line[start + 1..];
  }

  lemma BodyEnds(sh: Shell, line: string, start: nat, value: string, quote: Option<char>)
    requires start <= |line|
    requires Body(sh, line[start..], None) == Prefixed(value, |line| - start, Body(sh, line[|line|..], quote))
    ensures Body(sh, line[start..], None) == Stop(value, |line| - start, quote.None?)
  {
    assert line[|line|..] == [];
    assert value + "" == value;
  }

  // The inner loop: one word from its first character, and where scanning resumes.
  method ScanWord(line: string, sh: Shell, start: nat) returns (r: Scan, next: nat)
    requires start < |line| && !Blank(line[start])
    ensures r == Body(sh, line[start..], None)
    ensures r.Stop? ==> next == Resume(line, start + r.length) <= |line|
  {
    hide Body;
    var quote := if Quotes(sh.syntax, line[start]) then Some(line[start]) else None;
    var value, closed := "", quote.None?;
    var at := if quote.Some? then start + 1 else start;
    BodyStarts(sh, line, start);
    while at < |line|
      invariant start <= at <= |line|
      invariant closed == quote.None?
      invariant Body(sh, line[start..], None) == Prefixed(value, at - start, Body(sh, line[at..], quote))
    {
      BodyMoves(sh, line, start, at, value, quote);
      var move := Step(sh, line[at..], quote);
      match move
      case Refuse => return Reject, |line|;
      case Halt => return Stop(value, at - start, closed), at + 1;
      case Take(text, width, quote') =>
        value, at, quote, closed := value + text, at + width, quote', quote'.None?;
    }
    BodyEnds(sh, line, start, value, quote);
    r, next := Stop(value, |line| - start, closed), |line|;
  }

  // Scanning resumes behind the blank that ended a word.
  function Resume(line: string, end: nat): nat {
    if end < |line| then end + 1 else |line|
  }

  function FoundWord(sh: Shell, line: string, start: nat, scan: Scan): Word
    requires start < |line| && scan.Stop?
  {
    Word(scan.value, start, start + scan.length, Opening(sh, line[start]), scan.closed, MarksHome(sh, line[start]))
  }

  lemma LexAtWord(sh: Shell, line: string, start: nat, scan: Scan)
    requires start < |line| && !Blank(line[start]) && scan == Body(sh, line[start..], None)
    ensures scan.Reject? ==> Lex(sh, line[start..], start).None?
    ensures scan.Stop? ==> start + scan.length <= |line|
    ensures scan.Stop? ==>
              Lex(sh, line[start..], start) ==
              Joined([FoundWord(sh, line, start, scan)], Lex(sh, line[start + scan.length..], start + scan.length))
  {
    hide Body;
    if scan.Stop? { assert line[start..][scan.length..] == line[start + scan.length..]; }
  }

  lemma LexEmpty(sh: Shell, base: nat)
    ensures Lex(sh, [], base) == Some([])
  {
  }

  lemma LexSkipsBlank(sh: Shell, line: string, at: nat)
    requires at < |line| && Blank(line[at])
    ensures Lex(sh, line[at..], at) == Lex(sh, line[at + 1..], at + 1)
  {
    assert line[at..][1..] == line[at + 1..];
  }

  method ScanWords(line: string, sh: Shell) returns (r: Option<seq<Word>>)
    ensures r == Words(sh, line)
  {
    hide Body;
    hide Lex;
    var result: seq<Word> := [];
    var i := 0;
    assert line[0..] == line;
    JoinedUnits([], Lex(sh, line, 0));
    while i < |line|
      invariant 0 <= i <= |line| && |result| <= MAX_WORDS
      invariant Lex(sh, line, 0) == Joined(result, Lex(sh, line[i..], i))
    {
      var start := i;
      if Blank(line[start]) {
        LexSkipsBlank(sh, line, start);
        i := start + 1;
        continue;
      }
      var scan;
      scan, i := ScanWord(line, sh, start);
      LexAtWord(sh, line, start, scan);
      if scan.Reject? {
        return None;
      }
      if !scan.closed && i < |line| {
        return None;
      }
      var word, end := FoundWord(sh, line, start, scan), start + scan.length;
      if end < |line| { LexSkipsBlank(sh, line, end); }
      JoinedTwice(result, [word], Lex(sh, line[end..], end));
      result := result + [word];
      if |result| > MAX_WORDS {
        return None;
      }
    }
    assert line[i..] == [] && Lex(sh, [], i) == Some([]) by { LexEmpty(sh, i); }
    JoinedUnits(result, None);
    r := Some(result + Trailing(line, result));
  }
}
