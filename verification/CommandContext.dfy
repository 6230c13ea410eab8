// Editing a command line in place (nebula-completions/src/command_context.rs):
// `Parse` finds the word under the cursor, `Candidate` spells a value in that
// word's dialect and quoting, and the caller splices the spelling over the span.
module CommandContext {
  import opened Text
  import opened ShellScanner
  import opened ShellWordLaws
  import ShellGrammar

  const MAX_BYTES := 4096

  datatype Context = Context(
    arguments: seq<string>, homeArguments: seq<nat>, following: seq<string>, fullWord: Option<string>, target: Word)

  // ---- printing ----

  predicate Safe(sh: Shell, value: string, c: char) {
    || sh.alphanumeric(c) || PathPunctuation(c)
    || (c == '@' && sh.syntax != Literal && (sh.syntax != PowerShell || value == [] || value[0] != '@'))
    || (c == ',' && (sh.syntax == Posix || sh.syntax == Cmd))
    || (c == '\\' && (sh.syntax == PowerShell || sh.syntax == Cmd))
  }

  // PowerShell splits -Fconfig.conf into two arguments unless it is quoted.
  predicate ParameterSplit(sh: Shell, value: string) {
    sh.syntax == PowerShell && value != [] && value[0] == '-' && ('.' in value || ':' in value)
  }

  predicate SafeBare(sh: Shell, value: string) {
    !ParameterSplit(sh, value) && forall i :: 0 <= i < |value| ==> Safe(sh, value, value[i])
  }

  predicate SafeInCmdQuotes(sh: Shell, value: string) {
    sh.syntax == Cmd && forall i :: 0 <= i < |value| ==>
      sh.alphanumeric(value[i]) || PathPunctuation(value[i]) || value[i] == '\\' || value[i] == ' ' || value[i] == '@' || value[i] == ','
  }

  function Enclosed(q: char, inner: string): string { [q] + inner + [q] }

  // The text that spells `value` for a word opened by `quote`, if there is one.
  function Candidate(sh: Shell, quote: Option<char>, value: string): Option<string> {
    if value == [] || Utf8Length(value) > MAX_BYTES || HasControl(value) then None
    else if quote == Some('\'') && sh.syntax == Posix then Some(Enclosed('\'', Replace(value, '\'', "'\\''")))
    else if quote == Some('\'') && sh.syntax == PowerShell then Some(Enclosed('\'', Replace(value, '\'', "''")))
    else if quote == Some('"') && sh.syntax == Posix then
      Some(Enclosed('"', Replace(Replace(Replace(Replace(value, '\\', "\\\\"), '$', "\\$"), '`', "\\`"), '"', "\\\"")))
    else if quote == Some('"') && sh.syntax == PowerShell then
      Some(Enclosed('"', Replace(Replace(Replace(value, '`', "``"), '$', "`$"), '"', "`\"")))
    else if sh.syntax == Cmd && SafeInCmdQuotes(sh, value) && (quote.Some? || !SafeBare(sh, value)) then
      if value[|value| - 1] == '\\' then None else Some(Enclosed('"', value))
    else if quote.None? && SafeBare(sh, value) then Some(value)
    else if quote.None? && sh.syntax == Posix then Some(Enclosed('\'', Replace(value, '\'', "'\\''")))
    else if quote.None? && sh.syntax == PowerShell then Some(Enclosed('\'', Replace(value, '\'', "''")))
    else None
  }

  // ---- what a spelling means to the scanner ----

  // One character spelled inside `quote`.
  function Spell(sh: Shell, quote: Option<char>, c: char): string {
    if quote == Some('\'') && c == '\'' then (if sh.syntax == Posix then "'\\''" else "''")
    else if quote == Some('"') && sh.syntax == Posix && (c == '\\' || c == '$' || c == '`' || c == '"') then ['\\', c]
    else if quote == Some('"') && sh.syntax == PowerShell && (c == '`' || c == '$' || c == '"') then ['`', c]
    else [c]
  }

  function Spelled(sh: Shell, quote: Option<char>, value: string): string {
    if value == [] then "" else Spell(sh, quote, value[0]) + Spelled(sh, quote, value[1..])
  }

  // Characters whose spelling the scanner reads back.
  predicate Spellable(sh: Shell, quote: Option<char>, c: char) {
    && !IsControl(c)
    && match quote
       case Some('\'') => sh.syntax == Posix || sh.syntax == PowerShell
       case Some('"') => sh.syntax == Posix || sh.syntax == PowerShell || (sh.syntax == Cmd && c != '"' && Plain(sh, quote, c))
       case _ => quote.None? && !Blank(c) && !Quotes(sh.syntax, c) && !Escapes(sh.syntax, quote, c) && Plain(sh, quote, c)
  }

  lemma PosixQuoteMoves(sh: Shell, rest: string)
    requires sh.syntax == Posix
    ensures Step(sh, "'\\''" + rest, Some('\'')) == Take("", 1, None)
    ensures Step(sh, "\\''" + rest, None) == Take("'", 2, None)
    ensures Step(sh, "'" + rest, None) == Take("", 1, Some('\''))
  {
  }

  // POSIX leaves the quotes, escapes one, and opens them again.
  lemma PosixQuoteReadsBack(sh: Shell, rest: string)
    requires sh.syntax == Posix
    ensures Body(sh, "'\\''" + rest, Some('\'')) == Prefixed("'", 4, Body(sh, rest, Some('\'')))
  {
    hide Body;
    hide Step;
    PosixQuoteMoves(sh, rest);
    var s, s1, s2 := "'\\''" + rest, "\\''" + rest, "'" + rest;
    BodyAt(sh, s2, None, Take("", 1, Some('\'')), rest);
    BodyAt(sh, s1, None, Take("'", 2, None), s2);
    BodyAt(sh, s, Some('\''), Take("", 1, None), s1);
    PrefixedTwice("'", 2, "", 1, Body(sh, rest, Some('\'')));
    PrefixedTwice("", 1, "'", 3, Body(sh, rest, Some('\'')));
  }

  lemma SpellIsOneMove(sh: Shell, quote: Option<char>, c: char, rest: string)
    requires Spellable(sh, quote, c) && !(quote == Some('\'') && c == '\'' && sh.syntax == Posix)
    ensures Step(sh, Spell(sh, quote, c) + rest, quote) == Take([c], |Spell(sh, quote, c)|, quote)
  {
    var s := Spell(sh, quote, c) + rest;
    assert s[0] == Spell(sh, quote, c)[0];
    if |Spell(sh, quote, c)| == 2 { assert s[1] == c; }
  }

  lemma SpellReadsBack(sh: Shell, quote: Option<char>, c: char, rest: string)
    requires Spellable(sh, quote, c)
    ensures Body(sh, Spell(sh, quote, c) + rest, quote) == Prefixed([c], |Spell(sh, quote, c)|, Body(sh, rest, quote))
  {
    hide Body;
    hide Step;
    if quote == Some('\'') && c == '\'' && sh.syntax == Posix {
      PosixQuoteReadsBack(sh, rest);
    } else {
      var s := Spell(sh, quote, c) + rest;
      SpellIsOneMove(sh, quote, c, rest);
      BodyTakes(sh, s, quote);
      assert s[|Spell(sh, quote, c)|..] == rest;
    }
  }

  lemma {:induction false} SpelledReadsBack(sh: Shell, quote: Option<char>, value: string, rest: string)
    requires forall i :: 0 <= i < |value| ==> Spellable(sh, quote, value[i])
    ensures Body(sh, Spelled(sh, quote, value) + rest, quote) == Prefixed(value, |Spelled(sh, quote, value)|, Body(sh, rest, quote))
  {
    hide Body;
    if value == [] {
      assert Spelled(sh, quote, value) + rest == rest;
      PrefixedNothing(Body(sh, rest, quote));
    } else {
      var tail := Spelled(sh, quote, value[1..]);
      var first := Spell(sh, quote, value[0]);
      assert Spelled(sh, quote, value) + rest == first + (tail + rest);
      SpellReadsBack(sh, quote, value[0], tail + rest);
      SpelledReadsBack(sh, quote, value[1..], rest);
      PrefixedTwice([value[0]], |first|, value[1..], |tail|, Body(sh, rest, quote));
      assert [value[0]] + value[1..] == value;
    }
  }

  // ---- the printed text is a spelling ----

  lemma {:induction false} SingleReplaceSpells(sh: Shell, value: string)
    requires sh.syntax == Posix || sh.syntax == PowerShell
    ensures Replace(value, '\'', if sh.syntax == Posix then "'\\''" else "''") == Spelled(sh, Some('\''), value)
  {
    if value != [] { SingleReplaceSpells(sh, value[1..]); }
  }

  lemma {:induction false} PosixReplacesSpell(sh: Shell, value: string)
    requires sh.syntax == Posix
    ensures Replace(Replace(Replace(Replace(value, '\\', "\\\\"), '$', "\\$"), '`', "\\`"), '"', "\\\"") == Spelled(sh, Some('"'), value)
  {
    if value != [] {
      PosixReplacesSpell(sh, value[1..]);
      var c, r1 := value[0], Replace(value[1..], '\\', "\\\\");
      var h1 := if c == '\\' then "\\\\" else [c];
      ReplaceConcat(h1, r1, '$', "\\$");
      var h2, r2 := Replace(h1, '$', "\\$"), Replace(r1, '$', "\\$");
      ReplaceConcat(h2, r2, '`', "\\`");
      var h3, r3 := Replace(h2, '`', "\\`"), Replace(r2, '`', "\\`");
      ReplaceConcat(h3, r3, '"', "\\\"");
      PosixReplacesSpellOne(sh, c);
    }
  }

  lemma PosixReplacesSpellOne(sh: Shell, c: char)
    requires sh.syntax == Posix
    ensures Replace(Replace(Replace(if c == '\\' then "\\\\" else [c], '$', "\\$"), '`', "\\`"), '"', "\\\"") == Spell(sh, Some('"'), c)
  {
    if c == '\\' {
      ReplaceTwo('\\', '\\', '$', "\\$");
      ReplaceTwo('\\', '\\', '`', "\\`");
      ReplaceTwo('\\', '\\', '"', "\\\"");
    } else if c == '$' {
      ReplaceOne(c, '$', "\\$");
      ReplaceTwo('\\', '$', '`', "\\`");
      ReplaceTwo('\\', '$', '"', "\\\"");
    } else if c == '`' {
      ReplaceOne(c, '$', "\\$");
      ReplaceOne(c, '`', "\\`");
      ReplaceTwo('\\', '`', '"', "\\\"");
    } else {
      ReplaceOne(c, '$', "\\$");
      ReplaceOne(c, '`', "\\`");
      ReplaceOne(c, '"', "\\\"");
    }
  }

  lemma {:induction false} PowerShellReplacesSpell(sh: Shell, value: string)
    requires sh.syntax == PowerShell
    ensures Replace(Replace(Replace(value, '`', "``"), '$', "`$"), '"', "`\"") == Spelled(sh, Some('"'), value)
  {
    if value != [] {
      PowerShellReplacesSpell(sh, value[1..]);
      var c, r1 := value[0], Replace(value[1..], '`', "``");
      var h1 := if c == '`' then "``" else [c];
      ReplaceConcat(h1, r1, '$', "`$");
      var h2, r2 := Replace(h1, '$', "`$"), Replace(r1, '$', "`$");
      ReplaceConcat(h2, r2, '"', "`\"");
      PowerShellReplacesSpellOne(sh, c);
    }
  }

  lemma PowerShellReplacesSpellOne(sh: Shell, c: char)
    requires sh.syntax == PowerShell
    ensures Replace(Replace(if c == '`' then "``" else [c], '$', "`$"), '"', "`\"") == Spell(sh, Some('"'), c)
  {
    if c == '`' {
      ReplaceTwo('`', '`', '$', "`$");
      ReplaceTwo('`', '`', '"', "`\"");
    } else if c == '$' {
      ReplaceOne(c, '$', "`$");
      ReplaceTwo('`', '$', '"', "`\"");
    } else {
      ReplaceOne(c, '$', "`$");
      ReplaceOne(c, '"', "`\"");
    }
  }

  lemma ReplaceOne(c: char, what: char, into: string)
    ensures Replace([c], what, into) == if c == what then into else [c]
  {
    assert [c][1..] == [];
  }

  lemma ReplaceTwo(c: char, d: char, what: char, into: string)
    requires c != what && d != what
    ensures Replace([c, d], what, into) == [c, d]
  {
    assert [c, d][1..] == [d] && [d][1..] == [];
    assert Replace([d], what, into) == [d];
  }

  lemma {:induction false} PlainSpells(sh: Shell, quote: Option<char>, value: string)
    requires quote.None? || sh.syntax == Cmd
    requires forall i :: 0 <= i < |value| ==> value[i] != '\''  || quote.None?
    ensures Spelled(sh, quote, value) == value
  {
    if value != [] {
      PlainSpells(sh, quote, value[1..]);
      assert [value[0]] + value[1..] == value;
    }
  }

  // The quoting a candidate ends up with.
  function Style(sh: Shell, quote: Option<char>, value: string): Option<char> {
    if quote.Some? then quote
    else if SafeBare(sh, value) then None
    else if sh.syntax == Cmd then Some('"')
    else Some('\'')
  }

  function Framed(quote: Option<char>, inner: string): string {
    if quote.None? then inner else Enclosed(quote.value, inner)
  }

  lemma CandidateSpells(sh: Shell, quote: Option<char>, value: string)
    requires AgreesOnAscii(sh.alphanumeric) && ValidQuote(sh.syntax, quote)
    requires Candidate(sh, quote, value).Some?
    ensures value != [] && ValidQuote(sh.syntax, Style(sh, quote, value))
    ensures Candidate(sh, quote, value).value == Framed(Style(sh, quote, value), Spelled(sh, Style(sh, quote, value), value))
    ensures forall i :: 0 <= i < |value| ==> Spellable(sh, Style(sh, quote, value), value[i])
  {
    var style := Style(sh, quote, value);
    forall i | 0 <= i < |value| ensures Spellable(sh, style, value[i]) {
      CharacterSpells(sh, quote, value, i);
    }
    if style.None? || sh.syntax == Cmd {
      PlainSpells(sh, style, value);
    } else if style == Some('\'') {
      SingleReplaceSpells(sh, value);
    } else if sh.syntax == Posix {
      PosixReplacesSpell(sh, value);
    } else {
      PowerShellReplacesSpell(sh, value);
    }
  }

  lemma CharacterSpells(sh: Shell, quote: Option<char>, value: string, i: nat)
    requires AgreesOnAscii(sh.alphanumeric) && ValidQuote(sh.syntax, quote)
    requires Candidate(sh, quote, value).Some? && i < |value|
    ensures Spellable(sh, Style(sh, quote, value), value[i])
    ensures sh.syntax == Cmd ==> value[i] != '\''
  {
    assert !IsControl(value[i]);
    assert Utf8Length(value) <= MAX_BYTES;
    if quote.None? && SafeBare(sh, value) {
      assert Safe(sh, value, value[i]);
    }
  }

  // A candidate is read back as its value, wherever a word may start.
  lemma CandidateReadsBack(sh: Shell, quote: Option<char>, value: string, rest: string)
    requires AgreesOnAscii(sh.alphanumeric) && ValidQuote(sh.syntax, quote)
    requires Candidate(sh, quote, value).Some?
    ensures
      var scan := Body(sh, Candidate(sh, quote, value).value + rest, None);
      && (rest == [] || Blank(rest[0]) ==> scan == Stop(value, |Candidate(sh, quote, value).value|, true))
      && (scan.Stop? ==> scan.value != [])
  {
    hide Body;
    hide Candidate;
    hide Spelled;
    CandidateSpells(sh, quote, value);
    var style := Style(sh, quote, value);
    if rest == [] || Blank(rest[0]) { BodyStops(sh, rest); }
    if style.None? {
      SpelledReadsBack(sh, style, value, rest);
      assert value + "" == value;
    } else {
      EnclosedReadsBack(sh, style.value, value, rest);
    }
  }

  lemma EnclosedReadsBack(sh: Shell, q: char, value: string, rest: string)
    requires Quotes(sh.syntax, q) && forall i :: 0 <= i < |value| ==> Spellable(sh, Some(q), value[i])
    ensures
      var text := Enclosed(q, Spelled(sh, Some(q), value));
      && Body(sh, text + rest, None) == Prefixed(value, |text| - 1, Body(sh, [q] + rest, Some(q)))
      && (rest == [] || Blank(rest[0]) ==> Body(sh, text + rest, None) == Stop(value, |text|, true))
  {
    hide Body;
    hide Spelled;
    var inner, tail := Spelled(sh, Some(q), value), [q] + rest;
    var text := Enclosed(q, inner);
    assert text + rest == [q] + (inner + tail);
    BodyTakes(sh, text + rest, None);
    assert (text + rest)[1..] == inner + tail;
    SpelledReadsBack(sh, Some(q), value, tail);
    PrefixedTwice("", 1, value, |inner|, Body(sh, tail, Some(q)));
    assert "" + value == value;
    if rest == [] || Blank(rest[0]) {
      assert tail[1..] == rest;
      BodyTakes(sh, tail, Some(q));
      BodyStops(sh, rest);
      assert value + "" == value;
    }
  }

  lemma BodyStops(sh: Shell, rest: string)
    requires rest == [] || Blank(rest[0])
    ensures Body(sh, rest, None) == Stop("", 0, true)
  {
  }

  lemma CandidateShape(sh: Shell, quote: Option<char>, value: string)
    requires AgreesOnAscii(sh.alphanumeric) && ValidQuote(sh.syntax, quote)
    requires Candidate(sh, quote, value).Some?
    ensures
      var text := Candidate(sh, quote, value).value;
      && text != [] && !Blank(text[0]) && !Blank(text[|text| - 1])
      && Opening(sh, text[0]) == Style(sh, quote, value) && !MarksHome(sh, text[0])
  {
    CandidateSpells(sh, quote, value);
    if Style(sh, quote, value).None? {
      PlainSpells(sh, None, value);
      assert Safe(sh, value, value[0]) && Spellable(sh, None, value[0]) && Spellable(sh, None, value[|value| - 1]);
    }
  }

  // Whatever is printed is scanned as exactly one closed, literal word with that value.
  lemma QuoteRoundTrip(sh: Shell, quote: Option<char>, value: string)
    requires AgreesOnAscii(sh.alphanumeric) && ValidQuote(sh.syntax, quote)
    requires Candidate(sh, quote, value).Some?
    ensures
      var text := Candidate(sh, quote, value).value;
      Words(sh, text) == Some([Word(value, 0, |text|, Style(sh, quote, value), true, false)])
  {
    hide Body;
    hide Candidate;
    hide Lex;
    var text := Candidate(sh, quote, value).value;
    CandidateShape(sh, quote, value);
    assert text + [] == text;
    CandidateReadsBack(sh, quote, value, []);
    LexNothing(sh, text, 0);
    var ws := [Word(value, 0, |text|, Style(sh, quote, value), true, false)];
    assert ws + [] == ws;
  }

  // ---- when there is a spelling ----

  // Only letters, digits and the listed marks.
  predicate Composed(sh: Shell, value: string, marks: string) {
    forall i :: 0 <= i < |value| ==> sh.alphanumeric(value[i]) || value[i] in marks
  }

  function BareMarks(syntax: ShellSyntax): string {
    match syntax
    case Posix => "/._-:=@,"
    case PowerShell => "/._-:=@\\"
    case Cmd => "/._-:=@,\\"
    case Literal => "/._-:="
  }

  // Values that stand without quotes. PowerShell would take a leading @ as an operator
  // and cut an option at a dot or a colon.
  predicate StandsBare(sh: Shell, value: string)
    requires value != ""
  {
    && Composed(sh, value, BareMarks(sh.syntax))
    && (sh.syntax == PowerShell ==> value[0] != '@' && (value[0] == '-' ==> '.' !in value && ':' !in value))
  }

  // Values the dialect can spell at all. A trailing backslash would reach past a
  // closing quote of Cmd, so it has to stay bare.
  predicate CanBeSpelled(sh: Shell, quote: Option<char>, value: string) {
    && value != "" && Utf8Length(value) <= 4096
    && (forall i :: 0 <= i < |value| ==> ShellGrammar.Printable(value[i]))
    && match sh.syntax
       case Posix => true
       case PowerShell => true
       case Cmd => Composed(sh, value, "/._-:=@,\\ ") && (value[|value| - 1] == '\\' ==> quote.None? && ' ' !in value)
       case Literal => Composed(sh, value, "/._-:=")
  }

  lemma SafeMarks(sh: Shell, value: string, c: char)
    requires AgreesOnAscii(sh.alphanumeric) && value != ""
    ensures Safe(sh, value, c) <==>
            sh.alphanumeric(c) || (c in BareMarks(sh.syntax) && (sh.syntax == PowerShell && c == '@' ==> value[0] != '@'))
    ensures sh.alphanumeric(c) ==> c != '@' && c != '\\' && c != ' '
  {
  }

  lemma SafeBareExactly(sh: Shell, value: string)
    requires AgreesOnAscii(sh.alphanumeric) && value != ""
    ensures SafeBare(sh, value) <==> StandsBare(sh, value)
  {
    hide Safe;
    hide BareMarks;
    if SafeBare(sh, value) {
      forall i | 0 <= i < |value| ensures sh.alphanumeric(value[i]) || value[i] in BareMarks(sh.syntax) { SafeMarks(sh, value, value[i]); }
      SafeMarks(sh, value, value[0]);
    } else if StandsBare(sh, value) {
      forall i | 0 <= i < |value| ensures Safe(sh, value, value[i]) { SafeMarks(sh, value, value[i]); }
    }
  }

  lemma CmdQuotesExactly(sh: Shell, value: string)
    requires AgreesOnAscii(sh.alphanumeric) && sh.syntax == Cmd && value != ""
    ensures SafeInCmdQuotes(sh, value) <==> Composed(sh, value, "/._-:=@,\\ ")
    ensures SafeInCmdQuotes(sh, value) && ' ' !in value ==> StandsBare(sh, value)
    ensures StandsBare(sh, value) ==> ' ' !in value && SafeInCmdQuotes(sh, value)
  {
    var quotable, bare := "/._-:=@,\\ ", BareMarks(Cmd);
    forall i | 0 <= i < |value|
      ensures (value[i] in quotable) == (PathPunctuation(value[i]) || value[i] == '\\' || value[i] == ' ' || value[i] == '@' || value[i] == ',')
      ensures (value[i] in quotable) == (value[i] in bare || value[i] == ' ')
    {
    }
    if StandsBare(sh, value) {
      forall i | 0 <= i < |value| ensures value[i] != ' ' { SafeMarks(sh, value, value[i]); }
    }
  }

  // There is a spelling exactly for these values; it is the value itself exactly where
  // an unquoted word lets it stand, and otherwise enclosed in the word's own quotes.
  lemma SpelledExactly(sh: Shell, quote: Option<char>, value: string)
    requires AgreesOnAscii(sh.alphanumeric) && ValidQuote(sh.syntax, quote)
    ensures Candidate(sh, quote, value).Some? <==> CanBeSpelled(sh, quote, value)
    ensures CanBeSpelled(sh, quote, value) ==>
              var text := Candidate(sh, quote, value).value;
              if quote.None? && StandsBare(sh, value) then text == value
              else
                var mark := if quote.Some? then quote.value else if sh.syntax == Cmd then '"' else '\'';
                exists inner :: text == [mark] + inner + [mark]
  {
    hide Utf8Length;
    hide Safe;
    hide SafeBare;
    hide SafeInCmdQuotes;
    hide Composed;
    hide Replace;
    PrintableExactly(value);
    if value != "" {
      SafeBareExactly(sh, value);
      if sh.syntax == Cmd { CmdQuotesExactly(sh, value); }
      if sh.syntax == Literal { LiteralExactly(sh, value); }
    }
  }

  lemma PrintableExactly(value: string)
    ensures HasControl(value) <==> !forall i :: 0 <= i < |value| ==> ShellGrammar.Printable(value[i])
  {
  }

  lemma LiteralExactly(sh: Shell, value: string)
    requires sh.syntax == Literal && value != ""
    ensures StandsBare(sh, value) == Composed(sh, value, "/._-:=")
  {
  }

  // The literal argv of a line, if nothing in it would be expanded or left open.
  function LiteralArguments(sh: Shell, line: string): Option<seq<string>> {
    if Utf8Length(line) > MAX_BYTES then None
    else
      match Words(sh, Trim(line))
      case None => None
      case Some(ws) => if exists i :: 0 <= i < |ws| && (!ws[i].closed || ws[i].home) then None else Some(Values(ws))
  }

  lemma CandidateIsTrimmed(sh: Shell, quote: Option<char>, value: string)
    requires AgreesOnAscii(sh.alphanumeric) && NeverWhitespace(sh.alphanumeric) && ValidQuote(sh.syntax, quote)
    requires Candidate(sh, quote, value).Some?
    ensures Trim(Candidate(sh, quote, value).value) == Candidate(sh, quote, value).value
  {
    hide Candidate;
    CandidateSpells(sh, quote, value);
    if Style(sh, quote, value).None? {
      PlainSpells(sh, None, value);
      assert Safe(sh, value, value[0]) && Safe(sh, value, value[|value| - 1]);
    }
  }

  lemma CandidateIsLiteralArgument(sh: Shell, quote: Option<char>, value: string)
    requires AgreesOnAscii(sh.alphanumeric) && NeverWhitespace(sh.alphanumeric) && ValidQuote(sh.syntax, quote)
    requires Candidate(sh, quote, value).Some? && Utf8Length(Candidate(sh, quote, value).value) <= MAX_BYTES
    ensures LiteralArguments(sh, Candidate(sh, quote, value).value) == Some([value])
  {
    hide Words;
    hide Candidate;
    QuoteRoundTrip(sh, quote, value);
    CandidateIsTrimmed(sh, quote, value);
    var text := Candidate(sh, quote, value).value;
    assert Values([Word(value, 0, |text|, Style(sh, quote, value), true, false)]) == [value];
  }

  // ---- the word under the cursor ----

  function Find(ws: seq<Word>, start: nat): Option<Word> {
    if ws == [] then None else if ws[0].start == start then Some(ws[0]) else Find(ws[1..], start)
  }

  // Values of the nonempty words that start at or after a position.
  function ValuesFrom(ws: seq<Word>, at: nat): seq<string> {
    if ws == [] then []
    else (if ws[0].start >= at && ws[0].end > ws[0].start then [ws[0].value] else []) + ValuesFrom(ws[1..], at)
  }

  function HomeIndices(ws: seq<Word>, from: nat): seq<nat> {
    if ws == [] then [] else (if ws[0].home then [from] else []) + HomeIndices(ws[1..], from + 1)
  }

  function Parse(sh: Shell, line: string, cursor: nat, allowHome: bool): (r: Option<Context>)
    ensures r.Some? ==> cursor <= |line|
  {
    if cursor > |line| || Utf8Length(line) > MAX_BYTES then None
    else
      match (Words(sh, line), Words(sh, line[..cursor]))
      case (Some(all), Some(words)) =>
        if words == [] then None
        else
          var before, last := words[..|words| - 1], words[|words| - 1];
          var full := Find(all, last.start);
          var target := if full.Some? then last.(end := full.value.end) else last;
          var fullWord := if full.Some? && full.value.value != last.value then Some(full.value.value) else None;
          var following := ValuesFrom(all, if full.Some? then last.start + 1 else cursor);
          if (exists i :: 0 <= i < |before| && (!before[i].closed || (before[i].home && !allowHome)))
             || (exists i :: 0 <= i < |all| && all[i].start > target.start && (!all[i].closed || all[i].home))
          then None
          else Some(Context(Values(before), HomeIndices(before, 0), following, fullWord, target))
      case _ => None
  }

  // The edit a caller makes with a candidate.
  function Splice(line: string, target: Word, text: string): string
    requires target.start <= target.end <= |line|
  {
    line[..target.start] + text + line[target.end..]
  }

  // The blank that ends the text belongs to its last word, because it is escaped.
  ghost predicate EndsInEscapedBlank(sh: Shell, text: string) {
    && text != [] && Blank(text[|text| - 1])
    && Lex(sh, text, 0).Some?
    && var ws := Lex(sh, text, 0).value; ws != [] && ws[|ws| - 1].closed && ws[|ws| - 1].end == |text|
  }

  // ---- where a successful parse cuts the line ----

  lemma ValuesFromConcat(a: seq<Word>, b: seq<Word>, at: nat)
    ensures ValuesFrom(a + b, at) == ValuesFrom(a, at) + ValuesFrom(b, at)
  {
    if a == [] {
      assert a + b == b;
    } else {
      assert (a + b)[1..] == a[1..] + b;
      ValuesFromConcat(a[1..], b, at);
    }
  }

  lemma ValuesFromNone(ws: seq<Word>, at: nat)
    requires forall k :: 0 <= k < |ws| ==> ws[k].start < at || ws[k].end == ws[k].start
    ensures ValuesFrom(ws, at) == []
  {
  }

  lemma {:induction false} ValuesFromAll(ws: seq<Word>, at: nat)
    requires forall k :: 0 <= k < |ws| ==> at <= ws[k].start < ws[k].end
    ensures ValuesFrom(ws, at) == Values(ws)
  {
    if ws != [] {
      ValuesFromAll(ws[1..], at);
      assert Values(ws) == [ws[0].value] + Values(ws[1..]);
    }
  }

  // Words before a position, words from it on, and the empty word at the end.
  lemma ValuesFromMiddle(a: seq<Word>, b: seq<Word>, c: seq<Word>, at: nat)
    requires forall k :: 0 <= k < |a| ==> a[k].start < at
    requires forall k :: 0 <= k < |b| ==> at <= b[k].start < b[k].end
    requires forall k :: 0 <= k < |c| ==> c[k].end == c[k].start
    ensures ValuesFrom(a + b + c, at) == Values(b)
  {
    ValuesFromConcat(a + b, c, at);
    ValuesFromConcat(a, b, at);
    ValuesFromNone(a, at);
    ValuesFromNone(c, at);
    ValuesFromAll(b, at);
    assert [] + Values(b) + [] == Values(b);
  }

  lemma FindSkips(a: seq<Word>, b: seq<Word>, start: nat)
    requires forall k :: 0 <= k < |a| ==> a[k].start != start
    ensures Find(a + b, start) == Find(b, start)
  {
    if a == [] {
      assert a + b == b;
    } else {
      assert (a + b)[1..] == a[1..] + b;
      FindSkips(a[1..], b, start);
    }
  }

  // The line is the settled text `line[..p]`, then the target, then `line[e..]`.
  ghost predicate Cuts(sh: Shell, line: string, p: nat, e: nat, pre: seq<Word>, post: seq<Word>) {
    && p <= e <= |line|
    && Lex(sh, line[..p], 0) == Some(pre) && Settled(line[..p], 0, pre)
    && (forall k :: 0 <= k < |pre| ==> pre[k].closed)
    && (e == |line| || Blank(line[e]))
    && Lex(sh, line[e..], e) == Some(post)
  }

  // Behind a settled prefix the next word, if any, starts exactly there.
  lemma CutAt(sh: Shell, line: string, p: nat, pre: seq<Word>) returns (e: nat, middle: seq<Word>, post: seq<Word>)
    requires p <= |line| && Lex(sh, line, 0).Some?
    requires Lex(sh, line[..p], 0) == Some(pre) && Settled(line[..p], 0, pre)
    requires forall k :: 0 <= k < |pre| ==> pre[k].closed
    ensures Cuts(sh, line, p, e, pre, post)
    ensures Lex(sh, line, 0) == Some(pre + middle + post)
    ensures middle == [] ==> e == p
    ensures middle != [] ==> |middle| == 1 && middle[0].start == p && middle[0].end == e > p
    ensures (middle != []) == (p < |line| && !Blank(line[p]))
  {
    hide Lex;
    hide Body;
    assert line == line[..p] + line[p..];
    LexExtends(sh, line[..p], line[p..], 0);
    if p < |line| && !Blank(line[p]) {
      LexUnfolds(sh, line[p..], p);
      var n := Body(sh, line[p..], None).length;
      e, middle, post := p + n, [FirstWord(sh, line[p..], p)], Lex(sh, line[p + n..], p + n).value;
      assert line[p..][n..] == line[e..];
      assert pre + ([middle[0]] + post) == pre + middle + post;
    } else {
      e, middle, post := p, [], Lex(sh, line[p..], p).value;
      assert pre + [] + post == pre + post;
    }
  }

  // The settled prefix `pre` in front of the word being edited.
  ghost predicate Precedes(sh: Shell, text: string, pre: seq<Word>, target: Word) {
    && target.start <= |text|
    && Lex(sh, text[..target.start], 0) == Some(pre) && Settled(text[..target.start], 0, pre)
    && (forall k :: 0 <= k < |pre| ==> pre[k].closed)
    && ValidQuote(sh.syntax, target.quote)
    && (target.start == |text| || !Blank(text[target.start]))
  }

  lemma LastWordIsPreceded(sh: Shell, text: string, k: nat)
    requires Lex(sh, text, 0).Some? && |Lex(sh, text, 0).value| == k + 1
    ensures Precedes(sh, text, Lex(sh, text, 0).value[..k], Lex(sh, text, 0).value[k])
  {
    hide Lex;
    hide Body;
    var ws := Lex(sh, text, 0).value;
    LexSplits(sh, text, 0, k);
    LexBounds(sh, text, 0);
    forall i | 0 <= i < k ensures ws[i].closed { LexSeparates(sh, text, 0, i, k); }
    assert ws[k..][0] == ws[k];
    LexUnfolds(sh, text[ws[k].start..], ws[k].start);
  }

  lemma EmptyWordIsPreceded(sh: Shell, text: string)
    requires Lex(sh, text, 0).Some? && Trailing(text, Lex(sh, text, 0).value) != [] && !EndsInEscapedBlank(sh, text)
    ensures Precedes(sh, text, Lex(sh, text, 0).value, Trailing(text, Lex(sh, text, 0).value)[0])
  {
    hide Lex;
    var ws := Lex(sh, text, 0).value;
    LexBounds(sh, text, 0);
    forall i | 0 <= i < |ws| ensures ws[i].closed {
      if i < |ws| - 1 { LexSeparates(sh, text, 0, i, |ws| - 1); }
    }
    assert text[..|text|] == text;
  }

  lemma TargetIsPreceded(sh: Shell, text: string)
    requires Words(sh, text).Some? && Words(sh, text).value != [] && !EndsInEscapedBlank(sh, text)
    ensures
      var words := Words(sh, text).value;
      Precedes(sh, text, words[..|words| - 1], words[|words| - 1])
  {
    hide Lex;
    var ws := Lex(sh, text, 0).value;
    if Trailing(text, ws) == [] {
      assert ws + [] == ws;
      LastWordIsPreceded(sh, text, |ws| - 1);
    } else {
      assert (ws + Trailing(text, ws))[..|ws|] == ws;
      EmptyWordIsPreceded(sh, text);
    }
  }

  lemma FollowersStartLater(sh: Shell, line: string, p: nat, e: nat, pre: seq<Word>, post: seq<Word>)
    requires Cuts(sh, line, p, e, pre, post)
    ensures forall k :: 0 <= k < |pre| ==> pre[k].start < pre[k].end <= p
    ensures forall k :: 0 <= k < |post| ==> e < post[k].start < post[k].end
  {
    hide Lex;
    LexBounds(sh, line[..p], 0);
    LexBounds(sh, line[e..], e);
  }

  lemma ParseCuts(sh: Shell, line: string, cursor: nat, allowHome: bool) returns (pre: seq<Word>, post: seq<Word>)
    requires Parse(sh, line, cursor, allowHome).Some? && !EndsInEscapedBlank(sh, line[..cursor])
    ensures
      var ctx := Parse(sh, line, cursor, allowHome).value;
      && Cuts(sh, line, ctx.target.start, ctx.target.end, pre, post)
      && ctx.arguments == Values(pre) && ctx.following == Values(post) && ctx.homeArguments == HomeIndices(pre, 0)
      && pre == Words(sh, line[..cursor]).value[..|Words(sh, line[..cursor]).value| - 1]
      && ValidQuote(sh.syntax, ctx.target.quote)
  {
    hide Lex;
    var text := line[..cursor];
    var ctx := Parse(sh, line, cursor, allowHome).value;
    var p := ctx.target.start;
    TargetIsPreceded(sh, text);
    pre := Words(sh, text).value[..|Words(sh, text).value| - 1];
    assert text[..p] == line[..p];
    var e, middle;
    e, middle, post := CutAt(sh, line, p, pre);
    FollowersStartLater(sh, line, p, e, pre, post);
    assert p < |text| ==> text[p] == line[p];
    AfterTarget(line, pre, middle, post, p, e);
  }

  // An empty target is no word of the line, or the empty one at its end.
  lemma AfterEmptyTarget(pre: seq<Word>, post: seq<Word>, t: seq<Word>, p: nat)
    requires forall k :: 0 <= k < |pre| ==> pre[k].start < p
    requires forall k :: 0 <= k < |post| ==> p < post[k].start < post[k].end
    requires |t| <= 1 && forall k :: 0 <= k < |t| ==> t[k].end == t[k].start
    ensures
      var found := Find(pre + post + t, p);
      && (found.Some? ==> found.value.end == p)
      && ValuesFrom(pre + post + t, p) == Values(post)
  {
    hide ValuesFrom;
    ValuesFromMiddle(pre, post, t, p);
    FindSkips(pre + post, t, p);
    if t != [] { assert t[1..] == []; }
  }

  lemma AfterWord(pre: seq<Word>, word: Word, rest: seq<Word>)
    requires forall k :: 0 <= k < |pre| ==> pre[k].start < word.start
    ensures Find(pre + [word] + rest, word.start) == Some(word)
  {
    assert pre + [word] + rest == pre + ([word] + rest);
    FindSkips(pre, [word] + rest, word.start);
  }

  // Looking the target up among all the words finds its full extent, and the
  // words behind it are exactly those behind the cut.
  lemma AfterTarget(line: string, pre: seq<Word>, middle: seq<Word>, post: seq<Word>, p: nat, e: nat)
    requires p <= e <= |line|
    requires forall k :: 0 <= k < |pre| ==> pre[k].start < pre[k].end <= p
    requires forall k :: 0 <= k < |post| ==> e < post[k].start < post[k].end
    requires middle == [] ==> e == p
    requires middle != [] ==> |middle| == 1 && middle[0].start == p && middle[0].end == e > p
    ensures
      var all := pre + middle + post + Trailing(line, pre + middle + post);
      var found := Find(all, p);
      && (found.Some? ==> found.value.end == e)
      && (found.None? ==> middle == [] && e == p)
      && ValuesFrom(all, p + 1) == Values(post)
      && (middle == [] ==> ValuesFrom(all, p) == Values(post))
  {
    hide Find;
    hide ValuesFrom;
    var t := Trailing(line, pre + middle + post);
    ValuesFromMiddle(pre + middle, post, t, p + 1);
    if middle == [] {
      assert pre + middle == pre;
      AfterEmptyTarget(pre, post, t, p);
    } else {
      assert middle == [middle[0]];
      assert pre + middle + post + t == pre + [middle[0]] + (post + t);
      AfterWord(pre, middle[0], post + t);
    }
  }

  // ---- the edit contract ----

  // What a shell would receive: the values of the nonempty words.
  function Arguments(sh: Shell, line: string): Option<seq<string>> {
    match Words(sh, line)
    case None => None
    case Some(ws) => Some(ValuesFrom(ws, 0))
  }

  lemma ArgumentsAreValues(sh: Shell, line: string)
    requires Lex(sh, line, 0).Some?
    ensures Arguments(sh, line) ==
            if |Lex(sh, line, 0).value| <= MAX_WORDS then Some(Values(Lex(sh, line, 0).value)) else None
  {
    hide Lex;
    var ws := Lex(sh, line, 0).value;
    LexBounds(sh, line, 0);
    ValuesFromMiddle([], ws, Trailing(line, ws), 0);
    assert [] + ws == ws;
  }

  // Splicing a candidate over a cut leaves the words before it alone, puts one
  // closed literal word with the new value in its place, and only moves the rest.
  lemma SpliceAtCut(sh: Shell, line: string, target: Word, value: string, pre: seq<Word>, post: seq<Word>)
    returns (post': seq<Word>)
    requires AgreesOnAscii(sh.alphanumeric) && ValidQuote(sh.syntax, target.quote)
    requires Cuts(sh, line, target.start, target.end, pre, post)
    requires Candidate(sh, target.quote, value).Some?
    ensures
      var p, text := target.start, Candidate(sh, target.quote, value).value;
      var word := Word(value, p, p + |text|, Style(sh, target.quote, value), true, false);
      && Lex(sh, Splice(line, target, text), 0) == Some(pre + ([word] + post'))
      && Moved(post, post', p + |text| - target.end)
  {
    hide Lex;
    hide Body;
    hide Candidate;
    var p, e, text := target.start, target.end, Candidate(sh, target.quote, value).value;
    var rest := line[e..];
    var tail := text + rest;
    assert Splice(line, target, text) == line[..p] + tail;
    LexExtends(sh, line[..p], tail, 0);
    CandidateShape(sh, target.quote, value);
    assert tail[0] == text[0];
    CandidateReadsBack(sh, target.quote, value, rest);
    LexUnfolds(sh, tail, p);
    assert tail[|text|..] == rest;
    LexMoves(sh, rest, e, p + |text|);
    post' := Lex(sh, rest, p + |text|).value;
  }

  lemma ValuesConcat(a: seq<Word>, b: seq<Word>)
    ensures Values(a + b) == Values(a) + Values(b)
  {
  }

  lemma SpliceKeepsTheOthers(sh: Shell, line: string, cursor: nat, allowHome: bool, value: string)
    requires AgreesOnAscii(sh.alphanumeric)
    requires Parse(sh, line, cursor, allowHome).Some? && !EndsInEscapedBlank(sh, line[..cursor])
    requires Candidate(sh, Parse(sh, line, cursor, allowHome).value.target.quote, value).Some?
    ensures
      var ctx := Parse(sh, line, cursor, allowHome).value;
      var text := Candidate(sh, ctx.target.quote, value).value;
      && ctx.target.start <= ctx.target.end <= |line|
      && Arguments(sh, Splice(line, ctx.target, text)) ==
         if |ctx.arguments| + 1 + |ctx.following| <= MAX_WORDS then Some(ctx.arguments + [value] + ctx.following) else None
  {
    hide Lex;
    hide Candidate;
    hide Parse;
    var ctx := Parse(sh, line, cursor, allowHome).value;
    var pre, post := ParseCuts(sh, line, cursor, allowHome);
    var post' := SpliceAtCut(sh, line, ctx.target, value, pre, post);
    var text := Candidate(sh, ctx.target.quote, value).value;
    var word := Word(value, ctx.target.start, ctx.target.start + |text|, Style(sh, ctx.target.quote, value), true, false);
    ArgumentsAreValues(sh, Splice(line, ctx.target, text));
    ValuesConcat(pre, [word] + post');
    ValuesConcat([word], post');
    assert Values([word]) == [value];
    assert Values(post') == Values(post);
    assert Values(pre) + ([value] + Values(post)) == Values(pre) + [value] + Values(post);
  }

  // ---- editing on ----

  // The words around the target pass the checks of `Parse`.
  ghost predicate Passable(pre: seq<Word>, post: seq<Word>, allowHome: bool) {
    && (forall k :: 0 <= k < |pre| ==> pre[k].closed && (pre[k].home ==> allowHome))
    && (forall k :: 0 <= k < |post| ==> post[k].closed && !post[k].home)
  }

  lemma ParsedIsPassable(sh: Shell, line: string, cursor: nat, allowHome: bool, pre: seq<Word>, post: seq<Word>)
    requires Parse(sh, line, cursor, allowHome).Some? && !EndsInEscapedBlank(sh, line[..cursor])
    requires pre == Words(sh, line[..cursor]).value[..|Words(sh, line[..cursor]).value| - 1]
    requires
      var target := Parse(sh, line, cursor, allowHome).value.target;
      Cuts(sh, line, target.start, target.end, pre, post)
    ensures Passable(pre, post, allowHome)
  {
    hide Lex;
    var ctx := Parse(sh, line, cursor, allowHome).value;
    var p := ctx.target.start;
    var e, middle, post' := CutAt(sh, line, p, pre);
    FollowersStartLater(sh, line, p, e, pre, post');
    var all := Words(sh, line).value;
    forall k | 0 <= k < |post'| ensures post'[k].closed && !post'[k].home {
      assert all[|pre| + |middle| + k] == post'[k];
    }
    assert ctx.target.end == e by {
      TargetIsPreceded(sh, line[..cursor]);
      AfterTarget(line, pre, middle, post', p, e);
    }
  }

  // Behind the target, the checks of `Parse` find nothing to object to.
  lemma NothingObjectionable(line: string, pre: seq<Word>, word: Word, post: seq<Word>, allowHome: bool)
    requires Passable(pre, post, allowHome) && word.closed && word.start < word.end
    requires forall k :: 0 <= k < |pre| ==> pre[k].start < pre[k].end <= word.start
    ensures
      var all := pre + [word] + post + Trailing(line, pre + [word] + post);
      forall i :: 0 <= i < |all| && all[i].start > word.start ==> all[i].closed && !all[i].home
  {
    var t := Trailing(line, pre + [word] + post);
    var all := pre + [word] + post + t;
    forall i | 0 <= i <= |pre| ensures all[i].start <= word.start {
      if i < |pre| { assert all[i] == pre[i]; }
    }
    forall i | |pre| < i < |all| ensures all[i].closed && !all[i].home {
      if i < |pre| + 1 + |post| { assert all[i] == post[i - |pre| - 1]; }
      else { assert all[i] == t[i - |pre| - 1 - |post|]; }
    }
  }

  lemma WordsOfCut(sh: Shell, line: string, pre: seq<Word>, word: Word, post: seq<Word>)
    requires |pre| + 1 + |post| <= MAX_WORDS && word.end <= |line| && word.end > 0 && !Blank(line[word.end - 1])
    requires Lex(sh, line[..word.end], 0) == Some(pre + [word]) && Lex(sh, line, 0) == Some(pre + ([word] + post))
    ensures Words(sh, line[..word.end]) == Some(pre + [word])
    ensures Words(sh, line) == Some(pre + [word] + post + Trailing(line, pre + [word] + post))
  {
    hide Lex;
    var text := line[..word.end];
    assert text[|text| - 1] == line[word.end - 1];
    assert pre + [word] + [] == pre + [word];
    assert pre + ([word] + post) == pre + [word] + post;
  }

  // The context of a line that consists of passable words around one real word.
  lemma ParseOfCut(sh: Shell, line: string, pre: seq<Word>, word: Word, post: seq<Word>, allowHome: bool)
    requires Utf8Length(line) <= MAX_BYTES && word.end <= |line| && word.closed && word.start < word.end
    requires Words(sh, line[..word.end]) == Some(pre + [word])
    requires Words(sh, line) == Some(pre + [word] + post + Trailing(line, pre + [word] + post))
    requires Passable(pre, post, allowHome)
    requires forall k :: 0 <= k < |pre| ==> pre[k].start < pre[k].end <= word.start
    requires forall k :: 0 <= k < |post| ==> word.end < post[k].start < post[k].end
    ensures Parse(sh, line, word.end, allowHome) == Some(Context(Values(pre), HomeIndices(pre, 0), Values(post), None, word))
  {
    hide Words;
    hide ValuesFrom;
    hide HomeIndices;
    hide Utf8Length;
    hide Find;
    hide Trailing;
    var t := Trailing(line, pre + [word] + post);
    assert (pre + [word])[..|pre|] == pre;
    AfterTarget(line, pre, [word], post, word.start, word.end);
    NothingObjectionable(line, pre, word, post, allowHome);
    assert pre + [word] + post + t == pre + [word] + (post + t);
    AfterWord(pre, word, post + t);
  }

  // Editing can go on: reading the edited line with the cursor behind the new word
  // gives the same arguments around it, and the value as the word under the cursor.
  lemma SpliceThenParse(sh: Shell, line: string, cursor: nat, allowHome: bool, value: string, ctx: Context, text: string)
    requires AgreesOnAscii(sh.alphanumeric)
    requires Parse(sh, line, cursor, allowHome) == Some(ctx) && !EndsInEscapedBlank(sh, line[..cursor])
    requires Candidate(sh, ctx.target.quote, value) == Some(text) && ctx.target.start <= ctx.target.end <= |line|
    requires Utf8Length(Splice(line, ctx.target, text)) <= MAX_BYTES && |ctx.arguments| + 1 + |ctx.following| <= MAX_WORDS
    ensures
      Parse(sh, Splice(line, ctx.target, text), ctx.target.start + |text|, allowHome) ==
      Some(Context(ctx.arguments, ctx.homeArguments, ctx.following, None,
                   Word(value, ctx.target.start, ctx.target.start + |text|, Style(sh, ctx.target.quote, value), true, false)))
  {
    hide Lex;
    hide Candidate;
    hide Utf8Length;
    hide Parse;
    hide EndsInEscapedBlank;
    hide Cuts;
    hide Passable;
    hide Splice;
    hide Style;
    var pre, post := ParseCuts(sh, line, cursor, allowHome);
    ParsedIsPassable(sh, line, cursor, allowHome, pre, post);
    EditedParses(sh, line, ctx.target, value, pre, post, allowHome);
  }

  lemma EditedParses(sh: Shell, line: string, target: Word, value: string, pre: seq<Word>, post: seq<Word>, allowHome: bool)
    requires AgreesOnAscii(sh.alphanumeric) && ValidQuote(sh.syntax, target.quote)
    requires Cuts(sh, line, target.start, target.end, pre, post) && Passable(pre, post, allowHome)
    requires Candidate(sh, target.quote, value).Some?
    requires Utf8Length(Splice(line, target, Candidate(sh, target.quote, value).value)) <= MAX_BYTES
    requires |pre| + 1 + |post| <= MAX_WORDS
    ensures
      var text := Candidate(sh, target.quote, value).value;
      var p := target.start;
      Parse(sh, Splice(line, target, text), p + |text|, allowHome) ==
      Some(Context(Values(pre), HomeIndices(pre, 0), Values(post), None,
                   Word(value, p, p + |text|, Style(sh, target.quote, value), true, false)))
  {
    hide Lex;
    hide Candidate;
    hide Words;
    hide Parse;
    hide Utf8Length;
    hide Moved;
    hide Passable;
    hide HomeIndices;
    hide Style;
    hide ValidQuote;
    hide Trailing;
    hide Values;
    var p, text := target.start, Candidate(sh, target.quote, value).value;
    var edited := Splice(line, target, text);
    var word := Word(value, p, p + |text|, Style(sh, target.quote, value), true, false);
    CandidateShape(sh, target.quote, value);
    var post' := SpliceAtCut(sh, line, target, value, pre, post);
    PrefixOfEdit(sh, line, target, value, pre, post);
    assert edited[p + |text| - 1] == text[|text| - 1];
    FollowersStartLater(sh, line, p, target.end, pre, post);
    MovedStayAround(pre, post, post', target.end, p + |text|, allowHome);
    WordsOfCut(sh, edited, pre, word, post');
    ParseOfCut(sh, edited, pre, word, post', allowHome);
  }

  // Moving the words behind a cut keeps what a parse asks of them.
  lemma MovedStayAround(pre: seq<Word>, post: seq<Word>, post': seq<Word>, from: nat, to: nat, allowHome: bool)
    requires Moved(post, post', to - from) && Passable(pre, post, allowHome)
    requires forall k :: 0 <= k < |post| ==> from < post[k].start < post[k].end
    ensures |post'| == |post| && Passable(pre, post', allowHome) && Values(post') == Values(post)
    ensures forall k :: 0 <= k < |post'| ==> to < post'[k].start < post'[k].end
  {
    forall k | 0 <= k < |post'|
      ensures to < post'[k].start < post'[k].end && post'[k].closed && !post'[k].home && post'[k].value == post[k].value
    {
      assert MovedWord(post[k], post'[k], to - from);
    }
  }

  lemma PrefixOfEdit(sh: Shell, line: string, target: Word, value: string, pre: seq<Word>, post: seq<Word>)
    requires AgreesOnAscii(sh.alphanumeric) && ValidQuote(sh.syntax, target.quote)
    requires Cuts(sh, line, target.start, target.end, pre, post)
    requires Candidate(sh, target.quote, value).Some?
    ensures
      var p, text := target.start, Candidate(sh, target.quote, value).value;
      var word := Word(value, p, p + |text|, Style(sh, target.quote, value), true, false);
      Lex(sh, Splice(line, target, text)[..p + |text|], 0) == Some(pre + [word])
  {
    hide Lex;
    hide Body;
    hide Candidate;
    var p, text := target.start, Candidate(sh, target.quote, value).value;
    assert Splice(line, target, text)[..p + |text|] == line[..p] + text;
    LexExtends(sh, line[..p], text, 0);
    CandidateShape(sh, target.quote, value);
    assert text + [] == text;
    CandidateReadsBack(sh, target.quote, value, []);
    LexNothing(sh, text, p);
  }

  // ---- the escaped trailing blank ----

  // The word that swallowed its trailing blank keeps going behind the cursor.
  lemma SwallowedBlankRunsOn(sh: Shell, line: string, cursor: nat, tail: string) returns (q: nat, pre: seq<Word>, word: Word)
    requires cursor <= |line| && EndsInEscapedBlank(sh, line[..cursor])
    ensures Lex(sh, line[..cursor], 0) == Some(pre + [word])
    ensures q == word.start < cursor == word.end && word.closed
    ensures forall k :: 0 <= k < |pre| ==> pre[k].start < q
    ensures
      var scan := Body(sh, tail, None);
      var whole := Lex(sh, line[..cursor] + tail, 0);
      && (scan.Reject? ==> whole.None?)
      && (scan.Stop? && whole.Some? ==>
            && |whole.value| > |pre| && whole.value[..|pre|] == pre
            && whole.value[|pre|].value == word.value + scan.value
            && whole.value[|pre|].start == q && whole.value[|pre|].end == cursor + scan.length)
  {
    hide Lex;
    hide Body;
    var text := line[..cursor];
    var ws := Lex(sh, text, 0).value;
    var k := |ws| - 1;
    pre, word := ws[..k], ws[k];
    q := word.start;
    assert ws == pre + [word];
    LexSplits(sh, text, 0, k);
    LastWordIsPreceded(sh, text, k);
    LexBounds(sh, text, 0);
    forall i | 0 <= i < k ensures ws[i].start < q { LexSeparates(sh, text, 0, i, k); }
    var w := text[q..];
    assert text + tail == text[..q] + (w + tail);
    LexExtends(sh, text[..q], w + tail, 0);
    assert ws[k..] == [word];
    LexUnfolds(sh, w, q);
    assert w[|w| - 1] == text[|text| - 1];
    BodyRunsOn(sh, w, tail, None);
    assert (w + tail)[0] == w[0];
    LexUnfolds(sh, w + tail, q);
    if Lex(sh, text + tail, 0).Some? {
      var rest := Lex(sh, w + tail, q).value;
      assert (pre + rest)[..|pre|] == pre && (pre + rest)[|pre|] == rest[0];
    }
  }

  // A parse that stops behind an escaped blank edits an empty span at the cursor.
  lemma EscapedBlankTarget(sh: Shell, line: string, cursor: nat, allowHome: bool)
    requires Parse(sh, line, cursor, allowHome).Some? && EndsInEscapedBlank(sh, line[..cursor])
    ensures
      var ctx := Parse(sh, line, cursor, allowHome).value;
      && ctx.target.start == cursor && ctx.target.end == cursor && ctx.target.quote.None?
      && ctx.arguments == Values(Lex(sh, line[..cursor], 0).value)
  {
    hide Lex;
    var text := line[..cursor];
    var ws := Lex(sh, text, 0).value;
    assert (ws + Trailing(text, ws))[..|ws|] == ws;
    var q, pre, word := SwallowedBlankRunsOn(sh, line, cursor, line[cursor..]);
    assert text + line[cursor..] == line;
    var all := Lex(sh, line, 0).value;
    var n := |pre|;
    forall k | 0 <= k < |all| ensures all[k].start != cursor {
      if k < n { assert all[k] == all[..n][k]; } else if k > n { LexSeparates(sh, line, 0, n, k); }
    }
    var t := Trailing(line, all);
    FindSkips(all, t, cursor);
    if t != [] { assert t[1..] == []; }
  }

  lemma SpliceBehindEscapedBlank(sh: Shell, line: string, cursor: nat, allowHome: bool, value: string)
    requires AgreesOnAscii(sh.alphanumeric)
    requires Parse(sh, line, cursor, allowHome).Some? && EndsInEscapedBlank(sh, line[..cursor])
    requires Candidate(sh, Parse(sh, line, cursor, allowHome).value.target.quote, value).Some?
    ensures
      var ctx := Parse(sh, line, cursor, allowHome).value;
      var text := Candidate(sh, ctx.target.quote, value).value;
      && ctx.target.start <= ctx.target.end <= |line|
      && Arguments(sh, Splice(line, ctx.target, text)) != Some(ctx.arguments + [value] + ctx.following)
  {
    hide Lex;
    hide Body;
    hide Candidate;
    hide Parse;
    EscapedBlankTarget(sh, line, cursor, allowHome);
    var ctx := Parse(sh, line, cursor, allowHome).value;
    assert cursor <= |line|;
    var text := Candidate(sh, ctx.target.quote, value).value;
    var tail := text + line[cursor..];
    var edited := Splice(line, ctx.target, text);
    assert edited == line[..cursor] + tail;
    var q, pre, word := SwallowedBlankRunsOn(sh, line, cursor, tail);
    CandidateReadsBack(sh, ctx.target.quote, value, line[cursor..]);
    if Lex(sh, edited, 0).Some? {
      ArgumentsAreValues(sh, edited);
      var n, whole := |pre|, Lex(sh, edited, 0).value;
      assert (ctx.arguments + [value] + ctx.following)[n] == word.value;
      assert |Values(whole)[n]| > |word.value|;
    }
  }

  // The edit contract, and exactly when it holds: re-reading the edited line gives
  // the old preceding arguments, the new value and the old following arguments if
  // and only if the text before the cursor does not end in an escaped blank and the
  // result fits the scanner's limit.
  lemma SpliceIsExact(sh: Shell, line: string, cursor: nat, allowHome: bool, value: string)
    requires AgreesOnAscii(sh.alphanumeric)
    requires Parse(sh, line, cursor, allowHome).Some?
    requires Candidate(sh, Parse(sh, line, cursor, allowHome).value.target.quote, value).Some?
    ensures
      var ctx := Parse(sh, line, cursor, allowHome).value;
      var text := Candidate(sh, ctx.target.quote, value).value;
      && ctx.target.start <= ctx.target.end <= |line|
      && (Arguments(sh, Splice(line, ctx.target, text)) == Some(ctx.arguments + [value] + ctx.following) <==>
          !EndsInEscapedBlank(sh, line[..cursor]) && |ctx.arguments| + 1 + |ctx.following| <= MAX_WORDS)
  {
    hide Lex;
    hide Candidate;
    hide Parse;
    if EndsInEscapedBlank(sh, line[..cursor]) {
      SpliceBehindEscapedBlank(sh, line, cursor, allowHome, value);
    } else {
      SpliceKeepsTheOthers(sh, line, cursor, allowHome, value);
    }
  }

  // The excluded case is real: in `a\ ` the escaped blank belongs to the word, yet
  // an empty word is offered behind it, and the spliced value joins that word.
  lemma EscapedBlankHappens() returns (sh: Shell, line: string, ctx: Context)
    ensures sh == Shell(Posix, IsAsciiAlphanumeric) && line == "a\\ "
    ensures Parse(sh, line, 3, false) == Some(ctx)
    ensures Candidate(sh, ctx.target.quote, "b") == Some("b")
    ensures ctx.arguments == ["a "] && ctx.following == []
    ensures ctx.target.start <= ctx.target.end <= |line|
    ensures Arguments(sh, Splice(line, ctx.target, "b")) != Some(["a ", "b"])
  {
    hide Lex;
    hide Words;
    hide Parse;
    sh, line := Shell(Posix, IsAsciiAlphanumeric), "a\\ ";
    var word, empty := Word("a ", 0, 3, None, true, false), Word("", 3, 3, None, true, false);
    EscapedBlankScans(sh);
    assert line[..3] == line;
    EscapedBlankParses(sh, word, empty);
    ctx := Parse(sh, line, 3, false).value;
    assert Candidate(sh, None, "b") == Some("b") by { assert "b"[1..] == []; }
    SpliceIsExact(sh, line, 3, false, "b");
    assert ["a "] + ["b"] + [] == ["a ", "b"];
  }

  lemma EscapedBlankScans(sh: Shell)
    requires sh == Shell(Posix, IsAsciiAlphanumeric)
    ensures Lex(sh, "a\\ ", 0) == Some([Word("a ", 0, 3, None, true, false)])
    ensures Words(sh, "a\\ ") == Some([Word("a ", 0, 3, None, true, false), Word("", 3, 3, None, true, false)])
  {
    hide Lex;
    hide Body;
    var line, rest := "a\\ ", "\\ ";
    BodyStops(sh, []);
    assert Body(sh, rest, None) == Stop(" ", 2, true) by {
      assert rest[2..] == [];
      BodyAt(sh, rest, None, Take(" ", 2, None), []);
      assert " " + "" == " ";
    }
    assert Body(sh, line, None) == Stop("a ", 3, true) by {
      assert line[1..] == rest;
      BodyAt(sh, line, None, Take("a", 1, None), rest);
      assert "a" + " " == "a ";
    }
    LexNothing(sh, line, 0);
    var word, empty := Word("a ", 0, 3, None, true, false), Word("", 3, 3, None, true, false);
    assert Trailing(line, [word]) == [empty];
    assert [word] + [empty] == [word, empty];
  }

  lemma EscapedBlankParses(sh: Shell, word: Word, empty: Word)
    requires Words(sh, "a\\ ") == Some([word, empty])
    requires word == Word("a ", 0, 3, None, true, false) && empty == Word("", 3, 3, None, true, false)
    ensures Parse(sh, "a\\ ", 3, false) == Some(Context(["a "], [], [], None, empty))
  {
    hide Words;
    var line := "a\\ ";
    var words := [word, empty];
    assert line[..3] == line && words[..1] == [word];
    assert words[1..] == [empty] && [empty][1..] == [] && [word][1..] == [];
    assert line[1..] == "\\ " && line[1..][1..] == " " && " "[1..] == [];
    assert Find(words, 3) == Some(empty);
    assert Values([word]) == ["a "];
    assert HomeIndices([word], 0) == [];
    ValuesFromNone(words, 4);
  }

  // ---- the scanner's results, as callers rely on them ----

  // Whenever the scanner succeeds: at most 65 words, spans in order and disjoint,
  // only blanks outside them, and an open quote only in the last word, which then
  // reaches the end of the line.
  lemma WordsAreWellPlaced(sh: Shell, line: string)
    requires Words(sh, line).Some?
    ensures
      var ws := Words(sh, line).value;
      && |ws| <= MAX_WORDS + 1
      && InOrder(line, ws)
      && (forall k :: 0 <= k < |ws| - 1 ==> ws[k].closed)
      && (forall k :: 0 <= k < |ws| && !ws[k].closed ==> ws[k].end == |line|)
      && (forall at :: 0 <= at < |line| && !Covered(ws, at) ==> Blank(line[at]))
  {
    hide Lex;
    var lexed := Lex(sh, line, 0).value;
    LexIsWellPlaced(sh, line, 0);
    TrailingStaysInOrder(line, lexed);
    TrailingStaysClosed(line, lexed);
    BlanksBetween(line, lexed);
  }

  lemma TrailingStaysClosed(line: string, ws: seq<Word>)
    requires forall k :: 0 <= k < |ws| - 1 ==> ws[k].closed
    requires forall k :: 0 <= k < |ws| && !ws[k].closed ==> ws[k].end == |line|
    ensures
      var all := ws + Trailing(line, ws);
      && (forall k :: 0 <= k < |all| - 1 ==> all[k].closed)
      && (forall k :: 0 <= k < |all| && !all[k].closed ==> all[k].end == |line|)
  {
    var all := ws + Trailing(line, ws);
    forall k | 0 <= k < |all| - 1 ensures all[k].closed { assert all[k] == ws[k]; }
  }

  lemma BlanksBetween(line: string, ws: seq<Word>)
    requires forall at :: 0 <= at < |line| && !Covered(ws, 0 + at) ==> Blank(line[at])
    ensures forall at :: 0 <= at < |line| && !Covered(ws + Trailing(line, ws), at) ==> Blank(line[at])
  {
    hide Trailing;
    forall at | 0 <= at < |line| && !Covered(ws + Trailing(line, ws), at) ensures Blank(line[at]) {
      CoveredByPrefix(ws, Trailing(line, ws), at);
      assert !Covered(ws, 0 + at);
    }
  }

  ghost predicate InOrder(line: string, ws: seq<Word>) {
    && (forall k :: 0 <= k < |ws| ==> ws[k].start <= ws[k].end <= |line|)
    && (forall i, j :: 0 <= i < j < |ws| ==> ws[i].start < ws[j].start && ws[i].end <= ws[j].start)
  }

  lemma TrailingStaysInOrder(line: string, ws: seq<Word>)
    requires InOrder(line, ws)
    requires forall k :: 0 <= k < |ws| ==> ws[k].start < ws[k].end
    ensures InOrder(line, ws + Trailing(line, ws))
  {
    if Trailing(line, ws) == [] {
      assert ws + Trailing(line, ws) == ws;
    }
  }

  lemma CoveredByPrefix(a: seq<Word>, b: seq<Word>, at: nat)
    ensures Covered(a, at) ==> Covered(a + b, at)
  {
    if Covered(a, at) {
      var k :| 0 <= k < |a| && a[k].start <= at < a[k].end;
      assert (a + b)[k] == a[k];
    }
  }

  // ---- what a parse reports, word by word ----

  // Some word of the list starts at the position.
  ghost predicate Begins(ws: seq<Word>, at: nat) {
    exists k :: 0 <= k < |ws| && ws[k].start == at
  }

  lemma {:induction false} FindsTheWord(ws: seq<Word>, k: nat)
    requires k < |ws| && forall i :: 0 <= i < k ==> ws[i].start < ws[k].start
    ensures Find(ws, ws[k].start) == Some(ws[k])
  {
    if k > 0 {
      assert ws[1..][k - 1] == ws[k];
      FindsTheWord(ws[1..], k - 1);
    }
  }

  lemma {:induction false} FindsNothing(ws: seq<Word>, at: nat)
    requires !Begins(ws, at)
    ensures Find(ws, at).None?
  {
    if ws != [] {
      assert ws[0].start != at;
      forall k | 0 <= k < |ws[1..]| ensures ws[1..][k].start != at { assert ws[1..][k] == ws[k + 1]; }
      FindsNothing(ws[1..], at);
    }
  }

  // Exactly the words with a home mark are listed, in order.
  lemma {:induction false} HomeIsMarked(ws: seq<Word>, from: nat, n: nat)
    ensures n in HomeIndices(ws, from) <==> from <= n < from + |ws| && ws[n - from].home
  {
    if ws != [] {
      HomeIsMarked(ws[1..], from + 1, n);
      if from < n < from + |ws| { assert ws[n - from] == ws[1..][n - (from + 1)]; }
    }
  }

  ghost predicate Increasing(marks: seq<nat>) {
    forall i, j :: 0 <= i < j < |marks| ==> marks[i] < marks[j]
  }

  lemma {:induction false} MarksIncrease(ws: seq<Word>, from: nat)
    ensures Increasing(HomeIndices(ws, from))
  {
    if ws != [] {
      var rest := HomeIndices(ws[1..], from + 1);
      MarksIncrease(ws[1..], from + 1);
      forall k | 0 <= k < |rest| ensures rest[k] > from {
        assert rest[k] in rest;
        HomeIsMarked(ws[1..], from + 1, rest[k]);
      }
      assert [] + rest == rest;
    }
  }

  // The scanner finds a word, if only the empty one at the end, in every text but "".
  lemma SomeWordInText(sh: Shell, text: string)
    requires Words(sh, text).Some?
    ensures Words(sh, text).value != [] <==> text != ""
  {
    hide Lex;
    LexIsWellPlaced(sh, text, 0);
    var ws := Lex(sh, text, 0).value;
    if text == "" {
      LexEmpty(sh, 0);
    } else if ws == [] {
      assert !Covered(ws, 0 + (|text| - 1));
    }
  }

  // A parse succeeds exactly when there is text before the cursor, the line fits and
  // scans up to the cursor and as a whole, no word in front of the target needs an
  // expansion that is not allowed, and no word behind it is open or needs one.
  lemma ParsesExactly(sh: Shell, line: string, cursor: nat, allowHome: bool)
    ensures Parse(sh, line, cursor, allowHome).Some? <==>
            && 0 < cursor <= |line| && Utf8Length(line) <= 4096
            && Words(sh, line).Some? && Words(sh, line[..cursor]).Some?
            && Words(sh, line[..cursor]).value != []
            && var all, words := Words(sh, line).value, Words(sh, line[..cursor]).value;
               && (forall i :: 0 <= i < |words| - 1 && words[i].home ==> allowHome)
               && (forall i :: 0 <= i < |all| && all[i].start > words[|words| - 1].start ==> all[i].closed && !all[i].home)
  {
    hide Words;
    hide Utf8Length;
    hide Find;
    hide ValuesFrom;
    hide HomeIndices;
    if cursor <= |line| && Words(sh, line[..cursor]).Some? {
      SomeWordInText(sh, line[..cursor]);
      WordsAreWellPlaced(sh, line[..cursor]);
    }
  }

  // `behind` are the words of the whole line that start at or behind a position,
  // without the empty one at its end.
  ghost predicate IsBehind(all: seq<Word>, at: nat, behind: seq<Word>) {
    exists front: seq<Word>, empty: seq<Word> :: all == front + behind + empty
      && (forall i :: 0 <= i < |front| ==> front[i].start < at)
      && (forall i :: 0 <= i < |behind| ==> at <= behind[i].start < behind[i].end)
      && (forall i :: 0 <= i < |empty| ==> empty[i].end == empty[i].start)
  }

  lemma {:induction false} CutByStart(ws: seq<Word>, at: nat) returns (k: nat)
    requires forall i, j :: 0 <= i < j < |ws| ==> ws[i].start < ws[j].start
    ensures k <= |ws| && (forall i :: 0 <= i < k ==> ws[i].start < at) && (forall i :: k <= i < |ws| ==> ws[i].start >= at)
  {
    if ws == [] || ws[0].start >= at {
      k := 0;
    } else {
      var more := CutByStart(ws[1..], at);
      k := more + 1;
      forall i | 0 <= i < k ensures ws[i].start < at { if i > 0 { assert ws[i] == ws[1..][i - 1]; } }
      forall i | k <= i < |ws| ensures ws[i].start >= at { assert ws[i] == ws[1..][i - 1]; }
    }
  }

  lemma FollowingIsBehind(sh: Shell, line: string, at: nat) returns (behind: seq<Word>)
    requires Words(sh, line).Some?
    ensures IsBehind(Words(sh, line).value, at, behind) && ValuesFrom(Words(sh, line).value, at) == Values(behind)
  {
    hide Lex;
    hide ValuesFrom;
    hide Trailing;
    var lexed := Lex(sh, line, 0).value;
    var t := Trailing(line, lexed);
    assert forall i :: 0 <= i < |t| ==> t[i].end == t[i].start by { TrailingIsEmpty(line, lexed); }
    LexBounds(sh, line, 0);
    forall i, j | 0 <= i < j < |lexed| ensures lexed[i].start < lexed[j].start { LexSeparates(sh, line, 0, i, j); }
    var k := CutByStart(lexed, at);
    var front := lexed[..k];
    behind := lexed[k..];
    assert lexed == front + behind;
    ValuesFromMiddle(front, behind, t, at);
  }

  lemma TrailingIsEmpty(line: string, ws: seq<Word>)
    ensures forall i :: 0 <= i < |Trailing(line, ws)| ==> Trailing(line, ws)[i].end == Trailing(line, ws)[i].start
  {
  }

  // The target of a successful parse is the last word of the text before the cursor,
  // extended to the end of the word of the line that starts there; that word's value is
  // remembered exactly if the cursor cut it.
  lemma TargetExactly(sh: Shell, line: string, cursor: nat, allowHome: bool)
    requires Parse(sh, line, cursor, allowHome).Some?
    ensures Words(sh, line).Some? && Words(sh, line[..cursor]).Some? && Words(sh, line[..cursor]).value != []
    ensures
      var ctx := Parse(sh, line, cursor, allowHome).value;
      var all, words := Words(sh, line).value, Words(sh, line[..cursor]).value;
      var last := words[|words| - 1];
      && ctx.target == last.(end := ctx.target.end)
      && (forall k :: 0 <= k < |all| && all[k].start == last.start ==>
            && ctx.target.end == all[k].end
            && ctx.fullWord == if all[k].value == last.value then None else Some(all[k].value))
      && (!Begins(all, last.start) ==> ctx.target.end == last.end && ctx.fullWord.None?)
  {
    hide Words;
    hide Utf8Length;
    hide Find;
    hide ValuesFrom;
    hide HomeIndices;
    hide Values;
    var all, words := Words(sh, line).value, Words(sh, line[..cursor]).value;
    var last := words[|words| - 1];
    WordsAreWellPlaced(sh, line);
    forall k | 0 <= k < |all| && all[k].start == last.start ensures Find(all, last.start) == Some(all[k]) { FindsTheWord(all, k); }
    if !Begins(all, last.start) { FindsNothing(all, last.start); }
  }

  // Its arguments are the words in front of the target, with the places of those that
  // start with a home mark, and the following ones are the words behind it.
  lemma SurroundingsExactly(sh: Shell, line: string, cursor: nat, allowHome: bool) returns (behind: seq<Word>)
    requires Parse(sh, line, cursor, allowHome).Some?
    ensures Words(sh, line).Some? && Words(sh, line[..cursor]).Some? && Words(sh, line[..cursor]).value != []
    ensures
      var ctx := Parse(sh, line, cursor, allowHome).value;
      var all, words := Words(sh, line).value, Words(sh, line[..cursor]).value;
      var before, last := words[..|words| - 1], words[|words| - 1];
      && ctx.arguments == Values(before) && ctx.following == Values(behind)
      && (forall n: nat :: n in ctx.homeArguments <==> n < |before| && before[n].home)
      && Increasing(ctx.homeArguments)
      && IsBehind(all, if Begins(all, last.start) then last.start + 1 else cursor, behind)
  {
    hide Words;
    hide Utf8Length;
    hide Find;
    hide ValuesFrom;
    hide HomeIndices;
    hide IsBehind;
    hide Values;
    var all, words := Words(sh, line).value, Words(sh, line[..cursor]).value;
    var before, last := words[..|words| - 1], words[|words| - 1];
    var ctx := Parse(sh, line, cursor, allowHome).value;
    assert ctx.homeArguments == HomeIndices(before, 0);
    forall n: nat ensures n in HomeIndices(before, 0) <==> n < |before| && before[n].home { HomeIsMarked(before, 0, n); }
    MarksIncrease(before, 0);
    WordsAreWellPlaced(sh, line);
    if Begins(all, last.start) {
      var k :| 0 <= k < |all| && all[k].start == last.start;
      FindsTheWord(all, k);
    } else {
      FindsNothing(all, last.start);
    }
    behind := FollowingIsBehind(sh, line, if Begins(all, last.start) then last.start + 1 else cursor);
  }

  // ---- literal argument vectors, by the grammar ----

  // The part is a closed word without a home mark.
  predicate IsLiteral(sh: Shell, part: ShellGrammar.Part) {
    && part.segments != [] && ShellGrammar.IsClosed(part.segments)
    && !(part.segments[0] == ShellGrammar.Bare('~') && (sh.syntax == Posix || sh.syntax == PowerShell))
  }

  lemma {:induction false} PartWordAt(syntax: ShellSyntax, parts: seq<ShellGrammar.Part>, at: nat, k: nat)
    requires (forall i :: 0 <= i < |parts| ==> parts[i].segments != []) && k < |parts|
    ensures |ShellGrammar.PartWords(syntax, parts, at)| == |parts|
    ensures exists start :: ShellGrammar.PartWords(syntax, parts, at)[k] == ShellGrammar.PartWord(syntax, parts[k], start)
    decreases |parts|
  {
    hide ShellGrammar.PartWord;
    ShellGrammar.OneWordEach(syntax, parts, at);
    if k > 0 {
      PartWordAt(syntax, parts[1..], at + |ShellGrammar.WordText(syntax, parts[0].segments)| + |parts[0].gap|, k - 1);
    }
  }

  // A trimmed line has no empty word at its end.
  lemma NoEmptyWord(line: string, ws: seq<Word>)
    ensures ShellGrammar.EmptyWord(Trim(line), ws) == []
    ensures Trim(line) != "" ==> !Blank(Trim(line)[0])
  {
    hide Trim;
    var before, after := TrimSplits(line);
  }

  lemma LiteralPart(sh: Shell, parts: seq<ShellGrammar.Part>, at: nat, k: nat)
    requires (forall i :: 0 <= i < |parts| ==> parts[i].segments != []) && k < |parts|
    ensures |ShellGrammar.PartWords(sh.syntax, parts, at)| == |parts|
    ensures
      var w := ShellGrammar.PartWords(sh.syntax, parts, at)[k];
      w.value == ShellGrammar.WordMeaning(sh.syntax, parts[k].segments) && (IsLiteral(sh, parts[k]) <==> w.closed && !w.home)
  {
    PartWordAt(sh.syntax, parts, at, k);
  }

  // A line has literal arguments exactly if it fits and, trimmed, is spelled by at most
  // 64 closed words without a home mark; they are what these words mean.
  lemma LiteralArgumentsExactly(sh: Shell, line: string, lead: string, parts: seq<ShellGrammar.Part>)
    requires ShellGrammar.Spells(sh, lead, parts, Trim(line))
    ensures LiteralArguments(sh, line).Some? <==>
            Utf8Length(line) <= 4096 && |parts| <= 64 && forall k :: 0 <= k < |parts| ==> IsLiteral(sh, parts[k])
    ensures LiteralArguments(sh, line).Some? ==>
              var args := LiteralArguments(sh, line).value;
              |args| == |parts| && forall k :: 0 <= k < |parts| ==> args[k] == ShellGrammar.WordMeaning(sh.syntax, parts[k].segments)
  {
    hide Words;
    hide Utf8Length;
    hide Trim;
    hide ShellGrammar.PartWords;
    hide ShellGrammar.Spells;
    hide ShellGrammar.WordMeaning;
    hide ShellGrammar.EmptyWord;
    hide IsLiteral;
    ShellGrammar.SpelledIsRead(sh, Trim(line), lead, parts);
    var ws := ShellGrammar.PartWords(sh.syntax, parts, |lead|);
    NoEmptyWord(line, ws);
    ShellGrammar.OneWordEach(sh.syntax, parts, |lead|);
    assert ws + [] == ws;
    forall k | 0 <= k < |parts|
      ensures ws[k].value == ShellGrammar.WordMeaning(sh.syntax, parts[k].segments) && (IsLiteral(sh, parts[k]) <==> ws[k].closed && !ws[k].home)
    {
      LiteralPart(sh, parts, |lead|, k);
    }
  }

  // ... and none if it is not spelled by any words.
  lemma NoLiteralArguments(sh: Shell, line: string)
    requires forall lead: string, parts: seq<ShellGrammar.Part> :: !ShellGrammar.Spells(sh, lead, parts, Trim(line))
    ensures LiteralArguments(sh, line).None?
  {
    hide Words;
    hide Trim;
    hide ShellGrammar.Spells;
    ShellGrammar.WordsReadExactly(sh, Trim(line));
  }
}
