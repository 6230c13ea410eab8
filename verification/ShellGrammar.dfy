// What the four dialects let a word be, written down without a scanner
// (nebula-completions/src/command_context.rs; for POSIX, sections 2.2.1 to 2.2.3 of
// the POSIX.1-2017 Shell Command Language).
//
// A word is a list of segments, a line is words between blanks, and each has a text
// and a meaning. The theorem is that the scanner reads exactly the texts of these
// lines, with exactly these meanings, and refuses every other text.
module ShellGrammar {
  import opened Text
  import opened ShellScanner
  import opened ShellWordLaws

  // One character inside quotes: itself, behind the dialect's escape, or a doubled quote.
  datatype Item = Raw(c: char) | Escaped(c: char) | Doubled

  datatype Segment =
    | Bare(c: char)
    | Backed(c: char)                           // behind the dialect's escape
    | Quoted(mark: char, items: seq<Item>)
    | Unclosed(mark: char, items: seq<Item>)    // reaches the end of the line

  // ---- the dialects ----

  function EscapeMark(syntax: ShellSyntax): string {
    match syntax case Posix => "\\" case PowerShell => "`" case Cmd => "" case Literal => ""
  }

  function QuoteMarks(syntax: ShellSyntax): string {
    match syntax case Posix => "'\"" case PowerShell => "'\"" case Cmd => "\"" case Literal => ""
  }

  // Marks of an expansion, outside quotes and inside double quotes alike.
  function ExpansionMarks(syntax: ShellSyntax): string {
    match syntax case Posix => "$`" case PowerShell => "$`" case Cmd => "%!^" case Literal => ""
  }

  predicate Printable(c: char) { 0x20 <= c as int < 0x7f || 0xa0 <= c as int }

  // An escape takes any printable character, in PowerShell no ASCII letter or digit.
  predicate CanBeEscaped(syntax: ShellSyntax, c: char) {
    && EscapeMark(syntax) != "" && Printable(c)
    && (syntax == PowerShell ==> !('0' <= c <= '9' || 'a' <= c <= 'z' || 'A' <= c <= 'Z'))
  }

  // Outside quotes: no blank, operator, glob, comment, quote, escape or expansion.
  predicate CanBeBare(sh: Shell, c: char) {
    && Printable(c)
    && c !in " \t;|&<>(){}[]*?#'\"" && c !in EscapeMark(sh.syntax) && c !in ExpansionMarks(sh.syntax)
    && (sh.syntax == Literal ==> sh.alphanumeric(c) || c in "/._-:=")
  }

  // Single quotes take everything printable but themselves; double quotes leave
  // escapes and expansions active.
  predicate CanBeRaw(syntax: ShellSyntax, mark: char, c: char) {
    && Printable(c) && c != mark
    && (mark == '"' ==> c !in EscapeMark(syntax) && c !in ExpansionMarks(syntax))
  }

  predicate ItemFits(syntax: ShellSyntax, mark: char, item: Item) {
    match item
    case Raw(c) => CanBeRaw(syntax, mark, c)
    case Escaped(c) => mark == '"' && CanBeEscaped(syntax, c)
    case Doubled => syntax == PowerShell
  }

  predicate SegmentFits(sh: Shell, segment: Segment) {
    match segment
    case Bare(c) => CanBeBare(sh, c)
    case Backed(c) => CanBeEscaped(sh.syntax, c)
    case Quoted(mark, items) => mark in QuoteMarks(sh.syntax) && forall i :: 0 <= i < |items| ==> ItemFits(sh.syntax, mark, items[i])
    case Unclosed(mark, items) => mark in QuoteMarks(sh.syntax) && forall i :: 0 <= i < |items| ==> ItemFits(sh.syntax, mark, items[i])
  }

  predicate OpensWith(segment: Segment, mark: char) {
    (segment.Quoted? || segment.Unclosed?) && segment.mark == mark
  }

  // Segments in a row: only the last may be unclosed, and in PowerShell two quoted
  // runs with the same mark do not touch, because that would be a doubled mark.
  predicate Fits(sh: Shell, segments: seq<Segment>) {
    && (forall k :: 0 <= k < |segments| ==> SegmentFits(sh, segments[k]))
    && (forall k :: 0 <= k < |segments| - 1 ==> !segments[k].Unclosed?)
    && (forall k :: 0 <= k < |segments| - 1 && sh.syntax == PowerShell && segments[k].Quoted? ==> !OpensWith(segments[k + 1], segments[k].mark))
  }

  // ---- texts ----

  function ItemText(syntax: ShellSyntax, mark: char, item: Item): string {
    match item
    case Raw(c) => [c]
    case Escaped(c) => EscapeMark(syntax) + [c]
    case Doubled => [mark, mark]
  }

  function ItemsText(syntax: ShellSyntax, mark: char, items: seq<Item>): string {
    if items == [] then "" else ItemText(syntax, mark, items[0]) + ItemsText(syntax, mark, items[1..])
  }

  function SegmentText(syntax: ShellSyntax, segment: Segment): string {
    match segment
    case Bare(c) => [c]
    case Backed(c) => EscapeMark(syntax) + [c]
    case Quoted(mark, items) => [mark] + ItemsText(syntax, mark, items) + [mark]
    case Unclosed(mark, items) => [mark] + ItemsText(syntax, mark, items)
  }

  function WordText(syntax: ShellSyntax, segments: seq<Segment>): string {
    if segments == [] then "" else SegmentText(syntax, segments[0]) + WordText(syntax, segments[1..])
  }

  // ---- meanings ----

  // POSIX double quotes keep the backslash in front of an ordinary character.
  function ItemMeaning(syntax: ShellSyntax, mark: char, item: Item): string {
    match item
    case Raw(c) => [c]
    case Escaped(c) => if syntax == Posix && c !in "$`\"\\" then ['\\', c] else [c]
    case Doubled => [mark]
  }

  function ItemsMeaning(syntax: ShellSyntax, mark: char, items: seq<Item>): string {
    if items == [] then "" else ItemMeaning(syntax, mark, items[0]) + ItemsMeaning(syntax, mark, items[1..])
  }

  function SegmentMeaning(syntax: ShellSyntax, segment: Segment): string {
    match segment
    case Bare(c) => [c]
    case Backed(c) => [c]
    case Quoted(mark, items) => ItemsMeaning(syntax, mark, items)
    case Unclosed(mark, items) => ItemsMeaning(syntax, mark, items)
  }

  function WordMeaning(syntax: ShellSyntax, segments: seq<Segment>): string {
    if segments == [] then "" else SegmentMeaning(syntax, segments[0]) + WordMeaning(syntax, segments[1..])
  }

  // ---- lines ----

  // A word and the blanks behind it.
  datatype Part = Part(segments: seq<Segment>, gap: string)

  predicate AllBlank(s: string) { forall i :: 0 <= i < |s| ==> s[i] in " \t" }

  predicate IsClosed(segments: seq<Segment>) {
    segments != [] ==> !segments[|segments| - 1].Unclosed?
  }

  // Words are nonempty; only the last one may be unclosed or lack blanks behind it.
  predicate LineFits(sh: Shell, parts: seq<Part>) {
    && (forall k :: 0 <= k < |parts| ==> parts[k].segments != [] && Fits(sh, parts[k].segments) && AllBlank(parts[k].gap))
    && (forall k :: 0 <= k < |parts| - 1 ==> parts[k].gap != "")
    && (forall k :: 0 <= k < |parts| && !IsClosed(parts[k].segments) ==> parts[k].gap == "")
  }

  function PartsText(syntax: ShellSyntax, parts: seq<Part>): string {
    if parts == [] then ""
    else WordText(syntax, parts[0].segments) + parts[0].gap + PartsText(syntax, parts[1..])
  }

  // The word a part stands for when it begins at a position.
  function PartWord(syntax: ShellSyntax, part: Part, at: nat): Word
    requires part.segments != []
  {
    var first := part.segments[0];
    Word(WordMeaning(syntax, part.segments), at, at + |WordText(syntax, part.segments)|,
         if first.Quoted? || first.Unclosed? then Some(first.mark) else None,
         IsClosed(part.segments),
         first == Bare('~') && (syntax == Posix || syntax == PowerShell))
  }

  function PartWords(syntax: ShellSyntax, parts: seq<Part>, at: nat): seq<Word>
    requires forall k :: 0 <= k < |parts| ==> parts[k].segments != []
  {
    if parts == [] then []
    else [PartWord(syntax, parts[0], at)]
         + PartWords(syntax, parts[1..], at + |WordText(syntax, parts[0].segments)| + |parts[0].gap|)
  }

  // The line spelled by blanks and parts.
  ghost predicate Spells(sh: Shell, lead: string, parts: seq<Part>, line: string) {
    AllBlank(lead) && LineFits(sh, parts) && line == lead + PartsText(sh.syntax, parts)
  }

  // An empty word is open for editing behind a line whose last character is a blank,
  // unless an unclosed quote swallowed it.
  function EmptyWord(line: string, ws: seq<Word>): seq<Word> {
    if line != "" && line[|line| - 1] in " \t" && (ws != [] ==> ws[|ws| - 1].closed)
    then [Word("", |line|, |line|, None, true, false)] else []
  }

  // ---- the characters of the scanner ----

  lemma SameCharacters(sh: Shell, c: char)
    ensures Printable(c) == !IsControl(c)
    ensures (c in " \t") == Blank(c)
    ensures (c in "/._-:=") == PathPunctuation(c)
    ensures (c in QuoteMarks(sh.syntax)) == Quotes(sh.syntax, c)
  {
  }

  lemma SameEscapes(sh: Shell, mark: char, c: char)
    requires mark == '\'' || mark == '"'
    ensures (c in EscapeMark(sh.syntax)) == Escapes(sh.syntax, None, c)
    ensures (mark == '"' && c in EscapeMark(sh.syntax)) == Escapes(sh.syntax, Some(mark), c)
    ensures EscapeMark(sh.syntax) != "" ==> CanBeEscaped(sh.syntax, c) == Escapable(sh.syntax, c)
    ensures c in EscapeMark(sh.syntax) ==> EscapeMark(sh.syntax) == [c]
  {
  }

  lemma SameOperators(c: char)
    ensures c in " \t;|&<>(){}[]*?#'\"" <==> Blank(c) || Operator(c)
  {
  }

  lemma SameBare(sh: Shell, c: char)
    ensures CanBeBare(sh, c) <==> !Blank(c) && !Quotes(sh.syntax, c) && !Escapes(sh.syntax, None, c) && Plain(sh, None, c)
  {
    SameCharacters(sh, c);
    SameEscapes(sh, '"', c);
    SameOperators(c);
  }

  lemma SameRaw(sh: Shell, mark: char, c: char)
    requires mark in QuoteMarks(sh.syntax)
    ensures CanBeRaw(sh.syntax, mark, c) <==> c != mark && !Escapes(sh.syntax, Some(mark), c) && Plain(sh, Some(mark), c)
  {
    SameCharacters(sh, c);
    SameEscapes(sh, mark, c);
  }

  // ---- from segments to the scanner ----

  lemma BareIsRead(sh: Shell, c: char, rest: string)
    requires CanBeBare(sh, c)
    ensures Step(sh, [c] + rest, None) == Take([c], 1, None)
  {
    SameBare(sh, c);
  }

  lemma BackedIsRead(sh: Shell, c: char, rest: string)
    requires CanBeEscaped(sh.syntax, c)
    ensures Step(sh, EscapeMark(sh.syntax) + [c] + rest, None) == Take([c], 2, None)
  {
    var s := EscapeMark(sh.syntax) + [c] + rest;
    assert s[0] == EscapeMark(sh.syntax)[0] && s[1] == c;
    SameEscapes(sh, '"', s[0]);
    SameEscapes(sh, '"', c);
  }

  lemma ItemIsRead(sh: Shell, mark: char, item: Item, rest: string)
    requires mark in QuoteMarks(sh.syntax) && ItemFits(sh.syntax, mark, item)
    ensures ItemText(sh.syntax, mark, item) != []
    ensures Step(sh, ItemText(sh.syntax, mark, item) + rest, Some(mark)) ==
            Take(ItemMeaning(sh.syntax, mark, item), |ItemText(sh.syntax, mark, item)|, Some(mark))
  {
    var s := ItemText(sh.syntax, mark, item) + rest;
    match item
    case Raw(c) =>
      SameRaw(sh, mark, c);
    case Escaped(c) =>
      assert s[0] == EscapeMark(sh.syntax)[0] && s[1] == c;
      SameEscapes(sh, mark, s[0]);
      SameEscapes(sh, mark, c);
    case Doubled =>
      assert s[0] == mark && s[1] == mark;
  }

  lemma {:induction false} ItemsAreRead(sh: Shell, mark: char, items: seq<Item>, rest: string)
    requires mark in QuoteMarks(sh.syntax) && forall i :: 0 <= i < |items| ==> ItemFits(sh.syntax, mark, items[i])
    ensures
      var text := ItemsText(sh.syntax, mark, items);
      Body(sh, text + rest, Some(mark)) == Prefixed(ItemsMeaning(sh.syntax, mark, items), |text|, Body(sh, rest, Some(mark)))
  {
    hide Body;
    hide Step;
    hide ItemFits;
    hide ItemText;
    hide ItemMeaning;
    var text := ItemsText(sh.syntax, mark, items);
    if items == [] {
      assert text + rest == rest;
      PrefixedNothing(Body(sh, rest, Some(mark)));
    } else {
      var first, more := ItemText(sh.syntax, mark, items[0]), ItemsText(sh.syntax, mark, items[1..]);
      assert text + rest == first + (more + rest);
      ItemIsRead(sh, mark, items[0], more + rest);
      assert (first + (more + rest))[|first|..] == more + rest;
      BodyAt(sh, text + rest, Some(mark), Take(ItemMeaning(sh.syntax, mark, items[0]), |first|, Some(mark)), more + rest);
      ItemsAreRead(sh, mark, items[1..], rest);
      PrefixedTwice(ItemMeaning(sh.syntax, mark, items[0]), |first|, ItemsMeaning(sh.syntax, mark, items[1..]), |more|, Body(sh, rest, Some(mark)));
    }
  }

  lemma OpeningIsRead(sh: Shell, mark: char, rest: string)
    requires mark in QuoteMarks(sh.syntax)
    ensures Body(sh, [mark] + rest, None) == Prefixed("", 1, Body(sh, rest, Some(mark)))
  {
    hide Body;
    SameCharacters(sh, mark);
    assert ([mark] + rest)[1..] == rest;
    BodyAt(sh, [mark] + rest, None, Take("", 1, Some(mark)), rest);
  }

  lemma ClosingIsRead(sh: Shell, mark: char, rest: string)
    requires sh.syntax == PowerShell && rest != [] ==> rest[0] != mark
    ensures Body(sh, [mark] + rest, Some(mark)) == Prefixed("", 1, Body(sh, rest, None))
  {
    hide Body;
    assert ([mark] + rest)[1..] == rest;
    BodyAt(sh, [mark] + rest, Some(mark), Take("", 1, None), rest);
  }

  lemma SegmentTextStarts(sh: Shell, segment: Segment)
    requires SegmentFits(sh, segment)
    ensures
      var text := SegmentText(sh.syntax, segment);
      && text != [] && !Blank(text[0])
      && Opening(sh, text[0]) == (if segment.Quoted? || segment.Unclosed? then Some(segment.mark) else None)
      && (text[0] == '~' <==> segment == Bare('~'))
  {
    hide ItemsText;
    match segment
    case Bare(c) => SameBare(sh, c);
    case Backed(c) => SameEscapes(sh, '"', EscapeMark(sh.syntax)[0]);
    case Quoted(mark, items) => SameCharacters(sh, mark);
    case Unclosed(mark, items) => SameCharacters(sh, mark);
  }

  lemma QuotedIsRead(sh: Shell, mark: char, items: seq<Item>, rest: string)
    requires SegmentFits(sh, Quoted(mark, items))
    requires sh.syntax == PowerShell && rest != [] ==> rest[0] != mark
    ensures
      var text := [mark] + ItemsText(sh.syntax, mark, items) + [mark];
      Body(sh, text + rest, None) == Prefixed(ItemsMeaning(sh.syntax, mark, items), |text|, Body(sh, rest, None))
  {
    hide Body;
    hide ItemsText;
    hide ItemsMeaning;
    hide ItemFits;
    hide QuoteMarks;
    var inner, meaning := ItemsText(sh.syntax, mark, items), ItemsMeaning(sh.syntax, mark, items);
    var tail := [mark] + rest;
    assert [mark] + inner + [mark] + rest == [mark] + (inner + tail);
    OpeningIsRead(sh, mark, inner + tail);
    ItemsAreRead(sh, mark, items, tail);
    ClosingIsRead(sh, mark, rest);
    PrefixedTwice(meaning, |inner|, "", 1, Body(sh, rest, None));
    PrefixedTwice("", 1, meaning + "", |inner| + 1, Body(sh, rest, None));
    assert "" + (meaning + "") == meaning;
  }

  lemma UnclosedIsRead(sh: Shell, mark: char, items: seq<Item>)
    requires SegmentFits(sh, Unclosed(mark, items))
    ensures
      var text := [mark] + ItemsText(sh.syntax, mark, items);
      Body(sh, text, None) == Stop(ItemsMeaning(sh.syntax, mark, items), |text|, false)
  {
    hide Body;
    hide ItemsText;
    hide ItemsMeaning;
    hide ItemFits;
    hide QuoteMarks;
    var inner, meaning := ItemsText(sh.syntax, mark, items), ItemsMeaning(sh.syntax, mark, items);
    OpeningIsRead(sh, mark, inner);
    assert inner + [] == inner;
    ItemsAreRead(sh, mark, items, []);
    BodyOfNothing(sh, Some(mark));
    assert "" + (meaning + "") == meaning;
  }

  // A closed segment is read as its meaning, whatever follows that does not double
  // its mark.
  lemma SegmentIsRead(sh: Shell, segment: Segment, rest: string)
    requires SegmentFits(sh, segment) && !segment.Unclosed?
    requires segment.Quoted? && sh.syntax == PowerShell && rest != [] ==> rest[0] != segment.mark
    ensures
      var text := SegmentText(sh.syntax, segment);
      Body(sh, text + rest, None) == Prefixed(SegmentMeaning(sh.syntax, segment), |text|, Body(sh, rest, None))
  {
    hide Body;
    hide Step;
    hide CanBeBare;
    hide CanBeEscaped;
    match segment
    case Bare(c) =>
      BareIsRead(sh, c, rest);
      assert ([c] + rest)[1..] == rest;
      BodyAt(sh, [c] + rest, None, Take([c], 1, None), rest);
    case Backed(c) =>
      BackedIsRead(sh, c, rest);
      var s := EscapeMark(sh.syntax) + [c] + rest;
      assert |EscapeMark(sh.syntax)| == 1 by { EscapeIsOneMark(sh, c); }
      assert s[2..] == rest;
      BodyAt(sh, s, None, Take([c], 2, None), rest);
    case Quoted(mark, items) =>
      QuotedIsRead(sh, mark, items, rest);
  }

  lemma EscapeIsOneMark(sh: Shell, c: char)
    requires CanBeEscaped(sh.syntax, c)
    ensures |EscapeMark(sh.syntax)| == 1
  {
  }

  lemma FitsTail(sh: Shell, segments: seq<Segment>)
    requires segments != [] && Fits(sh, segments)
    ensures SegmentFits(sh, segments[0]) && Fits(sh, segments[1..])
    ensures IsClosed(segments) ==> IsClosed(segments[1..])
    ensures |segments| > 1 ==> IsClosed(segments) == IsClosed(segments[1..]) && !segments[0].Unclosed?
  {
    hide SegmentFits;
    var rest := segments[1..];
    forall k | 0 <= k < |rest| ensures SegmentFits(sh, rest[k]) { assert rest[k] == segments[k + 1]; }
    forall k | 0 <= k < |rest| - 1
      ensures !rest[k].Unclosed? && (sh.syntax == PowerShell && rest[k].Quoted? ==> !OpensWith(rest[k + 1], rest[k].mark))
    {
      assert rest[k] == segments[k + 1] && rest[k + 1] == segments[k + 2];
    }
  }

  // What stands behind a segment does not double its mark.
  lemma NotDoubled(sh: Shell, segments: seq<Segment>, rest: string)
    requires segments != [] && Fits(sh, segments)
    requires rest == [] || Blank(rest[0])
    ensures
      var tail := WordText(sh.syntax, segments[1..]) + rest;
      segments[0].Quoted? && sh.syntax == PowerShell && tail != [] ==> tail[0] != segments[0].mark
  {
    hide ItemsText;
    var tail := WordText(sh.syntax, segments[1..]) + rest;
    if segments[0].Quoted? && sh.syntax == PowerShell {
      assert SegmentFits(sh, segments[0]);
      SameCharacters(sh, segments[0].mark);
      if |segments| > 1 {
        SegmentTextStarts(sh, segments[1]);
        assert segments[1..][0] == segments[1];
        assert tail[0] == SegmentText(sh.syntax, segments[1])[0];
      } else {
        assert tail == rest;
      }
    }
  }

  lemma {:induction false} WordIsRead(sh: Shell, segments: seq<Segment>, rest: string)
    requires Fits(sh, segments)
    requires if IsClosed(segments) then rest == [] || Blank(rest[0]) else rest == []
    ensures
      var text := WordText(sh.syntax, segments);
      Body(sh, text + rest, None) == Stop(WordMeaning(sh.syntax, segments), |text|, IsClosed(segments))
    decreases |segments|
  {
    hide Body;
    hide SegmentFits;
    hide SegmentText;
    hide SegmentMeaning;
    hide Fits;
    var text := WordText(sh.syntax, segments);
    if segments == [] {
      assert text + rest == rest;
      BodyStopsAt(sh, rest);
    } else {
      FitsTail(sh, segments);
      var first, more := SegmentText(sh.syntax, segments[0]), WordText(sh.syntax, segments[1..]);
      if segments[0].Unclosed? {
        assert segments[1..] == [] && more == "" && text + rest == first;
        UnclosedWordIsRead(sh, segments[0]);
        assert SegmentMeaning(sh.syntax, segments[0]) + "" == SegmentMeaning(sh.syntax, segments[0]);
        assert |text| == |first|;
      } else {
        assert text + rest == first + (more + rest);
        NotDoubled(sh, segments, rest);
        SegmentIsRead(sh, segments[0], more + rest);
        if |segments| == 1 { assert segments[1..] == []; }
        WordIsRead(sh, segments[1..], rest);
      }
    }
  }

  lemma UnclosedWordIsRead(sh: Shell, segment: Segment)
    requires segment.Unclosed? && SegmentFits(sh, segment)
    ensures
      var text := SegmentText(sh.syntax, segment);
      Body(sh, text, None) == Stop(SegmentMeaning(sh.syntax, segment), |text|, false)
  {
    hide Body;
    UnclosedIsRead(sh, segment.mark, segment.items);
  }

  lemma BodyStopsAt(sh: Shell, rest: string)
    requires rest == [] || Blank(rest[0])
    ensures Body(sh, rest, None) == Stop("", 0, true)
  {
  }

  lemma {:induction false} BlanksAreSkipped(sh: Shell, gap: string, rest: string, base: nat)
    requires AllBlank(gap)
    ensures Lex(sh, gap + rest, base) == Lex(sh, rest, base + |gap|)
  {
    hide Lex;
    hide Body;
    if gap == [] {
      assert gap + rest == rest;
    } else {
      SameCharacters(sh, gap[0]);
      assert (gap + rest)[0] == gap[0] && (gap + rest)[1..] == gap[1..] + rest;
      LexUnfolds(sh, gap + rest, base);
      BlanksAreSkipped(sh, gap[1..], rest, base + 1);
    }
  }

  lemma WordTextStarts(sh: Shell, segments: seq<Segment>)
    requires segments != [] && Fits(sh, segments)
    ensures
      var text, first := WordText(sh.syntax, segments), segments[0];
      && text != [] && !Blank(text[0])
      && Opening(sh, text[0]) == (if first.Quoted? || first.Unclosed? then Some(first.mark) else None)
      && MarksHome(sh, text[0]) == (first == Bare('~') && (sh.syntax == Posix || sh.syntax == PowerShell))
  {
    hide SegmentText;
    assert SegmentFits(sh, segments[0]);
    SegmentTextStarts(sh, segments[0]);
    assert WordText(sh.syntax, segments)[0] == SegmentText(sh.syntax, segments[0])[0];
  }

  lemma LineTail(sh: Shell, parts: seq<Part>)
    requires parts != [] && LineFits(sh, parts)
    ensures LineFits(sh, parts[1..]) && AllBlank(parts[0].gap) && Fits(sh, parts[0].segments) && parts[0].segments != []
    ensures
      var rest := parts[0].gap + PartsText(sh.syntax, parts[1..]);
      if IsClosed(parts[0].segments) then rest == [] || Blank(rest[0]) else rest == []
  {
    hide Fits;
    hide IsClosed;
    var more := parts[1..];
    forall k | 0 <= k < |more|
      ensures more[k].segments != [] && Fits(sh, more[k].segments) && AllBlank(more[k].gap)
              && (k < |more| - 1 ==> more[k].gap != "") && (!IsClosed(more[k].segments) ==> more[k].gap == "")
    {
      assert more[k] == parts[k + 1];
    }
    if parts[0].gap == "" {
      assert more == [];
    } else {
      SameCharacters(sh, parts[0].gap[0]);
    }
  }

  lemma PartIsRead(sh: Shell, part: Part, rest: string, base: nat)
    requires part.segments != [] && Fits(sh, part.segments)
    requires if IsClosed(part.segments) then rest == [] || Blank(rest[0]) else rest == []
    ensures
      var text := WordText(sh.syntax, part.segments);
      Lex(sh, text + rest, base) == Joined([PartWord(sh.syntax, part, base)], Lex(sh, rest, base + |text|))
  {
    hide Lex;
    hide Body;
    hide Fits;
    hide WordText;
    hide WordMeaning;
    hide MarksHome;
    hide Opening;
    var text := WordText(sh.syntax, part.segments);
    WordTextStarts(sh, part.segments);
    WordIsRead(sh, part.segments, rest);
    assert (text + rest)[0] == text[0] && (text + rest)[|text|..] == rest;
    LexUnfolds(sh, text + rest, base);
  }

  lemma {:induction false} PartsAreRead(sh: Shell, parts: seq<Part>, base: nat)
    requires LineFits(sh, parts)
    ensures Lex(sh, PartsText(sh.syntax, parts), base) == Some(PartWords(sh.syntax, parts, base))
    decreases |parts|
  {
    hide Lex;
    hide LineFits;
    hide Fits;
    hide WordText;
    hide PartWord;
    hide AllBlank;
    hide IsClosed;
    assert forall k :: 0 <= k < |parts| ==> parts[k].segments != [] by { PartsHaveSegments(sh, parts); }
    if parts == [] {
      LexEmpty(sh, base);
    } else {
      LineTail(sh, parts);
      var text, gap, more := WordText(sh.syntax, parts[0].segments), parts[0].gap, PartsText(sh.syntax, parts[1..]);
      assert PartsText(sh.syntax, parts) == text + (gap + more);
      PartIsRead(sh, parts[0], gap + more, base);
      BlanksAreSkipped(sh, gap, more, base + |text|);
      PartsAreRead(sh, parts[1..], base + |text| + |gap|);
    }
  }

  lemma PartsHaveSegments(sh: Shell, parts: seq<Part>)
    requires LineFits(sh, parts)
    ensures forall k :: 0 <= k < |parts| ==> parts[k].segments != []
  {
    hide Fits;
  }

  // ---- from the scanner to segments ----

  // The segments account for the word at the start of `s`.
  ghost predicate ReadAs(sh: Shell, s: string, scan: Scan, segments: seq<Segment>) {
    && scan.Stop? && scan.length <= |s| && Fits(sh, segments)
    && WordText(sh.syntax, segments) == s[..scan.length] && WordMeaning(sh.syntax, segments) == scan.value
    && IsClosed(segments) == scan.closed
  }

  // ... when it starts inside quotes: items, and behind a closing mark segments.
  ghost predicate InsideAs(sh: Shell, s: string, mark: char, scan: Scan, items: seq<Item>, rest: Option<seq<Segment>>) {
    && scan.Stop? && scan.length <= |s| && (forall i :: 0 <= i < |items| ==> ItemFits(sh.syntax, mark, items[i]))
    && match rest
       case None =>
         && ItemsText(sh.syntax, mark, items) == s[..scan.length] && ItemsMeaning(sh.syntax, mark, items) == scan.value
         && !scan.closed
       case Some(segments) =>
         && ItemsText(sh.syntax, mark, items) + [mark] + WordText(sh.syntax, segments) == s[..scan.length]
         && ItemsMeaning(sh.syntax, mark, items) + WordMeaning(sh.syntax, segments) == scan.value
         && Fits(sh, segments) && IsClosed(segments) == scan.closed
         && (sh.syntax == PowerShell && segments != [] ==> !OpensWith(segments[0], mark))
  }

  lemma FitsCons(sh: Shell, segment: Segment, segments: seq<Segment>)
    requires SegmentFits(sh, segment) && Fits(sh, segments) && (segment.Unclosed? ==> segments == [])
    requires sh.syntax == PowerShell && segment.Quoted? && segments != [] ==> !OpensWith(segments[0], segment.mark)
    ensures Fits(sh, [segment] + segments)
    ensures IsClosed([segment] + segments) == (!segment.Unclosed? && IsClosed(segments))
  {
    hide SegmentFits;
    var all := [segment] + segments;
    forall k | 0 <= k < |all| ensures SegmentFits(sh, all[k]) && (k < |all| - 1 ==> !all[k].Unclosed?) {
      if k > 0 { assert all[k] == segments[k - 1]; }
    }
    forall k | 0 <= k < |all| - 1 && sh.syntax == PowerShell && all[k].Quoted? ensures !OpensWith(all[k + 1], all[k].mark) {
      if k > 0 { assert all[k] == segments[k - 1] && all[k + 1] == segments[k]; }
    }
  }

  // One more segment in front of a word.
  lemma ReadCons(sh: Shell, s: string, width: nat, segment: Segment, scan: Scan, segments: seq<Segment>)
    requires width <= |s| && ReadAs(sh, s[width..], scan, segments)
    requires SegmentFits(sh, segment) && !segment.Unclosed? && SegmentText(sh.syntax, segment) == s[..width]
    requires sh.syntax == PowerShell && segment.Quoted? && segments != [] ==> !OpensWith(segments[0], segment.mark)
    ensures ReadAs(sh, s, Prefixed(SegmentMeaning(sh.syntax, segment), width, scan), [segment] + segments)
  {
    hide SegmentFits;
    hide SegmentText;
    hide SegmentMeaning;
    hide Fits;
    hide IsClosed;
    var all := [segment] + segments;
    FitsCons(sh, segment, segments);
    assert all[1..] == segments;
    assert s[..width] + s[width..][..scan.length] == s[..width + scan.length];
  }

  // The moves of the scanner outside quotes.
  lemma OutsideMoves(sh: Shell, s: string)
    requires s != [] && Step(sh, s, None).Take?
    ensures
      var m := Step(sh, s, None);
      || (CanBeBare(sh, s[0]) && m == Take([s[0]], 1, None))
      || (|s| > 1 && EscapeMark(sh.syntax) == [s[0]] && CanBeEscaped(sh.syntax, s[1]) && m == Take([s[1]], 2, None))
      || (s[0] in QuoteMarks(sh.syntax) && m == Take("", 1, Some(s[0])))
  {
    SameBare(sh, s[0]);
    SameCharacters(sh, s[0]);
    SameEscapes(sh, '"', s[0]);
    if |s| > 1 { SameEscapes(sh, '"', s[1]); }
  }

  // ... and inside.
  lemma InsideMoves(sh: Shell, s: string, mark: char)
    requires s != [] && mark in QuoteMarks(sh.syntax) && Step(sh, s, Some(mark)).Take?
    ensures
      var m := Step(sh, s, Some(mark));
      || (s[0] == mark && (sh.syntax == PowerShell && |s| > 1 ==> s[1] != mark) && m == Take("", 1, None))
      || exists item ::
           && ItemFits(sh.syntax, mark, item) && ItemText(sh.syntax, mark, item) == s[..m.width]
           && m == Take(ItemMeaning(sh.syntax, mark, item), m.width, Some(mark))
  {
    var m := Step(sh, s, Some(mark));
    SameRaw(sh, mark, s[0]);
    SameEscapes(sh, mark, s[0]);
    if |s| > 1 { SameEscapes(sh, mark, s[1]); }
    if m.quote == Some(mark) {
      var item := if s[0] == mark then Doubled else if m.width == 2 then Escaped(s[1]) else Raw(s[0]);
      if m.width == 2 { assert s[..2] == [s[0], s[1]]; } else { assert s[..1] == [s[0]]; }
      assert ItemFits(sh.syntax, mark, item) && ItemText(sh.syntax, mark, item) == s[..m.width];
    }
  }

  lemma {:induction false} SegmentsFound(sh: Shell, s: string) returns (segments: seq<Segment>)
    requires Body(sh, s, None).Stop?
    ensures ReadAs(sh, s, Body(sh, s, None), segments)
    decreases |s|
  {
    hide Body;
    hide Step;
    hide ReadAs;
    hide InsideAs;
    hide CanBeBare;
    hide CanBeEscaped;
    if s == [] || Step(sh, s, None).Halt? {
      segments := [];
      NothingRead(sh, s);
    } else {
      BodyUnfolds(sh, s, None);
      OutsideMoves(sh, s);
      var m := Step(sh, s, None);
      if m.quote.None? {
        var segment := if m.width == 1 then Bare(s[0]) else Backed(s[1]);
        var more := SegmentsFound(sh, s[m.width..]);
        if m.width == 2 { assert s[..2] == [s[0]] + [s[1]]; } else { assert s[..1] == [s[0]]; }
        ReadCons(sh, s, m.width, segment, Body(sh, s[m.width..], None), more);
        segments := [segment] + more;
      } else {
        var items, rest := InsideFound(sh, s[1..], s[0]);
        segments := QuotesFound(sh, s, items, rest);
      }
    }
  }

  lemma NothingRead(sh: Shell, s: string)
    requires s == [] || Step(sh, s, None).Halt?
    ensures ReadAs(sh, s, Body(sh, s, None), [])
  {
    BodyStopsAt(sh, s);
  }

  lemma {:induction false} InsideFound(sh: Shell, s: string, mark: char) returns (items: seq<Item>, rest: Option<seq<Segment>>)
    requires mark in QuoteMarks(sh.syntax) && Body(sh, s, Some(mark)).Stop?
    ensures InsideAs(sh, s, mark, Body(sh, s, Some(mark)), items, rest)
    decreases |s|
  {
    hide Body;
    hide Step;
    hide ReadAs;
    hide InsideAs;
    hide ItemFits;
    hide ItemText;
    hide ItemMeaning;
    if s == [] {
      items, rest := [], None;
      OpenAtEnd(sh, mark);
    } else {
      BodyUnfolds(sh, s, Some(mark));
      InsideMoves(sh, s, mark);
      var m := Step(sh, s, Some(mark));
      if m.quote.None? {
        var segments := SegmentsFound(sh, s[1..]);
        items, rest := [], Some(segments);
        ClosedHere(sh, s, mark, Body(sh, s[1..], None), segments);
      } else {
        var item :| && ItemFits(sh.syntax, mark, item) && ItemText(sh.syntax, mark, item) == s[..m.width]
                    && m == Take(ItemMeaning(sh.syntax, mark, item), m.width, Some(mark));
        items, rest := InsideFound(sh, s[m.width..], mark);
        InsideCons(sh, s, m.width, mark, item, Body(sh, s[m.width..], Some(mark)), items, rest);
        items := [item] + items;
      }
    }
  }

  lemma OpenAtEnd(sh: Shell, mark: char)
    ensures InsideAs(sh, [], mark, Body(sh, [], Some(mark)), [], None)
  {
  }

  lemma ClosedHere(sh: Shell, s: string, mark: char, scan: Scan, segments: seq<Segment>)
    requires s != [] && s[0] == mark && mark in QuoteMarks(sh.syntax) && (sh.syntax == PowerShell && |s| > 1 ==> s[1] != mark)
    requires ReadAs(sh, s[1..], scan, segments)
    ensures InsideAs(sh, s, mark, Prefixed("", 1, scan), [], Some(segments))
  {
    hide Fits;
    hide IsClosed;
    hide SegmentFits;
    hide WordText;
    hide WordMeaning;
    hide ItemFits;
    var text := WordText(sh.syntax, segments);
    assert "" + [mark] + text == s[..1 + scan.length];
    assert "" + WordMeaning(sh.syntax, segments) == scan.value;
    if sh.syntax == PowerShell && segments != [] {
      WordTextStarts(sh, segments);
      assert text[0] == s[1..][0] == s[1];
    }
  }

  lemma InsideCons(sh: Shell, s: string, width: nat, mark: char, item: Item, scan: Scan, items: seq<Item>, rest: Option<seq<Segment>>)
    requires width <= |s| && InsideAs(sh, s[width..], mark, scan, items, rest)
    requires ItemFits(sh.syntax, mark, item) && ItemText(sh.syntax, mark, item) == s[..width]
    ensures InsideAs(sh, s, mark, Prefixed(ItemMeaning(sh.syntax, mark, item), width, scan), [item] + items, rest)
  {
    hide Fits;
    hide IsClosed;
    hide ItemFits;
    hide ItemText;
    hide ItemMeaning;
    hide WordText;
    hide WordMeaning;
    var all := [item] + items;
    assert all[1..] == items;
    assert s[..width] + s[width..][..scan.length] == s[..width + scan.length];
    var first, more := ItemText(sh.syntax, mark, item), ItemsText(sh.syntax, mark, items);
    var m0, m1 := ItemMeaning(sh.syntax, mark, item), ItemsMeaning(sh.syntax, mark, items);
    if rest.Some? {
      var w, v := WordText(sh.syntax, rest.value), WordMeaning(sh.syntax, rest.value);
      assert first + more + [mark] + w == first + (more + [mark] + w);
      assert m0 + m1 + v == m0 + (m1 + v);
    }
  }

  // A quoted run found behind an opening mark, as one segment in front of the rest.
  lemma QuotesFound(sh: Shell, s: string, items: seq<Item>, rest: Option<seq<Segment>>) returns (segments: seq<Segment>)
    requires s != [] && s[0] in QuoteMarks(sh.syntax)
    requires Body(sh, s, None) == Prefixed("", 1, Body(sh, s[1..], Some(s[0])))
    requires InsideAs(sh, s[1..], s[0], Body(sh, s[1..], Some(s[0])), items, rest)
    ensures ReadAs(sh, s, Body(sh, s, None), segments)
  {
    hide Body;
    hide InsideAs;
    hide ReadAs;
    var scan := Body(sh, s[1..], Some(s[0]));
    if rest.None? {
      segments := [Unclosed(s[0], items)];
      UnclosedFound(sh, s, scan, items);
    } else {
      segments := [Quoted(s[0], items)] + rest.value;
      QuotedFound(sh, s, scan, items, rest.value);
    }
  }

  lemma UnclosedFound(sh: Shell, s: string, scan: Scan, items: seq<Item>)
    requires s != [] && s[0] in QuoteMarks(sh.syntax) && InsideAs(sh, s[1..], s[0], scan, items, None)
    ensures ReadAs(sh, s, Prefixed("", 1, scan), [Unclosed(s[0], items)])
  {
    hide ItemFits;
    hide ItemsText;
    hide ItemsMeaning;
    hide QuoteMarks;
    hide Fits;
    hide IsClosed;
    var segment := Unclosed(s[0], items);
    assert [segment][1..] == [] && [segment] + [] == [segment];
    FitsNothing(sh);
    FitsCons(sh, segment, []);
    assert [s[0]] + s[1..][..scan.length] == s[..1 + scan.length];
    assert WordText(sh.syntax, [segment]) == s[..1 + scan.length] by {
      assert WordText(sh.syntax, [segment]) == SegmentText(sh.syntax, segment) + "";
    }
    assert WordMeaning(sh.syntax, [segment]) == "" + scan.value by {
      assert WordMeaning(sh.syntax, [segment]) == SegmentMeaning(sh.syntax, segment) + "";
    }
  }

  lemma FitsNothing(sh: Shell)
    ensures Fits(sh, []) && IsClosed([])
  {
  }

  lemma QuotedFound(sh: Shell, s: string, scan: Scan, items: seq<Item>, more: seq<Segment>)
    requires s != [] && s[0] in QuoteMarks(sh.syntax) && InsideAs(sh, s[1..], s[0], scan, items, Some(more))
    ensures ReadAs(sh, s, Prefixed("", 1, scan), [Quoted(s[0], items)] + more)
  {
    hide ItemFits;
    hide ItemsText;
    hide ItemsMeaning;
    hide QuoteMarks;
    hide Fits;
    hide IsClosed;
    var segment := Quoted(s[0], items);
    var inner, w := ItemsText(sh.syntax, s[0], items), WordText(sh.syntax, more);
    FitsCons(sh, segment, more);
    assert ([segment] + more)[1..] == more;
    assert [s[0]] + s[1..][..scan.length] == s[..1 + scan.length];
    assert [s[0]] + inner + [s[0]] + w == [s[0]] + (inner + [s[0]] + w);
    assert WordText(sh.syntax, [segment] + more) == s[..1 + scan.length];
    assert WordMeaning(sh.syntax, [segment] + more) == "" + scan.value;
  }

  // ---- lines found ----

  lemma {:induction false} BlanksFound(s: string) returns (gap: string)
    ensures gap <= s && AllBlank(gap) && (|gap| < |s| ==> !Blank(s[|gap|]))
    ensures s != [] && Blank(s[0]) ==> gap != ""
  {
    if s == [] || !Blank(s[0]) {
      gap := "";
    } else {
      var more := BlanksFound(s[1..]);
      gap := [s[0]] + more;
    }
  }

  // Every scanned text that does not start with a blank is spelled by parts.
  lemma {:induction false} PartsFound(sh: Shell, s: string, base: nat) returns (parts: seq<Part>)
    requires Lex(sh, s, base).Some? && (s != [] ==> !Blank(s[0]))
    ensures LineFits(sh, parts) && PartsText(sh.syntax, parts) == s
    decreases |s|
  {
    hide Lex;
    hide Body;
    hide ReadAs;
    hide LineFits;
    hide PartsText;
    hide AllBlank;
    if s == [] {
      parts := [];
      NoParts(sh);
    } else {
      LexUnfolds(sh, s, base);
      var scan := Body(sh, s, None);
      var segments := SegmentsFound(sh, s);
      var rest := s[scan.length..];
      var gap := BlanksFound(rest);
      assert rest == gap + rest[|gap|..];
      BlanksAreSkipped(sh, gap, rest[|gap|..], base + scan.length);
      var more := PartsFound(sh, rest[|gap|..], base + scan.length + |gap|);
      parts := [Part(segments, gap)] + more;
      PartsCons(sh, s, scan, segments, gap, more);
    }
  }

  lemma NoParts(sh: Shell)
    ensures LineFits(sh, []) && PartsText(sh.syntax, []) == ""
  {
  }

  lemma PartsCons(sh: Shell, s: string, scan: Scan, segments: seq<Segment>, gap: string, more: seq<Part>)
    requires ReadAs(sh, s, scan, segments) && scan.length >= 1 && (scan.length < |s| ==> scan.closed && gap != "")
    requires gap <= s[scan.length..] && AllBlank(gap)
    requires LineFits(sh, more) && PartsText(sh.syntax, more) == s[scan.length..][|gap|..]
    ensures
      var parts := [Part(segments, gap)] + more;
      LineFits(sh, parts) && PartsText(sh.syntax, parts) == s
  {
    hide *;
    ReadUnfolds(sh, s, scan, segments);
    var n := scan.length;
    WordsHaveText(sh.syntax, segments);
    assert s[..n][0] == s[0];
    if n == |s| {
      assert s[n..] == "";
      NoPartsWithoutText(sh, more);
    }
    LineCons(sh, Part(segments, gap), more);
    TextCons(sh.syntax, Part(segments, gap), more);
    assert s == s[..n] + gap + s[n..][|gap|..];
  }

  lemma ReadUnfolds(sh: Shell, s: string, scan: Scan, segments: seq<Segment>)
    requires ReadAs(sh, s, scan, segments)
    ensures scan.Stop? && scan.length <= |s| && Fits(sh, segments)
    ensures WordText(sh.syntax, segments) == s[..scan.length] && IsClosed(segments) == scan.closed
  {
    hide Fits;
    hide WordText;
    hide WordMeaning;
    hide IsClosed;
  }

  lemma WordsHaveText(syntax: ShellSyntax, segments: seq<Segment>)
    ensures WordText(syntax, segments) != "" ==> segments != []
  {
  }

  lemma TextCons(syntax: ShellSyntax, part: Part, more: seq<Part>)
    ensures PartsText(syntax, [part] + more) == WordText(syntax, part.segments) + part.gap + PartsText(syntax, more)
  {
    hide WordText;
    assert ([part] + more)[1..] == more;
  }

  lemma LineCons(sh: Shell, part: Part, more: seq<Part>)
    requires part.segments != [] && Fits(sh, part.segments) && AllBlank(part.gap) && LineFits(sh, more)
    requires more != [] ==> part.gap != ""
    requires !IsClosed(part.segments) ==> part.gap == ""
    ensures LineFits(sh, [part] + more)
  {
    hide Fits;
    hide AllBlank;
    hide IsClosed;
    var parts := [part] + more;
    forall k | 0 <= k < |parts|
      ensures parts[k].segments != [] && Fits(sh, parts[k].segments) && AllBlank(parts[k].gap)
              && (k < |parts| - 1 ==> parts[k].gap != "") && (!IsClosed(parts[k].segments) ==> parts[k].gap == "")
    {
      if k > 0 { assert parts[k] == more[k - 1]; }
    }
  }

  lemma NoPartsWithoutText(sh: Shell, parts: seq<Part>)
    requires LineFits(sh, parts) && PartsText(sh.syntax, parts) == ""
    ensures parts == []
  {
    hide Fits;
    if parts != [] { WordTextStarts(sh, parts[0].segments); }
  }

  // ---- the scanner reads exactly these lines ----

  lemma SameTrailing(line: string, ws: seq<Word>)
    ensures EmptyWord(line, ws) == Trailing(line, ws)
  {
  }

  lemma SpelledIsRead(sh: Shell, line: string, lead: string, parts: seq<Part>)
    requires Spells(sh, lead, parts, line)
    ensures forall k :: 0 <= k < |parts| ==> parts[k].segments != []
    ensures
      var ws := PartWords(sh.syntax, parts, |lead|);
      Words(sh, line) == if |parts| <= 64 then Some(ws + EmptyWord(line, ws)) else None
  {
    hide Lex;
    hide LineFits;
    hide EmptyWord;
    hide Trailing;
    PartsHaveSegments(sh, parts);
    var ws := PartWords(sh.syntax, parts, |lead|);
    BlanksAreSkipped(sh, lead, PartsText(sh.syntax, parts), 0);
    PartsAreRead(sh, parts, |lead|);
    OneWordEach(sh.syntax, parts, |lead|);
    SameTrailing(line, ws);
  }

  lemma {:induction false} OneWordEach(syntax: ShellSyntax, parts: seq<Part>, at: nat)
    requires forall k :: 0 <= k < |parts| ==> parts[k].segments != []
    ensures |PartWords(syntax, parts, at)| == |parts|
    decreases |parts|
  {
    if parts != [] { OneWordEach(syntax, parts[1..], at + |WordText(syntax, parts[0].segments)| + |parts[0].gap|); }
  }

  lemma SpellingFound(sh: Shell, line: string) returns (lead: string, parts: seq<Part>)
    requires Words(sh, line).Some?
    ensures Spells(sh, lead, parts, line)
  {
    hide Lex;
    hide LineFits;
    lead := BlanksFound(line);
    var rest := line[|lead|..];
    assert line == lead + rest;
    BlanksAreSkipped(sh, lead, rest, 0);
    parts := PartsFound(sh, rest, |lead|);
  }

  // In every dialect, the scanner succeeds on exactly the lines that are spelled by at
  // most 64 words between blanks, and returns what these words mean.
  lemma WordsReadExactly(sh: Shell, line: string)
    ensures forall lead: string, parts: seq<Part> :: Spells(sh, lead, parts, line) && |parts| <= 64 ==>
              && (forall k :: 0 <= k < |parts| ==> parts[k].segments != [])
              && Words(sh, line) == Some(PartWords(sh.syntax, parts, |lead|) + EmptyWord(line, PartWords(sh.syntax, parts, |lead|)))
    ensures Words(sh, line).Some? <==> exists lead: string, parts: seq<Part> :: Spells(sh, lead, parts, line) && |parts| <= 64
  {
    hide Spells;
    hide Words;
    hide EmptyWord;
    hide PartWords;
    forall lead: string, parts: seq<Part> | Spells(sh, lead, parts, line)
      ensures (forall k :: 0 <= k < |parts| ==> parts[k].segments != [])
      ensures Words(sh, line) ==
              if |parts| <= 64 then Some(PartWords(sh.syntax, parts, |lead|) + EmptyWord(line, PartWords(sh.syntax, parts, |lead|))) else None
    {
      SpelledIsRead(sh, line, lead, parts);
    }
    if Words(sh, line).Some? {
      var lead, parts := SpellingFound(sh, line);
      assert |parts| <= 64;
    }
  }
}
