// How the meaning of a line behaves when the line is cut or extended: the facts
// that make an edit inside a command line predictable.
module ShellWordLaws {
  import opened Text
  import opened ShellScanner

  // ---- one word ----

  lemma BodyUnfolds(sh: Shell, s: string, quote: Option<char>)
    requires s != []
    ensures
      match Step(sh, s, quote)
      case Refuse => Body(sh, s, quote) == Reject
      case Halt => Body(sh, s, quote) == Stop("", 0, true)
      case Take(text, width, quote') => Body(sh, s, quote) == Prefixed(text, width, Body(sh, s[width..], quote'))
  {
  }

  lemma BodyTakes(sh: Shell, s: string, quote: Option<char>)
    requires s != [] && Step(sh, s, quote).Take?
    ensures
      var m := Step(sh, s, quote);
      Body(sh, s, quote) == Prefixed(m.text, m.width, Body(sh, s[m.width..], m.quote))
  {
  }

  lemma BodyAt(sh: Shell, s: string, quote: Option<char>, m: Move, rest: string)
    requires s != [] && Step(sh, s, quote) == m && m.Take? && s[m.width..] == rest
    ensures Body(sh, s, quote) == Prefixed(m.text, m.width, Body(sh, rest, m.quote))
  {
    hide Step;
  }

  // A move looks at most one character ahead, and a blank there changes nothing.
  lemma StepIsLocal(sh: Shell, a: string, b: string, quote: Option<char>)
    requires a != [] && ValidQuote(sh.syntax, quote)
    requires |a| >= 2 || b == [] || Blank(b[0])
    requires !Step(sh, a, quote).Refuse? || |a| >= 2
    ensures Step(sh, a + b, quote) == Step(sh, a, quote)
  {
    assert (a + b)[0] == a[0];
    if |a| >= 2 {
      assert (a + b)[1] == a[1];
    } else if b != [] {
      assert (a + b)[1] == b[0];
    } else {
      assert a + b == a;
    }
  }

  lemma {:induction false} BodyExtends(sh: Shell, a: string, b: string, quote: Option<char>)
    requires ValidQuote(sh.syntax, quote)
    requires Body(sh, a, quote).Stop? && Body(sh, a, quote).closed
    requires Body(sh, a, quote).length < |a| || b == [] || Blank(b[0])
    ensures Body(sh, a + b, quote) == Body(sh, a, quote)
    decreases |a|
  {
    if a == [] {
      assert a + b == b;
    } else {
      BodyUnfolds(sh, a, quote);
      var m := Step(sh, a, quote);
      if m.Take? {
        BodyExtendsTail(sh, a, b, quote);
        BodyExtends(sh, a[m.width..], b, m.quote);
      } else {
        assert (a + b)[0] == a[0];
      }
    }
  }

  lemma TailIsLocal(sh: Shell, a: string, b: string, quote: Option<char>)
    requires a != [] && ValidQuote(sh.syntax, quote) && Step(sh, a, quote).Take?
    requires |a| >= 2 || b == [] || Blank(b[0])
    ensures
      var m := Step(sh, a, quote);
      Step(sh, a + b, quote) == m && (a + b)[m.width..] == a[m.width..] + b
  {
    hide Step;
    StepIsLocal(sh, a, b, quote);
  }

  lemma BodyExtendsTail(sh: Shell, a: string, b: string, quote: Option<char>)
    requires a != [] && ValidQuote(sh.syntax, quote) && Step(sh, a, quote).Take?
    requires |a| >= 2 || b == [] || Blank(b[0])
    ensures
      var m := Step(sh, a, quote);
      Body(sh, a + b, quote) == Prefixed(m.text, m.width, Body(sh, a[m.width..] + b, m.quote))
  {
    hide Body;
    hide Step;
    hide Prefixed;
    var m := Step(sh, a, quote);
    TailIsLocal(sh, a, b, quote);
    BodyAt(sh, a + b, quote, m, a[m.width..] + b);
  }

  // The converse: a word that stops inside `a` does not depend on what follows.
  lemma {:induction false} BodyRestricts(sh: Shell, a: string, b: string, quote: Option<char>)
    requires ValidQuote(sh.syntax, quote)
    requires Body(sh, a + b, quote).Stop? && Body(sh, a + b, quote).length < |a|
    ensures Body(sh, a, quote) == Body(sh, a + b, quote)
    decreases |a|
  {
    BodyUnfolds(sh, a + b, quote);
    var m := Step(sh, a + b, quote);
    assert (a + b)[0] == a[0];
    if m.Take? {
      assert |a| >= 2;
      assert (a + b)[1] == a[1];
      StepIsLocal(sh, a, b, quote);
      BodyExtendsTail(sh, a, b, quote);
      BodyRestricts(sh, a[m.width..], b, m.quote);
      BodyUnfolds(sh, a, quote);
    }
  }

  // Text that ends in a blank the word swallowed runs on into whatever follows.
  lemma {:induction false} BodyRunsOn(sh: Shell, a: string, b: string, quote: Option<char>)
    requires ValidQuote(sh.syntax, quote)
    requires a == [] || Blank(a[|a| - 1])
    requires Body(sh, a, quote).Stop? && Body(sh, a, quote).closed && Body(sh, a, quote).length == |a|
    ensures Body(sh, a + b, quote) == Prefixed(Body(sh, a, quote).value, |a|, Body(sh, b, None))
    decreases |a|
  {
    hide Body;
    hide Step;
    BodyOfNothing(sh, quote);
    if a == [] {
      assert a + b == b;
      PrefixedNothing(Body(sh, b, None));
    } else {
      LoneBlankStaysOpen(sh, a, quote);
      BodyUnfolds(sh, a, quote);
      var m := Step(sh, a, quote);
      var rest := a[m.width..];
      BodyExtendsTail(sh, a, b, quote);
      assert rest == [] || rest[|rest| - 1] == a[|a| - 1];
      BodyRunsOn(sh, rest, b, m.quote);
      PrefixedTwice(m.text, m.width, Body(sh, rest, m.quote).value, |rest|, Body(sh, b, None));
    }
  }

  lemma BodyOfNothing(sh: Shell, quote: Option<char>)
    ensures Body(sh, [], quote) == Stop("", 0, quote.None?)
  {
  }

  // A blank on its own either ends a word or sits inside open quotes.
  lemma LoneBlankStaysOpen(sh: Shell, a: string, quote: Option<char>)
    requires a != [] && Blank(a[|a| - 1]) && ValidQuote(sh.syntax, quote) && Body(sh, a, quote).Stop?
    ensures |a| == 1 ==> !Body(sh, a, quote).closed || Body(sh, a, quote).length == 0
  {
    if |a| == 1 {
      assert a[1..] == [];
      BodyUnfolds(sh, a, quote);
      BodyOfNothing(sh, quote);
    }
  }

  lemma PrefixedNothing(r: Scan)
    ensures Prefixed("", 0, r) == r
  {
    if r.Stop? { assert "" + r.value == r.value; }
  }

  // ---- a whole line ----

  lemma LexUnfolds(sh: Shell, s: string, base: nat)
    requires s != []
    ensures Blank(s[0]) ==> Lex(sh, s, base) == Lex(sh, s[1..], base + 1)
    ensures !Blank(s[0]) && Body(sh, s, None).Reject? ==> Lex(sh, s, base).None?
    ensures !Blank(s[0]) && Body(sh, s, None).Stop? ==>
              var n := Body(sh, s, None).length;
              && Lex(sh, s, base) == Joined([FirstWord(sh, s, base)], Lex(sh, s[n..], base + n))
              && (Lex(sh, s, base).Some? ==> Lex(sh, s[n..], base + n) == Some(Lex(sh, s, base).value[1..]))
              && (Lex(sh, s, base).Some? ==> Lex(sh, s, base).value != [] && Lex(sh, s, base).value[0] == FirstWord(sh, s, base))
  {
    if !Blank(s[0]) && Body(sh, s, None).Stop? {
      var n := Body(sh, s, None).length;
      var rest := Lex(sh, s[n..], base + n);
      if rest.Some? { assert ([FirstWord(sh, s, base)] + rest.value)[1..] == rest.value; }
    }
  }

  function FirstWord(sh: Shell, s: string, base: nat): Word
    requires s != [] && Body(sh, s, None).Stop?
  {
    var scan := Body(sh, s, None);
    Word(scan.value, base, base + scan.length, Opening(sh, s[0]), scan.closed, MarksHome(sh, s[0]))
  }

  predicate Covered(ws: seq<Word>, at: nat) {
    exists k :: 0 <= k < |ws| && ws[k].start <= at < ws[k].end
  }

  // Words are nonempty, lie in order with a gap between them, and only the last
  // one can be left open; every character outside them is a blank.
  ghost predicate WellPlaced(s: string, base: nat, ws: seq<Word>) {
    && (forall k :: 0 <= k < |ws| ==> base <= ws[k].start < ws[k].end <= base + |s| && !Blank(s[ws[k].start - base]))
    && (forall i, j :: 0 <= i < j < |ws| ==> ws[i].end < ws[j].start)
    && (forall k :: 0 <= k < |ws| - 1 ==> ws[k].closed)
    && (forall k :: 0 <= k < |ws| && !ws[k].closed ==> ws[k].end == base + |s|)
    && (forall at :: 0 <= at < |s| && !Covered(ws, base + at) ==> Blank(s[at]))
  }

  lemma {:induction false} LexIsWellPlaced(sh: Shell, s: string, base: nat)
    requires Lex(sh, s, base).Some?
    ensures WellPlaced(s, base, Lex(sh, s, base).value)
    decreases |s|
  {
    hide Lex;
    hide Body;
    if s == [] {
      LexEmpty(sh, base);
    } else {
      LexUnfolds(sh, s, base);
      if Blank(s[0]) {
        LexIsWellPlaced(sh, s[1..], base + 1);
        PlacedAfterBlank(s, base, Lex(sh, s, base).value);
      } else {
        var n := Body(sh, s, None).length;
        LexIsWellPlaced(sh, s[n..], base + n);
        PlacedAfterWord(s, base, Lex(sh, s, base).value, n);
      }
    }
  }

  lemma PlacedAfterBlank(s: string, base: nat, ws: seq<Word>)
    requires s != [] && Blank(s[0]) && WellPlaced(s[1..], base + 1, ws)
    ensures WellPlaced(s, base, ws)
  {
    forall at | 0 <= at < |s| && !Covered(ws, base + at) ensures Blank(s[at]) {
      if at > 0 { assert s[at] == s[1..][at - 1] && !Covered(ws, base + 1 + (at - 1)); }
    }
  }

  lemma CoveredByTail(ws: seq<Word>, at: nat)
    requires ws != []
    ensures Covered(ws[1..], at) ==> Covered(ws, at)
  {
    if Covered(ws[1..], at) {
      var k :| 0 <= k < |ws[1..]| && ws[1..][k].start <= at < ws[1..][k].end;
      assert ws[k + 1] == ws[1..][k];
    }
  }

  lemma BlanksAfterWord(s: string, base: nat, ws: seq<Word>, n: nat)
    requires ws != [] && n <= |s| && ws[0].start == base && ws[0].end == base + n
    requires forall at :: 0 <= at < |s[n..]| && !Covered(ws[1..], base + n + at) ==> Blank(s[n..][at])
    ensures forall at :: 0 <= at < |s| && !Covered(ws, base + at) ==> Blank(s[at])
  {
    forall at | 0 <= at < |s| && !Covered(ws, base + at) ensures Blank(s[at]) {
      assert !(ws[0].start <= base + at < ws[0].end);
      CoveredByTail(ws, base + at);
      assert s[at] == s[n..][at - n] && !Covered(ws[1..], base + n + (at - n));
    }
  }

  lemma OrderAfterWord(s: string, base: nat, ws: seq<Word>, n: nat)
    requires ws != [] && 1 <= n <= |s| && ws[0].end == base + n && (n < |s| ==> Blank(s[n]))
    requires WellPlaced(s[n..], base + n, ws[1..])
    ensures forall i, j :: 0 <= i < j < |ws| ==> ws[i].end < ws[j].start
  {
    hide Covered;
    forall i, j | 0 <= i < j < |ws| ensures ws[i].end < ws[j].start {
      assert ws[j] == ws[1..][j - 1];
      if i > 0 { assert ws[i] == ws[1..][i - 1]; }
    }
  }

  lemma PlacedAfterWord(s: string, base: nat, ws: seq<Word>, n: nat)
    requires ws != [] && 1 <= n <= |s|
    requires ws[0].start == base && ws[0].end == base + n
    requires n < |s| ==> ws[0].closed && Blank(s[n])
    requires WellPlaced(s[n..], base + n, ws[1..])
    requires !Blank(s[0])
    ensures WellPlaced(s, base, ws)
  {
    hide Covered;
    BlanksAfterWord(s, base, ws, n);
    OrderAfterWord(s, base, ws, n);
    forall k | 0 <= k < |ws| ensures base <= ws[k].start < ws[k].end <= base + |s| && !Blank(s[ws[k].start - base]) && (k < |ws| - 1 ==> ws[k].closed)
                                     && (!ws[k].closed ==> ws[k].end == base + |s|) {
      if k > 0 { assert ws[k] == ws[1..][k - 1]; } else if |ws| > 1 { assert ws[1] == ws[1..][0]; }
    }
  }

  lemma LexBounds(sh: Shell, s: string, base: nat)
    requires Lex(sh, s, base).Some?
    ensures
      var ws := Lex(sh, s, base).value;
      forall k :: 0 <= k < |ws| ==> base <= ws[k].start < ws[k].end <= base + |s| && !Blank(s[ws[k].start - base])
  {
    hide Lex;
    LexIsWellPlaced(sh, s, base);
  }

  lemma LexSeparates(sh: Shell, s: string, base: nat, i: nat, j: nat)
    requires Lex(sh, s, base).Some? && i < j < |Lex(sh, s, base).value|
    ensures
      var ws := Lex(sh, s, base).value;
      ws[i].start < ws[i].end < ws[j].start && ws[i].closed
  {
    hide Lex;
    LexIsWellPlaced(sh, s, base);
  }

  // Everything up to a word boundary is read the same whatever follows it.
  ghost predicate Settled(s: string, base: nat, ws: seq<Word>) {
    s == [] || (Blank(s[|s| - 1]) && (ws == [] || ws[|ws| - 1].end < base + |s|))
  }

  // What holds of a text in front of a boundary holds of its rest behind a word.
  lemma BehindWord(sh: Shell, a: string, b: string, base: nat)
    requires a != [] && !Blank(a[0]) && Lex(sh, a, base).Some?
    requires forall k :: 0 <= k < |Lex(sh, a, base).value| ==> Lex(sh, a, base).value[k].closed
    requires b == [] || Blank(b[0]) || Settled(a, base, Lex(sh, a, base).value)
    ensures Body(sh, a, None).Stop? && Body(sh, a, None).closed
    ensures
      var n, ws := Body(sh, a, None).length, Lex(sh, a, base).value;
      && 1 <= n <= |a| && ws != [] && ws[0] == FirstWord(sh, a, base)
      && Lex(sh, a[n..], base + n) == Some(ws[1..])
      && (forall k :: 0 <= k < |ws[1..]| ==> ws[1..][k].closed)
      && (n < |a| || b == [] || Blank(b[0]))
      && (b == [] || Blank(b[0]) || Settled(a[n..], base + n, ws[1..]))
  {
    hide Lex;
    hide Body;
    LexUnfolds(sh, a, base);
    var n, ws := Body(sh, a, None).length, Lex(sh, a, base).value;
    assert ws[0].closed;
    if n == |a| {
      LexNothing(sh, a, base);
    } else {
      assert a[n..][|a[n..]| - 1] == a[|a| - 1];
    }
  }

  lemma ExtendsBehindWord(sh: Shell, a: string, b: string, base: nat, ws: seq<Word>)
    requires a != [] && !Blank(a[0]) && Body(sh, a, None).Stop? && Body(sh, a + b, None) == Body(sh, a, None)
    requires ws != [] && ws[0] == FirstWord(sh, a, base)
    requires
      var n := Body(sh, a, None).length;
      Lex(sh, a[n..] + b, base + n) == Joined(ws[1..], Lex(sh, b, base + |a|))
    ensures Lex(sh, a + b, base) == Joined(ws, Lex(sh, b, base + |a|))
  {
    hide Lex;
    hide Body;
    var n := Body(sh, a, None).length;
    LexUnfolds(sh, a + b, base);
    assert (a + b)[n..] == a[n..] + b && (a + b)[0] == a[0];
    JoinedTwice([ws[0]], ws[1..], Lex(sh, b, base + |a|));
    assert [ws[0]] + ws[1..] == ws;
  }

  lemma {:induction false} LexExtends(sh: Shell, a: string, b: string, base: nat)
    requires Lex(sh, a, base).Some?
    requires forall k :: 0 <= k < |Lex(sh, a, base).value| ==> Lex(sh, a, base).value[k].closed
    requires b == [] || Blank(b[0]) || Settled(a, base, Lex(sh, a, base).value)
    ensures Lex(sh, a + b, base) == Joined(Lex(sh, a, base).value, Lex(sh, b, base + |a|))
    decreases |a|
  {
    hide Lex;
    hide Body;
    var ws := Lex(sh, a, base).value;
    if a == [] {
      LexEmpty(sh, base);
      assert a + b == b;
      JoinedUnits([], Lex(sh, b, base));
    } else {
      if Blank(a[0]) {
        LexUnfolds(sh, a, base);
        LexUnfolds(sh, a + b, base);
        assert (a + b)[1..] == a[1..] + b;
        LexExtends(sh, a[1..], b, base + 1);
      } else {
        BehindWord(sh, a, b, base);
        var n := Body(sh, a, None).length;
        BodyExtends(sh, a, b, None);
        LexExtends(sh, a[n..], b, base + n);
        ExtendsBehindWord(sh, a, b, base, ws);
      }
    }
  }

  lemma LexNothing(sh: Shell, a: string, base: nat)
    requires a != [] && !Blank(a[0]) && Body(sh, a, None).Stop? && Body(sh, a, None).length == |a|
    ensures Lex(sh, a, base) == Some([FirstWord(sh, a, base)])
  {
    hide Body;
    assert a[|a|..] == [];
    JoinedUnits([FirstWord(sh, a, base)], None);
  }

  // Cutting a line at the start of its k-th word separates its words there.
  ghost predicate Splits(sh: Shell, s: string, base: nat, ws: seq<Word>, k: nat)
    requires k < |ws|
  {
    var p := ws[k].start - base;
    && 0 <= p < |s|
    && Lex(sh, s[..p], base) == Some(ws[..k])
    && Settled(s[..p], base, ws[..k])
    && Lex(sh, s[p..], ws[k].start) == Some(ws[k..])
  }

  lemma {:induction false} LexSplits(sh: Shell, s: string, base: nat, k: nat)
    requires Lex(sh, s, base).Some? && k < |Lex(sh, s, base).value|
    ensures Splits(sh, s, base, Lex(sh, s, base).value, k)
    decreases |s|
  {
    hide Lex;
    hide Body;
    var ws := Lex(sh, s, base).value;
    if s == [] {
      LexEmpty(sh, base);
    } else {
      LexUnfolds(sh, s, base);
      if Blank(s[0]) {
        LexSplits(sh, s[1..], base + 1, k);
        SplitsAfterBlank(sh, s, base, ws, k);
      } else if k == 0 {
        assert s[..0] == [] && s[0..] == s && ws[..0] == [] && ws[0..] == ws;
        LexEmpty(sh, base);
      } else {
        LexSplits(sh, s[Body(sh, s, None).length..], base + Body(sh, s, None).length, k - 1);
        SplitsAfterWord(sh, s, base, ws, k);
      }
    }
  }

  lemma SplitsAfterBlank(sh: Shell, s: string, base: nat, ws: seq<Word>, k: nat)
    requires k < |ws| && s != [] && Blank(s[0]) && Splits(sh, s[1..], base + 1, ws, k)
    ensures Splits(sh, s, base, ws, k)
  {
    hide Lex;
    hide Body;
    var p := ws[k].start - base;
    assert s[..p][1..] == s[1..][..p - 1] && s[1..][p - 1..] == s[p..];
    LexUnfolds(sh, s[..p], base);
    LexEmpty(sh, base + 1);
  }

  lemma SplitsAfterWord(sh: Shell, s: string, base: nat, ws: seq<Word>, k: nat)
    requires 0 < k < |ws| && s != [] && !Blank(s[0]) && Lex(sh, s, base) == Some(ws)
    requires Body(sh, s, None).Stop? && ws[0] == FirstWord(sh, s, base)
    requires Splits(sh, s[Body(sh, s, None).length..], base + Body(sh, s, None).length, ws[1..], k - 1)
    ensures Splits(sh, s, base, ws, k)
  {
    hide Lex;
    hide Body;
    var n, p := Body(sh, s, None).length, ws[k].start - base;
    assert ws[k] == ws[1..][k - 1];
    LexSeparates(sh, s, base, 0, k);
    assert Body(sh, s[..p], None) == Body(sh, s, None) by {
      assert s == s[..p] + s[p..];
      BodyRestricts(sh, s[..p], s[p..], None);
    }
    assert s[..p][n..] == s[n..][..p - n] && s[n..][p - n..] == s[p..];
    LexUnfolds(sh, s[..p], base);
    assert [ws[0]] + ws[1..][..k - 1] == ws[..k] && ws[1..][k - 1..] == ws[k..];
  }

  // Where a line starts does not change what it says.
  ghost predicate MovedWord(w: Word, w': Word, shift: int) {
    && w'.start == w.start + shift && w'.end == w.end + shift
    && w' == Word(w.value, w'.start, w'.end, w.quote, w.closed, w.home)
  }

  ghost predicate Moved(ws: seq<Word>, ws': seq<Word>, shift: int) {
    |ws| == |ws'| && forall k :: 0 <= k < |ws| ==> MovedWord(ws[k], ws'[k], shift)
  }

  lemma {:induction false} LexMoves(sh: Shell, s: string, base: nat, base': nat)
    ensures Lex(sh, s, base).Some? <==> Lex(sh, s, base').Some?
    ensures Lex(sh, s, base).Some? ==> Moved(Lex(sh, s, base).value, Lex(sh, s, base').value, base' - base)
    decreases |s|
  {
    hide Lex;
    hide Body;
    if s == [] {
      LexEmpty(sh, base);
      LexEmpty(sh, base');
    } else {
      LexUnfolds(sh, s, base);
      LexUnfolds(sh, s, base');
      if Blank(s[0]) {
        LexMoves(sh, s[1..], base + 1, base' + 1);
      } else if Body(sh, s, None).Stop? {
        var n := Body(sh, s, None).length;
        LexMoves(sh, s[n..], base + n, base' + n);
        if Lex(sh, s, base).Some? {
          MovedCons(Lex(sh, s, base).value, Lex(sh, s, base').value, base' - base);
        }
      }
    }
  }

  lemma MovedCons(ws: seq<Word>, ws': seq<Word>, shift: int)
    requires ws != [] && ws' != [] && MovedWord(ws[0], ws'[0], shift) && Moved(ws[1..], ws'[1..], shift)
    ensures Moved(ws, ws', shift)
  {
    forall k | 0 <= k < |ws| ensures MovedWord(ws[k], ws'[k], shift) {
      if k > 0 { assert ws[1..][k - 1] == ws[k] && ws'[1..][k - 1] == ws'[k]; }
    }
  }

  function Values(ws: seq<Word>): seq<string> {
    seq(|ws|, k requires 0 <= k < |ws| => ws[k].value)
  }
}
