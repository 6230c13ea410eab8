// N-dot path shorthand (nebula-completions/src/file.rs): `...` stands for `../..`
// while a path is being completed, and runs of `..` are folded back for display.
module NDots {

  // A path component and the positions in it that matched.
  datatype Part = Part(text: string, matches: seq<nat>)

  function Dots(n: nat): (r: string)
    ensures |r| == n
  {
    seq(n, _ => '.')
  }

  function LeadingDots(s: string): (n: nat)
    ensures n <= |s| && s[..n] == Dots(n)
    ensures n < |s| ==> s[n] != '.'
  {
    if s == [] || s[0] != '.' then 0
    else
      assert s == [s[0]] + s[1..];
      1 + LeadingDots(s[1..])
  }

  // `..` written n times with separators between.
  function Ups(sep: char, n: nat): string {
    if n == 0 then "" else if n == 1 then ".." else ".." + [sep] + Ups(sep, n - 1)
  }

  function ExpandedRun(sep: char, n: nat): string {
    if n > 2 then Ups(sep, n - 1) else Dots(n)
  }

  function Expand(sep: char, s: string): string
    decreases |s|
  {
    if s == [] then ""
    else if s[0] == '.' then ExpandedRun(sep, LeadingDots(s)) + Expand(sep, s[LeadingDots(s)..])
    else [s[0]] + Expand(sep, s[1..])
  }

  function Folded(count: nat): seq<Part> {
    if count > 0 then [Part(Dots(count + 1), [])] else []
  }

  // Folding with `count` pending `..` components.
  function Collapse(parts: seq<Part>, count: nat): seq<Part>
    decreases |parts|
  {
    if parts == [] then Folded(count)
    else if parts[0].text == ".." then Collapse(parts[1..], count + 1)
    else Folded(count) + [parts[0]] + Collapse(parts[1..], 0)
  }

  function Join(sep: char, texts: seq<string>): string {
    if texts == [] then "" else if |texts| == 1 then texts[0] else texts[0] + [sep] + Join(sep, texts[1..])
  }

  function Texts(parts: seq<Part>): seq<string> {
    seq(|parts|, i requires 0 <= i < |parts| => parts[i].text)
  }

  predicate LongRun(s: string) {
    exists i :: 0 <= i && i + 3 <= |s| && s[i] == '.' && s[i + 1] == '.' && s[i + 2] == '.'
  }

  // ---- the loops ----

  lemma UpsAppend(sep: char, n: nat)
    requires n >= 1
    ensures Ups(sep, n) + ([sep] + "..") == Ups(sep, n + 1)
  {
    if n > 1 {
      UpsAppend(sep, n - 1);
      assert Ups(sep, n) + ([sep] + "..") == ".." + [sep] + (Ups(sep, n - 1) + ([sep] + ".."));
    }
  }

  lemma DotsContinue(path: string, i: nat, k: nat)
    requires i <= |path| && k <= LeadingDots(path[i..])
    ensures i + k < |path| && path[i + k] == '.' <==> k < LeadingDots(path[i..])
  {
    var s, n := path[i..], LeadingDots(path[i..]);
    if k < n { assert s[..n][k] == '.'; }
  }

  // The inner counting loop.
  method CountDots(path: string, i: nat) returns (dots: nat)
    requires i <= |path|
    ensures dots == LeadingDots(path[i..])
  {
    hide LeadingDots;
    dots := 0;
    DotsContinue(path, i, 0);
    while i + dots < |path| && path[i + dots] == '.'
      invariant dots <= LeadingDots(path[i..])
      invariant i + dots < |path| && path[i + dots] == '.' <==> dots < LeadingDots(path[i..])
    {
      dots := dots + 1;
      DotsContinue(path, i, dots);
    }
  }

  // The inner printing loop.
  method PrintRun(dots: nat, sep: char) returns (run: string)
    ensures run == ExpandedRun(sep, dots)
  {
    if dots <= 2 {
      return Dots(dots);
    }
    run := "";
    var k := 0;
    while k < dots - 1
      invariant 0 <= k <= dots - 1
      invariant run == Ups(sep, k)
    {
      if k > 0 {
        UpsAppend(sep, k);
        run := run + ([sep] + "..");
      } else {
        run := "..";
      }
      k := k + 1;
    }
  }

  lemma ExpandUnfolds(sep: char, path: string, i: nat, result: string)
    requires i < |path|
    ensures
      var n := LeadingDots(path[i..]);
      var whole := result + Expand(sep, path[i..]);
      && (path[i] == '.' ==> n >= 1 && whole == result + ExpandedRun(sep, n) + Expand(sep, path[i + n..]))
      && (path[i] != '.' ==> whole == result + [path[i]] + Expand(sep, path[i + 1..]))
  {
    hide ExpandedRun;
    var s, n := path[i..], LeadingDots(path[i..]);
    if path[i] == '.' {
      assert s[n..] == path[i + n..];
      assert result + (ExpandedRun(sep, n) + Expand(sep, path[i + n..])) == result + ExpandedRun(sep, n) + Expand(sep, path[i + n..]);
    } else {
      assert s[1..] == path[i + 1..];
      assert result + ([path[i]] + Expand(sep, path[i + 1..])) == result + [path[i]] + Expand(sep, path[i + 1..]);
    }
  }

  method ExpandNdots(path: string, sep: char) returns (result: string)
    ensures result == Expand(sep, path)
  {
    hide LeadingDots;
    hide ExpandedRun;
    result := "";
    var i := 0;
    assert path[0..] == path;
    while i < |path|
      invariant 0 <= i <= |path|
      invariant Expand(sep, path) == result + Expand(sep, path[i..])
    {
      ExpandUnfolds(sep, path, i, result);
      if path[i] == '.' {
        var dots := CountDots(path, i);
        var run := PrintRun(dots, sep);
        result, i := result + run, i + dots;
      } else {
        result, i := result + [path[i]], i + 1;
      }
    }
    assert path[i..] == [];
  }

  lemma CollapseUnfolds(parts: seq<Part>, i: nat, count: nat, result: seq<Part>)
    requires i < |parts|
    ensures result + Collapse(parts[i..], count) ==
            if parts[i].text == ".." then result + Collapse(parts[i + 1..], count + 1)
            else result + Folded(count) + [parts[i]] + Collapse(parts[i + 1..], 0)
  {
    hide Folded;
    assert parts[i..][1..] == parts[i + 1..];
    assert result + (Folded(count) + [parts[i]] + Collapse(parts[i + 1..], 0))
        == result + Folded(count) + [parts[i]] + Collapse(parts[i + 1..], 0);
  }

  lemma CollapseEnds(count: nat)
    ensures Collapse([], count) == Folded(count)
  {
  }

  method CollapseNdots(parts: seq<Part>) returns (result: seq<Part>)
    ensures result == Collapse(parts, 0)
  {
    hide Collapse;
    result := [];
    var count, i := 0, 0;
    assert parts[0..] == parts;
    while i < |parts|
      invariant 0 <= i <= |parts|
      invariant Collapse(parts, 0) == result + Collapse(parts[i..], count)
    {
      CollapseUnfolds(parts, i, count, result);
      if parts[i].text == ".." {
        count := count + 1;
      } else {
        if count > 0 {
          result := result + [Part(Dots(count + 1), [])];
          count := 0;
        }
        result := result + [parts[i]];
      }
      i := i + 1;
    }
    assert parts[i..] == [];
    CollapseEnds(count);
    if count > 0 {
      result := result + [Part(Dots(count + 1), [])];
    }
  }

  // ---- expansion works component by component ----

  lemma {:induction false} LeadingDotsStop(a: string, b: string)
    requires b == [] || b[0] != '.'
    ensures LeadingDots(a + b) == LeadingDots(a)
  {
    if a == [] {
      assert a + b == b;
    } else if a[0] == '.' {
      assert (a + b)[1..] == a[1..] + b;
      LeadingDotsStop(a[1..], b);
    }
  }

  lemma {:induction false} ExpandConcat(sep: char, a: string, b: string)
    requires b == [] || b[0] != '.'
    ensures Expand(sep, a + b) == Expand(sep, a) + Expand(sep, b)
    decreases |a|
  {
    hide LeadingDots;
    hide ExpandedRun;
    hide Expand;
    if a == [] {
      assert a + b == b;
      ExpandNothing(sep);
    } else {
      ExpandFirst(sep, a);
      ExpandFirst(sep, a + b);
      LeadingDotsStop(a, b);
      var n := if a[0] == '.' then LeadingDots(a) else 1;
      assert (a + b)[n..] == a[n..] + b;
      ExpandConcat(sep, a[n..], b);
    }
  }

  lemma ExpandNothing(sep: char)
    ensures Expand(sep, "") == ""
  {
  }

  lemma ExpandFirst(sep: char, s: string)
    requires s != []
    ensures
      var n := if s[0] == '.' then LeadingDots(s) else 1;
      && 1 <= n <= |s|
      && Expand(sep, s) == (if s[0] == '.' then ExpandedRun(sep, n) else [s[0]]) + Expand(sep, s[n..])
  {
    hide ExpandedRun;
  }

  function ExpandAll(sep: char, texts: seq<string>): seq<string> {
    seq(|texts|, i requires 0 <= i < |texts| => Expand(sep, texts[i]))
  }

  lemma {:induction false} ExpandJoin(sep: char, texts: seq<string>)
    requires sep != '.'
    ensures Expand(sep, Join(sep, texts)) == Join(sep, ExpandAll(sep, texts))
  {
    if |texts| > 1 {
      var rest := Join(sep, texts[1..]);
      ExpandJoin(sep, texts[1..]);
      assert Join(sep, texts) == texts[0] + ([sep] + rest);
      ExpandConcat(sep, texts[0], [sep] + rest);
      assert ([sep] + rest)[1..] == rest;
      assert ExpandAll(sep, texts)[1..] == ExpandAll(sep, texts[1..]);
    } else if |texts| == 1 {
      assert ExpandAll(sep, texts) == [Expand(sep, texts[0])];
    }
  }

  lemma {:induction false} DotsAreOneRun(n: nat)
    ensures LeadingDots(Dots(n)) == n
  {
    if n > 0 {
      assert Dots(n)[1..] == Dots(n - 1);
      DotsAreOneRun(n - 1);
    }
  }

  lemma ExpandDots(sep: char, n: nat)
    ensures Expand(sep, Dots(n)) == ExpandedRun(sep, n)
  {
    DotsAreOneRun(n);
    if n > 0 {
      assert Dots(n)[n..] == [];
      assert ExpandedRun(sep, n) + "" == ExpandedRun(sep, n);
    }
  }

  // ---- the round trip ----

  function UpList(n: nat): seq<string> { seq(n, _ => "..") }

  lemma {:induction false} JoinUps(sep: char, n: nat, rest: seq<string>)
    requires n > 0
    ensures Join(sep, [Ups(sep, n)] + rest) == Join(sep, UpList(n) + rest)
  {
    var all := UpList(n) + rest;
    if n == 1 {
      assert all == [".."] + rest;
    } else {
      assert all[1..] == UpList(n - 1) + rest;
      JoinUps(sep, n - 1, rest);
      if rest == [] {
        assert [Ups(sep, n)] + rest == [Ups(sep, n)];
        assert [Ups(sep, n - 1)] + rest == [Ups(sep, n - 1)];
      } else {
        assert ([Ups(sep, n)] + rest)[1..] == rest && ([Ups(sep, n - 1)] + rest)[1..] == rest;
        assert Ups(sep, n) + [sep] + Join(sep, rest) == ".." + [sep] + (Ups(sep, n - 1) + [sep] + Join(sep, rest));
      }
    }
  }

  lemma JoinCons(sep: char, a: string, b: seq<string>, c: seq<string>)
    requires Join(sep, b) == Join(sep, c) && (b == [] <==> c == [])
    ensures Join(sep, [a] + b) == Join(sep, [a] + c)
  {
    assert ([a] + b)[1..] == b && ([a] + c)[1..] == c;
  }

  // Folding only regroups the pending `..` components in front.
  lemma {:induction false} CollapseExpands(sep: char, parts: seq<Part>, count: nat)
    requires sep != '.'
    ensures Join(sep, ExpandAll(sep, Texts(Collapse(parts, count)))) == Join(sep, UpList(count) + ExpandAll(sep, Texts(parts)))
    ensures Collapse(parts, count) == [] <==> parts == [] && count == 0
    decreases |parts|
  {
    hide Expand;
    hide Join;
    if parts == [] {
      FoldedExpands(sep, count, [], []);
      assert Texts(parts) == [] && ExpandAll(sep, []) == [] && UpList(count) + [] == UpList(count);
      assert ExpandAll(sep, Texts(Folded(count))) + [] == ExpandAll(sep, Texts(Folded(count)));
    } else if parts[0].text == ".." {
      CollapseExpands(sep, parts[1..], count + 1);
      OneMoreUp(sep, parts, count);
    } else {
      CollapseExpands(sep, parts[1..], 0);
      OtherPartExpands(sep, parts, count);
    }
  }

  lemma OneMoreUp(sep: char, parts: seq<Part>, count: nat)
    requires parts != [] && parts[0].text == ".."
    ensures UpList(count) + ExpandAll(sep, Texts(parts)) == UpList(count + 1) + ExpandAll(sep, Texts(parts[1..]))
  {
    hide Expand;
    ExpandDots(sep, 2);
    assert ".." == Dots(2);
  }

  lemma ExpandAllConcat(sep: char, a: seq<Part>, b: Part, c: seq<Part>)
    ensures ExpandAll(sep, Texts(a + [b] + c)) == ExpandAll(sep, Texts(a)) + ([Expand(sep, b.text)] + ExpandAll(sep, Texts(c)))
  {
    hide Expand;
  }

  lemma OtherPartExpands(sep: char, parts: seq<Part>, count: nat)
    requires parts != [] && parts[0].text != ".."
    requires Join(sep, ExpandAll(sep, Texts(Collapse(parts[1..], 0)))) == Join(sep, UpList(0) + ExpandAll(sep, Texts(parts[1..])))
    requires Collapse(parts[1..], 0) == [] <==> parts[1..] == []
    ensures Join(sep, ExpandAll(sep, Texts(Collapse(parts, count)))) == Join(sep, UpList(count) + ExpandAll(sep, Texts(parts)))
  {
    hide Expand;
    hide Join;
    hide Folded;
    var folded := Collapse(parts[1..], 0);
    var tail, tail' := ExpandAll(sep, Texts(folded)), ExpandAll(sep, Texts(parts[1..]));
    assert UpList(0) + tail' == tail';
    var first := Expand(sep, parts[0].text);
    ExpandAllConcat(sep, [], parts[0], parts[1..]);
    assert [] + [parts[0]] + parts[1..] == parts;
    assert ExpandAll(sep, Texts([])) + ([first] + tail') == [first] + tail';
    JoinCons(sep, first, tail, tail');
    FoldedExpands(sep, count, [first] + tail, [first] + tail');
    ExpandAllConcat(sep, Folded(count), parts[0], folded);
  }

  lemma FoldedExpands(sep: char, count: nat, rest: seq<string>, rest': seq<string>)
    requires Join(sep, rest) == Join(sep, rest') && (rest == [] <==> rest' == [])
    ensures Join(sep, ExpandAll(sep, Texts(Folded(count))) + rest) == Join(sep, UpList(count) + rest')
  {
    if count == 0 {
      assert ExpandAll(sep, Texts(Folded(count))) + rest == rest && UpList(count) + rest' == rest';
    } else {
      ExpandDots(sep, count + 1);
      assert Expand(sep, Dots(count + 1)) == Ups(sep, count) by { assert Dots(2) == ".."; }
      assert ExpandAll(sep, Texts(Folded(count))) == [Ups(sep, count)];
      JoinCons(sep, Ups(sep, count), rest, rest');
      JoinUps(sep, count, rest');
    }
  }

  // ---- expansion is the identity exactly without long runs ----

  lemma {:induction false} UpsLength(sep: char, n: nat)
    requires n >= 1
    ensures |Ups(sep, n)| == 3 * n - 1
  {
    if n > 1 { UpsLength(sep, n - 1); }
  }

  lemma LongRunSplits(s: string, n: nat)
    requires n <= |s| && (n > 0 && n < |s| ==> s[n] != '.') && (s[..n] == Dots(n) || (n == 1 && s[0] != '.'))
    ensures LongRun(s) <==> (n > 2 && s[..n] == Dots(n)) || LongRun(s[n..])
  {
    var rest := s[n..];
    if LongRun(rest) {
      var i :| 0 <= i && i + 3 <= |rest| && rest[i] == '.' && rest[i + 1] == '.' && rest[i + 2] == '.';
      assert s[n + i] == '.' && s[n + i + 1] == '.' && s[n + i + 2] == '.';
    }
    if n > 2 && s[..n] == Dots(n) {
      assert s[..n][0] == '.' && s[..n][1] == '.' && s[..n][2] == '.';
      assert s[0] == '.' && s[0 + 1] == '.' && s[0 + 2] == '.';
    }
    if LongRun(s) {
      var i :| 0 <= i && i + 3 <= |s| && s[i] == '.' && s[i + 1] == '.' && s[i + 2] == '.';
      if i >= n {
        assert rest[i - n] == '.' && rest[i - n + 1] == '.' && rest[i - n + 2] == '.';
      }
    }
  }

  lemma {:induction false} ExpandGrows(sep: char, s: string)
    ensures |Expand(sep, s)| >= |s|
    ensures LongRun(s) ==> |Expand(sep, s)| > |s|
    ensures !LongRun(s) ==> Expand(sep, s) == s
    decreases |s|
  {
    if s != [] {
      var n := if s[0] == '.' then LeadingDots(s) else 1;
      assert s[0] == '.' ==> n >= 1;
      ExpandGrows(sep, s[n..]);
      if s[0] == '.' {
        LongRunSplits(s, n);
        if n > 2 { UpsLength(sep, n - 1); }
        assert s == s[..n] + s[n..];
      } else {
        LongRunAfterOther(s);
        assert s == [s[0]] + s[1..];
      }
    }
  }

  lemma LongRunAfterOther(s: string)
    requires s != [] && s[0] != '.'
    ensures LongRun(s) <==> LongRun(s[1..])
  {
    var rest := s[1..];
    if LongRun(rest) {
      var i :| 0 <= i && i + 3 <= |rest| && rest[i] == '.' && rest[i + 1] == '.' && rest[i + 2] == '.';
      assert s[1 + i] == '.' && s[1 + i + 1] == '.' && s[1 + i + 2] == '.';
    }
    if LongRun(s) {
      var i :| 0 <= i && i + 3 <= |s| && s[i] == '.' && s[i + 1] == '.' && s[i + 2] == '.';
      assert rest[i - 1] == '.' && rest[i - 1 + 1] == '.' && rest[i - 1 + 2] == '.';
    }
  }

  // ---- each run on its own ----

  lemma {:induction false} LeadingDotsEnd(a: string, b: string)
    requires a != [] && a[|a| - 1] != '.'
    ensures LeadingDots(a + b) == LeadingDots(a) < |a|
  {
    if a[0] == '.' {
      assert (a + b)[1..] == a[1..] + b && a[1..][|a| - 2] == a[|a| - 1];
      LeadingDotsEnd(a[1..], b);
    }
  }

  lemma {:induction false} ExpandBehind(sep: char, a: string, b: string)
    requires a == [] || a[|a| - 1] != '.'
    ensures Expand(sep, a + b) == Expand(sep, a) + Expand(sep, b)
    decreases |a|
  {
    hide LeadingDots;
    hide ExpandedRun;
    hide Expand;
    ExpandNothing(sep);
    if a == [] {
      assert a + b == b;
    } else {
      ExpandFirst(sep, a);
      ExpandFirst(sep, a + b);
      LeadingDotsEnd(a, b);
      var n := if a[0] == '.' then LeadingDots(a) else 1;
      assert (a + b)[n..] == a[n..] + b;
      ExpandBehind(sep, a[n..], b);
    }
  }

  lemma UpsAreJoined(sep: char, n: nat)
    requires n > 0
    ensures Ups(sep, n) == Join(sep, UpList(n))
  {
    JoinUps(sep, n, []);
    assert UpList(n) + [] == UpList(n) && [Ups(sep, n)] + [] == [Ups(sep, n)];
  }

  // Every whole run of n dots, wherever it stands, becomes n - 1 parent steps with
  // separators between if n is above two and stays as written otherwise; what stands
  // around it is expanded on its own, and a text without dots is left alone.
  lemma ExpandExactly(sep: char, a: string, n: nat, b: string)
    requires a == [] || a[|a| - 1] != '.'
    requires b == [] || b[0] != '.'
    ensures Expand(sep, a + seq(n, _ => '.') + b) ==
            Expand(sep, a) + (if n <= 2 then seq(n, _ => '.') else Join(sep, seq((n - 1) as nat, _ => ".."))) + Expand(sep, b)
    ensures '.' !in a ==> Expand(sep, a) == a
  {
    hide Expand;
    hide Join;
    var run := Dots(n);
    assert run == seq(n, _ => '.');
    ExpandConcat(sep, a + run, b);
    ExpandBehind(sep, a, run);
    ExpandDots(sep, n);
    if n > 2 {
      UpsAreJoined(sep, n - 1);
      assert UpList(n - 1) == seq((n - 1) as nat, _ => "..");
    }
    ExpandGrows(sep, a);
  }

  predicate AllUps(parts: seq<Part>) { forall i :: 0 <= i < |parts| ==> parts[i].text == ".." }

  lemma {:induction false} CollapseBehind(a: seq<Part>, b: seq<Part>, count: nat)
    requires a != [] && a[|a| - 1].text != ".."
    ensures Collapse(a + b, count) == Collapse(a, count) + Collapse(b, 0)
    decreases |a|
  {
    hide Folded;
    assert (a + b)[1..] == a[1..] + b;
    if |a| == 1 {
      assert a[1..] + b == b && Folded(0) == [] by { NothingFolded(); }
      CollapseEnds(0);
    } else {
      assert a[1..][|a| - 2] == a[|a| - 1];
      CollapseBehind(a[1..], b, if a[0].text == ".." then count + 1 else 0);
    }
  }

  lemma NothingFolded()
    ensures Folded(0) == []
  {
  }

  lemma {:induction false} CollapseRun(ups: seq<Part>, b: seq<Part>, count: nat)
    requires AllUps(ups)
    ensures Collapse(ups + b, count) == Collapse(b, count + |ups|)
    decreases |ups|
  {
    if ups == [] {
      assert ups + b == b;
    } else {
      assert (ups + b)[1..] == ups[1..] + b;
      CollapseRun(ups[1..], b, count + 1);
    }
  }

  lemma {:induction false} NothingToFold(parts: seq<Part>)
    requires forall i :: 0 <= i < |parts| ==> parts[i].text != ".."
    ensures Collapse(parts, 0) == parts
  {
    if parts != [] {
      NothingToFold(parts[1..]);
      assert parts == [parts[0]] + parts[1..];
    }
  }

  // Every whole run of `..` components, wherever it stands, becomes one component of
  // one dot more than the run is long, without matched positions; what stands around
  // it is folded on its own, and a list without `..` is left alone, positions and all.
  lemma CollapseExactly(a: seq<Part>, ups: seq<Part>, b: seq<Part>)
    requires ups != [] && forall i :: 0 <= i < |ups| ==> ups[i].text == ".."
    requires a == [] || a[|a| - 1].text != ".."
    requires b == [] || b[0].text != ".."
    ensures Collapse(a + ups + b, 0) == Collapse(a, 0) + [Part(seq(|ups| + 1, _ => '.'), [])] + Collapse(b, 0)
    ensures (forall i :: 0 <= i < |a| ==> a[i].text != "..") ==> Collapse(a, 0) == a
  {
    hide Collapse;
    assert AllUps(ups);
    CollapseAround(a, ups, b);
    assert Dots(|ups| + 1) == seq(|ups| + 1, _ => '.');
    if forall i :: 0 <= i < |a| ==> a[i].text != ".." { NothingToFold(a); }
  }

  lemma CollapseAround(a: seq<Part>, ups: seq<Part>, b: seq<Part>)
    requires ups != [] && AllUps(ups)
    requires a == [] || a[|a| - 1].text != ".."
    requires b == [] || b[0].text != ".."
    ensures Collapse(a + ups + b, 0) == Collapse(a, 0) + [Part(Dots(|ups| + 1), [])] + Collapse(b, 0)
  {
    hide *;
    CollapseBoth(a, ups + b);
    CollapseFront(ups, b);
    Regrouped(a, ups, b);
    Regrouped(Collapse(a, 0), [Part(Dots(|ups| + 1), [])], Collapse(b, 0));
  }

  lemma Regrouped<T>(x: seq<T>, y: seq<T>, z: seq<T>)
    ensures x + (y + z) == x + y + z
  {
  }

  lemma CollapseFront(ups: seq<Part>, b: seq<Part>)
    requires ups != [] && AllUps(ups) && (b == [] || b[0].text != "..")
    ensures Collapse(ups + b, 0) == [Part(Dots(|ups| + 1), [])] + Collapse(b, 0)
  {
    hide Collapse;
    hide AllUps;
    CollapseRun(ups, b, 0);
    CollapseStops(b, |ups|);
  }

  lemma CollapseBoth(a: seq<Part>, rest: seq<Part>)
    requires a == [] || a[|a| - 1].text != ".."
    ensures Collapse(a + rest, 0) == Collapse(a, 0) + Collapse(rest, 0)
  {
    hide Collapse;
    if a == [] {
      assert a + rest == rest;
      CollapseEnds(0);
      NothingFolded();
    } else {
      CollapseBehind(a, rest, 0);
    }
  }

  lemma CollapseStops(b: seq<Part>, count: nat)
    requires b == [] || b[0].text != ".."
    ensures Collapse(b, count) == Folded(count) + Collapse(b, 0)
  {
  }

  lemma {:induction false} JoinGrows(sep: char, texts: seq<string>)
    ensures |Join(sep, ExpandAll(sep, texts))| >= |Join(sep, texts)|
    ensures (exists i :: 0 <= i < |texts| && LongRun(texts[i])) ==>
              |Join(sep, ExpandAll(sep, texts))| > |Join(sep, texts)|
  {
    if texts != [] {
      ExpandGrows(sep, texts[0]);
      JoinGrows(sep, texts[1..]);
      assert ExpandAll(sep, texts)[1..] == ExpandAll(sep, texts[1..]);
      if exists i :: 0 <= i < |texts| && LongRun(texts[i]) {
        var i :| 0 <= i < |texts| && LongRun(texts[i]);
        if i > 0 { assert texts[1..][i - 1] == texts[i]; }
      }
    }
  }

  // Folding a component list, joining it and expanding the text gives back the join
  // of the original components if and only if no component has three dots in a row.
  lemma CollapseRoundTrip(sep: char, parts: seq<Part>)
    requires sep != '.'
    ensures Expand(sep, Join(sep, Texts(Collapse(parts, 0)))) == Join(sep, Texts(parts)) <==>
            forall i :: 0 <= i < |parts| ==> !LongRun(parts[i].text)
  {
    var texts := Texts(parts);
    ExpandJoin(sep, Texts(Collapse(parts, 0)));
    CollapseExpands(sep, parts, 0);
    assert UpList(0) + ExpandAll(sep, texts) == ExpandAll(sep, texts);
    JoinGrows(sep, texts);
    if forall i :: 0 <= i < |parts| ==> !LongRun(parts[i].text) {
      forall i | 0 <= i < |texts| ensures Expand(sep, texts[i]) == texts[i] { ExpandGrows(sep, texts[i]); }
      assert ExpandAll(sep, texts) == texts;
    } else {
      var i :| 0 <= i < |parts| && LongRun(parts[i].text);
      assert LongRun(texts[i]);
    }
  }

  // A component of three dots comes back as two parent steps.
  lemma LongRunHappens(sep: char)
    requires sep != '.'
    ensures
      var parts := [Part("...", [])];
      Expand(sep, Join(sep, Texts(Collapse(parts, 0)))) != Join(sep, Texts(parts))
  {
    hide Expand;
    hide Join;
    hide Collapse;
    var parts := [Part("...", [])];
    CollapseRoundTrip(sep, parts);
    assert parts[0].text[0] == '.' && parts[0].text[1] == '.' && parts[0].text[2] == '.';
    assert LongRun(parts[0].text);
  }
}
