// Vocabulary shared by every component: optional values, and the facts about
// Unicode text that the program takes from its standard library.
module Text {

  datatype Option<+T> = None | Some(value: T)

  function Min(a: nat, b: nat): (r: nat)
    ensures r <= a && r <= b
  {
    if a < b then a else b
  }

  // The word stands in the text at a position.
  predicate Occurs(s: string, word: string, at: nat) {
    at + |word| <= |s| && s[at..at + |word|] == word
  }

  // Bytes a character takes in UTF-8; `str::len` counts these.
  function Utf8Width(c: char): nat {
    if c as int < 0x80 then 1 else if c as int < 0x800 then 2 else if c as int < 0x1_0000 then 3 else 4
  }

  function Utf8Length(s: string): nat {
    if s == [] then 0 else Utf8Width(s[0]) + Utf8Length(s[1..])
  }

  // `char::is_control`: the Unicode general category Cc.
  predicate IsControl(c: char) {
    c as int < 0x20 || 0x7f <= c as int < 0xa0
  }

  predicate HasControl(s: string) {
    exists i :: 0 <= i < |s| && IsControl(s[i])
  }

  predicate IsAsciiAlphanumeric(c: char) {
    '0' <= c <= '9' || 'a' <= c <= 'z' || 'A' <= c <= 'Z'
  }

  // `char::is_alphanumeric` outside ASCII is a table of the Unicode standard and
  // stays a parameter of the model; inside ASCII it is exactly letters and digits.
  ghost predicate AgreesOnAscii(alphanumeric: char -> bool) {
    forall c: char {:trigger alphanumeric(c)} :: c as int < 0x80 ==> alphanumeric(c) == IsAsciiAlphanumeric(c)
  }

  // `char::is_whitespace`: the Unicode property White_Space.
  predicate IsWhitespace(c: char) {
    var n := c as int;
    || 0x9 <= n <= 0xd || n == 0x20 || n == 0x85 || n == 0xa0 || n == 0x1680 || 0x2000 <= n <= 0x200a
    || n == 0x2028 || n == 0x2029 || n == 0x202f || n == 0x205f || n == 0x3000
  }

  // No character is both alphanumeric and white space.
  ghost predicate NeverWhitespace(alphanumeric: char -> bool) {
    forall c: char {:trigger alphanumeric(c)} :: alphanumeric(c) ==> !IsWhitespace(c)
  }

  // `str::trim`.
  function Trim(s: string): string
    decreases |s|
  {
    if s != [] && IsWhitespace(s[0]) then Trim(s[1..])
    else if s != [] && IsWhitespace(s[|s| - 1]) then Trim(s[..|s| - 1])
    else s
  }

  predicate AllWhitespace(s: string) { forall i :: 0 <= i < |s| ==> IsWhitespace(s[i]) }

  // Trimming removes exactly the white space around a text.
  lemma {:induction false} TrimExactly(before: string, t: string, after: string)
    requires AllWhitespace(before) && AllWhitespace(after)
    requires t == "" ==> after == ""
    requires t != "" ==> !IsWhitespace(t[0]) && !IsWhitespace(t[|t| - 1])
    ensures Trim(before + t + after) == t
    decreases |before| + |after|
  {
    hide IsWhitespace;
    var s := before + t + after;
    if before != "" {
      assert s[0] == before[0] && s[1..] == before[1..] + t + after;
      TrimExactly(before[1..], t, after);
    } else if after != "" {
      assert s[0] == t[0] && s[|s| - 1] == after[|after| - 1] && s[..|s| - 1] == before + t + after[..|after| - 1];
      TrimExactly(before, t, after[..|after| - 1]);
    } else {
      assert s == t;
    }
  }

  lemma {:induction false} TrimSplits(s: string) returns (before: string, after: string)
    ensures s == before + Trim(s) + after && AllWhitespace(before) && AllWhitespace(after)
    ensures Trim(s) != "" ==> !IsWhitespace(Trim(s)[0]) && !IsWhitespace(Trim(s)[|Trim(s)| - 1])
    decreases |s|
  {
    hide IsWhitespace;
    if s != [] && IsWhitespace(s[0]) {
      before, after := TrimSplits(s[1..]);
      before := [s[0]] + before;
    } else if s != [] && IsWhitespace(s[|s| - 1]) {
      before, after := TrimSplits(s[..|s| - 1]);
      after := after + [s[|s| - 1]];
    } else {
      before, after := "", "";
    }
  }

  // `str::replace` of one character by a string.
  function Replace(s: string, c: char, into: string): string {
    if s == [] then "" else (if s[0] == c then into else [s[0]]) + Replace(s[1..], c, into)
  }

  lemma ReplaceConcat(a: string, b: string, c: char, into: string)
    ensures Replace(a + b, c, into) == Replace(a, c, into) + Replace(b, c, into)
  {
    if a == [] {
      assert a + b == b;
    } else {
      assert (a + b)[1..] == a[1..] + b;
      ReplaceConcat(a[1..], b, c, into);
    }
  }

  // `str::split_once` on a one-character separator.
  function SplitOnce(s: string, separator: char): (r: Option<(string, string)>)
    ensures r.Some? <==> separator in s
    ensures r.Some? ==> separator !in r.value.0 && s == r.value.0 + [separator] + r.value.1
  {
    if s == [] then None
    else if s[0] == separator then Some(("", s[1..]))
    else
      match SplitOnce(s[1..], separator)
      case None => None
      case Some((before, after)) => Some(([s[0]] + before, after))
  }

  lemma {:induction false} SplitOnceAt(before: string, separator: char, after: string)
    requires separator !in before
    ensures SplitOnce(before + [separator] + after, separator) == Some((before, after))
  {
    var s := before + [separator] + after;
    if before == [] {
      assert s[1..] == after;
    } else {
      assert s[1..] == before[1..] + [separator] + after;
      SplitOnceAt(before[1..], separator, after);
      assert [before[0]] + before[1..] == before;
    }
  }

  // ---- string order ----

  // Rust compares strings by their bytes, which for UTF-8 is by code points.
  predicate LexLess(a: string, b: string) {
    b != [] && (a == [] || a[0] < b[0] || (a[0] == b[0] && LexLess(a[1..], b[1..])))
  }

  lemma LexCons(c: char, d: char, x: string, y: string)
    ensures LexLess([c] + x, [d] + y) <==> c < d || (c == d && LexLess(x, y))
  {
    assert ([c] + x)[1..] == x && ([d] + y)[1..] == y;
  }

  lemma LexIrreflexive(a: string)
    ensures !LexLess(a, a)
  {
  }

  lemma LexTotal(a: string, b: string)
    ensures LexLess(a, b) || LexLess(b, a) || a == b
  {
    if a != [] && b != [] {
      LexTotal(a[1..], b[1..]);
      assert a == [a[0]] + a[1..] && b == [b[0]] + b[1..];
    }
  }

  lemma LexTransitive(a: string, b: string, c: string)
    requires LexLess(a, b) && LexLess(b, c)
    ensures LexLess(a, c)
  {
  }

  lemma {:induction false} LexSamePrefix(p: string, x: string, y: string)
    ensures LexLess(p + x, p + y) <==> LexLess(x, y)
  {
    hide LexLess;
    if p == [] {
      assert p + x == x && p + y == y;
    } else {
      LexSamePrefix(p[1..], x, y);
      assert p + x == [p[0]] + (p[1..] + x) && p + y == [p[0]] + (p[1..] + y);
      LexCons(p[0], p[0], p[1..] + x, p[1..] + y);
    }
  }

  lemma {:induction false} LexSameSuffix(x: string, y: string, s: string)
    requires |x| == |y|
    ensures LexLess(x + s, y + s) <==> LexLess(x, y)
  {
    hide LexLess;
    if x == [] {
      assert x + s == s && y + s == s;
      LexIrreflexive(s);
      LexIrreflexive([]);
    } else {
      var a, b := x[1..], y[1..];
      LexSameSuffix(a, b, s);
      assert x == [x[0]] + a && y == [y[0]] + b;
      LexCons(x[0], y[0], a, b);
      assert x + s == [x[0]] + (a + s) && y + s == [y[0]] + (b + s);
      LexCons(x[0], y[0], a + s, b + s);
    }
  }
}
