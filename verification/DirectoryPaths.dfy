// Directory keys and keyword search (nebula_app/src/directory_history.rs).
module DirectoryPaths {
  import opened Text

  datatype Platform = Unix | Windows

  predicate Slash(c: char) { c == '/' || c == '\\' }

  // `std::path::is_separator`.
  predicate Separator(platform: Platform, c: char) {
    c == '/' || (platform == Windows && c == '\\')
  }

  function RootLength(path: string): (n: nat)
    ensures n <= |path|
  {
    if |path| > 1 && Utf8Width(path[0]) == 1 && path[1] == ':' then (if |path| < 3 then |path| else 3)
    else if path != [] && Slash(path[0]) then 1
    else 0
  }

  function Trimmed(path: string): string
    decreases |path|
  {
    if |path| > RootLength(path) && Slash(path[|path| - 1]) then Trimmed(path[..|path| - 1]) else path
  }

  // The shortest prefix that keeps the root and loses only separators.
  ghost predicate TrimsTo(path: string, r: string) {
    && RootLength(path) <= |r| <= |path| && r == path[..|r|]
    && (forall i :: |r| <= i < |path| ==> Slash(path[i]))
    && (|r| > RootLength(path) ==> !Slash(r[|r| - 1]))
  }

  lemma RootStays(path: string, n: nat)
    requires RootLength(path) <= n <= |path|
    ensures RootLength(path[..n]) == RootLength(path)
  {
  }

  // That is what trimming computes, and nothing else is such a prefix.
  lemma {:induction false} TrimmedExactly(path: string, r: string)
    ensures TrimsTo(path, r) <==> r == Trimmed(path)
    decreases |path|
  {
    var n := |path|;
    if n > RootLength(path) && Slash(path[n - 1]) {
      var shorter := path[..n - 1];
      RootStays(path, n - 1);
      TrimmedExactly(shorter, r);
      if TrimsTo(path, r) {
        assert r == shorter[..|r|];
      }
      if TrimsTo(shorter, r) {
        assert r == path[..|r|];
      }
    } else if TrimsTo(path, r) {
      assert r == path;
    }
  }

  lemma TrimmingIsIdempotent(path: string)
    ensures Trimmed(Trimmed(path)) == Trimmed(path)
  {
    var r := Trimmed(path);
    TrimmedExactly(path, r);
    RootStays(path, |r|);
    TrimmedExactly(r, r);
  }

  method TrimTrailingSeparators(path: string) returns (r: string)
    ensures TrimsTo(path, r)
    ensures r == Trimmed(path)
  {
    TrimmedExactly(path, Trimmed(path));
    r := path;
    while |r| > RootLength(r) && Slash(r[|r| - 1])
      invariant Trimmed(r) == Trimmed(path)
      decreases |r|
    {
      r := r[..|r| - 1];
    }
  }

  function Lowered(c: char): char { if 'A' <= c <= 'Z' then c - 'A' + 'a' else c }

  function Folded(s: string): string {
    seq(|s|, i requires 0 <= i < |s| => if s[i] == '/' then '\\' else Lowered(s[i]))
  }

  // The key under which a directory is counted.
  function Normalize(platform: Platform, value: string): Option<string> {
    if value == [] || HasControl(value) then None
    else Some(Trimmed(if platform == Windows then Folded(value) else value))
  }

  lemma FoldingIsIdempotent(s: string)
    ensures Folded(Folded(s)) == Folded(s)
  {
  }

  lemma FoldedPrefix(s: string, n: nat)
    requires n <= |s|
    ensures Folded(s[..n]) == Folded(s)[..n]
  {
  }

  lemma FoldingAddsNoControl(s: string)
    requires !HasControl(s)
    ensures !HasControl(Folded(s))
  {
    forall i | 0 <= i < |Folded(s)| ensures !IsControl(Folded(s)[i]) { assert !IsControl(s[i]); }
  }

  // A key is its own key, so looking a key up again finds the same directory.
  lemma NormalizeIsIdempotent(platform: Platform, value: string)
    requires Normalize(platform, value).Some?
    ensures
      var key := Normalize(platform, value).value;
      Normalize(platform, key) == Some(key)
  {
    hide Trimmed;
    hide Folded;
    hide HasControl;
    var text := if platform == Windows then Folded(value) else value;
    var key := Trimmed(text);
    assert |text| == |value| && !HasControl(text) by { if platform == Windows { FoldedLength(value); FoldingAddsNoControl(value); } }
    TrimmedExactly(text, key);
    TrimmingIsIdempotent(text);
    PrefixHasNoControl(text, |key|);
    if platform == Windows {
      FoldingIsIdempotent(value);
      FoldedPrefix(Folded(value), |key|);
    }
  }

  lemma FoldedLength(s: string)
    ensures |Folded(s)| == |s|
  {
  }

  lemma PrefixHasNoControl(s: string, n: nat)
    requires n <= |s| && !HasControl(s)
    ensures !HasControl(s[..n])
  {
    forall i | 0 <= i < n ensures !IsControl(s[..n][i]) { assert s[..n][i] == s[i]; }
  }

  // ---- keys, by their characters ----

  // `body` is the path without any of its trailing separators.
  ghost predicate WithoutSeparators(path: string, body: string) {
    && |body| <= |path| && body == path[..|body|]
    && (forall i :: |body| <= i < |path| ==> path[i] == '/' || path[i] == '\\')
    && (body != "" ==> body[|body| - 1] != '/' && body[|body| - 1] != '\\')
  }

  // All trailing separators go, except the one that makes a root: the first of a path of
  // nothing else, and the one behind a drive.
  function Shortened(path: string, body: string): string
    requires |body| <= |path|
  {
    if body == "" && path != "" then path[..1]
    else if |body| == 2 && body[0] as int < 0x80 && body[1] == ':' && |path| > 2 then path[..3]
    else body
  }

  lemma TrimmedKeepsRoots(path: string, body: string)
    requires WithoutSeparators(path, body)
    ensures Trimmed(path) == Shortened(path, body)
  {
    var r := Shortened(path, body);
    if |r| > 0 && |r| == |body| { assert r[|r| - 1] == body[|body| - 1]; }
    assert |body| >= 2 ==> body[0] == path[0] && body[1] == path[1];
    assert |path| >= 2 && |body| < 2 ==> path[1] == '/' || path[1] == '\\';
    assert TrimsTo(path, r);
    TrimmedExactly(path, r);
  }

  lemma FoldedBody(path: string, body: string)
    requires WithoutSeparators(path, body)
    ensures WithoutSeparators(Folded(path), Folded(body)) && Shortened(Folded(path), Folded(body)) == Folded(Shortened(path, body))
  {
    FoldedPrefix(path, |body|);
    if path != "" { FoldedPrefix(path, 1); }
    if |path| > 2 { FoldedPrefix(path, 3); }
  }

  // A key exists for every printable path that is not empty. It is the path without its
  // superfluous separators; on Windows separators count alike and so do the two cases
  // of an ASCII letter.
  lemma KeyExactly(platform: Platform, value: string, body: string)
    requires WithoutSeparators(value, body)
    ensures Normalize(platform, value).Some? <==>
            value != "" && forall i :: 0 <= i < |value| ==> 0x20 <= value[i] as int < 0x7f || 0xa0 <= value[i] as int
    ensures Normalize(platform, value).Some? ==>
              var key, kept := Normalize(platform, value).value, Shortened(value, body);
              && |key| == |kept|
              && forall i :: 0 <= i < |kept| ==>
                   key[i] == if platform == Unix then kept[i]
                             else if kept[i] == '/' then '\\'
                             else if 'A' <= kept[i] <= 'Z' then (kept[i] as int + 32) as char
                             else kept[i]
  {
    TrimmedKeepsRoots(value, body);
    if platform == Windows {
      FoldedBody(value, body);
      TrimmedKeepsRoots(Folded(value), Folded(body));
    }
    hide Trimmed;
  }

  // ---- keyword search ----

  // The last occurrence that starts at or before `from`.
  function LastBefore(s: string, word: string, from: nat): (r: Option<nat>)
    ensures r.Some? ==> r.value <= from && Occurs(s, word, r.value)
    ensures forall i: nat :: i <= from && Occurs(s, word, i) ==> r.Some? && i <= r.value
  {
    if Occurs(s, word, from) then Some(from)
    else if from == 0 then None
    else LastBefore(s, word, from - 1)
  }

  // `str::rfind`.
  function RFind(s: string, word: string): (r: Option<nat>)
    ensures r.Some? ==> Occurs(s, word, r.value)
    ensures forall i: nat :: Occurs(s, word, i) ==> r.Some? && i <= r.value
  {
    LastBefore(s, word, |s|)
  }

  // Ordered, non-overlapping occurrences of all the words inside `s`.
  ghost predicate Placed(s: string, words: seq<string>, at: seq<nat>) {
    && |at| == |words|
    && (forall i :: 0 <= i < |words| ==> Occurs(s, words[i], at[i]))
    && (forall i, j :: 0 <= i < j < |words| ==> at[i] + |words[i]| <= at[j])
  }

  ghost predicate Placeable(s: string, words: seq<string>) {
    exists at: seq<nat> :: Placed(s, words, at)
  }

  predicate HasSeparator(platform: Platform, s: string) {
    exists i :: 0 <= i < |s| && Separator(platform, s[i])
  }

  // ... and no separator behind the last of them.
  ghost predicate PlacedAtEnd(platform: Platform, key: string, words: seq<string>, at: seq<nat>) {
    && Placed(key, words, at)
    && (words != [] ==>
          forall i :: at[|at| - 1] + |words[|words| - 1]| <= i < |key| ==> key[i] != '/' && (platform == Windows ==> key[i] != '\\'))
  }

  lemma SeparatorsBehind(platform: Platform, key: string, from: nat)
    requires from <= |key|
    ensures !HasSeparator(platform, key[from..]) <==> forall i :: from <= i < |key| ==> key[i] != '/' && (platform == Windows ==> key[i] != '\\')
  {
    var rest := key[from..];
    assert forall i :: from <= i < |key| ==> key[i] == rest[i - from];
    assert forall i :: 0 <= i < |rest| ==> rest[i] == key[from + i];
  }

  ghost predicate Matches(platform: Platform, key: string, words: seq<string>) {
    exists at: seq<nat> :: PlacedAtEnd(platform, key, words, at)
  }

  // Taking the last occurrence of the last word never spoils a placement.
  lemma PlacedBeforeLast(s: string, words: seq<string>, at: seq<nat>)
    requires words != [] && Placed(s, words, at)
    ensures
      var n := |words| - 1;
      var last := RFind(s, words[n]);
      last.Some? && at[n] <= last.value && Placed(s[..last.value], words[..n], at[..n])
  {
    var n := |words| - 1;
    var last := RFind(s, words[n]).value;
    assert Occurs(s, words[n], at[n]);
    forall i | 0 <= i < n ensures Occurs(s[..last], words[..n][i], at[..n][i]) {
      assert at[i] + |words[i]| <= at[n];
      assert s[..last][at[i]..at[i] + |words[i]|] == s[at[i]..at[i] + |words[i]|];
    }
  }

  lemma PlacedWithLast(s: string, words: seq<string>, last: nat, at: seq<nat>)
    requires words != [] && Occurs(s, words[|words| - 1], last) && last <= |s|
    requires Placed(s[..last], words[..|words| - 1], at)
    ensures Placed(s, words, at + [last])
  {
    var n := |words| - 1;
    var all := at + [last];
    forall i | 0 <= i < |words| ensures Occurs(s, words[i], all[i]) && (i < n ==> all[i] + |words[i]| <= last) {
      if i < n {
        assert Occurs(s[..last], words[..n][i], at[i]);
        assert s[..last][at[i]..at[i] + |words[i]|] == s[at[i]..at[i] + |words[i]|];
      }
    }
    forall i, j | 0 <= i < j < |words| ensures all[i] + |words[i]| <= all[j] {
      if j < n { assert at[i] + |words[..n][i]| <= at[j]; }
    }
  }

  lemma GreedyStep(s: string, words: seq<string>)
    requires words != []
    ensures
      var last := RFind(s, words[|words| - 1]);
      Placeable(s, words) <==> last.Some? && Placeable(s[..last.value], words[..|words| - 1])
  {
    var n := |words| - 1;
    var last := RFind(s, words[n]);
    if Placeable(s, words) {
      var at: seq<nat> :| Placed(s, words, at);
      PlacedBeforeLast(s, words, at);
    }
    if last.Some? && Placeable(s[..last.value], words[..n]) {
      var at: seq<nat> :| Placed(s[..last.value], words[..n], at);
      PlacedWithLast(s, words, last.value, at);
    }
  }

  lemma SeparatorFreeSuffix(platform: Platform, key: string, from: nat, to: nat)
    requires from <= to <= |key| && !HasSeparator(platform, key[from..])
    ensures !HasSeparator(platform, key[to..])
  {
    forall i | 0 <= i < |key[to..]| ensures !Separator(platform, key[to..][i]) {
      assert key[to..][i] == key[from..][i + to - from];
    }
  }

  lemma LastWordFits(platform: Platform, key: string, words: seq<string>, at: seq<nat>)
    requires words != [] && PlacedAtEnd(platform, key, words, at)
    ensures
      var n := |words| - 1;
      var last := RFind(key, words[n]);
      last.Some? && !HasSeparator(platform, key[last.value + |words[n]|..]) && Placeable(key[..last.value], words[..n])
  {
    hide HasSeparator;
    hide RFind;
    var n := |words| - 1;
    PlacedBeforeLast(key, words, at);
    SeparatorsBehind(platform, key, at[n] + |words[n]|);
    SeparatorFreeSuffix(platform, key, at[n] + |words[n]|, RFind(key, words[n]).value + |words[n]|);
  }

  lemma LastWord(platform: Platform, key: string, words: seq<string>)
    requires words != []
    ensures
      var n := |words| - 1;
      var last := RFind(key, words[n]);
      Matches(platform, key, words) <==>
        last.Some? && !HasSeparator(platform, key[last.value + |words[n]|..]) && Placeable(key[..last.value], words[..n])
  {
    hide HasSeparator;
    hide RFind;
    hide Placed;
    var n := |words| - 1;
    var last := RFind(key, words[n]);
    if Matches(platform, key, words) {
      var at: seq<nat> :| PlacedAtEnd(platform, key, words, at);
      LastWordFits(platform, key, words, at);
    }
    if last.Some? && !HasSeparator(platform, key[last.value + |words[n]|..]) && Placeable(key[..last.value], words[..n]) {
      var at: seq<nat> :| Placed(key[..last.value], words[..n], at);
      PlacedWithLast(key, words, last.value, at);
      assert (at + [last.value])[|at + [last.value]| - 1] == last.value;
      SeparatorsBehind(platform, key, last.value + |words[n]|);
      assert PlacedAtEnd(platform, key, words, at + [last.value]);
    }
  }

  lemma NothingToPlace(s: string)
    ensures Placeable(s, [])
  {
    assert Placed(s, [], []);
  }

  // The greedy right-to-left search finds a match exactly when there is one.
  method OrderedKeywordMatch(platform: Platform, path: string, keywords: seq<string>) returns (r: bool)
    ensures r <==> keywords == [] || (Normalize(platform, path).Some? && Matches(platform, Normalize(platform, path).value, keywords))
  {
    hide RFind;
    hide Placed;
    if keywords == [] {
      return true;
    }
    var n := |keywords| - 1;
    var key := Normalize(platform, path);
    if key.None? {
      return false;
    }
    LastWord(platform, key.value, keywords);
    var last := RFind(key.value, keywords[n]);
    if last.None? {
      return false;
    }
    if HasSeparator(platform, key.value[last.value + |keywords[n]|..]) {
      return false;
    }
    var head, left := key.value[..last.value], n;
    while left > 0
      invariant 0 <= left <= n
      invariant Matches(platform, key.value, keywords) <==> Placeable(head, keywords[..left])
    {
      GreedyStep(head, keywords[..left]);
      assert keywords[..left][..left - 1] == keywords[..left - 1];
      var index := RFind(head, keywords[left - 1]);
      if index.None? {
        return false;
      }
      head, left := head[..index.value], left - 1;
    }
    assert keywords[..0] == [];
    NothingToPlace(head);
    r := true;
  }
}
