/** The Foundation string operations the header parser relies on, restated over
    `seq<char>`: prefix tests, ASCII case-insensitive substring search, trimming
    a character set from both ends, and splitting on separator characters. */
module Strings {

  /** Foundation's `.whitespacesAndNewlines`, restricted to the characters that
      occur in proposal headers. */
  const Whitespace: set<char> := {' ', '\t', '\n', '\r'}

  /** `String.hasPrefix`. */
  predicate StartsWith(s: string, prefix: string) {
    |prefix| <= |s| && s[..|prefix|] == prefix
  }

  /** `s` starts with `prefix` exactly when it is `prefix` followed by the rest of `s`. */
  lemma StartsWithConcat(s: string, prefix: string)
    ensures StartsWith(s, prefix) <==> |prefix| <= |s| && s == prefix + s[|prefix|..]
  {
    if |prefix| <= |s| && s == prefix + s[|prefix|..] {
      assert s[..|prefix|] == (prefix + s[|prefix|..])[..|prefix|];
    }
    if StartsWith(s, prefix) {
      assert s == s[..|prefix|] + s[|prefix|..];
    }
  }

  /** No character of `s` is in `cs`. */
  predicate NoneIn(s: string, cs: set<char>) {
    forall k :: 0 <= k < |s| ==> s[k] !in cs
  }

  /** ASCII case folding, the part of `localizedCaseInsensitiveContains` that
      matters for the English status and version phrases. */
  function LowerChar(c: char): char {
    if 'A' <= c <= 'Z' then (c as int + 32) as char else c
  }

  /** `pat` occurs at index `i` of `text`, ignoring ASCII case. */
  predicate MatchesAt(text: string, pat: string, i: int) {
    0 <= i && i + |pat| <= |text| && forall k :: 0 <= k < |pat| ==> LowerChar(text[i + k]) == LowerChar(pat[k])
  }

  /** `String.localizedCaseInsensitiveContains`, with case folding limited to ASCII. */
  predicate ContainsCI(text: string, pat: string) {
    exists i :: 0 <= i <= |text| - |pat| && MatchesAt(text, pat, i)
  }

  /** The text with every ASCII capital lowered. */
  function Lower(s: string): (r: string)
    ensures |r| == |s| && forall k :: 0 <= k < |s| ==> r[k] == LowerChar(s[k])
  {
    seq(|s|, k requires 0 <= k < |s| => LowerChar(s[k]))
  }

  /** The lowered `pat` is the slice of the lowered `text` at `i`. */
  predicate LowerSliceAt(text: string, pat: string, i: int) {
    0 <= i && i + |pat| <= |text| && Lower(text)[i..i + |pat|] == Lower(pat)
  }

  /** Reference characterisation of the case-insensitive search: `pat` occurs
      in `text` exactly when the lowered pattern is a slice of the lowered text. */
  lemma ContainsCIAsLowerSlice(text: string, pat: string)
    ensures ContainsCI(text, pat) <==> exists i :: LowerSliceAt(text, pat, i)
  {
    var lt, lp := Lower(text), Lower(pat);
    forall i | 0 <= i <= |text| - |pat|
      ensures MatchesAt(text, pat, i) <==> LowerSliceAt(text, pat, i)
    {
      var slice := lt[i..i + |pat|];
      assert forall k :: 0 <= k < |pat| ==> slice[k] == lt[i + k];
      if MatchesAt(text, pat, i) {
        assert slice == lp;
      }
    }
    if exists i :: LowerSliceAt(text, pat, i) {
      var i :| LowerSliceAt(text, pat, i);
      assert MatchesAt(text, pat, i);
    }
  }

  /** A phrase that is longer than the text cannot occur in it. */
  lemma LongerNotContained(text: string, pat: string)
    requires |text| < |pat|
    ensures !ContainsCI(text, pat)
  {
  }

  /** If some character of `pat` (after folding) appears nowhere in `text`,
      then `pat` does not occur in `text`. */
  lemma MissingCharNotContained(text: string, pat: string, m: nat)
    requires m < |pat|
    requires forall k :: 0 <= k < |text| ==> LowerChar(text[k]) != LowerChar(pat[m])
    ensures !ContainsCI(text, pat)
  {
    forall i ensures !MatchesAt(text, pat, i) {
      if 0 <= i && i + |pat| <= |text| {
        assert LowerChar(text[i + m]) != LowerChar(pat[m]);
      }
    }
  }

  /** If two adjacent characters of `pat` (after folding) are never adjacent
      in `text`, then `pat` does not occur in `text`. */
  lemma MissingPairNotContained(text: string, pat: string, m: nat)
    requires m + 1 < |pat|
    requires forall k :: 0 <= k < |text| - 1 ==>
      LowerChar(text[k]) != LowerChar(pat[m]) || LowerChar(text[k + 1]) != LowerChar(pat[m + 1])
    ensures !ContainsCI(text, pat)
  {
    forall i ensures !MatchesAt(text, pat, i) {
      if 0 <= i && i + |pat| <= |text| {
        assert LowerChar(text[i + m]) != LowerChar(pat[m]) || LowerChar(text[i + m + 1]) != LowerChar(pat[m + 1]);
      }
    }
  }

  /** `pat` does not occur when every candidate position `i` has a mismatch,
      at offset `w(i)`. */
  lemma MismatchEverywhere(text: string, pat: string, w: int -> int)
    requires forall i :: 0 <= i && i + |pat| <= |text| ==>
      0 <= w(i) < |pat| && LowerChar(text[i + w(i)]) != LowerChar(pat[w(i)])
    ensures !ContainsCI(text, pat)
  {
    forall i ensures !MatchesAt(text, pat, i) {
      if 0 <= i && i + |pat| <= |text| {
        assert LowerChar(text[i + w(i)]) != LowerChar(pat[w(i)]);
      }
    }
  }

  // ---------------------------------------------------------------------
  // Trimming (`trimmingCharacters(in:)`)
  // ---------------------------------------------------------------------

  /** The first index at or after `i` whose character is not in `cs`. */
  function SkipIn(s: string, cs: set<char>, i: nat): (j: nat)
    requires i <= |s|
    ensures i <= j <= |s|
    ensures forall k :: i <= k < j ==> s[k] in cs
    ensures j < |s| ==> s[j] !in cs
    decreases |s| - i
  {
    if i < |s| && s[i] in cs then SkipIn(s, cs, i + 1) else i
  }

  /** The first index at or after `i` whose character is in `cs`, or `|s|`. */
  function SkipOut(s: string, cs: set<char>, i: nat): (j: nat)
    requires i <= |s|
    ensures i <= j <= |s|
    ensures forall k :: i <= k < j ==> s[k] !in cs
    ensures j < |s| ==> s[j] in cs
    decreases |s| - i
  {
    if i < |s| && s[i] !in cs then SkipOut(s, cs, i + 1) else i
  }

  /** Walking back from `hi` towards `lo`, the end of the last character not in `cs`. */
  function SkipInBack(s: string, cs: set<char>, lo: nat, hi: nat): (j: nat)
    requires lo <= hi <= |s|
    ensures lo <= j <= hi
    ensures forall k :: j <= k < hi ==> s[k] in cs
    ensures lo < j ==> s[j - 1] !in cs
    decreases hi
  {
    if lo < hi && s[hi - 1] in cs then SkipInBack(s, cs, lo, hi - 1) else hi
  }

  /** `r` is `s` with every leading and trailing character of `cs` removed:
      a slice of `s` whose outside lies in `cs` and whose two ends do not. */
  ghost predicate IsTrimOf(r: string, s: string, cs: set<char>) {
    exists i, j ::
      && 0 <= i <= j <= |s|
      && r == s[i..j]
      && (forall k :: 0 <= k < i ==> s[k] in cs)
      && (forall k :: j <= k < |s| ==> s[k] in cs)
      && (i < j ==> s[i] !in cs && s[j - 1] !in cs)
  }

  /** `trimmingCharacters(in: cs)`. */
  function Trim(s: string, cs: set<char>): (r: string)
    ensures IsTrimOf(r, s, cs)
    ensures |r| > 0 ==> r[0] !in cs && r[|r| - 1] !in cs
  {
    var i := SkipIn(s, cs, 0);
    var j := SkipInBack(s, cs, i, |s|);
    s[i..j]
  }

  /** There is exactly one trim of a string, so `Trim` is fully determined by
      `IsTrimOf`. */
  lemma TrimUnique(r1: string, r2: string, s: string, cs: set<char>)
    requires IsTrimOf(r1, s, cs) && IsTrimOf(r2, s, cs)
    ensures r1 == r2
  {
    var i1, j1 :| 0 <= i1 <= j1 <= |s| && r1 == s[i1..j1]
      && (forall k :: 0 <= k < i1 ==> s[k] in cs)
      && (forall k :: j1 <= k < |s| ==> s[k] in cs)
      && (i1 < j1 ==> s[i1] !in cs && s[j1 - 1] !in cs);
    var i2, j2 :| 0 <= i2 <= j2 <= |s| && r2 == s[i2..j2]
      && (forall k :: 0 <= k < i2 ==> s[k] in cs)
      && (forall k :: j2 <= k < |s| ==> s[k] in cs)
      && (i2 < j2 ==> s[i2] !in cs && s[j2 - 1] !in cs);
    if i1 < j1 && i2 < j2 {
      // Both non-empty: each start is the first character outside cs,
      // each end follows the last one.
      assert i1 == i2 && j1 == j2;
    }
  }

  /** A string whose ends lie outside `cs` is its own trim. */
  lemma TrimNoop(s: string, cs: set<char>)
    requires |s| > 0 ==> s[0] !in cs && s[|s| - 1] !in cs
    ensures Trim(s, cs) == s
  {
    assert IsTrimOf(s, s, cs) by {
      assert s == s[0..|s|];
    }
    TrimUnique(Trim(s, cs), s, s, cs);
  }

  /** Trimming removes exactly a border drawn from `cs` around a middle
      whose ends lie outside `cs`. */
  lemma TrimBorder(before: string, mid: string, after: string, cs: set<char>)
    requires forall k :: 0 <= k < |before| ==> before[k] in cs
    requires forall k :: 0 <= k < |after| ==> after[k] in cs
    requires |mid| > 0 && mid[0] !in cs && mid[|mid| - 1] !in cs
    ensures Trim(before + mid + after, cs) == mid
  {
    var s := before + mid + after;
    var i := |before|;
    var j := |before| + |mid|;
    assert mid == s[i..j];
    assert forall k :: 0 <= k < i ==> s[k] == before[k];
    assert forall k :: j <= k < |s| ==> s[k] == after[k - j];
    assert IsTrimOf(mid, s, cs);
    TrimUnique(Trim(s, cs), mid, s, cs);
  }

  /** Trimming twice removes nothing more. */
  lemma TrimIdempotent(s: string, cs: set<char>)
    ensures Trim(Trim(s, cs), cs) == Trim(s, cs)
  {
    var r := Trim(s, cs);
    assert IsTrimOf(r, r, cs) by {
      assert r == r[0..|r|];
    }
    TrimUnique(Trim(r, cs), r, r, cs);
  }

  // ---------------------------------------------------------------------
  // Splitting and joining (`components(separatedBy:)`, `joined(separator:)`)
  // ---------------------------------------------------------------------

  /** Number of characters of `s` that lie in `cs`. */
  function CountIn(s: string, cs: set<char>): nat
    decreases |s|
  {
    if |s| == 0 then 0 else (if s[0] in cs then 1 else 0) + CountIn(s[1..], cs)
  }

  /** `components(separatedBy:)` with a set of single-character separators:
      the pieces between consecutive separators, including empty ones. */
  function Split(s: string, seps: set<char>): (parts: seq<string>)
    ensures |parts| >= 1
    ensures forall i :: 0 <= i < |parts| ==> NoneIn(parts[i], seps)
    decreases |s|
  {
    var i := SkipOut(s, seps, 0);
    if i == |s| then [s] else [s[..i]] + Split(s[i + 1..], seps)
  }

  /** `joined(separator:)`. */
  function Join(parts: seq<string>, sep: string): string
    decreases |parts|
  {
    if |parts| == 0 then ""
    else if |parts| == 1 then parts[0]
    else parts[0] + sep + Join(parts[1..], sep)
  }

  /** Total length of the pieces. */
  function TotalLength(parts: seq<string>): nat
    decreases |parts|
  {
    if |parts| == 0 then 0 else |parts[0]| + TotalLength(parts[1..])
  }

  /** Joining adds one separator between each two consecutive pieces and
      nothing else. */
  lemma {:induction false} JoinLength(parts: seq<string>, sep: string)
    requires |parts| >= 1
    ensures |Join(parts, sep)| == TotalLength(parts) + (|parts| - 1) * |sep|
    decreases |parts|
  {
    if |parts| > 1 {
      JoinLength(parts[1..], sep);
    }
  }

  /** Concatenating two strings free of `cs` gives a string free of `cs`. */
  lemma NoneInAppend(a: string, b: string, cs: set<char>)
    requires NoneIn(a, cs) && NoneIn(b, cs)
    ensures NoneIn(a + b, cs)
  {
    assert forall k :: |a| <= k < |a + b| ==> (a + b)[k] == b[k - |a|];
  }

  lemma CountInAppend(a: string, b: string, cs: set<char>)
    ensures CountIn(a + b, cs) == CountIn(a, cs) + CountIn(b, cs)
    decreases |a|
  {
    if |a| > 0 {
      assert (a + b)[0] == a[0];
      assert (a + b)[1..] == a[1..] + b;
      CountInAppend(a[1..], b, cs);
    } else {
      assert a + b == b;
    }
  }

  lemma CountInNone(s: string, cs: set<char>)
    requires NoneIn(s, cs)
    ensures CountIn(s, cs) == 0
    decreases |s|
  {
    if |s| > 0 {
      CountInNone(s[1..], cs);
    }
  }

  /** Splitting yields one more piece than there are separators. */
  lemma {:induction false} SplitCount(s: string, seps: set<char>)
    ensures |Split(s, seps)| == CountIn(s, seps) + 1
    decreases |s|
  {
    var i := SkipOut(s, seps, 0);
    assert NoneIn(s[..i], seps);
    CountInNone(s[..i], seps);
    if i == |s| {
      assert s[..i] == s;
    } else {
      assert s == s[..i] + [s[i]] + s[i + 1..];
      CountInAppend(s[..i] + [s[i]], s[i + 1..], seps);
      CountInAppend(s[..i], [s[i]], seps);
      SplitCount(s[i + 1..], seps);
    }
  }

  /** A string without separators is a single piece. */
  lemma SplitNone(s: string, seps: set<char>)
    requires NoneIn(s, seps)
    ensures Split(s, seps) == [s]
  {
    var i := SkipOut(s, seps, 0);
    assert i == |s|;
  }

  /** Joining the pieces with the separator gives back the original string. */
  lemma {:induction false} JoinSplit(s: string, c: char)
    ensures Join(Split(s, {c}), [c]) == s
    decreases |s|
  {
    var i := SkipOut(s, {c}, 0);
    if i < |s| {
      var rest := s[i + 1..];
      JoinSplit(rest, c);
      assert s == s[..i] + [c] + rest;
    }
  }

  /** Splitting a join of separator-free pieces gives back the pieces. */
  lemma {:induction false} SplitJoin(parts: seq<string>, c: char)
    requires |parts| >= 1
    requires forall i :: 0 <= i < |parts| ==> NoneIn(parts[i], {c})
    ensures Split(Join(parts, [c]), {c}) == parts
    decreases |parts|
  {
    var s := Join(parts, [c]);
    var p := parts[0];
    var i := SkipOut(s, {c}, 0);
    if |parts| == 1 {
      assert s == p;
      assert i == |s|;
    } else {
      var rest := Join(parts[1..], [c]);
      assert s == p + [c] + rest;
      assert s[|p|] == c;
      assert forall k :: 0 <= k < |p| ==> s[k] == p[k];
      assert i == |p|;
      assert s[..i] == p;
      assert s[i + 1..] == rest;
      SplitJoin(parts[1..], c);
      assert parts == [p] + parts[1..];
    }
  }
}
