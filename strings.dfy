/** The pieces of Rust's `str` API that the resolver relies on: `split` with a
    `char` pattern and `trim_end_matches` with a string pattern. */
module Strings {

  /** The position of the first `c` in `s`, or `|s|` when `s` holds no `c`. */
  function IndexOf(s: string, c: char): (i: nat)
    ensures i <= |s|
    ensures i < |s| ==> s[i] == c
    ensures forall j :: 0 <= j < i ==> s[j] != c
  {
    if s == [] || s[0] == c then 0 else 1 + IndexOf(s[1..], c)
  }

  /** The pieces of `s` between occurrences of `sep`, in order, as `str::split`
      yields them: there is always at least one piece, so `""` splits into
      `[""]`, and a trailing `sep` leaves a trailing `""`. */
  function Split(s: string, sep: char): (parts: seq<string>)
    ensures |parts| >= 1
    decreases |s|
  {
    var i := IndexOf(s, sep);
    if i == |s| then [s] else [s[..i]] + Split(s[i + 1..], sep)
  }

  /** `parts` glued together with `sep` between neighbours. */
  function Join(parts: seq<string>, sep: char): string
    requires |parts| >= 1
  {
    if |parts| == 1 then parts[0] else parts[0] + [sep] + Join(parts[1..], sep)
  }

  /** Joining the pieces of a split gives back the text. */
  lemma {:induction false} JoinSplit(s: string, sep: char)
    ensures Join(Split(s, sep), sep) == s
    decreases |s|
  {
    var i := IndexOf(s, sep);
    if i < |s| {
      var tail := s[i + 1..];
      JoinSplit(tail, sep);
      var parts := Split(s, sep);
      assert parts[0] == s[..i] && parts[1..] == Split(tail, sep);
      assert s == s[..i] + [sep] + tail;
    }
  }

  /** Splitting a join of pieces that hold no `sep` gives back the pieces. */
  lemma {:induction false} SplitJoin(parts: seq<string>, sep: char)
    requires |parts| >= 1
    requires forall k :: 0 <= k < |parts| ==> sep !in parts[k]
    ensures Split(Join(parts, sep), sep) == parts
    decreases |parts|
  {
    var p := parts[0];
    assert sep !in p;
    if |parts| == 1 {
      var i := IndexOf(p, sep);
      assert i == |p|;
    } else {
      var rest := Join(parts[1..], sep);
      var s := Join(parts, sep);
      assert s == p + [sep] + rest;
      var i := IndexOf(s, sep);
      assert s[|p|] == sep;
      assert i == |p|;
      assert s[..i] == p;
      assert s[i + 1..] == rest;
      SplitJoin(parts[1..], sep);
    }
  }

  predicate EndsWith(s: string, suffix: string)
  {
    |suffix| <= |s| && s[|s| - |suffix|..] == suffix
  }

  /** `t` written `k` times in a row. */
  function Repeat(t: string, k: nat): string
  {
    if k == 0 then "" else Repeat(t, k - 1) + t
  }

  /** `str::trim_end_matches` with a non-empty string pattern: every trailing
      repetition of `suffix` is removed, so what is left is a prefix of `s`
      that no longer ends with `suffix`. */
  function TrimEndMatches(s: string, suffix: string): (r: string)
    requires suffix != ""
    ensures |r| <= |s| && r == s[..|r|]
    ensures !EndsWith(r, suffix)
    decreases |s|
  {
    if EndsWith(s, suffix) then TrimEndMatches(s[..|s| - |suffix|], suffix) else s
  }

  /** One more copy of `t` goes at the end. */
  lemma RepeatAppend(base: string, t: string, k: nat)
    requires k > 0
    ensures base + Repeat(t, k) == (base + Repeat(t, k - 1)) + t
  {
  }

  /** A string that ends with `suffix` is its shorter prefix followed by `suffix`. */
  lemma EndsWithSplit(s: string, suffix: string)
    requires EndsWith(s, suffix)
    ensures s == s[..|s| - |suffix|] + suffix
  {
    assert s == s[..|s| - |suffix|] + s[|s| - |suffix|..];
  }

  /** Trimming looks through one trailing copy of `suffix`. */
  lemma TrimEndMatchesStep(shorter: string, suffix: string)
    requires suffix != ""
    ensures TrimEndMatches(shorter + suffix, suffix) == TrimEndMatches(shorter, suffix)
  {
    var s := shorter + suffix;
    assert s[|s| - |suffix|..] == suffix;
    assert s[..|s| - |suffix|] == shorter;
  }

  /** What is trimmed off is a whole number of copies of `suffix`. */
  lemma TrimEndMatchesRemovesRepeats(s: string, suffix: string)
    requires suffix != ""
    ensures exists k: nat :: s == TrimEndMatches(s, suffix) + Repeat(suffix, k)
    decreases |s|
  {
    if EndsWith(s, suffix) {
      var shorter := s[..|s| - |suffix|];
      TrimEndMatchesRemovesRepeats(shorter, suffix);
      var k: nat :| shorter == TrimEndMatches(shorter, suffix) + Repeat(suffix, k);
      EndsWithSplit(s, suffix);
      TrimEndMatchesStep(shorter, suffix);
      RepeatAppend(TrimEndMatches(shorter, suffix), suffix, k + 1);
    } else {
      assert s == TrimEndMatches(s, suffix) + Repeat(suffix, 0);
    }
  }

  /** Trimming undoes any number of appended copies of `suffix`, as long as
      the base itself does not end with `suffix`. */
  lemma TrimEndMatchesOfRepeats(base: string, suffix: string, k: nat)
    requires suffix != ""
    requires !EndsWith(base, suffix)
    ensures TrimEndMatches(base + Repeat(suffix, k), suffix) == base
    decreases k
  {
    if k == 0 {
      assert base + Repeat(suffix, 0) == base;
    } else {
      TrimEndMatchesOfRepeats(base, suffix, k - 1);
      RepeatAppend(base, suffix, k);
      TrimEndMatchesStep(base + Repeat(suffix, k - 1), suffix);
    }
  }
}
