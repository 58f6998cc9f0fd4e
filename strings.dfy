/**
 * The JavaScript string operations the modelled code uses, each stated by
 * what it returns: `indexOf`, `replace` with a string pattern (first
 * occurrence only), `split` on a one-character separator, `endsWith`,
 * `trim` and ASCII case mapping.
 */
module Strings {
  import opened Wrappers

  /** `pat` occurs in `s` starting at index `i`. */
  predicate OccursAt(s: string, pat: string, i: nat) {
    i + |pat| <= |s| && s[i..i + |pat|] == pat
  }

  /** The first index at or after `start` where `pat` occurs. */
  function FindFrom(s: string, pat: string, start: nat): (r: Option<nat>)
    requires start <= |s|
    ensures r.Some? ==> start <= r.value && OccursAt(s, pat, r.value)
    ensures r.Some? ==> forall j: nat :: start <= j < r.value ==> !OccursAt(s, pat, j)
    ensures r.None? ==> forall j: nat :: start <= j ==> !OccursAt(s, pat, j)
    decreases |s| - start
  {
    if OccursAt(s, pat, start) then Some(start)
    else if start + |pat| >= |s| then None
    else FindFrom(s, pat, start + 1)
  }

  /** `s.indexOf(pat)`, with `None` for -1. */
  function FindFirst(s: string, pat: string): (r: Option<nat>)
    ensures r.Some? ==> OccursAt(s, pat, r.value)
    ensures r.Some? ==> forall j: nat :: j < r.value ==> !OccursAt(s, pat, j)
    ensures r.None? ==> forall j: nat :: !OccursAt(s, pat, j)
  {
    FindFrom(s, pat, 0)
  }

  /**
   * `s.replace(pat, rep)` with a string pattern: only the first occurrence
   * is replaced; without one, `s` comes back unchanged.
   */
  function ReplaceFirst(s: string, pat: string, rep: string): (r: string)
    ensures (forall j: nat :: !OccursAt(s, pat, j)) ==> r == s
    ensures forall i: nat {:trigger OccursAt(s, pat, i)} ::
      OccursAt(s, pat, i) && (forall j: nat :: j < i ==> !OccursAt(s, pat, j)) ==>
        r == s[..i] + rep + s[i + |pat|..]
  {
    match FindFirst(s, pat)
    case None => s
    case Some(i) => s[..i] + rep + s[i + |pat|..]
  }

  /**
   * Replacing in `pre + pat + post`, where `pat` does not start inside
   * `pre`, keeps `pre` and `post` character for character.
   */
  lemma {:induction false} ReplaceFirstKeepsContext(pre: string, pat: string, post: string, rep: string)
    requires forall j: nat :: j < |pre| ==> !OccursAt(pre + pat + post, pat, j)
    ensures ReplaceFirst(pre + pat + post, pat, rep) == pre + rep + post
  {
    var s := pre + pat + post;
    assert s[|pre|..|pre| + |pat|] == pat;
    assert OccursAt(s, pat, |pre|);
    assert s[..|pre|] == pre;
    assert s[|pre| + |pat|..] == post;
  }

  /** `pat` occurs in `pre + s` at `|pre| + j` exactly when it occurs in `s` at `j`. */
  lemma OccursShifted(pre: string, s: string, pat: string, j: nat)
    ensures OccursAt(pre + s, pat, |pre| + j) <==> OccursAt(s, pat, j)
  {
    if |pre| + j + |pat| <= |pre + s| {
      assert (pre + s)[|pre| + j..|pre| + j + |pat|] == s[j..j + |pat|];
    }
  }

  /**
   * Where `pat` starts neither inside `pre` nor in `s` before `n`, it starts
   * nowhere in `pre + s` before `|pre| + n`.
   */
  lemma {:induction false} NoOccurrenceBefore(pre: string, s: string, pat: string, n: nat)
    requires forall j: nat :: j < |pre| ==> !OccursAt(pre + s, pat, j)
    requires forall j: nat :: j < n ==> !OccursAt(s, pat, j)
    ensures forall j: nat :: j < |pre| + n ==> !OccursAt(pre + s, pat, j)
  {
    forall j: nat | |pre| <= j < |pre| + n
      ensures !OccursAt(pre + s, pat, j)
    {
      OccursShifted(pre, s, pat, j - |pre|);
    }
  }

  /** Where `pat` occurs in `s` nowhere and in `pre + s` not inside `pre`, it occurs nowhere in `pre + s`. */
  lemma {:induction false} NoOccurrenceAtAll(pre: string, s: string, pat: string)
    requires forall j: nat :: j < |pre| ==> !OccursAt(pre + s, pat, j)
    requires forall j: nat :: !OccursAt(s, pat, j)
    ensures forall j: nat :: !OccursAt(pre + s, pat, j)
  {
    forall j: nat | |pre| <= j
      ensures !OccursAt(pre + s, pat, j)
    {
      OccursShifted(pre, s, pat, j - |pre|);
    }
  }

  /**
   * Replacing in `pre + s`, where `pat` does not start inside `pre`, keeps
   * `pre` and replaces in `s`.
   */
  lemma {:induction false} ReplaceFirstAfterPrefix(pre: string, s: string, pat: string, rep: string)
    requires forall j: nat :: j < |pre| ==> !OccursAt(pre + s, pat, j)
    ensures ReplaceFirst(pre + s, pat, rep) == pre + ReplaceFirst(s, pat, rep)
  {
    match FindFirst(s, pat)
    case None =>
      NoOccurrenceAtAll(pre, s, pat);
      FindFirstNone(pre + s, pat);
      assert ReplaceFirst(s, pat, rep) == s;
    case Some(i) =>
      ReplaceAfterPrefixAt(pre, s, pat, rep, i);
  }

  /** `ReplaceFirstAfterPrefix` when the first occurrence in `s` is at `i`. */
  lemma {:induction false} ReplaceAfterPrefixAt(pre: string, s: string, pat: string, rep: string, i: nat)
    requires forall j: nat :: j < |pre| ==> !OccursAt(pre + s, pat, j)
    requires FindFirst(s, pat) == Some(i)
    ensures ReplaceFirst(pre + s, pat, rep) == pre + (s[..i] + rep + s[i + |pat|..])
  {
    var t := pre + s;
    var k := |pre| + i;
    OccursShifted(pre, s, pat, i);
    NoOccurrenceBefore(pre, s, pat, i);
    FindFirstAt(t, pat, k);
    var before, after := t[..k], t[k + |pat|..];
    assert before == pre + s[..i];
    assert after == s[i + |pat|..];
    calc {
      ReplaceFirst(t, pat, rep);
      before + rep + after;
      pre + (s[..i] + rep + s[i + |pat|..]);
    }
  }

  /** The first occurrence is the one with none before it. */
  lemma FindFirstAt(s: string, pat: string, k: nat)
    requires OccursAt(s, pat, k) && forall j: nat :: j < k ==> !OccursAt(s, pat, j)
    ensures FindFirst(s, pat) == Some(k)
  {
  }

  /** Without an occurrence there is no first one. */
  lemma FindFirstNone(s: string, pat: string)
    requires forall j: nat :: !OccursAt(s, pat, j)
    ensures FindFirst(s, pat) == None
  {
  }

  /** A string with no `pat` anywhere is left alone by the replacement. */
  lemma ReplaceFirstAbsent(s: string, pat: string, rep: string)
    requires |s| < |pat|
    ensures ReplaceFirst(s, pat, rep) == s
  {
  }

  /** `s.endsWith(suffix)` */
  predicate EndsWith(s: string, suffix: string) {
    |suffix| <= |s| && s[|s| - |suffix|..] == suffix
  }

  /** `c` occurs nowhere in `s[lo..hi]`. */
  predicate Absent(s: string, c: char, lo: nat, hi: nat) {
    forall k :: lo <= k < hi && k < |s| ==> s[k] != c
  }

  /**
   * The pieces of `s` between separators, from index `start` on, when the
   * piece under way began at `start` and the scan has reached `i`.
   */
  function SplitFrom(s: string, sep: char, start: nat, i: nat): (parts: seq<string>)
    requires start <= i <= |s|
    ensures |parts| >= 1
    decreases |s| - i
  {
    if i == |s| then [s[start..]]
    else if s[i] == sep then [s[start..i]] + SplitFrom(s, sep, i + 1, i + 1)
    else SplitFrom(s, sep, start, i + 1)
  }

  /**
   * `s.split(sep)` for a one-character separator: the pieces between
   * separators, in order; there is always at least one piece.
   */
  function Split(s: string, sep: char): (parts: seq<string>)
    ensures |parts| >= 1
  {
    SplitFrom(s, sep, 0, 0)
  }

  /** `parts.join(sep)`, the inverse of `Split`. */
  function Join(parts: seq<string>, sep: char): (s: string)
    requires |parts| >= 1
    ensures parts[0] <= s
    ensures |parts| > 1 ==> |s| > |parts[0]| && s[|parts[0]|] == sep
    ensures |s| >= |parts| - 1
  {
    if |parts| == 1 then parts[0] else parts[0] + [sep] + Join(parts[1..], sep)
  }

  lemma {:induction false} SplitFromPiecesLackSeparator(s: string, sep: char, start: nat, i: nat)
    requires start <= i <= |s| && Absent(s, sep, start, i)
    ensures forall n :: 0 <= n < |SplitFrom(s, sep, start, i)| ==> sep !in SplitFrom(s, sep, start, i)[n]
    decreases |s| - i
  {
    if i == |s| {
      AbsentSlice(s, sep, start, |s|);
    } else if s[i] == sep {
      AbsentSlice(s, sep, start, i);
      var rest := SplitFrom(s, sep, i + 1, i + 1);
      SplitFromPiecesLackSeparator(s, sep, i + 1, i + 1);
      assert forall n :: 1 <= n <= |rest| ==> ([s[start..i]] + rest)[n] == rest[n - 1];
    } else {
      SplitFromPiecesLackSeparator(s, sep, start, i + 1);
    }
  }

  /** A stretch with no `c` is a slice without `c`. */
  lemma AbsentSlice(s: string, c: char, lo: nat, hi: nat)
    requires lo <= hi <= |s| && Absent(s, c, lo, hi)
    ensures c !in s[lo..hi]
  {
    forall k | 0 <= k < hi - lo
      ensures s[lo..hi][k] != c
    {
      assert s[lo..hi][k] == s[lo + k];
    }
  }

  /** No piece contains the separator. */
  lemma SplitPiecesLackSeparator(s: string, sep: char)
    ensures forall n :: 0 <= n < |Split(s, sep)| ==> sep !in Split(s, sep)[n]
  {
    SplitFromPiecesLackSeparator(s, sep, 0, 0);
  }

  /** Joining a piece in front of more pieces puts the separator between them. */
  lemma JoinCons(head: string, rest: seq<string>, sep: char)
    requires |rest| >= 1
    ensures Join([head] + rest, sep) == head + [sep] + Join(rest, sep)
  {
    assert ([head] + rest)[1..] == rest;
  }

  lemma {:induction false} JoinSplitFrom(s: string, sep: char, start: nat, i: nat)
    requires start <= i <= |s|
    ensures Join(SplitFrom(s, sep, start, i), sep) == s[start..]
    decreases |s| - i
  {
    if i == |s| {
    } else if s[i] == sep {
      JoinCons(s[start..i], SplitFrom(s, sep, i + 1, i + 1), sep);
      JoinSplitFrom(s, sep, i + 1, i + 1);
      assert s[start..] == s[start..i] + [sep] + s[i + 1..];
    } else {
      JoinSplitFrom(s, sep, start, i + 1);
    }
  }

  /** Splitting and joining again gives back the original string. */
  lemma JoinSplit(s: string, sep: char)
    ensures Join(Split(s, sep), sep) == s
  {
    JoinSplitFrom(s, sep, 0, 0);
  }

  /** With no separator from `i` on, the piece under way runs to the end. */
  lemma {:induction false} SplitFromRest(s: string, sep: char, start: nat, i: nat)
    requires start <= i <= |s| && Absent(s, sep, i, |s|)
    ensures SplitFrom(s, sep, start, i) == [s[start..]]
    decreases |s| - i
  {
    if i < |s| {
      SplitFromRest(s, sep, start, i + 1);
    }
  }

  /** A separator at `j`, with none before it from `i` on, ends the piece under way. */
  lemma {:induction false} SplitFromAt(s: string, sep: char, start: nat, i: nat, j: nat)
    requires start <= i <= j < |s| && Absent(s, sep, i, j) && s[j] == sep
    ensures SplitFrom(s, sep, start, i) == [s[start..j]] + SplitFrom(s, sep, j + 1, j + 1)
    decreases j - i
  {
    if i < j {
      SplitFromAt(s, sep, start, i + 1, j);
    }
  }

  /** A string without the separator is one piece. */
  lemma SplitWithoutSeparator(s: string, sep: char)
    requires sep !in s
    ensures Split(s, sep) == [s]
  {
    SplitFromRest(s, sep, 0, 0);
  }

  /** Splitting a string whose head is `x` from index `|x|` on is splitting the tail alone. */
  lemma {:induction false} SplitFromShift(x: string, y: string, sep: char, start: nat, i: nat)
    requires start <= i <= |y|
    ensures SplitFrom(x + y, sep, |x| + start, |x| + i) == SplitFrom(y, sep, start, i)
    decreases |y| - i
  {
    var s := x + y;
    if i == |y| {
      assert s[|x| + start..] == y[start..];
    } else {
      assert s[|x| + i] == y[i];
      if y[i] == sep {
        assert s[|x| + start..|x| + i] == y[start..i];
        SplitFromShift(x, y, sep, i + 1, i + 1);
      } else {
        SplitFromShift(x, y, sep, start, i + 1);
      }
    }
  }

  /** The first separator ends the first piece. */
  lemma SplitAtFirst(a: string, sep: char, b: string)
    requires sep !in a
    ensures Split(a + [sep] + b, sep) == [a] + Split(b, sep)
  {
    var s := a + [sep] + b;
    SplitFromAt(s, sep, 0, 0, |a|);
    assert s[..|a|] == a;
    assert s == (a + [sep]) + b;
    SplitFromShift(a + [sep], b, sep, 0, 0);
  }

  /** `s.lastIndexOf(c)` among the first `j` characters, with `None` for -1. */
  function LastIndexOf(s: string, c: char, j: nat): (r: Option<nat>)
    requires j <= |s|
    ensures r.Some? ==> r.value < j && s[r.value] == c && Absent(s, c, r.value + 1, j)
    ensures r.None? ==> Absent(s, c, 0, j)
  {
    if j == 0 then None
    else if s[j - 1] == c then Some(j - 1)
    else LastIndexOf(s, c, j - 1)
  }

  /** The text after the last `c` in `s`, or all of `s` when `c` does not occur. */
  function AfterLast(s: string, c: char): (r: string)
    ensures |r| <= |s| && r == s[|s| - |r|..] && c !in r
    ensures |r| == |s| <==> c !in s
    ensures |r| < |s| ==> s[|s| - |r| - 1] == c
  {
    match LastIndexOf(s, c, |s|)
    case None => s
    case Some(k) => s[k + 1..]
  }

  /**
   * The last piece of the split from `start` on: a suffix of `s` free of the
   * separator, either all of `s[start..]` or preceded by a separator.
   */
  lemma {:induction false} SplitFromLast(s: string, sep: char, start: nat, i: nat)
    requires start <= i <= |s| && Absent(s, sep, start, i)
    ensures var parts := SplitFrom(s, sep, start, i); var p := parts[|parts| - 1];
      && |p| <= |s| - start && p == s[|s| - |p|..] && sep !in p
      && (|p| == |s| - start || s[|s| - |p| - 1] == sep)
    decreases |s| - i
  {
    if i == |s| {
    } else if s[i] == sep {
      SplitFromLast(s, sep, i + 1, i + 1);
    } else {
      SplitFromLast(s, sep, start, i + 1);
    }
  }

  /** A suffix free of `c` that is all of `s` or follows a `c` is the text after the last `c`. */
  lemma AfterLastUnique(s: string, c: char, t: string)
    requires |t| <= |s| && t == s[|s| - |t|..] && c !in t
    requires |t| == |s| || s[|s| - |t| - 1] == c
    ensures t == AfterLast(s, c)
  {
    var r := AfterLast(s, c);
    if |t| < |r| {
      assert false;
    } else if |r| < |t| {
      assert false;
    }
  }

  /** The last piece of a split is the text after the last separator. */
  lemma SplitLast(s: string, sep: char)
    ensures var parts := Split(s, sep); parts[|parts| - 1] == AfterLast(s, sep)
  {
    var parts := Split(s, sep);
    SplitFromLast(s, sep, 0, 0);
    AfterLastUnique(s, sep, parts[|parts| - 1]);
  }

  /** A string containing `c` ends with its last `c` and the text after it. */
  lemma EndsWithAfterLast(s: string, c: char)
    requires c in s
    ensures EndsWith(s, [c] + AfterLast(s, c))
  {
    var r := AfterLast(s, c);
    var i := |s| - |r| - 1;
    assert s[i] == c && s[i + 1..] == r;
    assert s[i..] == [c] + r;
  }

  /**
   * The whitespace `String.prototype.trim` removes: the ECMAScript
   * WhiteSpace and LineTerminator characters.
   */
  predicate IsWhitespace(c: char) {
    || c == ' ' || c == '\t' || c == '\n' || c == '\U{B}' || c == '\U{C}' || c == '\r'
    || c == '\U{A0}' || c == '\U{1680}' || ('\U{2000}' <= c <= '\U{200A}')
    || c == '\U{2028}' || c == '\U{2029}' || c == '\U{202F}' || c == '\U{205F}'
    || c == '\U{3000}' || c == '\U{FEFF}'
  }

  /** Every character of `s` is whitespace. */
  predicate AllWhitespace(s: string) {
    forall k :: 0 <= k < |s| ==> IsWhitespace(s[k])
  }

  /** The first index at or after `i` that does not hold whitespace, or `|s|`. */
  function SkipLeading(s: string, i: nat): (j: nat)
    requires i <= |s|
    ensures i <= j <= |s|
    ensures forall k :: i <= k < j ==> IsWhitespace(s[k])
    ensures j < |s| ==> !IsWhitespace(s[j])
    decreases |s| - i
  {
    if i < |s| && IsWhitespace(s[i]) then SkipLeading(s, i + 1) else i
  }

  /** The index just past the last non-whitespace character in `s[lo..j]`, or `lo`. */
  function SkipTrailing(s: string, lo: nat, j: nat): (i: nat)
    requires lo <= j <= |s|
    ensures lo <= i <= j
    ensures forall k :: i <= k < j ==> IsWhitespace(s[k])
    ensures lo < i ==> !IsWhitespace(s[i - 1])
    decreases j
  {
    if lo < j && IsWhitespace(s[j - 1]) then SkipTrailing(s, lo, j - 1) else j
  }

  /**
   * `s.trim()`: the slice of `s` left after dropping leading and trailing
   * whitespace; what remains neither starts nor ends with whitespace.
   */
  function Trim(s: string): (r: string)
    ensures exists i, j :: 0 <= i <= j <= |s| && r == s[i..j] && AllWhitespace(s[..i]) && AllWhitespace(s[j..])
    ensures r != "" ==> !IsWhitespace(r[0]) && !IsWhitespace(r[|r| - 1])
  {
    var i := SkipLeading(s, 0);
    var j := SkipTrailing(s, i, |s|);
    assert AllWhitespace(s[..i]) by {
      forall k | 0 <= k < i ensures IsWhitespace(s[..i][k]) {
        assert s[..i][k] == s[k];
      }
    }
    assert AllWhitespace(s[j..]) by {
      forall k | 0 <= k < |s| - j ensures IsWhitespace(s[j..][k]) {
        assert s[j..][k] == s[j + k];
      }
    }
    s[i..j]
  }

  /** Trimming leaves nothing exactly when every character is whitespace. */
  lemma TrimEmptyIffAllWhitespace(s: string)
    ensures Trim(s) == "" <==> AllWhitespace(s)
  {
    var r := Trim(s);
    var i, j :| 0 <= i <= j <= |s| && r == s[i..j] && AllWhitespace(s[..i]) && AllWhitespace(s[j..]);
    if r != "" {
      assert r[0] == s[i];
    } else {
      forall k | 0 <= k < |s| ensures IsWhitespace(s[k]) {
        if k < i { assert s[k] == s[..i][k]; } else { assert s[k] == s[j..][k - j]; }
      }
    }
  }

  /** ASCII `toLowerCase` on one character. */
  function LowerChar(c: char): char {
    if 'A' <= c <= 'Z' then (c as int + 32) as char else c
  }

  /** ASCII `toUpperCase` on one character. */
  function UpperChar(c: char): char {
    if 'a' <= c <= 'z' then (c as int - 32) as char else c
  }

  /** `s.toLowerCase()` on ASCII letters. */
  function Lower(s: string): (r: string)
    ensures |r| == |s| && forall k :: 0 <= k < |s| ==> r[k] == LowerChar(s[k])
  {
    if s == "" then "" else [LowerChar(s[0])] + Lower(s[1..])
  }

  /** `s.toUpperCase()` on ASCII letters. */
  function Upper(s: string): (r: string)
    ensures |r| == |s| && forall k :: 0 <= k < |s| ==> r[k] == UpperChar(s[k])
  {
    if s == "" then "" else [UpperChar(s[0])] + Upper(s[1..])
  }
}
