/** String scanning shared by the device firmware and the server: substring
    search, trimming against a whitespace set, ASCII lower-casing, splitting
    on one separator character, and decimal digit strings. Strings are
    `seq<char>`; indices are `nat`, and a search that finds nothing answers
    -1 the way both C++ `String::indexOf` and JavaScript `indexOf` do. */
module Strings {

  /** `pat` occurs in `s` starting at index `i`. */
  predicate OccursAt(s: string, pat: string, i: int) {
    0 <= i && i + |pat| <= |s| && s[i..i + |pat|] == pat
  }

  /** `pat` occurs somewhere in `s`. */
  predicate Contains(s: string, pat: string) {
    exists i :: 0 <= i <= |s| && OccursAt(s, pat, i)
  }

  /** `k` is the first index at or after `from` where `pat` occurs. */
  predicate FirstOccurrenceFrom(s: string, pat: string, from: int, k: int) {
    && from <= k
    && OccursAt(s, pat, k)
    && forall i :: from <= i < k ==> !OccursAt(s, pat, i)
  }

  /** No occurrence of `pat` starts at an index of `s` at or after `from`. */
  predicate NoOccurrenceFrom(s: string, pat: string, from: int) {
    forall i :: from <= i < |s| ==> !OccursAt(s, pat, i)
  }

  /** `s.indexOf(pat, from)`: the first occurrence at or after `from`, or -1.
      A start index past the end finds nothing. */
  function IndexOf(s: string, pat: string, from: nat): (r: int)
    ensures r == -1 <==> NoOccurrenceFrom(s, pat, from)
    ensures r != -1 ==> r < |s| && FirstOccurrenceFrom(s, pat, from, r)
    decreases |s| - from
  {
    if from >= |s| || from + |pat| > |s| then -1
    else if s[from..from + |pat|] == pat then
      assert OccursAt(s, pat, from);
      from
    else IndexOf(s, pat, from + 1)
  }

  /** `s.lastIndexOf(c)`: the last index holding `c`, or -1. */
  function LastIndexOf(s: string, c: char): (r: int)
    ensures r == -1 <==> c !in s
    ensures r != -1 ==> 0 <= r < |s| && s[r] == c
    ensures forall k :: r < k < |s| ==> s[k] != c
  {
    if |s| == 0 then -1
    else if s[|s| - 1] == c then |s| - 1
    else LastIndexOf(s[..|s| - 1], c)
  }

  /** `p` is a prefix of `s` (`startsWith`). */
  predicate IsPrefix(p: string, s: string) {
    |p| <= |s| && s[..|p|] == p
  }

  /** The first index at or after `i` whose character is not in `ws`, or
      `|s|`. */
  function SkipIn(s: string, ws: set<char>, i: nat): (j: nat)
    requires i <= |s|
    ensures i <= j <= |s|
    ensures forall k :: i <= k < j ==> s[k] in ws
    ensures j < |s| ==> s[j] !in ws
    decreases |s| - i
  {
    if i < |s| && s[i] in ws then SkipIn(s, ws, i + 1) else i
  }

  /** The least index `i <= j` such that `s[i..j]` is all in `ws`. */
  function BackIn(s: string, ws: set<char>, j: nat): (i: nat)
    requires j <= |s|
    ensures i <= j
    ensures forall k :: i <= k < j ==> s[k] in ws
    ensures i > 0 ==> s[i - 1] !in ws
    decreases j
  {
    if j > 0 && s[j - 1] in ws then BackIn(s, ws, j - 1) else j
  }

  /** Drops the leading characters of `s` that are in `ws`. */
  function TrimStart(s: string, ws: set<char>): (r: string)
    ensures |r| <= |s| && r == s[|s| - |r|..]
    ensures forall k :: 0 <= k < |s| - |r| ==> s[k] in ws
    ensures |r| > 0 ==> r[0] !in ws
  {
    s[SkipIn(s, ws, 0)..]
  }

  /** Drops the trailing characters of `s` that are in `ws`. */
  function TrimEnd(s: string, ws: set<char>): (r: string)
    ensures |r| <= |s| && r == s[..|r|]
    ensures forall k :: |r| <= k < |s| ==> s[k] in ws
    ensures |r| > 0 ==> r[|r| - 1] !in ws
  {
    s[..BackIn(s, ws, |s|)]
  }

  /** Drops the characters in `ws` from both ends of `s`. */
  function Trim(s: string, ws: set<char>): string {
    TrimEnd(TrimStart(s, ws), ws)
  }

  /** The trimmed text is the contiguous middle of `s` that starts and ends
      outside `ws`, and everything cut away on either side is in `ws`. */
  lemma TrimIsMiddle(s: string, ws: set<char>)
    ensures CutAt(s, Trim(s, ws), |s| - |TrimStart(s, ws)|, ws)
    ensures var r := Trim(s, ws); |r| > 0 ==> r[0] !in ws && r[|r| - 1] !in ws
  {
    var t := TrimStart(s, ws);
    var r := TrimEnd(t, ws);
    var i := |s| - |t|;
    TrimMiddleSlice(s, t, r);
    TrimEndCut(s, t, r, ws);
    if |r| > 0 {
      assert r[0] == t[0];
    }
  }

  lemma TrimMiddleSlice(s: string, t: string, r: string)
    requires |t| <= |s| && t == s[|s| - |t|..]
    requires |r| <= |t| && r == t[..|r|]
    ensures r == s[|s| - |t|..|s| - |t| + |r|]
  {
  }

  lemma TrimEndCut(s: string, t: string, r: string, ws: set<char>)
    requires |t| <= |s| && t == s[|s| - |t|..] && |r| <= |t|
    requires forall k :: |r| <= k < |t| ==> t[k] in ws
    ensures forall k :: |s| - |t| + |r| <= k < |s| ==> s[k] in ws
  {
    var i := |s| - |t|;
    forall k | i + |r| <= k < |s|
      ensures s[k] in ws
    {
      assert s[k] == t[k - i];
    }
  }

  /** `r` is `s` with a prefix of length `i` and a suffix cut away, both made
      of characters in `ws`. */
  predicate CutAt(s: string, r: string, i: int, ws: set<char>) {
    && 0 <= i <= |s| - |r|
    && r == s[i..i + |r|]
    && (forall k :: 0 <= k < i ==> s[k] in ws)
    && (forall k :: i + |r| <= k < |s| ==> s[k] in ws)
  }

  /** Text that does not start or end with a character of `ws` is its own trim. */
  lemma TrimNoOp(s: string, ws: set<char>)
    requires |s| > 0 ==> s[0] !in ws && s[|s| - 1] !in ws
    ensures Trim(s, ws) == s
  {
    assert SkipIn(s, ws, 0) == 0;
    assert s[0..] == s;
    assert BackIn(s, ws, |s|) == |s|;
    assert s[..|s|] == s;
  }

  /** One more trailing character of `ws` does not change the trim. */
  lemma TrimIgnoresTrailing(s: string, c: char, ws: set<char>)
    requires c in ws
    ensures Trim(s + [c], ws) == Trim(s, ws)
  {
    var t := TrimStart(s + [c], ws);
    if |TrimStart(s, ws)| == 0 {
      // everything in s is whitespace, so is s + [c]
      assert forall k :: 0 <= k < |s + [c]| ==> (s + [c])[k] in ws;
      TrimStartAllSpace(s + [c], ws);
    } else {
      var t0 := TrimStart(s, ws);
      TrimStartAppend(s, [c], ws);
      assert t == t0 + [c];
      assert BackIn(t, ws, |t|) == BackIn(t, ws, |t0|);
      BackInPrefix(t0, [c], ws, |t0|);
    }
  }

  /** Scanning back within a prefix does not look past it. */
  lemma {:induction false} BackInPrefix(s: string, u: string, ws: set<char>, j: nat)
    requires j <= |s|
    ensures BackIn(s + u, ws, j) == BackIn(s, ws, j)
    decreases j
  {
    if j > 0 {
      assert (s + u)[j - 1] == s[j - 1];
      BackInPrefix(s, u, ws, j - 1);
    }
  }

  lemma TrimStartAllSpace(s: string, ws: set<char>)
    requires forall k :: 0 <= k < |s| ==> s[k] in ws
    ensures TrimStart(s, ws) == []
  {
  }

  /** Scanning forward stops inside `s` when `s` has a character outside
      `ws` there, whatever follows. */
  lemma {:induction false} SkipInAppend(s: string, u: string, ws: set<char>, i: nat)
    requires i <= |s| && SkipIn(s, ws, i) < |s|
    ensures SkipIn(s + u, ws, i) == SkipIn(s, ws, i)
    decreases |s| - i
  {
    assert (s + u)[i] == s[i];
    if s[i] in ws {
      SkipInAppend(s, u, ws, i + 1);
    }
  }

  lemma TrimStartAppend(s: string, u: string, ws: set<char>)
    requires |TrimStart(s, ws)| > 0
    ensures TrimStart(s + u, ws) == TrimStart(s, ws) + u
  {
    var i := SkipIn(s, ws, 0);
    SkipInAppend(s, u, ws, 0);
    assert (s + u)[i..] == s[i..] + u;
  }

  /** The C library's `tolower` in the default locale: only 'A'..'Z' change. */
  function LowerAscii(c: char): char {
    if 'A' <= c <= 'Z' then (c as int - 'A' as int + 'a' as int) as char else c
  }

  /** `String::toLowerCase`, character by character. */
  function ToLower(s: string): (r: string)
    ensures |r| == |s|
    ensures forall k :: 0 <= k < |s| ==> r[k] == LowerAscii(s[k])
  {
    seq(|s|, k requires 0 <= k < |s| => LowerAscii(s[k]))
  }

  /** Lower-casing leaves text without capital letters alone. */
  lemma ToLowerNoOp(s: string)
    requires forall k :: 0 <= k < |s| ==> !('A' <= s[k] <= 'Z')
    ensures ToLower(s) == s
  {
  }

  /** The index of the first `c` in `s`, or `|s|` when there is none. */
  function FirstIndex(s: string, c: char): (r: nat)
    ensures r <= |s|
    ensures forall k :: 0 <= k < r ==> s[k] != c
    ensures r < |s| ==> s[r] == c
  {
    if |s| == 0 || s[0] == c then 0 else 1 + FirstIndex(s[1..], c)
  }

  /** JavaScript `s.split(sep)` for a one-character separator: the maximal
      runs between separators, including empty ones at either end, so that
      `""` splits to `[""]`. */
  function Split(s: string, sep: char): (parts: seq<string>)
    ensures |parts| >= 1
    ensures forall p <- parts :: sep !in p
    ensures Join(parts, sep) == s
    decreases |s|
  {
    var i := FirstIndex(s, sep);
    if i == |s| then
      assert s[..i] == s;
      [s]
    else
      var rest := Split(s[i + 1..], sep);
      var parts := [s[..i]] + rest;
      assert parts[1..] == rest;
      assert s == s[..i] + [sep] + s[i + 1..];
      parts
  }

  /** Joins the parts with `sep` between consecutive parts. */
  function Join(parts: seq<string>, sep: char): string
    requires |parts| >= 1
  {
    if |parts| == 1 then parts[0] else parts[0] + [sep] + Join(parts[1..], sep)
  }

  /** Splitting a join recovers the parts when no part holds the separator:
      together with the contract of `Split`, the two are inverses. */
  lemma {:induction false} SplitJoin(parts: seq<string>, sep: char)
    requires |parts| >= 1
    requires forall p <- parts :: sep !in p
    ensures Split(Join(parts, sep), sep) == parts
    decreases |parts|
  {
    var s := Join(parts, sep);
    if |parts| == 1 {
      assert parts[0] in parts;
      assert FirstIndex(s, sep) == |s|;
    } else {
      var tail := Join(parts[1..], sep);
      assert s == parts[0] + [sep] + tail;
      FirstIndexAfter(parts[0], sep, tail);
      assert s[..|parts[0]|] == parts[0];
      assert s[|parts[0]| + 1..] == tail;
      SplitJoin(parts[1..], sep);
    }
  }

  lemma FirstIndexAfter(a: string, sep: char, b: string)
    requires sep !in a
    ensures FirstIndex(a + [sep] + b, sep) == |a|
  {
    var s := a + [sep] + b;
    assert s[|a|] == sep;
    assert forall k :: 0 <= k < |a| ==> s[k] == a[k] && a[k] in a;
  }

  /** Text holding `c` is the part before its first `c`, the `c`, and the
      rest. */
  lemma SplitAtFirst(s: string, c: char)
    requires FirstIndex(s, c) < |s|
    ensures var i := FirstIndex(s, c);
      c !in s[..i] && s == s[..i] + [c] + s[i + 1..]
  {
    var i := FirstIndex(s, c);
    assert forall k :: 0 <= k < i ==> s[..i][k] == s[k];
  }

  /** Without `c` the search runs to the end. */
  lemma FirstIndexAbsent(s: string, c: char)
    requires c !in s
    ensures FirstIndex(s, c) == |s|
  {
    assert forall k :: 0 <= k < |s| ==> s[k] in s;
  }

  /** Searching a concatenation finds the first `c` of the left part, or
      else looks on into the right part. */
  lemma {:induction false} FirstIndexAppend(s: string, u: string, c: char)
    ensures FirstIndex(s + u, c) == if FirstIndex(s, c) < |s| then FirstIndex(s, c) else |s| + FirstIndex(u, c)
    decreases |s|
  {
    if |s| == 0 {
      assert s + u == u;
    } else {
      assert (s + u)[0] == s[0];
      assert (s + u)[1..] == s[1..] + u;
      FirstIndexAppend(s[1..], u, c);
    }
  }

  /** The first part of a split is the text before the first separator. */
  lemma SplitHead(s: string, sep: char)
    ensures Split(s, sep)[0] == s[..FirstIndex(s, sep)]
  {
  }

  /** With a separator present, the second part is the text between the
      first separator and the next one (or the end). */
  lemma SplitSecond(s: string, sep: char)
    requires sep in s
    ensures var i := FirstIndex(s, sep);
      var rest := s[i + 1..];
      |Split(s, sep)| >= 2 && Split(s, sep)[1] == rest[..FirstIndex(rest, sep)]
  {
  }

  /** Without the separator, the split is the whole text alone. */
  lemma SplitNoSeparator(s: string, sep: char)
    requires sep !in s
    ensures Split(s, sep) == [s]
  {
    var i := FirstIndex(s, sep);
    assert forall k :: 0 <= k < |s| ==> s[k] in s;
    assert s[..i] == s;
  }

  predicate IsDigit(c: char) {
    '0' <= c <= '9'
  }

  predicate AllDigits(s: string) {
    forall k :: 0 <= k < |s| ==> IsDigit(s[k])
  }

  /** The value of a string of decimal digits, most significant first. The
      empty string is worth 0. */
  function DigitsValue(ds: string): nat
    requires AllDigits(ds)
  {
    if |ds| == 0 then 0
    else DigitsValue(ds[..|ds| - 1]) * 10 + (ds[|ds| - 1] as int - '0' as int)
  }

  function DigitChar(d: nat): (c: char)
    requires d < 10
    ensures IsDigit(c) && c as int - '0' as int == d
  {
    ('0' as int + d) as char
  }

  /** The decimal text of `n` without leading zeros, as JavaScript's
      `JSON.stringify` and Arduino's `String(n)` write a non-negative integer. */
  function Decimal(n: nat): (s: string)
    ensures |s| >= 1 && AllDigits(s)
    ensures |s| > 1 ==> s[0] != '0'
  {
    if n < 10 then [DigitChar(n)] else Decimal(n / 10) + [DigitChar(n % 10)]
  }

  /** Reading back the decimal text of `n` gives `n`. */
  lemma {:induction false} DecimalRoundTrip(n: nat)
    ensures DigitsValue(Decimal(n)) == n
  {
    var s := Decimal(n);
    if n >= 10 {
      assert s[..|s| - 1] == Decimal(n / 10);
      DecimalRoundTrip(n / 10);
    }
  }
}
