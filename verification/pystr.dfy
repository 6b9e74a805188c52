/** The Python `str` operations the Markdown pipeline relies on, with the
    behaviour CPython gives them: `split` (leftmost, non-overlapping), `join`,
    `strip`/`lstrip`, `startswith`/`endswith`, slicing past the end, `replace`
    of one character, and decimal formatting of a natural number. */
module PyStr {
  import opened Wrappers

  /** `s.startswith(prefix)`. */
  predicate StartsWith(s: string, prefix: string) {
    |prefix| <= |s| && s[..|prefix|] == prefix
  }

  /** `s.endswith(suffix)`. */
  predicate EndsWith(s: string, suffix: string) {
    |suffix| <= |s| && s[|s| - |suffix|..] == suffix
  }

  /** `d` occurs in `s` starting at index `k`. */
  predicate OccursAt(s: string, d: string, k: int) {
    0 <= k && k + |d| <= |s| && s[k..k + |d|] == d
  }

  /** A slice cut in two at `j`. */
  lemma {:induction false} SliceSplit(s: string, i: nat, j: nat, k: nat)
    requires i <= j <= k <= |s|
    ensures s[i..k] == s[i..j] + s[j..k]
  {
  }

  /** A suffix of the slice `s[i..j]` is the slice of `s` that ends at `j`. */
  lemma {:induction false} SuffixOfSlice(s: string, i: nat, j: nat, t: string)
    requires i <= j <= |s| && |t| <= j - i && t == s[i..j][j - i - |t|..]
    ensures t == s[j - |t|..j]
  {
    forall m | 0 <= m < |t| ensures t[m] == s[j - |t| + m] {
      assert t[m] == s[i..j][j - i - |t| + m];
    }
  }

  /** A slice of a slice is a slice of the whole string. */
  lemma {:induction false} SliceOfSlice(s: string, i: nat, j: nat, k: nat, n: nat)
    requires i <= j <= |s| && k + n <= j - i
    ensures s[i..j][k..k + n] == s[i + k..i + k + n]
  {
    var inner, outer := s[i..j][k..k + n], s[i + k..i + k + n];
    forall m | 0 <= m < n
      ensures inner[m] == outer[m]
    {
    }
  }

  lemma {:induction false} OccursAtShift(s: string, d: string)
    requires |s| > 0
    ensures forall k :: 1 <= k ==> (OccursAt(s, d, k) <==> OccursAt(s[1..], d, k - 1))
    ensures forall k :: 0 <= k ==> (OccursAt(s[1..], d, k) <==> OccursAt(s, d, k + 1))
  {
    forall k | 1 <= k
      ensures OccursAt(s, d, k) <==> OccursAt(s[1..], d, k - 1)
    {
      if k + |d| <= |s| {
        SliceOfSlice(s, 1, |s|, k - 1, |d|);
      }
    }
  }

  /** An occurrence inside the slice `s[i..j]` is an occurrence in `s`. */
  lemma {:induction false} OccursInSlice(s: string, d: string, i: nat, j: nat)
    requires i <= j <= |s|
    ensures forall k :: OccursAt(s[i..j], d, k) ==> OccursAt(s, d, i + k)
  {
    forall k | OccursAt(s[i..j], d, k)
      ensures OccursAt(s, d, i + k)
    {
      SliceOfSlice(s, i, j, k, |d|);
    }
  }

  /** `s.split(d, 1)`: the text before the first occurrence of `d` and the text after
      it, or `s` alone when `d` does not occur. */
  function SplitOnce(s: string, d: string): (parts: seq<string>)
    requires |d| > 0
    ensures 1 <= |parts| <= 2 && JoinWith(parts, d) == s
    ensures IndexOf(parts[0], d).None?
    ensures |parts| == 1 <==> IndexOf(s, d).None?
  {
    match IndexOf(s, d)
    case None => [s]
    case Some(k) =>
      NoOccurrenceBefore(s, d, k);
      assert s == s[..k] + d + s[k + |d|..];
      [s[..k], s[k + |d|..]]
  }

  /** `s.find(d)`: the index of the leftmost occurrence of `d`, if any. */
  function IndexOf(s: string, d: string): (r: Option<nat>)
    requires |d| > 0
    ensures r.Some? ==> OccursAt(s, d, r.value)
    ensures r.Some? ==> forall k :: 0 <= k < r.value ==> !OccursAt(s, d, k)
    ensures r.None? ==> forall k :: !OccursAt(s, d, k)
    decreases |s|
  {
    if |s| < |d| then None
    else if s[..|d|] == d then Some(0)
    else
      OccursAtShift(s, d);
      match IndexOf(s[1..], d)
      case None => None
      case Some(i) => Some(i + 1)
  }

  /** Splitting at a text whose first `d` is at index `k`: the text before it, then the
      pieces of the text after it. */
  lemma {:induction false} SplitAtFirst(s: string, d: string, a: string, rest: string)
    requires |d| > 0 && s == a + d + rest && IndexOf(s, d) == Some(|a|)
    ensures Split(s, d) == [a] + Split(rest, d)
  {
    assert s[..|a|] == a;
    assert s[|a| + |d|..] == rest;
  }

  /** The leftmost occurrence is the one at `i` when nothing starts earlier. */
  lemma {:induction false} IndexOfIs(s: string, d: string, i: nat)
    requires |d| > 0 && OccursAt(s, d, i)
    requires forall k :: 0 <= k < i ==> !OccursAt(s, d, k)
    ensures IndexOf(s, d) == Some(i)
  {
  }

  /** No occurrence of `d` starts before index `i`, so the prefix `s[..i]` has none. */
  lemma {:induction false} NoOccurrenceBefore(s: string, d: string, i: nat)
    requires |d| > 0 && i <= |s|
    requires forall k :: 0 <= k < i ==> !OccursAt(s, d, k)
    ensures IndexOf(s[..i], d).None?
  {
    OccursInSlice(s, d, 0, i);
    assert s[0..i] == s[..i];
  }

  /** A slice of a string in which `d` does not occur does not contain `d` either. */
  lemma {:induction false} NoOccurrenceInSlice(s: string, d: string, i: nat, j: nat)
    requires |d| > 0 && i <= j <= |s|
    requires IndexOf(s, d).None?
    ensures IndexOf(s[i..j], d).None?
  {
    OccursInSlice(s, d, i, j);
  }

  /** A text that is a slice of one lacking `d` lacks `d` too. */
  lemma {:induction false} AbsentFromSlice(s: string, d: string, t: string, i: nat)
    requires |d| > 0 && IndexOf(s, d).None?
    requires i + |t| <= |s| && t == s[i..i + |t|]
    ensures IndexOf(t, d).None?
  {
    NoOccurrenceInSlice(s, d, i, i + |t|);
  }

  /** `sep.join(parts)`. */
  function JoinWith(parts: seq<string>, sep: string): string
    decreases |parts|
  {
    if |parts| == 0 then ""
    else if |parts| == 1 then parts[0]
    else parts[0] + sep + JoinWith(parts[1..], sep)
  }

  /** `"".join(parts)`. */
  function Concat(parts: seq<string>): string
    decreases |parts|
  {
    if |parts| == 0 then "" else parts[0] + Concat(parts[1..])
  }

  lemma {:induction false} ConcatAppend(a: seq<string>, b: seq<string>)
    ensures Concat(a + b) == Concat(a) + Concat(b)
    decreases |a|
  {
    if |a| > 0 {
      assert (a + b)[1..] == a[1..] + b;
      ConcatAppend(a[1..], b);
    } else {
      assert a + b == b;
    }
  }

  /** `s.split(d)`: the pieces between the leftmost, non-overlapping occurrences of `d`.
      Joining them back with `d` gives `s`, and no piece contains `d`. */
  function Split(s: string, d: string): (parts: seq<string>)
    requires |d| > 0
    ensures |parts| > 0
    ensures JoinWith(parts, d) == s
    ensures forall i :: 0 <= i < |parts| ==> IndexOf(parts[i], d).None?
    ensures |parts| == 1 <==> IndexOf(s, d).None?
    ensures |parts| > 1 ==> IndexOf(s, d) == Some(|parts[0]|)
    decreases |s|
  {
    match IndexOf(s, d)
    case None => [s]
    case Some(i) =>
      NoOccurrenceBefore(s, d, i);
      assert s == s[..i] + d + s[i + |d|..];
      [s[..i]] + Split(s[i + |d|..], d)
  }

  /** Number of leftmost, non-overlapping occurrences of `d` in `s`, found by scanning
      `s` from the left. */
  function Occurrences(s: string, d: string): nat
    requires |d| > 0
    decreases |s|
  {
    if |s| < |d| then 0
    else if s[..|d|] == d then 1 + Occurrences(s[|d|..], d)
    else Occurrences(s[1..], d)
  }

  /** `s` with every leftmost, non-overlapping occurrence of `d` deleted. */
  function RemoveAll(s: string, d: string): string
    requires |d| > 0
    decreases |s|
  {
    if |s| < |d| then s
    else if s[..|d|] == d then RemoveAll(s[|d|..], d)
    else [s[0]] + RemoveAll(s[1..], d)
  }

  /** No occurrence before `i` in `s` means none before `i - 1` in `s[1..]`. */
  lemma {:induction false} NoOccurrenceShift(s: string, d: string, i: nat)
    requires 0 < i <= |s|
    requires forall k :: 0 <= k < i ==> !OccursAt(s, d, k)
    ensures forall k :: 0 <= k < i - 1 ==> !OccursAt(s[1..], d, k)
  {
    forall k | 0 <= k < i - 1 ensures !OccursAt(s[1..], d, k) {
      assert !OccursAt(s, d, k + 1);
      if k + |d| <= |s| - 1 {
        SliceOfSlice(s, 1, |s|, k, |d|);
      }
    }
  }

  /** Scanning past a prefix of `s` where `d` does not start leaves the count of
      occurrences unchanged. */
  lemma {:induction false} SkipUnmatchedCount(s: string, d: string, i: nat)
    requires |d| > 0 && i <= |s|
    requires forall k :: 0 <= k < i ==> !OccursAt(s, d, k)
    ensures Occurrences(s, d) == Occurrences(s[i..], d)
    decreases i
  {
    if i == 0 {
      assert s[0..] == s;
    } else if |s| >= |d| {
      assert !OccursAt(s, d, 0);
      NoOccurrenceShift(s, d, i);
      SkipUnmatchedCount(s[1..], d, i - 1);
      assert s[1..][i - 1..] == s[i..];
    }
  }

  /** Scanning past a prefix of `s` where `d` does not start keeps that prefix whole
      when the occurrences are deleted. */
  lemma {:induction false} SkipUnmatchedRemove(s: string, d: string, i: nat)
    requires |d| > 0 && i <= |s|
    requires forall k :: 0 <= k < i ==> !OccursAt(s, d, k)
    ensures RemoveAll(s, d) == s[..i] + RemoveAll(s[i..], d)
    decreases i
  {
    if i == 0 {
      assert s[0..] == s;
    } else if |s| < |d| {
      assert s == s[..i] + s[i..];
    } else {
      assert !OccursAt(s, d, 0);
      NoOccurrenceShift(s, d, i);
      SkipUnmatchedRemove(s[1..], d, i - 1);
      assert s[1..][i - 1..] == s[i..];
      assert s[..i] == [s[0]] + s[1..][..i - 1];
    }
  }

  /** The pieces of `s.split(d)` number one more than the occurrences of `d`, and
      together they spell `s` with the occurrences deleted. */
  lemma {:induction false} SplitCounts(s: string, d: string)
    requires |d| > 0
    ensures |Split(s, d)| == Occurrences(s, d) + 1
    ensures Concat(Split(s, d)) == RemoveAll(s, d)
    decreases |s|
  {
    match IndexOf(s, d)
    case None =>
      SkipUnmatchedCount(s, d, |s|);
      SkipUnmatchedRemove(s, d, |s|);
      assert s[..|s|] == s;
    case Some(i) =>
      SkipUnmatchedCount(s, d, i);
      SkipUnmatchedRemove(s, d, i);
      var rest := s[i..];
      assert rest[..|d|] == d;
      assert rest[|d|..] == s[i + |d|..];
      SplitCounts(s[i + |d|..], d);
      assert Split(s, d) == [s[..i]] + Split(s[i + |d|..], d);
  }

  /** Python's `str.isspace` for one character: ASCII tab to carriage return, the
      separators U+001C to U+001F, space, and the Unicode spaces and separators. */
  predicate IsSpace(c: char) {
    ('\t' <= c <= '\r') || ('\U{1C}' <= c <= ' ') || c == '\U{85}' || c == '\U{A0}'
    || c == '\U{1680}' || ('\U{2000}' <= c <= '\U{200A}') || c == '\U{2028}' || c == '\U{2029}'
    || c == '\U{202F}' || c == '\U{205F}' || c == '\U{3000}'
  }

  /** `s.lstrip()`: the suffix left after removing leading whitespace. */
  function LStrip(s: string): (r: string)
    ensures |r| <= |s|
    ensures r == [] || !IsSpace(r[0])
    decreases |s|
  {
    if |s| > 0 && IsSpace(s[0]) then LStrip(s[1..]) else s
  }

  /** What is left is a suffix. */
  lemma {:induction false} LStripIsSuffix(s: string)
    ensures LStrip(s) == s[|s| - |LStrip(s)|..]
    decreases |s|
  {
    if |s| > 0 && IsSpace(s[0]) {
      LStripIsSuffix(s[1..]);
      assert s[1..][|s| - 1 - |LStrip(s)|..] == s[|s| - |LStrip(s)|..];
    }
  }

  /** Only whitespace is removed from the front. */
  lemma {:induction false} LStripSkipsSpace(s: string)
    ensures forall k :: 0 <= k < |s| - |LStrip(s)| ==> IsSpace(s[k])
    decreases |s|
  {
    if |s| > 0 && IsSpace(s[0]) {
      LStripSkipsSpace(s[1..]);
      forall k | 1 <= k < |s| - |LStrip(s)| ensures IsSpace(s[k]) {
        assert s[k] == s[1..][k - 1];
      }
    }
  }

  /** `s.rstrip()`: the prefix left after removing trailing whitespace. */
  function RStrip(s: string): (r: string)
    ensures |r| <= |s|
    ensures r == [] || !IsSpace(r[|r| - 1])
    decreases |s|
  {
    if |s| > 0 && IsSpace(s[|s| - 1]) then RStrip(s[..|s| - 1]) else s
  }

  /** What is left is a prefix. */
  lemma {:induction false} RStripIsPrefix(s: string)
    ensures RStrip(s) == s[..|RStrip(s)|]
    decreases |s|
  {
    if |s| > 0 && IsSpace(s[|s| - 1]) {
      RStripIsPrefix(s[..|s| - 1]);
      assert s[..|s| - 1][..|RStrip(s)|] == s[..|RStrip(s)|];
    }
  }

  /** Only whitespace is removed from the back. */
  lemma {:induction false} RStripSkipsSpace(s: string)
    ensures forall k :: |RStrip(s)| <= k < |s| ==> IsSpace(s[k])
    decreases |s|
  {
    if |s| > 0 && IsSpace(s[|s| - 1]) {
      RStripSkipsSpace(s[..|s| - 1]);
      forall k | |RStrip(s)| <= k < |s| - 1 ensures IsSpace(s[k]) {
        assert s[k] == s[..|s| - 1][k];
      }
    }
  }

  /** `s.strip()`. */
  function Strip(s: string): (r: string)
    ensures r == [] || (!IsSpace(r[0]) && !IsSpace(r[|r| - 1]))
  {
    var l := LStrip(s);
    RStripIsPrefix(l);
    RStrip(l)
  }

  /** `s.strip()` is a slice `s[i..i+|r|]` of `s`, starting where `lstrip()` stops. */
  lemma {:induction false} StripIsSlice(s: string) returns (i: nat)
    ensures i == |s| - |LStrip(s)|
    ensures i + |Strip(s)| <= |s| && Strip(s) == s[i..i + |Strip(s)|]
  {
    var l := LStrip(s);
    i := |s| - |l|;
    var r := RStrip(l);
    LStripIsSuffix(s);
    RStripIsPrefix(l);
    assert s[i..i + |r|] == l[..|r|];
  }

  /** `s.strip()` is the slice `s[i..i+|r|]` and only whitespace lies outside it. */
  lemma {:induction false} StripIsTrimmedSlice(s: string) returns (i: nat)
    ensures i + |Strip(s)| <= |s| && Strip(s) == s[i..i + |Strip(s)|]
    ensures forall k :: 0 <= k < i ==> IsSpace(s[k])
    ensures forall k :: i + |Strip(s)| <= k < |s| ==> IsSpace(s[k])
  {
    i := StripIsSlice(s);
    LStripSkipsSpace(s);
    TrailingSpace(s);
  }

  lemma {:induction false} TrailingSpace(s: string)
    ensures forall k :: |s| - |LStrip(s)| + |Strip(s)| <= k < |s| ==> IsSpace(s[k])
  {
    var l := LStrip(s);
    var i := |s| - |l|;
    LStripIsSuffix(s);
    RStripSkipsSpace(l);
    forall k | i + |Strip(s)| <= k < |s| ensures IsSpace(s[k]) {
      assert s[k] == l[k - i];
    }
  }

  /** `s.strip()` is empty exactly when `s` is all whitespace. */
  lemma {:induction false} StripEmptyIffBlank(s: string)
    ensures Strip(s) == [] <==> forall k :: 0 <= k < |s| ==> IsSpace(s[k])
  {
    var i := StripIsTrimmedSlice(s);
    if Strip(s) != [] {
      assert s[i] == Strip(s)[0];
    }
  }

  /** A string with no whitespace at either end is left unchanged by `strip()`. */
  lemma {:induction false} StripOfStripped(s: string)
    requires s == [] || (!IsSpace(s[0]) && !IsSpace(s[|s| - 1]))
    ensures Strip(s) == s
  {
  }

  /** `s.lstrip('\n')`: the suffix left after removing every leading line break. */
  function LStripNewlines(s: string): (r: string)
    ensures |r| <= |s|
    ensures r == [] || r[0] != '\n'
    decreases |s|
  {
    if |s| > 0 && s[0] == '\n' then LStripNewlines(s[1..]) else s
  }

  /** What is left is a suffix, and only line breaks were removed. */
  lemma {:induction false} LStripNewlinesSkips(s: string)
    ensures LStripNewlines(s) == s[|s| - |LStripNewlines(s)|..]
    ensures forall k :: 0 <= k < |s| - |LStripNewlines(s)| ==> s[k] == '\n'
    decreases |s|
  {
    if |s| > 0 && s[0] == '\n' {
      LStripNewlinesSkips(s[1..]);
      assert s[1..][|s| - 1 - |LStripNewlines(s)|..] == s[|s| - |LStripNewlines(s)|..];
      forall k | 1 <= k < |s| - |LStripNewlines(s)| ensures s[k] == '\n' {
        assert s[k] == s[1..][k - 1];
      }
    }
  }

  /** The Python slice `s[k:]` for a non-negative `k` (empty once `k` passes the end). */
  function SliceFrom(s: string, k: nat): string {
    if k <= |s| then s[k..] else ""
  }

  /** `s.replace(from, to)` for one-character `from` and `to`. */
  function ReplaceChar(s: string, from: char, to: char): (r: string)
    ensures |r| == |s|
    ensures forall k :: 0 <= k < |s| ==> r[k] == (if s[k] == from then to else s[k])
  {
    seq(|s|, k requires 0 <= k < |s| => if s[k] == from then to else s[k])
  }

  predicate IsDigit(c: char) {
    '0' <= c <= '9'
  }

  function DigitChar(v: nat): (c: char)
    requires v < 10
    ensures IsDigit(c)
  {
    ('0' as int + v) as char
  }

  function DigitValue(c: char): nat
    requires IsDigit(c)
  {
    (c as int - '0' as int) as nat
  }

  /** `str(n)` / `f"{n}"`: the decimal digits of `n`, with no leading zero. */
  function NatToString(n: nat): (r: string)
    ensures |r| > 0
    ensures forall k :: 0 <= k < |r| ==> IsDigit(r[k])
    ensures r[0] == '0' ==> n == 0
    decreases n
  {
    if n < 10 then [DigitChar(n)] else NatToString(n / 10) + [DigitChar(n % 10)]
  }

  /** The value of a string of decimal digits. */
  function ParseDecimal(s: string): nat
    requires forall k :: 0 <= k < |s| ==> IsDigit(s[k])
    decreases |s|
  {
    if |s| == 0 then 0 else ParseDecimal(s[..|s| - 1]) * 10 + DigitValue(s[|s| - 1])
  }

  /** Reading the digits `NatToString` writes gives the number back, so distinct numbers
      have distinct decimal forms. */
  lemma {:induction false} ParseNatToString(n: nat)
    ensures ParseDecimal(NatToString(n)) == n
    decreases n
  {
    var r := NatToString(n);
    if n >= 10 {
      ParseNatToString(n / 10);
      assert r[..|r| - 1] == NatToString(n / 10);
    }
  }
}
