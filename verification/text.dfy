/** String helpers with the semantics of the Python `str` methods the
    assistant relies on: `lower`, `strip`, `in`, `find`, `rfind`, `split`,
    `join`, `isdigit` and `int`/`str` on non-negative numbers.
    Case folding covers ASCII letters only. */
module Text {
  import Wrappers

  // ---------------------------------------------------------------- case

  predicate IsUpper(c: char) {
    'A' <= c <= 'Z'
  }

  function LowerChar(c: char): char {
    if IsUpper(c) then (c as int + 32) as char else c
  }

  function Lower(s: string): (r: string)
    ensures |r| == |s|
    ensures forall i :: 0 <= i < |s| ==> r[i] == LowerChar(s[i])
  {
    if |s| == 0 then [] else [LowerChar(s[0])] + Lower(s[1..])
  }

  lemma LowerIdempotent(s: string)
    ensures Lower(Lower(s)) == Lower(s)
  {
  }

  lemma LowerConcat(a: string, b: string)
    ensures Lower(a + b) == Lower(a) + Lower(b)
  {
  }

  // ---------------------------------------------------------- whitespace

  /** The characters Python's `str.isspace` accepts. */
  predicate IsSpace(c: char) {
    c == ' ' || ('\t' <= c <= '\r') || ('\U{1C}' <= c <= '\U{1F}') || c == '\U{85}'
    || c == '\U{A0}' || c == '\U{1680}' || ('\U{2000}' <= c <= '\U{200A}')
    || c == '\U{2028}' || c == '\U{2029}' || c == '\U{202F}' || c == '\U{205F}' || c == '\U{3000}'
  }

  predicate AllSpace(s: string) {
    forall i :: 0 <= i < |s| ==> IsSpace(s[i])
  }

  /** Number of leading whitespace characters. */
  function LeadingSpace(s: string): (n: nat)
    ensures n <= |s|
    ensures AllSpace(s[..n])
    ensures n == |s| || !IsSpace(s[n])
  {
    if |s| == 0 || !IsSpace(s[0]) then 0 else 1 + LeadingSpace(s[1..])
  }

  /** Length of `s` once trailing whitespace is removed. */
  function TrimmedEnd(s: string): (n: nat)
    ensures n <= |s|
    ensures AllSpace(s[n..])
    ensures n == 0 || !IsSpace(s[n - 1])
  {
    if |s| == 0 || !IsSpace(s[|s| - 1]) then |s|
    else
      var n := TrimmedEnd(s[..|s| - 1]);
      assert forall i :: n <= i < |s| - 1 ==> s[i] == s[..|s| - 1][n..][i - n];
      n
  }

  /** `r` is what Python's `s.strip()` returns: a slice of `s` with only
      whitespace around it and no whitespace at either of its ends. */
  ghost predicate IsStripOf(r: string, s: string) {
    exists a: nat, b: nat :: a <= b <= |s| && r == s[a..b] && AllSpace(s[..a]) && AllSpace(s[b..])
      && (r == [] || (!IsSpace(r[0]) && !IsSpace(r[|r| - 1])))
  }

  function Strip(s: string): (r: string)
    ensures |r| <= |s|
    ensures IsStripOf(r, s)
    ensures r == [] <==> AllSpace(s)
  {
    var a := LeadingSpace(s);
    var b := a + TrimmedEnd(s[a..]);
    assert s[a..][TrimmedEnd(s[a..])..] == s[b..];
    assert AllSpace(s) ==> a == |s|;
    s[a..b]
  }

  // ----------------------------------------------------------- searching

  predicate OccursAt(s: string, sub: string, i: int) {
    0 <= i && i + |sub| <= |s| && s[i..i + |sub|] == sub
  }

  /** Python's `sub in s`. */
  predicate Contains(s: string, sub: string) {
    exists i | 0 <= i <= |s| - |sub| :: OccursAt(s, sub, i)
  }

  /** Leftmost occurrence of `sub` at or after `from`, or -1 (Python's `s.find(sub, from)`). */
  function FindFrom(s: string, sub: string, from: nat): (r: int)
    ensures r == -1 || (from <= r && OccursAt(s, sub, r))
    ensures r == -1 ==> forall i :: from <= i ==> !OccursAt(s, sub, i)
    ensures r >= 0 ==> forall i :: from <= i < r ==> !OccursAt(s, sub, i)
    decreases |s| - from
  {
    if from + |sub| > |s| then -1
    else if s[from..from + |sub|] == sub then from
    else FindFrom(s, sub, from + 1)
  }

  lemma ContainsFind(s: string, sub: string)
    ensures Contains(s, sub) <==> FindFrom(s, sub, 0) >= 0
  {
    if FindFrom(s, sub, 0) >= 0 {
      assert OccursAt(s, sub, FindFrom(s, sub, 0));
    }
  }

  /** Python's `s.rfind(sub, lo, hi)` for in-range bounds: the largest index
      `i >= lo` at which `sub` occurs ending no later than `hi`, or -1. */
  function RFind(s: string, sub: string, lo: nat, hi: nat): (r: int)
    requires hi <= |s|
    ensures r == -1 || (lo <= r && r + |sub| <= hi && OccursAt(s, sub, r))
    ensures r == -1 ==> forall i :: lo <= i && i + |sub| <= hi ==> !OccursAt(s, sub, i)
    ensures r >= 0 ==> forall i :: r < i && i + |sub| <= hi ==> !OccursAt(s, sub, i)
    decreases hi
  {
    if hi < lo + |sub| then -1
    else if s[hi - |sub|..hi] == sub then hi - |sub|
    else if hi == 0 then -1
    else RFind(s, sub, lo, hi - 1)
  }

  // ------------------------------------------------------- split and join

  /** `c` does not occur in `s`. */
  predicate Lacks(s: string, c: char) {
    forall j :: 0 <= j < |s| ==> s[j] != c
  }

  /** Index of the first `c` in `s`, or -1. */
  function IndexOfChar(s: string, c: char): (r: int)
    ensures -1 <= r < |s|
    ensures r >= 0 ==> s[r] == c
    ensures forall j :: 0 <= j < |s| && (r < 0 || j < r) ==> s[j] != c
  {
    if |s| == 0 then -1
    else if s[0] == c then 0
    else
      var k := IndexOfChar(s[1..], c);
      if k < 0 then -1 else k + 1
  }

  /** Python's `s.split(sep)` for a one-character separator. */
  function Split(s: string, sep: char): (r: seq<string>)
    ensures |r| >= 1
    ensures forall i :: 0 <= i < |r| ==> Lacks(r[i], sep) && |r[i]| <= |s|
    decreases |s|
  {
    var i := IndexOfChar(s, sep);
    if i < 0 then
      assert Lacks(s, sep);
      [s]
    else
      var head := s[..i];
      assert Lacks(head, sep);
      var rest := Split(s[i + 1..], sep);
      PiecesCons(head, rest, sep, |s|);
      [head] + rest
  }

  /** Putting one more piece without `sep` and no longer than `n` in front of such pieces. */
  lemma PiecesCons(head: string, rest: seq<string>, sep: char, n: int)
    requires Lacks(head, sep) && |head| <= n
    requires forall k :: 0 <= k < |rest| ==> Lacks(rest[k], sep) && |rest[k]| <= n
    ensures forall k :: 0 <= k < |[head] + rest| ==> Lacks(([head] + rest)[k], sep) && |([head] + rest)[k]| <= n
  {
    var r := [head] + rest;
    assert forall k :: 1 <= k < |r| ==> r[k] == rest[k - 1];
  }

  /** Python's `sep.join(parts)` for a one-character separator. */
  function Join(parts: seq<string>, sep: char): string {
    if |parts| == 0 then []
    else if |parts| == 1 then parts[0]
    else parts[0] + [sep] + Join(parts[1..], sep)
  }

  /** Python's `sep.join(parts)` for a string separator. */
  function JoinWith(parts: seq<string>, sep: string): string {
    if |parts| == 0 then []
    else if |parts| == 1 then parts[0]
    else parts[0] + sep + JoinWith(parts[1..], sep)
  }

  /** Splitting at a first separator preceded by `head`. */
  lemma SplitAtFirst(head: string, tail: string, sep: char)
    requires Lacks(head, sep)
    ensures Split(head + [sep] + tail, sep) == [head] + Split(tail, sep)
  {
    var s := head + [sep] + tail;
    assert s[|head|] == sep;
    assert forall j :: 0 <= j < |head| ==> s[j] == head[j];
    assert IndexOfChar(s, sep) == |head|;
    assert s[..|head|] == head && s[|head| + 1..] == tail;
  }

  /** Splitting a join of separator-free parts gives the parts back. */
  lemma {:induction false} SplitJoin(parts: seq<string>, sep: char)
    requires |parts| >= 1
    requires forall i :: 0 <= i < |parts| ==> Lacks(parts[i], sep)
    ensures Split(Join(parts, sep), sep) == parts
    decreases |parts|
  {
    if |parts| == 1 {
      assert IndexOfChar(parts[0], sep) < 0;
    } else {
      var tail := Join(parts[1..], sep);
      assert Join(parts, sep) == parts[0] + [sep] + tail;
      SplitAtFirst(parts[0], tail, sep);
      SplitJoin(parts[1..], sep);
      assert parts == [parts[0]] + parts[1..];
    }
  }

  /** Joining one more part appends the separator and that part. */
  lemma {:induction false} JoinWithSnoc(parts: seq<string>, last: string, sep: string)
    requires |parts| >= 1
    ensures JoinWith(parts + [last], sep) == JoinWith(parts, sep) + sep + last
    decreases |parts|
  {
    var all := parts + [last];
    if |parts| > 1 {
      assert all[1..] == parts[1..] + [last];
      JoinWithSnoc(parts[1..], last, sep);
    } else {
      assert all[1..] == [last];
    }
  }

  lemma JoinCons(head: string, rest: seq<string>, sep: char)
    requires |rest| >= 1
    ensures Join([head] + rest, sep) == head + [sep] + Join(rest, sep)
  {
    var parts := [head] + rest;
    assert parts[1..] == rest;
  }

  lemma {:induction false} JoinSplit(s: string, sep: char)
    ensures Join(Split(s, sep), sep) == s
    decreases |s|
  {
    var i := IndexOfChar(s, sep);
    if i >= 0 {
      var head := s[..i];
      var tail := s[i + 1..];
      var rest := Split(tail, sep);
      assert Split(s, sep) == [head] + rest;
      JoinSplit(tail, sep);
      JoinCons(head, rest, sep);
      Decompose(s, i);
    }
  }

  lemma Decompose(s: string, i: nat)
    requires i < |s|
    ensures s == s[..i] + [s[i]] + s[i + 1..]
  {
  }

  /** A prefix free of `c` followed by `c` is determined by the string it starts. */
  lemma FirstSeparator(a1: string, r1: string, a2: string, r2: string, c: char)
    requires Lacks(a1, c) && Lacks(a2, c)
    requires a1 + [c] + r1 == a2 + [c] + r2
    ensures a1 == a2 && r1 == r2
  {
    var s := a1 + [c] + r1;
    assert s[|a1|] == c && s[|a2|] == c;
    assert |a1| == |a2|;
    assert a1 == s[..|a1|] == a2;
    assert r1 == s[|a1| + 1..] == r2;
  }

  /** Python's `s.split(sep, 1)` when `sep` occurs: the text before and after the first `sep`. */
  function SplitFirst(s: string, sep: char): (r: Wrappers.Option<(string, string)>)
    ensures r.None? <==> Lacks(s, sep)
    ensures r.Some? ==> Lacks(r.value.0, sep) && r.value.0 + [sep] + r.value.1 == s
  {
    var i := IndexOfChar(s, sep);
    if i < 0 then Wrappers.None
    else
      assert s == s[..i] + [sep] + s[i + 1..];
      Wrappers.Some((s[..i], s[i + 1..]))
  }

  /** Index of the last `c` in `s`, or -1. */
  function LastIndexOfChar(s: string, c: char): (r: int)
    ensures -1 <= r < |s|
    ensures r >= 0 ==> s[r] == c
    ensures forall j :: r < j < |s| ==> s[j] != c
    decreases |s|
  {
    if |s| == 0 then -1
    else if s[|s| - 1] == c then |s| - 1
    else LastIndexOfChar(s[..|s| - 1], c)
  }

  /** Text after the last `c`, or all of `s` when there is none (Python's `s.split(c)[-1]`). */
  function AfterLast(s: string, c: char): (r: string)
    ensures Lacks(r, c)
    ensures |r| <= |s| && r == s[|s| - |r|..]
    ensures |r| < |s| ==> s[|s| - |r| - 1] == c
  {
    s[LastIndexOfChar(s, c) + 1..]
  }

  /** Code-point lexicographic order: the order SQLite's default BINARY
      collation gives TEXT values (UTF-8 byte order agrees with it). */
  predicate LexLess(a: string, b: string) {
    |b| > 0 && (|a| == 0 || a[0] < b[0] || (a[0] == b[0] && LexLess(a[1..], b[1..])))
  }

  // --------------------------------------------------------------- numbers

  predicate IsDigit(c: char) {
    '0' <= c <= '9'
  }

  /** Python's `s.isdigit()`, restricted to ASCII digits. */
  predicate IsDigits(s: string) {
    |s| > 0 && forall i :: 0 <= i < |s| ==> IsDigit(s[i])
  }

  function DigitValue(c: char): nat
    requires IsDigit(c)
  {
    c as int - '0' as int
  }

  /** Value of a run of decimal digits (leading zeros allowed, as in Python's `int`). */
  function DigitsValue(s: string): nat
    requires forall i :: 0 <= i < |s| ==> IsDigit(s[i])
  {
    if |s| == 0 then 0 else DigitsValue(s[..|s| - 1]) * 10 + DigitValue(s[|s| - 1])
  }

  /** Decimal rendering of a natural number, as Python's `str(n)`. */
  function NatToString(n: nat): (r: string)
    ensures IsDigits(r)
    ensures r[0] == '0' ==> n == 0
    decreases n
  {
    if n < 10 then [(n + '0' as int) as char]
    else NatToString(n / 10) + [(n % 10 + '0' as int) as char]
  }

  lemma {:induction false} NatToStringValue(n: nat)
    ensures DigitsValue(NatToString(n)) == n
    decreases n
  {
    if n >= 10 {
      NatToStringValue(n / 10);
      var r := NatToString(n);
      assert r[..|r| - 1] == NatToString(n / 10);
    }
  }

  lemma NatToStringInjective(a: nat, b: nat)
    ensures NatToString(a) == NatToString(b) ==> a == b
  {
    NatToStringValue(a);
    NatToStringValue(b);
  }

  /** Python's `int(s)` on an optional '-' sign followed by ASCII digits;
      anything else is a parse failure. */
  function ParseInt(s: string): (r: Wrappers.Option<int>)
    ensures r.Some? <==> (IsDigits(s) || (|s| > 1 && s[0] == '-' && IsDigits(s[1..])))
    ensures IsDigits(s) ==> r == Wrappers.Some(DigitsValue(s) as int)
  {
    if IsDigits(s) then Wrappers.Some(DigitsValue(s) as int)
    else if |s| > 1 && s[0] == '-' && IsDigits(s[1..]) then Wrappers.Some(-(DigitsValue(s[1..]) as int))
    else Wrappers.None
  }

  lemma ParseIntOfNat(n: nat)
    ensures ParseInt(NatToString(n)) == Wrappers.Some(n as int)
  {
    NatToStringValue(n);
  }
}
