/**
 * Text primitives the rest of the model is built from: Python's `str.strip`,
 * ASCII `upper`/`lower`, SQLite's `NOCASE` equality, `str.replace` of one
 * character, substring search, and the code-point lexicographic order that
 * both Python's `<` on `str` and SQLite's BINARY collation use.
 */
module Strings {
  import opened Wrappers

  // ---------------------------------------------------------------------------
  // Whitespace and strip
  // ---------------------------------------------------------------------------

  /** The characters for which Python's `str.isspace()` holds; `str.strip()`
      with no argument removes exactly these, and so does `\s` in a `str` regex. */
  predicate IsSpace(c: char) {
    || ('\t' <= c <= '\r')
    || ('\U{1c}' <= c <= ' ')
    || c == '\U{85}' || c == '\U{a0}' || c == '\U{1680}'
    || ('\U{2000}' <= c <= '\U{200a}')
    || c == '\U{2028}' || c == '\U{2029}' || c == '\U{202f}' || c == '\U{205f}' || c == '\U{3000}'
  }

  predicate AllSpace(s: string) {
    forall i :: 0 <= i < |s| ==> IsSpace(s[i])
  }

  /** `s.lstrip()` */
  function TrimStart(s: string): (r: string)
    ensures |r| <= |s| && r == s[|s| - |r|..]
    ensures AllSpace(s[..|s| - |r|])
    ensures |r| > 0 ==> !IsSpace(r[0])
  {
    if |s| > 0 && IsSpace(s[0]) then TrimStart(s[1..]) else s
  }

  /** `s.rstrip()` */
  function TrimEnd(s: string): (r: string)
    ensures |r| <= |s| && r == s[..|r|]
    ensures AllSpace(s[|r|..])
    ensures |r| > 0 ==> !IsSpace(r[|r| - 1])
  {
    if |s| > 0 && IsSpace(s[|s| - 1]) then TrimEnd(s[..|s| - 1]) else s
  }

  /** Number of leading whitespace characters `strip` removes. */
  function StripOffset(s: string): nat {
    |s| - |TrimStart(s)|
  }

  /** `s.strip()`: the contiguous middle of `s` left after removing whitespace at
      both ends; it neither starts nor ends with whitespace. */
  function Strip(s: string): (r: string)
    ensures StripOffset(s) + |r| <= |s|
    ensures r == s[StripOffset(s)..StripOffset(s) + |r|]
    ensures AllSpace(s[..StripOffset(s)]) && AllSpace(s[StripOffset(s) + |r|..])
    ensures |r| > 0 ==> !IsSpace(r[0]) && !IsSpace(r[|r| - 1])
  {
    var t := TrimStart(s);
    var r := TrimEnd(t);
    StripParts(s, t, r);
    assert StripOffset(s) == |s| - |t|;
    r
  }

  /** The slice facts behind `Strip`'s contract, stated about any text `t` cut
      from the end of `s` behind whitespace and any `r` cut from the front of
      `t` ahead of whitespace. */
  lemma StripParts(s: string, t: string, r: string)
    requires |t| <= |s| && t == s[|s| - |t|..] && AllSpace(s[..|s| - |t|])
    requires |r| <= |t| && r == t[..|r|] && AllSpace(t[|r|..])
    ensures var k := |s| - |t|;
      && k + |r| <= |s| && r == s[k..k + |r|]
      && AllSpace(s[k + |r|..])
      && (|r| > 0 ==> r[0] == t[0])
  {
    var k := |s| - |t|;
    assert s[k + |r|..] == t[|r|..];
  }

  lemma {:induction false} TrimStartSpacePrefix(a: string, x: string)
    requires AllSpace(a)
    ensures TrimStart(a + x) == TrimStart(x)
    decreases |a|
  {
    if |a| > 0 {
      assert (a + x)[1..] == a[1..] + x;
      TrimStartSpacePrefix(a[1..], x);
    } else {
      assert a + x == x;
    }
  }

  lemma {:induction false} TrimEndSpaceSuffix(x: string, b: string)
    requires AllSpace(b)
    ensures TrimEnd(x + b) == TrimEnd(x)
    decreases |b|
  {
    if |b| > 0 {
      assert (x + b)[..|x + b| - 1] == x + b[..|b| - 1];
      TrimEndSpaceSuffix(x, b[..|b| - 1]);
    } else {
      assert x + b == x;
    }
  }

  lemma {:induction false} TrimStartAppend(m: string, b: string)
    ensures TrimStart(m + b) == if TrimStart(m) == [] then TrimStart(b) else TrimStart(m) + b
    decreases |m|
  {
    if |m| == 0 {
      assert m + b == b;
    } else if IsSpace(m[0]) {
      assert (m + b)[1..] == m[1..] + b;
      TrimStartAppend(m[1..], b);
    }
  }

  /** Whitespace wrapped around a text never changes what `strip` returns. */
  lemma StripIgnoresSurroundingSpace(a: string, m: string, b: string)
    requires AllSpace(a) && AllSpace(b)
    ensures Strip(a + m + b) == Strip(m)
  {
    assert a + m + b == a + (m + b);
    TrimStartSpacePrefix(a, m + b);
    TrimStartAppend(m, b);
    if TrimStart(m) == [] {
      TrimStartSpacePrefix(b, []);
      assert b + [] == b;
    } else {
      TrimEndSpaceSuffix(TrimStart(m), b);
    }
  }

  /** Whitespace appended to a text never changes what `strip` returns. */
  lemma StripIgnoresTrailingSpace(t: string, b: string)
    requires AllSpace(b)
    ensures Strip(t + b) == Strip(t)
  {
    var none: string := [];
    assert none + t + b == t + b;
    StripIgnoresSurroundingSpace(none, t, b);
  }

  /** Text that neither starts nor ends with whitespace is its own strip. */
  lemma StripTrimmed(s: string)
    requires |s| > 0 && !IsSpace(s[0]) && !IsSpace(s[|s| - 1])
    ensures Strip(s) == s
  {
    assert TrimStart(s) == s;
    assert TrimEnd(s) == s;
  }

  /** Stripping twice is stripping once. */
  lemma StripIdempotent(s: string)
    ensures Strip(Strip(s)) == Strip(s)
  {
    var r := Strip(s);
    assert TrimStart(r) == r;
    assert TrimEnd(r) == r;
  }

  // ---------------------------------------------------------------------------
  // ASCII case mapping (Python `upper`/`lower` restricted to ASCII, SQLite NOCASE)
  // ---------------------------------------------------------------------------

  function LowerChar(c: char): char {
    if 'A' <= c <= 'Z' then (c as int + 32) as char else c
  }

  function UpperChar(c: char): char {
    if 'a' <= c <= 'z' then (c as int - 32) as char else c
  }

  function Lower(s: string): (r: string)
    ensures |r| == |s|
  {
    seq(|s|, i requires 0 <= i < |s| => LowerChar(s[i]))
  }

  function Upper(s: string): (r: string)
    ensures |r| == |s|
  {
    seq(|s|, i requires 0 <= i < |s| => UpperChar(s[i]))
  }

  /** Python's `str.lower` on one character, for ASCII and for the Latin-1
      capitals U+00C0..U+00DE other than the multiplication sign, each of
      which maps to the letter 32 code points above it. */
  function PyLowerChar(c: char): char {
    if 'A' <= c <= 'Z' || ('\U{00C0}' <= c <= '\U{00DE}' && c != '\U{00D7}') then (c as int + 32) as char else c
  }

  /** Python's `str.lower` as far as `PyLowerChar` goes: beyond ASCII it also
      lowers accented capitals such as 'É', which `Lower` leaves alone. */
  function PyLower(s: string): (r: string)
    ensures |r| == |s|
    ensures forall i :: 0 <= i < |s| && s[i] < '\U{0080}' ==> r[i] == LowerChar(s[i])
    ensures forall i :: 0 <= i < |s| && '\U{00C0}' <= s[i] <= '\U{00DE}' && s[i] != '\U{00D7}' ==>
      r[i] as int == s[i] as int + 32 && r[i] != LowerChar(s[i])
    ensures forall i :: 0 <= i < |s| && '\U{0080}' <= s[i] && !('\U{00C0}' <= s[i] <= '\U{00DE}' && s[i] != '\U{00D7}') ==>
      r[i] == s[i]
  {
    seq(|s|, i requires 0 <= i < |s| => PyLowerChar(s[i]))
  }

  predicate IsAscii(s: string) {
    forall i :: 0 <= i < |s| ==> s[i] < '\U{0080}'
  }

  /** On ASCII text Python's lowering and the ASCII fold agree. */
  lemma PyLowerOnAscii(s: string)
    requires IsAscii(s)
    ensures PyLower(s) == Lower(s)
  {
  }

  /** SQLite `a = b COLLATE NOCASE`: equal once ASCII letters are folded. */
  predicate NoCaseEq(a: string, b: string) {
    Lower(a) == Lower(b)
  }

  /** `s.replace(from, to)` for single characters. */
  function ReplaceChar(s: string, from: char, to: char): (r: string)
    ensures |r| == |s|
  {
    seq(|s|, i requires 0 <= i < |s| => if s[i] == from then to else s[i])
  }

  // ---------------------------------------------------------------------------
  // Substring search
  // ---------------------------------------------------------------------------

  /** `pat` occurs in `s` starting at index `p`. */
  predicate StartsAt(s: string, pat: string, p: nat) {
    p + |pat| <= |s| && s[p..p + |pat|] == pat
  }

  /** `s.find(pat, from)`: the first occurrence of `pat` at or after `from`. */
  function FindFrom(s: string, pat: string, from: nat): (r: Option<nat>)
    ensures r.Some? ==> from <= r.value && StartsAt(s, pat, r.value)
    ensures r.Some? ==> forall q: nat :: from <= q < r.value ==> !StartsAt(s, pat, q)
    ensures r.None? ==> forall q: nat :: from <= q ==> !StartsAt(s, pat, q)
    decreases |s| - from
  {
    if from + |pat| > |s| then None
    else if s[from..from + |pat|] == pat then Some(from)
    else FindFrom(s, pat, from + 1)
  }

  /** Python's `pat in s`. */
  predicate Contains(s: string, pat: string) {
    FindFrom(s, pat, 0).Some?
  }

  /** An occurrence past a prefix is an occurrence in the rest. */
  lemma StartsAtSuffix(a: string, b: string, pat: string, d: nat)
    ensures StartsAt(a + b, pat, |a| + d) <==> StartsAt(b, pat, d)
  {
    if d + |pat| <= |b| {
      assert (a + b)[|a| + d..|a| + d + |pat|] == b[d..d + |pat|];
    }
  }

  /** Text with `pat` spliced into it contains `pat`. */
  lemma ContainsSpliced(a: string, pat: string, b: string)
    ensures StartsAt(a + pat + b, pat, |a|) && Contains(a + pat + b, pat)
  {
    var s := a + pat + b;
    assert s[|a|..|a| + |pat|] == pat;
    assert FindFrom(s, pat, 0).None? ==> !StartsAt(s, pat, |a|);
  }

  /** If `p` is an occurrence at or after `from` and none lies between, the
      search finds `p`. */
  lemma FindFromIs(s: string, pat: string, from: nat, p: nat)
    requires from <= p && StartsAt(s, pat, p)
    requires forall q: nat :: from <= q < p ==> !StartsAt(s, pat, q)
    ensures FindFrom(s, pat, from) == Some(p)
  {
  }

  /** A text that blocks `pat`, followed by `pat`: searching from the start of
      the text finds that occurrence. */
  lemma FindAfterBlocked(pre: string, x: string, pat: string, y: string)
    requires Blocked(x, pat)
    ensures FindFrom(pre + x + pat + y, pat, |pre|) == Some(|pre| + |x|)
  {
    var s := pre + x + pat + y;
    BlockedNoStart(pre, x, pat + y, pat);
    assert pre + x + (pat + y) == s;
    assert s[|pre| + |x|..|pre| + |x| + |pat|] == pat;
    FindFromIs(s, pat, |pre|, |pre| + |x|);
  }

  /** `pat` occurs first right after `x` exactly when no occurrence starts
      inside `x`; such an occurrence would lie within `x` and all of `pat`
      but its last character. */
  lemma FindAfterClear(pre: string, x: string, pat: string, y: string)
    requires |pat| > 0 && !Contains(x + pat[..|pat| - 1], pat)
    ensures FindFrom(pre + x + pat + y, pat, |pre|) == Some(|pre| + |x|)
  {
    var s := pre + x + pat + y;
    forall q: nat | |pre| <= q < |pre| + |x|
      ensures !StartsAt(s, pat, q)
    {
      OccurrenceInWindow(pre, x, pat, y, q);
    }
    assert s[|pre| + |x|..|pre| + |x| + |pat|] == pat;
    FindFromIs(s, pat, |pre|, |pre| + |x|);
  }

  /** An occurrence starting inside `x` lies within `x` and all of `pat` but
      its last character. */
  lemma OccurrenceInWindow(pre: string, x: string, pat: string, y: string, q: nat)
    requires |pat| > 0 && |pre| <= q < |pre| + |x|
    ensures StartsAt(pre + x + pat + y, pat, q) ==> StartsAt(x + pat[..|pat| - 1], pat, q - |pre|)
  {
    var s := pre + x + pat + y;
    var w := x + pat[..|pat| - 1];
    if StartsAt(s, pat, q) {
      var d := q - |pre|;
      forall k | 0 <= k < |pat|
        ensures w[d + k] == pat[k]
      {
        assert s[q + k] == pat[k];
        if d + k < |x| {
          assert s[q + k] == x[d + k];
        } else {
          assert s[q + k] == pat[d + k - |x|];
        }
      }
      assert w[d..d + |pat|] == pat;
    }
  }

  /** Read from `p` on, `x` differs from `pat` before `x` ends. */
  ghost predicate MismatchAt(x: string, pat: string, p: nat) {
    exists k :: 0 <= k < |pat| && p + k < |x| && x[p + k] != pat[k]
  }

  /** No occurrence of `pat` can start inside `x`, whatever text follows `x`. */
  ghost predicate Blocked(x: string, pat: string) {
    forall p: nat :: p < |x| ==> MismatchAt(x, pat, p)
  }

  /** Text that starts with `c` can never complete a proper, non-empty prefix
      of `pat` into a whole occurrence. */
  ghost predicate KillsPrefixes(c: string, pat: string) {
    forall m :: 1 <= m < |pat| ==> KillsPrefix(c, pat, m)
  }

  /** Text that starts with `c` differs from `pat[m..]` before either ends. */
  ghost predicate KillsPrefix(c: string, pat: string, m: nat) {
    exists k :: 0 <= k < |c| && m + k < |pat| && c[k] != pat[m + k]
  }

  lemma BlockedNoStart(pre: string, x: string, y: string, pat: string)
    requires Blocked(x, pat)
    ensures forall q: nat :: |pre| <= q < |pre| + |x| ==> !StartsAt(pre + x + y, pat, q)
  {
    var s := pre + x + y;
    forall q: nat | |pre| <= q < |pre| + |x|
      ensures !StartsAt(s, pat, q)
    {
      assert MismatchAt(x, pat, q - |pre|);
      var k :| 0 <= k < |pat| && q - |pre| + k < |x| && x[q - |pre| + k] != pat[k];
      assert s[q + k] == x[q - |pre| + k];
      if q + |pat| <= |s| {
        assert s[q..q + |pat|][k] != pat[k];
      }
    }
  }

  lemma BlockedAppend(x: string, y: string, pat: string)
    requires Blocked(x, pat) && Blocked(y, pat)
    ensures Blocked(x + y, pat)
  {
    var s := x + y;
    forall p: nat | p < |s|
      ensures MismatchAt(s, pat, p)
    {
      if p < |x| {
        assert MismatchAt(x, pat, p);
        var k :| 0 <= k < |pat| && p + k < |x| && x[p + k] != pat[k];
        assert s[p + k] == x[p + k];
      } else {
        assert MismatchAt(y, pat, p - |x|);
        var k :| 0 <= k < |pat| && p - |x| + k < |y| && y[p - |x| + k] != pat[k];
        assert s[p + k] == y[p - |x| + k];
      }
    }
  }

  /** Text without the first character of `pat` blocks every start. */
  lemma BlockedWithoutFirst(x: string, pat: string)
    requires |pat| > 0 && pat[0] !in x
    ensures Blocked(x, pat)
  {
    forall p: nat | p < |x|
      ensures MismatchAt(x, pat, p)
    {
      assert x[p + 0] != pat[0];
    }
  }

  /** A tag that starts with `pat[0]`, never repeats it, and differs from `pat`
      at index `k0` blocks every start. */
  lemma BlockedTag(x: string, pat: string, k0: nat)
    requires |pat| > 0 && |x| > 0 && pat[0] !in x[1..]
    requires k0 < |x| && k0 < |pat| && x[k0] != pat[k0]
    ensures Blocked(x, pat)
  {
    forall p: nat | p < |x|
      ensures MismatchAt(x, pat, p)
    {
      if p == 0 {
        assert x[p + k0] != pat[k0];
      } else {
        assert x[p] == x[1..][p - 1];
        assert x[p + 0] != pat[0];
      }
    }
  }

  /** A field that does not contain `pat`, followed by text that blocks and
      kills every prefix of `pat`, blocks every start. */
  lemma FieldBlocked(f: string, c: string, pat: string)
    requires !Contains(f, pat) && Blocked(c, pat) && KillsPrefixes(c, pat)
    ensures Blocked(f + c, pat)
  {
    var s := f + c;
    forall p: nat | p < |s|
      ensures MismatchAt(s, pat, p)
    {
      if p >= |f| {
        assert MismatchAt(c, pat, p - |f|);
        var k :| 0 <= k < |pat| && p - |f| + k < |c| && c[p - |f| + k] != pat[k];
        assert s[p + k] == c[p - |f| + k];
      } else if p + |pat| <= |f| {
        assert !StartsAt(f, pat, p);
        var k :| 0 <= k < |pat| && f[p..p + |pat|][k] != pat[k];
        assert s[p + k] == f[p + k];
      } else if f[p..] != pat[..|f| - p] {
        var k :| 0 <= k < |f| - p && f[p..][k] != pat[..|f| - p][k];
        assert s[p + k] == f[p + k];
      } else {
        var m := |f| - p;
        assert 1 <= m < |pat| && KillsPrefix(c, pat, m);
        var k :| 0 <= k < |c| && m + k < |pat| && c[k] != pat[m + k];
        assert s[p + (m + k)] == c[k];
      }
    }
  }

  // ---------------------------------------------------------------------------
  // Code-point lexicographic order
  // ---------------------------------------------------------------------------

  /** `a < b` on Python strings, and SQLite's BINARY collation on UTF-8 text:
      the first differing character decides; a proper prefix is smaller. */
  predicate StrLt(a: string, b: string)
    decreases |a|
  {
    if |a| == 0 then |b| > 0
    else if |b| == 0 then false
    else a[0] < b[0] || (a[0] == b[0] && StrLt(a[1..], b[1..]))
  }

  predicate StrLe(a: string, b: string) {
    a == b || StrLt(a, b)
  }

  lemma {:induction false} StrLtIrreflexive(a: string)
    ensures !StrLt(a, a)
    decreases |a|
  {
    if |a| > 0 {
      StrLtIrreflexive(a[1..]);
    }
  }

  lemma {:induction false} StrLtTransitive(a: string, b: string, c: string)
    requires StrLt(a, b) && StrLt(b, c)
    ensures StrLt(a, c)
    decreases |a|
  {
    if |a| > 0 {
      assert |b| > 0 && |c| > 0;
      if a[0] == b[0] && b[0] == c[0] {
        StrLtTransitive(a[1..], b[1..], c[1..]);
      }
    }
  }

  lemma {:induction false} StrLtTrichotomy(a: string, b: string)
    ensures a == b || StrLt(a, b) || StrLt(b, a)
    decreases |a|
  {
    if |a| > 0 && |b| > 0 && a[0] == b[0] {
      StrLtTrichotomy(a[1..], b[1..]);
      if a[1..] == b[1..] {
        assert a == [a[0]] + a[1..] && b == [b[0]] + b[1..];
      }
    }
  }

  lemma StrLtAsymmetric(a: string, b: string)
    ensures !(StrLt(a, b) && StrLt(b, a))
  {
    if StrLt(a, b) && StrLt(b, a) {
      StrLtTransitive(a, b, a);
      StrLtIrreflexive(a);
    }
  }

  /** Comparing two concatenations whose first parts have the same length:
      the first parts decide unless they are equal. */
  lemma {:induction false} StrLtAppend(x1: string, y1: string, x2: string, y2: string)
    requires |x1| == |x2|
    ensures StrLt(x1 + y1, x2 + y2) <==> StrLt(x1, x2) || (x1 == x2 && StrLt(y1, y2))
    decreases |x1|
  {
    if |x1| == 0 {
      assert x1 + y1 == y1 && x2 + y2 == y2;
    } else {
      assert (x1 + y1)[1..] == x1[1..] + y1 && (x2 + y2)[1..] == x2[1..] + y2;
      StrLtAppend(x1[1..], y1, x2[1..], y2);
      if x1[0] == x2[0] && x1[1..] == x2[1..] {
        assert x1 == [x1[0]] + x1[1..] && x2 == [x2[0]] + x2[1..];
      }
    }
  }

  /** `StrLe` is a total order: what the sorts of the model rely on. */
  lemma StrLeTotalOrder(a: string, b: string, c: string)
    ensures StrLe(a, b) || StrLe(b, a)
    ensures StrLe(a, b) && StrLe(b, a) ==> a == b
    ensures StrLe(a, b) && StrLe(b, c) ==> StrLe(a, c)
  {
    StrLtTrichotomy(a, b);
    StrLtAsymmetric(a, b);
    if StrLt(a, b) && StrLt(b, c) {
      StrLtTransitive(a, b, c);
    }
  }

  /** A slice that holds no start of `pat` contains no occurrence of it. */
  lemma NoOccurrenceInSlice(s: string, pat: string, from: nat, to: nat)
    requires from <= to <= |s| && |pat| > 0
    requires forall q: nat :: from <= q < to ==> !StartsAt(s, pat, q)
    ensures !Contains(s[from..to], pat)
  {
    var b := s[from..to];
    forall q: nat
      ensures !StartsAt(b, pat, q)
    {
      if q + |pat| <= |b| {
        SliceOfSlice(s, from, to, q, |pat|);
        assert !StartsAt(s, pat, from + q);
      }
    }
  }

  lemma SliceOfSlice(s: string, from: nat, to: nat, q: nat, n: nat)
    requires from <= to <= |s| && q + n <= to - from
    ensures s[from..to][q..q + n] == s[from + q..from + q + n]
  {
    var a, b := s[from..to][q..q + n], s[from + q..from + q + n];
    forall k | 0 <= k < n
      ensures a[k] == b[k]
    {
    }
  }

  /** Text lacking one character of `pat` cannot contain `pat`. */
  lemma AbsentChar(s: string, pat: string, k: nat)
    requires k < |pat| && pat[k] !in s
    ensures !Contains(s, pat)
  {
    forall q: nat
      ensures !StartsAt(s, pat, q)
    {
      if q + |pat| <= |s| {
        assert s[q..q + |pat|][k] == s[q + k];
      }
    }
  }

  // ---------------------------------------------------------------------------
  // ASCII digits
  // ---------------------------------------------------------------------------

  predicate IsDigit(c: char) {
    '0' <= c <= '9'
  }

  predicate AllDigits(t: string) {
    forall i :: 0 <= i < |t| ==> IsDigit(t[i])
  }

  function DigitValue(c: char): nat
    requires IsDigit(c)
  {
    c as int - '0' as int
  }

  /** `int(t)` for a run of ASCII digits. */
  function DigitsValue(t: string): nat
    requires AllDigits(t)
  {
    if |t| == 0 then 0 else DigitsValue(t[..|t| - 1]) * 10 + DigitValue(t[|t| - 1])
  }
}
