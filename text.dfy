/**
 The few operations of Python's `str` that the scanner script relies on:
 `strip()` (with the `isspace` test it applies inside), the `in` operator,
 the last field of `split`, and the zero-padded decimal numbers that
 `strftime` prints.
 */
module Text {

  // ---------------------------------------------------------------------
  // Whitespace and strip()
  // ---------------------------------------------------------------------

  /** `str.isspace` on one character, restricted to the ASCII range:
      space, \t, \n, \v, \f, \r and the separators \x1c..\x1f. */
  predicate IsSpace(c: char) {
    c == ' ' || c == '\t' || c == '\n' || c == '\r'
    || c == '\U{000B}' || c == '\U{000C}'
    || ('\U{001C}' <= c <= '\U{001F}')
  }

  /** Every character of `s` from `lo` up to `hi` is whitespace. */
  ghost predicate SpaceBetween(s: string, lo: int, hi: int)
    requires 0 <= lo && hi <= |s|
  {
    forall j | lo <= j < hi :: IsSpace(s[j])
  }

  /** `s.lstrip()`: the suffix of `s` left after dropping leading whitespace. */
  function TrimStart(s: string): (r: string)
    ensures |r| <= |s| && r == s[|s| - |r|..]
    ensures SpaceBetween(s, 0, |s| - |r|)
    ensures r != [] ==> !IsSpace(r[0])
    decreases |s|
  {
    if s != [] && IsSpace(s[0]) then TrimStart(s[1..]) else s
  }

  /** `s.rstrip()`: the prefix of `s` left after dropping trailing whitespace. */
  function TrimEnd(s: string): (r: string)
    ensures |r| <= |s| && r == s[..|r|]
    ensures SpaceBetween(s, |r|, |s|)
    ensures r != [] ==> !IsSpace(r[|r| - 1])
    decreases |s|
  {
    if s != [] && IsSpace(s[|s| - 1]) then
      var r := TrimEnd(s[..|s| - 1]);
      assert r == s[..|r|];
      r
    else s
  }

  /** Where the leading whitespace ends, `lstrip` begins. */
  lemma TrimStartAt(s: string, i: int)
    requires 0 <= i <= |s| && SpaceBetween(s, 0, i)
    requires i < |s| ==> !IsSpace(s[i])
    ensures TrimStart(s) == s[i..]
  {
    var r := TrimStart(s);
    var k := |s| - |r|;
    assert k < |s| ==> r[0] == s[k];
  }

  /** Where the trailing whitespace begins, `rstrip` ends. */
  lemma TrimEndAt(s: string, n: int)
    requires 0 <= n <= |s| && SpaceBetween(s, n, |s|)
    requires 0 < n ==> !IsSpace(s[n - 1])
    ensures TrimEnd(s) == s[..n]
  {
    var r := TrimEnd(s);
    assert 0 < |r| ==> r[|r| - 1] == s[|r| - 1];
  }

  /** `r` is what is left of `s` at offset `i` once the whitespace on both
      sides is removed: only whitespace before and after, none at its ends. */
  ghost predicate StrippedAt(s: string, r: string, i: int) {
    && 0 <= i && i + |r| <= |s|
    && s[i..i + |r|] == r
    && SpaceBetween(s, 0, i) && SpaceBetween(s, i + |r|, |s|)
    && (r != [] ==> !IsSpace(r[0]) && !IsSpace(r[|r| - 1]))
  }

  ghost predicate IsStripOf(r: string, s: string) {
    exists i :: StrippedAt(s, r, i)
  }

  /** `s.strip()` with no argument. */
  function Strip(s: string): (r: string)
    ensures IsStripOf(r, s)
  {
    var t := TrimStart(s);
    var r := TrimEnd(t);
    var i := |s| - |t|;
    assert s[i..i + |r|] == r;
    assert StrippedAt(s, r, i);
    r
  }

  /** The stripped text is determined by `StrippedAt`: any offset and text
      meeting it are the ones `Strip` produces. */
  lemma StripUnique(s: string, t: string, i: int)
    requires StrippedAt(s, t, i)
    ensures Strip(s) == t
  {
    if t == [] {
      TrimStartAt(s, |s|);
    } else {
      assert s[i] == t[0];
      TrimStartAt(s, i);
      var u := s[i..];
      assert u[..|t|] == t;
      TrimEndAt(u, |t|);
    }
  }

  /** Stripping twice is stripping once. */
  lemma StripIdempotent(s: string)
    ensures Strip(Strip(s)) == Strip(s)
  {
    var r := Strip(s);
    assert r[0..|r|] == r;
    assert StrippedAt(r, r, 0);
    StripUnique(r, r, 0);
  }

  // ---------------------------------------------------------------------
  // Substring search: `pat in s`, `s.split(sep)[-1]`
  // ---------------------------------------------------------------------

  predicate OccursAt(s: string, pat: string, i: int) {
    0 <= i && i + |pat| <= |s| && s[i..i + |pat|] == pat
  }

  /** The characters of an occurrence are those of the pattern. */
  lemma CharOfOccurrence(s: string, pat: string, p: int, j: int)
    requires OccursAt(s, pat, p) && 0 <= j < |pat|
    ensures s[p + j] == pat[j]
  {
    assert s[p..p + |pat|][j] == s[p + j];
  }

  /** Python's `pat in s`, the test at main.py:19: some position holds an
      occurrence. A pattern longer than the text never occurs, and the
      empty pattern occurs in every string. */
  predicate Contains(s: string, pat: string)
    ensures Contains(s, pat) ==> |pat| <= |s|
    ensures pat == [] ==> Contains(s, pat)
  {
    assert pat == [] ==> OccursAt(s, pat, 0);
    exists i | 0 <= i <= |s| - |pat| :: OccursAt(s, pat, i)
  }

  /** An occurrence inside a slice is an occurrence in the whole string. */
  lemma OccursInSlice(s: string, pat: string, a: int, b: int, k: int)
    requires 0 <= a <= b <= |s| && OccursAt(s[a..b], pat, k)
    ensures OccursAt(s, pat, a + k)
  {
    forall j | 0 <= j < |pat|
      ensures s[a + k + j] == pat[j]
    {
      assert s[a..b][k..k + |pat|][j] == s[a + k + j];
    }
  }

  /** A slice of a string without `pat` does not contain `pat` either. */
  lemma SliceAvoids(s: string, pat: string, a: int, b: int)
    requires 0 <= a <= b <= |s| && !Contains(s, pat)
    ensures !Contains(s[a..b], pat)
  {
    if k :| 0 <= k <= |s[a..b]| - |pat| && OccursAt(s[a..b], pat, k) {
      OccursInSlice(s, pat, a, b, k);
    }
  }

  /** An occurrence at or after `a` is an occurrence in the suffix `s[a..]`. */
  lemma OccursInSuffix(s: string, pat: string, a: int, k: int)
    requires 0 <= a <= k && OccursAt(s, pat, k)
    ensures OccursAt(s[a..], pat, k - a)
  {
    assert s[a..][k - a..k - a + |pat|] == s[k..k + |pat|];
  }

  /** Stripping whitespace cannot create an occurrence of `pat`. */
  lemma StripAvoids(s: string, pat: string)
    requires !Contains(s, pat)
    ensures !Contains(Strip(s), pat)
  {
    var r := Strip(s);
    var i :| StrippedAt(s, r, i);
    SliceAvoids(s, pat, i, i + |r|);
  }

  /** `p` is where the last field of `s.split(sep)` begins: 0 when no `sep`
      occurs, and otherwise a position that a `sep` ends at, with no `sep`
      starting at or after it. For a separator that can overlap itself more
      than one position qualifies (for "aa" in "aaa", 2 or 3); for
      "image:", which cannot, `MarkersBeforeLastCut` fixes the position. */
  ghost predicate IsLastCut(s: string, sep: string, p: int) {
    && 0 <= p <= |s|
    && (p == 0 || (|sep| <= p && OccursAt(s, sep, p - |sep|)))
    && forall k | p <= k :: !OccursAt(s, sep, k)
  }

  /** Where the last field of `s.split(sep)` begins. Python's split scans
      from the left and cuts at each occurrence it meets; the body does the
      same, so of the positions `IsLastCut` allows it picks Python's (2 for
      "aa" in "aaa"). */
  function LastCut(s: string, sep: string): (p: nat)
    requires sep != []
    ensures IsLastCut(s, sep, p)
    decreases |s|
  {
    if |s| < |sep| then
      0
    else if s[..|sep|] == sep then
      var q := LastCut(s[|sep|..], sep);
      CutAfterCut(s, sep, |sep|, q);
      |sep| + q
    else
      var q := LastCut(s[1..], sep);
      if q == 0 then
        SkipToEnd(s, sep);
        0
      else
        SkipToCut(s, sep, q);
        q + 1
  }

  /** The step of `LastCut` at an occurrence: a cut found in `s[d..]`, after
      a `sep` ending at `d`, is a cut in `s`. */
  lemma CutAfterCut(s: string, sep: string, d: nat, q: nat)
    requires |sep| <= d <= |s| && OccursAt(s, sep, d - |sep|)
    requires IsLastCut(s[d..], sep, q)
    ensures IsLastCut(s, sep, d + q)
  {
    if q != 0 {
      assert s[d..|s|] == s[d..];
      OccursInSlice(s, sep, d, |s|, q - |sep|);
    }
    forall k | d + q <= k
      ensures !OccursAt(s, sep, k)
    {
      if OccursAt(s, sep, k) {
        OccursInSuffix(s, sep, d, k);
      }
    }
  }

  /** The other steps of `LastCut`, when `s` does not start with `sep`: if
      `s[1..]` has no cut, neither has `s`. */
  lemma SkipToEnd(s: string, sep: string)
    requires sep != [] && |sep| <= |s| && s[..|sep|] != sep
    requires IsLastCut(s[1..], sep, 0)
    ensures IsLastCut(s, sep, 0)
  {
    forall k | 0 <= k
      ensures !OccursAt(s, sep, k)
    {
      if OccursAt(s, sep, k) && k != 0 {
        OccursInSuffix(s, sep, 1, k);
      }
    }
  }

  /** Otherwise the cut of `s` is that of `s[1..]`, one position further on. */
  lemma SkipToCut(s: string, sep: string, q: nat)
    requires |s| > 0 && q != 0
    requires IsLastCut(s[1..], sep, q)
    ensures IsLastCut(s, sep, q + 1)
  {
    assert s[1..|s|] == s[1..];
    OccursInSlice(s, sep, 1, |s|, q - |sep|);
    forall k | q + 1 <= k
      ensures !OccursAt(s, sep, k)
    {
      if OccursAt(s, sep, k) {
        OccursInSuffix(s, sep, 1, k);
      }
    }
  }

  /** A cut is 0 exactly when the separator does not occur, and the text
      after it holds no separator. */
  lemma CutFacts(s: string, sep: string, p: int)
    requires IsLastCut(s, sep, p)
    ensures p == 0 <==> !Contains(s, sep)
    ensures !Contains(s[p..], sep)
  {
    if p != 0 {
      assert OccursAt(s, sep, p - |sep|);
    }
    if i :| 0 <= i <= |s[p..]| - |sep| && OccursAt(s[p..], sep, i) {
      assert s[p..|s|] == s[p..];
      OccursInSlice(s, sep, p, |s|, i);
    }
  }

  /** Python's `s.split(sep)[-1]`. */
  function LastField(s: string, sep: string): (r: string)
    requires sep != []
    ensures !Contains(r, sep)
  {
    var p := LastCut(s, sep);
    CutFacts(s, sep, p);
    s[p..]
  }

  // ---------------------------------------------------------------------
  // Decimal digits, as strftime prints them
  // ---------------------------------------------------------------------

  predicate IsDigit(c: char) {
    '0' as int <= c as int <= '9' as int
  }

  function Pow10(n: nat): (p: nat)
    ensures p >= 1
  {
    if n == 0 then 1 else 10 * Pow10(n - 1)
  }

  /** The number a string of decimal digits denotes. */
  function DigitsValue(s: string): nat
    requires forall k | 0 <= k < |s| :: IsDigit(s[k])
  {
    if s == [] then 0
    else 10 * DigitsValue(s[..|s| - 1]) + DigitValue(s[|s| - 1])
  }

  function DigitValue(c: char): nat
    requires IsDigit(c)
  {
    c as int - '0' as int
  }

  /** `n` written in exactly `width` decimal digits, with leading zeros. */
  function ZeroPadded(n: nat, width: nat): (r: string)
    requires n < Pow10(width)
    ensures |r| == width
    ensures forall k | 0 <= k < |r| :: IsDigit(r[k])
    ensures DigitsValue(r) == n
  {
    if width == 0 then ""
    else
      var front := ZeroPadded(n / 10, width - 1);
      var r := front + [('0' as int + n % 10) as char];
      assert r[..|r| - 1] == front;
      r
  }

}
