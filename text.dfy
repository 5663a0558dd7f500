/**
 * Character classes and scanning primitives shared by the regular expressions of the
 * scraper. Characters follow Python's `str` semantics restricted to ASCII letters and
 * digits; whitespace is the full set that `str.isspace()` (and so `\s`) accepts.
 */
module Text {
  import opened Wrappers

  /** `str.isspace()`, which is also the set `\s` matches in a `str` pattern. */
  predicate IsSpace(c: char) {
    var n := c as int;
    (9 <= n <= 13) || (28 <= n <= 32) || n == 0x85 || n == 0xA0 || n == 0x1680
    || (0x2000 <= n <= 0x200A) || n == 0x2028 || n == 0x2029 || n == 0x202F
    || n == 0x205F || n == 0x3000
  }

  predicate IsDigit(c: char) { '0' <= c <= '9' }

  predicate IsUpper(c: char) { 'A' <= c <= 'Z' }

  predicate IsLower(c: char) { 'a' <= c <= 'z' }

  predicate IsAlnum(c: char) { IsDigit(c) || IsUpper(c) || IsLower(c) }

  /** `\w`: letters, digits and the underscore. */
  predicate IsWordChar(c: char) { IsAlnum(c) || c == '_' }

  /** `[:\-\s]`, the separators both label patterns allow after a label. */
  predicate IsSeparator(c: char) { c == ':' || c == '-' || IsSpace(c) }

  /** ASCII lower-casing, the folding `re.IGNORECASE` applies to ASCII letters. */
  function Lower(c: char): (r: char)
    ensures IsUpper(c) ==> IsLower(r)
    ensures !IsUpper(c) ==> r == c
  {
    if IsUpper(c) then (c as int + 32) as char else c
  }

  /** Every character of `s` is in the class `cls`. */
  predicate AllIn(s: string, cls: char -> bool) {
    forall k :: 0 <= k < |s| ==> cls(s[k])
  }

  /** Every character of `s` at a position in `[lo, hi)` is in the class `cls`. */
  predicate AllInRange(s: string, lo: nat, hi: nat, cls: char -> bool) {
    hi <= |s| && forall k :: lo <= k < hi ==> cls(s[k])
  }

  /** A class holding over a range of `s` holds over the same range of a slice of `s`, shifted. */
  lemma AllInRangeSlice(s: string, p: nat, q: nat, lo: nat, hi: nat, cls: char -> bool)
    requires p <= q <= |s| && hi <= q - p
    requires AllInRange(s, p + lo, p + hi, cls)
    ensures AllInRange(s[p..q], lo, hi, cls)
  {
    forall k | lo <= k < hi
      ensures cls(s[p..q][k])
    {
      assert s[p..q][k] == s[p + k];
    }
  }

  /** A class holding over a range of a slice of `s` holds over the matching range of `s`. */
  lemma AllInRangeUnslice(s: string, p: nat, q: nat, lo: nat, hi: nat, cls: char -> bool)
    requires p <= q <= |s|
    requires AllInRange(s[p..q], lo, hi, cls)
    ensures AllInRange(s, p + lo, p + hi, cls)
  {
    forall k | p + lo <= k < p + hi
      ensures cls(s[k])
    {
      assert s[p..q][k - p] == s[k];
    }
  }

  /** `lit` occurs in `text` at position `i`, exactly. */
  predicate LiteralAt(text: string, i: nat, lit: string) {
    i + |lit| <= |text| && text[i..i + |lit|] == lit
  }

  /** `lit` occurs in `text` at position `i`, ignoring the case of ASCII letters. */
  predicate LiteralAtCI(text: string, i: nat, lit: string) {
    i + |lit| <= |text| && forall k :: 0 <= k < |lit| ==> Lower(text[i + k]) == Lower(lit[k])
  }

  /** Python's `sub in s`. */
  predicate Contains(s: string, sub: string) {
    exists i: nat :: i <= |s| && LiteralAt(s, i, sub)
  }

  /** `sub` occurs somewhere in `s`, ignoring the case of ASCII letters. */
  predicate ContainsCI(s: string, sub: string) {
    exists i: nat :: i <= |s| && LiteralAtCI(s, i, sub)
  }

  /** Occurrence is transitive: a substring of a substring of `s` is a substring of `s`. */
  lemma ContainsTrans(s: string, m: string, t: string)
    requires Contains(s, m) && Contains(m, t)
    ensures Contains(s, t)
  {
    var i: nat :| i <= |s| && LiteralAt(s, i, m);
    var j: nat :| j <= |m| && LiteralAt(m, j, t);
    forall k | 0 <= k < |t|
      ensures s[i + j + k] == t[k]
    {
      assert t[k] == m[j + k] == s[i..i + |m|][j + k];
    }
    assert s[i + j..i + j + |t|] == t;
    assert LiteralAt(s, i + j, t);
  }

  /** `\b` at position `p`: a word character on exactly one side of `p`. */
  predicate WordBoundary(text: string, p: nat) {
    p <= |text| && ((p > 0 && IsWordChar(text[p - 1])) != (p < |text| && IsWordChar(text[p])))
  }

  /** The length of the longest run of `cls` characters starting at `i` (a greedy `[cls]*`). */
  function Run(s: string, i: nat, cls: char -> bool): (n: nat)
    requires i <= |s|
    decreases |s| - i
    ensures i + n <= |s|
    ensures forall k :: i <= k < i + n ==> cls(s[k])
    ensures i + n == |s| || !cls(s[i + n])
  {
    if i == |s| || !cls(s[i]) then 0 else 1 + Run(s, i + 1, cls)
  }

  /** The run of `cls` characters starting at `i` is the longest one: no longer prefix is all `cls`. */
  lemma RunIsLongest(s: string, i: nat, cls: char -> bool, m: nat)
    requires i + m <= |s|
    requires forall k :: i <= k < i + m ==> cls(s[k])
    ensures m <= Run(s, i, cls)
  {
  }

  /** Every prefix of a run is in the class. */
  lemma RunAllIn(s: string, i: nat, cls: char -> bool, m: nat)
    requires i <= |s| && m <= Run(s, i, cls)
    ensures AllInRange(s, i, i + m, cls)
  {
  }

  /** A run that stops exactly after `m` characters has length `m`. */
  lemma RunIs(s: string, i: nat, cls: char -> bool, m: nat)
    requires i + m <= |s|
    requires forall k :: i <= k < i + m ==> cls(s[k])
    requires i + m == |s| || !cls(s[i + m])
    ensures Run(s, i, cls) == m
  {
    RunIsLongest(s, i, cls, m);
  }

  /** The smallest `k` in `[lo, hi)` with `p(k)`, as `re.search` scans positions left to right. */
  function FindFirst(p: nat -> bool, lo: nat, hi: nat): (r: Option<nat>)
    decreases hi - lo
    ensures r.Some? ==> lo <= r.value < hi && p(r.value)
    ensures r.Some? ==> forall k :: lo <= k < r.value ==> !p(k)
    ensures r.None? ==> forall k :: lo <= k < hi ==> !p(k)
  {
    if lo >= hi then None
    else if p(lo) then Some(lo)
    else FindFirst(p, lo + 1, hi)
  }

  /** `FindFirst` reports the first position where `p` holds. */
  lemma FindFirstIs(p: nat -> bool, lo: nat, hi: nat, i: nat)
    requires lo <= i < hi && p(i)
    requires forall k :: lo <= k < i ==> !p(k)
    ensures FindFirst(p, lo, hi) == Some(i)
  {
  }

  /** The largest `k` in `[lo, hi)` with `p(k)`, as a greedy quantifier gives back characters. */
  function FindLast(p: nat -> bool, lo: nat, hi: nat): (r: Option<nat>)
    decreases hi
    ensures r.Some? ==> lo <= r.value < hi && p(r.value)
    ensures r.Some? ==> forall k :: r.value < k < hi ==> !p(k)
    ensures r.None? ==> forall k :: lo <= k < hi ==> !p(k)
  {
    if hi <= lo then None
    else if p(hi - 1) then Some(hi - 1)
    else FindLast(p, lo, hi - 1)
  }

  /** Python's `str.strip()`: drop the whitespace at both ends. */
  function Strip(s: string): (r: string)
    ensures |r| <= |s|
    ensures r == [] || (!IsSpace(r[0]) && !IsSpace(r[|r| - 1]))
  {
    var a := Run(s, 0, IsSpace);
    if a == |s| then [] else s[a..|s| - TrailingSpaces(s)]
  }

  /**
   * What `Strip` removes is whitespace, from the two ends only: the result is the
   * substring of `s` that lies between a whitespace prefix and a whitespace suffix.
   */
  lemma StripRemovesOnlyEndSpaces(s: string)
    ensures exists a: nat :: a + |Strip(s)| <= |s| && s[a..a + |Strip(s)|] == Strip(s)
                             && AllInRange(s, 0, a, IsSpace) && AllInRange(s, a + |Strip(s)|, |s|, IsSpace)
  {
    var a := Run(s, 0, IsSpace);
    if a == |s| {
      assert s[a..a] == Strip(s);
      assert AllInRange(s, 0, a, IsSpace) && AllInRange(s, a, |s|, IsSpace);
    } else {
      assert !IsSpace(s[a]);
      var b := |s| - TrailingSpaces(s);
      assert a < b;
      assert s[a..b] == Strip(s);
      assert AllInRange(s, 0, a, IsSpace) && AllInRange(s, b, |s|, IsSpace);
    }
  }

  /** Stripping keeps a piece of `s`, so it keeps any class every character of `s` is in. */
  lemma StripKeepsClass(s: string, cls: char -> bool)
    requires AllIn(s, cls)
    ensures AllIn(Strip(s), cls) && Contains(s, Strip(s))
  {
    StripRemovesOnlyEndSpaces(s);
    var a: nat :| a + |Strip(s)| <= |s| && s[a..a + |Strip(s)|] == Strip(s)
                  && AllInRange(s, 0, a, IsSpace) && AllInRange(s, a + |Strip(s)|, |s|, IsSpace);
    assert LiteralAt(s, a, Strip(s));
    forall k | 0 <= k < |Strip(s)|
      ensures cls(Strip(s)[k])
    {
      assert Strip(s)[k] == s[a + k];
    }
  }

  /** The number of whitespace characters at the end of `s`. */
  function TrailingSpaces(s: string): (n: nat)
    ensures n <= |s|
    ensures forall k :: |s| - n <= k < |s| ==> IsSpace(s[k])
    ensures n < |s| ==> !IsSpace(s[|s| - n - 1])
  {
    if s == [] || !IsSpace(s[|s| - 1]) then 0 else 1 + TrailingSpaces(s[..|s| - 1])
  }

  /** Stripping leaves text that has no whitespace at either end unchanged. */
  lemma StripKeepsTrimmed(s: string)
    requires s != [] ==> !IsSpace(s[0]) && !IsSpace(s[|s| - 1])
    ensures Strip(s) == s
  {
    if s != [] {
      assert Run(s, 0, IsSpace) == 0;
      assert TrailingSpaces(s) == 0;
    }
  }
}
