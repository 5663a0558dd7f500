/**
 * Regular expressions that are a concatenation of character-class repeats, such as
 * `\d{1,2}[\/\-\.]\d{1,2}[\/\-\.]\d{2,4}`. When neighbouring classes share no
 * character, Python's backtracking matcher has only one way to succeed: every repeat
 * but the last takes the whole run of its class, and the last takes as much of its
 * run as its upper bound allows.
 */
module ClassPatterns {
  import opened Wrappers
  import opened Text

  /** `[cls]{min,max}`; `max` is `None` for an unbounded repeat such as `+`. */
  datatype Repeat = Repeat(cls: char -> bool, min: nat, max: Option<nat>)

  /** The repeats of a pattern, in order. */
  type Pattern = seq<Repeat>

  /** `n` repetitions are within the bounds of `r`. */
  predicate CountFits(r: Repeat, n: nat) {
    r.min <= n && (r.max.None? || n <= r.max.value)
  }

  function Sum(ns: seq<nat>): nat {
    if ns == [] then 0 else ns[0] + Sum(ns[1..])
  }

  /** `pat` matches `s` from `p` with its repeats taking `counts[0]`, `counts[1]`, ... characters. */
  ghost predicate MatchesWith(s: string, p: nat, pat: Pattern, counts: seq<nat>)
    decreases |pat|
  {
    && |counts| == |pat|
    && (pat != [] ==>
          && CountFits(pat[0], counts[0])
          && AllInRange(s, p, p + counts[0], pat[0].cls)
          && MatchesWith(s, p + counts[0], pat[1..], counts[1..]))
  }

  /** `t` as a whole is a match of `pat` (Python's `re.fullmatch`). */
  ghost predicate IsMatch(t: string, pat: Pattern) {
    exists counts :: MatchesWith(t, 0, pat, counts) && Sum(counts) == |t|
  }

  /** Every repeat takes at least one character, and neighbouring classes are disjoint. */
  ghost predicate Separated(pat: Pattern)
    decreases |pat|
  {
    pat == [] ||
      (&& pat[0].min >= 1
       && (|pat| >= 2 ==> (forall c :: pat[1].cls(c) ==> !pat[0].cls(c)) && Separated(pat[1..])))
  }

  /** The counts the matcher settles on at `p`, or `None` where `pat` does not match there. */
  function Greedy(s: string, p: nat, pat: Pattern): (r: Option<seq<nat>>)
    requires p <= |s|
    decreases |pat|
    ensures r.Some? ==> |r.value| == |pat| && p + Sum(r.value) <= |s|
  {
    if pat == [] then Some([])
    else
      var run := Run(s, p, pat[0].cls);
      if |pat| == 1 then
        var n := if pat[0].max.Some? && pat[0].max.value < run then pat[0].max.value else run;
        if n < pat[0].min then None else Some([n])
      else if !CountFits(pat[0], run) then None
      else match Greedy(s, p + run, pat[1..])
        case None => None
        case Some(rest) => Some([run] + rest)
  }

  /** The length of the match at `p`. */
  function MatchLen(s: string, p: nat, pat: Pattern): (r: Option<nat>)
    requires p <= |s|
    ensures r.Some? ==> p + r.value <= |s|
  {
    match Greedy(s, p, pat)
    case None => None
    case Some(counts) => Some(Sum(counts))
  }

  /** What the matcher settles on is a match. */
  lemma {:induction false} GreedySound(s: string, p: nat, pat: Pattern)
    requires p <= |s| && Greedy(s, p, pat).Some?
    ensures MatchesWith(s, p, pat, Greedy(s, p, pat).value)
    decreases |pat|
  {
    if pat != [] {
      var counts := Greedy(s, p, pat).value;
      RunAllIn(s, p, pat[0].cls, counts[0]);
      if |pat| > 1 {
        GreedySound(s, p + counts[0], pat[1..]);
        assert counts[1..] == Greedy(s, p + counts[0], pat[1..]).value;
      } else {
        assert counts[1..] == [];
      }
    }
  }

  /**
   * When neighbouring classes are disjoint, the matcher succeeds wherever the pattern
   * can match, and its match is the longest one there.
   */
  lemma {:induction false} GreedyLongest(s: string, p: nat, pat: Pattern, counts: seq<nat>)
    requires p <= |s| && Separated(pat) && MatchesWith(s, p, pat, counts)
    ensures Greedy(s, p, pat).Some? && Sum(Greedy(s, p, pat).value) >= Sum(counts)
    decreases |pat|
  {
    if pat != [] {
      assert AllInRange(s, p, p + counts[0], pat[0].cls);
      RunIsLongest(s, p, pat[0].cls, counts[0]);
      if |pat| == 1 {
        assert counts == [counts[0]];
      } else {
        var q := p + counts[0];
        HeadTakesWholeRun(s, p, pat, counts);
        GreedyLongest(s, q, pat[1..], counts[1..]);
        var rest := Greedy(s, q, pat[1..]).value;
        assert Greedy(s, p, pat) == Some([counts[0]] + rest);
        assert ([counts[0]] + rest)[1..] == rest;
      }
    }
  }

  /** In a match of a separated pattern, the first repeat takes the whole run of its class. */
  lemma HeadTakesWholeRun(s: string, p: nat, pat: Pattern, counts: seq<nat>)
    requires p <= |s| && |pat| >= 2 && Separated(pat) && MatchesWith(s, p, pat, counts)
    ensures Run(s, p, pat[0].cls) == counts[0]
  {
    var q := p + counts[0];
    assert MatchesWith(s, q, pat[1..], counts[1..]);
    assert pat[1..][0] == pat[1] && counts[1..][0] == counts[1];
    assert AllInRange(s, q, q + counts[1], pat[1].cls);
    assert pat[1].cls(s[q]);
    RunIs(s, p, pat[0].cls, counts[0]);
  }

  /** A match stays within the text. */
  lemma {:induction false} MatchesWithin(s: string, p: nat, pat: Pattern, counts: seq<nat>)
    requires p <= |s| && MatchesWith(s, p, pat, counts)
    ensures p + Sum(counts) <= |s|
    decreases |pat|
  {
    if pat != [] {
      MatchesWithin(s, p + counts[0], pat[1..], counts[1..]);
    }
  }

  /**
   * A match at `p + q` of `s` is a match at `q` of any slice `s[p..e]` that contains it,
   * and conversely.
   */
  lemma {:induction false} MatchesSlice(s: string, p: nat, e: nat, q: nat, pat: Pattern, counts: seq<nat>)
    requires p <= e <= |s| && |counts| == |pat| && p + q + Sum(counts) <= e
    ensures MatchesWith(s, p + q, pat, counts) <==> MatchesWith(s[p..e], q, pat, counts)
    decreases |pat|
  {
    if pat != [] {
      var n := counts[0];
      if AllInRange(s, p + q, p + q + n, pat[0].cls) {
        AllInRangeSlice(s, p, e, q, q + n, pat[0].cls);
      }
      if AllInRange(s[p..e], q, q + n, pat[0].cls) {
        AllInRangeUnslice(s, p, e, q, q + n, pat[0].cls);
      }
      MatchesSlice(s, p, e, q + n, pat[1..], counts[1..]);
    }
  }

  /** What the matcher reports at `p` is a whole match of `pat`. */
  lemma MatchLenSound(s: string, p: nat, pat: Pattern)
    requires p <= |s| && MatchLen(s, p, pat).Some?
    ensures IsMatch(s[p..p + MatchLen(s, p, pat).value], pat)
  {
    var counts := Greedy(s, p, pat).value;
    var n := Sum(counts);
    GreedySound(s, p, pat);
    MatchesSlice(s, p, p + n, 0, pat, counts);
  }

  /** Whenever a whole match of `pat` begins at `p`, the matcher finds one there, at least as long. */
  lemma MatchLenLongest(s: string, p: nat, n: nat, pat: Pattern)
    requires p + n <= |s| && Separated(pat) && IsMatch(s[p..p + n], pat)
    ensures MatchLen(s, p, pat).Some? && MatchLen(s, p, pat).value >= n
  {
    var counts :| MatchesWith(s[p..p + n], 0, pat, counts) && Sum(counts) == n;
    MatchesSlice(s, p, p + n, 0, pat, counts);
    GreedyLongest(s, p, pat, counts);
  }

  /** A whole match of a pattern whose first repeat takes at least one character starts with that class. */
  lemma MatchStartsWith(t: string, pat: Pattern)
    requires IsMatch(t, pat) && pat != [] && pat[0].min >= 1
    ensures |t| > 0 && pat[0].cls(t[0])
  {
    var counts :| MatchesWith(t, 0, pat, counts) && Sum(counts) == |t|;
    assert AllInRange(t, 0, counts[0], pat[0].cls);
  }

  // ---------------------------------------------------------------- alternation and search

  /** The alternation `alts[0]|alts[1]|...` at `p`: the length of the first alternative that matches. */
  function AltMatchLen(s: string, p: nat, alts: seq<Pattern>): (r: Option<nat>)
    requires p <= |s|
    decreases |alts|
    ensures r.Some? ==> p + r.value <= |s|
  {
    if alts == [] then None
    else if MatchLen(s, p, alts[0]).Some? then MatchLen(s, p, alts[0])
    else AltMatchLen(s, p, alts[1..])
  }

  /** `t` as a whole is a match of one of the alternatives. */
  ghost predicate IsAltMatch(t: string, alts: seq<Pattern>) {
    exists k :: 0 <= k < |alts| && IsMatch(t, alts[k])
  }

  /** A match of one of the alternatives, `n` characters long, begins at `q` in `s`. */
  ghost predicate AltMatchAt(s: string, q: nat, n: nat, alts: seq<Pattern>) {
    q + n <= |s| && IsAltMatch(s[q..q + n], alts)
  }

  /** A match of `pat`, `n` characters long, begins at `q` in `s`. */
  ghost predicate MatchAt(s: string, q: nat, n: nat, pat: Pattern) {
    q + n <= |s| && IsMatch(s[q..q + n], pat)
  }

  /**
   * Every alternative is separated, and where an alternative matches no earlier one
   * does, so the first alternative to succeed is the only one that can.
   */
  ghost predicate Unambiguous(alts: seq<Pattern>) {
    && (forall k :: 0 <= k < |alts| ==> Separated(alts[k]))
    && (forall s: string, q: nat, n: nat, i, j ::
          0 <= i < j < |alts| && MatchAt(s, q, n, alts[j]) ==> MatchLen(s, q, alts[i]).None?)
  }

  /** What the alternation reports at `p` is a whole match of one alternative. */
  lemma {:induction false} AltMatchLenSound(s: string, p: nat, alts: seq<Pattern>)
    requires p <= |s| && AltMatchLen(s, p, alts).Some?
    ensures IsAltMatch(s[p..p + AltMatchLen(s, p, alts).value], alts)
    decreases |alts|
  {
    if MatchLen(s, p, alts[0]).Some? {
      MatchLenSound(s, p, alts[0]);
    } else {
      AltMatchLenSound(s, p, alts[1..]);
      var t := s[p..p + AltMatchLen(s, p, alts).value];
      var k :| 0 <= k < |alts[1..]| && IsMatch(t, alts[1..][k]);
      assert alts[1..][k] == alts[k + 1];
    }
  }

  /**
   * For unambiguous alternatives, the alternation succeeds wherever one of them can
   * match, and its match is the longest one there.
   */
  lemma {:induction false} AltMatchLenLongest(s: string, p: nat, n: nat, alts: seq<Pattern>)
    requires p + n <= |s| && Unambiguous(alts) && IsAltMatch(s[p..p + n], alts)
    ensures AltMatchLen(s, p, alts).Some? && AltMatchLen(s, p, alts).value >= n
    decreases |alts|
  {
    var k :| 0 <= k < |alts| && IsMatch(s[p..p + n], alts[k]);
    if k == 0 {
      MatchLenLongest(s, p, n, alts[0]);
    } else {
      assert MatchAt(s, p, n, alts[k]);
      assert MatchLen(s, p, alts[0]).None?;
      assert alts[1..][k - 1] == alts[k];
      UnambiguousTail(alts);
      AltMatchLenLongest(s, p, n, alts[1..]);
    }
  }

  /** Dropping the first alternative keeps the alternation unambiguous. */
  lemma UnambiguousTail(alts: seq<Pattern>)
    requires Unambiguous(alts) && alts != []
    ensures Unambiguous(alts[1..])
  {
    var tail := alts[1..];
    forall s: string, q: nat, n: nat, i, j | 0 <= i < j < |tail| && MatchAt(s, q, n, tail[j])
      ensures MatchLen(s, q, tail[i]).None?
    {
      assert tail[j] == alts[j + 1] && tail[i] == alts[i + 1];
    }
  }

  /** The positions where the alternation matches. */
  function MatchStart(s: string, alts: seq<Pattern>): nat -> bool {
    (p: nat) => p <= |s| && AltMatchLen(s, p, alts).Some?
  }

  /** `re.search(...).group(0)`, which is also `re.findall(...)[0]`: the leftmost match. */
  function FirstMatch(s: string, alts: seq<Pattern>): Option<string> {
    match FindFirst(MatchStart(s, alts), 0, |s| + 1)
    case None => None
    case Some(p) => Some(s[p..p + AltMatchLen(s, p, alts).value])
  }

  /**
   * The text reported is a whole match of an alternative, no match begins further left,
   * and none beginning at the same place is longer.
   */
  lemma FirstMatchSound(s: string, alts: seq<Pattern>) returns (p: nat)
    requires Unambiguous(alts) && FirstMatch(s, alts).Some?
    ensures var t := FirstMatch(s, alts).value;
            p + |t| <= |s| && s[p..p + |t|] == t && IsAltMatch(t, alts)
    ensures forall q: nat, n: nat :: q < p ==> !AltMatchAt(s, q, n, alts)
    ensures forall n: nat :: |FirstMatch(s, alts).value| < n ==> !AltMatchAt(s, p, n, alts)
  {
    p := FirstMatchStart(s, alts);
    AltMatchLenSound(s, p, alts);
    NoMatchBefore(s, alts, p);
    NoLongerMatch(s, alts, p);
  }

  /** Where the reported match begins. */
  lemma FirstMatchStart(s: string, alts: seq<Pattern>) returns (p: nat)
    requires FirstMatch(s, alts).Some?
    ensures FindFirst(MatchStart(s, alts), 0, |s| + 1) == Some(p)
    ensures p <= |s| && AltMatchLen(s, p, alts).Some?
    ensures FirstMatch(s, alts) == Some(s[p..p + AltMatchLen(s, p, alts).value])
  {
    p := FindFirst(MatchStart(s, alts), 0, |s| + 1).value;
    assert MatchStart(s, alts)(p);
  }

  /** No match begins left of where the scan first succeeds. */
  lemma NoMatchBefore(s: string, alts: seq<Pattern>, p: nat)
    requires Unambiguous(alts) && FindFirst(MatchStart(s, alts), 0, |s| + 1) == Some(p)
    ensures forall q: nat, n: nat :: q < p ==> !AltMatchAt(s, q, n, alts)
  {
    forall q: nat, n: nat | q < p
      ensures !AltMatchAt(s, q, n, alts)
    {
      assert !MatchStart(s, alts)(q);
      if AltMatchAt(s, q, n, alts) {
        AltMatchLenLongest(s, q, n, alts);
      }
    }
  }

  /** No match beginning at `p` is longer than the one the alternation measures there. */
  lemma NoLongerMatch(s: string, alts: seq<Pattern>, p: nat)
    requires Unambiguous(alts) && p <= |s| && AltMatchLen(s, p, alts).Some?
    ensures forall n: nat :: AltMatchLen(s, p, alts).value < n ==> !AltMatchAt(s, p, n, alts)
  {
    forall n: nat | AltMatchLen(s, p, alts).value < n
      ensures !AltMatchAt(s, p, n, alts)
    {
      if AltMatchAt(s, p, n, alts) {
        AltMatchLenLongest(s, p, n, alts);
      }
    }
  }

  /** Conversely, the leftmost, longest match is the one reported. */
  lemma FirstMatchIs(s: string, alts: seq<Pattern>, p: nat, t: string)
    requires Unambiguous(alts)
    requires p + |t| <= |s| && s[p..p + |t|] == t && IsAltMatch(t, alts)
    requires forall q: nat, n: nat :: q < p ==> !AltMatchAt(s, q, n, alts)
    requires forall n: nat :: |t| < n ==> !AltMatchAt(s, p, n, alts)
    ensures FirstMatch(s, alts) == Some(t)
  {
    ScanStartsAt(s, alts, p, |t|);
    MatchLenIs(s, alts, p, |t|);
    FirstMatchFrom(s, alts, p, |t|);
  }

  /** The text reported is what the alternation measures where the scan first succeeds. */
  lemma FirstMatchFrom(s: string, alts: seq<Pattern>, p: nat, n: nat)
    requires FindFirst(MatchStart(s, alts), 0, |s| + 1) == Some(p)
    requires AltMatchLen(s, p, alts) == Some(n)
    ensures p + n <= |s| && FirstMatch(s, alts) == Some(s[p..p + n])
  {
  }

  /** The alternation measures the longest match beginning at `p`. */
  lemma MatchLenIs(s: string, alts: seq<Pattern>, p: nat, n: nat)
    requires Unambiguous(alts) && AltMatchAt(s, p, n, alts)
    requires forall n': nat :: n < n' ==> !AltMatchAt(s, p, n', alts)
    ensures AltMatchLen(s, p, alts) == Some(n)
  {
    AltMatchLenLongest(s, p, n, alts);
    AltMatchLenSound(s, p, alts);
    assert AltMatchAt(s, p, AltMatchLen(s, p, alts).value, alts);
  }

  /** The scan first succeeds where the leftmost match begins. */
  lemma ScanStartsAt(s: string, alts: seq<Pattern>, p: nat, n: nat)
    requires Unambiguous(alts) && AltMatchAt(s, p, n, alts)
    requires forall q: nat, n: nat :: q < p ==> !AltMatchAt(s, q, n, alts)
    ensures FindFirst(MatchStart(s, alts), 0, |s| + 1) == Some(p)
  {
    AltMatchLenLongest(s, p, n, alts);
    forall q: nat | q < p
      ensures !MatchStart(s, alts)(q)
    {
      if q <= |s| && AltMatchLen(s, q, alts).Some? {
        AltMatchLenSound(s, q, alts);
        assert AltMatchAt(s, q, AltMatchLen(s, q, alts).value, alts);
      }
    }
    FindFirstIs(MatchStart(s, alts), 0, |s| + 1, p);
  }

  /** Nothing is reported exactly when no alternative matches anywhere in the text. */
  lemma FirstMatchNone(s: string, alts: seq<Pattern>)
    requires Unambiguous(alts)
    ensures FirstMatch(s, alts).None? <==> forall q: nat, n: nat :: !AltMatchAt(s, q, n, alts)
  {
    if FirstMatch(s, alts).None? {
      forall q: nat, n: nat
        ensures !AltMatchAt(s, q, n, alts)
      {
        if AltMatchAt(s, q, n, alts) {
          assert !MatchStart(s, alts)(q);
          AltMatchLenLongest(s, q, n, alts);
        }
      }
    } else {
      var p := FirstMatchSound(s, alts);
      assert AltMatchAt(s, p, |FirstMatch(s, alts).value|, alts);
    }
  }

  /** The text reported occurs in the text searched, and is a whole match of an alternative. */
  lemma FirstMatchOccurs(s: string, alts: seq<Pattern>)
    requires FirstMatch(s, alts).Some?
    ensures Contains(s, FirstMatch(s, alts).value) && IsAltMatch(FirstMatch(s, alts).value, alts)
  {
    var p := FirstMatchStart(s, alts);
    var t := FirstMatch(s, alts).value;
    AltMatchLenSound(s, p, alts);
    assert t == s[p..p + |t|];
    assert LiteralAt(s, p, t);
  }

  /**
   * Where a pattern matches and its second repeat must take a character, the run of the
   * first class is followed by a character of the second.
   */
  lemma MatchNeedsSecondClass(s: string, p: nat, pat: Pattern)
    requires p <= |s| && |pat| >= 2 && pat[1].min >= 1 && MatchLen(s, p, pat).Some?
    ensures p + Run(s, p, pat[0].cls) < |s| && pat[1].cls(s[p + Run(s, p, pat[0].cls)])
  {
    var counts := Greedy(s, p, pat).value;
    GreedySound(s, p, pat);
    assert MatchesWith(s, p + counts[0], pat[1..], counts[1..]);
    assert counts[1..][0] == counts[1] && pat[1..][0] == pat[1];
  }
}
