/**
 * The next-hearing date of one listing row (app.py, `extract_cases_from_soup`): a
 * next-date label, then the first date-shaped token after it; failing that, the first
 * numeric date anywhere in the row, provided the row mentions "Next". Dates are day
 * numbers and the date parser (`parse_date_nullable`) is a parameter, so the model
 * holds for any parser.
 */
module HearingDates {
  import opened Wrappers
  import opened Text
  import opened ClassPatterns

  /** A calendar date as a day number, so that the following day is `d + 1`. */
  type Date = int

  /**
   * The alternatives of `Next\s+Hearing\s+Date|Next\s+Date|Next\s+Hearing|NextDate`,
   * in the order the alternation tries them, as words joined by `\s+`.
   */
  const DATE_LABELS: seq<seq<string>> :=
    [["Next", "Hearing", "Date"], ["Next", "Date"], ["Next", "Hearing"], ["NextDate"]]

  /** The case-sensitive word the fallback requires the row to contain. */
  const NEXT: string := "Next"

  // ---------------------------------------------------------------- the label

  /** Where `words[0]\s+words[1]...`, ignoring case, ends when it matches at `i`. */
  function WordsEnd(s: string, i: nat, words: seq<string>): (r: Option<nat>)
    requires i <= |s|
    decreases |words|
    ensures r.Some? ==> words != [] && LiteralAtCI(s, i, words[0]) && i + |words[0]| <= r.value <= |s|
  {
    if words == [] || !LiteralAtCI(s, i, words[0]) then None
    else if |words| == 1 then Some(i + |words[0]|)
    else
      var p := i + |words[0]|;
      var g := Run(s, p, IsSpace);
      if g == 0 then None else WordsEnd(s, p + g, words[1..])
  }

  /** Where the first alternative of `alts` that matches at `i` ends. */
  function AltEnd(s: string, i: nat, alts: seq<seq<string>>): (r: Option<nat>)
    requires i <= |s|
    ensures r.Some? ==> i <= r.value <= |s|
    ensures r.Some? ==> exists k :: 0 <= k < |alts| && WordsEnd(s, i, alts[k]) == r
    ensures r.None? ==> forall k :: 0 <= k < |alts| ==> WordsEnd(s, i, alts[k]).None?
  {
    if alts == [] then None
    else match WordsEnd(s, i, alts[0])
      case Some(e) => Some(e)
      case None => AltEnd(s, i, alts[1..])
  }

  /** The alternation reports the end of the first alternative whose matcher succeeds. */
  lemma {:induction false} AltEndFirstWords(s: string, i: nat, alts: seq<seq<string>>) returns (k: nat)
    requires i <= |s| && AltEnd(s, i, alts).Some?
    decreases |alts|
    ensures k < |alts| && WordsEnd(s, i, alts[k]) == AltEnd(s, i, alts)
    ensures forall j :: 0 <= j < k ==> WordsEnd(s, i, alts[j]).None?
  {
    if WordsEnd(s, i, alts[0]).Some? {
      k := 0;
    } else {
      var k' := AltEndFirstWords(s, i, alts[1..]);
      k := k' + 1;
      assert alts[1..][k'] == alts[k];
      forall j | 0 <= j < k
        ensures WordsEnd(s, i, alts[j]).None?
      {
        if j > 0 {
          assert alts[j] == alts[1..][j - 1];
        }
      }
    }
  }

  /** The positions where one of the alternatives `alts` matches. */
  function AltAt(s: string, alts: seq<seq<string>>): nat -> bool {
    (i: nat) => i <= |s| && AltEnd(s, i, alts).Some?
  }

  /**
   * `m.end()` of a search for the alternation `alts` followed by `[:\-\s]*`: the leftmost
   * match of the alternation, then the whole run of `[:\-\s]` after it.
   */
  function AltSearchEnd(s: string, alts: seq<seq<string>>): (r: Option<nat>)
    ensures r.Some? ==> r.value <= |s| && (r.value == |s| || !IsSeparator(s[r.value]))
  {
    match FindFirst(AltAt(s, alts), 0, |s| + 1)
    case None => None
    case Some(i) =>
      var e := AltEnd(s, i, alts).value;
      Some(e + Run(s, e, IsSeparator))
  }

  /** `m.end()` of the label search. */
  function LabelEnd(s: string): (r: Option<nat>)
    ensures r.Some? ==> r.value <= |s| && (r.value == |s| || !IsSeparator(s[r.value]))
  {
    AltSearchEnd(s, DATE_LABELS)
  }

  /** Every alternative of `alts` begins with the word `w`. */
  predicate AllBeginWith(alts: seq<seq<string>>, w: string) {
    forall k :: 0 <= k < |alts| ==> alts[k] != [] && |w| <= |alts[k][0]| && alts[k][0][..|w|] == w
  }

  /** Every label alternative begins with "Next". */
  lemma LabelsBeginWithNext()
    ensures AllBeginWith(DATE_LABELS, NEXT)
  {
    assert DATE_LABELS[3][0][..4] == NEXT;
  }

  /** Where one of the alternatives matches, their common first word occurs, ignoring case. */
  lemma AltEndBeginsWith(s: string, i: nat, alts: seq<seq<string>>, w: string)
    requires i <= |s| && AllBeginWith(alts, w) && AltEnd(s, i, alts).Some?
    ensures LiteralAtCI(s, i, w)
  {
    var k :| 0 <= k < |alts| && WordsEnd(s, i, alts[k]) == AltEnd(s, i, alts);
    var first := alts[k][0];
    assert LiteralAtCI(s, i, first);
    forall j | 0 <= j < |w|
      ensures Lower(s[i + j]) == Lower(w[j])
    {
      assert w[j] == first[..|w|][j] == first[j];
    }
  }

  /** Every label alternative begins with "Next", ignoring case. */
  lemma LabelBeginsWithNext(s: string, i: nat)
    requires i <= |s| && AltEnd(s, i, DATE_LABELS).Some?
    ensures LiteralAtCI(s, i, NEXT)
  {
    LabelsBeginWithNext();
    AltEndBeginsWith(s, i, DATE_LABELS, NEXT);
  }

  /** A label found by the search is a "Next" somewhere in the row, ignoring case. */
  lemma LabelEndNeedsNext(s: string)
    requires LabelEnd(s).Some?
    ensures ContainsCI(s, NEXT)
  {
    var i := FindFirst(AltAt(s, DATE_LABELS), 0, |s| + 1).value;
    assert AltAt(s, DATE_LABELS)(i);
    LabelBeginsWithNext(s, i);
  }

  // ---------------------------------------------------------------- the label as a pattern

  /**
   * `words[0]\s+words[1]...` matches `s[i..e]`, ignoring case, the `j`-th `\s+` taking
   * `gaps[j]` whitespace characters.
   */
  predicate WordsMatchWith(s: string, i: nat, words: seq<string>, gaps: seq<nat>, e: nat)
    decreases |words|
  {
    && words != [] && |gaps| == |words| - 1
    && LiteralAtCI(s, i, words[0])
    && if |words| == 1 then e == i + |words[0]|
       else
         var p := i + |words[0]|;
         && 0 < gaps[0] && AllInRange(s, p, p + gaps[0], IsSpace)
         && WordsMatchWith(s, p + gaps[0], words[1..], gaps[1..], e)
  }

  /** Some whitespace makes the alternative `words` match `s[i..e]`. */
  ghost predicate WordsMatch(s: string, i: nat, words: seq<string>, e: nat) {
    exists gaps :: WordsMatchWith(s, i, words, gaps, e)
  }

  /** Every word after the first begins with a capital letter, which no `\s` folds to. */
  predicate Spaced(words: seq<string>) {
    forall j :: 1 <= j < |words| ==> words[j] != [] && IsUpper(words[j][0])
  }

  /** Every alternative of `alts` is spaced. */
  predicate AllSpaced(alts: seq<seq<string>>) {
    forall k :: 0 <= k < |alts| ==> Spaced(alts[k])
  }

  /** The label alternatives are all spaced. */
  lemma DateLabelsSpaced()
    ensures AllSpaced(DATE_LABELS)
  {
  }

  /** Alternative `k` is the first of `alts` that matches at `i`, and it matches `s[i..e]`. */
  ghost predicate FirstAltMatch(s: string, i: nat, alts: seq<seq<string>>, k: nat, e: nat) {
    && k < |alts| && WordsMatch(s, i, alts[k], e)
    && forall j: nat, e': nat :: j < k ==> !WordsMatch(s, i, alts[j], e')
  }

  /** A character that matches a capital letter, ignoring case, is not whitespace. */
  lemma CapitalNotSpace(c: char, u: char)
    requires IsUpper(u) && Lower(c) == Lower(u)
    ensures !IsSpace(c)
  {
  }

  /** Every word after the first of a spaced alternative's tail still begins with a capital. */
  lemma SpacedTail(words: seq<string>)
    requires words != [] && Spaced(words)
    ensures Spaced(words[1..])
  {
    forall j | 1 <= j < |words[1..]|
      ensures words[1..][j] != [] && IsUpper(words[1..][j][0])
    {
      assert words[1..][j] == words[j + 1];
    }
  }

  /** One step of the matcher of a several-word alternative. */
  lemma WordsEndStep(s: string, i: nat, words: seq<string>)
    requires i <= |s| && |words| > 1 && LiteralAtCI(s, i, words[0])
    requires Run(s, i + |words[0]|, IsSpace) > 0
    ensures WordsEnd(s, i, words) == WordsEnd(s, i + |words[0]| + Run(s, i + |words[0]|, IsSpace), words[1..])
  {
  }

  /** A several-word alternative's matcher succeeds only through its first word and a run of whitespace. */
  lemma WordsEndUnstep(s: string, i: nat, words: seq<string>, e: nat)
    requires i <= |s| && |words| > 1 && WordsEnd(s, i, words) == Some(e)
    ensures LiteralAtCI(s, i, words[0]) && 0 < Run(s, i + |words[0]|, IsSpace)
    ensures WordsEnd(s, i + |words[0]| + Run(s, i + |words[0]|, IsSpace), words[1..]) == Some(e)
  {
    WordsEndStep(s, i, words);
  }

  /** The first word and the longest whitespace run after it extend a match of the remaining words. */
  lemma WordsMatchCons(s: string, i: nat, words: seq<string>, rest: seq<nat>, e: nat)
    requires |words| > 1 && LiteralAtCI(s, i, words[0]) && 0 < Run(s, i + |words[0]|, IsSpace)
    requires WordsMatchWith(s, i + |words[0]| + Run(s, i + |words[0]|, IsSpace), words[1..], rest, e)
    ensures WordsMatchWith(s, i, words, [Run(s, i + |words[0]|, IsSpace)] + rest, e)
  {
    var p := i + |words[0]|;
    var gaps := [Run(s, p, IsSpace)] + rest;
    RunAllIn(s, p, IsSpace, gaps[0]);
    assert gaps[1..] == rest;
  }

  /**
   * In a match of a spaced alternative, the gap after the first word is the whole
   * whitespace run there, since the next word begins with a capital.
   */
  lemma WordsMatchUncons(s: string, i: nat, words: seq<string>, gaps: seq<nat>, e: nat)
    requires |words| > 1 && Spaced(words) && WordsMatchWith(s, i, words, gaps, e)
    ensures i <= |s| && LiteralAtCI(s, i, words[0]) && Spaced(words[1..])
    ensures 0 < gaps[0] == Run(s, i + |words[0]|, IsSpace)
    ensures WordsMatchWith(s, i + |words[0]| + gaps[0], words[1..], gaps[1..], e)
  {
    var p := i + |words[0]|;
    var q := p + gaps[0];
    assert WordsMatchWith(s, q, words[1..], gaps[1..], e);
    assert LiteralAtCI(s, q, words[1..][0]);
    assert words[1..][0] == words[1];
    assert Lower(s[q + 0]) == Lower(words[1][0]);
    CapitalNotSpace(s[q], words[1][0]);
    RunIs(s, p, IsSpace, gaps[0]);
    SpacedTail(words);
  }

  /** Where the matcher of one alternative succeeds, the alternative matches up to the end it reports. */
  lemma {:induction false} WordsEndMatches(s: string, i: nat, words: seq<string>, e: nat) returns (gaps: seq<nat>)
    requires i <= |s| && WordsEnd(s, i, words) == Some(e)
    decreases |words|
    ensures WordsMatchWith(s, i, words, gaps, e)
  {
    if |words| == 1 {
      gaps := [];
    } else {
      WordsEndUnstep(s, i, words, e);
      var rest := WordsEndMatches(s, i + |words[0]| + Run(s, i + |words[0]|, IsSpace), words[1..], e);
      WordsMatchCons(s, i, words, rest, e);
      gaps := [Run(s, i + |words[0]|, IsSpace)] + rest;
    }
  }

  /** Where a spaced alternative matches, its matcher succeeds with the same end. */
  lemma {:induction false} MatchedWordsEnd(s: string, i: nat, words: seq<string>, gaps: seq<nat>, e: nat)
    requires Spaced(words) && WordsMatchWith(s, i, words, gaps, e)
    decreases |words|
    ensures i <= |s| && WordsEnd(s, i, words) == Some(e)
  {
    if |words| > 1 {
      WordsMatchUncons(s, i, words, gaps, e);
      MatchedWordsEnd(s, i + |words[0]| + gaps[0], words[1..], gaps[1..], e);
      WordsEndStep(s, i, words);
    }
  }


  /** The matcher of one alternative finds exactly the ends at which the alternative matches. */
  lemma WordsEndIff(s: string, i: nat, words: seq<string>, e: nat)
    requires i <= |s| && Spaced(words)
    ensures WordsEnd(s, i, words) == Some(e) <==> WordsMatch(s, i, words, e)
  {
    if WordsEnd(s, i, words) == Some(e) {
      var gaps := WordsEndMatches(s, i, words, e);
    }
    if WordsMatch(s, i, words, e) {
      var gaps :| WordsMatchWith(s, i, words, gaps, e);
      MatchedWordsEnd(s, i, words, gaps, e);
    }
  }

  /** Where the ordered alternation succeeds, the first alternative that matches ends where it reports. */
  lemma AltEndFirst(s: string, i: nat, alts: seq<seq<string>>) returns (k: nat)
    requires i <= |s| && AllSpaced(alts) && AltEnd(s, i, alts).Some?
    ensures FirstAltMatch(s, i, alts, k, AltEnd(s, i, alts).value)
  {
    var r := AltEnd(s, i, alts).value;
    k := AltEndFirstWords(s, i, alts);
    WordsEndIff(s, i, alts[k], r);
    forall j: nat, e': nat | j < k
      ensures !WordsMatch(s, i, alts[j], e')
    {
      WordsEndIff(s, i, alts[j], e');
    }
  }

  /** The ordered alternation reports the end of the first alternative that matches. */
  lemma AltEndOfFirst(s: string, i: nat, alts: seq<seq<string>>, k: nat, e: nat)
    requires i <= |s| && AllSpaced(alts) && FirstAltMatch(s, i, alts, k, e)
    ensures AltEnd(s, i, alts) == Some(e)
  {
    WordsEndIff(s, i, alts[k], e);
    assert AltEnd(s, i, alts).Some?;
    var r := AltEnd(s, i, alts).value;
    var k0 := AltEndFirst(s, i, alts);
    assert k0 == k;
    WordsEndIff(s, i, alts[k], r);
  }

  /** The ordered alternation fails exactly when no alternative matches. */
  lemma AltEndAbsent(s: string, i: nat, alts: seq<seq<string>>)
    requires i <= |s| && AllSpaced(alts)
    ensures AltEnd(s, i, alts).None? <==> forall k: nat, e: nat :: k < |alts| ==> !WordsMatch(s, i, alts[k], e)
  {
    if AltEnd(s, i, alts).None? {
      forall k: nat, e: nat | k < |alts|
        ensures !WordsMatch(s, i, alts[k], e)
      {
        WordsEndIff(s, i, alts[k], e);
      }
    } else {
      var k := AltEndFirst(s, i, alts);
    }
  }

  /** No alternative of `alts` matches at any position before `i`. */
  ghost predicate NoAltBefore(s: string, alts: seq<seq<string>>, i: nat) {
    forall j: nat, k: nat, e: nat :: j < i && k < |alts| ==> !WordsMatch(s, j, alts[k], e)
  }

  /** `[:\-\s]*` after a match ending at `e` takes `s[e..r]`: every separator there is, and no more. */
  predicate SeparatorsTo(s: string, e: nat, r: nat) {
    e <= r && AllInRange(s, e, r, IsSeparator) && (r == |s| || !IsSeparator(s[r]))
  }

  /** The search succeeds at a position exactly when some alternative matches there. */
  lemma AltAtIff(s: string, alts: seq<seq<string>>, i: nat)
    requires i <= |s| && AllSpaced(alts)
    ensures AltAt(s, alts)(i) <==> exists k: nat, e: nat :: k < |alts| && WordsMatch(s, i, alts[k], e)
  {
    AltEndAbsent(s, i, alts);
  }

  /** With no match before `i`, the search passes over every position before `i`. */
  lemma NoAltAtBefore(s: string, alts: seq<seq<string>>, i: nat)
    requires i <= |s| && AllSpaced(alts) && NoAltBefore(s, alts, i)
    ensures forall j :: 0 <= j < i ==> !AltAt(s, alts)(j)
  {
    forall j: nat | j < i
      ensures !AltAt(s, alts)(j)
    {
      AltAtIff(s, alts, j);
    }
  }

  /** The greedy `[:\-\s]*` takes exactly the separators `SeparatorsTo` describes. */
  lemma SeparatorRun(s: string, e: nat, r: nat)
    requires SeparatorsTo(s, e, r)
    ensures e <= |s| && e + Run(s, e, IsSeparator) == r
  {
    RunIs(s, e, IsSeparator, r - e);
  }

  /** The search ends where the alternation ends at the first position it succeeds, plus the separators. */
  lemma AltSearchEndAt(s: string, alts: seq<seq<string>>, i: nat, e: nat)
    requires i <= |s| && FindFirst(AltAt(s, alts), 0, |s| + 1) == Some(i)
    requires AltEnd(s, i, alts) == Some(e) && e <= |s|
    ensures AltSearchEnd(s, alts) == Some(e + Run(s, e, IsSeparator))
  {
  }

  /** The first alternative that matches at `i` is where the alternation ends. */
  lemma FirstAltMatchAt(s: string, alts: seq<seq<string>>, i: nat, k: nat, e: nat)
    requires AllSpaced(alts) && FirstAltMatch(s, i, alts, k, e)
    ensures i <= e <= |s| && AltEnd(s, i, alts) == Some(e)
  {
    assert i <= |s| by {
      var gaps :| WordsMatchWith(s, i, alts[k], gaps, e);
    }
    AltEndOfFirst(s, i, alts, k, e);
  }

  /** With no match before `i` and one at `i`, the search stops at `i`. */
  lemma LeftmostAltAt(s: string, alts: seq<seq<string>>, i: nat)
    requires i <= |s| && AllSpaced(alts) && AltEnd(s, i, alts).Some? && NoAltBefore(s, alts, i)
    ensures FindFirst(AltAt(s, alts), 0, |s| + 1) == Some(i)
  {
    NoAltAtBefore(s, alts, i);
    FindFirstIs(AltAt(s, alts), 0, |s| + 1, i);
  }

  /**
   * `m.end()` for the leftmost match: the search ends after the first alternative that
   * matches at the leftmost position where any does, and after the separators following it.
   */
  lemma AltSearchLeftmost(s: string, alts: seq<seq<string>>, i: nat, k: nat, e: nat, r: nat)
    requires AllSpaced(alts) && FirstAltMatch(s, i, alts, k, e) && NoAltBefore(s, alts, i) && SeparatorsTo(s, e, r)
    ensures AltSearchEnd(s, alts) == Some(r)
  {
    FirstAltMatchAt(s, alts, i, k, e);
    LeftmostAltAt(s, alts, i);
    SeparatorRun(s, e, r);
    AltSearchEndAt(s, alts, i, e);
  }

  /** Conversely, a search that succeeds ended after the leftmost match and its separators. */
  lemma AltSearchFindsLeftmost(s: string, alts: seq<seq<string>>) returns (i: nat, k: nat, e: nat)
    requires AllSpaced(alts) && AltSearchEnd(s, alts).Some?
    ensures FirstAltMatch(s, i, alts, k, e) && NoAltBefore(s, alts, i) && SeparatorsTo(s, e, AltSearchEnd(s, alts).value)
  {
    i := FindFirst(AltAt(s, alts), 0, |s| + 1).value;
    e := AltEnd(s, i, alts).value;
    k := AltEndFirst(s, i, alts);
    forall j: nat, k': nat, e': nat | j < i && k' < |alts|
      ensures !WordsMatch(s, j, alts[k'], e')
    {
      if WordsMatch(s, j, alts[k'], e') {
        var gaps :| WordsMatchWith(s, j, alts[k'], gaps, e');
        AltAtIff(s, alts, j);
      }
    }
    RunAllIn(s, e, IsSeparator, Run(s, e, IsSeparator));
  }

  /** The search fails exactly when no alternative matches anywhere. */
  lemma AltSearchAbsent(s: string, alts: seq<seq<string>>)
    requires AllSpaced(alts)
    ensures AltSearchEnd(s, alts).None? <==>
              forall i: nat, k: nat, e: nat :: k < |alts| ==> !WordsMatch(s, i, alts[k], e)
  {
    if AltSearchEnd(s, alts).None? {
      forall i: nat, k: nat, e: nat | k < |alts|
        ensures !WordsMatch(s, i, alts[k], e)
      {
        if WordsMatch(s, i, alts[k], e) {
          var gaps :| WordsMatchWith(s, i, alts[k], gaps, e);
          AltAtIff(s, alts, i);
        }
      }
    } else {
      var i, k, e := AltSearchFindsLeftmost(s, alts);
    }
  }

  /**
   * `m.end()` for the leftmost label: the label search ends after the first alternative
   * that matches at the leftmost position where any label does, and after the separators
   * following it.
   */
  lemma LabelEndIsLeftmost(s: string, i: nat, k: nat, e: nat, r: nat)
    requires FirstAltMatch(s, i, DATE_LABELS, k, e) && NoAltBefore(s, DATE_LABELS, i) && SeparatorsTo(s, e, r)
    ensures LabelEnd(s) == Some(r)
  {
    DateLabelsSpaced();
    AltSearchLeftmost(s, DATE_LABELS, i, k, e, r);
  }

  /** Conversely, a label search that succeeds ended after the leftmost label and its separators. */
  lemma LabelEndFindsLeftmost(s: string) returns (i: nat, k: nat, e: nat)
    requires LabelEnd(s).Some?
    ensures FirstAltMatch(s, i, DATE_LABELS, k, e) && NoAltBefore(s, DATE_LABELS, i)
    ensures SeparatorsTo(s, e, LabelEnd(s).value)
  {
    DateLabelsSpaced();
    i, k, e := AltSearchFindsLeftmost(s, DATE_LABELS);
  }

  /** The label search fails exactly when no label alternative matches anywhere in the row. */
  lemma LabelEndAbsent(s: string)
    ensures LabelEnd(s).None? <==>
              forall i: nat, k: nat, e: nat :: k < |DATE_LABELS| ==> !WordsMatch(s, i, DATE_LABELS[k], e)
  {
    DateLabelsSpaced();
    AltSearchAbsent(s, DATE_LABELS);
  }

  // ---------------------------------------------------------------- the date tokens

  /** `[\/\-\.]`. */
  predicate IsDateSep(c: char) { c == '/' || c == '-' || c == '.' }

  /** `\d{1,2}[\/\-\.]\d{1,2}[\/\-\.]\d{2,4}`. */
  const NUMERIC_DATE: Pattern :=
    [Repeat(IsDigit, 1, Some(2)), Repeat(IsDateSep, 1, Some(1)), Repeat(IsDigit, 1, Some(2)),
     Repeat(IsDateSep, 1, Some(1)), Repeat(IsDigit, 2, Some(4))]

  /** `\d{1,2}\s+\w+\s+\d{4}`. */
  const WORD_DATE: Pattern :=
    [Repeat(IsDigit, 1, Some(2)), Repeat(IsSpace, 1, None), Repeat(IsWordChar, 1, None),
     Repeat(IsSpace, 1, None), Repeat(IsDigit, 4, Some(4))]

  /** `\d{1,2}[\/\-\.]\d{1,2}[\/\-\.]\d{2,4}|\d{1,2}\s+\w+\s+\d{4}`, the date pattern after a label. */
  const DATE_TOKEN: seq<Pattern> := [NUMERIC_DATE, WORD_DATE]

  /** `\d{1,2}[\/\-\.]\d{1,2}[\/\-\.]\d{2,4}`, the date pattern of the fallback. */
  const NUMERIC_TOKEN: seq<Pattern> := [NUMERIC_DATE]

  /** In both date patterns every repeat takes a character and neighbouring classes are disjoint. */
  lemma DatePatternsSeparated()
    ensures Separated(NUMERIC_DATE) && Separated(WORD_DATE)
  {
    assert Separated(NUMERIC_DATE[4..]);
    assert NUMERIC_DATE[3..][1..] == NUMERIC_DATE[4..];
    assert Separated(NUMERIC_DATE[3..]);
    assert NUMERIC_DATE[2..][1..] == NUMERIC_DATE[3..];
    assert Separated(NUMERIC_DATE[2..]);
    assert NUMERIC_DATE[1..][1..] == NUMERIC_DATE[2..];
    assert Separated(NUMERIC_DATE[1..]);
    assert Separated(WORD_DATE[4..]);
    assert WORD_DATE[3..][1..] == WORD_DATE[4..];
    assert Separated(WORD_DATE[3..]);
    assert WORD_DATE[2..][1..] == WORD_DATE[3..];
    assert Separated(WORD_DATE[2..]);
    assert WORD_DATE[1..][1..] == WORD_DATE[2..];
    assert Separated(WORD_DATE[1..]);
  }

  /** Where a day, word, year date begins, the numeric alternative does not match. */
  lemma WordDateNotNumeric(s: string, p: nat, n: nat)
    requires MatchAt(s, p, n, WORD_DATE)
    ensures MatchLen(s, p, NUMERIC_DATE).None?
  {
    var counts :| MatchesWith(s[p..p + n], 0, WORD_DATE, counts) && Sum(counts) == n;
    MatchesSlice(s, p, p + n, 0, WORD_DATE, counts);
    var a := counts[0];
    assert MatchesWith(s, p + a, WORD_DATE[1..], counts[1..]);
    assert IsSpace(s[p + a]);
    RunIs(s, p, IsDigit, a);
    if MatchLen(s, p, NUMERIC_DATE).Some? {
      MatchNeedsSecondClass(s, p, NUMERIC_DATE);
      assert false;
    }
  }

  /** Both date patterns can be matched by trying their alternatives in order. */
  lemma DateTokensUnambiguous()
    ensures Unambiguous(DATE_TOKEN) && Unambiguous(NUMERIC_TOKEN)
  {
    DatePatternsSeparated();
    forall s: string, q: nat, n: nat, i, j | 0 <= i < j < |DATE_TOKEN| && MatchAt(s, q, n, DATE_TOKEN[j])
      ensures MatchLen(s, q, DATE_TOKEN[i]).None?
    {
      WordDateNotNumeric(s, q, n);
    }
  }

  // ---------------------------------------------------------------- the hearing date

  /** The date read after the label, if there is a label and a token after it that parses. */
  function LabelledDate(row: string, parse: string -> Option<Date>): Option<Date> {
    match LabelEnd(row)
    case None => None
    case Some(e) =>
      match FirstMatch(Strip(row[e..]), DATE_TOKEN)
      case None => None
      case Some(t) => parse(t)
  }

  /**
   * `next_hearing_date` of a row: the labelled date, or else the first numeric date of
   * the row when the row contains "Next" (case-sensitively).
   */
  function HearingDate(row: string, parse: string -> Option<Date>): Option<Date> {
    var labelled := LabelledDate(row, parse);
    if labelled.Some? then labelled
    else match FirstMatch(row, NUMERIC_TOKEN)
      case Some(t) => if Contains(row, NEXT) then parse(t) else None
      case None => None
  }

  /**
   * After a label, the date is the parse of the leftmost date token of the stripped rest
   * of the row, read as far as the alternation reads it.
   */
  lemma LabelledDateIsFirstToken(row: string, parse: string -> Option<Date>, e: nat, p: nat, t: string)
    requires LabelEnd(row) == Some(e)
    requires var after := Strip(row[e..]);
             p + |t| <= |after| && after[p..p + |t|] == t && IsAltMatch(t, DATE_TOKEN)
             && (forall q: nat, n: nat :: q < p ==> !AltMatchAt(after, q, n, DATE_TOKEN))
             && (forall n: nat :: |t| < n ==> !AltMatchAt(after, p, n, DATE_TOKEN))
    ensures LabelledDate(row, parse) == parse(t)
  {
    DateTokensUnambiguous();
    FirstMatchIs(Strip(row[e..]), DATE_TOKEN, p, t);
  }

  /**
   * When the label yields nothing and the row contains "Next", the date is the parse of
   * the leftmost numeric date of the whole row.
   */
  lemma FallbackDateIsFirstToken(row: string, parse: string -> Option<Date>, p: nat, t: string)
    requires LabelledDate(row, parse).None? && Contains(row, NEXT)
    requires p + |t| <= |row| && row[p..p + |t|] == t && IsAltMatch(t, NUMERIC_TOKEN)
    requires forall q: nat, n: nat :: q < p ==> !AltMatchAt(row, q, n, NUMERIC_TOKEN)
    requires forall n: nat :: |t| < n ==> !AltMatchAt(row, p, n, NUMERIC_TOKEN)
    ensures HearingDate(row, parse) == parse(t)
  {
    DateTokensUnambiguous();
    FirstMatchIs(row, NUMERIC_TOKEN, p, t);
  }

  /** The text after a label is part of the row. */
  lemma AfterLabelInRow(row: string, e: nat)
    requires e <= |row|
    ensures Contains(row, Strip(row[e..]))
  {
    var rest := row[e..];
    assert LiteralAt(row, e, rest);
    StripRemovesOnlyEndSpaces(rest);
    var a: nat :| a + |Strip(rest)| <= |rest| && rest[a..a + |Strip(rest)|] == Strip(rest);
    assert LiteralAt(rest, a, Strip(rest));
    ContainsTrans(row, rest, Strip(rest));
  }

  /** A hearing date is always the parse of a date token occurring in the row. */
  lemma HearingDateFromToken(row: string, parse: string -> Option<Date>) returns (t: string)
    requires HearingDate(row, parse).Some?
    ensures parse(t) == HearingDate(row, parse)
    ensures Contains(row, t) && IsAltMatch(t, DATE_TOKEN)
  {
    if LabelledDate(row, parse).Some? {
      t := LabelledDateFromToken(row, parse);
    } else {
      t := FirstMatch(row, NUMERIC_TOKEN).value;
      FirstMatchOccurs(row, NUMERIC_TOKEN);
      assert IsMatch(t, NUMERIC_TOKEN[0]);
      assert IsMatch(t, DATE_TOKEN[0]);
    }
  }

  /** A labelled date is the parse of a date token of the row. */
  lemma LabelledDateFromToken(row: string, parse: string -> Option<Date>) returns (t: string)
    requires LabelledDate(row, parse).Some?
    ensures parse(t) == LabelledDate(row, parse)
    ensures Contains(row, t) && IsAltMatch(t, DATE_TOKEN)
  {
    var e := LabelEnd(row).value;
    var after := Strip(row[e..]);
    t := FirstMatch(after, DATE_TOKEN).value;
    FirstMatchOccurs(after, DATE_TOKEN);
    AfterLabelInRow(row, e);
    ContainsTrans(row, after, t);
  }

  /** Every date token begins with a digit. */
  lemma DateTokenStartsWithDigit(t: string)
    requires IsAltMatch(t, DATE_TOKEN)
    ensures |t| > 0 && IsDigit(t[0])
  {
    var k :| 0 <= k < |DATE_TOKEN| && IsMatch(t, DATE_TOKEN[k]);
    MatchStartsWith(t, DATE_TOKEN[k]);
  }

  /** A row gets a hearing date only when it mentions "Next", in any case. */
  lemma HearingDateNeedsNext(row: string, parse: string -> Option<Date>)
    requires HearingDate(row, parse).Some?
    ensures ContainsCI(row, NEXT)
  {
    if LabelledDate(row, parse).Some? {
      LabelEndNeedsNext(row);
    } else {
      var i: nat :| i <= |row| && LiteralAt(row, i, NEXT);
      assert LiteralAtCI(row, i, NEXT);
    }
  }

  /** A row without a digit gets no hearing date, whatever the parser. */
  lemma HearingDateNeedsDigit(row: string, parse: string -> Option<Date>)
    requires HearingDate(row, parse).Some?
    ensures exists k :: 0 <= k < |row| && IsDigit(row[k])
  {
    var t := HearingDateFromToken(row, parse);
    var i: nat :| i <= |row| && LiteralAt(row, i, t);
    DateTokenStartsWithDigit(t);
    assert row[i] == t[0];
  }

  /**
   * When the label yields no date (no label, no token after it, or a token that does not
   * parse), a row that lacks "Next" with that exact case gets no date.
   */
  lemma HearingDateFallbackNeedsNext(row: string, parse: string -> Option<Date>)
    requires LabelledDate(row, parse).None? && !Contains(row, NEXT)
    ensures HearingDate(row, parse).None?
  {
  }
}
