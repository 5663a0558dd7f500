/**
 * Field extraction from the text of a case's detail page: the 16-character CNR number
 * and the four labelled fields, gathered into a record with exactly five keys.
 * Each regular expression is modelled with Python's search semantics: the leftmost
 * position wins, and at that position greedy quantifiers take as much as they can
 * while still letting the rest of the pattern match.
 */
module CaseDetails {
  import opened Wrappers
  import opened Text

  const CNR_KEY: string := "CNR Number"
  const CASE_TYPE_KEY: string := "Case Type"
  const COURT_KEY: string := "Court Number and Judge"
  const FILING_KEY: string := "Filing Number"
  const REGISTRATION_KEY: string := "Registration Number"

  /** The keys of the details record, in insertion order. */
  const DETAIL_KEYS: seq<string> := [CNR_KEY, CASE_TYPE_KEY, COURT_KEY, FILING_KEY, REGISTRATION_KEY]

  /** The keys other than the CNR number, each looked up as a key in the page text. */
  const LABEL_KEYS: seq<string> := [CASE_TYPE_KEY, COURT_KEY, FILING_KEY, REGISTRATION_KEY]

  const CNR_LENGTH: nat := 16

  /** The explanatory phrase the portal prints after the CNR number. */
  const CNR_NOTE: string := "(Note the CNR number"

  // ---------------------------------------------------------------------------
  // CNR number
  // ---------------------------------------------------------------------------

  /** `[A-Z0-9]` without case folding. */
  predicate IsUpperAlnum(c: char) { IsUpper(c) || IsDigit(c) }

  /**
   * `\b([A-Z0-9]{16})\s*\(Note the CNR number`, ignoring case, matches at `i` with the
   * `\s*` taking `gap` characters. Under case folding `[A-Z0-9]` accepts lower-case letters.
   */
  predicate NoteMatch(text: string, i: nat, gap: nat) {
    && i + CNR_LENGTH + gap <= |text|
    && WordBoundary(text, i)
    && AllInRange(text, i, i + CNR_LENGTH, IsAlnum)
    && AllInRange(text, i + CNR_LENGTH, i + CNR_LENGTH + gap, IsSpace)
    && LiteralAtCI(text, i + CNR_LENGTH + gap, CNR_NOTE)
  }

  /** The matcher's attempt at `i`: `\s*` is greedy and `(` is not whitespace, so one gap is tried. */
  predicate NoteMatchesAt(text: string, i: nat) {
    i + CNR_LENGTH <= |text| && NoteMatch(text, i, Run(text, i + CNR_LENGTH, IsSpace))
  }

  /** The positions where the note pattern's matcher succeeds, as a predicate to search with. */
  function NoteAt(text: string): nat -> bool {
    (i: nat) => NoteMatchesAt(text, i)
  }

  /** `\b[A-Z0-9]{16}\b`, case-sensitive, matches at `i`. */
  predicate StandaloneMatch(text: string, i: nat) {
    && i + CNR_LENGTH <= |text|
    && WordBoundary(text, i)
    && AllInRange(text, i, i + CNR_LENGTH, IsUpperAlnum)
    && WordBoundary(text, i + CNR_LENGTH)
  }

  /** The positions where the standalone pattern matches, as a predicate to search with. */
  function StandaloneAt(text: string): nat -> bool {
    (i: nat) => StandaloneMatch(text, i)
  }

  /**
   * The CNR number of a detail page: the token that precedes the explanatory note if
   * there is one, otherwise the first standalone 16-character token, otherwise nothing.
   */
  function FindCnr(text: string): (r: Option<string>)
    ensures r.Some? ==> |r.value| == CNR_LENGTH && AllIn(r.value, IsAlnum)
  {
    match FindFirst(NoteAt(text), 0, |text| + 1)
    case Some(i) => Some(CnrToken(text, i))
    case None =>
      match FindFirst(StandaloneAt(text), 0, |text| + 1)
      case Some(i) => Some(CnrToken(text, i))
      case None => None
  }

  /** The matched token after `.strip()`, which leaves a run of letters and digits as it is. */
  function CnrToken(text: string, i: nat): (r: string)
    requires i + CNR_LENGTH <= |text| && AllInRange(text, i, i + CNR_LENGTH, IsAlnum)
    ensures r == text[i..i + CNR_LENGTH]
  {
    var token := text[i..i + CNR_LENGTH];
    StripKeepsTrimmed(token);
    Strip(token)
  }

  /** Whatever the `\s*` takes in a match, it is the whole whitespace run, as the matcher tries. */
  lemma NoteGapIsForced(text: string, i: nat, gap: nat)
    requires NoteMatch(text, i, gap)
    ensures gap == Run(text, i + CNR_LENGTH, IsSpace)
  {
    var j := i + CNR_LENGTH;
    assert Lower(text[j + gap]) == Lower(CNR_NOTE[0]) == '(';
    assert !IsSpace(text[j + gap]);
    RunIsLongest(text, j, IsSpace, gap);
  }

  /** The matcher succeeds at `i` exactly when the pattern can match there. */
  lemma NoteMatchesAtIff(text: string, i: nat)
    ensures NoteMatchesAt(text, i) <==> exists gap: nat :: NoteMatch(text, i, gap)
  {
    if gap: nat :| NoteMatch(text, i, gap) {
      NoteGapIsForced(text, i, gap);
    }
  }

  /** When the note pattern matches, the CNR number is the token of its leftmost match. */
  lemma FindCnrTakesNote(text: string, i: nat, gap: nat)
    requires NoteMatch(text, i, gap)
    requires forall j: nat, g: nat :: j < i ==> !NoteMatch(text, j, g)
    ensures FindCnr(text) == Some(text[i..i + CNR_LENGTH])
  {
    NoteMatchesAtIff(text, i);
    assert NoteAt(text)(i);
  }

  /**
   * When the note pattern matches nowhere, the CNR number is the leftmost standalone
   * 16-character upper-case-or-digit token.
   */
  lemma FindCnrFallsBack(text: string, i: nat)
    requires forall j: nat, g: nat :: !NoteMatch(text, j, g)
    requires StandaloneMatch(text, i)
    requires forall j: nat :: j < i ==> !StandaloneMatch(text, j)
    ensures FindCnr(text) == Some(text[i..i + CNR_LENGTH])
  {
    var r := FindFirst(NoteAt(text), 0, |text| + 1);
    if r.Some? {
      assert NoteAt(text)(r.value);
      NoteMatchesAtIff(text, r.value);
      assert false;
    }
    assert StandaloneAt(text)(i);
  }

  /** The CNR number is absent exactly when neither pattern matches anywhere in the text. */
  lemma FindCnrAbsent(text: string)
    ensures FindCnr(text).None? <==>
              (forall j: nat, g: nat :: !NoteMatch(text, j, g)) && (forall j: nat :: !StandaloneMatch(text, j))
  {
    var r := FindFirst(NoteAt(text), 0, |text| + 1);
    var r2 := FindFirst(StandaloneAt(text), 0, |text| + 1);
    if r.Some? {
      assert NoteAt(text)(r.value);
      NoteMatchesAtIff(text, r.value);
    } else if r2.Some? {
      assert StandaloneAt(text)(r2.value);
    } else {
      forall j: nat, g: nat
        ensures !NoteMatch(text, j, g)
      {
        NoteMatchesAtIff(text, j);
        if j <= |text| {
          assert !NoteAt(text)(j);
        }
      }
      forall j: nat
        ensures !StandaloneMatch(text, j)
      {
        if j <= |text| {
          assert !StandaloneAt(text)(j);
        }
      }
    }
  }

  // ---------------------------------------------------------------------------
  // Labelled fields
  // ---------------------------------------------------------------------------

  /** `[A-Za-z0-9\/\.\-\s]`. */
  predicate IsValueChar(c: char) { IsAlnum(c) || c == '/' || c == '.' || c == '-' || IsSpace(c) }

  /**
   * `key[:\-\s]*([A-Za-z0-9\/\.\-\s]+)`, ignoring case, matches at `i` with `sep`
   * separator characters and a group of `len` characters.
   */
  predicate LabelMatch(text: string, key: string, i: nat, sep: nat, len: nat) {
    && LiteralAtCI(text, i, key)
    && 1 <= len
    && i + |key| + sep + len <= |text|
    && AllInRange(text, i + |key|, i + |key| + sep, IsSeparator)
    && AllInRange(text, i + |key| + sep, i + |key| + sep + len, IsValueChar)
  }

  /** The positions holding a character that can begin the group. */
  function ValueCharAt(text: string): nat -> bool {
    (k: nat) => k < |text| && IsValueChar(text[k])
  }

  /**
   * Where the matcher starts the group at `i`: the separators first take their whole
   * run, then give characters back until one can begin the group.
   */
  function GroupStartAt(text: string, key: string, i: nat): (r: Option<nat>)
    ensures r.Some? ==>
              && LiteralAtCI(text, i, key) && i + |key| <= r.value < |text| && IsValueChar(text[r.value])
              && AllInRange(text, i + |key|, r.value, IsSeparator)
  {
    if !LiteralAtCI(text, i, key) then None
    else
      var s := i + |key|;
      FindLast(ValueCharAt(text), s, s + Run(text, s, IsSeparator) + 1)
  }

  /** The positions where the label pattern's matcher succeeds. */
  function LabelAt(text: string, key: string): nat -> bool {
    (i: nat) => GroupStartAt(text, key, i).Some?
  }

  /**
   * The value of a labelled field: the group of the leftmost match, stripped. A value is
   * a piece of the text, made of value characters, with no whitespace at either end.
   */
  function FindLabelValue(text: string, key: string): (r: Option<string>)
    ensures r.Some? ==> && Contains(text, r.value) && AllIn(r.value, IsValueChar)
                        && (r.value == [] || (!IsSpace(r.value[0]) && !IsSpace(r.value[|r.value| - 1])))
  {
    match FindFirst(LabelAt(text, key), 0, |text| + 1)
    case None => None
    case Some(i) => Some(GroupValue(text, GroupStartAt(text, key, i).value))
  }

  /** The stripped group that starts at `v`: the longest run of value characters there. */
  function GroupValue(text: string, v: nat): (r: string)
    requires v <= |text|
    ensures Contains(text, r) && AllIn(r, IsValueChar)
  {
    var group := text[v..][..Run(text, v, IsValueChar)];
    GroupIsValueChars(text, v);
    StripKeepsClass(group, IsValueChar);
    ContainsTrans(text, group, Strip(group));
    Strip(group)
  }

  /** The group at `v` is a piece of the text made of value characters. */
  lemma GroupIsValueChars(text: string, v: nat)
    requires v <= |text|
    ensures var group := text[v..][..Run(text, v, IsValueChar)];
            AllIn(group, IsValueChar) && Contains(text, group)
  {
    var n := Run(text, v, IsValueChar);
    var group := text[v..][..n];
    forall k | 0 <= k < n
      ensures IsValueChar(group[k])
    {
      assert group[k] == text[v + k];
    }
    assert text[v..v + n] == group;
    assert LiteralAt(text, v, group);
  }

  /** The group start the matcher settles on gives a match of the pattern. */
  lemma GroupStartMatches(text: string, key: string, i: nat)
    requires GroupStartAt(text, key, i).Some?
    ensures var v := GroupStartAt(text, key, i).value;
            v >= i + |key| && LabelMatch(text, key, i, v - (i + |key|), Run(text, v, IsValueChar))
  {
    var s := i + |key|;
    var v := GroupStartAt(text, key, i).value;
    assert ValueCharAt(text)(v);
    assert AllInRange(text, s, v, IsSeparator);
  }

  /** Any match at `i` can begin its group only where the matcher may start it. */
  lemma MatchStartsGroup(text: string, key: string, i: nat, sep: nat, len: nat)
    requires LabelMatch(text, key, i, sep, len)
    ensures var s := i + |key|;
            s + sep <= s + Run(text, s, IsSeparator) && ValueCharAt(text)(s + sep)
  {
    var s := i + |key|;
    RunIsLongest(text, s, IsSeparator, sep);
    assert IsValueChar(text[s + sep]);
  }

  /** The matcher finds a match at `i` whenever the pattern can match there. */
  lemma GroupStartComplete(text: string, key: string, i: nat, sep: nat, len: nat)
    requires LabelMatch(text, key, i, sep, len)
    ensures GroupStartAt(text, key, i).Some?
  {
    MatchStartsGroup(text, key, i, sep, len);
  }

  /**
   * Among the matches at `i` the matcher's is preferred: no match has a longer
   * separator run, and none with the same run has a longer group.
   */
  lemma GroupStartPreferred(text: string, key: string, i: nat, sep: nat, len: nat)
    requires LabelMatch(text, key, i, sep, len)
    ensures GroupStartAt(text, key, i).Some?
    ensures var v := GroupStartAt(text, key, i).value;
            sep < v - (i + |key|) || (sep == v - (i + |key|) && len <= Run(text, v, IsValueChar))
  {
    MatchStartsGroup(text, key, i, sep, len);
    var v := GroupStartAt(text, key, i).value;
    if sep == v - (i + |key|) {
      RunIsLongest(text, v, IsValueChar, len);
    }
  }

  /**
   * A labelled field holds the stripped group of the match Python's `re.search` reports:
   * the leftmost position, then the longest separator run, then the longest group.
   */
  lemma FindLabelValueTakesLeftmost(text: string, key: string, i: nat, sep: nat, len: nat)
    requires LabelMatch(text, key, i, sep, len)
    requires forall j: nat, sep': nat, len': nat :: j < i ==> !LabelMatch(text, key, j, sep', len')
    requires forall sep': nat, len': nat :: sep' > sep ==> !LabelMatch(text, key, i, sep', len')
    requires forall len': nat :: len' > len ==> !LabelMatch(text, key, i, sep, len')
    ensures FindLabelValue(text, key) == Some(Strip(text[i + |key| + sep..][..len]))
  {
    PreferredGroup(text, key, i, sep, len);
    LeftmostGroupValue(text, key, i, i + |key| + sep, len);
  }

  /** With no match before `i`, the field holds the stripped group the matcher chooses at `i`. */
  lemma LeftmostGroupValue(text: string, key: string, i: nat, v: nat, len: nat)
    requires forall j: nat, sep': nat, len': nat :: j < i ==> !LabelMatch(text, key, j, sep', len')
    requires GroupStartAt(text, key, i) == Some(v) && v <= |text| && Run(text, v, IsValueChar) == len
    ensures FindLabelValue(text, key) == Some(Strip(text[v..][..len]))
  {
    assert FindFirst(LabelAt(text, key), 0, |text| + 1) == Some(i) by {
      NoEarlierLabel(text, key, i);
      FindFirstIs(LabelAt(text, key), 0, |text| + 1, i);
    }
    FindLabelValueAt(text, key, i, v);
  }

  /** The group the matcher chooses at `i` is the one with the longest separator run, then the longest value. */
  lemma PreferredGroup(text: string, key: string, i: nat, sep: nat, len: nat)
    requires LabelMatch(text, key, i, sep, len)
    requires forall sep': nat, len': nat :: sep' > sep ==> !LabelMatch(text, key, i, sep', len')
    requires forall len': nat :: len' > len ==> !LabelMatch(text, key, i, sep, len')
    ensures GroupStartAt(text, key, i) == Some(i + |key| + sep)
    ensures Run(text, i + |key| + sep, IsValueChar) == len
  {
    GroupStartComplete(text, key, i, sep, len);
    GroupStartPreferred(text, key, i, sep, len);
    GroupStartMatches(text, key, i);
  }

  /** The value found when the leftmost match is at `i` and its group starts at `v`. */
  lemma FindLabelValueAt(text: string, key: string, i: nat, v: nat)
    requires FindFirst(LabelAt(text, key), 0, |text| + 1) == Some(i)
    requires GroupStartAt(text, key, i) == Some(v) && v <= |text|
    ensures FindLabelValue(text, key) == Some(GroupValue(text, v))
  {
  }

  /** No position before a leftmost match lets the matcher succeed. */
  lemma NoEarlierLabel(text: string, key: string, i: nat)
    requires forall j: nat, sep': nat, len': nat :: j < i ==> !LabelMatch(text, key, j, sep', len')
    ensures LabelAt(text, key)(i) ==> i < |text| + 1
    ensures forall j: nat :: j < i ==> !LabelAt(text, key)(j)
  {
    forall j: nat | j < i
      ensures !LabelAt(text, key)(j)
    {
      if GroupStartAt(text, key, j).Some? {
        GroupStartMatches(text, key, j);
      }
    }
    if LabelAt(text, key)(i) {
      GroupStartMatches(text, key, i);
    }
  }

  /** A labelled field is absent exactly when the pattern matches nowhere in the text. */
  lemma FindLabelValueAbsent(text: string, key: string)
    ensures FindLabelValue(text, key).None? <==>
              forall i: nat, sep: nat, len: nat :: !LabelMatch(text, key, i, sep, len)
  {
    var r := FindFirst(LabelAt(text, key), 0, |text| + 1);
    if r.None? {
      forall i: nat, sep: nat, len: nat
        ensures !LabelMatch(text, key, i, sep, len)
      {
        if i <= |text| {
          assert !LabelAt(text, key)(i);
          if LabelMatch(text, key, i, sep, len) {
            GroupStartComplete(text, key, i, sep, len);
          }
        }
      }
    } else {
      assert LabelAt(text, key)(r.value);
      GroupStartMatches(text, key, r.value);
    }
  }

  // ---------------------------------------------------------------------------
  // The details record
  // ---------------------------------------------------------------------------

  /**
   * The details of a case page: a dictionary with exactly the five keys, the CNR number
   * from `FindCnr` and each other key from its own key search. The record is built as
   * the source builds it: every key starts at `None` and is then overwritten in turn.
   */
  method ExtractCaseDetails(text: string) returns (details: map<string, Option<string>>)
    ensures details.Keys == set k | k in DETAIL_KEYS
    ensures details[CNR_KEY] == FindCnr(text)
    ensures forall k :: k in LABEL_KEYS ==> details[k] == FindLabelValue(text, k)
  {
    details := map[CNR_KEY := None, CASE_TYPE_KEY := None, COURT_KEY := None,
                   FILING_KEY := None, REGISTRATION_KEY := None];
    details := details[CNR_KEY := FindCnr(text)];
    var n := 0;
    while n < |LABEL_KEYS|
      invariant n <= |LABEL_KEYS|
      invariant details.Keys == set k | k in DETAIL_KEYS
      invariant details[CNR_KEY] == FindCnr(text)
      invariant forall j: nat :: 0 <= j < n ==> details[LABEL_KEYS[j]] == FindLabelValue(text, LABEL_KEYS[j])
    {
      var key := LABEL_KEYS[n];
      details := details[key := FindLabelValue(text, key)];
      n := n + 1;
    }
  }
}
