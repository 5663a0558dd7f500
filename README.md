# eCourts cause-list scraper: a verified model of its core

`app.py` is a Streamlit application that drives a browser through the eCourts
cause-list search. It reads every page of the listing and keeps the cases whose next
hearing is today or tomorrow. For each such case it then opens the detail page and
extracts the CNR number and four labelled fields. It also saves the page and downloads
the PDFs it links to, then goes back to the listing.

This project models the decision-making part of that script in Dafny and proves what
each part does:

- **Field extraction** (`CaseDetails`, over `Text`). This covers the CNR-number search with its
  explanatory-note pattern and standalone fallback, the four labelled-field searches, and
  the five-key record built from them.
  The regular expressions are modelled with Python's search semantics: leftmost start,
  greedy repeats with backtracking, and alternatives tried in order.
  - `Text` holds the character classes, `strip`, runs, substring search and first-position search.
  - `ClassPatterns` holds patterns made of repeated character classes. It proves that the
    greedy matcher finds the longest match, that ordered alternation is correct when the
    alternatives do not overlap, and that the leftmost search is correct.
- **Listing rows and hearing dates** (`Listing`, `HearingDates`). These model the rows of a
  result table, the serial number, the court heading, and the next-hearing date. The date
  comes from a next-date label and the first date token after it, or else from the
  guarded fallback to the first numeric date of the row.
- **Pagination and the due filter** (`Scrape`). The loop reads at most ten pages, following
  the "Next" link or the pager link. The filter keeps the cases due today or tomorrow.
- **Locators** (`Locators`). The View locator has three ranked strategies. The Back locator
  has five ranked selectors and falls back to the browser's history.
- **Capture** (`Capture`). This is the capture of one case, the harvest of the PDFs it links
  to, and the capture session. The session is a class with `matches`,
  `currentCaseIndex`, `capturedCases` and `captureInProgress`, stepped one case per rerun.

The browser, the network and the date parser are parameters:

- A listing site is a function from page number to page.
- A capture environment gives the listing page on screen and the detail page each of its
  links opens. It also answers whether saving a page succeeded and what a download produced.
- `parse_date_nullable` is any function from a token to an optional date.
- Dates are day numbers, so "tomorrow" is `today + 1`.

Two behaviours of the code are worth knowing:

- A labelled value's character class includes letters and spaces. So a value runs on
  into whatever label follows it on the page, and which field comes first in the page
  text matters.
- A disabled "Next" link ends the scrape even when the page also has a pager link of
  class `next`. The pager link is tried only when there is no "Next" link at all
  (app.py:703-719).

## Model

| member | source | states |
|---|---|---|
| Text.Strip | app.py:340 | `.strip()` leaves no whitespace at either end and never lengthens the text |
| Text.StripRemovesOnlyEndSpaces | app.py:340 | `.strip()` removes whitespace from the two ends only: the result is the piece of the text between a whitespace prefix and a whitespace suffix |
| Text.StripKeepsClass | app.py:306 | stripping a text keeps a piece of it, so it keeps any character class the whole text is in |
| ClassPatterns.FirstMatch | app.py:341-343 | `re.findall(...)[0]`: the text of the leftmost match, read as the ordered alternation reads it |
| ClassPatterns.FirstMatchSound | app.py:341-343 | the token reported is a whole match of an alternative occurring in the text; no match begins further left and none at the same place is longer |
| ClassPatterns.FirstMatchIs | app.py:341-343 | conversely, the leftmost, longest match is the token reported |
| CaseDetails.FindCnr | app.py:293-299 | a CNR number, when found, is sixteen ASCII letters or digits |
| CaseDetails.CnrToken | app.py:295 | `.strip()` leaves the matched sixteen-character token unchanged |
| CaseDetails.NoteGapIsForced | app.py:293 | in any match of the note pattern, `\s*` takes the whole whitespace run before "(Note" |
| CaseDetails.NoteMatchesAtIff | app.py:293 | the matcher succeeds at a position exactly when the note pattern can match there |
| CaseDetails.FindCnrTakesNote | app.py:293-295 | when the note pattern matches, the CNR number is the token of its leftmost match |
| CaseDetails.FindCnrFallsBack | app.py:296-299 | with no note match, the CNR number is the leftmost standalone `\b[A-Z0-9]{16}\b` token (case-sensitive) |
| CaseDetails.FindCnrAbsent | app.py:293-299 | the CNR number is absent exactly when neither pattern matches anywhere |
| CaseDetails.GroupStartAt | app.py:303-304 | where the matcher succeeds, the key is there ignoring case, and the group starts after it and some of the separators that follow, at a character the group can begin with |
| CaseDetails.FindLabelValue | app.py:302-306 | a labelled field, when found, is a piece of the page text made of value characters, with no whitespace at either end |
| CaseDetails.GroupValue | app.py:305-306 | `m.group(1).strip()` is a piece of the page text made of value characters |
| CaseDetails.GroupStartMatches | app.py:303-304 | the group start the matcher settles on gives a real match of `key[:\-\s]*([A-Za-z0-9/.\-\s]+)` |
| CaseDetails.MatchStartsGroup | app.py:303 | any match's group starts where the matcher may start it |
| CaseDetails.GroupStartComplete | app.py:303-304 | the matcher finds a match at a position whenever the pattern can match there |
| CaseDetails.GroupStartPreferred | app.py:303-304 | the matcher prefers the longest separator run, then the longest group |
| CaseDetails.PreferredGroup | app.py:303-304 | the preferred match at a position fixes where the group starts and how long it is |
| CaseDetails.FindLabelValueTakesLeftmost | app.py:302-306 | a labelled field is the stripped group of the leftmost match with the longest separators and the longest group |
| CaseDetails.LeftmostGroupValue | app.py:304-306 | with no match before a position, the field is the stripped group chosen there |
| CaseDetails.NoEarlierLabel | app.py:304 | no position before the leftmost match lets the matcher succeed |
| CaseDetails.FindLabelValueAbsent | app.py:304-306 | a labelled field is None exactly when its pattern matches nowhere |
| CaseDetails.ExtractCaseDetails | app.py:282-306 | the record has exactly the five keys; the CNR key holds the CNR search and each other key its own label search |
| HearingDates.WordsEnd | app.py:325 | a label alternative that matches begins with its first word, ignoring case, and ends inside the row |
| HearingDates.AltEnd | app.py:325 | the label alternation matches exactly when one of its alternatives does |
| HearingDates.LabelEnd | app.py:339-340 | `m.end()` lies in the row and is followed by no separator, so the slice after it is well defined |
| HearingDates.WordsEndIff | app.py:325 | the matcher of one alternative succeeds with end `e` exactly when the words, separated by whitespace, match up to `e`, ignoring case |
| HearingDates.AltEndFirst | app.py:325 | where the alternation succeeds, the end it reports is that of the first alternative that matches |
| HearingDates.AltEndOfFirst | app.py:325 | the end of the first alternative that matches is what the alternation reports |
| HearingDates.AltEndAbsent | app.py:325 | the alternation fails exactly when no alternative matches |
| HearingDates.AltAtIff | app.py:338 | the search succeeds at a position exactly when some alternative matches there |
| HearingDates.AltSearchEnd | app.py:338-340 | `m.end()` of a search for an alternation followed by `[:\-\s]*` lies in the text and is followed by no separator |
| HearingDates.AltSearchLeftmost | app.py:338-340 | the search ends after the first alternative matching at the leftmost position where any matches, plus the separators after it |
| HearingDates.AltSearchFindsLeftmost | app.py:338-340 | conversely, a successful search ended after the leftmost match and its separators |
| HearingDates.AltSearchAbsent | app.py:338-339 | the search fails exactly when no alternative matches anywhere |
| HearingDates.SeparatorRun | app.py:325 | the greedy `[:\-\s]*` takes every separator that follows the label and no more |
| HearingDates.LabelEndIsLeftmost | app.py:338-340 | `m.end()` is the end of the first alternative matching at the leftmost position where any label matches, plus the separators after it |
| HearingDates.LabelEndFindsLeftmost | app.py:338-340 | conversely, a successful label search ended after the leftmost label and its separators |
| HearingDates.LabelEndAbsent | app.py:338-339 | the label search fails exactly when no label alternative matches anywhere in the row |
| HearingDates.LabelsBeginWithNext | app.py:325 | every label alternative begins with "Next" |
| HearingDates.AltEndBeginsWith | app.py:325 | wherever the alternation matches, the alternatives' common first word occurs |
| HearingDates.LabelBeginsWithNext | app.py:325 | a label match begins with "Next", ignoring case |
| HearingDates.LabelEndNeedsNext | app.py:338 | a row with a label contains "Next" in some case |
| HearingDates.DatePatternsSeparated | app.py:341 | both date patterns take a character per repeat and have disjoint neighbouring classes |
| HearingDates.WordDateNotNumeric | app.py:341 | where a day-word-year date begins, the numeric alternative cannot match |
| HearingDates.DateTokensUnambiguous | app.py:341-346 | both token patterns are read correctly by trying their alternatives in order |
| HearingDates.LabelledDate | app.py:338-343 | the date read after the label: the parse of the first date token of the stripped rest of the row, None without a label or a token |
| HearingDates.HearingDate | app.py:336-348 | the labelled date, or else, when the row contains "Next" case-sensitively, the parse of its first numeric date |
| HearingDates.LabelledDateIsFirstToken | app.py:338-343 | after a label, the date is the parse of the leftmost, longest date token of the stripped rest of the row |
| HearingDates.FallbackDateIsFirstToken | app.py:345-348 | without a labelled date, a row containing "Next" gets the parse of its leftmost numeric date |
| HearingDates.AfterLabelInRow | app.py:340 | the stripped text after the label is part of the row |
| HearingDates.HearingDateFromToken | app.py:338-348 | a hearing date is always the parse of a date token that occurs in the row |
| HearingDates.LabelledDateFromToken | app.py:338-343 | a labelled date is the parse of a date token that occurs in the row |
| HearingDates.DateTokenStartsWithDigit | app.py:341 | a date token begins with a digit |
| HearingDates.HearingDateNeedsNext | app.py:338-348 | a row gets a date only if it mentions "Next" in some case |
| HearingDates.HearingDateNeedsDigit | app.py:338-348 | a row with no digit gets no date, whatever the parser |
| HearingDates.HearingDateFallbackNeedsNext | app.py:345-348 | when the label yields no date (no label, no token after it, or no parse) and the row lacks a case-sensitive "Next", the date is None |
| Listing.Cases | app.py:315-355 | no table gives no cases; at most one case per body row; each case has cells, the page's court name and its first cell stripped as serial |
| Listing.RowCase | app.py:334-355 | a row's case: its first cell stripped as serial, its cells, the page's court name and the row's hearing date |
| Listing.ExtractCases | app.py:314-356 | the row loop appends exactly the cases `Cases` describes |
| Listing.CasesSelectRows | app.py:329-355 | the cases correspond in order, one for one, to exactly the body rows with cells |
| Listing.DatedCaseMentionsNext | app.py:338-348 | a dated case comes from a row mentioning "Next" that holds a date token parsed to that date |
| Scrape.MovesOn | app.py:703-719 | the scrape moves on from a page with an enabled "Next" link, or with no "Next" link and a pager link |
| Scrape.LastPageFrom | app.py:694-719 | from page `k` the scrape stops at the first page it does not move on from, or at page ten |
| Scrape.LastPage | app.py:692-719 | between one and ten pages are read; every page before the last moves on; the last does not, unless it is page ten |
| Scrape.LastPageFromIs | app.py:694-719 | the stopping page is determined by the first page that does not move on |
| Scrape.Paginate | app.py:690-719 | the loop reads exactly `LastPage` pages and accumulates their cases in page order |
| Scrape.DisabledNextReadsOnePage | app.py:704-719 | a first page with a disabled "Next" link is the only page read |
| Scrape.ScrapedReadsOnlyUpToLastPage | app.py:694-719 | pages after the last one read do not affect the scrape |
| Scrape.ReadPage | app.py:696-698 | one pass of the loop body appends the cases of the current page |
| Scrape.CasesOfPagesAgree | app.py:697-698 | sites that agree on pages 1 to n have the same cases on them |
| Scrape.CasesOfPagesPrefix | app.py:698 | the cases of earlier pages come first, in page order |
| Scrape.IsDue | app.py:729-730 | a case is due when it has a hearing date equal to today or tomorrow |
| Scrape.FilterDue | app.py:726-731 | the filter loop keeps exactly the cases due today or tomorrow, in order |
| Scrape.DueCasesAreExactlyTodayOrTomorrow | app.py:724-731 | the matches are an order-preserving selection of exactly the cases dated today or tomorrow; undated cases are excluded |
| Scrape.ProcessScraping | app.py:690-742 | the scrape, the due cases and the next step: capture when some case matched, else the start |
| Locators.CellRowTarget | app.py:379-406 | strategies 2 and 3 click a link of the serial's row: its first View link, or, when it has none, its first link with visible text; failure means the row has neither |
| Locators.ViewTarget | app.py:364-408 | each click is the first link its strategy qualifies; a later strategy is used only when earlier ones found nothing |
| Locators.FirstViewLinkForSerial | app.py:365-377 | strategy 1's loop returns the first View link, in document order, whose row mentions the serial, and None when there is none |
| Locators.FirstNamedLinkInRow | app.py:397-403 | strategy 3's loop returns the first link of the row with text once stripped, and None when there is none |
| Locators.FindAndClickView | app.py:358-408 | the three strategies, tried in order, click exactly the link `ViewTarget` chooses |
| Locators.ViewTextIsNamed | app.py:383-401 | a View link always has visible text |
| Locators.ViewNotFoundIff | app.py:364-408 | the locator fails exactly when strategy 1 finds nothing and no cell holds the serial or its row has no link with text |
| Locators.QuotedSerialOnlyFirstStrategy | app.py:381-394 | a serial with a single quote can be found only by strategy 1 |
| Locators.FirstBack | app.py:426-438 | the first control present in the list is clicked; the browser's history is used exactly when none is present |
| Locators.BackTarget | app.py:414-438 | the Back locator's action: the first of the five controls present, in order, else the browser's history |
| Locators.ClickBack | app.py:414-438 | the selector loop takes the action `BackTarget` chooses and reports success |
| Locators.BackLinkWins | app.py:419-431 | a page with a "Back" link gets that link clicked |
| Locators.BrowserBackIff | app.py:418-438 | the browser's history is used exactly when none of the five controls is present |
| Capture.HarvestPdfs | app.py:476-483 | the link loop keeps the local file of every PDF link whose download succeeded, in link order |
| Capture.HarvestedFiles | app.py:478-483 | the files kept correspond one for one, in order, to exactly the PDF links whose download succeeded |
| Capture.HarvestedAtMostPdfLinks | app.py:478-483 | the file count is the number of successful PDF downloads, at most the number of PDF links |
| Capture.Captured | app.py:444-533 | a failed record when the View locator finds nothing, else the record of the detail page behind the link it clicks |
| Capture.CaptureCase | app.py:444-533 | the record is `Captured`; after a completed capture the Back locator's action on the opened page is taken, after a failure none |
| Capture.FailedIffNoViewControl | app.py:452-533 | a record keeps serial, court and date; it fails exactly when the View locator finds nothing; a failed record has no details, no saved page and no PDFs |
| Capture.CompletedRecord | app.py:461-497 | a completed record comes from a clicked link; it counts the successful PDF downloads of the page that link opened, at most its PDF links, and its CNR number is sixteen letters and digits |
| Capture.SameLinkSameDetails | app.py:452-497 | cases whose lookups click the same link get the same details and PDFs |
| Capture.CapturedAll | app.py:790-817 | the records of a run of captures, one per case |
| Capture.CapturedDescribes | app.py:486-533 | every record, completed or failed, carries the case's serial, court name and hearing date |
| Capture.CapturedAllOnePerCase | app.py:790-817 | one record per case, in order, each the capture of its case and describing it |
| Capture.CaptureSession.constructor | app.py:567-576 | the session starts with no records, at index 0, not capturing |
| Capture.CaptureSession.Start | app.py:767-770 | starting capture resets the index and the records and sets capture running |
| Capture.CaptureSession.Step | app.py:790-827 | a step captures the current case, appends exactly its record and advances the index; past the last case it ends capture; the records stay consistent with the cases |
| Capture.CaptureSession.CaptureAll | app.py:775-827 | the reruns end with the index at the end of the cases and one record per case, in order |

## Left out

- Unicode: `\d`, `\w`, `IGNORECASE` and `.lower()` are modelled on ASCII only, and `\s` and `strip` on the characters `str.isspace` accepts.
- HTML parsing: a page is given as its rows, cell texts, row text, heading and links. BeautifulSoup's `get_text` and nested tables are not part of this model.
- The availability flags for BeautifulSoup, Selenium and dateutil (the early `return {}` and `return []`, and `parse_date_nullable` returning None without dateutil) are not modelled. The libraries are taken as present.
- Dates: dateutil's `dayfirst` parsing is a parameter (`parse`) and is not part of this model. A date is a day number.
- Browser exceptions: clicks, `driver.back()` and element lookups never raise, except the XPath of a serial with a quote, which is modelled as failing.
  - So `click_back_button` always reports success, and the browser-back fallback in `capture_case_details_automated` (app.py:511-514) is a branch that is never taken.
  - The outer `except` of `process_scraping` (app.py:744-745) is not modelled.
- Selenium's `find_element` by link text "Next" and the pager XPath are modelled as answers of the page (`next`, `hasPagerLink`), not as DOM searches.
- The search form, the CAPTCHA and the Civil/Criminal selection before the listing (app.py:669-686) are not modelled.
- Saving the page as a PDF: the CDP call is an answer of the environment (`pdfSaved`).
- Downloads: the result is an answer of the environment, keyed by the raw `href`.
  - `urljoin` with the current URL is not modelled.
  - The local file name is the URL path's basename, or "file.pdf" (app.py:242); that naming is not modelled.
  - The PDF path `serial_<n>.pdf` is not modelled either.
- SQLite storage (`save_case_to_db`), the Excel export, the status messages, the progress bars, the live table and the sleeps have no effect on what is captured. They are not modelled.
- The `if captured_data` guard (app.py:806) always holds, since the record is a non-empty dictionary.
- The Streamlit UI and the reruns:
  - The session is a class whose `Step` is one call of `perform_capture`.
  - `CaptureAll` runs the reruns until capture ends, with the browser of the `i`-th case given as `world(i)`.
- LabelEnd: its own contract states only that `m.end()` lies in the row and is followed by no separator. Which match it ends is stated by LabelEndIsLeftmost, LabelEndFindsLeftmost and LabelEndAbsent.
- AltSearchEnd: its own contract states only that `m.end()` lies in the text and is followed by no separator. Which match it ends is stated by AltSearchLeftmost, AltSearchFindsLeftmost and AltSearchAbsent.
- CaptureCase and CaptureEnv: the listing page the View locator searches is given per case. It is not tied to the page the browser shows after pagination, which is the last page read, or the page after the tenth. So the model does not capture that a case listed on an earlier page is not found there.
  - The serial test is a substring test on row and cell texts. So a lookup can click another case's link, and the record then pairs this case's serial, court and date with that link's details. The model keeps this: the details come from the page the clicked link opens (SameLinkSameDetails).
- Capture.CaptureCase: the record's "PDF Saved" and "Status" columns are booleans and a two-valued status, not the emoji strings.
