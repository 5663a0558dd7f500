/**
 * The capture step (app.py, `capture_case_details_automated` and `perform_capture`):
 * for each due case, click its View control, read the detail page, download the PDFs it
 * links to, go back to the listing, and record the outcome. The browser at the time a
 * case is captured is given as a `CaptureEnv`: the listing page on screen and the detail
 * page each of its links opens. Saving a page as a PDF and downloading a file are answers
 * the environment gives.
 */
module Capture {
  import opened Wrappers
  import opened Text
  import opened Seqs
  import opened CaseDetails
  import opened HearingDates
  import opened Listing
  import opened Locators

  /**
   * A detail page: its text, whether saving it as a PDF succeeded, the `href` of every
   * link on it in document order, and which Back controls it has.
   */
  datatype DetailPage = DetailPage(text: string, pdfSaved: bool, hrefs: seq<string>,
                                   backPresent: BackControl -> bool)

  /**
   * What the browser offers while one case is captured: the listing page on screen, which
   * the View control is looked for on; the detail page that clicking each of its links
   * opens, by link index; and the local file a download of an `href` produces, if it
   * succeeds.
   */
  datatype CaptureEnv = CaptureEnv(viewPage: ViewPage, opens: nat -> DetailPage,
                                   download: string -> Option<string>)

  /** The outcome recorded in the "Status" column. */
  datatype CaptureStatus = Completed | FailedNoViewButton

  /** One row of the capture table. */
  datatype CapturedCase = CapturedCase(
    serialNumber: string,
    cnrNumber: Option<string>,
    caseType: Option<string>,
    courtAndJudge: Option<string>,
    filingNumber: Option<string>,
    registrationNumber: Option<string>,
    courtName: string,
    nextHearingDate: Option<Date>,
    pdfSaved: bool,
    additionalPdfs: nat,
    status: CaptureStatus)

  // ---------------------------------------------------------------------------
  // Linked PDFs
  // ---------------------------------------------------------------------------

  const PDF_SUFFIX: string := ".pdf"

  /** `href.lower().endswith(".pdf")`. */
  predicate IsPdfHref(href: string) {
    |href| >= |PDF_SUFFIX| && LiteralAtCI(href, |href| - |PDF_SUFFIX|, PDF_SUFFIX)
  }

  /** A link that is a PDF and whose download succeeded. */
  function Fetched(download: string -> Option<string>): string -> bool {
    (href: string) => IsPdfHref(href) && download(href).Some?
  }

  /** The local file a successful download produced. */
  function LocalFile(download: string -> Option<string>): string -> string {
    (href: string) => if download(href).Some? then download(href).value else ""
  }

  /** The local files of the linked PDFs, in link order. */
  function Harvested(hrefs: seq<string>, download: string -> Option<string>): seq<string> {
    FilterMap(hrefs, Fetched(download), LocalFile(download))
  }

  /** The loop over the detail page's links that downloads every PDF and keeps the files obtained. */
  method HarvestPdfs(hrefs: seq<string>, download: string -> Option<string>) returns (pdfs: seq<string>)
    ensures pdfs == Harvested(hrefs, download)
  {
    pdfs := [];
    var i := 0;
    while i < |hrefs|
      invariant i <= |hrefs|
      invariant pdfs == FilterMap(hrefs[..i], Fetched(download), LocalFile(download))
    {
      var href := hrefs[i];
      assert hrefs[..i + 1][..i] == hrefs[..i];
      if |href| >= |PDF_SUFFIX| && LiteralAtCI(href, |href| - |PDF_SUFFIX|, PDF_SUFFIX) {
        var dl := download(href);
        if dl.Some? {
          pdfs := pdfs + [dl.value];
        }
      }
      i := i + 1;
    }
    assert hrefs[..i] == hrefs;
  }

  /**
   * The files kept are exactly the downloads of the PDF links whose download succeeded,
   * one per such link, in link order; no other link contributes a file.
   */
  lemma HarvestedFiles(hrefs: seq<string>, download: string -> Option<string>) returns (idx: seq<nat>)
    ensures Selects(hrefs, idx, Fetched(download))
    ensures |idx| == |Harvested(hrefs, download)|
    ensures forall j :: 0 <= j < |idx| ==>
              IsPdfHref(hrefs[idx[j]]) && download(hrefs[idx[j]]) == Some(Harvested(hrefs, download)[j])
  {
    idx := FilterSelects(hrefs, Fetched(download));
    FilterMapIsMapFilter(hrefs, Fetched(download), LocalFile(download));
    forall j | 0 <= j < |idx|
      ensures IsPdfHref(hrefs[idx[j]]) && download(hrefs[idx[j]]) == Some(Harvested(hrefs, download)[j])
    {
      assert idx[j] in idx;
    }
  }

  /** At most one file per PDF link: a link that is not a PDF is never downloaded. */
  lemma HarvestedAtMostPdfLinks(hrefs: seq<string>, download: string -> Option<string>)
    ensures |Harvested(hrefs, download)| == |Filter(hrefs, Fetched(download))|
    ensures |Filter(hrefs, Fetched(download))| <= |Filter(hrefs, IsPdfHref)|
  {
    FilterMapIsMapFilter(hrefs, Fetched(download), LocalFile(download));
    FilterLengthMonotone(hrefs, Fetched(download), IsPdfHref);
  }

  // ---------------------------------------------------------------------------
  // One case
  // ---------------------------------------------------------------------------

  /** The record of a case whose View control was not found: only the listing's facts. */
  function FailedCapture(c: ListingRow): CapturedCase {
    CapturedCase(c.serial, None, None, None, None, None, c.courtName, c.nextHearingDate,
                 false, 0, FailedNoViewButton)
  }

  /** The record of a case whose detail page `page` was opened. */
  function CompletedCapture(c: ListingRow, page: DetailPage, download: string -> Option<string>): CapturedCase {
    var text := page.text;
    CapturedCase(c.serial, FindCnr(text), FindLabelValue(text, CASE_TYPE_KEY),
                 FindLabelValue(text, COURT_KEY), FindLabelValue(text, FILING_KEY),
                 FindLabelValue(text, REGISTRATION_KEY), c.courtName, c.nextHearingDate,
                 page.pdfSaved, |Harvested(page.hrefs, download)|, Completed)
  }

  /** The detail page opened for `c`: the one behind the link the View locator clicks. */
  function OpenedPage(c: ListingRow, env: CaptureEnv): DetailPage
    requires ViewTarget(env.viewPage, c.serial).ClickedView?
  {
    env.opens(ViewTarget(env.viewPage, c.serial).link)
  }

  /** The record the capture of `c` produces. */
  function Captured(c: ListingRow, env: CaptureEnv): CapturedCase {
    match ViewTarget(env.viewPage, c.serial)
    case NoViewControl => FailedCapture(c)
    case ClickedView(_, link) => CompletedCapture(c, env.opens(link), env.download)
  }

  /**
   * `capture_case_details_automated`: click the View control of the case, read the
   * details and the linked PDFs, and go back to the listing with the Back locator.
   * `back` is the navigation done afterwards, none when no View control was clicked.
   */
  method CaptureCase(c: ListingRow, env: CaptureEnv) returns (record: CapturedCase, back: Option<BackAction>)
    ensures record == Captured(c, env)
    ensures back == (if record.status == Completed then Some(BackTarget(OpenedPage(c, env).backPresent)) else None)
  {
    var click := FindAndClickView(env.viewPage, c.serial);
    if click == NoViewControl {
      record := CapturedCase(c.serial, None, None, None, None, None, c.courtName, c.nextHearingDate,
                             false, 0, FailedNoViewButton);
      return record, None;
    }
    var page := env.opens(click.link);
    var details := ExtractCaseDetails(page.text);
    var pdfs := HarvestPdfs(page.hrefs, env.download);
    record := CapturedCase(c.serial, details[CNR_KEY], details[CASE_TYPE_KEY], details[COURT_KEY],
                           details[FILING_KEY], details[REGISTRATION_KEY], c.courtName,
                           c.nextHearingDate, page.pdfSaved, |pdfs|, Completed);
    var action, ok := ClickBack(page.backPresent);
    if !ok {
      // the browser's own Back, when the locator reports failure
      action := BrowserBack;
    }
    back := Some(action);
  }

  /** The listing's facts about a case are carried into its record unchanged. */
  predicate Describes(r: CapturedCase, c: ListingRow) {
    r.serialNumber == c.serial && r.courtName == c.courtName && r.nextHearingDate == c.nextHearingDate
  }

  /**
   * A capture fails exactly when the View locator finds nothing: no View link in a row
   * mentioning the serial, and no cell holding the serial or no link with visible text
   * in that cell's row. A failed record has no details, no saved page and no PDFs.
   */
  lemma FailedIffNoViewControl(c: ListingRow, env: CaptureEnv)
    ensures Describes(Captured(c, env), c)
    ensures Captured(c, env).status == FailedNoViewButton <==>
              && (forall k: nat :: k < |env.viewPage.links| ==> !ViewLinkForSerial(env.viewPage, c.serial)(k))
              && (SerialCellRow(env.viewPage, c.serial).None? ||
                  forall k: nat :: k < |env.viewPage.links| ==>
                    !NamedLinkInRow(env.viewPage, SerialCellRow(env.viewPage, c.serial).value)(k))
    ensures Captured(c, env).status == FailedNoViewButton ==>
              && Captured(c, env).cnrNumber.None? && Captured(c, env).caseType.None?
              && Captured(c, env).courtAndJudge.None? && Captured(c, env).filingNumber.None?
              && Captured(c, env).registrationNumber.None?
              && !Captured(c, env).pdfSaved && Captured(c, env).additionalPdfs == 0
  {
    ViewNotFoundIff(env.viewPage, c.serial);
  }

  /**
   * A completed record counts the PDF links whose download succeeded, which is at most
   * the number of PDF links, and a CNR number it holds is sixteen letters and digits.
   */
  lemma CompletedRecord(c: ListingRow, env: CaptureEnv)
    requires Captured(c, env).status == Completed
    ensures ViewTarget(env.viewPage, c.serial).ClickedView?
    ensures Captured(c, env).additionalPdfs == |Filter(OpenedPage(c, env).hrefs, Fetched(env.download))|
    ensures Captured(c, env).additionalPdfs <= |Filter(OpenedPage(c, env).hrefs, IsPdfHref)|
    ensures Captured(c, env).pdfSaved == OpenedPage(c, env).pdfSaved
    ensures Captured(c, env).cnrNumber.Some? ==>
              |Captured(c, env).cnrNumber.value| == CNR_LENGTH && AllIn(Captured(c, env).cnrNumber.value, IsAlnum)
  {
    HarvestedAtMostPdfLinks(OpenedPage(c, env).hrefs, env.download);
  }

  /**
   * The details recorded come from the link the View locator clicks, not from the case:
   * two cases whose lookups click the same link (a serial occurring in another case's row
   * text, say) get the same details and the same PDFs.
   */
  lemma SameLinkSameDetails(c1: ListingRow, c2: ListingRow, env: CaptureEnv)
    requires ViewTarget(env.viewPage, c1.serial).ClickedView? && ViewTarget(env.viewPage, c2.serial).ClickedView?
    requires ViewTarget(env.viewPage, c1.serial).link == ViewTarget(env.viewPage, c2.serial).link
    ensures var r1, r2 := Captured(c1, env), Captured(c2, env);
            && r1.cnrNumber == r2.cnrNumber && r1.caseType == r2.caseType
            && r1.courtAndJudge == r2.courtAndJudge && r1.filingNumber == r2.filingNumber
            && r1.registrationNumber == r2.registrationNumber
            && r1.pdfSaved == r2.pdfSaved && r1.additionalPdfs == r2.additionalPdfs
  {
  }

  // ---------------------------------------------------------------------------
  // The capture session
  // ---------------------------------------------------------------------------

  /** The capture of a case in the browser of its position. */
  function CaptureIn(world: nat -> CaptureEnv): (ListingRow, nat) -> CapturedCase {
    (c: ListingRow, i: nat) => Captured(c, world(i))
  }

  /** The records of capturing `cases` in order, the `i`-th in the browser `world(i)`. */
  function CapturedAll(cases: seq<ListingRow>, world: nat -> CaptureEnv): (r: seq<CapturedCase>)
    ensures |r| == |cases|
  {
    MapIndexed(cases, CaptureIn(world))
  }

  /** The listing's facts reach the record whether or not the capture succeeds. */
  lemma CapturedDescribes(c: ListingRow, env: CaptureEnv)
    ensures Describes(Captured(c, env), c)
  {
  }

  /** One record per case, in the order of the cases, each describing its case. */
  lemma CapturedAllOnePerCase(cases: seq<ListingRow>, world: nat -> CaptureEnv)
    ensures |CapturedAll(cases, world)| == |cases|
    ensures forall i :: 0 <= i < |cases| ==>
              CapturedAll(cases, world)[i] == Captured(cases[i], world(i))
              && Describes(CapturedAll(cases, world)[i], cases[i])
  {
    MapIndexedAt(cases, CaptureIn(world));
    forall i | 0 <= i < |cases|
      ensures Describes(Captured(cases[i], world(i)), cases[i])
    {
      CapturedDescribes(cases[i], world(i));
    }
  }

  /**
   * The session state of the capture step: the due cases, the index of the next case to
   * capture, the records so far, and whether capture is running.
   */
  class CaptureSession {
    var matches: seq<ListingRow>
    var currentCaseIndex: nat
    var capturedCases: seq<CapturedCase>
    var captureInProgress: bool

    /** One record per case before the current index, each describing its case. */
    predicate Consistent()
      reads this
    {
      && currentCaseIndex <= |matches|
      && |capturedCases| == currentCaseIndex
      && forall i :: 0 <= i < currentCaseIndex ==> Describes(capturedCases[i], matches[i])
    }

    /** The session's initial state once the due cases are known. */
    constructor (matches: seq<ListingRow>)
      ensures this.matches == matches
      ensures currentCaseIndex == 0 && capturedCases == [] && !captureInProgress
      ensures Consistent()
    {
      this.matches := matches;
      currentCaseIndex := 0;
      capturedCases := [];
      captureInProgress := false;
    }

    /** "Start Automatic Capture": from the first case, with no records. */
    method Start()
      modifies this
      ensures matches == old(matches)
      ensures captureInProgress && currentCaseIndex == 0 && capturedCases == []
      ensures Consistent()
    {
      captureInProgress := true;
      currentCaseIndex := 0;
      capturedCases := [];
    }

    /**
     * `perform_capture`: capture the current case, append its record and move to the next
     * case; once every case is captured, end the capture.
     */
    method Step(env: CaptureEnv)
      requires Consistent() && captureInProgress
      modifies this
      ensures Consistent()
      ensures matches == old(matches)
      ensures old(currentCaseIndex) < |matches| ==>
                && currentCaseIndex == old(currentCaseIndex) + 1
                && capturedCases == old(capturedCases) + [Captured(matches[old(currentCaseIndex)], env)]
                && captureInProgress
      ensures old(currentCaseIndex) == |matches| ==>
                currentCaseIndex == old(currentCaseIndex) && capturedCases == old(capturedCases) && !captureInProgress
    {
      if currentCaseIndex < |matches| {
        var c := matches[currentCaseIndex];
        var record, back := CaptureCase(c, env);
        CapturedDescribes(c, env);
        capturedCases := capturedCases + [record];
        currentCaseIndex := currentCaseIndex + 1;
      } else {
        captureInProgress := false;
      }
    }

    /**
     * The reruns of the capture step until it ends, the case at index `i` being captured
     * in the browser `world(i)`: afterwards there is one record per due case, in order.
     */
    method CaptureAll(world: nat -> CaptureEnv)
      requires Consistent() && captureInProgress
      requires capturedCases == CapturedAll(matches[..currentCaseIndex], world)
      modifies this
      ensures matches == old(matches)
      ensures !captureInProgress && currentCaseIndex == |matches|
      ensures capturedCases == CapturedAll(matches, world)
    {
      while captureInProgress
        invariant Consistent()
        invariant matches == old(matches)
        invariant capturedCases == CapturedAll(matches[..currentCaseIndex], world)
        invariant !captureInProgress ==> currentCaseIndex == |matches|
        decreases |matches| - currentCaseIndex + (if captureInProgress then 1 else 0)
      {
        var i := currentCaseIndex;
        Step(world(i));
        if i < |matches| {
          MapIndexedSnoc(matches, i, CaptureIn(world));
        }
      }
      assert matches[..currentCaseIndex] == matches;
    }
  }
}
