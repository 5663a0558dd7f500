/**
 * The scraping step (app.py, `process_scraping`): read the listing pages one after
 * another, following the "Next" link, for at most ten pages, then keep the cases whose
 * next hearing is today or tomorrow. The browser is a function from page number
 * (counting from 1) to what that page shows; following a link always succeeds.
 */
module Scrape {
  import opened Wrappers
  import opened Text
  import opened Seqs
  import opened HearingDates
  import opened Listing

  /** What the page offers under the link text "Next". */
  datatype NextLink = NoNextLink | DisabledNextLink | EnabledNextLink

  /** A results page: its listing, its "Next" link, and whether it has a pager link (class `next` or label `Next`). */
  datatype ResultsPage = ResultsPage(listing: ListingPage, next: NextLink, hasPagerLink: bool)

  /** The safety limit on the number of pages read. */
  const MAX_PAGES: nat := 10

  /** The step the session moves to after scraping: capture when cases matched, else back to the start. */
  const CAPTURE_STEP: nat := 4
  const START_STEP: nat := 1

  /**
   * The scraper moves on from a page when its "Next" link is enabled, or when it has no
   * "Next" link but has a pager link. A disabled "Next" link ends the scrape even when a
   * pager link is present.
   */
  predicate MovesOn(page: ResultsPage) {
    page.next == EnabledNextLink || (page.next == NoNextLink && page.hasPagerLink)
  }

  /** The number of the last page read when page `k` has been reached. */
  function LastPageFrom(site: nat -> ResultsPage, k: nat): (n: nat)
    requires 1 <= k <= MAX_PAGES
    decreases MAX_PAGES - k
    ensures k <= n <= MAX_PAGES
    ensures forall j :: k <= j < n ==> MovesOn(site(j))
    ensures n == MAX_PAGES || !MovesOn(site(n))
  {
    if k == MAX_PAGES || !MovesOn(site(k)) then k else LastPageFrom(site, k + 1)
  }

  /** The number of the last page read: the first page it does not move on from, or the limit. */
  function LastPage(site: nat -> ResultsPage): (n: nat)
    ensures 1 <= n <= MAX_PAGES
    ensures forall k :: 1 <= k < n ==> MovesOn(site(k))
    ensures n == MAX_PAGES || !MovesOn(site(n))
  {
    LastPageFrom(site, 1)
  }

  /** The last page read is determined by where the scraper first stops moving on. */
  lemma {:induction false} LastPageFromIs(site: nat -> ResultsPage, k: nat, n: nat)
    requires 1 <= k <= n <= MAX_PAGES
    requires forall j :: k <= j < n ==> MovesOn(site(j))
    requires n == MAX_PAGES || !MovesOn(site(n))
    ensures LastPageFrom(site, k) == n
    decreases n - k
  {
    if k < n {
      LastPageFromIs(site, k + 1, n);
    }
  }

  /** The cases of each page, by page number. */
  function PageCases(site: nat -> ResultsPage, parse: string -> Option<Date>): nat -> seq<ListingRow> {
    (k: nat) => Cases(site(k).listing, parse)
  }

  /** The cases of pages `1..n`, in page order. */
  function CasesOfPages(site: nat -> ResultsPage, parse: string -> Option<Date>, n: nat): seq<ListingRow> {
    Concat(PageCases(site, parse), n)
  }

  /** Reading page `n` appends its cases. */
  lemma CasesOfPagesSnoc(site: nat -> ResultsPage, parse: string -> Option<Date>, n: nat)
    requires n >= 1
    ensures CasesOfPages(site, parse, n) == CasesOfPages(site, parse, n - 1) + Cases(site(n).listing, parse)
  {
  }

  /** Every case collected by the scrape. */
  function Scraped(site: nat -> ResultsPage, parse: string -> Option<Date>): seq<ListingRow> {
    CasesOfPages(site, parse, LastPage(site))
  }

  /**
   * The pagination loop: read the current page, then follow "Next" (or, without a "Next"
   * link, the pager link) until there is none to follow or ten pages have been read.
   */
  method Paginate(site: nat -> ResultsPage, parse: string -> Option<Date>) returns (allCases: seq<ListingRow>, pagesRead: nat)
    ensures pagesRead == LastPage(site)
    ensures allCases == Scraped(site, parse)
  {
    allCases := [];
    var pageIndex := 1;
    pagesRead := 0;
    while pageIndex <= MAX_PAGES
      invariant 1 <= pageIndex <= MAX_PAGES + 1
      invariant pagesRead == pageIndex - 1
      invariant pageIndex <= MAX_PAGES ==> LastPage(site) == LastPageFrom(site, pageIndex)
      invariant pageIndex > MAX_PAGES ==> LastPage(site) == MAX_PAGES
      invariant allCases == CasesOfPages(site, parse, pagesRead)
      decreases MAX_PAGES + 1 - pageIndex
    {
      allCases := ReadPage(site, parse, pageIndex, allCases);
      pagesRead := pageIndex;
      var page := site(pageIndex);
      if page.next == EnabledNextLink {
        assert MovesOn(site(pageIndex));
        pageIndex := pageIndex + 1;
        continue;
      } else if page.next == NoNextLink && page.hasPagerLink {
        assert MovesOn(site(pageIndex));
        pageIndex := pageIndex + 1;
        continue;
      }
      assert LastPageFrom(site, pageIndex) == pageIndex;
      return;
    }
  }

  /** One pass of the loop body: extract the cases of page `n` and append them. */
  method ReadPage(site: nat -> ResultsPage, parse: string -> Option<Date>, n: nat, allCases: seq<ListingRow>)
    returns (extended: seq<ListingRow>)
    requires 1 <= n && allCases == CasesOfPages(site, parse, n - 1)
    ensures extended == CasesOfPages(site, parse, n)
  {
    var cases := ExtractCases(site(n).listing, parse);
    CasesOfPagesSnoc(site, parse, n);
    extended := allCases + cases;
  }

  /** A first page with a disabled "Next" link is the only page read, whatever else it shows. */
  lemma DisabledNextReadsOnePage(site: nat -> ResultsPage, parse: string -> Option<Date>)
    requires site(1).next == DisabledNextLink
    ensures LastPage(site) == 1
    ensures Scraped(site, parse) == Cases(site(1).listing, parse)
  {
  }

  /**
   * Only the pages up to the last one read matter: two sites that agree on those pages
   * give the same scrape.
   */
  lemma ScrapedReadsOnlyUpToLastPage(site: nat -> ResultsPage, other: nat -> ResultsPage, parse: string -> Option<Date>)
    requires forall k :: 1 <= k <= LastPage(site) ==> other(k) == site(k)
    ensures LastPage(other) == LastPage(site)
    ensures Scraped(other, parse) == Scraped(site, parse)
  {
    var n := LastPage(site);
    LastPageFromIs(other, 1, n);
    CasesOfPagesAgree(site, other, parse, n);
  }

  /** Sites that agree on pages `1..n` have the same cases on them. */
  lemma CasesOfPagesAgree(site: nat -> ResultsPage, other: nat -> ResultsPage, parse: string -> Option<Date>, n: nat)
    requires forall k :: 1 <= k <= n ==> other(k) == site(k)
    ensures CasesOfPages(other, parse, n) == CasesOfPages(site, parse, n)
  {
    assert forall k :: 1 <= k <= n ==> PageCases(other, parse)(k) == PageCases(site, parse)(k);
    ConcatAgree(PageCases(other, parse), PageCases(site, parse), n);
  }

  /** The cases of the earlier pages come first, in page order. */
  lemma CasesOfPagesPrefix(site: nat -> ResultsPage, parse: string -> Option<Date>, m: nat, n: nat)
    requires m <= n
    ensures CasesOfPages(site, parse, m) <= CasesOfPages(site, parse, n)
  {
    ConcatPrefix(PageCases(site, parse), m, n);
  }

  /** A case is due when its next hearing is today or tomorrow (dates are day numbers). */
  function IsDue(today: Date): ListingRow -> bool {
    (c: ListingRow) => c.nextHearingDate.Some? && (c.nextHearingDate.value == today || c.nextHearingDate.value == today + 1)
  }

  /** The loop that keeps the due cases, in the order they were scraped. */
  method FilterDue(allCases: seq<ListingRow>, today: Date) returns (matches: seq<ListingRow>)
    ensures matches == Filter(allCases, IsDue(today))
  {
    matches := [];
    var i := 0;
    while i < |allCases|
      invariant 0 <= i <= |allCases|
      invariant matches == Filter(allCases[..i], IsDue(today))
    {
      var c := allCases[i];
      assert allCases[..i + 1] == allCases[..i] + [c];
      FilterSnoc(allCases[..i], c, IsDue(today));
      var listed := c.nextHearingDate;
      if listed.Some? && (listed.value == today || listed.value == today + 1) {
        matches := matches + [c];
      }
      i := i + 1;
    }
    assert allCases[..i] == allCases;
  }

  /**
   * The due cases are exactly the scraped cases whose hearing is today or tomorrow, in
   * scrape order.
   */
  lemma DueCasesAreExactlyTodayOrTomorrow(allCases: seq<ListingRow>, today: Date) returns (idx: seq<nat>)
    ensures Selects(allCases, idx, IsDue(today))
    ensures |idx| == |Filter(allCases, IsDue(today))|
    ensures forall j :: 0 <= j < |idx| ==> Filter(allCases, IsDue(today))[j] == allCases[idx[j]]
    ensures forall c :: c in Filter(allCases, IsDue(today)) ==>
              c.nextHearingDate == Some(today) || c.nextHearingDate == Some(today + 1)
  {
    idx := FilterSelects(allCases, IsDue(today));
    FilterKeeps(allCases, IsDue(today));
  }

  /**
   * `process_scraping` after the search form is submitted: the scrape, the due cases, and
   * the step the session moves to.
   */
  method ProcessScraping(site: nat -> ResultsPage, parse: string -> Option<Date>, today: Date)
    returns (matches: seq<ListingRow>, allCases: seq<ListingRow>, nextStep: nat)
    ensures allCases == Scraped(site, parse)
    ensures matches == Filter(allCases, IsDue(today))
    ensures nextStep == (if matches != [] then CAPTURE_STEP else START_STEP)
  {
    var pagesRead;
    allCases, pagesRead := Paginate(site, parse);
    matches := FilterDue(allCases, today);
    nextStep := if matches != [] then CAPTURE_STEP else START_STEP;
  }
}
