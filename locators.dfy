/**
 * The two locators of the capture step (app.py, `find_and_click_view_button` and
 * `click_back_button`): ranked strategies, the first that finds a control wins. The
 * page is given as its table rows and its links in document order; clicking never fails.
 */
module Locators {
  import opened Wrappers
  import opened Text

  /** One `tr`: its text and the texts of its `td` cells. */
  datatype PageRow = PageRow(text: string, cells: seq<string>)

  /** One `a` element: its text, and the index of the nearest `tr` around it, if any. */
  datatype Link = Link(text: string, row: Option<nat>)

  /** The page the View control is looked for on. */
  datatype ViewPage = ViewPage(rows: seq<PageRow>, links: seq<Link>)

  /** The three strategies of the View locator, in the order they are tried. */
  datatype ViewStrategy =
    | ViewLinkInSerialRow     // a View link whose row mentions the serial
    | ViewLinkInCellRow       // the first View link of the row of the first cell holding the serial
    | NamedLinkInCellRow      // the first link with visible text in that row

  /** What the View locator does: click link `link` found by `strategy`, or report failure. */
  datatype ViewClick = ClickedView(strategy: ViewStrategy, link: nat) | NoViewControl

  /** `contains(., 'View') or contains(., 'VIEW')`. */
  predicate IsViewText(t: string) {
    Contains(t, "View") || Contains(t, "VIEW")
  }

  /** Link `k` is a View link inside a row whose text contains the serial (strategy 1). */
  function ViewLinkForSerial(page: ViewPage, serial: string): nat -> bool {
    (k: nat) =>
      && k < |page.links|
      && IsViewText(page.links[k].text)
      && page.links[k].row.Some? && page.links[k].row.value < |page.rows|
      && Contains(page.rows[page.links[k].row.value].text, serial)
  }

  /** Row `r` has a `td` whose text contains the serial. */
  function CellRowFor(page: ViewPage, serial: string): nat -> bool {
    (r: nat) => r < |page.rows| && exists c :: 0 <= c < |page.rows[r].cells| && Contains(page.rows[r].cells[c], serial)
  }

  /**
   * The row of `//td[contains(., '<serial>')]`: the row of the first cell holding the
   * serial. A serial with a single quote breaks the XPath literal, so the query fails.
   */
  function SerialCellRow(page: ViewPage, serial: string): Option<nat> {
    if '\'' in serial then None else FindFirst(CellRowFor(page, serial), 0, |page.rows|)
  }

  /** Link `k` is a View link in row `r`. */
  function ViewLinkInRow(page: ViewPage, r: nat): nat -> bool {
    (k: nat) => k < |page.links| && page.links[k].row == Some(r) && IsViewText(page.links[k].text)
  }

  /** Link `k` is in row `r` and has text once whitespace is stripped. */
  function NamedLinkInRow(page: ViewPage, r: nat): nat -> bool {
    (k: nat) => k < |page.links| && page.links[k].row == Some(r) && Strip(page.links[k].text) != []
  }

  /** Strategies 2 and 3 in the row found for the serial. */
  function CellRowTarget(page: ViewPage, r: nat): (c: ViewClick)
    ensures c.ClickedView? ==> c.link < |page.links| && page.links[c.link].row == Some(r) && c.strategy != ViewLinkInSerialRow
    ensures c.ClickedView? && c.strategy == ViewLinkInCellRow ==>
              IsViewText(page.links[c.link].text) && forall k: nat :: k < c.link ==> !ViewLinkInRow(page, r)(k)
    ensures c.ClickedView? && c.strategy == NamedLinkInCellRow ==>
              && Strip(page.links[c.link].text) != []
              && (forall k: nat :: k < |page.links| ==> !ViewLinkInRow(page, r)(k))
              && (forall k: nat :: k < c.link ==> !NamedLinkInRow(page, r)(k))
    ensures c == NoViewControl ==>
              forall k: nat :: k < |page.links| ==> !ViewLinkInRow(page, r)(k) && !NamedLinkInRow(page, r)(k)
  {
    match FindFirst(ViewLinkInRow(page, r), 0, |page.links|)
    case Some(k) => ClickedView(ViewLinkInCellRow, k)
    case None =>
      match FindFirst(NamedLinkInRow(page, r), 0, |page.links|)
      case Some(k) => ClickedView(NamedLinkInCellRow, k)
      case None => NoViewControl
  }

  /**
   * The link the View locator clicks. Every click is justified by its strategy, and a
   * later strategy is used only when the earlier ones found nothing.
   */
  function ViewTarget(page: ViewPage, serial: string): (r: ViewClick)
    ensures r.ClickedView? ==> r.link < |page.links|
    ensures r.ClickedView? && r.strategy == ViewLinkInSerialRow ==>
              ViewLinkForSerial(page, serial)(r.link) && forall k: nat :: k < r.link ==> !ViewLinkForSerial(page, serial)(k)
    ensures r.ClickedView? && r.strategy != ViewLinkInSerialRow ==>
              && (forall k: nat :: k < |page.links| ==> !ViewLinkForSerial(page, serial)(k))
              && SerialCellRow(page, serial).Some?
              && page.links[r.link].row == SerialCellRow(page, serial)
    ensures r.ClickedView? && r.strategy == ViewLinkInCellRow ==>
              IsViewText(page.links[r.link].text) &&
              forall k: nat :: k < r.link ==> !ViewLinkInRow(page, SerialCellRow(page, serial).value)(k)
    ensures r.ClickedView? && r.strategy == NamedLinkInCellRow ==>
              && Strip(page.links[r.link].text) != []
              && (forall k: nat :: k < |page.links| ==> !ViewLinkInRow(page, SerialCellRow(page, serial).value)(k))
              && (forall k: nat :: k < r.link ==> !NamedLinkInRow(page, SerialCellRow(page, serial).value)(k))
  {
    match FindFirst(ViewLinkForSerial(page, serial), 0, |page.links|)
    case Some(k) => ClickedView(ViewLinkInSerialRow, k)
    case None =>
      match SerialCellRow(page, serial)
      case None => NoViewControl
      case Some(r) => CellRowTarget(page, r)
  }

  /** Strategy 1's loop: the first View link, in document order, whose row mentions the serial. */
  method FirstViewLinkForSerial(page: ViewPage, serial: string) returns (found: Option<nat>)
    ensures found == FindFirst(ViewLinkForSerial(page, serial), 0, |page.links|)
  {
    var k := 0;
    while k < |page.links|
      invariant k <= |page.links|
      invariant forall j: nat :: j < k ==> !ViewLinkForSerial(page, serial)(j)
    {
      var link := page.links[k];
      if IsViewText(link.text) && link.row.Some? && link.row.value < |page.rows|
         && Contains(page.rows[link.row.value].text, serial) {
        FindFirstIs(ViewLinkForSerial(page, serial), 0, |page.links|, k);
        return Some(k);
      }
      k := k + 1;
    }
    return None;
  }

  /** Strategy 3's loop: the first link of row `r` whose text is not blank once stripped. */
  method FirstNamedLinkInRow(page: ViewPage, r: nat) returns (found: Option<nat>)
    ensures found == FindFirst(NamedLinkInRow(page, r), 0, |page.links|)
  {
    var k := 0;
    while k < |page.links|
      invariant k <= |page.links|
      invariant forall j: nat :: j < k ==> !NamedLinkInRow(page, r)(j)
    {
      var link := page.links[k];
      if link.row == Some(r) && Strip(link.text) != [] {
        FindFirstIs(NamedLinkInRow(page, r), 0, |page.links|, k);
        return Some(k);
      }
      k := k + 1;
    }
    return None;
  }

  /** `find_and_click_view_button`: the three strategies, tried in order. */
  method FindAndClickView(page: ViewPage, serial: string) returns (result: ViewClick)
    ensures result == ViewTarget(page, serial)
  {
    // Strategy 1: every View link of the page, in document order.
    var serialLink := FirstViewLinkForSerial(page, serial);
    if serialLink.Some? {
      return ClickedView(ViewLinkInSerialRow, serialLink.value);
    }
    var row := SerialCellRow(page, serial);
    if row.None? {
      return NoViewControl;
    }
    // Strategy 2: the first View link of the serial's row.
    var viewLinks := FindFirst(ViewLinkInRow(page, row.value), 0, |page.links|);
    if viewLinks.Some? {
      return ClickedView(ViewLinkInCellRow, viewLinks.value);
    }
    // Strategy 3: the first link of that row with visible text.
    var namedLink := FirstNamedLinkInRow(page, row.value);
    if namedLink.Some? {
      return ClickedView(NamedLinkInCellRow, namedLink.value);
    }
    return NoViewControl;
  }

  /** A View link always has visible text, so strategy 3 finds a link wherever strategy 2 does. */
  lemma ViewTextIsNamed(t: string)
    requires IsViewText(t)
    ensures Strip(t) != []
  {
    var w := if Contains(t, "View") then "View" else "VIEW";
    var i: nat :| i <= |t| && LiteralAt(t, i, w);
    assert t[i] == t[i..i + |w|][0] == w[0];
    assert !IsSpace(t[i]);
    StripRemovesOnlyEndSpaces(t);
  }

  /**
   * The View locator reports failure exactly when no View link sits in a row mentioning
   * the serial, and either no cell holds the serial (or the serial has a quote) or that
   * cell's row has no link with visible text.
   */
  lemma ViewNotFoundIff(page: ViewPage, serial: string)
    ensures ViewTarget(page, serial) == NoViewControl <==>
              && (forall k: nat :: k < |page.links| ==> !ViewLinkForSerial(page, serial)(k))
              && (SerialCellRow(page, serial).None? ||
                  forall k: nat :: k < |page.links| ==> !NamedLinkInRow(page, SerialCellRow(page, serial).value)(k))
  {
    var row := SerialCellRow(page, serial);
    if FindFirst(ViewLinkForSerial(page, serial), 0, |page.links|).None? && row.Some? {
      var r := row.value;
      if FindFirst(ViewLinkInRow(page, r), 0, |page.links|).Some? {
        var k := FindFirst(ViewLinkInRow(page, r), 0, |page.links|).value;
        ViewTextIsNamed(page.links[k].text);
        assert NamedLinkInRow(page, r)(k);
      }
    }
  }

  /** With a single quote in the serial, only the first strategy can find the control. */
  lemma QuotedSerialOnlyFirstStrategy(page: ViewPage, serial: string)
    requires '\'' in serial
    ensures ViewTarget(page, serial).ClickedView? ==> ViewTarget(page, serial).strategy == ViewLinkInSerialRow
  {
  }

  // ---------------------------------------------------------------- the Back locator

  /** The Back controls, by the XPath that finds them. */
  datatype BackControl =
    | BackLink          // //a[contains(., 'Back')]
    | BackButton        // //button[contains(., 'Back')]
    | BackInput         // //input[@value='Back']
    | HistoryBackLink   // //a[contains(@href, 'javascript:history.back()')]
    | OnclickBackLink   // //a[contains(@onclick, 'back')]

  /** The order in which the Back controls are tried. */
  const BACK_CONTROLS: seq<BackControl> := [BackLink, BackButton, BackInput, HistoryBackLink, OnclickBackLink]

  /** What the Back locator does: click a control, or use the browser's history. */
  datatype BackAction = ClickedBack(control: BackControl) | BrowserBack

  /** The first control of `controls` present on the page, else the browser's history. */
  function FirstBack(controls: seq<BackControl>, present: BackControl -> bool): (r: BackAction)
    ensures r.ClickedBack? ==> exists i :: 0 <= i < |controls| && controls[i] == r.control && present(controls[i])
                                            && forall j :: 0 <= j < i ==> !present(controls[j])
    ensures r.BrowserBack? <==> forall i :: 0 <= i < |controls| ==> !present(controls[i])
  {
    if controls == [] then BrowserBack
    else if present(controls[0]) then ClickedBack(controls[0])
    else
      var rest := FirstBack(controls[1..], present);
      assert forall i :: 1 <= i < |controls| ==> controls[i] == controls[1..][i - 1];
      rest
  }

  /** The action of the Back locator on a page where `present` tells which controls exist. */
  function BackTarget(present: BackControl -> bool): BackAction {
    FirstBack(BACK_CONTROLS, present)
  }

  /** `click_back_button`: the five selectors in order, then the browser's history; it always succeeds. */
  method ClickBack(present: BackControl -> bool) returns (action: BackAction, ok: bool)
    ensures action == BackTarget(present)
    ensures ok
  {
    var i := 0;
    while i < |BACK_CONTROLS|
      invariant i <= |BACK_CONTROLS|
      invariant FirstBack(BACK_CONTROLS, present) == FirstBack(BACK_CONTROLS[i..], present)
    {
      if present(BACK_CONTROLS[i]) {
        return ClickedBack(BACK_CONTROLS[i]), true;
      }
      assert BACK_CONTROLS[i..][1..] == BACK_CONTROLS[i + 1..];
      i := i + 1;
    }
    return BrowserBack, true;
  }

  /** A page with a "Back" link gets that link clicked, whatever else it has. */
  lemma BackLinkWins(present: BackControl -> bool)
    requires present(BackLink)
    ensures BackTarget(present) == ClickedBack(BackLink)
  {
  }

  /** The browser's history is used exactly when none of the five controls is present. */
  lemma BrowserBackIff(present: BackControl -> bool)
    ensures BackTarget(present) == BrowserBack <==>
              !present(BackLink) && !present(BackButton) && !present(BackInput)
              && !present(HistoryBackLink) && !present(OnclickBackLink)
  {
    assert forall i :: 0 <= i < |BACK_CONTROLS| ==>
             BACK_CONTROLS[i] in {BackLink, BackButton, BackInput, HistoryBackLink, OnclickBackLink};
    if !present(BackLink) && !present(BackButton) && !present(BackInput)
       && !present(HistoryBackLink) && !present(OnclickBackLink) {
      forall i | 0 <= i < |BACK_CONTROLS|
        ensures !present(BACK_CONTROLS[i])
      {
      }
    } else {
      assert BACK_CONTROLS[0] == BackLink && BACK_CONTROLS[1] == BackButton && BACK_CONTROLS[2] == BackInput
             && BACK_CONTROLS[3] == HistoryBackLink && BACK_CONTROLS[4] == OnclickBackLink;
    }
  }
}
