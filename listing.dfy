/**
 * The rows of one listing page (app.py, `extract_cases_from_soup`). The parsed page is
 * given as its first table, each row as the texts of its cells and the text of the
 * whole row, and the text of its first `h1`/`h2`/`h3` heading.
 */
module Listing {
  import opened Wrappers
  import opened Text
  import opened Seqs
  import opened ClassPatterns
  import opened HearingDates

  /** One `tr`: the text of each `td`/`th` cell and the text of the whole row. */
  datatype TableRow = TableRow(cells: seq<string>, text: string)

  /** What the scraper reads of a listing page: its first table, and its first heading. */
  datatype ListingPage = ListingPage(table: Option<seq<TableRow>>, heading: Option<string>)

  /** One case of the listing. */
  datatype ListingRow = ListingRow(serial: string, cols: seq<string>, courtName: string,
                                   nextHearingDate: Option<Date>)

  /** The court name used when the page has no heading. */
  const UNKNOWN_COURT: string := "Unknown Court"

  /** The court the page lists. */
  function CourtName(page: ListingPage): string {
    if page.heading.Some? then page.heading.value else UNKNOWN_COURT
  }

  /** The rows below the header row; none when the page has no table. */
  function BodyRows(page: ListingPage): seq<TableRow> {
    if page.table.None? || page.table.value == [] then [] else page.table.value[1..]
  }

  /** A row contributes a case only when it has at least one cell. */
  predicate HasCells(row: TableRow) { row.cells != [] }

  /** The case one row describes. */
  function RowCase(row: TableRow, courtName: string, parse: string -> Option<Date>): ListingRow {
    var serial := if row.cells != [] then row.cells[0] else "";
    ListingRow(Strip(serial), row.cells, courtName, HearingDate(row.text, parse))
  }

  /**
   * The cases of a page: one per body row that has cells, in table order, each with the
   * page's court name and a serial number that is its first cell without surrounding
   * whitespace.
   */
  function Cases(page: ListingPage, parse: string -> Option<Date>): (r: seq<ListingRow>)
    ensures page.table.None? ==> r == []
    ensures |r| <= |BodyRows(page)|
    ensures forall j :: 0 <= j < |r| ==> r[j].cols != [] && r[j].courtName == CourtName(page) && r[j].serial == Strip(r[j].cols[0])
  {
    var toCase := (row: TableRow) => RowCase(row, CourtName(page), parse);
    FilterMapIsMapFilter(BodyRows(page), HasCells, toCase);
    var kept := Filter(BodyRows(page), HasCells);
    FilterKeeps(BodyRows(page), HasCells);
    assert forall j :: 0 <= j < |kept| ==> HasCells(kept[j]) by {
      forall j | 0 <= j < |kept| ensures HasCells(kept[j]) { assert kept[j] in kept; }
    }
    FilterMap(BodyRows(page), HasCells, toCase)
  }

  /** `extract_cases_from_soup`: the loop over the body rows that appends one case per row. */
  method ExtractCases(page: ListingPage, parse: string -> Option<Date>) returns (cases: seq<ListingRow>)
    ensures cases == Cases(page, parse)
  {
    cases := [];
    if page.table.None? {
      return;
    }
    var rows := page.table.value;
    var courtName := if page.heading.Some? then page.heading.value else UNKNOWN_COURT;
    if rows == [] {
      return;
    }
    var body := rows[1..];
    ghost var toCase := (row: TableRow) => RowCase(row, courtName, parse);
    var i := 0;
    while i < |body|
      invariant 0 <= i <= |body|
      invariant cases == FilterMap(body[..i], HasCells, toCase)
    {
      var tr := body[i];
      assert body[..i + 1][..i] == body[..i];
      if tr.cells != [] {
        var serial := tr.cells[0];
        var nextHearingDate := HearingDate(tr.text, parse);
        cases := cases + [ListingRow(Strip(serial), tr.cells, courtName, nextHearingDate)];
      }
      i := i + 1;
    }
    assert body[..i] == body;
  }

  /**
   * The cases correspond, in order and one for one, to exactly the body rows that have
   * cells: the header row and cell-less rows are skipped and no other row is.
   */
  lemma CasesSelectRows(page: ListingPage, parse: string -> Option<Date>) returns (idx: seq<nat>)
    ensures Selects(BodyRows(page), idx, HasCells)
    ensures |idx| == |Cases(page, parse)|
    ensures forall j :: 0 <= j < |idx| ==>
              Cases(page, parse)[j] == RowCase(BodyRows(page)[idx[j]], CourtName(page), parse)
  {
    idx := FilterSelects(BodyRows(page), HasCells);
    FilterMapIsMapFilter(BodyRows(page), HasCells, (row: TableRow) => RowCase(row, CourtName(page), parse));
  }

  /**
   * A case with a hearing date comes from a row that mentions "Next" (in any case) and
   * holds a date token that the parser turned into that date.
   */
  lemma DatedCaseMentionsNext(page: ListingPage, parse: string -> Option<Date>, j: nat)
    requires j < |Cases(page, parse)| && Cases(page, parse)[j].nextHearingDate.Some?
    ensures exists k :: 0 <= k < |BodyRows(page)| && BodyRows(page)[k].cells == Cases(page, parse)[j].cols
                        && ContainsCI(BodyRows(page)[k].text, NEXT)
                        && (exists t :: Contains(BodyRows(page)[k].text, t) && IsAltMatch(t, DATE_TOKEN)
                                        && parse(t) == Cases(page, parse)[j].nextHearingDate)
  {
    var idx := CasesSelectRows(page, parse);
    var row := BodyRows(page)[idx[j]];
    HearingDateNeedsNext(row.text, parse);
    var t := HearingDateFromToken(row.text, parse);
  }
}
