/** The control flow of `scrapeTable` (scraper.js:84-178): the search for
    the Holdings tab, the wait for the table, the pagination loop that
    accumulates every page's records, and the validity filter applied once
    at the end. The browser is abstracted as what the loop observes. */
module Pagination {
  import opened RowExtractor
  import opened RowValidator

  /** What the loop observes on one page of the holdings table: the rows it
      extracts, and whether the Next page button is absent or disabled. */
  datatype Page = Page(rows: seq<Row>, nextDisabled: bool)

  /** The site as the scraper meets it: whether any tab control appears
      before the tab wait times out, the trimmed texts of the tabs, whether a
      table row appears before the table wait times out, and the pages the
      pagination loop reads one after another. */
  datatype Site = Site(tabsAppear: bool, tabTexts: seq<string>, tableAppears: bool, pages: seq<Page>)

  /** The two bounded waits whose timeout ends the run. */
  datatype Failure = TabWaitTimeout | TableLoadTimeout

  /** How a run ends: with the filtered records, or with the condition that
      was thrown; either way, whether the browser was closed before the run
      returned or threw. */
  datatype Outcome =
    | Scraped(holdings: seq<Record>, browserClosed: bool)
    | Failed(error: Failure, browserClosed: bool)

  /** The label of the tab to click. */
  const HoldingsLabel := "Holdings"

  /** The loop leaves at a page that adds no rows or that has no enabled
      Next page button. */
  predicate Stops(p: Page)
  {
    |p.rows| == 0 || p.nextDisabled
  }

  /** Some page of the sequence ends the loop. */
  predicate HasStop(pages: seq<Page>)
  {
    exists k :: 0 <= k < |pages| && Stops(pages[k])
  }

  /** The index of the page at which the loop leaves: the first one that
      stops it. */
  function LastPage(pages: seq<Page>): (n: nat)
    requires HasStop(pages)
    ensures n < |pages| && Stops(pages[n])
    ensures forall j :: 0 <= j < n ==> !Stops(pages[j])
  {
    if Stops(pages[0]) then 0
    else
      var k :| 0 <= k < |pages| && Stops(pages[k]);
      assert Stops(pages[1..][k - 1]);
      1 + LastPage(pages[1..])
  }

  /** The records of the first `k` pages, page after page, in row order. */
  function Accumulated(pages: seq<Page>, k: nat): seq<Record>
    requires k <= |pages|
  {
    if k == 0 then [] else Accumulated(pages, k - 1) + ExtractTable(pages[k - 1].rows)
  }

  /** The accumulated result only grows: what the first `i` pages gave is a
      prefix of what the first `j` pages give. */
  lemma {:induction false} AccumulatedGrows(pages: seq<Page>, i: nat, j: nat)
    requires i <= j <= |pages|
    ensures Accumulated(pages, i) <= Accumulated(pages, j)
  {
    if i < j {
      AccumulatedGrows(pages, i, j - 1);
    }
  }

  /** The stall test compares the accumulated count after a page with the
      count before it, so it fires exactly when that page has no rows; a
      page of the same size as an earlier page does not trigger it. */
  lemma StallIffEmptyPage(pages: seq<Page>, k: nat)
    requires k < |pages|
    ensures |Accumulated(pages, k + 1)| == |Accumulated(pages, k)| <==> |pages[k].rows| == 0
  {
  }

  /** A page read after Next that repeats the previous page row for row (a
      Next click that did not load new data) is not taken for a stall: its
      records are accumulated a second time, and the loop goes on past it
      unless its own Next button is absent or disabled. */
  lemma RepeatedPageIsAppended(pages: seq<Page>, k: nat)
    requires HasStop(pages) && k < LastPage(pages) && pages[k + 1].rows == pages[k].rows
    ensures !pages[k + 1].nextDisabled ==> k + 1 < LastPage(pages)
    ensures Accumulated(pages, k) + ExtractTable(pages[k].rows) + ExtractTable(pages[k].rows)
              <= Accumulated(pages, LastPage(pages) + 1)
  {
    AccumulatedGrows(pages, k + 2, LastPage(pages) + 1);
  }

  /** The `for` loop over the tabs: clicks the first tab whose text is
      exactly "Holdings" and stops there. No matching tab is not an error:
      nothing is clicked and the run goes on. */
  method FindHoldingsTab(tabTexts: seq<string>) returns (clicked: Option<nat>)
    ensures clicked.Some? ==> clicked.value < |tabTexts| && tabTexts[clicked.value] == HoldingsLabel
    ensures clicked.Some? ==> forall j :: 0 <= j < clicked.value ==> tabTexts[j] != HoldingsLabel
    ensures clicked.None? <==> forall j :: 0 <= j < |tabTexts| ==> tabTexts[j] != HoldingsLabel
  {
    clicked := None;
    for i := 0 to |tabTexts|
      invariant clicked.None?
      invariant forall j :: 0 <= j < i ==> tabTexts[j] != HoldingsLabel
    {
      if tabTexts[i] == HoldingsLabel {
        clicked := Some(i);
        break;
      }
    }
  }

  /** The `while (true)` loop: extracts each page, appends its records, and
      leaves when the accumulated count did not grow or when the Next page
      button is absent or disabled; otherwise clicks Next and counts one
      more page. Returns the unfiltered accumulated records, the final page
      number, and whether it was the no-new-data test that ended the loop. */
  method Paginate(pages: seq<Page>) returns (allData: seq<Record>, pageNumber: nat, stalled: bool)
    requires HasStop(pages)
    ensures pageNumber == LastPage(pages) + 1 <= |pages|
    ensures allData == Accumulated(pages, pageNumber)
    ensures stalled <==> |pages[pageNumber - 1].rows| == 0
  {
    ghost var last := LastPage(pages);
    allData := [];
    pageNumber := 1;
    var previousRowCount := 0;
    while true
      invariant 1 <= pageNumber <= last + 1
      invariant allData == Accumulated(pages, pageNumber - 1)
      invariant previousRowCount == |allData|
      decreases last + 1 - pageNumber
    {
      var page := pages[pageNumber - 1];
      var pageData := ExtractTable(page.rows);
      allData := allData + pageData;
      if |allData| == previousRowCount {
        stalled := true;
        break;
      }
      previousRowCount := |allData|;
      if page.nextDisabled {
        stalled := false;
        break;
      }
      pageNumber := pageNumber + 1;
    }
  }

  /** `scrapeTable`: a tab-wait timeout closes the browser and is rethrown;
      otherwise the Holdings tab, if any, is clicked; a table-wait timeout
      is thrown with the browser left open; otherwise the pagination loop
      runs, the browser is closed, and the valid records of everything it
      accumulated are returned.
      The loop must meet a stopping page for the run to end. */
  method ScrapeTable(site: Site) returns (outcome: Outcome, clicked: Option<nat>)
    requires site.tabsAppear && site.tableAppears ==> HasStop(site.pages)
    ensures !site.tabsAppear ==> outcome == Failed(TabWaitTimeout, true) && clicked == None
    ensures site.tabsAppear && clicked.Some? ==>
              clicked.value < |site.tabTexts| && site.tabTexts[clicked.value] == HoldingsLabel
              && forall j :: 0 <= j < clicked.value ==> site.tabTexts[j] != HoldingsLabel
    ensures site.tabsAppear && clicked.None? ==>
              forall j :: 0 <= j < |site.tabTexts| ==> site.tabTexts[j] != HoldingsLabel
    ensures site.tabsAppear && !site.tableAppears ==> outcome == Failed(TableLoadTimeout, false)
    ensures site.tabsAppear && site.tableAppears ==>
              outcome == Scraped(FilterValid(Accumulated(site.pages, LastPage(site.pages) + 1)), true)
  {
    if !site.tabsAppear {
      return Failed(TabWaitTimeout, true), None;
    }
    clicked := FindHoldingsTab(site.tabTexts);
    if !site.tableAppears {
      return Failed(TableLoadTimeout, false), clicked;
    }
    var allData, pageNumber, stalled := Paginate(site.pages);
    outcome := Scraped(FilterValid(allData), true);
  }
}
