# Holdings scraper: a Dafny model

This project models `scraper.js`, a scraper for a fund manager's holdings page. The script opens the page and clicks its "Holdings" tab. It then reads the holdings table page after page and turns each table row into a 20-field record. Finally it keeps only the rows that look like real holdings. The browser is abstracted away. What stays is the logic that decides the result:

- `RowExtractor.dfy` (pure): how one table row becomes a record. Each field comes from the cell at a fixed index, and a missing cell gives `""`. The `stock` field becomes the composite `TICKER "Name"` when the first cell has a non-empty hover title. One record is made per row, in row order.
- `RowValidator.dfy` (pure): `isValidStockRow` and the filter that applies it. It takes the text of `stock` before the first space, checks it against `/^[A-Z.]+$/` as an explicit character class, and requires non-empty `sector` and `sharesHeld` fields.
- `Pagination.dfy` (imperative): `scrapeTable`'s control flow.
  - The tab search is a `for` loop that clicks the first tab labelled exactly `Holdings`, then breaks.
  - The pagination `while (true)` loop updates `allData`, `previousRowCount` and `pageNumber` and has two `break`s.
  - The filter runs once, after the loop.

  The browser is given as a `Site`: whether the tab and table waits succeed, the tab texts, and a finite sequence of `Page` observations. Each `Page` holds the rows extracted from it and whether the Next page button is absent or disabled.

The central loop invariant is `previousRowCount == |allData|` at the loop head. It means the "no new data" test fires exactly when the current page has no rows. The test does not fire when a page merely has as many rows as an earlier page. It also does not catch a Next click that reloads the same rows: at any page, a repeat of the previous page's rows is appended again, and the loop goes on past it unless that page's Next button is absent or disabled (`RepeatedPageIsAppended`).

On two points a reader might expect otherwise, the model follows the code:
- The browser is closed only when something in the tab-search `try` throws (modelled: the tab wait times out) and after a successful run. A table-wait timeout leaves it open. Both `Outcome` variants record whether the browser was closed.
- Comparing cumulative counts does not under-collect a final page that is exactly full. The invariant above shows that such a page is still read.

## Model

| member | source | states |
|---|---|---|
| RowExtractor.StockField | scraper.js:48-53 | `stock` is "" when there is no first cell. The ticker text is always a prefix of it. It equals the bare ticker exactly when there is no non-empty hover title. With a title, a space follows the ticker. |
| RowExtractor.StockFieldComposite | scraper.js:51-53 | With a non-empty hover title, `stock` is exactly the composite `TICKER "Name"`: the ticker text, a space, a double quote, the hover name, and a closing double quote, and nothing else. |
| RowExtractor.CompositeTickerExamples | scraper.js:48-53 | `AAPL` with title `Apple Inc.` gives `AAPL "Apple Inc."`. No title, or an empty one, gives `AAPL`. A row with no cells gives "". |
| RowExtractor.ExtractRow | scraper.js:55-76 | `Fields` lists a record's 20 fields in the source's key order, which is also the CSV header order. Field 0 of the extracted record is the stock field. Each field k from 1 to 19 is the text of cell k, or "" when the row has fewer than k+1 cells, so short rows never fail. |
| RowExtractor.FullRowRoundTrip | scraper.js:55-76 | A 20-cell row without a hover title is read back as exactly its cells, in column order. |
| RowExtractor.ExtractTable | scraper.js:44-47 | One record per table row, in row order. |
| RowValidator.FirstToken | scraper.js:169 | `split(" ")[0]`: the result is a prefix of the input with no space, followed by a space or by the end of the input. |
| RowValidator.FirstTokenUnique | scraper.js:169 | Those three properties determine the first token uniquely. |
| RowValidator.ValidIffLeadsWithTicker | scraper.js:168-169 | The contract of `IsValidStockRow`, the model of `isValidStockRow`. A record is kept if and only if its stock field opens with a non-empty run of `A`–`Z`/`.` that ends at a space or at the end of the field, and its sector and sharesHeld are non-empty. |
| RowValidator.KeepsPlainTicker | scraper.js:168-169 | A row with ticker `AAPL`, sector `Technology` and sharesHeld `1000` is kept. |
| RowValidator.DropsCompanyName | scraper.js:168-169 | A row whose first cell is `Apple Inc` is dropped: `Apple` contains lower-case letters. |
| RowValidator.DropsEmptySector | scraper.js:168-169 | A row with ticker `BRK.B` and an empty sector is dropped. |
| RowValidator.ExtractedRowValidity | scraper.js:168-169 | The hover title never changes the verdict. An extracted row is kept if and only if it has at least 4 cells, the first token of its first cell matches the ticker pattern, and cells 2 and 3 are non-empty. |
| RowValidator.FilterValid | scraper.js:170 | Every record the filter keeps is valid. |
| RowValidator.FilterCounts | scraper.js:170 | Each valid record is kept exactly as many times as it occurs in the input, and every invalid record is dropped. |
| RowValidator.FilterIsSubsequence | scraper.js:170 | The filter keeps the input's order. Its result is a subsequence of the input. |
| RowValidator.FilterAppend | scraper.js:170 | Filtering the concatenation of two runs equals concatenating their filtered results, so filtering once at the end keeps the same records as filtering each page. |
| RowValidator.FilterIdempotent | scraper.js:170 | Filtering twice gives the same result as filtering once. |
| Pagination.LastPage | scraper.js:139-156 | The loop ends at the first page that has no rows or no enabled Next button, and at no earlier page. |
| Pagination.AccumulatedGrows | scraper.js:136 | `allData` only grows: the records of the first i pages are a prefix of those of the first j pages, for i <= j. |
| Pagination.StallIffEmptyPage | scraper.js:136-143 | The cumulative count is unchanged by a page if and only if that page has no rows. |
| Pagination.RepeatedPageIsAppended | scraper.js:136-156 | For any page k the loop advances past, a page k+1 with the same rows is not treated as a stall. The records of the first k pages are followed by page k's records twice in the result. When page k+1 has an enabled Next button, the loop goes on past it. |
| Pagination.FindHoldingsTab | scraper.js:105-113 | At most one tab is clicked: the first whose text is exactly `Holdings`. Nothing is clicked if and only if no tab has that text. |
| Pagination.Paginate | scraper.js:125-163 | The loop stops at the first stopping page, and that page number is at most the number of pages. `allData` is the records of the pages read, in order. `pageNumber` rises by one per advance. The no-new-data break fires exactly when the last page read has no rows. |
| Pagination.ScrapeTable | scraper.js:84-178 | A tab-wait timeout fails with the browser closed. A table-wait timeout fails with the browser left open. Otherwise the browser is closed and the result is the valid records among everything the loop accumulated, filtered once after the loop. |

## Left out

- All browser calls (`launch`, `newPage`, `setUserAgent`, `goto`, `waitForSelector`, `$$`, `evaluate`, `click`, `scrollTo`) and the SOCKS proxy argument are foreign I/O. Their observable results are the fields of `Site` and `Page`.
- `getRandomUserAgent`, `randomDelay` and `scrollToBottom` (scraper.js:9-37) affect only identity and timing. They use `Math.random` and timers and do not change the records.
- `writeToCSV` (scraper.js:183-192) is a wrapper over a CSV library. On an empty array `data[0]` is `undefined`, so `Object.keys(undefined)` (scraper.js:187) throws a TypeError that `main` catches (scraper.js:205-207). No typed error is signalled. `Fields` gives the column order its header would use.
- `main` (scraper.js:197-208) and all console logging.
- The `innerText`/`textContent` whitespace trimming: cell and tab texts are taken as already trimmed strings.
- Exceptions thrown by `evaluate` or `click` are not modelled. Inside the tab-search `try` they would close the browser and be rethrown. Inside the loop they would leave the browser open. Only the two wait timeouts are modelled.
- Pagination.Paginate: requires that the page sequence contains a stopping page. On a site whose pages never run empty and whose Next button never disables, the source loops forever. A terminating model cannot express that run.
- Pagination.ScrapeTable: the table wait is an independent input (`tableAppears`). The model does not tie it to the rows of the first page, because that wait and the first extraction happen at different times.
