/** The per-row callback of the holdings-table extractor (scraper.js:46-76):
    a table row, given as the trimmed texts of its cells plus the hover
    title of its first cell, becomes one fixed 20-field holding record. */
module RowExtractor {

  datatype Option<+T> = None | Some(value: T)

  /** A table row as the extractor reads it: the trimmed inner text of each
      `td`, in column order, and the `title` attribute of the first titled
      link inside the first cell, when there is such a link. */
  datatype Row = Row(cells: seq<string>, title: Option<string>)

  /** One holding, its fields in the table's column order. */
  datatype Record = Record(
    stock: string,
    history: string,
    sector: string,
    sharesHeld: string,
    marketValue: string,
    percentPortfolio: string,
    previousPercentPortfolio: string,
    rank: string,
    changeInShares: string,
    percentChange: string,
    percentOwnership: string,
    qtrFirstOwned: string,
    estAvgPrice: string,
    qtrEndPrice: string,
    price1D: string,
    perfMTD: string,
    perfYTD: string,
    source: string,
    sourceDate: string,
    dateReported: string)

  /** The number of columns a record has. */
  const ColumnCount: nat := 20

  /** The fields of a record, in column order (the order of the keys the
      CSV header is later built from). */
  function Fields(r: Record): (f: seq<string>)
    ensures |f| == ColumnCount
  {
    [r.stock, r.history, r.sector, r.sharesHeld, r.marketValue,
     r.percentPortfolio, r.previousPercentPortfolio, r.rank,
     r.changeInShares, r.percentChange, r.percentOwnership, r.qtrFirstOwned,
     r.estAvgPrice, r.qtrEndPrice, r.price1D, r.perfMTD, r.perfYTD,
     r.source, r.sourceDate, r.dateReported]
  }

  /** The text of cell `k`, or "" when the row has no cell `k`. */
  function CellAt(cells: seq<string>, k: nat): string
  {
    if k < |cells| then cells[k] else ""
  }

  /** The hover name of a row: the first cell's link title, or "" when the
      row has no first cell or that cell has no titled link. */
  function HoverName(row: Row): string
  {
    if |row.cells| > 0 && row.title.Some? then row.title.value else ""
  }

  /** The `stock` field: the ticker text of the first cell, followed by a
      space and the quoted hover name when that name is non-empty. */
  function StockField(row: Row): (stock: string)
    ensures |row.cells| == 0 ==> stock == ""
    ensures CellAt(row.cells, 0) <= stock
    ensures stock == CellAt(row.cells, 0) <==> HoverName(row) == ""
    ensures HoverName(row) != "" ==> stock[|CellAt(row.cells, 0)|] == ' '
  {
    var ticker := CellAt(row.cells, 0);
    var name := HoverName(row);
    if name != "" then ticker + " \"" + name + "\"" else ticker
  }

  /** With a hover name, the stock field is the composite `TICKER "Name"`:
      the ticker text, a space, and the name in double quotes, nothing else. */
  lemma StockFieldComposite(row: Row)
    requires HoverName(row) != ""
    ensures var stock, n := StockField(row), |CellAt(row.cells, 0)|;
            && |stock| == n + |HoverName(row)| + 3
            && stock[..n] == CellAt(row.cells, 0)
            && stock[n] == ' ' && stock[n + 1] == '"'
            && stock[n + 2 .. |stock| - 1] == HoverName(row)
            && stock[|stock| - 1] == '"'
  {
    var ticker, name := CellAt(row.cells, 0), HoverName(row);
    var stock := StockField(row);
    assert stock == ticker + " \"" + name + "\"";
    assert stock[|ticker| + 2 .. |stock| - 1] == name;
  }

  /** Builds the record of one table row. A short row is never an error:
      each missing cell gives an empty field; cells past the 20th are
      ignored. */
  function ExtractRow(row: Row): (r: Record)
    ensures Fields(r)[0] == StockField(row)
    ensures forall k :: 1 <= k < ColumnCount ==> Fields(r)[k] == CellAt(row.cells, k)
  {
    var c := row.cells;
    Record(
      StockField(row),
      CellAt(c, 1), CellAt(c, 2), CellAt(c, 3), CellAt(c, 4), CellAt(c, 5),
      CellAt(c, 6), CellAt(c, 7), CellAt(c, 8), CellAt(c, 9), CellAt(c, 10),
      CellAt(c, 11), CellAt(c, 12), CellAt(c, 13), CellAt(c, 14), CellAt(c, 15),
      CellAt(c, 16), CellAt(c, 17), CellAt(c, 18), CellAt(c, 19))
  }

  /** A full row without a hover name is read back field for field. */
  lemma FullRowRoundTrip(row: Row)
    requires |row.cells| == ColumnCount && HoverName(row) == ""
    ensures Fields(ExtractRow(row)) == row.cells
  {
    var f := Fields(ExtractRow(row));
    forall k | 0 <= k < ColumnCount
      ensures f[k] == row.cells[k]
    {
    }
  }

  /** Builds one record per table row, in row order. */
  function ExtractTable(rows: seq<Row>): (records: seq<Record>)
    ensures |records| == |rows|
    ensures forall i :: 0 <= i < |rows| ==> records[i] == ExtractRow(rows[i])
  {
    seq(|rows|, i requires 0 <= i < |rows| => ExtractRow(rows[i]))
  }

  /** The composite ticker, on the rows the extractor is documented with. */
  lemma CompositeTickerExamples()
    ensures StockField(Row(["AAPL"], Some("Apple Inc."))) == "AAPL \"Apple Inc.\""
    ensures StockField(Row(["AAPL"], None)) == "AAPL"
    ensures StockField(Row(["AAPL"], Some(""))) == "AAPL"
    ensures StockField(Row([], Some("Apple Inc."))) == ""
  {
  }
}
