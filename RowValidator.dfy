/** The row validator and the filter that applies it (scraper.js:168-170):
    a record is kept when the text of its `stock` field before the first
    space matches /^[A-Z.]+$/ and its sector and shares-held fields are
    non-empty. */
module RowValidator {
  import opened RowExtractor

  /** The character class [A-Z.] of the ticker pattern. */
  predicate IsTickerChar(c: char)
  {
    'A' <= c <= 'Z' || c == '.'
  }

  /** The pattern /^[A-Z.]+$/: one or more ticker characters and nothing else. */
  predicate MatchesTickerPattern(token: string)
  {
    |token| > 0 && forall i :: 0 <= i < |token| ==> IsTickerChar(token[i])
  }

  /** `s.split(" ")[0]`: the text of `s` before its first space, or all of
      `s` when it has no space. */
  function FirstToken(s: string): (token: string)
    ensures token <= s
    ensures ' ' !in token
    ensures |token| < |s| ==> s[|token|] == ' '
  {
    if s == [] || s[0] == ' ' then [] else [s[0]] + FirstToken(s[1..])
  }

  /** The three properties FirstToken promises single out its result. */
  lemma FirstTokenUnique(s: string, t: string)
    requires t <= s && ' ' !in t
    requires |t| < |s| ==> s[|t|] == ' '
    ensures FirstToken(s) == t
  {
  }

  /** isValidStockRow: the leading token of `stock` is a ticker, and
      `sector` and `sharesHeld` are non-empty. */
  predicate IsValidStockRow(r: Record)
  {
    MatchesTickerPattern(FirstToken(r.stock)) && r.sector != "" && r.sharesHeld != ""
  }

  /** `s` opens with a non-empty run of ticker characters that ends at a
      space or at the end of `s`. */
  ghost predicate LeadsWithTicker(s: string)
  {
    exists k :: 0 < k <= |s| && (k == |s| || s[k] == ' ') && MatchesTickerPattern(s[..k])
  }

  /** The validator, restated without FirstToken: a record is kept exactly
      when its stock field opens with a ticker ended by a space or by the
      end of the field, and sector and shares held are both non-empty. */
  lemma ValidIffLeadsWithTicker(r: Record)
    ensures IsValidStockRow(r) <==> LeadsWithTicker(r.stock) && r.sector != "" && r.sharesHeld != ""
  {
  }

  /** The validator keeps a plain ticker with a sector and a share count. */
  lemma KeepsPlainTicker()
    ensures IsValidStockRow(ExtractRow(Row(["AAPL", "", "Technology", "1000"], None)))
  {
    ExtractedRowValidity(Row(["AAPL", "", "Technology", "1000"], None));
    FirstTokenUnique("AAPL", "AAPL");
  }

  /** The validator drops a company name in place of a ticker. */
  lemma DropsCompanyName()
    ensures !IsValidStockRow(ExtractRow(Row(["Apple Inc", "", "Technology", "1000"], None)))
  {
    ExtractedRowValidity(Row(["Apple Inc", "", "Technology", "1000"], None));
    FirstTokenUnique("Apple Inc", "Apple");
    assert !IsTickerChar("Apple"[1]);
  }

  /** The validator drops a ticker whose sector is empty. */
  lemma DropsEmptySector()
    ensures !IsValidStockRow(ExtractRow(Row(["BRK.B", "", "", "1000"], None)))
  {
    ExtractedRowValidity(Row(["BRK.B", "", "", "1000"], None));
  }

  /** The hover name never changes the verdict: it is joined to the ticker
      by a space, so the leading token is that of the ticker cell alone. An
      extracted record is kept exactly when the row has at least four cells,
      its ticker cell opens with a ticker, and its sector and shares-held
      cells are non-empty. */
  lemma ExtractedRowValidity(row: Row)
    ensures FirstToken(ExtractRow(row).stock) == FirstToken(CellAt(row.cells, 0))
    ensures IsValidStockRow(ExtractRow(row)) <==>
              |row.cells| >= 4 && MatchesTickerPattern(FirstToken(row.cells[0]))
              && row.cells[2] != "" && row.cells[3] != ""
  {
    if HoverName(row) != "" {
      StockFieldComposite(row);
      var stock, ticker := ExtractRow(row).stock, CellAt(row.cells, 0);
      var t := FirstToken(ticker);
      if |t| < |ticker| {
        assert stock[|t|] == ticker[|t|];
      }
      FirstTokenUnique(stock, t);
    }
  }

  /** `a` is `b` with some elements left out, the rest kept in order. */
  ghost predicate IsSubsequence<T>(a: seq<T>, b: seq<T>)
    decreases |b|
  {
    a == [] || (b != [] && ((a[0] == b[0] && IsSubsequence(a[1..], b[1..])) || IsSubsequence(a, b[1..])))
  }

  /** `allData.filter(isValidStockRow)`: the valid records, in their order. */
  function FilterValid(rows: seq<Record>): (kept: seq<Record>)
    ensures forall i :: 0 <= i < |kept| ==> IsValidStockRow(kept[i])
  {
    if rows == [] then []
    else (if IsValidStockRow(rows[0]) then [rows[0]] else []) + FilterValid(rows[1..])
  }

  /** The filter keeps each valid record as often as it occurs and drops
      every other record. */
  lemma {:induction false} FilterCounts(rows: seq<Record>)
    ensures forall x :: multiset(FilterValid(rows))[x] == if IsValidStockRow(x) then multiset(rows)[x] else 0
  {
    if rows != [] {
      FilterCounts(rows[1..]);
      assert rows == [rows[0]] + rows[1..];
      assert multiset(rows) == multiset{rows[0]} + multiset(rows[1..]);
    }
  }

  /** The filter keeps the order of the records it keeps. */
  lemma {:induction false} FilterIsSubsequence(rows: seq<Record>)
    ensures IsSubsequence(FilterValid(rows), rows)
  {
    if rows != [] {
      FilterIsSubsequence(rows[1..]);
      var rest := FilterValid(rows[1..]);
      if IsValidStockRow(rows[0]) {
        assert FilterValid(rows)[1..] == rest;
      } else {
        assert FilterValid(rows) == rest;
      }
    }
  }

  /** Filtering the whole accumulated result once gives what filtering each
      page's records on its own and joining them would give. */
  lemma {:induction false} FilterAppend(a: seq<Record>, b: seq<Record>)
    ensures FilterValid(a + b) == FilterValid(a) + FilterValid(b)
  {
    if a == [] {
      assert a + b == b;
    } else {
      assert (a + b)[1..] == a[1..] + b;
      FilterAppend(a[1..], b);
    }
  }

  /** Filtering twice keeps what filtering once keeps. */
  lemma {:induction false} FilterIdempotent(rows: seq<Record>)
    ensures FilterValid(FilterValid(rows)) == FilterValid(rows)
  {
    if rows != [] {
      FilterIdempotent(rows[1..]);
      var head := if IsValidStockRow(rows[0]) then [rows[0]] else [];
      FilterAppend(head, FilterValid(rows[1..]));
    }
  }
}
