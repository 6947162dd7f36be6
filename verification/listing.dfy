/** The coupon listing scrape, with HTML parsing abstracted away: a table
    body is a sequence of rows, a row a sequence of cells, and a cell the
    sequence of the (already stripped) texts of its bold elements. */
module Listing {

  datatype Cell = Cell(bolds: seq<string>)
  datatype Row = Row(cells: seq<Cell>)

  /** What fetching and parsing the listing page produced. */
  datatype Page =
    | Unreachable            // network error, timeout or non-2xx status
    | NoTable                // no `table-dark` table on the page
    | NoBody                 // the table has no `tbody` (the lookup raises)
    | Table(rows: seq<Row>)  // the rows of the table body

  /** A row lists an active code: it has a first cell, and that cell has
      exactly one bold element (ads have none, expired codes several). */
  predicate Active(row: Row)
  {
    |row.cells| >= 1 && |row.cells[0].bolds| == 1
  }

  /** The code an active row lists. */
  function CodeOf(row: Row): string
    requires Active(row)
  {
    row.cells[0].bolds[0]
  }

  /** What one row contributes to the listing. */
  function RowCodes(row: Row): seq<string>
  {
    if Active(row) then [CodeOf(row)] else []
  }

  /** The codes of the active rows, in row order. */
  function ActiveCodes(rows: seq<Row>): (codes: seq<string>)
    ensures |codes| <= |rows|
    decreases |rows|
  {
    if |rows| == 0 then [] else RowCodes(rows[0]) + ActiveCodes(rows[1..])
  }

  /** `get_available_coupons`: every failure gives the empty listing. */
  function AvailableCoupons(page: Page): (codes: seq<string>)
    ensures !page.Table? ==> codes == []
    ensures page.Table? ==> |codes| <= |page.rows|
  {
    match page
    case Table(rows) => ActiveCodes(rows)
    case _ => []
  }

  /** A single row yields exactly one code, its bold text, iff it is active,
      and nothing otherwise. */
  lemma SingleRow(row: Row)
    ensures |ActiveCodes([row])| == 1 <==> Active(row)
    ensures Active(row) ==> ActiveCodes([row]) == [row.cells[0].bolds[0]]
    ensures !Active(row) ==> ActiveCodes([row]) == []
  {
  }

  /** The filter distributes over concatenation of row sequences: the output
      keeps row order and rows do not influence one another. */
  lemma {:induction false} ActiveCodesAppend(a: seq<Row>, b: seq<Row>)
    ensures ActiveCodes(a + b) == ActiveCodes(a) + ActiveCodes(b)
    decreases |a|
  {
    if |a| == 0 {
      assert a + b == b;
    } else {
      assert (a + b)[0] == a[0];
      assert (a + b)[1..] == a[1..] + b;
      ActiveCodesAppend(a[1..], b);
    }
  }

  /** A code is listed iff some active row lists it. */
  lemma {:induction false} ActiveCodesMembership(rows: seq<Row>, c: string)
    ensures c in ActiveCodes(rows) <==>
              exists i :: 0 <= i < |rows| && Active(rows[i]) && CodeOf(rows[i]) == c
    decreases |rows|
  {
    if |rows| > 0 {
      ActiveCodesMembership(rows[1..], c);
      if c in ActiveCodes(rows[1..]) {
        var i :| 0 <= i < |rows[1..]| && Active(rows[1..][i]) && CodeOf(rows[1..][i]) == c;
        assert rows[i + 1] == rows[1..][i];
      }
      if exists i :: 0 <= i < |rows| && Active(rows[i]) && CodeOf(rows[i]) == c {
        var i :| 0 <= i < |rows| && Active(rows[i]) && CodeOf(rows[i]) == c;
        if i > 0 {
          assert rows[1..][i - 1] == rows[i];
        }
      }
    }
  }

  /** The imperative row walk of `get_available_coupons`. */
  method ScrapeRows(rows: seq<Row>) returns (coupons: seq<string>)
    ensures coupons == ActiveCodes(rows)
  {
    coupons := [];
    var i := 0;
    while i < |rows|
      invariant 0 <= i <= |rows|
      invariant coupons == ActiveCodes(rows[..i])
    {
      ActiveCodesAppend(rows[..i], [rows[i]]);
      assert rows[..i + 1] == rows[..i] + [rows[i]];
      assert [rows[i]][1..] == [];
      var tds := rows[i].cells;
      if |tds| < 1 {
        i := i + 1;
        continue;
      }
      var bolds := tds[0].bolds;
      if |bolds| != 1 {
        i := i + 1;
        continue;
      }
      coupons := coupons + [bolds[0]];
      i := i + 1;
    }
    assert rows[..i] == rows;
  }

  /** `get_available_coupons` over a fetched page. */
  method ScrapePage(page: Page) returns (coupons: seq<string>)
    ensures coupons == AvailableCoupons(page)
  {
    match page {
      case Table(rows) =>
        coupons := ScrapeRows(rows);
      case _ =>
        coupons := [];
    }
  }
}
