/** The table normaliser of `get_tables`: header promotion, newline deletion
    in cells, and column-name sanitisation, plus the page loop that keeps
    only the last table seen.

    A raw table is the grid of text cells the PDF extractor returns for one
    table, row by row; its first row holds the header text. */
module Tables {
  import opened Wrappers
  import opened Text

  type Cell = string
  type Row = seq<Cell>
  type Grid = seq<Row>

  /** The tables found on one page, in extraction order. */
  type Page = seq<Grid>

  /** A data frame after normalisation: column names and data rows. */
  datatype Frame = Frame(columns: seq<string>, rows: seq<Row>)

  datatype TableError =
    | EmptyTable   // header promotion on a table with no row at all
    | NoTable      // no page produced a table, so there is nothing to return

  /** Characters a sanitised column name never contains. */
  const ColumnJunk: set<char> := {'\n', ' ', '(', ')'}

  /** A cell with its line breaks deleted (not replaced by a space). */
  function CleanCell(cell: Cell): (r: Cell)
    ensures r == Strip(cell, {'\n'})
    ensures '\n' !in r
  {
    Replace(cell, '\n', "")
  }

  /** A column name with line breaks, spaces and parentheses removed: line
      breaks become spaces, spaces are removed, then parentheses are
      removed. */
  function SanitizeColumn(name: string): (r: string)
    ensures r == Strip(name, ColumnJunk)
    ensures forall i :: 0 <= i < |r| ==> r[i] !in ColumnJunk
  {
    var squeezed := Replace(Replace(name, '\n', " "), ' ', "");
    SqueezeIsStrip(name);
    var noOpen := Replace(squeezed, '(', "");
    StripStrip(name, {'\n', ' '}, {'('});
    var noClose := Replace(noOpen, ')', "");
    StripStrip(name, {'\n', ' '} + {'('}, {')'});
    assert {'\n', ' '} + {'('} + {')'} == ColumnJunk;
    noClose
  }

  /** Line breaks turned into spaces and then spaces removed: both deleted. */
  lemma SqueezeIsStrip(name: string)
    ensures Replace(Replace(name, '\n', " "), ' ', "") == Strip(name, {'\n', ' '})
  {
    ReplaceKeepsOrder(name, '\n', " ");
  }

  /** Every cell of every row cleaned. */
  function CleanRows(rows: seq<Row>): (r: seq<Row>)
    ensures |r| == |rows|
    ensures forall i :: 0 <= i < |r| ==> |r[i]| == |rows[i]|
    ensures forall i, j :: 0 <= i < |r| && 0 <= j < |r[i]| ==> r[i][j] == Strip(rows[i][j], {'\n'})
  {
    seq(|rows|, i requires 0 <= i < |rows| =>
      seq(|rows[i]|, j requires 0 <= j < |rows[i]| => CleanCell(rows[i][j])))
  }

  /** Every column name sanitised. */
  function SanitizeColumns(header: Row): (r: seq<string>)
    ensures |r| == |header|
    ensures forall k :: 0 <= k < |r| ==> r[k] == Strip(header[k], ColumnJunk)
  {
    seq(|header|, k requires 0 <= k < |header| => SanitizeColumn(header[k]))
  }

  /** No column name holds a junk character and no cell holds a line break. */
  predicate IsNormalized(f: Frame) {
    && (forall k, i :: 0 <= k < |f.columns| && 0 <= i < |f.columns[k]| ==> f.columns[k][i] !in ColumnJunk)
    && (forall r, c, i :: 0 <= r < |f.rows| && 0 <= c < |f.rows[r]| && 0 <= i < |f.rows[r][c]| ==> f.rows[r][c][i] != '\n')
  }

  /** One table through the body of the inner loop of `get_tables`. */
  function Normalize(raw: Grid): (r: Result<Frame, TableError>)
    ensures r.Failure? <==> |raw| == 0
    ensures r.Failure? ==> r.error == EmptyTable
    ensures r.Success? ==> |r.value.columns| == |raw[0]|
    ensures r.Success? ==> forall k :: 0 <= k < |raw[0]| ==> r.value.columns[k] == Strip(raw[0][k], ColumnJunk)
    ensures r.Success? ==> |r.value.rows| == |raw| - 1
    ensures r.Success? ==> forall i :: 0 <= i < |r.value.rows| ==> |r.value.rows[i]| == |raw[i + 1]|
    ensures r.Success? ==> forall i, j :: 0 <= i < |r.value.rows| && 0 <= j < |r.value.rows[i]| ==>
              r.value.rows[i][j] == Strip(raw[i + 1][j], {'\n'})
    ensures r.Success? ==> IsNormalized(r.value)
  {
    if |raw| == 0 then Failure(EmptyTable)
    else
      Success(Frame(SanitizeColumns(raw[0]), CleanRows(raw[1..])))
  }

  /** The grid a frame came from if its header were put back as row 0. */
  function ToGrid(f: Frame): (g: Grid)
    ensures |g| == |f.rows| + 1
  {
    [f.columns] + f.rows
  }

  /** Sanitising an already sanitised column name changes nothing. */
  lemma SanitizeColumnIdempotent(name: string)
    ensures SanitizeColumn(SanitizeColumn(name)) == SanitizeColumn(name)
  {
    StripStrip(name, ColumnJunk, ColumnJunk);
    assert ColumnJunk + ColumnJunk == ColumnJunk;
  }

  /** Cleaning an already cleaned cell changes nothing. */
  lemma CleanCellIdempotent(cell: Cell)
    ensures CleanCell(CleanCell(cell)) == CleanCell(cell)
  {
    StripStrip(cell, {'\n'}, {'\n'});
    assert {'\n'} + {'\n'} == {'\n'};
  }

  /** Putting the header of a normalised frame back as row 0 and normalising
      again gives the same frame: promotion happens again, and both
      clean-ups have nothing left to delete. */
  lemma NormalizeRoundTrip(f: Frame)
    requires IsNormalized(f)
    ensures Normalize(ToGrid(f)) == Success(f)
  {
    var g := ToGrid(f);
    assert g[0] == f.columns && g[1..] == f.rows;
    SanitizeColumnsClean(f.columns);
    CleanRowsClean(f.rows);
  }

  /** Names with no junk character are their own sanitisation. */
  lemma SanitizeColumnsClean(columns: seq<string>)
    requires forall k, i :: 0 <= k < |columns| && 0 <= i < |columns[k]| ==> columns[k][i] !in ColumnJunk
    ensures SanitizeColumns(columns) == columns
  {
    forall k | 0 <= k < |columns|
      ensures SanitizeColumns(columns)[k] == columns[k]
    {
      StripNothing(columns[k], ColumnJunk);
    }
  }

  /** Rows with no line break are their own clean-up. */
  lemma CleanRowsClean(rows: seq<Row>)
    requires forall r, c, i :: 0 <= r < |rows| && 0 <= c < |rows[r]| && 0 <= i < |rows[r][c]| ==> rows[r][c][i] != '\n'
    ensures CleanRows(rows) == rows
  {
    forall r | 0 <= r < |rows|
      ensures CleanRows(rows)[r] == rows[r]
    {
      forall c | 0 <= c < |rows[r]|
        ensures CleanRows(rows)[r][c] == rows[r][c]
      {
        StripNothing(rows[r][c], {'\n'});
      }
    }
  }

  /** Every row of the grid has the same number of cells (a data frame is
      rectangular). */
  predicate Rectangular(g: Grid) {
    forall i :: 0 <= i < |g| ==> |g[i]| == |g[0]|
  }

  /** Normalisation keeps the table rectangular: every data row has one cell
      per column name. */
  lemma NormalizeKeepsWidth(raw: Grid)
    requires |raw| > 0 && Rectangular(raw)
    ensures forall i :: 0 <= i < |Normalize(raw).value.rows| ==>
              |Normalize(raw).value.rows[i]| == |Normalize(raw).value.columns|
  {
  }

  /** A header `w1 w2 (unit)`, such as `Net Worth (USD)`, sanitises to the
      three words run together, `NetWorthUSD`. */
  lemma SanitizeUnitHeader(w1: string, w2: string, unit: string)
    requires forall i :: 0 <= i < |w1| ==> w1[i] !in ColumnJunk
    requires forall i :: 0 <= i < |w2| ==> w2[i] !in ColumnJunk
    requires forall i :: 0 <= i < |unit| ==> unit[i] !in ColumnJunk
    ensures SanitizeColumn(w1 + " " + w2 + " (" + unit + ")") == w1 + w2 + unit
  {
    StripNothing(w1, ColumnJunk);
    StripNothing(w2, ColumnJunk);
    StripNothing(unit, ColumnJunk);
    StripEverything(" ", ColumnJunk);
    StripEverything(" (", ColumnJunk);
    StripEverything(")", ColumnJunk);
    StripJoin(w1, " ", ColumnJunk, w1, "");
    StripJoin(w1 + " ", w2, ColumnJunk, w1, w2);
    StripJoin(w1 + " " + w2, " (", ColumnJunk, w1 + w2, "");
    StripJoin(w1 + " " + w2 + " (", unit, ColumnJunk, w1 + w2, unit);
    StripJoin(w1 + " " + w2 + " (" + unit, ")", ColumnJunk, w1 + w2 + unit, "");
  }

  /** Some table on some page has no row at all. */
  predicate AnyEmptyTable(pages: seq<Page>) {
    exists p, t :: 0 <= p < |pages| && 0 <= t < |pages[p]| && pages[p][t] == []
  }

  /** The last table of the last page that produced any table. */
  function LastTable(pages: seq<Page>): (r: Option<Grid>)
    ensures r.None? <==> forall p :: 0 <= p < |pages| ==> pages[p] == []
    ensures r.Some? ==> exists p :: && 0 <= p < |pages| && |pages[p]| > 0
                                    && r.value == pages[p][|pages[p]| - 1]
                                    && forall q :: p < q < |pages| ==> pages[q] == []
  {
    if |pages| == 0 then None
    else if |pages[|pages| - 1]| > 0 then Some(pages[|pages| - 1][|pages[|pages| - 1]| - 1])
    else LastTable(pages[..|pages| - 1])
  }

  /** `get_tables`: every table of every page is normalised in turn and
      overwrites the previous one; a table with no row aborts the whole scan,
      and if no table was seen there is nothing to return. */
  method GetTables(pages: seq<Page>) returns (r: Result<Frame, TableError>)
    ensures AnyEmptyTable(pages) ==> r == Failure(EmptyTable)
    ensures !AnyEmptyTable(pages) && LastTable(pages).None? ==> r == Failure(NoTable)
    ensures !AnyEmptyTable(pages) && LastTable(pages).Some? ==> r == Normalize(LastTable(pages).value)
    ensures r.Success? ==> IsNormalized(r.value)
  {
    var current: Option<Frame> := None;
    var i := 0;
    while i < |pages|
      invariant 0 <= i <= |pages|
      invariant !AnyEmptyTable(pages[..i])
      invariant current.None? <==> LastTable(pages[..i]).None?
      invariant current.Some? ==> Normalize(LastTable(pages[..i]).value) == Success(current.value)
    {
      var t := 0;
      while t < |pages[i]|
        invariant 0 <= t <= |pages[i]|
        invariant forall k :: 0 <= k < t ==> pages[i][k] != []
        invariant t == 0 ==> (current.None? <==> LastTable(pages[..i]).None?)
        invariant t == 0 && current.Some? ==> Normalize(LastTable(pages[..i]).value) == Success(current.value)
        invariant t > 0 ==> current.Some? && Normalize(pages[i][t - 1]) == Success(current.value)
      {
        var n := Normalize(pages[i][t]);
        if n.Failure? {
          assert pages[i][t] == [];
          return n;
        }
        current := Some(n.value);
        t := t + 1;
      }
      assert pages[..i + 1][..i] == pages[..i];
      assert pages[..i + 1][i] == pages[i];
      i := i + 1;
    }
    assert pages[..|pages|] == pages;
    if current.None? {
      return Failure(NoTable);
    }
    return Success(current.value);
  }
}
