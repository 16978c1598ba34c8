/**
 * The `/api/avg-uv-by-country` route: every row the CSV parser emits,
 * `{country, <year>: <text>, ...}`, is folded into one object
 * `year -> country -> {cases: parseFloat(text)}`. The parser's rows are the
 * input here, and `parseFloat` is a given function from text to number.
 */
module CsvPivot {
  import opened Common

  /** One parsed row: its cells as (column, text) pairs, in `Object.entries` order. */
  type Row = seq<(string, string)>

  /** The column naming the row's country; it is never treated as a year. */
  const CountryColumn := "country"

  /** `row.country`: the text under the `country` column, or `undefined` (as a key, "undefined") when there is none. */
  function CountryOf(row: Row): string
  {
    if row == [] then "undefined"
    else if row[0].0 == CountryColumn then row[0].1
    else CountryOf(row[1..])
  }

  /** The record stored for one cell: `{cases: v}`. */
  function CasesRecord(v: real): Record
  {
    map[CasesField := v]
  }

  /** The entry at (year, country), if both levels are present. */
  function Entry(d: Dataset, year: string, country: string): Option<Record>
  {
    if year in d && country in d[year] then Some(d[year][country]) else None
  }

  /** One turn of the inner loop: a year cell with a value creates the year's bucket if absent, then stores the record. */
  function AddCell(results: Dataset, country: string, year: string, value: string, parse: string -> real): Dataset
  {
    if year != CountryColumn && value != "" then
      var bucket := if year in results then results[year] else map[];
      results[year := bucket[country := CasesRecord(parse(value))]]
    else
      results
  }

  /** The inner loop over the first |cells| cells of a row. */
  function AddCells(results: Dataset, country: string, cells: Row, parse: string -> real): Dataset
  {
    if cells == [] then results
    else
      var last := cells[|cells| - 1];
      AddCell(AddCells(results, country, cells[..|cells| - 1], parse), country, last.0, last.1, parse)
  }

  /** The `data` handler for one row. */
  function AddRow(results: Dataset, row: Row, parse: string -> real): Dataset
  {
    AddCells(results, CountryOf(row), row, parse)
  }

  /** `results` after the parser has emitted `rows`, starting from `{}`. */
  function PivotRows(rows: seq<Row>, parse: string -> real): Dataset
  {
    if rows == [] then map[]
    else AddRow(PivotRows(rows[..|rows| - 1], parse), rows[|rows| - 1], parse)
  }

  /** The route's loop, updating `results` in place row by row and cell by cell. */
  method Pivot(rows: seq<Row>, parse: string -> real) returns (results: Dataset)
    ensures results == PivotRows(rows, parse)
  {
    results := map[];
    var i := 0;
    while i < |rows|
      invariant 0 <= i <= |rows|
      invariant results == PivotRows(rows[..i], parse)
    {
      var row := rows[i];
      var country := CountryOf(row);
      ghost var before := results;
      var j := 0;
      while j < |row|
        invariant 0 <= j <= |row|
        invariant results == AddCells(before, country, row[..j], parse)
      {
        var (year, value) := row[j];
        if year != CountryColumn && value != "" {
          if year !in results {
            results := results[year := map[]];
          }
          results := results[year := results[year][country := CasesRecord(parse(value))]];
        }
        assert row[..j + 1][..j] == row[..j];
        j := j + 1;
      }
      assert row[..j] == row;
      assert rows[..i + 1][..i] == rows[..i];
      i := i + 1;
    }
    assert rows[..i] == rows;
  }

  // ---------------------------------------------------------------------------
  // Reference definition: which cell an entry comes from
  // ---------------------------------------------------------------------------

  /** The text of the last non-empty cell under column `year` among `cells`. */
  function LastValue(cells: Row, year: string): Option<string>
  {
    if cells == [] then None
    else if cells[|cells| - 1].0 == year && cells[|cells| - 1].1 != "" then Some(cells[|cells| - 1].1)
    else LastValue(cells[..|cells| - 1], year)
  }

  /** The text the entry (year, country) should come from: the last row for `country` with a non-empty `year` cell. */
  function LastEntry(rows: seq<Row>, year: string, country: string): Option<string>
  {
    if year == CountryColumn || rows == [] then None
    else
      var row := rows[|rows| - 1];
      if CountryOf(row) == country && LastValue(row, year).Some? then LastValue(row, year)
      else LastEntry(rows[..|rows| - 1], year, country)
  }

  /** How one row's cells change a single entry: only the row's own country, and only where it has a value. */
  lemma {:induction false} AddCellsEntry(m: Dataset, country: string, cells: Row, parse: string -> real, year: string, c: string)
    ensures Entry(AddCells(m, country, cells, parse), year, c) ==
      if c == country && year != CountryColumn && LastValue(cells, year).Some?
      then Some(CasesRecord(parse(LastValue(cells, year).value)))
      else Entry(m, year, c)
    decreases |cells|
  {
    if cells != [] {
      AddCellsEntry(m, country, cells[..|cells| - 1], parse, year, c);
    }
  }

  /**
   * Every entry of the pivot is the record of the last non-empty cell for its
   * (year, country): no entry without such a cell, a later row overriding an
   * earlier one.
   */
  lemma {:induction false} PivotEntry(rows: seq<Row>, parse: string -> real, year: string, c: string)
    ensures Entry(PivotRows(rows, parse), year, c) ==
      match LastEntry(rows, year, c)
      case Some(v) => Some(CasesRecord(parse(v)))
      case None => None
    decreases |rows|
  {
    if rows != [] {
      var row := rows[|rows| - 1];
      PivotEntry(rows[..|rows| - 1], parse, year, c);
      AddCellsEntry(PivotRows(rows[..|rows| - 1], parse), CountryOf(row), row, parse, year, c);
    }
  }

  // ---------------------------------------------------------------------------
  // Shape of the result
  // ---------------------------------------------------------------------------

  /**
   * No year key is "country", every year bucket holds at least one country,
   * and every record is exactly `{cases: v}`.
   */
  predicate WellShaped(d: Dataset)
  {
    && CountryColumn !in d
    && (forall y :: y in d ==> d[y] != map[])
    && (forall y, c :: y in d && c in d[y] ==> d[y][c].Keys == {CasesField})
  }

  lemma AddCellKeepsShape(m: Dataset, country: string, year: string, value: string, parse: string -> real)
    requires WellShaped(m)
    ensures WellShaped(AddCell(m, country, year, value, parse))
  {
    if year != CountryColumn && value != "" {
      var bucket: Bucket := if year in m then m[year] else map[];
      var nb := bucket[country := CasesRecord(parse(value))];
      var r: Dataset := m[year := nb];
      assert CountryColumn !in r;
      forall y | y in r ensures r[y] != map[] {
        if y == year { assert country in r[y]; }
      }
      forall y, c | y in r && c in r[y] ensures r[y][c].Keys == {CasesField} {
        if y == year && c != country { assert r[y][c] == bucket[c] == m[y][c]; }
      }
    }
  }

  lemma {:induction false} AddCellsKeepsShape(m: Dataset, country: string, cells: Row, parse: string -> real)
    requires WellShaped(m)
    ensures WellShaped(AddCells(m, country, cells, parse))
    decreases |cells|
  {
    if cells != [] {
      AddCellsKeepsShape(m, country, cells[..|cells| - 1], parse);
      var last := cells[|cells| - 1];
      AddCellKeepsShape(AddCells(m, country, cells[..|cells| - 1], parse), country, last.0, last.1, parse);
    }
  }

  /** The pivot never has a "country" year, never an empty bucket, and stores only `cases` fields. */
  lemma {:induction false} PivotShape(rows: seq<Row>, parse: string -> real)
    ensures WellShaped(PivotRows(rows, parse))
    decreases |rows|
  {
    if rows != [] {
      PivotShape(rows[..|rows| - 1], parse);
      AddCellsKeepsShape(PivotRows(rows[..|rows| - 1], parse), CountryOf(rows[|rows| - 1]), rows[|rows| - 1], parse);
    }
  }

  // ---------------------------------------------------------------------------
  // What one row does
  // ---------------------------------------------------------------------------

  /** Processing a row leaves every other country's entries as they were. */
  lemma AddRowKeepsOtherCountries(m: Dataset, row: Row, parse: string -> real, year: string, c: string)
    requires c != CountryOf(row)
    ensures Entry(AddRow(m, row, parse), year, c) == Entry(m, year, c)
  {
    AddCellsEntry(m, CountryOf(row), row, parse, year, c);
  }

  /** A year bucket, once created, is never reset: its countries all stay. */
  lemma AddRowKeepsBuckets(m: Dataset, row: Row, parse: string -> real)
    ensures forall y :: y in m ==> y in AddRow(m, row, parse) && m[y].Keys <= AddRow(m, row, parse)[y].Keys
  {
    var r := AddRow(m, row, parse);
    forall y, c | y in m && c in m[y]
      ensures y in r && c in r[y]
    {
      AddCellsEntry(m, CountryOf(row), row, parse, y, c);
    }
    forall y | y in m
      ensures y in r
    {
      // A bucket of `m` might be empty; the row only ever adds keys to `m`.
      AddCellsKeepsKeys(m, CountryOf(row), row, parse);
    }
  }

  lemma {:induction false} AddCellsKeepsKeys(m: Dataset, country: string, cells: Row, parse: string -> real)
    ensures m.Keys <= AddCells(m, country, cells, parse).Keys
    decreases |cells|
  {
    if cells != [] {
      AddCellsKeepsKeys(m, country, cells[..|cells| - 1], parse);
    }
  }

  /** The row's columns are distinct, as the keys of a JavaScript object are. */
  predicate DistinctColumns(row: Row)
  {
    forall i, j :: 0 <= i < j < |row| ==> row[i].0 != row[j].0
  }

  lemma {:induction false} LastValueOfDistinct(cells: Row, k: nat)
    requires DistinctColumns(cells)
    requires k < |cells| && cells[k].1 != ""
    ensures LastValue(cells, cells[k].0) == Some(cells[k].1)
    decreases |cells|
  {
    if k < |cells| - 1 {
      LastValueOfDistinct(cells[..|cells| - 1], k);
    }
  }

  /**
   * After a row with distinct columns is processed, each of its year cells
   * with a value is stored for the row's country as `{cases: parse(value)}`.
   */
  lemma AddRowStoresCells(m: Dataset, row: Row, parse: string -> real)
    requires DistinctColumns(row)
    ensures forall k :: 0 <= k < |row| && row[k].0 != CountryColumn && row[k].1 != "" ==>
      Entry(AddRow(m, row, parse), row[k].0, CountryOf(row)) == Some(CasesRecord(parse(row[k].1)))
  {
    forall k | 0 <= k < |row| && row[k].0 != CountryColumn && row[k].1 != ""
      ensures Entry(AddRow(m, row, parse), row[k].0, CountryOf(row)) == Some(CasesRecord(parse(row[k].1)))
    {
      LastValueOfDistinct(row, k);
      AddCellsEntry(m, CountryOf(row), row, parse, row[k].0, CountryOf(row));
    }
  }

  /** When two rows share a country, the later row's value wins for every year it fills. */
  lemma LaterRowWins(rows: seq<Row>, row: Row, parse: string -> real, year: string)
    requires year != CountryColumn && LastValue(row, year).Some?
    ensures Entry(PivotRows(rows + [row], parse), year, CountryOf(row)) == Some(CasesRecord(parse(LastValue(row, year).value)))
  {
    assert (rows + [row])[..|rows|] == rows;
    PivotEntry(rows + [row], parse, year, CountryOf(row));
  }

  /** A year whose cells are all empty for a country gets no entry for it. */
  lemma EmptyCellsGiveNoEntry(rows: seq<Row>, parse: string -> real, year: string, c: string)
    requires forall i, k :: 0 <= i < |rows| && 0 <= k < |rows[i]| && CountryOf(rows[i]) == c && rows[i][k].0 == year ==> rows[i][k].1 == ""
    ensures Entry(PivotRows(rows, parse), year, c) == None
  {
    NoCellNoLastEntry(rows, year, c);
    PivotEntry(rows, parse, year, c);
  }

  lemma {:induction false} NoCellNoLastValue(cells: Row, year: string)
    requires forall k :: 0 <= k < |cells| && cells[k].0 == year ==> cells[k].1 == ""
    ensures LastValue(cells, year) == None
    decreases |cells|
  {
    if cells != [] {
      NoCellNoLastValue(cells[..|cells| - 1], year);
    }
  }

  lemma {:induction false} NoCellNoLastEntry(rows: seq<Row>, year: string, c: string)
    requires forall i, k :: 0 <= i < |rows| && 0 <= k < |rows[i]| && CountryOf(rows[i]) == c && rows[i][k].0 == year ==> rows[i][k].1 == ""
    ensures LastEntry(rows, year, c) == None
    decreases |rows|
  {
    if rows != [] && year != CountryColumn {
      var row := rows[|rows| - 1];
      if CountryOf(row) == c {
        NoCellNoLastValue(row, year);
      }
      NoCellNoLastEntry(rows[..|rows| - 1], year, c);
    }
  }
}
