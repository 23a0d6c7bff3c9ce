/**
 * Loading the per-capita GDP table (assignment5.py lines 59-66).
 *
 * The CSV is read with the country names as index and one column per year
 * label. `stack()` turns it into one row per cell, in country-row order then
 * year-column order; the year column is converted to integers; then the gdp
 * column is reassigned by the three cleaning passes and converted to integers.
 * Either conversion raises on the first string it cannot read.
 */
module Reshape {
  import opened Wrappers
  import opened Digits
  import opened Cleaning

  /** The wide table: a country per row, a year label per column, a raw string per cell. */
  datatype Grid = Grid(countries: seq<string>, labels: seq<string>, cells: seq<seq<string>>) {
    /** Every row has one cell per column, as in a data frame. */
    predicate Valid() {
      |cells| == |countries| && forall i :: 0 <= i < |cells| ==> |cells[i]| == |labels|
    }
  }

  /** A row of the stacked table before any conversion: `(country, level_1, 0)`. */
  datatype Cell = Cell(country: string, column: string, raw: string)

  /** A row of the long table after both conversions: `(country, year, gdp)`. */
  datatype Record = Record(country: string, year: int, gdp: int)

  /** The ValueError of `astype(int)` on the year column or on the cleaned gdp column. */
  datatype LoadError = BadYear(column: string) | BadValue(text: string)

  /** The stacked rows contributed by country row `i`, one per year column. */
  function RowCells(g: Grid, i: nat): (r: seq<Cell>)
    requires g.Valid() && i < |g.countries|
  {
    seq(|g.labels|, j requires 0 <= j < |g.labels| => Cell(g.countries[i], g.labels[j], g.cells[i][j]))
  }

  /** The stacked rows of the first `k` country rows. */
  function StackedRows(g: Grid, k: nat): seq<Cell>
    requires g.Valid() && k <= |g.countries|
  {
    if k == 0 then [] else StackedRows(g, k - 1) + RowCells(g, k - 1)
  }

  /** `gdp.stack()`: the whole wide table in long form. */
  function Stacked(g: Grid): seq<Cell>
    requires g.Valid()
  {
    StackedRows(g, |g.countries|)
  }

  /** `s` holds `x` at position `p`. */
  predicate HoldsAt<T(==)>(s: seq<T>, p: int, x: T) {
    0 <= p < |s| && s[p] == x
  }

  /** Where the rows of country `i` start in a table with `n` year columns. */
  function Offset(i: nat, n: nat): nat {
    if i == 0 then 0 else Offset(i - 1, n) + n
  }

  /** Row `i` starts after `i` full rows. */
  lemma {:induction false} OffsetIsProduct(i: nat, n: nat)
    ensures Offset(i, n) == i * n
  {
    if i > 0 {
      OffsetIsProduct(i - 1, n);
      assert (i - 1) * n + n == i * n;
    }
  }

  /** Stacking yields one row per cell. */
  lemma {:induction false} StackedLength(g: Grid, k: nat)
    requires g.Valid() && k <= |g.countries|
    ensures |StackedRows(g, k)| == Offset(k, |g.labels|)
  {
    if k > 0 {
      StackedLength(g, k - 1);
    }
  }

  /** Cell `(i, j)` lands at position `i * columns + j`: country-row order, then year-column order. */
  lemma {:induction false} StackedAt(g: Grid, k: nat, i: nat, j: nat)
    requires g.Valid() && k <= |g.countries|
    requires i < k && j < |g.labels|
    ensures Offset(i, |g.labels|) + j < |StackedRows(g, k)|
    ensures StackedRows(g, k)[Offset(i, |g.labels|) + j] == Cell(g.countries[i], g.labels[j], g.cells[i][j])
  {
    var n := |g.labels|;
    StackedLength(g, k);
    StackedLength(g, k - 1);
    var prev, last := StackedRows(g, k - 1), RowCells(g, k - 1);
    if i < k - 1 {
      StackedAt(g, k - 1, i, j);
      assert (prev + last)[Offset(i, n) + j] == prev[Offset(i, n) + j];
    } else {
      assert (prev + last)[Offset(i, n) + j] == last[j];
    }
  }

  /** Every position of the stacked table is the position of some cell. */
  lemma {:induction false} StackedIndex(g: Grid, k: nat, q: nat) returns (i: nat, j: nat)
    requires g.Valid() && k <= |g.countries|
    requires q < |StackedRows(g, k)|
    ensures i < k && j < |g.labels| && q == Offset(i, |g.labels|) + j
  {
    var n := |g.labels|;
    StackedLength(g, k);
    StackedLength(g, k - 1);
    if q < Offset(k - 1, n) {
      i, j := StackedIndex(g, k - 1, q);
    } else {
      i, j := k - 1, q - Offset(k - 1, n);
    }
  }

  /** For a table with no missing cells, stacking yields rows times columns records. */
  lemma StackedCount(g: Grid)
    requires g.Valid()
    ensures |Stacked(g)| == |g.countries| * |g.labels|
  {
    StackedLength(g, |g.countries|);
    OffsetIsProduct(|g.countries|, |g.labels|);
  }

  /** The cell `(i, j)` is at position `Offset(i, columns) + j`, that is `i * columns + j`. */
  lemma StackedCells(g: Grid)
    requires g.Valid()
    ensures forall i, j :: 0 <= i < |g.countries| && 0 <= j < |g.labels| ==>
              HoldsAt(Stacked(g), Offset(i, |g.labels|) + j, Cell(g.countries[i], g.labels[j], g.cells[i][j]))
  {
    forall i, j | 0 <= i < |g.countries| && 0 <= j < |g.labels|
      ensures HoldsAt(Stacked(g), Offset(i, |g.labels|) + j, Cell(g.countries[i], g.labels[j], g.cells[i][j]))
    {
      StackedAt(g, |g.countries|, i, j);
    }
  }

  /** Nothing but the cells of the grid is in the stacked table. */
  lemma StackedOnlyCells(g: Grid)
    requires g.Valid()
    ensures forall c :: c in Stacked(g) ==>
              exists i, j :: 0 <= i < |g.countries| && 0 <= j < |g.labels| && c == Cell(g.countries[i], g.labels[j], g.cells[i][j])
  {
    var m, n := |g.countries|, |g.labels|;
    forall c | c in Stacked(g)
      ensures exists i, j :: 0 <= i < m && 0 <= j < n && c == Cell(g.countries[i], g.labels[j], g.cells[i][j])
    {
      var q :| 0 <= q < |Stacked(g)| && Stacked(g)[q] == c;
      var i, j := StackedIndex(g, m, q);
      StackedAt(g, m, i, j);
    }
  }

  /** `gdp.stack()` as the nested loop over country rows and year columns. */
  method Stack(g: Grid) returns (table: seq<Cell>)
    requires g.Valid()
    ensures table == Stacked(g)
  {
    table := [];
    var i := 0;
    while i < |g.countries|
      invariant 0 <= i <= |g.countries|
      invariant table == StackedRows(g, i)
    {
      var j := 0;
      while j < |g.labels|
        invariant 0 <= j <= |g.labels|
        invariant table == StackedRows(g, i) + RowCells(g, i)[..j]
      {
        assert RowCells(g, i)[..j + 1] == RowCells(g, i)[..j] + [Cell(g.countries[i], g.labels[j], g.cells[i][j])];
        table := table + [Cell(g.countries[i], g.labels[j], g.cells[i][j])];
        j := j + 1;
      }
      assert RowCells(g, i)[..j] == RowCells(g, i);
      i := i + 1;
    }
  }

  /**
   * `astype(int)` on a column of strings: every string converted, or the
   * first one that is not an integer literal reported.
   */
  method ParseColumn(col: seq<string>) returns (r: Result<seq<nat>, string>)
    ensures r.Ok? <==> forall k :: 0 <= k < |col| ==> ParseNat(col[k]).Some?
    ensures r.Ok? ==> |r.value| == |col| && forall k :: 0 <= k < |col| ==> ParseNat(col[k]) == Some(r.value[k])
    ensures r.Err? ==> exists k :: 0 <= k < |col| && ParseNat(col[k]) == None && r.error == col[k] &&
                                   forall m :: 0 <= m < k ==> ParseNat(col[m]).Some?
  {
    var values: seq<nat> := [];
    var k := 0;
    while k < |col|
      invariant 0 <= k <= |col| && |values| == k
      invariant forall m :: 0 <= m < k ==> ParseNat(col[m]) == Some(values[m])
    {
      match ParseNat(col[k]) {
        case None => return Err(col[k]);
        case Some(v) => values := values + [v];
      }
      k := k + 1;
    }
    return Ok(values);
  }

  /**
   * The three list comprehensions over the gdp column, each reassigning it:
   * afterwards every entry is its cell rewritten by passes 1, 2 and 3.
   */
  method CleanColumn(column: seq<string>) returns (gdp: seq<string>)
    ensures |gdp| == |column|
    ensures forall q :: 0 <= q < |column| ==> gdp[q] == Rewrite(column[q])
  {
    gdp := column;
    gdp := seq(|gdp|, q requires 0 <= q < |gdp| => Pass1(gdp[q]));
    gdp := seq(|gdp|, q requires 0 <= q < |gdp| => Pass2(gdp[q]));
    gdp := seq(|gdp|, q requires 0 <= q < |gdp| => Pass3(gdp[q]));
  }

  /** Every year label of the table converts (vacuous when there is no country row). */
  predicate YearsConvert(g: Grid) {
    |g.countries| == 0 || forall j :: 0 <= j < |g.labels| ==> ParseNat(g.labels[j]).Some?
  }

  /** Every cell of the table survives cleaning and conversion. */
  predicate ValuesConvert(g: Grid)
    requires g.Valid()
  {
    forall i, j :: 0 <= i < |g.countries| && 0 <= j < |g.labels| ==> Normalize(g.cells[i][j]).Some?
  }

  /** `column` is the year column of the stacked table. */
  predicate IsYearColumn(g: Grid, column: seq<string>)
    requires g.Valid()
  {
    |column| == |Stacked(g)| && forall q :: 0 <= q < |column| ==> column[q] == Stacked(g)[q].column
  }

  /** `column` is the gdp column of the stacked table after the three passes. */
  predicate IsCleanedColumn(g: Grid, column: seq<string>)
    requires g.Valid()
  {
    |column| == |Stacked(g)| && forall q :: 0 <= q < |column| ==> column[q] == Rewrite(Stacked(g)[q].raw)
  }

  /** The year column converts exactly when every year label does (given a row). */
  lemma YearColumnConverts(g: Grid, column: seq<string>)
    requires g.Valid() && IsYearColumn(g, column)
    ensures (forall q :: 0 <= q < |column| ==> ParseNat(column[q]).Some?) <==> YearsConvert(g)
  {
    var t, n := Stacked(g), |g.labels|;
    StackedCells(g);
    StackedOnlyCells(g);
    if forall q :: 0 <= q < |column| ==> ParseNat(column[q]).Some? {
      if |g.countries| > 0 {
        forall j | 0 <= j < n ensures ParseNat(g.labels[j]).Some? {
          assert HoldsAt(t, Offset(0, n) + j, Cell(g.countries[0], g.labels[j], g.cells[0][j]));
        }
      }
    }
    if YearsConvert(g) {
      forall q | 0 <= q < |column| ensures ParseNat(column[q]).Some? {
        assert t[q] in t;
      }
    }
  }

  /** The cleaned gdp column converts exactly when every cell normalises. */
  lemma GdpColumnConverts(g: Grid, column: seq<string>)
    requires g.Valid() && IsCleanedColumn(g, column)
    ensures (forall q :: 0 <= q < |column| ==> ParseNat(column[q]).Some?) <==> ValuesConvert(g)
  {
    if forall q :: 0 <= q < |column| ==> ParseNat(column[q]).Some? {
      CleanedColumnToCells(g, column);
    }
    if ValuesConvert(g) {
      CellsToCleanedColumn(g, column);
    }
  }

  /** When every entry of the cleaned column converts, every cell normalises. */
  lemma CleanedColumnToCells(g: Grid, column: seq<string>)
    requires g.Valid() && IsCleanedColumn(g, column)
    requires forall q :: 0 <= q < |column| ==> ParseNat(column[q]).Some?
    ensures ValuesConvert(g)
  {
    var t, n := Stacked(g), |g.labels|;
    StackedCells(g);
    forall i, j | 0 <= i < |g.countries| && 0 <= j < n ensures Normalize(g.cells[i][j]).Some? {
      var q := Offset(i, n) + j;
      assert HoldsAt(t, q, Cell(g.countries[i], g.labels[j], g.cells[i][j]));
      assert column[q] == Rewrite(g.cells[i][j]);
    }
  }

  /** When every cell normalises, every entry of the cleaned column converts. */
  lemma CellsToCleanedColumn(g: Grid, column: seq<string>)
    requires g.Valid() && IsCleanedColumn(g, column)
    requires ValuesConvert(g)
    ensures forall q :: 0 <= q < |column| ==> ParseNat(column[q]).Some?
  {
    var t := Stacked(g);
    StackedOnlyCells(g);
    forall q | 0 <= q < |column| ensures ParseNat(column[q]).Some? {
      assert t[q] in t;
      var i, j :| 0 <= i < |g.countries| && 0 <= j < |g.labels| && t[q] == Cell(g.countries[i], g.labels[j], g.cells[i][j]);
      assert column[q] == Rewrite(g.cells[i][j]);
    }
  }

  /** An entry of the year column that does not convert is a bad year label of a table with rows. */
  lemma BadYearLabel(g: Grid, column: seq<string>, q: nat)
    requires g.Valid() && IsYearColumn(g, column)
    requires q < |column| && ParseNat(column[q]) == None
    ensures |g.countries| > 0
    ensures exists j :: 0 <= j < |g.labels| && ParseNat(g.labels[j]) == None && column[q] == g.labels[j]
  {
    StackedOnlyCells(g);
    assert Stacked(g)[q] in Stacked(g);
  }

  /** An entry of the cleaned column that does not convert comes from a cell that does not normalise. */
  lemma BadGdpCell(g: Grid, column: seq<string>, q: nat)
    requires g.Valid() && IsCleanedColumn(g, column)
    requires q < |column| && ParseNat(column[q]) == None
    ensures exists i, j :: 0 <= i < |g.countries| && 0 <= j < |g.labels| &&
              Normalize(g.cells[i][j]) == None && column[q] == Rewrite(g.cells[i][j])
  {
    StackedOnlyCells(g);
    assert Stacked(g)[q] in Stacked(g);
  }

  /** The records built row by row from the stacked table are laid out like its cells. */
  lemma RecordsLayout(g: Grid, years: seq<nat>, values: seq<nat>, records: seq<Record>)
    requires g.Valid()
    requires |years| == |values| == |records| == |Stacked(g)|
    requires forall q :: 0 <= q < |records| ==>
               ParseNat(Stacked(g)[q].column) == Some(years[q]) &&
               Normalize(Stacked(g)[q].raw) == Some(values[q]) &&
               records[q] == Record(Stacked(g)[q].country, years[q], values[q])
    ensures forall i, j :: 0 <= i < |g.countries| && 0 <= j < |g.labels| ==>
              ParseNat(g.labels[j]).Some? && Normalize(g.cells[i][j]).Some? &&
              HoldsAt(records, Offset(i, |g.labels|) + j,
                      Record(g.countries[i], ParseNat(g.labels[j]).value, Normalize(g.cells[i][j]).value))
  {
    var n := |g.labels|;
    forall i, j | 0 <= i < |g.countries| && 0 <= j < n
      ensures ParseNat(g.labels[j]).Some? && Normalize(g.cells[i][j]).Some? &&
              HoldsAt(records, Offset(i, n) + j,
                      Record(g.countries[i], ParseNat(g.labels[j]).value, Normalize(g.cells[i][j]).value))
    {
      StackedAt(g, |g.countries|, i, j);
      var p := Offset(i, n) + j;
      assert Stacked(g)[p] == Cell(g.countries[i], g.labels[j], g.cells[i][j]);
      assert ParseNat(g.labels[j]) == Some(years[p]) && Normalize(g.cells[i][j]) == Some(values[p]);
    }
  }

  /**
   * The loading script: stack, convert the years, reassign the gdp column by
   * the three passes, convert it. The long table holds one record per cell,
   * in country-row then year-column order, with the year converted from its
   * column label and the gdp value normalised from its cell; it fails exactly
   * when a year label or a cell cannot be converted, and a bad year is
   * reported before any bad value.
   */
  method Load(g: Grid) returns (r: Result<seq<Record>, LoadError>)
    requires g.Valid()
    ensures r.Ok? <==> YearsConvert(g) && ValuesConvert(g)
    ensures r.Ok? ==> |r.value| == |g.countries| * |g.labels|
    ensures r.Ok? ==> forall i, j :: 0 <= i < |g.countries| && 0 <= j < |g.labels| ==>
              HoldsAt(r.value, Offset(i, |g.labels|) + j,
                      Record(g.countries[i], ParseNat(g.labels[j]).value, Normalize(g.cells[i][j]).value))
    ensures r.Err? && r.error.BadYear? ==>
              |g.countries| > 0 &&
              exists j :: 0 <= j < |g.labels| && ParseNat(g.labels[j]) == None && r.error.column == g.labels[j]
    ensures r.Err? && r.error.BadValue? ==>
              YearsConvert(g) &&
              exists i, j :: 0 <= i < |g.countries| && 0 <= j < |g.labels| &&
                Normalize(g.cells[i][j]) == None && r.error.text == Rewrite(g.cells[i][j])
  {
    var table := Stack(g);

    // year column: astype(int)
    var yearColumn := seq(|table|, q requires 0 <= q < |table| => table[q].column);
    var years := ParseColumn(yearColumn);
    YearColumnConverts(g, yearColumn);
    if years.Err? {
      ghost var q :| 0 <= q < |yearColumn| && ParseNat(yearColumn[q]) == None && years.error == yearColumn[q];
      BadYearLabel(g, yearColumn, q);
      return Err(BadYear(years.error));
    }

    // gdp column: the three passes, each reassigning the column, then astype(int)
    var gdp := CleanColumn(seq(|table|, q requires 0 <= q < |table| => table[q].raw));
    var values := ParseColumn(gdp);
    GdpColumnConverts(g, gdp);
    if values.Err? {
      ghost var q :| 0 <= q < |gdp| && ParseNat(gdp[q]) == None && values.error == gdp[q];
      BadGdpCell(g, gdp, q);
      return Err(BadValue(values.error));
    }

    var records := seq(|table|, q requires 0 <= q < |table| => Record(table[q].country, years.value[q], values.value[q]));
    RecordsLayout(g, years.value, values.value, records);
    StackedCount(g);
    return Ok(records);
  }
}
