/**
 * The row selection of the chart callback (assignment5.py lines 128-144).
 *
 * With no country selected (`None` or an empty list) every country is kept;
 * otherwise `isin` keeps the selected countries. In both branches the rows
 * are then masked by `year <= hi` and by `year >= lo`, where `[lo, hi]` is
 * the value of the range slider. Boolean masking keeps the original order.
 */
module Selection {
  import opened Wrappers
  import opened Reshape

  /** Boolean masking `rows[mask]`: the rows the mask keeps, in their original order. */
  function Keep(rows: seq<Record>, keep: Record -> bool): (r: seq<Record>)
    ensures |r| <= |rows|
    ensures forall i :: 0 <= i < |r| ==> r[i] in rows && keep(r[i])
    decreases |rows|
  {
    if |rows| == 0 then [] else (if keep(rows[0]) then [rows[0]] else []) + Keep(rows[1..], keep)
  }

  /** `rows[rows['year'].le(hi)]` */
  function YearAtMost(rows: seq<Record>, hi: int): (r: seq<Record>)
    ensures forall i :: 0 <= i < |r| ==> r[i].year <= hi
  {
    Keep(rows, (x: Record) => x.year <= hi)
  }

  /** `rows[rows['year'].ge(lo)]` */
  function YearAtLeast(rows: seq<Record>, lo: int): (r: seq<Record>)
    ensures forall i :: 0 <= i < |r| ==> r[i].year >= lo
  {
    Keep(rows, (x: Record) => x.year >= lo)
  }

  /** `rows[rows['country'].isin(countries)]` */
  function CountryIn(rows: seq<Record>, countries: seq<string>): (r: seq<Record>)
    ensures forall i :: 0 <= i < |r| ==> r[i].country in countries
  {
    Keep(rows, (x: Record) => x.country in countries)
  }

  /** `not selected_countries`: the dropdown holds `None` or an empty list. */
  predicate NothingSelected(selected: Option<seq<string>>) {
    selected.None? || |selected.value| == 0
  }

  /**
   * The rows `update_figure` plots for a dropdown value and a slider value
   * `[lo, hi]`: never more than the long table holds, every one within the
   * year range, and of a selected country when there is a selection.
   */
  function SeriesRows(rows: seq<Record>, selected: Option<seq<string>>, lo: int, hi: int): (r: seq<Record>)
    ensures |r| <= |rows|
    ensures forall i :: 0 <= i < |r| ==> lo <= r[i].year <= hi
    ensures !NothingSelected(selected) ==> forall i :: 0 <= i < |r| ==> r[i].country in selected.value
  {
    if NothingSelected(selected) then YearAtLeast(YearAtMost(rows, hi), lo)
    else YearAtLeast(YearAtMost(CountryIn(rows, selected.value), hi), lo)
  }

  /** The intended selection, row by row: an empty selection means every country. */
  predicate Wanted(x: Record, selected: Option<seq<string>>, lo: int, hi: int) {
    (NothingSelected(selected) || x.country in selected.value) && lo <= x.year <= hi
  }

  /** `a` is `b` with some rows left out and the rest in their order. */
  predicate IsSubsequence(a: seq<Record>, b: seq<Record>)
    decreases |b|
  {
    |a| == 0 ||
    (|b| > 0 && if a[0] == b[0] then IsSubsequence(a[1..], b[1..]) else IsSubsequence(a, b[1..]))
  }

  // ---------------------------------------------------------------------------
  // Masking

  /** Masks that agree on every row select the same rows. */
  lemma {:induction false} KeepSameMask(rows: seq<Record>, p: Record -> bool, q: Record -> bool)
    requires forall x :: p(x) == q(x)
    ensures Keep(rows, p) == Keep(rows, q)
    decreases |rows|
  {
    if |rows| > 0 {
      KeepSameMask(rows[1..], p, q);
    }
  }

  /** Masking twice is masking once by the conjunction of the two masks. */
  lemma {:induction false} KeepTwice(rows: seq<Record>, p: Record -> bool, q: Record -> bool, both: Record -> bool)
    requires forall x :: both(x) == (p(x) && q(x))
    ensures Keep(Keep(rows, p), q) == Keep(rows, both)
    decreases |rows|
  {
    if |rows| > 0 {
      var x, rest := rows[0], rows[1..];
      var head := if p(x) then [x] else [];
      KeepAppend(head, Keep(rest, p), q);
      KeepTwice(rest, p, q, both);
      if p(x) {
        assert Keep(head, q) == (if q(x) then [x] else []) + Keep([], q) by { assert head[1..] == []; }
      }
    }
  }

  /** Masking works row by row, so it distributes over concatenation. */
  lemma {:induction false} KeepAppend(a: seq<Record>, b: seq<Record>, p: Record -> bool)
    ensures Keep(a + b, p) == Keep(a, p) + Keep(b, p)
    decreases |a|
  {
    if |a| > 0 {
      assert (a + b)[1..] == a[1..] + b;
      KeepAppend(a[1..], b, p);
    } else {
      assert a + b == b;
    }
  }

  /** A masked table holds each row as often as the table does if the mask keeps it, else never. */
  lemma {:induction false} KeepCounts(rows: seq<Record>, p: Record -> bool, x: Record)
    ensures multiset(Keep(rows, p))[x] == if p(x) then multiset(rows)[x] else 0
    decreases |rows|
  {
    if |rows| > 0 {
      KeepCounts(rows[1..], p, x);
      assert rows == [rows[0]] + rows[1..];
    }
  }

  /** A masked table keeps the order of the rows it keeps. */
  lemma {:induction false} KeepIsSubsequence(rows: seq<Record>, p: Record -> bool)
    ensures IsSubsequence(Keep(rows, p), rows)
    decreases |rows|
  {
    if |rows| > 0 {
      var k := Keep(rows[1..], p);
      KeepIsSubsequence(rows[1..], p);
      if p(rows[0]) {
        assert Keep(rows, p) == [rows[0]] + k;
        assert ([rows[0]] + k)[1..] == k;
      } else {
        assert Keep(rows, p) == [] + k == k;
        SubsequenceDropHead(k, rows);
      }
    }
  }

  /** A subsequence of the tail is a subsequence of the whole table. */
  lemma {:induction false} SubsequenceDropHead(a: seq<Record>, b: seq<Record>)
    requires |b| > 0 && IsSubsequence(a, b[1..])
    ensures IsSubsequence(a, b)
    decreases |a| + |b|
  {
    if |a| > 0 && a[0] == b[0] {
      // a[0] also matches b[0]; the rest of a fits in what follows b[0]
      SubsequenceOfTail(a, b[1..]);
    }
  }

  /** If `a` fits in `b`, its tail fits in `b` too. */
  lemma {:induction false} SubsequenceOfTail(a: seq<Record>, b: seq<Record>)
    requires |a| > 0 && IsSubsequence(a, b)
    ensures IsSubsequence(a[1..], b)
    decreases |a| + |b|
  {
    assert |b| > 0;
    if a[0] == b[0] {
      SubsequenceDropHead(a[1..], b);
    } else {
      SubsequenceOfTail(a, b[1..]);
      SubsequenceDropHead(a[1..], b);
    }
  }

  /** Masking with a mask that keeps nothing leaves nothing. */
  lemma {:induction false} KeepNothing(rows: seq<Record>, p: Record -> bool)
    requires forall x :: !p(x)
    ensures Keep(rows, p) == []
    decreases |rows|
  {
    if |rows| > 0 {
      KeepNothing(rows[1..], p);
    }
  }

  /** Masking with a mask that keeps every row of the table leaves it unchanged. */
  lemma {:induction false} KeepEverything(rows: seq<Record>, p: Record -> bool)
    requires forall i :: 0 <= i < |rows| ==> p(rows[i])
    ensures Keep(rows, p) == rows
    decreases |rows|
  {
    if |rows| > 0 {
      KeepEverything(rows[1..], p);
      assert [rows[0]] + rows[1..] == rows;
    }
  }

  // ---------------------------------------------------------------------------
  // The series filter

  /**
   * The three successive masks of either branch select exactly the rows a
   * single pass with the intended predicate selects.
   */
  lemma SeriesRowsIsWanted(rows: seq<Record>, selected: Option<seq<string>>, lo: int, hi: int)
    ensures SeriesRows(rows, selected, lo, hi) == Keep(rows, (x: Record) => Wanted(x, selected, lo, hi))
  {
    var atMost: Record -> bool := (x: Record) => x.year <= hi;
    var atLeast: Record -> bool := (x: Record) => x.year >= lo;
    var inRange: Record -> bool := (x: Record) => x.year <= hi && x.year >= lo;
    var wanted: Record -> bool := (x: Record) => Wanted(x, selected, lo, hi);
    KeepTwice(rows, atMost, atLeast, inRange);
    if NothingSelected(selected) {
      KeepSameMask(rows, inRange, wanted);
    } else {
      var inSel: Record -> bool := (x: Record) => x.country in selected.value;
      var selAtMost: Record -> bool := (x: Record) => x.country in selected.value && x.year <= hi;
      KeepTwice(rows, inSel, atMost, selAtMost);
      KeepTwice(rows, selAtMost, atLeast, wanted);
    }
  }

  /**
   * A row is plotted exactly as often as it occurs in the long table when it
   * is wanted (its country selected, or nothing selected, and its year within
   * `[lo, hi]`), and never otherwise.
   */
  lemma SeriesRowsCounts(rows: seq<Record>, selected: Option<seq<string>>, lo: int, hi: int, x: Record)
    ensures multiset(SeriesRows(rows, selected, lo, hi))[x] ==
            if Wanted(x, selected, lo, hi) then multiset(rows)[x] else 0
  {
    SeriesRowsIsWanted(rows, selected, lo, hi);
    KeepCounts(rows, (x: Record) => Wanted(x, selected, lo, hi), x);
  }

  /** A row is plotted exactly when it is in the long table and wanted. */
  lemma SeriesRowsMembers(rows: seq<Record>, selected: Option<seq<string>>, lo: int, hi: int, x: Record)
    ensures x in SeriesRows(rows, selected, lo, hi) <==> x in rows && Wanted(x, selected, lo, hi)
  {
    SeriesRowsCounts(rows, selected, lo, hi, x);
  }

  /** The plotted rows are in the order of the long table. */
  lemma SeriesRowsInOrder(rows: seq<Record>, selected: Option<seq<string>>, lo: int, hi: int)
    ensures IsSubsequence(SeriesRows(rows, selected, lo, hi), rows)
  {
    SeriesRowsIsWanted(rows, selected, lo, hi);
    KeepIsSubsequence(rows, (x: Record) => Wanted(x, selected, lo, hi));
  }

  /** A reversed year range plots nothing. */
  lemma SeriesRowsReversedRange(rows: seq<Record>, selected: Option<seq<string>>, lo: int, hi: int)
    requires lo > hi
    ensures SeriesRows(rows, selected, lo, hi) == []
  {
    SeriesRowsIsWanted(rows, selected, lo, hi);
    KeepNothing(rows, (x: Record) => Wanted(x, selected, lo, hi));
  }

  /** Filtering the plotted rows again with the same dropdown and slider values changes nothing. */
  lemma SeriesRowsIdempotent(rows: seq<Record>, selected: Option<seq<string>>, lo: int, hi: int)
    ensures SeriesRows(SeriesRows(rows, selected, lo, hi), selected, lo, hi) == SeriesRows(rows, selected, lo, hi)
  {
    var wanted: Record -> bool := (x: Record) => Wanted(x, selected, lo, hi);
    var once := SeriesRows(rows, selected, lo, hi);
    SeriesRowsIsWanted(rows, selected, lo, hi);
    SeriesRowsIsWanted(once, selected, lo, hi);
    KeepTwice(rows, wanted, wanted, wanted);
  }

  /**
   * `None` and the empty list both mean every country: the result is the
   * long table restricted to `[lo, hi]`, whatever the countries.
   */
  lemma NothingSelectedKeepsEveryCountry(rows: seq<Record>, lo: int, hi: int)
    ensures SeriesRows(rows, None, lo, hi) == SeriesRows(rows, Some([]), lo, hi)
    ensures SeriesRows(rows, None, lo, hi) == Keep(rows, (x: Record) => lo <= x.year <= hi)
  {
    SeriesRowsIsWanted(rows, None, lo, hi);
    KeepSameMask(rows, (x: Record) => Wanted(x, None, lo, hi), (x: Record) => lo <= x.year <= hi);
  }

  /** When every row's year is in `[lo, hi]`, an empty selection plots the whole long table. */
  lemma FullRangeKeepsAll(rows: seq<Record>, lo: int, hi: int)
    requires forall i :: 0 <= i < |rows| ==> lo <= rows[i].year <= hi
    ensures SeriesRows(rows, None, lo, hi) == rows
  {
    NothingSelectedKeepsEveryCountry(rows, lo, hi);
    KeepEverything(rows, (x: Record) => lo <= x.year <= hi);
  }
}
