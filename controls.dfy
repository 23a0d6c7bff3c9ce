/**
 * The values the page's controls are built from: the list of years taken
 * from the column labels of the wide table (assignment5.py lines 74-75),
 * the range slider's bounds, default value and marks (lines 103-107), and
 * the dropdown's options, the distinct country names (line 95).
 */
module Controls {
  import opened Wrappers
  import opened Digits
  import opened Reshape
  import opened Selection

  /** `[int(i) for i in gdp.columns]`: `None` when some label is not an integer. */
  function YearList(labels: seq<string>): (r: Option<seq<nat>>)
    ensures r.Some? <==> forall j :: 0 <= j < |labels| ==> ParseNat(labels[j]).Some?
    ensures r.Some? ==> |r.value| == |labels|
    ensures r.Some? ==> forall j :: 0 <= j < |labels| ==> r.value[j] == ParseNat(labels[j]).value
    decreases |labels|
  {
    if |labels| == 0 then Some([])
    else
      match ParseNat(labels[0])
      case None => None
      case Some(year) =>
        match YearList(labels[1..])
        case None => None
        case Some(rest) => Some([year] + rest)
  }

  /** `min(years)`: one of the years, and no year is smaller. */
  function Min(years: seq<nat>): (m: nat)
    requires |years| > 0
    ensures m in years
    ensures forall i :: 0 <= i < |years| ==> m <= years[i]
    decreases |years|
  {
    if |years| == 1 then years[0]
    else
      var rest := Min(years[1..]);
      if years[0] <= rest then years[0] else rest
  }

  /** `max(years)`: one of the years, and no year is larger. */
  function Max(years: seq<nat>): (m: nat)
    requires |years| > 0
    ensures m in years
    ensures forall i :: 0 <= i < |years| ==> years[i] <= m
    decreases |years|
  {
    if |years| == 1 then years[0]
    else
      var rest := Max(years[1..]);
      if years[0] >= rest then years[0] else rest
  }

  /** `range(start, stop, 50)`: `start`, `start + 50`, ... while below `stop`. */
  function Range(start: nat, stop: nat): (r: seq<nat>)
    ensures forall i :: 0 <= i < |r| ==> start <= r[i] < stop
    decreases stop - start
  {
    if start >= stop then [] else [start] + Range(start + 50, stop)
  }

  /** The marks `{i: '{}'.format(i) for i in range(lo, hi + 50, 50)}`. */
  function Marks(lo: nat, hi: nat): (m: map<nat, string>)
    ensures forall k :: k in m ==> lo <= k < hi + 50
  {
    map k | k in Range(lo, hi + 50) :: ShowNat(k)
  }

  /** The places `range(lo, hi + 50, 50)` puts a mark: from `lo` in steps of 50, below `hi + 50`. */
  predicate OnSlider(lo: nat, hi: nat, k: nat) {
    lo <= k < hi + 50 && (k - lo) % 50 == 0
  }

  /** The configuration of the year `RangeSlider`. */
  datatype YearSlider = YearSlider(
    lo: nat,                   // min
    hi: nat,                   // max
    step: nat,                 // step
    value: (nat, nat),         // the default selection [min, max]
    marks: map<nat, string>)   // marks

  /** What stops the slider from being built. */
  datatype ControlsError =
    | UnparsableYear   // `int(i)` raises on a column label
    | NoYears          // `min` and `max` raise on an empty list

  /** The slider of lines 103-107, built from the column labels of the wide table. */
  function SliderFor(labels: seq<string>): (r: Result<YearSlider, ControlsError>)
    ensures r.Ok? <==> |labels| > 0 && forall j :: 0 <= j < |labels| ==> ParseNat(labels[j]).Some?
    ensures r == Err(NoYears) <==> |labels| == 0
    ensures r.Ok? ==>
              var s := r.value;
              s.step == 1 && s.value == (s.lo, s.hi) &&
              (exists j :: 0 <= j < |labels| && ParseNat(labels[j]) == Some(s.lo)) &&
              (exists j :: 0 <= j < |labels| && ParseNat(labels[j]) == Some(s.hi)) &&
              (forall j :: 0 <= j < |labels| ==> s.lo <= ParseNat(labels[j]).value <= s.hi) &&
              s.marks == Marks(s.lo, s.hi)
  {
    match YearList(labels)
    case None => Err(UnparsableYear)
    case Some(years) =>
      if |years| == 0 then Err(NoYears)
      else
        var lo, hi := Min(years), Max(years);
        assert YearBounds: forall j :: 0 <= j < |labels| ==> lo <= ParseNat(labels[j]).value <= hi by {
          forall j | 0 <= j < |labels|
            ensures lo <= ParseNat(labels[j]).value <= hi
          {
            assert years[j] == ParseNat(labels[j]).value;
          }
        }
        assert exists j :: 0 <= j < |labels| && ParseNat(labels[j]) == Some(lo) by {
          var j :| 0 <= j < |years| && years[j] == lo;
          assert ParseNat(labels[j]) == Some(lo);
        }
        assert exists j :: 0 <= j < |labels| && ParseNat(labels[j]) == Some(hi) by {
          var j :| 0 <= j < |years| && years[j] == hi;
          assert ParseNat(labels[j]) == Some(hi);
        }
        Ok(YearSlider(lo, hi, 1, (lo, hi), Marks(lo, hi)))
  }

  /** `gdp['country'].unique()`: each name once, in the order of first appearance. */
  function Unique(names: seq<string>): (u: seq<string>)
    ensures forall x :: x in u <==> x in names
    ensures forall i, j :: 0 <= i < j < |u| ==> u[i] != u[j]
    decreases |names|
  {
    if |names| == 0 then []
    else
      var seen := Unique(names[..|names| - 1]);
      var last := names[|names| - 1];
      if last in seen then seen else seen + [last]
  }

  /** `gdp['country'].unique()` on the country column of the wide table. */
  function DropdownOptions(g: Grid): (options: seq<string>)
    ensures forall x :: x in options <==> x in g.countries
    ensures forall i, j :: 0 <= i < j < |options| ==> options[i] != options[j]
  {
    Unique(g.countries)
  }

  /** The position of the first occurrence of `x` in `s`. */
  function FirstIndex(s: seq<string>, x: string): (p: nat)
    requires x in s
    ensures p < |s| && s[p] == x
    ensures forall k :: 0 <= k < p ==> s[k] != x
    decreases |s|
  {
    if s[0] == x then 0 else 1 + FirstIndex(s[1..], x)
  }

  // ---------------------------------------------------------------------------
  // Slider marks

  /** The marks are exactly the numbers from `start` below `stop` in steps of 50. */
  lemma {:induction false} RangeMembers(start: nat, stop: nat, x: nat)
    ensures x in Range(start, stop) <==> start <= x < stop && (x - start) % 50 == 0
    decreases stop - start
  {
    if start < stop {
      RangeMembers(start + 50, stop, x);
      assert Range(start, stop) == [start] + Range(start + 50, stop);
    }
  }

  /** A non-empty range ends within 50 of `stop`. */
  lemma {:induction false} RangeLast(start: nat, stop: nat)
    requires start < stop
    ensures |Range(start, stop)| > 0
    ensures stop <= Range(start, stop)[|Range(start, stop)| - 1] + 50
    decreases stop - start
  {
    var rest := Range(start + 50, stop);
    assert Range(start, stop) == [start] + rest;
    if start + 50 < stop {
      RangeLast(start + 50, stop);
      assert ([start] + rest)[|rest|] == rest[|rest| - 1];
    } else {
      assert rest == [];
    }
  }

  /** The keys of the marks are exactly the places on the slider. */
  lemma MarksKeys(lo: nat, hi: nat)
    ensures forall k: nat :: k in Marks(lo, hi) <==> OnSlider(lo, hi, k)
  {
    forall k: nat ensures k in Marks(lo, hi) <==> OnSlider(lo, hi, k) {
      RangeMembers(lo, hi + 50, k);
    }
  }

  /** Each mark is labelled with text that reads back as its year. */
  lemma MarksLabels(lo: nat, hi: nat)
    ensures forall k :: k in Marks(lo, hi) ==> ParseNat(Marks(lo, hi)[k]) == Some(k)
  {
    var m := Marks(lo, hi);
    forall k | k in m ensures ParseNat(m[k]) == Some(k) {
      ParseShowRoundTrip(k);
    }
  }

  /**
   * The marks start at `lo`, lie 50 apart, stay below `hi + 50`, reach at
   * least `hi`, and each is labelled with the decimal text of its year.
   */
  lemma MarksShape(lo: nat, hi: nat)
    requires lo <= hi
    ensures lo in Marks(lo, hi)
    ensures forall k: nat :: k in Marks(lo, hi) <==> OnSlider(lo, hi, k)
    ensures exists k :: k in Marks(lo, hi) && hi <= k
    ensures forall k :: k in Marks(lo, hi) ==> ParseNat(Marks(lo, hi)[k]) == Some(k)
  {
    var m := Marks(lo, hi);
    MarksKeys(lo, hi);
    MarksLabels(lo, hi);
    var r := Range(lo, hi + 50);
    assert r[0] == lo;
    RangeLast(lo, hi + 50);
    assert r[|r| - 1] in m;
  }

  /** The marks of the slider built from the labels reach from its lower bound past its upper bound. */
  lemma SliderMarks(labels: seq<string>, s: YearSlider)
    requires SliderFor(labels) == Ok(s)
    ensures s.lo in s.marks
    ensures forall k: nat :: k in s.marks <==> OnSlider(s.lo, s.hi, k)
    ensures exists k :: k in s.marks && s.hi <= k
    ensures forall k :: k in s.marks ==> ParseNat(s.marks[k]) == Some(k)
  {
    assert s.lo <= s.hi by {
      var j :| 0 <= j < |labels| && ParseNat(labels[j]) == Some(s.lo);
    }
    MarksShape(s.lo, s.hi);
  }

  // ---------------------------------------------------------------------------
  // The default slider value and the filter

  /**
   * With nothing selected in the dropdown and the slider at its default
   * `[min(years), max(years)]`, every row whose year is one of the years is
   * plotted: the filter returns the long table unchanged.
   */
  lemma DefaultSelectionShowsEverything(labels: seq<string>, rows: seq<Record>)
    requires SliderFor(labels).Ok?
    requires forall i :: 0 <= i < |rows| ==>
               exists j :: 0 <= j < |labels| && ParseNat(labels[j]) == Some(rows[i].year)
    ensures var s := SliderFor(labels).value;
            SeriesRows(rows, None, s.value.0, s.value.1) == rows
  {
    var s := SliderFor(labels).value;
    forall i | 0 <= i < |rows| ensures s.lo <= rows[i].year <= s.hi {
      var j :| 0 <= j < |labels| && ParseNat(labels[j]) == Some(rows[i].year);
      assert s.lo <= ParseNat(labels[j]).value <= s.hi;
    }
    FullRangeKeepsAll(rows, s.lo, s.hi);
  }

  // ---------------------------------------------------------------------------
  // Dropdown options

  /** Within a prefix, the first occurrence of a name does not move when names are appended. */
  lemma FirstIndexPrefix(p: seq<string>, c: string, x: string)
    requires x in p
    ensures FirstIndex(p + [c], x) == FirstIndex(p, x)
  {
    var a, b := FirstIndex(p + [c], x), FirstIndex(p, x);
    assert (p + [c])[b] == x;
    assert a <= b;
    assert p[a] == x;
  }

  /** A name not in the prefix first occurs where it is appended. */
  lemma FirstIndexNew(p: seq<string>, c: string)
    requires c !in p
    ensures FirstIndex(p + [c], c) == |p|
  {
  }

  /** The dropdown lists the countries in the order in which they first appear. */
  lemma {:induction false} UniqueInFirstAppearanceOrder(names: seq<string>)
    ensures forall i, j :: 0 <= i < j < |Unique(names)| ==>
              FirstIndex(names, Unique(names)[i]) < FirstIndex(names, Unique(names)[j])
    decreases |names|
  {
    if |names| > 0 {
      var p, c := names[..|names| - 1], names[|names| - 1];
      assert names == p + [c];
      var seen := Unique(p);
      UniqueInFirstAppearanceOrder(p);
      forall i, j | 0 <= i < j < |seen| ensures FirstIndex(names, seen[i]) < FirstIndex(names, seen[j]) {
        assert FirstIndex(p, seen[i]) < FirstIndex(p, seen[j]);
        FirstIndexPrefix(p, c, seen[i]);
        FirstIndexPrefix(p, c, seen[j]);
      }
      if c !in seen {
        FirstIndexNew(p, c);
        var u := seen + [c];
        forall i, j | 0 <= i < j < |u| ensures FirstIndex(names, u[i]) < FirstIndex(names, u[j]) {
          assert u[i] == seen[i];
          if j == |seen| {
            FirstIndexPrefix(p, c, seen[i]);
          }
        }
      }
    }
  }
}
