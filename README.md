# GDP per capita dashboard: a verified model of its data core

The dashboard reads a wide table of GDP per capita, with one row per country and
one column per year label. Each cell is a raw string such as `950`, `45k` or `1.2k`.
The script turns this table into a long table of `(country, year, gdp)` records:

- `stack()` makes one row per cell;
- the year labels are converted to integers;
- three regular-expression passes rewrite the gdp strings;
- `astype(int)` converts the rewritten strings.

The script also builds three things for the page:

- the year list and the range slider's bounds, default value and marks;
- the dropdown's country options;
- the chart callback's row selection, by country and by year range.

The Dafny model has these modules:

- `Digits` (`digits.dfy`): the integer conversion (`int()`, `astype(int)`) as
  `ParseNat`, and decimal formatting (`'{}'.format`) as `ShowNat`.
- `Cleaning` (`cleaning.dfy`): the three passes and the final conversion of one
  cell.
  - Pass 1 replaces each leftmost, non-overlapping `digit '.' digit 'k'` with the
    two digits, a backslash and `00`.
  - Pass 2 replaces every `k` with `000`.
  - Pass 3 deletes every backslash.
- `Reshape` (`reshape.dfy`): the loading script as methods.
  - `Stack` is a nested loop.
  - `ParseColumn` is `astype(int)`, which fails on the first bad string.
  - `CleanColumn` reassigns the gdp column three times.
  - `Load` chains them.
- `Selection` (`selection.dfy`): the boolean masks of `update_figure`, proved equal
  to a one-pass reference filter `Wanted`.
- `Controls` (`controls.dfy`): the year list, `min`/`max`, the marks built from
  `range(min, max + 50, 50)`, and the dropdown options built by `unique()`.
- `Wrappers` (`wrappers.dfy`): `Option` and `Result`.

Facts about the code that the model keeps:

- Every `k` becomes `000`, wherever it stands in the string, not only at the end.
- `1.2k` gains two zeros and becomes `1200`.
- A match of pass 1 is rewritten wherever it stands, so `1.2k1.2k` becomes `12001200`.
- The long table is in country-row then year-column order.
- The code never checks that values are non-negative. Here they are non-negative
  only because the parse accepts plain ASCII digits.

## Model

| member | source | states |
|---|---|---|
| Digits.ParseNat | assignment5.py:66 | `int()` and `astype(int)` on one string: the lemmas show it reads back every rendered number (`ParseShowRoundTrip`), reads a digit string as its value and rejects the empty string (`PlainDigits`) |
| Digits.ShowNat | assignment5.py:107 | `'{}'.format(i)` for a mark label: the lemmas show the text is digits without a leading zero (`ShowNatDigits`) and converts back to `i` (`ParseShowRoundTrip`) |
| Digits.ParseShowRoundTrip | assignment5.py:107 | the decimal text written for a mark label converts back with `int()` to the same year |
| Digits.ShowNatDigits | assignment5.py:107 | a mark label is a non-empty string of digits with no leading zero |
| Cleaning.Pass1 | assignment5.py:63 | pass 1 brings in no character but the template's backslash and `0`; the lemmas show it rewrites a match wherever it stands (`Pass1Match`) and returns text in which the pattern matches nowhere unchanged (`Pass1NoMatch`, and `Pass1NoDot` for text without a `.`) |
| Cleaning.Pass2 | assignment5.py:64 | no `k` is left after pass 2; a `k` anywhere becomes `000` (`Pass2EveryK`) |
| Cleaning.Pass3 | assignment5.py:65 | no backslash is left after pass 3 |
| Cleaning.Normalize | assignment5.py:63-66 | the cleaning and conversion of one cell: the lemmas give the exact condition for success (`NormalizeSucceeds`) and the values of `a.bk`, `<digits>k` and plain digits (`DecimalThousands`, `BareThousands`, `PlainDigits`) |
| Cleaning.Pass1Match | assignment5.py:63 | a match anywhere in the string is rewritten to its two digits, a backslash and `00`, and the text before and after is scanned as if on its own |
| Cleaning.Pass2KeepsMatch | assignment5.py:64 | pass 2 leaves what pass 1 made of a match unchanged and works on either side of it |
| Cleaning.Pass3DropsBackslash | assignment5.py:65 | pass 3 removes the backslash of a rewritten match and works on either side of it |
| Cleaning.MatchRewrite | assignment5.py:63-65 | the three passes turn a match anywhere in the string into its two digits and `00`, and treat the text before and after independently |
| Cleaning.Pass2EveryK | assignment5.py:64 | pass 2 turns a `k` anywhere in the string, not only a trailing one, into `000`, and leaves no `k` |
| Cleaning.ReplaceAppend | assignment5.py:64-65 | a one-character substitution works piece by piece over concatenation |
| Cleaning.ReplaceChar | assignment5.py:64-65 | a one-character `re.sub` leaves no occurrence of its character when the replacement text does not contain it |
| Cleaning.ReplaceAbsent | assignment5.py:64-65 | a substitution changes nothing when its character does not occur |
| Cleaning.Pass1NoMatch | assignment5.py:63 | text in which `(\d)\.(\d)k` matches at no position, such as `1.5` or `1.23k`, leaves pass 1 unchanged |
| Cleaning.Pass1NoDot | assignment5.py:63 | without a `.` pass 1 finds no match and changes nothing |
| Cleaning.Pass1DigitPrefix | assignment5.py:63 | a leading run of digits not followed by `.` passes through pass 1 unchanged |
| Cleaning.DecimalRewrite | assignment5.py:63-65 | the three passes turn `<digits>a.bk` into `<digits>ab00` |
| Cleaning.DecimalThousands | assignment5.py:63-66 | `<digits>a.bk` converts to the integer of `<digits>ab` times 100 |
| Cleaning.BareRewrite | assignment5.py:63-65 | the three passes turn `<digits>k` into `<digits>000` |
| Cleaning.BareThousands | assignment5.py:63-66 | `<digits>k` converts to 1000 times the integer of `<digits>` |
| Cleaning.DigitsSurviveCleaning | assignment5.py:64-65 | passes 2 and 3 leave a digit string unchanged |
| Cleaning.PlainDigits | assignment5.py:63-66 | a plain digit string is unchanged by the passes; it converts to its value, and the empty string fails |
| Cleaning.NormalizeSucceeds | assignment5.py:63-66 | a cell converts if and only if pass 1 leaves only digits, `k` and backslashes (`AllCleanable`), and not only backslashes (`SomeKept`) |
| Cleaning.ExampleOnePointTwoK | assignment5.py:63-66 | `1.2k` becomes 1200 |
| Cleaning.ExampleTwelvePointFiveK | assignment5.py:63-66 | `12.5k` becomes 12500 |
| Cleaning.ExampleFortyFiveK | assignment5.py:64-66 | `45k` becomes 45000 |
| Cleaning.ExampleNineFifty | assignment5.py:63-66 | `950` becomes 950 |
| Cleaning.ExampleTwoMatches | assignment5.py:63-65 | `1.2k1.2k` is rewritten to `12001200` |
| Cleaning.ExampleDecimalRejected | assignment5.py:63-66 | `1.5` passes all three substitutions unchanged and fails the integer conversion |
| Cleaning.ExampleTwoDecimalsRejected | assignment5.py:63-66 | `1.23k` is rewritten to `1.23000` and the integer conversion fails |
| Reshape.Stack | assignment5.py:59 | the nested loop builds exactly the stacked table, country row by country row, year column by year column |
| Reshape.Stacked | assignment5.py:59 | `stack()` as a value: the lemmas show it has rows × columns entries (`StackedCount`), holds every cell at its row-major place (`StackedCells`) and nothing else (`StackedOnlyCells`) |
| Reshape.StackedCount | assignment5.py:59 | the stacked table has rows × columns entries |
| Reshape.StackedAt | assignment5.py:59 | the cell in row `i`, column `j` sits at position `i·n + j` of the stacked table |
| Reshape.StackedIndex | assignment5.py:59 | every position of the stacked table is the place of some row `i` and column `j` |
| Reshape.StackedCells | assignment5.py:59 | every cell of the wide table appears in the stacked table at its place |
| Reshape.StackedOnlyCells | assignment5.py:59 | every entry of the stacked table is a cell of the wide table |
| Reshape.OffsetIsProduct | assignment5.py:59 | the start of row `i` is `i·n` |
| Reshape.ParseColumn | assignment5.py:61 | `astype(int)` succeeds if and only if every string converts, and keeps each value in place; otherwise it reports the first string that does not convert |
| Reshape.CleanColumn | assignment5.py:63-65 | after the three reassignments each gdp entry is its raw cell rewritten by passes 1, 2 and 3 |
| Reshape.YearColumnConverts | assignment5.py:61 | the year column converts if and only if every year label converts, or the table has no rows |
| Reshape.GdpColumnConverts | assignment5.py:66 | the cleaned gdp column converts if and only if every cell normalises |
| Reshape.BadYearLabel | assignment5.py:61 | an entry of the year column that fails is a year label that fails, and the table has rows |
| Reshape.BadGdpCell | assignment5.py:66 | an entry of the gdp column that fails is the rewriting of a cell that does not normalise |
| Reshape.RecordsLayout | assignment5.py:59-66 | records built entry by entry from the stacked table hold, at position `i·n + j`, the country, converted year and converted value of cell `(i, j)` |
| Reshape.Load | assignment5.py:59-66 | loading succeeds if and only if all year labels and all cells convert. On success there are rows × columns records, in country-then-year order, each with its country, its converted year and its normalised value. A bad year is reported before a bad value, and each error names a label or cell that really fails |
| Selection.Keep | assignment5.py:131 | boolean masking never adds rows, and every row it returns is from the table and accepted by the mask |
| Selection.YearAtMost | assignment5.py:130-131 | `year.le(hi)` keeps only rows with a year of at most `hi` |
| Selection.YearAtLeast | assignment5.py:132-133 | `year.ge(lo)` keeps only rows with a year of at least `lo` |
| Selection.CountryIn | assignment5.py:139-140 | `country.isin(selection)` keeps only rows of selected countries |
| Selection.SeriesRows | assignment5.py:128-144 | the callback's selection returns no more rows than the long table holds, each with a year in `[lo, hi]`, and, when something is selected, each of a selected country |
| Selection.KeepSameMask | assignment5.py:131 | masks that agree on every row select the same rows |
| Selection.KeepTwice | assignment5.py:130-133 | masking twice is masking once by the conjunction of the masks |
| Selection.KeepAppend | assignment5.py:131 | masking distributes over concatenation |
| Selection.KeepCounts | assignment5.py:131 | a mask keeps every copy of a row it accepts and no copy of a row it rejects |
| Selection.KeepIsSubsequence | assignment5.py:131 | a masked table is an order-preserving subsequence of the table |
| Selection.KeepEverything | assignment5.py:131 | a mask that accepts every row returns the table unchanged |
| Selection.KeepNothing | assignment5.py:131 | a mask that accepts no row returns the empty table |
| Selection.SeriesRowsIsWanted | assignment5.py:129-144 | both branches' successive masks equal one pass of the reference predicate: country selected, or nothing selected, and `lo <= year <= hi` |
| Selection.SeriesRowsCounts | assignment5.py:129-144 | a row is plotted exactly as often as it occurs when it is wanted, and never otherwise |
| Selection.SeriesRowsMembers | assignment5.py:129-144 | a row is plotted if and only if it is in the long table and wanted |
| Selection.SeriesRowsInOrder | assignment5.py:130-133 | the plotted rows are an order-preserving subsequence of the long table |
| Selection.SeriesRowsReversedRange | assignment5.py:130-133 | a slider value with `lo > hi` plots nothing |
| Selection.SeriesRowsIdempotent | assignment5.py:129-144 | filtering the result again with the same inputs changes nothing |
| Selection.NothingSelectedKeepsEveryCountry | assignment5.py:129-133 | `None` and `[]` select the same rows: every row whose year is within the range, whatever its country |
| Selection.FullRangeKeepsAll | assignment5.py:129-133 | when every year lies within the range, an empty selection plots the whole long table |
| Controls.YearList | assignment5.py:74-75 | the year list exists if and only if every column label converts; each year is its label's value, in column order |
| Controls.Min | assignment5.py:103 | `min(years)` is one of the years and no year is smaller |
| Controls.Max | assignment5.py:104 | `max(years)` is one of the years and no year is larger |
| Controls.SliderFor | assignment5.py:103-107 | the slider exists if and only if there are labels and all of them convert; its bounds are years that occur and enclose every year; its default value is `[min, max]` and its step is 1 |
| Controls.Range | assignment5.py:107 | `range(start, stop, 50)` lies within `[start, stop)`; `RangeMembers` and `RangeLast` give its exact contents |
| Controls.Marks | assignment5.py:107 | every mark lies within `[min, max + 50)`; `MarksShape` gives the exact keys and labels |
| Controls.RangeMembers | assignment5.py:107 | `range(start, stop, 50)` holds exactly the numbers from `start`, in steps of 50, below `stop` |
| Controls.RangeLast | assignment5.py:107 | the last number of a non-empty `range(start, stop, 50)` is within 50 of `stop` |
| Controls.MarksShape | assignment5.py:107 | the marks start at `min`, lie 50 apart and stay below `max + 50`; some mark is at least `max`; each label reads back as its year |
| Controls.MarksKeys | assignment5.py:107 | the keys of the marks are exactly the numbers from `min`, in steps of 50, below `max + 50` |
| Controls.MarksLabels | assignment5.py:107 | each mark's label is the decimal text that reads back as its year |
| Controls.SliderMarks | assignment5.py:103-107 | the slider built from the labels has marks of that shape between its own bounds |
| Controls.DefaultSelectionShowsEverything | assignment5.py:103-107 | with nothing selected and the slider at its default `[min, max]`, every record whose year is a column year is plotted: the long table comes back unchanged |
| Controls.Unique | assignment5.py:95 | the dropdown options are the names of the country column, each exactly once |
| Controls.DropdownOptions | assignment5.py:95 | the options are exactly the country names of the wide table, each once |
| Controls.UniqueInFirstAppearanceOrder | assignment5.py:95 | the options are listed in order of each name's first appearance |
| Controls.FirstIndexPrefix | assignment5.py:95 | appending names does not move a name's first occurrence |

## Left out

- Reading the CSV and the stylesheet URL: the wide table is a parameter, `Grid`, and each cell is a present string.
- NaN cells dropped by `stack()`, and pandas' dtype inference, which can make `str(x)` yield `950.0`: every cell is a string, used as read.
- The Dash app, the layout tree, the callback wiring, the server object and `app.run`: this is web plumbing.
- The Plotly figure, its titles, labels and transition: a foreign charting library.
- Slider options that only affect the display: `step` is kept, `tooltip` is not.
- `Digits.ParseNat`: it models `int()` as accepting only a non-empty string of ASCII digits. It does not model Python's tolerance of surrounding whitespace, a sign or underscores, or its acceptance of non-ASCII Unicode digits. The `\d` of pass 1 is likewise ASCII-only. So negative years and values cannot arise in the model. Nor does it model the int64 width of `astype(int)` at lines 61 and 66: a digit string of 2^63 or more parses here.
- `Reshape.Load`: it works on local sequences. The script's in-place edits of module-level data frames are not modelled, namely `rename(inplace=True)` at line 60 and `reset_index(inplace=True)` at line 79; these only rename columns or move the country index into a column.
- `Reshape.ParseColumn`: it does not model the int64 `OverflowError` of `astype(int)` for a digit string of 2^63 or more, because the parse is unbounded; such a string converts here.
- `Reshape.Load`: its success condition leaves out the int64 `OverflowError` of both `astype(int)` calls, lines 61 and 66; a year or a value of 2^63 or more loads here.
- `Cleaning.Normalize`, `Cleaning.NormalizeSucceeds`: they leave out the int64 `OverflowError` of `astype(int)` at line 66; a cell that rewrites to a number of 2^63 or more counts as converting here. `int()` at line 75 is unbounded, so `Controls.YearList` and `Controls.SliderFor` are exact.
- `Reshape.ParseColumn`: it reports the offending string. Python's exception message text is not modelled.
- `Controls.SliderFor`: it reports a bad label or an empty label list as an error value. The exceptions `int()` and `min()` raise are not modelled.
- The `isin` mask with a selection that is not a list of strings: a selection is modelled as `None` or a list of names.
