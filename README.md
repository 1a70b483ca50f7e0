# Tree growth table generator

A Dafny model of `generate_tree_table(b30, o_values)` from the SPTF tree farm
dashboard (`growth.py`). The function builds a fixed table of 27 rows and 13
columns that mirrors a spreadsheet:

- column 0 is a blank label column and is never filled;
- column 1, "Tree Height (ft)", holds 26 hard-coded tree counts (spreadsheet
  cells B2:B27) in rows 1..26;
- columns 2..12 are the years 2025..2035;
- row 1 holds the yearly purchase `b30` (B30) in every year column;
- rows 2..26 hold, in every year column, the count shown in the height
  column one row above, reduced by that row's adjustment and clamped at zero.
  This is the code's computation. The spreadsheet formula quoted beside it,
  filled across, gives the same only in the first year column (see
  "## Left out").

If not exactly 26 adjustments are given, the function raises an error and
produces no table.

The model (`growth.dfy`, module `Growth`) represents a cell as
`Empty | Num(real)`. `Empty` is a cell that is never assigned and reads as
NaN once the table is made numeric. The table is a header sequence plus an
`array2<Cell>`. `GenerateTreeTable` allocates the array and fills it in place
in the order `generate_tree_table` does: the height column and the purchase
row (slice assignments in growth.py, loops in the model), then rows 2..26
with the same nested row and year-column loops. Its postcondition
ties every cell to the specification function `ExpectedCell`. The lemmas
state the table's properties about that function.

The row offset is reproduced as written. Row r of the height column shows
`b_values[r-1]`, but the formula in row r reads `b_values[r-2]` and
`o_values[r-2]`, the row above. In the first year column this matches the
spreadsheet formula quoted at growth.py:39, where C3 refers to B2 and O2. As a
result the last adjustment (O27) is never read.

## Model

| member | source | states |
|---|---|---|
| `Growth.GenerateTreeTable` | growth.py:5-54 | fails with the "Expected exactly 26 values" error exactly when the adjustment count is not 26; otherwise returns the 13 headers and a 27 x 13 table whose every cell is the one the code computes (`ExpectedCell`) |
| `Growth.YearRange` | growth.py:28 | Python's `range(lo, stop)` of years: `stop - lo` entries (none if empty), entry i is year `lo + i` |
| `Growth.ColumnHeaders` | growth.py:28 | 13 headers: blank, "Tree Height (ft)", then the years 2025..2035 in order, the last being 2035 |
| `Growth.ClampedReduction` | growth.py:39-49 | the formula's value is `max(b - o, 0)`: never negative, at least `b - o`, equal to one of them; with non-negative inputs it never exceeds `b` |
| `Growth.CountsByHeightNonNegative` | growth.py:17-21 | there are 26 hard-coded counts and none is negative |
| `Growth.UnassignedCellsEmpty` | growth.py:31-37 | row 0 and column 0 are never assigned and stay empty |
| `Growth.HeightColumn` | growth.py:34 | row r of column 1 holds the r-th hard-coded count `b_values[r-1]` |
| `Growth.PurchaseRow` | growth.py:37 | every year column of row 1 holds `b30` |
| `Growth.ReductionRule` | growth.py:40-49 | a year cell of rows 2..26 is `b_values[r-2] - o_values[r-2]` when the adjustment is at most the count, and 0 otherwise |
| `Growth.ReductionOfRowAbove` | growth.py:40-47 | a year cell of row r reduces the height shown in row r-1, by the adjustment of row r-1 |
| `Growth.ZeroAdjustmentShifts` | growth.py:40-49 | with all adjustments zero, rows 2..26 repeat the height column shifted down one row |
| `Growth.ReductionBounds` | growth.py:46-49 | a year cell of rows 2..26 is a number, never negative, and with a non-negative adjustment at most the count it reduces |
| `Growth.YearColumnsAgree` | growth.py:41-49 | within any row all year columns hold the same value |
| `Growth.LastAdjustmentUnread` | growth.py:40-43 | two adjustment lists that differ only in their last entry (O27) give the same table |
| `Growth.FirstYearMatchesFormula` | growth.py:39-49 | in the first year column (2025) every cell equals what the quoted formula `IF($O2<=B2,B2-$O2,B2-B2)` gives when filled down |
| `Growth.LaterYearsDifferFromFormula` | growth.py:39-49 | in every later year column, row 2 holds 0 while the quoted formula filled across gives `b30 - o_values[0]`, so they differ whenever the purchase exceeds a non-negative first adjustment |

## Left out

- The Streamlit widgets that collect `b30` and the 26 adjustments and display the table (growth.py:56-73) are user interface. Their lower bound of 0 on every input appears only as a hypothesis of `ReductionBounds` and `LaterYearsDifferFromFormula`.
- The conversion of the table to numbers (growth.py:52) is modelled only as "an unassigned cell is `Empty`". Integer versus float column types and float rounding are not modelled: values are exact reals.
- Adjustments that are not numbers (NaN, strings) are not modelled, because the adjustments are typed `real`.
- The row labels 0..26 of the table are the array's row positions and are not stored separately.
- GenerateTreeTable: the postcondition does not state `fresh(res.value.cells)`, although growth.py:52 always returns a new DataFrame. A caller therefore cannot assume that the returned array is distinct from an `array2<Cell>` it already holds, nor that writing to one leaves the other unchanged.
- The year columns follow the code, not the formula quoted at growth.py:39. That formula anchors only the O column, so filled across the year columns it would make each year reduce the previous year's column (an aging of the stock). The code reads column B (`b_values[row-2]`, growth.py:42) in every year column. The two agree only in the first year column (`FirstYearMatchesFormula`); `LaterYearsDifferFromFormula` shows they differ from 2026 on. The comment's range C3:L27 covers ten year columns, one short of the eleven (2025..2035, columns C..M) that growth.py:37 and growth.py:41 fill; `FormulaFilledCell` covers all eleven. The model keeps the code's behaviour, and `FormulaFilledCell` states the filled formula only for that comparison.
- The dashboard in sptf.py (password gate, encrypted spreadsheet loading, filters, charts) and the broken fragment test1.py are not part of this model: they are user interface and file I/O.
- No multi-year growth, mortality or sales simulation exists in the modelled code: the year columns do not depend on the year.
