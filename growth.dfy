/** A model of the tree growth table generator: a fixed 27 x 13 table whose
    first column is left blank, whose second column holds the hard-coded
    tree counts per height, and whose eleven year columns (2025..2035) hold
    the yearly purchase in the first data row and, below it, the count of
    the row above reduced by an adjustment and clamped at zero. */
module Growth {

  /** A table cell: never assigned (shown as NaN once the table is made
      numeric) or a number. */
  datatype Cell = Empty | Num(value: real)

  /** A column header: the blank label column, a text label, or a year. */
  datatype Header = Blank | Label(text: string) | Year(year: int)

  /** The one error the generator raises. */
  datatype Error = WrongAdjustmentCount(message: string)

  datatype Result<T> = Ok(value: T) | Err(error: Error)

  /** The generated table: its column headers and its cells, indexed by
      row (labelled 0..26) and column position. */
  datatype Table = Table(headers: seq<Header>, cells: array2<Cell>)

  const RowCount: nat := 27
  const ColumnCount: nat := 13
  const HeightClassCount: nat := 26
  const FirstYear: int := 2025
  const LastYear: int := 2035
  const HeightLabel: string := "Tree Height (ft)"
  const LengthMessage: string := "Expected exactly 26 values for O2:O27."

  /** The hard-coded tree counts per height class (`b_values`, spreadsheet
      cells B2:B27). */
  const CountsByHeight: seq<int> :=
    [0, 10646, 13536, 3487, 1382, 659, 654, 537, 495, 357,
     235, 150, 84, 53, 33, 26, 34, 38, 59, 47,
     62, 90, 152, 157, 139, 278]

  /** Every hard-coded count is a count: none is negative. */
  lemma CountsByHeightNonNegative(i: nat)
    requires i < |CountsByHeight|
    ensures |CountsByHeight| == HeightClassCount && CountsByHeight[i] >= 0
  {
  }

  /** The year headers of Python's `range(lo, stop)`. */
  function YearRange(lo: int, stop: int): (r: seq<Header>)
    decreases stop - lo
    ensures |r| == if lo < stop then stop - lo else 0
    ensures forall i :: 0 <= i < |r| ==> r[i] == Year(lo + i)
  {
    if stop <= lo then [] else [Year(lo)] + YearRange(lo + 1, stop)
  }

  /** The blank column, the height label, then one column per year from
      2025 to 2035 inclusive. */
  function ColumnHeaders(): (r: seq<Header>)
    ensures |r| == ColumnCount
    ensures r[0] == Blank && r[1] == Label(HeightLabel)
    ensures forall c :: 2 <= c < ColumnCount ==> r[c] == Year(FirstYear + c - 2)
    ensures r[ColumnCount - 1] == Year(LastYear)
  {
    [Blank, Label(HeightLabel)] + YearRange(FirstYear, LastYear + 1)
  }

  /** The branch of growth.py:46-49: the count `b` reduced by the
      adjustment `o`, never below zero. */
  function ClampedReduction(b: real, o: real): (r: real)
    ensures r >= 0.0 && r >= b - o
    ensures r == 0.0 || r == b - o
    ensures 0.0 <= o && 0.0 <= b ==> r <= b
  {
    if o <= b then b - o else 0.0
  }

  /** The cell at row `r` and column `c` of the table generated from the
      purchase `b30` and the adjustments `o`. */
  function ExpectedCell(b30: real, o: seq<real>, r: nat, c: nat): Cell
    requires |o| == HeightClassCount && r < RowCount && c < ColumnCount
  {
    if r == 0 || c == 0 then Empty
    else if c == 1 then Num(CountsByHeight[r - 1] as real)
    else if r == 1 then Num(b30)
    else Num(ClampedReduction(CountsByHeight[r - 2] as real, o[r - 2]))
  }

  /** `generate_tree_table` in growth.py: generates the table, or fails when
      not exactly 26 adjustments are given. The cells are filled in the order
      growth.py fills them: the height column and the purchase row (slice
      assignments there, loops here), then rows 2..26 year column by year
      column (nested loops in both). */
  method GenerateTreeTable(b30: real, o: seq<real>) returns (res: Result<Table>)
    ensures res.Err? <==> |o| != HeightClassCount
    ensures res.Err? ==> res.error == WrongAdjustmentCount(LengthMessage)
    ensures res.Ok? ==> res.value.headers == ColumnHeaders()
    ensures res.Ok? ==> res.value.cells.Length0 == RowCount && res.value.cells.Length1 == ColumnCount
    ensures res.Ok? ==> forall r, c :: 0 <= r < RowCount && 0 <= c < ColumnCount ==>
      res.value.cells[r, c] == ExpectedCell(b30, o, r, c)
  {
    if |o| != HeightClassCount {
      return Err(WrongAdjustmentCount(LengthMessage));
    }
    var headers := ColumnHeaders();
    var t := new Cell[RowCount, |headers|]((r, c) => Empty);

    // the height column, rows 1..26
    for r := 1 to RowCount
      invariant forall i, j :: 0 <= i < RowCount && 0 <= j < ColumnCount ==>
        t[i, j] == if j == 1 && i < r then ExpectedCell(b30, o, i, j) else Empty
    {
      t[r, 1] := Num(CountsByHeight[r - 1] as real);
    }

    // the purchase row, every year column
    for c := 2 to ColumnCount
      invariant forall i, j :: 0 <= i < RowCount && 0 <= j < ColumnCount ==>
        t[i, j] == if j == 1 || (i == 1 && 2 <= j < c) then ExpectedCell(b30, o, i, j) else Empty
    {
      t[1, c] := Num(b30);
    }

    // rows 2..26, every year column
    for r := 2 to RowCount
      invariant forall i, j :: 0 <= i < RowCount && 0 <= j < ColumnCount ==>
        t[i, j] == if j == 1 || (1 <= i < r && 2 <= j) then ExpectedCell(b30, o, i, j) else Empty
    {
      for c := 2 to ColumnCount
        invariant forall i, j :: 0 <= i < RowCount && 0 <= j < ColumnCount ==>
          t[i, j] == if j == 1 || (1 <= i < r && 2 <= j) || (i == r && 2 <= j < c)
                     then ExpectedCell(b30, o, i, j) else Empty
      {
        var b := CountsByHeight[r - 2] as real;
        var adjustment := o[r - 2];
        if adjustment <= b {
          t[r, c] := Num(b - adjustment);
        } else {
          t[r, c] := Num(0.0);
        }
      }
    }
    return Ok(Table(headers, t));
  }

  /** Row 0 and column 0 are never assigned. */
  lemma UnassignedCellsEmpty(b30: real, o: seq<real>, r: nat, c: nat)
    requires |o| == HeightClassCount && r < RowCount && c < ColumnCount
    requires r == 0 || c == 0
    ensures ExpectedCell(b30, o, r, c) == Empty
  {
  }

  /** Row r of the height column shows the r-th hard-coded count. */
  lemma HeightColumn(b30: real, o: seq<real>, r: nat)
    requires |o| == HeightClassCount && 1 <= r < RowCount
    ensures ExpectedCell(b30, o, r, 1) == Num(CountsByHeight[r - 1] as real)
  {
  }

  /** Every year column of row 1 holds the yearly purchase. */
  lemma PurchaseRow(b30: real, o: seq<real>, c: nat)
    requires |o| == HeightClassCount && 2 <= c < ColumnCount
    ensures ExpectedCell(b30, o, 1, c) == Num(b30)
  {
  }

  /** The year cells of rows 2..26, in both cases of the formula. */
  lemma ReductionRule(b30: real, o: seq<real>, r: nat, c: nat)
    requires |o| == HeightClassCount && 2 <= r < RowCount && 2 <= c < ColumnCount
    ensures o[r - 2] <= CountsByHeight[r - 2] as real ==>
      ExpectedCell(b30, o, r, c) == Num(CountsByHeight[r - 2] as real - o[r - 2])
    ensures o[r - 2] > CountsByHeight[r - 2] as real ==>
      ExpectedCell(b30, o, r, c) == Num(0.0)
  {
  }

  /** Rows 2..26 reduce the count shown one row above, in the height
      column, by the adjustment of that row above. */
  lemma ReductionOfRowAbove(b30: real, o: seq<real>, r: nat, c: nat)
    requires |o| == HeightClassCount && 2 <= r < RowCount && 2 <= c < ColumnCount
    ensures ExpectedCell(b30, o, r - 1, 1).Num?
    ensures ExpectedCell(b30, o, r, c) ==
      Num(ClampedReduction(ExpectedCell(b30, o, r - 1, 1).value, o[r - 2]))
  {
  }

  /** With no adjustments at all, rows 2..26 repeat the height column
      shifted down by one row. */
  lemma ZeroAdjustmentShifts(b30: real, o: seq<real>, r: nat, c: nat)
    requires |o| == HeightClassCount && 2 <= r < RowCount && 2 <= c < ColumnCount
    requires forall i :: 0 <= i < |o| ==> o[i] == 0.0
    ensures ExpectedCell(b30, o, r, c) == ExpectedCell(b30, o, r - 1, 1)
  {
    CountsByHeightNonNegative(r - 2);
  }

  /** The year cells of rows 2..26 are never negative and, when the
      adjustments are not negative, never exceed the count they reduce. */
  lemma ReductionBounds(b30: real, o: seq<real>, r: nat, c: nat)
    requires |o| == HeightClassCount && 2 <= r < RowCount && 2 <= c < ColumnCount
    ensures ExpectedCell(b30, o, r, c).Num?
    ensures ExpectedCell(b30, o, r, c).value >= 0.0
    ensures 0.0 <= o[r - 2] ==> ExpectedCell(b30, o, r, c).value <= CountsByHeight[r - 2] as real
  {
    CountsByHeightNonNegative(r - 2);
  }

  /** The year does not matter: all year columns of a row agree. */
  lemma YearColumnsAgree(b30: real, o: seq<real>, r: nat, c1: nat, c2: nat)
    requires |o| == HeightClassCount && r < RowCount
    requires 2 <= c1 < ColumnCount && 2 <= c2 < ColumnCount
    ensures ExpectedCell(b30, o, r, c1) == ExpectedCell(b30, o, r, c2)
  {
  }

  /** The last adjustment (O27) is never read: changing it changes no cell. */
  lemma LastAdjustmentUnread(b30: real, o: seq<real>, o': seq<real>, r: nat, c: nat)
    requires |o| == HeightClassCount && |o'| == HeightClassCount
    requires o[..HeightClassCount - 1] == o'[..HeightClassCount - 1]
    requires r < RowCount && c < ColumnCount
    ensures ExpectedCell(b30, o, r, c) == ExpectedCell(b30, o', r, c)
  {
    if 2 <= r {
      assert o[r - 2] == o[..HeightClassCount - 1][r - 2];
    }
  }

  /** The year cells as the formula quoted at growth.py:39,
      IF($O2<=B2,B2-$O2,B2-B2), would give if it were filled across all
      eleven year columns, C3:M27 (the comment names C3:L27, one column short
      of the eleven years the code fills): only the O column is anchored, so
      the cell in row r and year column c
      reduces the cell of row r-1 in the column to its left (the height column
      for the first year, the previous year otherwise). */
  function FormulaFilledCell(b30: real, o: seq<real>, r: nat, c: nat): real
    requires |o| == HeightClassCount && 1 <= r < RowCount && 1 <= c < ColumnCount
    decreases r
  {
    if c == 1 then CountsByHeight[r - 1] as real
    else if r == 1 then b30
    else ClampedReduction(FormulaFilledCell(b30, o, r - 1, c - 1), o[r - 2])
  }

  /** In the first year column (2025) the code and the filled formula agree. */
  lemma FirstYearMatchesFormula(b30: real, o: seq<real>, r: nat)
    requires |o| == HeightClassCount && 1 <= r < RowCount
    ensures ExpectedCell(b30, o, r, 2) == Num(FormulaFilledCell(b30, o, r, 2))
  {
  }

  /** From the second year column on they differ: in row 2 the code reduces
      the first count (0) while the filled formula reduces the purchase of the
      year before, so any purchase above a non-negative first adjustment
      shows the difference. */
  lemma LaterYearsDifferFromFormula(b30: real, o: seq<real>, c: nat)
    requires |o| == HeightClassCount && 3 <= c < ColumnCount
    requires 0.0 <= o[0] < b30
    ensures ExpectedCell(b30, o, 2, c) == Num(0.0)
    ensures FormulaFilledCell(b30, o, 2, c) == b30 - o[0]
    ensures ExpectedCell(b30, o, 2, c) != Num(FormulaFilledCell(b30, o, 2, c))
  {
    assert FormulaFilledCell(b30, o, 1, c - 1) == b30;
  }
}
