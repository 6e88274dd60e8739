/**
 * Worksheet grids and `get_range_data_from_pandas`: splitting a cell token such as F4
 * into column letters and a row number, and reading a single cell or a rectangular
 * range such as A1:C3 out of a grid of cell values.
 */
module Cells {
  import opened Wrappers
  import opened Strings
  import opened Columns

  /** A worksheet as pandas reads it with header=None: |cells| rows of `width` values each. */
  datatype Grid<V> = Grid(cells: seq<seq<V>>, width: nat) {
    predicate Valid() {
      forall r :: 0 <= r < |cells| ==> |cells[r]| == width
    }

    function Height(): nat {
      |cells|
    }
  }

  /** What an extraction returns: None, one cell value, or a list for a range (None as padding). */
  datatype Value<V> = Null | Scalar(v: V) | List(items: seq<Option<V>>)

  /** The exceptions an extraction raises. */
  datatype Failure =
    | BadCell        // no all-digit suffix behind a non-empty prefix
    | BadRow         // the digit suffix is not a decimal number, so `int()` raises
    | BadColumn      // `column_index_from_string` rejects the prefix
    | TooManyColons  // `split(':')` gives more than two pieces to unpack
    | OutOfBounds    // `iloc` with row index -1 on a frame with columns but no rows

  /** A cell token split into its column letters and its row number. */
  datatype CellRef = CellRef(column: string, row: nat)

  function Min(a: int, b: int): int {
    if a <= b then a else b
  }

  function Max(a: int, b: int): int {
    if a <= b then b else a
  }

  /** pandas positional indexing over n rows: a negative index counts from the end. */
  function Position(i: int, n: nat): (r: Option<nat>)
    ensures r.Some? <==> -(n as int) <= i < n
    ensures r.Some? ==> r.value < n
  {
    if 0 <= i < n then Some(i) else if -(n as int) <= i < 0 then Some(n + i) else None
  }

  /**
   * pandas `iloc` row selection: a defined position is the index taken modulo the number
   * of rows, so row i for 0 <= i < n and row n + i for -n <= i < 0.
   */
  lemma PositionRow(i: int, n: nat)
    ensures Position(i, n).Some? ==> n > 0 && Position(i, n).value == i % n
    ensures Position(i, n).Some? ==> Position(i, n).value == if i >= 0 then i else n + i
  {
  }

  function Somes<V>(s: seq<V>): (r: seq<Option<V>>)
    ensures |r| == |s| && forall i :: 0 <= i < |s| ==> r[i] == Some(s[i])
  {
    seq(|s|, i requires 0 <= i < |s| => Some(s[i]))
  }

  // ----- cell tokens -----

  /** The number of digit characters at the end of s. */
  function TrailingDigits(s: string): (t: nat)
    ensures t <= |s|
    ensures forall i :: |s| - t <= i < |s| ==> IsDigit(s[i])
    ensures t < |s| ==> !IsDigit(s[|s| - t - 1])
    decreases |s|
  {
    if |s| > 0 && IsDigit(s[|s| - 1]) then 1 + TrailingDigits(s[..|s| - 1]) else 0
  }

  /** Where the row number of a cell token starts, counted from the end. */
  function RowStart(s: string): (r: Option<nat>)
    ensures r.Some? ==> 1 <= r.value < |s|
  {
    var t := TrailingDigits(s);
    if t == 0 || |s| < 2 then None else Some(Max(1, |s| - t))
  }

  /**
   * The row number starts at the first split point the scan from the left meets: the
   * longest all-digit suffix that leaves a non-empty prefix.
   */
  lemma RowStartIsFirstSplit(s: string)
    ensures RowStart(s).Some? ==> AllDigits(s[RowStart(s).value..])
    ensures RowStart(s).Some? ==> forall i :: 1 <= i < RowStart(s).value ==> !AllDigits(s[i..])
    ensures RowStart(s).None? ==> forall i :: 1 <= i < |s| ==> !AllDigits(s[i..])
  {
    var t := TrailingDigits(s);
    assert forall i :: 0 <= i < |s| - t ==> s[i..][|s| - t - 1 - i] == s[|s| - t - 1];
  }

  /** A single-cell token as the scan splits it: column letters, then the row's `int()`. */
  function ParseCellRef(token: string): Result<CellRef, Failure> {
    match RowStart(token)
    case None => Err(BadCell)
    case Some(k) =>
      match ParseDecimal(token[k..])
      case None => Err(BadRow)
      case Some(row) => Ok(CellRef(token[..k], row))
  }

  /** The 0-based column index of column letters. */
  function ColumnOf(letters: string): Result<nat, Failure> {
    match ColumnIndex(letters)
    case None => Err(BadColumn)
    case Some(c) => Ok(c - 1)
  }

  // ----- the reference definition of an extraction -----

  /** A single cell: None beyond the last row or column, else the value there. */
  function CellValue<V>(g: Grid<V>, token: string): Result<Value<V>, Failure>
    requires g.Valid()
  {
    var ref :- ParseCellRef(token);
    var col :- ColumnOf(ref.column);
    if ref.row > g.Height() || col >= g.width then Ok(Null)
    else
      match Position(ref.row - 1, g.Height())
      case None => Err(OutOfBounds)
      case Some(p) => Ok(Scalar(g.cells[p][col]))
  }

  /** The Nones a range row ends with when the range reaches past the last column. */
  function Padding<V>(ec: nat, width: nat): (r: seq<Option<V>>)
    ensures forall i :: 0 <= i < |r| ==> r[i] == None
  {
    if ec >= width then seq(ec + 1 - width, _ => None) else []
  }

  /** One row of a range: the cells of columns sc..ec inside the sheet, then padding. */
  function RowValues<V>(g: Grid<V>, row: int, sc: nat, ec: nat): Result<seq<Option<V>>, Failure>
    requires g.Valid()
  {
    var stop := Min(ec + 1, g.width);
    if sc < stop then
      match Position(row, g.Height())
      case None => Err(OutOfBounds)
      case Some(p) => Ok(Somes(g.cells[p][sc..stop]) + Padding(ec, g.width))
    else Ok(Padding(ec, g.width))
  }

  /** Rows lo..hi-1 of a range, row after row. */
  function RangeRows<V>(g: Grid<V>, lo: int, hi: int, sc: nat, ec: nat): Result<seq<Option<V>>, Failure>
    requires g.Valid()
    decreases hi - lo
  {
    if hi <= lo then Ok([])
    else
      var before :- RangeRows(g, lo, hi - 1, sc, ec);
      var row :- RowValues(g, hi - 1, sc, ec);
      Ok(before + row)
  }

  /** A range token: exactly two cell tokens around the colon, then the cells between them. */
  function RangeValue<V>(g: Grid<V>, token: string): Result<Value<V>, Failure>
    requires g.Valid()
  {
    var ends := Split(token, ':');
    if |ends| != 2 then Err(TooManyColons)
    else
      var start :- ParseCellRef(ends[0]);
      var end :- ParseCellRef(ends[1]);
      CellsBetween(g, start, end)
  }

  /** A range between two cells: [] when a row bound is past the last row, else its rows in row-major order. */
  function CellsBetween<V>(g: Grid<V>, start: CellRef, end: CellRef): Result<Value<V>, Failure>
    requires g.Valid()
  {
    var sc :- ColumnOf(start.column);
    var ec :- ColumnOf(end.column);
    if start.row > g.Height() || end.row > g.Height() then Ok(List([]))
    else
      var items :- RangeRows(g, start.row as int - 1, Min(end.row, g.Height()), sc, ec);
      Ok(List(items))
  }

  /** What `get_range_data_from_pandas(df, token)` returns or raises. */
  function RangeData<V>(g: Grid<V>, token: string): Result<Value<V>, Failure>
    requires g.Valid()
  {
    if ':' in token then RangeValue(g, token) else CellValue(g, token)
  }

  // ----- the scan and the extraction, as the source performs them -----

  /** The `for i in range(1, len(token))` scan for the first all-digit suffix. */
  method FindRowStart(token: string) returns (k: Option<nat>)
    ensures k == RowStart(token)
  {
    RowStartIsFirstSplit(token);
    var i := 1;
    while i < |token|
      invariant 1 <= i && (i <= |token| || i == 1)
      invariant forall j :: 1 <= j < i ==> !AllDigits(token[j..])
    {
      if AllDigits(token[i..]) {
        return Some(i);
      }
      i := i + 1;
    }
    return None;
  }

  /** The scan followed by `int()` of the row digits. */
  method ParseCellToken(token: string) returns (r: Result<CellRef, Failure>)
    ensures r == ParseCellRef(token)
  {
    var k := FindRowStart(token);
    if k.None? {
      return Err(BadCell);
    }
    var row := ParseDecimal(token[k.value..]);
    if row.None? {
      return Err(BadRow);
    }
    return Ok(CellRef(token[..k.value], row.value));
  }

  /** `get_range_data_from_pandas`: a single cell, or a range read by the nested loops. */
  method GetRangeData<V>(g: Grid<V>, token: string) returns (r: Result<Value<V>, Failure>)
    requires g.Valid()
    ensures r == RangeData(g, token)
  {
    if ':' !in token {
      r := GetCell(g, token);
    } else {
      r := GetRange(g, token);
    }
  }

  /** The single-cell branch: bounds first, then `iloc[row - 1, col]`. */
  method GetCell<V>(g: Grid<V>, token: string) returns (r: Result<Value<V>, Failure>)
    requires g.Valid()
    ensures r == CellValue(g, token)
  {
    var numRows, numCols := g.Height(), g.width;
    var cell := ParseCellToken(token);
    if cell.Err? {
      return Err(cell.error);
    }
    var col := ColumnOf(cell.value.column);
    if col.Err? {
      return Err(col.error);
    }
    var row, colIdx := cell.value.row, col.value;
    if row > numRows {
      return Ok(Null);
    }
    if colIdx >= numCols {
      return Ok(Null);
    }
    var p := Position(row as int - 1, numRows);
    if p.None? {
      return Err(OutOfBounds);
    }
    return Ok(Scalar(g.cells[p.value][colIdx]));
  }

  /** The range branch: unpack the two ends of `split(':')` and parse each. */
  method GetRange<V>(g: Grid<V>, token: string) returns (r: Result<Value<V>, Failure>)
    requires g.Valid()
    ensures r == RangeValue(g, token)
  {
    var ends := Split(token, ':');
    if |ends| != 2 {
      return Err(TooManyColons);
    }
    var start := ParseCellToken(ends[0]);
    if start.Err? {
      return Err(start.error);
    }
    var end := ParseCellToken(ends[1]);
    if end.Err? {
      return Err(end.error);
    }
    r := ReadBetween(g, start.value, end.value);
  }

  /** Column conversion, the row bound check and the nested loops over the range. */
  method ReadBetween<V>(g: Grid<V>, start: CellRef, end: CellRef) returns (r: Result<Value<V>, Failure>)
    requires g.Valid()
    ensures r == CellsBetween(g, start, end)
  {
    var numRows := g.Height();
    var startCol := ColumnOf(start.column);
    if startCol.Err? {
      return Err(startCol.error);
    }
    var endCol := ColumnOf(end.column);
    if endCol.Err? {
      return Err(endCol.error);
    }
    if start.row > numRows || end.row > numRows {
      return Ok(List([]));
    }
    var values := ReadRows(g, start.row as int - 1, Min(end.row, numRows), startCol.value, endCol.value);
    if values.Err? {
      return Err(values.error);
    }
    return Ok(List(values.value));
  }

  /** The outer loop over `range(start_row - 1, min(end_row, num_rows))`. */
  method ReadRows<V>(g: Grid<V>, lo: int, hi: int, sc: nat, ec: nat) returns (r: Result<seq<Option<V>>, Failure>)
    requires g.Valid()
    ensures r == RangeRows(g, lo, hi, sc, ec)
  {
    var values: seq<Option<V>> := [];
    var rowIdx := lo;
    while rowIdx < hi
      invariant lo <= rowIdx && (rowIdx <= hi || rowIdx == lo)
      invariant RangeRows(g, lo, rowIdx, sc, ec) == Ok(values)
    {
      var next := AppendRow(g, values, rowIdx, sc, ec);
      if next.Err? {
        RowsFailurePersists(g, lo, rowIdx + 1, hi, sc, ec);
        return Err(next.error);
      }
      values := next.value;
      rowIdx := rowIdx + 1;
    }
    return Ok(values);
  }

  /** One pass of the outer loop: the inner loop's appends, then the `extend` with padding. */
  method AppendRow<V>(g: Grid<V>, values: seq<Option<V>>, rowIdx: int, sc: nat, ec: nat)
    returns (r: Result<seq<Option<V>>, Failure>)
    requires g.Valid()
    ensures r == match RowValues(g, rowIdx, sc, ec)
                 case Ok(row) => Ok(values + row)
                 case Err(e) => Err(e)
  {
    var stop := Min(ec + 1, g.width);
    var acc := values;
    if sc < stop {
      var p := Position(rowIdx, g.Height());
      if p.None? {
        return Err(OutOfBounds);
      }
      var cells := g.cells[p.value];
      var c := sc;
      while c < stop
        invariant sc <= c <= stop
        invariant acc == values + Somes(cells[sc..c])
      {
        acc := acc + [Some(cells[c])];
        c := c + 1;
        assert cells[sc..c] == cells[sc..c - 1] + [cells[c - 1]];
      }
    }
    if ec >= g.width {
      acc := acc + Padding(ec, g.width);
    } else {
      assert acc == acc + Padding(ec, g.width);
    }
    assert RowValues(g, rowIdx, sc, ec).Ok?;
    assert acc == values + RowValues(g, rowIdx, sc, ec).value;
    return Ok(acc);
  }

  /** Once a row of a range raises, so does every longer range. */
  lemma {:induction false} RowsFailurePersists<V>(g: Grid<V>, lo: int, mid: int, hi: int, sc: nat, ec: nat)
    requires g.Valid() && lo < mid <= hi
    requires RangeRows(g, lo, mid, sc, ec).Err?
    ensures RangeRows(g, lo, hi, sc, ec) == RangeRows(g, lo, mid, sc, ec)
    decreases hi - mid
  {
    if mid < hi {
      RowsFailurePersists(g, lo, mid, hi - 1, sc, ec);
    }
  }
}
