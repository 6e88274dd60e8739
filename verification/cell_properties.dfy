/**
 * What `get_range_data_from_pandas` yields for tokens written the way a spreadsheet
 * writes them (column letters, then the row number), and how malformed tokens fail.
 */
module CellProperties {
  import opened Wrappers
  import opened Strings
  import opened Columns
  import opened Cells

  /** The token for column c (1-based) and row `row`, such as AB12. */
  function CellName(c: nat, row: nat): (s: string)
    requires c >= 1
    ensures ':' !in s
  {
    var name, digits := ColumnName(c), DecimalString(row);
    assert forall i :: 0 <= i < |name| + |digits| ==> (name + digits)[i] != ':';
    name + digits
  }

  /** Digits behind a prefix that ends in a non-digit are exactly the trailing digits. */
  lemma {:induction false} TrailingDigitsAfter(prefix: string, digits: string)
    requires |prefix| > 0 && !IsDigit(prefix[|prefix| - 1])
    requires forall i :: 0 <= i < |digits| ==> IsDigit(digits[i])
    ensures TrailingDigits(prefix + digits) == |digits|
    decreases |digits|
  {
    if digits == [] {
      assert prefix + digits == prefix;
    } else {
      var s := prefix + digits;
      assert s[..|s| - 1] == prefix + digits[..|digits| - 1];
      TrailingDigitsAfter(prefix, digits[..|digits| - 1]);
    }
  }

  /** Scanning a well-formed token recovers its column letters and its row. */
  lemma ParseCellName(c: nat, row: nat)
    requires c >= 1
    ensures ParseCellRef(CellName(c, row)) == Ok(CellRef(ColumnName(c), row))
    ensures ColumnOf(ColumnName(c)) == Ok(c - 1)
  {
    var name, digits := ColumnName(c), DecimalString(row);
    var s := name + digits;
    TrailingDigitsAfter(name, digits);
    assert RowStart(s) == Some(|name|);
    assert s[|name|..] == digits && s[..|name|] == name;
    DecimalRoundTrip(row);
    ColumnRoundTrip(c, "");
  }

  /** A single-cell token that parses reads the cell it names, with the bounds checks first. */
  lemma CellOf<V>(g: Grid<V>, token: string, letters: string, c: nat, row: nat)
    requires g.Valid() && ':' !in token && c >= 1
    requires ParseCellRef(token) == Ok(CellRef(letters, row)) && ColumnOf(letters) == Ok(c - 1)
    ensures RangeData(g, token) ==
      if row > g.Height() || c > g.width then Ok(Null)
      else if row >= 1 then Ok(Scalar(g.cells[row - 1][c - 1]))
      else if g.Height() > 0 then Ok(Scalar(g.cells[g.Height() - 1][c - 1]))
      else Err(OutOfBounds)
  {
  }

  /**
   * A single cell: None past the last row or the last column, otherwise the value in
   * row `row`, column c. Row 0 passes the bound check and reads the last row (pandas
   * index -1), or raises on a grid that has columns but no rows.
   */
  lemma CellLookup<V>(g: Grid<V>, c: nat, row: nat)
    requires g.Valid() && c >= 1
    ensures RangeData(g, CellName(c, row)) ==
      if row > g.Height() || c > g.width then Ok(Null)
      else if row >= 1 then Ok(Scalar(g.cells[row - 1][c - 1]))
      else if g.Height() > 0 then Ok(Scalar(g.cells[g.Height() - 1][c - 1]))
      else Err(OutOfBounds)
  {
    ParseCellName(c, row);
    CellOf(g, CellName(c, row), ColumnName(c), c, row);
  }

  /**
   * An empty sheet reads as a grid without rows or columns: every cell token, row 0
   * included, fails a bound check and gives None rather than an error.
   */
  lemma EmptySheetCell<V>(g: Grid<V>, c: nat, row: nat)
    requires g == Grid([], 0) && c >= 1
    ensures RangeData(g, CellName(c, row)) == Ok(Null)
  {
    CellLookup(g, c, row);
  }

  /** How many entries each row of a range contributes from the sheet. */
  function RealCount(sc: nat, ec: nat, width: nat): nat {
    Max(0, Min(ec + 1, width) - sc)
  }

  /** How many entries each row of a range contributes in all: real cells, then padding. */
  function RowWidth(sc: nat, ec: nat, width: nat): nat {
    RealCount(sc, ec, width) + (if ec >= width then ec + 1 - width else 0)
  }

  /** The entry a range starting at row `top` holds at row offset i and column offset j. */
  function Entry<V>(g: Grid<V>, top: nat, sc: nat, ec: nat, i: nat, j: nat): Option<V>
    requires g.Valid() && top + i < g.Height()
  {
    if j < RealCount(sc, ec, g.width) then Some(g.cells[top + i][sc + j]) else None
  }

  /** The rows of a matrix, one after the other. */
  function Flatten<T>(m: seq<seq<T>>): seq<T> {
    if m == [] then [] else Flatten(m[..|m| - 1]) + m[|m| - 1]
  }

  /** A matrix whose rows all have w entries flattens to |m| * w entries. */
  lemma {:induction false} FlattenLength<T>(m: seq<seq<T>>, w: nat)
    requires forall i :: 0 <= i < |m| ==> |m[i]| == w
    ensures |Flatten(m)| == |m| * w
    decreases |m|
  {
    if m != [] {
      FlattenLength(m[..|m| - 1], w);
      assert |m| * w == (|m| - 1) * w + w;
    }
  }

  /** The entries of `rows` rows of a range starting at sheet row `top`, row by row. */
  ghost function Matrix<V>(g: Grid<V>, top: nat, sc: nat, ec: nat, rows: nat): (m: seq<seq<Option<V>>>)
    requires g.Valid() && top + rows <= g.Height()
    ensures |m| == rows && forall i :: 0 <= i < rows ==> |m[i]| == RowWidth(sc, ec, g.width)
  {
    seq(rows, i requires 0 <= i < rows =>
      seq(RowWidth(sc, ec, g.width), j requires 0 <= j => Entry(g, top, sc, ec, i, j)))
  }

  /** One row of a range inside the sheet: its real cells, then padding. */
  lemma RowLayout<V>(g: Grid<V>, row: nat, sc: nat, ec: nat)
    requires g.Valid() && row < g.Height()
    ensures RowValues(g, row, sc, ec).Ok?
    ensures var items := RowValues(g, row, sc, ec).value;
      && |items| == RowWidth(sc, ec, g.width)
      && forall j :: 0 <= j < |items| ==> items[j] == Entry(g, row, sc, ec, 0, j)
  {
  }

  /** Rows lo..hi-1 of a range are the flattened matrix of their entries. */
  lemma {:induction false} RowsLayout<V>(g: Grid<V>, lo: nat, hi: nat, sc: nat, ec: nat)
    requires g.Valid() && lo <= hi <= g.Height()
    ensures RangeRows(g, lo, hi, sc, ec) == Ok(Flatten(Matrix(g, lo, sc, ec, hi - lo)))
    decreases hi - lo
  {
    if lo < hi {
      var n := hi - 1 - lo;
      RowsLayout(g, lo, hi - 1, sc, ec);
      RowLayout(g, hi - 1, sc, ec);
      var m := Matrix(g, lo, sc, ec, n + 1);
      assert m[..n] == Matrix(g, lo, sc, ec, n);
      assert m[n] == RowValues(g, hi - 1, sc, ec).value;
    }
  }

  /** Two well-formed cells around a colon split into those cells. */
  lemma RangeTokenSplits(a: string, b: string)
    requires ':' !in a && ':' !in b
    ensures ':' in a + ":" + b
    ensures Split(a + ":" + b, ':') == [a, b]
  {
    assert (a + ":" + b)[|a|] == ':';
    assert Join([a, b], ':') == a + ":" + b;
    SplitJoin([a, b], ':');
  }

  /** A range token between two well-formed cells reads the cells between them. */
  lemma NamedRange<V>(g: Grid<V>, c1: nat, r1: nat, c2: nat, r2: nat)
    requires g.Valid() && c1 >= 1 && c2 >= 1
    ensures RangeData(g, CellName(c1, r1) + ":" + CellName(c2, r2)) ==
      CellsBetween(g, CellRef(ColumnName(c1), r1), CellRef(ColumnName(c2), r2))
  {
    RangeTokenSplits(CellName(c1, r1), CellName(c2, r2));
    ParseCellName(c1, r1);
    ParseCellName(c2, r2);
  }

  /** Rows inside the sheet never raise. */
  lemma {:induction false} RowsInSheet<V>(g: Grid<V>, lo: nat, hi: nat, sc: nat, ec: nat)
    requires g.Valid() && lo <= hi <= g.Height()
    ensures RangeRows(g, lo, hi, sc, ec).Ok?
    decreases hi - lo
  {
    if lo < hi {
      RowsInSheet(g, lo, hi - 1, sc, ec);
    }
  }

  /** Once both columns convert, the cells between two cells are the rows between them. */
  lemma BetweenRows<V>(g: Grid<V>, c1: nat, r1: nat, c2: nat, r2: nat)
    requires g.Valid() && c1 >= 1 && c2 >= 1 && r1 >= 1 && r1 <= g.Height() && r2 <= g.Height()
    ensures CellsBetween(g, CellRef(ColumnName(c1), r1), CellRef(ColumnName(c2), r2)) ==
      match RangeRows(g, r1 as int - 1, r2, c1 - 1, c2 - 1)
      case Ok(items) => Ok(List(items))
      case Err(e) => Err(e)
  {
    ColumnRoundTrip(c1, "");
    ColumnRoundTrip(c2, "");
    assert Min(r2, g.Height()) == r2;
  }

  /** The rows r1..r2 of a range inside the sheet are the flattened matrix of their entries. */
  lemma RowsBetween<V>(g: Grid<V>, r1: nat, r2: nat, sc: nat, ec: nat)
    requires g.Valid() && 1 <= r1 <= g.Height() && r2 <= g.Height()
    ensures RangeRows(g, r1 as int - 1, r2, sc, ec) == Ok(Flatten(Matrix(g, r1 - 1, sc, ec, Max(0, r2 - r1 + 1))))
  {
    if r1 - 1 <= r2 {
      assert Max(0, r2 - r1 + 1) == r2 - (r1 - 1);
      RowsLayout(g, r1 - 1, r2, sc, ec);
    } else {
      assert Matrix(g, r1 - 1, sc, ec, Max(0, r2 - r1 + 1)) == [];
    }
  }

  /**
   * A range between two well-formed cells whose rows are inside the sheet: the rows from
   * r1 to r2, each holding the cells of columns c1..c2 inside the sheet followed by one
   * None per column past the last one, in row-major order.
   */
  lemma RangeLookup<V>(g: Grid<V>, c1: nat, r1: nat, c2: nat, r2: nat)
    requires g.Valid() && c1 >= 1 && c2 >= 1 && 1 <= r1 <= g.Height() && r2 <= g.Height()
    ensures RangeData(g, CellName(c1, r1) + ":" + CellName(c2, r2)) ==
      Ok(List(Flatten(Matrix(g, r1 - 1, c1 - 1, c2 - 1, Max(0, r2 - r1 + 1)))))
  {
    var rows := RangeRows(g, r1 as int - 1, r2, c1 - 1, c2 - 1);
    RowsBetween(g, r1, r2, c1 - 1, c2 - 1);
    assert rows == Ok(Flatten(Matrix(g, r1 - 1, c1 - 1, c2 - 1, Max(0, r2 - r1 + 1))));
    BetweenRows(g, c1, r1, c2, r2);
    assert CellsBetween(g, CellRef(ColumnName(c1), r1), CellRef(ColumnName(c2), r2)) == Ok(List(rows.value));
    NamedRange(g, c1, r1, c2, r2);
  }

  /** A range with either row past the last row of the sheet reads the empty list. */
  lemma RangePastLastRow<V>(g: Grid<V>, c1: nat, r1: nat, c2: nat, r2: nat)
    requires g.Valid() && c1 >= 1 && c2 >= 1
    requires r1 > g.Height() || r2 > g.Height()
    ensures RangeData(g, CellName(c1, r1) + ":" + CellName(c2, r2)) == Ok(List([]))
  {
    NamedRange(g, c1, r1, c2, r2);
    ColumnRoundTrip(c1, "");
    ColumnRoundTrip(c2, "");
  }

  /** A range that is not inverted holds (rows) * (columns) entries, padding included. */
  lemma RangeLength<V>(g: Grid<V>, c1: nat, r1: nat, c2: nat, r2: nat)
    requires g.Valid() && 1 <= c1 <= c2 + 1 && c2 >= 1 && c1 <= g.width + 1
    requires 1 <= r1 <= r2 + 1 && r2 <= g.Height()
    ensures var res := RangeData(g, CellName(c1, r1) + ":" + CellName(c2, r2));
      res.Ok? && res.value.List? && |res.value.items| == (r2 - r1 + 1) * (c2 - c1 + 1)
  {
    if r1 <= g.Height() {
      RangeLookup(g, c1, r1, c2, r2);
      var w, rows := RowWidth(c1 - 1, c2 - 1, g.width), Max(0, r2 - r1 + 1);
      assert w == c2 - c1 + 1;
      assert rows == r2 - r1 + 1;
      var m := Matrix(g, r1 - 1, c1 - 1, c2 - 1, rows);
      FlattenLength(m, w);
      assert |Flatten(m)| == (r2 - r1 + 1) * (c2 - c1 + 1);
    } else {
      RangePastLastRow(g, c1, r1, c2, r2);
      assert r2 - r1 + 1 == 0;
      assert (r2 - r1 + 1) * (c2 - c1 + 1) == 0;
    }
  }

  /** When no column of a row is read, rows are padding only. */
  lemma {:induction false} PaddingOnlyRows<V>(g: Grid<V>, lo: int, hi: int, sc: nat, ec: nat)
    requires g.Valid() && RealCount(sc, ec, g.width) == 0
    ensures RangeRows(g, lo, hi, sc, ec).Ok?
    ensures forall k :: 0 <= k < |RangeRows(g, lo, hi, sc, ec).value| ==> RangeRows(g, lo, hi, sc, ec).value[k] == None
    decreases hi - lo
  {
    if lo < hi {
      PaddingOnlyRows(g, lo, hi - 1, sc, ec);
    }
  }

  /** An inverted range (end column before start column, or end row before start row) reads no cell. */
  lemma InvertedRangeReadsNothing<V>(g: Grid<V>, c1: nat, r1: nat, c2: nat, r2: nat)
    requires g.Valid() && c1 >= 1 && c2 >= 1 && r1 >= 1
    requires c2 < c1 || r2 < r1
    ensures var res := RangeData(g, CellName(c1, r1) + ":" + CellName(c2, r2));
      res.Ok? && res.value.List? && forall k :: 0 <= k < |res.value.items| ==> res.value.items[k] == None
  {
    NamedRange(g, c1, r1, c2, r2);
    if r1 > g.Height() || r2 > g.Height() {
      RangePastLastRow(g, c1, r1, c2, r2);
    } else {
      BetweenRows(g, c1, r1, c2, r2);
      if c2 < c1 {
        PaddingOnlyRows(g, r1 as int - 1, r2, c1 - 1, c2 - 1);
      } else {
        assert RangeRows(g, r1 as int - 1, r2, c1 - 1, c2 - 1) == Ok([]);
      }
    }
  }

  /** A single-cell token raises unless it ends in digits behind a non-empty prefix. */
  lemma MalformedCellRejected<V>(g: Grid<V>, token: string)
    requires g.Valid() && ':' !in token
    requires |token| < 2 || !IsDigit(token[|token| - 1])
    ensures RangeData(g, token) == Err(BadCell)
  {
  }

  /** A token with two colons or more raises when its pieces are unpacked. */
  lemma ColonsRejected<V>(g: Grid<V>, token: string)
    requires g.Valid() && multiset(token)[':'] >= 2
    ensures RangeData(g, token) == Err(TooManyColons)
  {
    SplitCount(token, ':');
  }

  /** A prefix that is not all letters passes the scan but fails the column conversion. */
  lemma MixedPrefixRejected<V>(g: Grid<V>)
    requires g.Valid()
    ensures RangeData(g, "A1B2") == Err(BadColumn)
  {
    var s := "A1B2";
    assert TrailingDigits(s) == 1 by {
      assert !IsDigit(s[2]) && IsDigit(s[3]);
    }
    assert s[3..] == "2" && s[..3] == "A1B";
    assert !IsColumnLetter(s[1]);
  }

  /**
   * A single-cell token whose text before the row digits is not column letters fails in
   * the column conversion, whatever the sheet.
   */
  lemma NonColumnPrefixRejected<V>(g: Grid<V>, token: string, letters: string, row: nat)
    requires g.Valid() && ':' !in token
    requires ParseCellRef(token) == Ok(CellRef(letters, row)) && !IsColumnName(letters)
    ensures RangeData(g, token) == Err(BadColumn)
  {
  }

  /**
   * A range one of whose ends has a prefix that is not column letters fails in the column
   * conversion, before any row bound is checked.
   */
  lemma RangeNonColumnPrefixRejected<V>(g: Grid<V>, a: string, b: string, la: string, ra: nat, lb: string, rb: nat)
    requires g.Valid() && ':' !in a && ':' !in b
    requires ParseCellRef(a) == Ok(CellRef(la, ra)) && ParseCellRef(b) == Ok(CellRef(lb, rb))
    requires !IsColumnName(la) || !IsColumnName(lb)
    ensures RangeData(g, a + ":" + b) == Err(BadColumn)
  {
    RangeTokenSplits(a, b);
  }

}
