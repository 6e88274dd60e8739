/**
 * The extraction runs: one workbook into one table (`extract_excel_info_single_file`),
 * every workbook merged into one table (`extract_to_single_file`), and one table per
 * workbook under a derived name (`extract_to_multiple_files`). Workbooks are supplied
 * as data; a file that cannot be opened and a sheet that cannot be read are explicit.
 */
module Workbooks {
  import opened Wrappers
  import opened Cells
  import opened Specs
  import opened Records
  import opened Naming

  /** A grid as pandas reads a sheet: every row has the same width. */
  type SheetGrid<V> = g: Grid<V> | g.Valid() witness Grid([], 0)

  /** A sheet's name and its grid, None when reading the sheet raises. */
  datatype Sheet<V> = Sheet(name: string, grid: Option<SheetGrid<V>>)

  /** An input file: its path and its sheets in workbook order, None when opening it raises. */
  datatype Workbook<V> = Workbook(path: string, sheets: Option<seq<Sheet<V>>>)

  /** Why a run writes nothing: the file does not open, or no sheet gave a record. */
  datatype RunFailure = OpenFailed | NoData

  /** What a run writes, and the number of sheet records in it. */
  datatype Written<V> = Written(table: Table<V>, count: nat)

  /** The sheets that can be read, with their names, in workbook order. */
  function Readable<V>(sheets: seq<Sheet<V>>): seq<(string, SheetGrid<V>)> {
    if sheets == [] then []
    else
      var init := Readable(sheets[..|sheets| - 1]);
      var last := sheets[|sheets| - 1];
      if last.grid.Some? then init + [(last.name, last.grid.value)] else init
  }

  /** A readable sheet is in the list, and every sheet of the list that reads is kept. */
  lemma {:induction false} ReadableMembers<V>(sheets: seq<Sheet<V>>)
    ensures forall i :: 0 <= i < |Readable(sheets)| ==>
      Sheet(Readable(sheets)[i].0, Some(Readable(sheets)[i].1)) in sheets
    ensures forall i :: 0 <= i < |sheets| && sheets[i].grid.Some? ==>
      (sheets[i].name, sheets[i].grid.value) in Readable(sheets)
    decreases |sheets|
  {
    if sheets != [] {
      var init := sheets[..|sheets| - 1];
      ReadableMembers(init);
      assert sheets == init + [sheets[|sheets| - 1]];
      forall i | 0 <= i < |sheets| - 1 && sheets[i].grid.Some?
        ensures (sheets[i].name, sheets[i].grid.value) in Readable(sheets)
      {
        assert sheets[i] == init[i];
      }
    }
  }

  /** Reference definition of the sheet loop: each readable sheet adds its record. */
  function SheetRecords<V>(source: string, sheets: seq<Sheet<V>>, specs: seq<Spec>): seq<Record<V>> {
    if sheets == [] then []
    else
      var init := SheetRecords(source, sheets[..|sheets| - 1], specs);
      var last := sheets[|sheets| - 1];
      match last.grid
      case None => init
      case Some(g) => init + [SheetRecord(last.name, source, g, specs)]
  }

  /** The sheet loop both output modes run: unreadable sheets are skipped. */
  method ExtractSheets<V>(source: string, sheets: seq<Sheet<V>>, specs: seq<Spec>) returns (records: seq<Record<V>>)
    ensures records == SheetRecords(source, sheets, specs)
  {
    records := [];
    for k := 0 to |sheets|
      invariant records == SheetRecords(source, sheets[..k], specs)
    {
      assert sheets[..k + 1][..k] == sheets[..k];
      match sheets[k].grid {
        case None =>
        case Some(g) =>
          var rec := ExtractSheet(sheets[k].name, source, g, specs);
          records := records + [rec];
      }
    }
    assert sheets[..|sheets|] == sheets;
  }

  /** Exactly one record per readable sheet, in order, built from that sheet's name and grid. */
  lemma {:induction false} RecordsPerSheet<V>(source: string, sheets: seq<Sheet<V>>, specs: seq<Spec>)
    ensures |SheetRecords(source, sheets, specs)| == |Readable(sheets)|
    ensures forall i :: 0 <= i < |Readable(sheets)| ==>
      SheetRecords(source, sheets, specs)[i] == SheetRecord(Readable(sheets)[i].0, source, Readable(sheets)[i].1, specs)
    decreases |sheets|
  {
    if sheets != [] {
      RecordsPerSheet(source, sheets[..|sheets| - 1], specs);
    }
  }

  /** The record holds `sheet`, `source_file` and every header. */
  predicate HasColumns<V>(rec: Record<V>, specs: seq<Spec>) {
    forall c :: c in BaseColumns(specs) ==> c in Keys(rec)
  }

  /** Every record of the sheet loop holds every output column. */
  lemma {:induction false} SheetRecordsHaveColumns<V>(source: string, sheets: seq<Sheet<V>>, specs: seq<Spec>)
    ensures forall i :: 0 <= i < |SheetRecords(source, sheets, specs)| ==>
      HasColumns(SheetRecords(source, sheets, specs)[i], specs)
    decreases |sheets|
  {
    if sheets != [] {
      var last := sheets[|sheets| - 1];
      SheetRecordsHaveColumns(source, sheets[..|sheets| - 1], specs);
      if last.grid.Some? {
        RecordHasAllColumns(last.name, source, last.grid.value, specs);
      }
    }
  }

  /** Once there is a record and every record holds every column, the table keeps them all, in order. */
  lemma FrameColumns<V>(records: seq<Record<V>>, specs: seq<Spec>)
    requires records != [] && forall i :: 0 <= i < |records| ==> HasColumns(records[i], specs)
    ensures Frame(records, specs).columns == BaseColumns(specs)
  {
    assert HasColumns(records[0], specs);
    FinalColumnsKeepAll(records, BaseColumns(specs), 0);
  }

  /** `extract_excel_info_single_file` as a function of its inputs. */
  function FileResult<V>(wb: Workbook<V>, args: seq<string>): Result<Written<V>, RunFailure> {
    match wb.sheets
    case None => Err(OpenFailed)
    case Some(sheets) =>
      var specs := PositionSpecs(args);
      var records := SheetRecords(Basename(wb.path), sheets, specs);
      if records == [] then Err(NoData) else Ok(Written(Frame(records, specs), |records|))
  }

  /** `extract_excel_info_single_file`: the table written for one workbook, or why none is. */
  method ExtractExcelInfoSingleFile<V>(wb: Workbook<V>, args: seq<string>) returns (r: Result<Written<V>, RunFailure>)
    ensures r == FileResult(wb, args)
  {
    var specs := ParsePositionArgs(args);
    if wb.sheets.None? {
      return Err(OpenFailed);
    }
    var records := ExtractSheets(Basename(wb.path), wb.sheets.value, specs);
    if records == [] {
      return Err(NoData);
    }
    r := Ok(Written(Frame(records, specs), |records|));
  }

  /**
   * A single-file run fails to open exactly when the workbook cannot be opened, and
   * writes nothing exactly when it opens but no sheet can be read.
   */
  lemma FileFailures<V>(wb: Workbook<V>, args: seq<string>)
    ensures FileResult(wb, args) == Err(OpenFailed) <==> wb.sheets.None?
    ensures FileResult(wb, args) == Err(NoData) <==> wb.sheets.Some? && Readable(wb.sheets.value) == []
  {
    if wb.sheets.Some? {
      RecordsPerSheet(Basename(wb.path), wb.sheets.value, PositionSpecs(args));
    }
  }

  /**
   * A written table has the columns `sheet`, `source_file` and every header in argument
   * order, and one row per readable sheet; the count returned is that number of rows.
   */
  lemma FileTable<V>(wb: Workbook<V>, args: seq<string>)
    requires FileResult(wb, args).Ok?
    ensures var w := FileResult(wb, args).value;
      && w.table.columns == BaseColumns(PositionSpecs(args))
      && w.count == |w.table.rows| == |Readable(wb.sheets.value)|
  {
    var specs := PositionSpecs(args);
    var records := SheetRecords(Basename(wb.path), wb.sheets.value, specs);
    RecordsPerSheet(Basename(wb.path), wb.sheets.value, specs);
    SheetRecordsHaveColumns(Basename(wb.path), wb.sheets.value, specs);
    FrameColumns(records, specs);
  }

  /**
   * Row i of a written table belongs to the i-th readable sheet: under a header it holds
   * what the last argument with that header extracted from that sheet (None where the
   * extraction raised); under a column no argument writes, the sheet or file name.
   */
  lemma FileCell<V>(wb: Workbook<V>, args: seq<string>, i: nat, j: nat)
    requires FileResult(wb, args).Ok?
    requires i < |FileResult(wb, args).value.table.rows| && j < |FileResult(wb, args).value.table.columns|
    ensures i < |Readable(wb.sheets.value)|
    ensures var specs, sheet, column := PositionSpecs(args), Readable(wb.sheets.value)[i], FileResult(wb, args).value.table.columns[j];
      FileResult(wb, args).value.table.rows[i][j] ==
        match LastSpecFor(specs, column)
        case Some(k) => Some(Extracted(Outcome(sheet.1, specs[k].range)))
        case None => Get(Seed<V>(sheet.0, Basename(wb.path)), column)
  {
    var specs := PositionSpecs(args);
    var records := SheetRecords(Basename(wb.path), wb.sheets.value, specs);
    RecordsPerSheet(Basename(wb.path), wb.sheets.value, specs);
    var sheet := Readable(wb.sheets.value)[i];
    var column := Frame(records, specs).columns[j];
    assert Frame(records, specs).rows[i][j] == Get(records[i], column);
    RecordLookup(sheet.0, Basename(wb.path), sheet.1, specs, column);
  }

  /** Reference definition of merge mode: the records of every workbook that opens, file after file. */
  function MergedRecords<V>(wbs: seq<Workbook<V>>, specs: seq<Spec>): seq<Record<V>> {
    if wbs == [] then []
    else
      var init := MergedRecords(wbs[..|wbs| - 1], specs);
      var wb := wbs[|wbs| - 1];
      match wb.sheets
      case None => init
      case Some(sheets) => init + SheetRecords(Basename(wb.path), sheets, specs)
  }

  /** `extract_to_single_file` as a function of its inputs. */
  function MergeResult<V>(wbs: seq<Workbook<V>>, args: seq<string>): Result<Written<V>, RunFailure> {
    var specs := PositionSpecs(args);
    var records := MergedRecords(wbs, specs);
    if records == [] then Err(NoData) else Ok(Written(Frame(records, specs), |records|))
  }

  /**
   * `extract_to_single_file`: a workbook that does not open is skipped; the arguments are
   * parsed once per workbook that opens, so they are parsed whenever a record exists.
   */
  method ExtractToSingleFile<V>(wbs: seq<Workbook<V>>, args: seq<string>) returns (r: Result<Written<V>, RunFailure>)
    ensures r == MergeResult(wbs, args)
  {
    var all: seq<Record<V>> := [];
    var parsed: Option<seq<Spec>> := None;
    for k := 0 to |wbs|
      invariant all == MergedRecords(wbs[..k], PositionSpecs(args))
      invariant parsed.Some? ==> parsed.value == PositionSpecs(args)
      invariant all != [] ==> parsed.Some?
    {
      assert wbs[..k + 1][..k] == wbs[..k];
      if wbs[k].sheets.Some? {
        var specs := ParsePositionArgs(args);
        parsed := Some(specs);
        var records := ExtractSheets(Basename(wbs[k].path), wbs[k].sheets.value, specs);
        all := all + records;
      }
    }
    assert wbs[..|wbs|] == wbs;
    if all == [] {
      return Err(NoData);
    }
    r := Ok(Written(Frame(all, parsed.value), |all|));
  }

  /** Merging is file-order concatenation: merging two lists of workbooks joins their records. */
  lemma {:induction false} MergeAppend<V>(a: seq<Workbook<V>>, b: seq<Workbook<V>>, specs: seq<Spec>)
    ensures MergedRecords(a + b, specs) == MergedRecords(a, specs) + MergedRecords(b, specs)
    decreases |b|
  {
    if b == [] {
      assert a + b == a;
    } else {
      var init := b[..|b| - 1];
      MergeAppend(a, init, specs);
      assert (a + b)[..|a + b| - 1] == a + init;
    }
  }

  /**
   * Merging a single workbook writes what the single-file run writes for it, except that
   * a workbook that does not open is reported as no data rather than as a failed open.
   */
  lemma MergeOfOne<V>(wb: Workbook<V>, args: seq<string>)
    ensures wb.sheets.Some? ==> MergeResult([wb], args) == FileResult(wb, args)
    ensures wb.sheets.None? ==> MergeResult([wb], args) == Err(NoData)
  {
    var specs := PositionSpecs(args);
    assert [wb][..0] == [];
    assert MergedRecords([wb], specs) ==
      if wb.sheets.None? then [] else SheetRecords(Basename(wb.path), wb.sheets.value, specs);
  }

  /** Every merged record holds every output column. */
  lemma {:induction false} MergedRecordsHaveColumns<V>(wbs: seq<Workbook<V>>, specs: seq<Spec>)
    ensures forall i :: 0 <= i < |MergedRecords(wbs, specs)| ==> HasColumns(MergedRecords(wbs, specs)[i], specs)
    decreases |wbs|
  {
    if wbs != [] {
      var wb := wbs[|wbs| - 1];
      MergedRecordsHaveColumns(wbs[..|wbs| - 1], specs);
      if wb.sheets.Some? {
        SheetRecordsHaveColumns(Basename(wb.path), wb.sheets.value, specs);
      }
    }
  }

  /** A merged table has the columns `sheet`, `source_file` and every header, one row per record. */
  lemma MergeTable<V>(wbs: seq<Workbook<V>>, args: seq<string>)
    requires MergeResult(wbs, args).Ok?
    ensures var w := MergeResult(wbs, args).value;
      w.table.columns == BaseColumns(PositionSpecs(args)) && w.count == |w.table.rows|
  {
    MergedRecordsHaveColumns(wbs, PositionSpecs(args));
    FrameColumns(MergedRecords(wbs, PositionSpecs(args)), PositionSpecs(args));
  }

  /** Merge mode writes nothing exactly when no workbook opens with a readable sheet. */
  lemma {:induction false} MergeNoData<V>(wbs: seq<Workbook<V>>, args: seq<string>)
    ensures MergeResult(wbs, args) == Err(NoData) <==>
      forall k :: 0 <= k < |wbs| ==> wbs[k].sheets.None? || Readable(wbs[k].sheets.value) == []
    decreases |wbs|
  {
    var specs := PositionSpecs(args);
    if wbs != [] {
      var init, wb := wbs[..|wbs| - 1], wbs[|wbs| - 1];
      MergeNoData(init, args);
      if wb.sheets.Some? {
        RecordsPerSheet(Basename(wb.path), wb.sheets.value, specs);
      }
      assert forall k :: 0 <= k < |init| ==> init[k] == wbs[k];
    }
  }

  /** What per-file mode produces for one workbook: the output file name and the run's result. */
  function FileOutcome<V>(outputName: string, wb: Workbook<V>, args: seq<string>): (string, Result<Written<V>, RunFailure>) {
    (OutputFileName(outputName, wb.path), FileResult(wb, args))
  }

  /**
   * `extract_to_multiple_files`: each workbook is written under its own name, and a
   * workbook whose run fails does not stop the others.
   */
  method ExtractToMultipleFiles<V>(wbs: seq<Workbook<V>>, args: seq<string>, outputName: string)
    returns (outcomes: seq<(string, Result<Written<V>, RunFailure>)>)
    ensures |outcomes| == |wbs|
    ensures forall k :: 0 <= k < |wbs| ==> outcomes[k] == FileOutcome(outputName, wbs[k], args)
  {
    outcomes := [];
    for k := 0 to |wbs|
      invariant |outcomes| == k
      invariant forall j :: 0 <= j < k ==> outcomes[j] == FileOutcome(outputName, wbs[j], args)
    {
      var name := OutputFileName(outputName, wbs[k].path);
      var result := ExtractExcelInfoSingleFile(wbs[k], args);
      outcomes := outcomes + [(name, result)];
    }
  }
}
