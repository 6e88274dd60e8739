# Excel position extractor — a Dafny model

This project models the extraction core of `scripts/extract_excel_gui.py`. The tool is a small desktop utility that reads a list of
*position arguments* such as `F4-SampleName` or `F1:P1-Peaks`, opens Excel workbooks,
and for every worksheet builds one record. Each record holds the sheet name, the source file name and, for every
argument, the value read at that cell or range. The records are written as one table,
either one table for all workbooks (merge mode) or one table per workbook (per-file mode).

The model covers:

- **Cell tokens and ranges** (`get_range_data_from_pandas`, modules `Strings`, `Columns`,
  `Cells`, `CellProperties`).
  - A token splits at the first position whose suffix is all digits.
  - Column letters are read in bijective base 26.
  - A single cell beyond the sheet is `None`.
  - A range whose start or end row lies beyond the sheet is `[]`.
  - A range wider than the sheet is padded with `None` in every row.
  - Every failure the code raises is a `Failure` value: no digit suffix, a suffix that `int()` rejects, bad column letters, more than one colon, and `iloc[-1]` on a grid that has columns but no rows. An empty sheet reads as a grid without rows or columns, so every cell of it is `None`.
  - Row `0` follows pandas negative indexing: `A0` is the last row.
- **Position arguments** (`parse_position_args`, module `Specs`). The scan over candidate
  split points is a method proved equal to a reference function. That function makes a single test at the last dash, because a shorter left part cannot gain a digit or a letter.
- **Per-sheet records and column order** (module `Records`). A record is an insertion-ordered
  dictionary. It is seeded with `sheet` and `source_file`, then written once per argument. A repeated header overwrites the value but keeps its first position. The output columns are `sheet`, `source_file` and the headers. The column filter is proved to keep all of them.
- **Runs over workbooks** (module `Workbooks`): `extract_excel_info_single_file`,
  `extract_to_single_file` and `extract_to_multiple_files`.
  - An unreadable sheet is skipped.
  - A workbook that does not open is a failure in `extract_excel_info_single_file`, and so per file in per-file mode; it is skipped in merge mode.
  - No record at all is a failure in both.
- **Per-file output names** (module `Naming`): Windows `os.path.basename` and `os.path.splitext`. An extension starts at the last dot of the last component, except when every character of the last component before that dot is a dot. The output name is `<output stem>_<input stem><output extension or .xlsx>`.
- **The parameter box** (module `Parameters`): `get_parameters` reads the non-blank stripped lines. The text written by `load_default_params` reads back to its arguments.

Each loop of the source is a method with loop invariants whose `ensures` ties its result to a reference function. The properties the source relies on are proved as lemmas about those functions. Apart from user-interface state, the source mutates only local lists and dicts that it builds and then returns or writes out: the range values (`append`/`extend`), each sheet's record, the list of records and the list of parsed arguments. These are modelled as `seq` variables that the loops reassign, so the model has no classes: workbooks and sheets are values, and cell values are a type parameter `V`.

Behaviours of the code a reader may not expect:

- Field names with dashes are not protected. The scan tries the last dash first, so `F1-peak-area` becomes range `F1-peak` and header `area` (`Specs.DashedHeaderIsCut`). A dash in a header survives only when the text before the last dash lacks a digit or a letter, and then the whole argument becomes both range and header.
- A padded range has `(rows) * (columns)` entries only while its first column is at most one past the sheet's last column (`CellProperties.RangeLength`). When the first column lies further right, the padding still counts from the sheet's edge, so the list is longer.
- A position argument is not trimmed by `parse_position_args`. Trimming happens earlier, line by line, in `get_parameters`.

## Model

| member | source | states |
|---|---|---|
| Strings.Strip | scripts/extract_excel_gui.py:311 | `str.strip`: the result has no whitespace at either end; it is empty exactly when the input is all whitespace; it holds only characters of the input |
| Strings.StripSlice | scripts/extract_excel_gui.py:311 | what `str.strip` keeps: the result is, character by character, the slice of the input that starts after its leading whitespace |
| Strings.StripRemoved | scripts/extract_excel_gui.py:311 | what `str.strip` removes: everything of the input before and after that slice is whitespace |
| Strings.StripIdempotent | scripts/extract_excel_gui.py:314 | stripping a stripped line changes nothing |
| Strings.ParseDecimal | scripts/extract_excel_gui.py:23 | `int()` of a digit string succeeds exactly when the string is non-empty and every character is a decimal digit (no limit on the number of digits) |
| Strings.DecimalRoundTrip | scripts/extract_excel_gui.py:23 | `int()` reads back the decimal numeral of every natural number |
| Strings.LastIndexOf | scripts/extract_excel_gui.py:85-86 | finds a dash exactly when one exists, and no dash follows the one found |
| Strings.SplitParts | scripts/extract_excel_gui.py:88 | no piece of a split holds the separator |
| Strings.SplitRejoins | scripts/extract_excel_gui.py:92 | joining the pieces with the separator gives the original text |
| Strings.SplitJoin | scripts/extract_excel_gui.py:88 | splitting a join of separator-free pieces gives the pieces back |
| Strings.SplitCount | scripts/extract_excel_gui.py:88 | a split has one piece more than the text has separators |
| Strings.JoinPrefix | scripts/extract_excel_gui.py:91-93 | a candidate left part with fewer pieces is a prefix of one with more |
| Strings.PrefixClasses | scripts/extract_excel_gui.py:96 | a prefix holding a digit or a letter implies the whole text does |
| Columns.ColumnIndex | scripts/extract_excel_gui.py:27 | `column_index_from_string` accepts exactly non-empty strings of column letters and gives a number of at least 1 |
| Columns.ColumnRoundTrip | scripts/extract_excel_gui.py:27 | column letters and column numbers are inverse bijections: name to number to name and number to name to number |
| Cells.RowStartIsFirstSplit | scripts/extract_excel_gui.py:20-26 | the split point is the first position i ≥ 1 whose suffix is all digits; when none exists, no position qualifies |
| Cells.FindRowStart | scripts/extract_excel_gui.py:20-24 | the `for`/`else` scan returns the first split point, None when the loop ends without `break` |
| Cells.ParseCellToken | scripts/extract_excel_gui.py:20-26 | a token splits into column letters and a row number, or fails with the cell-format error or the `int()` error |
| Cells.GetCell | scripts/extract_excel_gui.py:18-35 | the single-cell branch returns exactly the reference single-cell value |
| Cells.ReadRows | scripts/extract_excel_gui.py:69-74 | the nested row and column loops produce exactly the reference row-major list |
| Cells.AppendRow | scripts/extract_excel_gui.py:70-74 | one pass of the inner loop appends the row's cells and its padding to the list so far, or fails as `iloc` does |
| Cells.RowsFailurePersists | scripts/extract_excel_gui.py:69-71 | once a row fails, the whole range fails with that error |
| Cells.ReadBetween | scripts/extract_excel_gui.py:58-75 | the range branch after parsing both ends returns the reference range value |
| Cells.GetRange | scripts/extract_excel_gui.py:36-75 | the range branch returns exactly the reference range value |
| Cells.GetRangeData | scripts/extract_excel_gui.py:12-75 | `get_range_data_from_pandas` returns exactly the reference extraction of the token from the sheet |
| Cells.Position | scripts/extract_excel_gui.py:35 | pandas positional index: defined exactly for -n ≤ i < n, and within the n rows |
| Cells.PositionRow | scripts/extract_excel_gui.py:35 | a defined position is `i` for `i ≥ 0` and `n + i` for a negative `i`, i.e. `i mod n` with `n > 0` |
| CellProperties.ParseCellName | scripts/extract_excel_gui.py:20-27 | the token of column c and row r parses back to c's letters and r, and the letters to column index c-1 |
| CellProperties.CellLookup | scripts/extract_excel_gui.py:27-35 | the cell at column c, row r is `None` beyond the last row or column, the value at (r-1, c-1) for r ≥ 1, and the last row's value for r = 0 (an error on a grid with columns but no rows) |
| CellProperties.EmptySheetCell | scripts/extract_excel_gui.py:29-34 | on an empty sheet (no rows, no columns) every cell token, row 0 included, gives `None` |
| CellProperties.CellOf | scripts/extract_excel_gui.py:18-35 | the same lookup for any colon-free token that parses to those letters and that row |
| CellProperties.NamedRange | scripts/extract_excel_gui.py:38-59 | a token `X:Y` of two cell names parses to its two cells |
| CellProperties.RowsLayout | scripts/extract_excel_gui.py:68-75 | rows inside the sheet produce the row-major flattening of a matrix whose rows are the selected cells followed by padding |
| CellProperties.RangeLookup | scripts/extract_excel_gui.py:61-75 | a range inside the sheet's rows gives `List` of the row-major flattening of that matrix |
| CellProperties.RangePastLastRow | scripts/extract_excel_gui.py:61-63 | a range whose start or end row lies beyond the sheet gives the empty list |
| CellProperties.RangeLength | scripts/extract_excel_gui.py:65-75 | a range inside the rows, not starting past the first missing column, has (rows) × (columns) entries, padding included |
| CellProperties.PaddingOnlyRows | scripts/extract_excel_gui.py:70-74 | when no selected column exists, every entry produced is `None` |
| CellProperties.InvertedRangeReadsNothing | scripts/extract_excel_gui.py:69-74 | a range whose end lies above or left of its start reads no cell: every entry is padding |
| CellProperties.MalformedCellRejected | scripts/extract_excel_gui.py:20-26 | a colon-free token shorter than two characters, or not ending in a digit, raises the cell-format error |
| CellProperties.ColonsRejected | scripts/extract_excel_gui.py:38 | a token with two or more colons fails the two-way unpack |
| CellProperties.MixedPrefixRejected | scripts/extract_excel_gui.py:20-27 | `A1B2` splits at `B2`'s row digit after the prefix `A1B`, which is not a column name |
| CellProperties.NonColumnPrefixRejected | scripts/extract_excel_gui.py:20-35 | any single cell whose prefix before the row digits is not a column name gives the bad-column error, on any valid sheet |
| CellProperties.RangeNonColumnPrefixRejected | scripts/extract_excel_gui.py:38-59 | a range whose start or end has a prefix before the row digits that is not a column name gives the bad-column error |
| Specs.SpecOfCases | scripts/extract_excel_gui.py:84-104 | an argument either splits into a cell part holding a digit and a letter, a dash and a dash-free header that rejoin to it; or it is both range and header and the text before its last dash fails the test |
| Specs.SpecOfAt | scripts/extract_excel_gui.py:86-101 | the split is decided by the text before the last dash alone |
| Specs.SpecOfPieces | scripts/extract_excel_gui.py:88-98 | the first candidate of the scan, the first n-1 pieces, decides the result |
| Specs.SpecRoundTrip | scripts/extract_excel_gui.py:84-98 | a cell part holding a digit and a letter, a dash and a dash-free header parse back to that part and header |
| Specs.DashedHeaderIsCut | scripts/extract_excel_gui.py:91-98 | `F1-peak-area` parses to range `F1-peak` and header `area` |
| Specs.ParseSpec | scripts/extract_excel_gui.py:84-104 | the candidate scan with its `for`/`else` fallback gives exactly the last-dash reference parse |
| Specs.ParsePositionArgs | scripts/extract_excel_gui.py:77-106 | one parsed argument per argument, in order, each the reference parse |
| Records.Put | scripts/extract_excel_gui.py:136 | dict assignment: an existing key keeps its position, a new key goes last, the key then maps to the value and every other key keeps its value |
| Records.Seed | scripts/extract_excel_gui.py:130 | a record starts with exactly the keys `sheet`, `source_file` |
| Records.ExtractSheet | scripts/extract_excel_gui.py:130-141 | the loop over the arguments, with failed extractions stored as `None`, builds exactly the reference record |
| Records.RecordKeys | scripts/extract_excel_gui.py:130-141 | a record's keys are `sheet`, `source_file`, then the headers, each at its first occurrence |
| Records.RecordLookup | scripts/extract_excel_gui.py:132-139 | a key holds the outcome of the last argument with that header, or its seed value when no argument writes it |
| Records.RecordHasAllColumns | scripts/extract_excel_gui.py:148 | every record holds every output column |
| Records.FinalColumns | scripts/extract_excel_gui.py:151 | the filter keeps exactly the columns present in some record, without adding any |
| Records.FinalColumnsKeepAll | scripts/extract_excel_gui.py:151 | the filter keeps every column in order once one record holds them all |
| Records.Frame | scripts/extract_excel_gui.py:145-153 | the table has one row per record and one entry per chosen column |
| Workbooks.ReadableMembers | scripts/extract_excel_gui.py:123-128 | the sheets that read are exactly those whose reading does not raise |
| Workbooks.ExtractSheets | scripts/extract_excel_gui.py:123-141 | the sheet loop, skipping unreadable sheets, builds exactly the reference records |
| Workbooks.RecordsPerSheet | scripts/extract_excel_gui.py:123-141 | one record per readable sheet, in workbook order, each the sheet's record |
| Workbooks.SheetRecordsHaveColumns | scripts/extract_excel_gui.py:147-151 | every record of the sheet loop holds every output column |
| Workbooks.FrameColumns | scripts/extract_excel_gui.py:147-153 | when every record holds the columns, the table's columns are `sheet`, `source_file` and the headers, in order |
| Workbooks.ExtractExcelInfoSingleFile | scripts/extract_excel_gui.py:108-157 | `extract_excel_info_single_file` returns exactly the reference result for one workbook |
| Workbooks.FileFailures | scripts/extract_excel_gui.py:118-157 | it fails to open exactly when the workbook does not open, and finds no data exactly when no sheet reads |
| Workbooks.FileTable | scripts/extract_excel_gui.py:144-155 | a written table has the base columns, and its count equals its number of rows and of readable sheets |
| Workbooks.FileCell | scripts/extract_excel_gui.py:130-153 | the entry at row i, column c is the outcome of the last argument writing c on the i-th readable sheet, or the seed value |
| Workbooks.ExtractToSingleFile | scripts/extract_excel_gui.py:357-404 | the merge loop, which skips workbooks that do not open, returns exactly the reference merged result |
| Workbooks.MergeAppend | scripts/extract_excel_gui.py:362-393 | the merged records of two lists of workbooks are the records of the first followed by those of the second |
| Workbooks.MergeOfOne | scripts/extract_excel_gui.py:357-404 | merging one workbook that opens writes what the single-file run writes; one that does not open gives no data |
| Workbooks.MergedRecordsHaveColumns | scripts/extract_excel_gui.py:397-398 | every merged record holds every output column |
| Workbooks.MergeTable | scripts/extract_excel_gui.py:395-402 | the merged table has the base columns, and its count equals its number of rows |
| Workbooks.MergeNoData | scripts/extract_excel_gui.py:391-404 | merge mode finds no data exactly when every workbook either does not open or has no readable sheet |
| Workbooks.ExtractToMultipleFiles | scripts/extract_excel_gui.py:406-422 | one outcome per workbook, in order: its own output name and its single-file result, whatever earlier workbooks gave |
| Naming.BasenameShape | scripts/extract_excel_gui.py:130 | `basename` is the end of the path after its last separator and holds no separator |
| Naming.LastSepShape | scripts/extract_excel_gui.py:414 | the last separator found is a separator and none follows it |
| Naming.SplitExtShape | scripts/extract_excel_gui.py:408-409 | `splitext` splits into root and extension that concatenate to the name, and an extension is a dot followed by text without dots or separators |
| Naming.SplitExtAt | scripts/extract_excel_gui.py:408-409 | a name whose last component has a non-dot before a final dot-extension splits at that dot |
| Naming.StemHasNoSep | scripts/extract_excel_gui.py:414 | an input stem holds no separator |
| Naming.OutputFileNameParts | scripts/extract_excel_gui.py:408-415 | the per-file output name splits back into the output stem, an underscore and the input stem, and the output name's extension or `.xlsx` |
| Naming.OutputNamesDistinct | scripts/extract_excel_gui.py:414-416 | inputs with different stems get different output names |
| Naming.DotlessOutputName | scripts/extract_excel_gui.py:408-415 | an output name without a dot gives `<name>_<input stem>.xlsx` |
| Naming.StemAfterSep | scripts/extract_excel_gui.py:414 | the stem of `dir/name.ext` or `dir\name.ext` is `name` when the name has a non-dot character |
| Naming.LeadingDotsNoExtension | scripts/extract_excel_gui.py:408-409 | a name of leading dots followed by dot-free text, such as `.xlsx`, has no extension |
| Parameters.StrippedLines | scripts/extract_excel_gui.py:314 | the kept lines are no more than the lines, each non-empty and stripped |
| Parameters.GetParameters | scripts/extract_excel_gui.py:309-314 | every parameter read is non-empty, stripped and free of line breaks |
| Parameters.BlankText | scripts/extract_excel_gui.py:311-314 | no parameter is read exactly when the box holds only whitespace |
| Parameters.LoadDefaultParams | scripts/extract_excel_gui.py:257-261 | the box holds each default followed by a line break, in order |
| Parameters.StrippedLinesKeep | scripts/extract_excel_gui.py:314 | stripped non-empty lines are all kept, unchanged |
| Parameters.NonBlankIncreasing | scripts/extract_excel_gui.py:314 | the positions of the non-blank lines are strictly increasing, so the input order is kept |
| Parameters.NonBlankMembers | scripts/extract_excel_gui.py:314 | a line's position is listed exactly when the stripped line is non-empty |
| Parameters.StrippedLinesAt | scripts/extract_excel_gui.py:314 | the kept lines are exactly the stripped non-blank lines, one per non-blank position, in order |
| Parameters.GetParametersLines | scripts/extract_excel_gui.py:309-314 | the parameters are the stripped non-blank lines of the stripped text split at `\n`, in order, and nothing else |
| Parameters.ParamTextRoundTrip | scripts/extract_excel_gui.py:309-314 | reading back the text of non-empty, stripped, break-free defaults gives the defaults |

## Left out

- The Tk window and its dialogs are user-interface code, not extraction logic: file list management (`add_files`, `remove_selected_file`, `clear_files`), `browse_output_dir`, `add_parameter`, `clear_parameters`, `log`, message boxes, and the checks in `start_extraction` that at least one file, one parameter and an output directory are set.
- File and spreadsheet I/O (pandas and openpyxl reading, `to_excel`, `os.makedirs`) lives in external libraries. A workbook is given as its sheets (`None` when opening raises), and a sheet as its grid (`None` when reading raises).
- `Workbooks.ExtractToMultipleFiles` and `Workbooks.ExtractToSingleFile` give the table to be written and, in per-file mode, the output file name. `os.path.join` with the output directory is not modelled.
- Log and warning messages, and the text of exception messages, are left out. Each error is a constructor of `Failure` or `RunFailure`.
- Cell value semantics (numbers, dates, NaN for empty cells) are opaque: values have a type parameter `V`. The grid is the sheet as pandas yields it.
- The DataFrame built from records with differing key sets is modelled only as far as the tool uses it. Every record holds every output column, so no column is missing and none is filled with NaN.
- `Columns.ColumnIndex`: accepts any non-empty string of `A`–`Z`. openpyxl also accepts lower case and rejects names longer than three letters; those are library internals.
- `Strings.ParseDecimal`: has no limit on the number of digits. CPython 3.11 and later (and 3.10.7 and later) raise `ValueError` in `int()` on a numeral of more than 4300 digits by default, and the limit can be configured. So a row number that long, such as the end of `A1:B` followed by 4301 digits, is modelled as a number and not as the `int()` error that the source then turns into `None` (scripts/extract_excel_gui.py:53, :139).
- `Strings.IsDigit`: `str.isdigit`, `str.isalpha` and `str.isspace` are modelled on concrete subsets of Unicode: ASCII and full-width digits plus superscripts one to three; ASCII and full-width Latin letters and CJK unified ideographs; Python's whitespace list. Other scripts are left out.
- `Naming.Basename`: Windows path rules (both separators) are modelled. Drive prefixes such as `C:name` without a separator are not split off.
- `scripts/build_exe.py` packages the tool and is not part of this model.
