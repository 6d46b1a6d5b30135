// The page manager of the configuration editor
// (JSON/src/components/PageManager.tsx): the user picks sheets (pages) of a
// workbook, approves a start cell for each, and the rows of all approved
// pages are combined into one table.  A sheet is a map from (row, column) to
// its cell, as the spreadsheet library holds it.
module PageManager {
  import opened Wrappers
  import opened Text
  import opened Order
  import opened Numerals
  import opened Catalog

  // ---------------------------------------------------------------------
  // Sheets

  /** A cell: its formatted text `w` and its value `v` written as text;
      `None` for undefined (or null). */
  datatype RawCell = RawCell(w: Option<string>, v: Option<string>)

  /** A merge range from its top-left (`s`) to its bottom-right (`e`) cell. */
  datatype MergeRange = MergeRange(sr: nat, sc: nat, er: nat, ec: nat)
  {
    predicate Holds(r: nat, c: nat) { sr <= r <= er && sc <= c <= ec }
  }

  /** A sheet: its cells, its merges and the last row and column of its
      `!ref` range (`None` for a sheet without one). */
  datatype Sheet = Sheet(cells: map<(nat, nat), RawCell>, merges: seq<MergeRange>, extent: Option<(nat, nat)>)

  /** The text of a cell outside any merge: `w`, else `v`, else "". */
  function OwnValue(sheet: Sheet, r: nat, c: nat): string
  {
    if (r, c) in sheet.cells then
      var cell := sheet.cells[(r, c)];
      if cell.w.Some? then cell.w.value else if cell.v.Some? then cell.v.value else ""
    else ""
  }

  /** The text of the top-left cell of a range, when it has one. */
  function TopLeftValue(sheet: Sheet, m: MergeRange): Option<string>
  {
    if (m.sr, m.sc) in sheet.cells then
      var cell := sheet.cells[(m.sr, m.sc)];
      if cell.w.Some? then cell.w else cell.v
    else None
  }

  /** `getCellValue` over the merges `ms` still to be looked at: the first
      range holding the cell gives its top-left text; when that is empty, a
      cell other than the top-left one is "", and the top-left one goes on
      to the later ranges and finally to its own text. */
  function ValueFrom(sheet: Sheet, ms: seq<MergeRange>, r: nat, c: nat): string
    decreases |ms|
  {
    if ms == [] then OwnValue(sheet, r, c)
    else if ms[0].Holds(r, c) then
      match TopLeftValue(sheet, ms[0])
      case Some(t) => t
      case None => if r != ms[0].sr || c != ms[0].sc then "" else ValueFrom(sheet, ms[1..], r, c)
    else ValueFrom(sheet, ms[1..], r, c)
  }

  function CellValue(sheet: Sheet, r: nat, c: nat): string
  {
    ValueFrom(sheet, sheet.merges, r, c)
  }

  /** `getCellValue` */
  method GetCellValue(sheet: Sheet, r: nat, c: nat) returns (value: string)
    ensures value == CellValue(sheet, r, c)
  {
    var i := 0;
    while i < |sheet.merges|
      invariant 0 <= i <= |sheet.merges|
      invariant ValueFrom(sheet, sheet.merges[i..], r, c) == CellValue(sheet, r, c)
    {
      var m := sheet.merges[i];
      assert sheet.merges[i..][1..] == sheet.merges[i + 1..];
      if m.Holds(r, c) {
        var top := TopLeftValue(sheet, m);
        if top.Some? {
          return top.value;
        }
        if r != m.sr || c != m.sc {
          return "";
        }
      }
      i := i + 1;
    }
    value := OwnValue(sheet, r, c);
  }

  /** Ranges that do not hold the cell are passed over. */
  lemma {:induction false} SkipRanges(sheet: Sheet, ms: seq<MergeRange>, k: nat, r: nat, c: nat)
    requires k <= |ms|
    requires forall j :: 0 <= j < k ==> !ms[j].Holds(r, c)
    ensures ValueFrom(sheet, ms, r, c) == ValueFrom(sheet, ms[k..], r, c)
    decreases k
  {
    if k > 0 {
      SkipRanges(sheet, ms[1..], k - 1, r, c);
      assert ms[1..][k - 1..] == ms[k..];
    }
  }

  /** A cell in a merge range shows the text of the range's top-left cell;
      when that cell is empty, every other cell of the range is "". */
  lemma MergedCell(sheet: Sheet, k: nat, r: nat, c: nat)
    requires k < |sheet.merges| && sheet.merges[k].Holds(r, c)
    requires forall j :: 0 <= j < k ==> !sheet.merges[j].Holds(r, c)
    ensures var m := sheet.merges[k];
            (TopLeftValue(sheet, m).Some? ==> CellValue(sheet, r, c) == TopLeftValue(sheet, m).value)
            && (TopLeftValue(sheet, m).None? && (r, c) != (m.sr, m.sc) ==> CellValue(sheet, r, c) == "")
  {
    SkipRanges(sheet, sheet.merges, k, r, c);
  }

  /** A cell outside every merge shows its own text. */
  lemma UnmergedCell(sheet: Sheet, r: nat, c: nat)
    requires forall j :: 0 <= j < |sheet.merges| ==> !sheet.merges[j].Holds(r, c)
    ensures CellValue(sheet, r, c) == OwnValue(sheet, r, c)
  {
    SkipRanges(sheet, sheet.merges, |sheet.merges|, r, c);
  }

  /** The texts of one row, from column 0 to `maxCol`. */
  function RowValues(sheet: Sheet, r: nat, maxCol: nat): (row: seq<string>)
    ensures |row| == maxCol + 1
  {
    seq(maxCol + 1, c requires 0 <= c <= maxCol => CellValue(sheet, r, c))
  }

  /** The inner column loop of `loadPageData` and `processPageData`. */
  method ReadRow(sheet: Sheet, r: nat, maxCol: nat) returns (row: seq<string>)
    ensures row == RowValues(sheet, r, maxCol)
  {
    row := [];
    for c := 0 to maxCol + 1
      invariant row == RowValues(sheet, r, maxCol)[..c]
    {
      var value := GetCellValue(sheet, r, c);
      row := row + [value];
    }
  }

  // ---------------------------------------------------------------------
  // The header row and the column names (loadPageData)

  /** `!isNaN(Number(str))` for non-empty trimmed text, read as a decimal
      number. */
  predicate LooksNumeric(s: string) { ParseFloat(s).Some? }

  /** A cell that counts as text: non-blank, and not a number unless it is
      longer than ten characters. */
  predicate IsTextCell(v: string)
  {
    Trim(v) != "" && (!LooksNumeric(Trim(v)) || |Trim(v)| > 10)
  }

  function TextCount(row: seq<string>): (n: nat)
    ensures n <= |row|
  {
    if row == [] then 0 else (if IsTextCell(row[0]) then 1 else 0) + TextCount(row[1..])
  }

  predicate HasValues(row: seq<string>)
  {
    exists i :: 0 <= i < |row| && Trim(row[i]) != ""
  }

  /** Whether a candidate row is taken as the header: it has values, and it
      is the row above the start cell or more than half of it is text. */
  predicate TakesHeader(row: seq<string>, tryRow: nat, first: nat)
  {
    HasValues(row) && (2 * TextCount(row) > |row| || tryRow == first)
  }

  /** The search from `tryRow` up to `low` for the header row. */
  function FindHeader(sheet: Sheet, maxCol: nat, first: nat, tryRow: int, low: nat): (r: Option<nat>)
    ensures r.Some? ==> low <= r.value <= tryRow
    decreases tryRow - low + 1
  {
    if tryRow < low then None
    else if TakesHeader(RowValues(sheet, tryRow, maxCol), tryRow, first) then Some(tryRow)
    else FindHeader(sheet, maxCol, first, tryRow - 1, low)
  }

  /** The lowest row the header search looks at: four rows above the row of
      the start cell's header. */
  function SearchFloor(first: nat): nat { if first >= 4 then first - 4 else 0 }

  /** The header row: the row just above the first data row when it has
      values, else the nearest of the four rows above it that is mostly text,
      else the row just above after all. */
  function HeaderIndex(sheet: Sheet, maxCol: nat, first: nat): nat
  {
    match FindHeader(sheet, maxCol, first, first, SearchFloor(first))
    case Some(r) => r
    case None => first
  }

  /** The header search loop of `loadPageData`. */
  method FindHeaderRow(sheet: Sheet, maxCol: nat, first: nat) returns (headerRow: seq<string>, headerRowIndex: nat)
    ensures headerRowIndex == HeaderIndex(sheet, maxCol, first)
    ensures headerRow == RowValues(sheet, headerRowIndex, maxCol)
  {
    headerRow := [];
    headerRowIndex := first;
    var tryRow: int := first;
    var low := SearchFloor(first);
    var found := false;
    while tryRow >= low && !found
      invariant low - 1 <= tryRow <= first
      invariant !found ==> FindHeader(sheet, maxCol, first, tryRow, low) == FindHeader(sheet, maxCol, first, first, low)
      invariant !found ==> headerRow == [] && headerRowIndex == first
      invariant found ==> FindHeader(sheet, maxCol, first, first, low) == Some(headerRowIndex)
                          && headerRow == RowValues(sheet, headerRowIndex, maxCol)
      decreases tryRow - low + 1, if found then 0 else 1
    {
      var candidate := ReadRow(sheet, tryRow, maxCol);
      if TakesHeader(candidate, tryRow, first) {
        headerRow := candidate;
        headerRowIndex := tryRow;
        found := true;
      } else {
        tryRow := tryRow - 1;
      }
    }
    if !found {
      headerRow := ReadRow(sheet, first, maxCol);
    }
  }

  /** The text of the raw header cell, for a header cell that shows nothing
      (a merged cell): `cell.w || String(cell.v)`. */
  function RawText(sheet: Sheet, r: nat, c: nat): string
  {
    if (r, c) in sheet.cells then
      var cell := sheet.cells[(r, c)];
      if cell.w.Some? && cell.w.value != "" then cell.w.value
      else if cell.v.Some? then cell.v.value
      else ""
    else ""
  }

  /** The name of column `idx`: the trimmed header text, else the trimmed
      raw cell text, else `Coluna_<idx+1>`. */
  function ColumnName(sheet: Sheet, headerRowIndex: nat, idx: nat, header: string): string
  {
    if Trim(header) != "" then Trim(header)
    else if Trim(RawText(sheet, headerRowIndex, idx)) != "" then Trim(RawText(sheet, headerRowIndex, idx))
    else "Coluna_" + NatToString(idx + 1)
  }

  /** `loadPageData`: the column names of a page whose data starts in row
      `first + 1`, or nothing for a sheet without a range. */
  function LoadPage(sheet: Sheet, first: nat): Option<seq<string>>
  {
    match sheet.extent
    case None => None
    case Some((_, maxCol)) =>
      var hri := HeaderIndex(sheet, maxCol, first);
      var header := RowValues(sheet, hri, maxCol);
      Some(seq(maxCol + 1, idx requires 0 <= idx <= maxCol => ColumnName(sheet, hri, idx, header[idx])))
  }

  /** There is one column name per sheet column; no name is empty or has
      whitespace at its ends, and a column whose header shows nothing is
      called `Coluna_<idx+1>`. */
  lemma ColumnNamesNeverEmpty(sheet: Sheet, first: nat)
    requires sheet.extent.Some?
    ensures var names := LoadPage(sheet, first).value;
            |names| == sheet.extent.value.1 + 1
            && (forall i :: 0 <= i < |names| ==> names[i] != "" && Trim(names[i]) == names[i])
  {
    var maxCol := sheet.extent.value.1;
    var hri := HeaderIndex(sheet, maxCol, first);
    var header := RowValues(sheet, hri, maxCol);
    var names := LoadPage(sheet, first).value;
    forall i | 0 <= i < |names|
      ensures names[i] != "" && Trim(names[i]) == names[i]
    {
      assert names[i] == ColumnName(sheet, hri, i, header[i]);
      if Trim(header[i]) != "" {
        TrimIdempotent(header[i]);
      } else if Trim(RawText(sheet, hri, i)) != "" {
        TrimIdempotent(RawText(sheet, hri, i));
      } else {
        var n := "Coluna_" + NatToString(i + 1);
        assert n[0] == 'C';
        assert IsDigit(n[|n| - 1]);
        TrimNoop(n);
      }
    }
  }

  /** When the row above the first data row has a value, it is the header. */
  lemma HeaderJustAbove(sheet: Sheet, maxCol: nat, first: nat)
    requires HasValues(RowValues(sheet, first, maxCol))
    ensures HeaderIndex(sheet, maxCol, first) == first
  {
  }

  // ---------------------------------------------------------------------
  // The data rows (processPageData)

  /** The header texts, trimmed and lower-cased, that repeated headers are
      recognised by. */
  function HeaderValues(sheet: Sheet, headerRowIndex: nat, maxCol: nat): (hv: seq<string>)
    ensures |hv| == maxCol + 1
  {
    seq(maxCol + 1, c requires 0 <= c <= maxCol => Lower(Trim(CellValue(sheet, headerRowIndex, c))))
  }

  predicate IsEmptyRow(row: seq<string>)
  {
    forall i :: 0 <= i < |row| ==> Trim(row[i]) == ""
  }

  /** A row whose non-blank cells all repeat the header text in the same
      column. */
  predicate IsDuplicateHeader(row: seq<string>, hv: seq<string>)
  {
    (forall i :: 0 <= i < |row| ==> Lower(Trim(row[i])) == "" || (i < |hv| && hv[i] == Lower(Trim(row[i]))))
    && exists i :: 0 <= i < |row| && Trim(row[i]) != ""
  }

  predicate Emitted(row: seq<string>, hv: seq<string>)
  {
    !IsEmptyRow(row) && !IsDuplicateHeader(row, hv)
  }

  /** The last row read: the sheet's last row, or the row before the stop
      row (counted from 1) when one is set and comes earlier. */
  function LastRow(maxRow: nat, stopRow: Option<nat>): nat
  {
    if stopRow.Some? && stopRow.value != 0 && stopRow.value - 1 < maxRow then stopRow.value - 1 else maxRow
  }

  /** Cell `i` is non-blank and differs from the header text above it. */
  predicate Shows(row: seq<string>, hv: seq<string>, i: nat)
    requires i < |row|
  {
    Trim(row[i]) != "" && !(i < |hv| && hv[i] == Lower(Trim(row[i])))
  }

  /** Some cell from `i` on shows something of its own. */
  predicate ShowsFrom(row: seq<string>, hv: seq<string>, i: nat)
    decreases |row| - i
  {
    i < |row| && (Shows(row, hv, i) || ShowsFrom(row, hv, i + 1))
  }

  lemma {:induction false} ShowsFromExists(row: seq<string>, hv: seq<string>, i: nat)
    ensures ShowsFrom(row, hv, i) <==> exists j :: i <= j < |row| && Shows(row, hv, j)
    decreases |row| - i
  {
    if i < |row| {
      ShowsFromExists(row, hv, i + 1);
    }
  }

  /** A row is emitted exactly when one of its cells shows something other
      than blank space or the header text. */
  lemma EmittedIffShows(row: seq<string>, hv: seq<string>)
    ensures Emitted(row, hv) <==> ShowsFrom(row, hv, 0)
  {
    ShowsFromExists(row, hv, 0);
    if Emitted(row, hv) {
      var i :| 0 <= i < |row| && !(Lower(Trim(row[i])) == "" || (i < |hv| && hv[i] == Lower(Trim(row[i]))));
      assert |Lower(Trim(row[i]))| == |Trim(row[i])|;
      assert Shows(row, hv, i);
    }
    if ShowsFrom(row, hv, 0) {
      var j :| 0 <= j < |row| && Shows(row, hv, j);
      assert |Lower(Trim(row[j]))| == |Trim(row[j])|;
      assert !IsEmptyRow(row);
    }
  }

  /** Row `r` when it is kept: one of its cells shows something. */
  function Kept(sheet: Sheet, hv: seq<string>, maxCol: nat, r: nat): seq<seq<string>>
  {
    var row := RowValues(sheet, r, maxCol);
    if ShowsFrom(row, hv, 0) then [row] else []
  }

  /** Which rows are kept, row by row. */
  function KeptRows(sheet: Sheet, hv: seq<string>, maxCol: nat): nat -> seq<seq<string>>
  {
    (r: nat) => Kept(sheet, hv, maxCol, r)
  }

  /** The rows kept from row `r` to row `last`. */
  function Scanned(sheet: Sheet, hv: seq<string>, maxCol: nat, r: nat, last: nat): seq<seq<string>>
  {
    Joined(KeptRows(sheet, hv, maxCol), r, last + 1)
  }

  /** `processPageData`: the rows from the header row (the row of the start
      cell, counted from 0) to the last row, without blank rows and repeated
      headers; nothing for a sheet without a range. */
  function PageRows(sheet: Sheet, first: nat, stopRow: Option<nat>): Option<seq<seq<string>>>
  {
    match sheet.extent
    case None => None
    case Some((maxRow, maxCol)) =>
      Some(Scanned(sheet, HeaderValues(sheet, first, maxCol), maxCol, first, LastRow(maxRow, stopRow)))
  }

  /** The header texts of `processPageData`. */
  method ReadHeaderValues(sheet: Sheet, first: nat, maxCol: nat) returns (hv: seq<string>)
    ensures hv == HeaderValues(sheet, first, maxCol)
  {
    hv := [];
    for c := 0 to maxCol + 1
      invariant hv == HeaderValues(sheet, first, maxCol)[..c]
    {
      var value := GetCellValue(sheet, first, c);
      hv := hv + [Lower(Trim(value))];
    }
  }

  /** The blank-row test of `processPageData`. */
  method IsBlankRow(row: seq<string>) returns (isEmptyRow: bool)
    ensures isEmptyRow == IsEmptyRow(row)
  {
    isEmptyRow := true;
    for c := 0 to |row|
      invariant isEmptyRow <==> forall i :: 0 <= i < c ==> Trim(row[i]) == ""
    {
      if Trim(row[c]) != "" {
        isEmptyRow := false;
      }
    }
  }

  /** One row of the loop of `processPageData`: the row, when it is kept. */
  method ScanRow(sheet: Sheet, hv: seq<string>, maxCol: nat, r: nat) returns (kept: seq<seq<string>>)
    ensures kept == Kept(sheet, hv, maxCol, r)
  {
    var row := ReadRow(sheet, r, maxCol);
    var isEmptyRow := IsBlankRow(row);
    kept := [];
    if !isEmptyRow && !IsDuplicateHeader(row, hv) {
      kept := [row];
    }
    EmittedIffShows(row, hv);
  }

  /** The row loop of `processPageData`. */
  method ScanRows(sheet: Sheet, hv: seq<string>, maxCol: nat, first: nat, last: nat) returns (allData: seq<seq<string>>)
    ensures allData == Scanned(sheet, hv, maxCol, first, last)
  {
    ghost var keep := KeptRows(sheet, hv, maxCol);
    allData := [];
    var r := first;
    while r <= last
      invariant first <= r <= last + 1 || r == first
      invariant allData == Joined(keep, first, r)
      decreases last as int + 1 - r
    {
      var kept := ScanRow(sheet, hv, maxCol, r);
      JoinedSnoc(keep, first, r);
      allData := allData + kept;
      r := r + 1;
    }
  }

  /** `processPageData` */
  method ProcessPageData(sheet: Sheet, first: nat, stopRow: Option<nat>) returns (data: Option<seq<seq<string>>>)
    ensures data == PageRows(sheet, first, stopRow)
  {
    if sheet.extent.None? {
      return None;
    }
    var (maxRow, maxCol) := sheet.extent.value;
    var hv := ReadHeaderValues(sheet, first, maxCol);
    var last := LastRow(maxRow, stopRow);
    var allData := ScanRows(sheet, hv, maxCol, first, last);
    data := Some(allData);
  }

  /** Every kept row has one cell per column, is not blank and does not
      repeat the header; the kept rows lie between the header row and the
      last row, in sheet order. */
  lemma {:induction false} ScannedRows(sheet: Sheet, hv: seq<string>, maxCol: nat, r: nat, last: nat)
    ensures forall k :: 0 <= k < |Scanned(sheet, hv, maxCol, r, last)| ==>
              var row := Scanned(sheet, hv, maxCol, r, last)[k];
              |row| == maxCol + 1 && Emitted(row, hv)
              && exists j :: r <= j <= last && row == RowValues(sheet, j, maxCol)
    decreases last + 1 - r
  {
    if r <= last {
      ScannedRows(sheet, hv, maxCol, r + 1, last);
      EmittedIffShows(RowValues(sheet, r, maxCol), hv);
      assert Scanned(sheet, hv, maxCol, r, last) == Kept(sheet, hv, maxCol, r) + Scanned(sheet, hv, maxCol, r + 1, last);
    }
  }

  /** The header row itself is never emitted: it is blank or repeats itself. */
  lemma HeaderRowSkipped(sheet: Sheet, first: nat, maxCol: nat)
    ensures !Emitted(RowValues(sheet, first, maxCol), HeaderValues(sheet, first, maxCol))
  {
  }

  /** So the rows of a page are those from the row after the header. */
  lemma PageRowsAfterHeader(sheet: Sheet, first: nat, stopRow: Option<nat>)
    requires sheet.extent.Some? && first <= LastRow(sheet.extent.value.0, stopRow)
    ensures var maxCol := sheet.extent.value.1;
            PageRows(sheet, first, stopRow).value
            == Scanned(sheet, HeaderValues(sheet, first, maxCol), maxCol, first + 1, LastRow(sheet.extent.value.0, stopRow))
  {
    var maxCol := sheet.extent.value.1;
    HeaderRowSkipped(sheet, first, maxCol);
    EmittedIffShows(RowValues(sheet, first, maxCol), HeaderValues(sheet, first, maxCol));
  }

  /** A stop row caps the rows read: none after the row before it. */
  lemma StopRowCaps(maxRow: nat, stop: nat)
    requires stop >= 1
    ensures LastRow(maxRow, Some(stop)) <= stop - 1 && LastRow(maxRow, Some(stop)) <= maxRow
    ensures LastRow(maxRow, Some(stop)) == (if stop - 1 < maxRow then stop - 1 else maxRow)
  {
  }

  // ---------------------------------------------------------------------
  // Page configurations

  /** `PageConfig`; the start cell is kept as the row it is in, counted from
      0. */
  datatype PageConfig = PageConfig(
    pageIndex: nat,
    pageName: string,
    startRow: nat,
    columns: seq<string>,
    columnMappings: seq<ColumnMapping>,
    isApproved: bool,
    stopRow: Option<nat>)

  /** `handlePageToggle`: a selected page is unselected, any other page is
      added at the end. */
  function TogglePage(selected: seq<nat>, page: nat): (r: seq<nat>)
    ensures page in r <==> page !in selected
    ensures forall q :: q != page ==> (q in r <==> q in selected)
    ensures NoDup(selected) ==> NoDup(r)
  {
    if page in selected then Without(selected, page) else selected + [page]
  }

  /** Toggling a page twice gives the same selected pages back (in another
      order when the page was in the middle). */
  lemma ToggleTwice(selected: seq<nat>, page: nat)
    ensures forall q :: q in TogglePage(TogglePage(selected, page), page) <==> q in selected
  {
  }

  /** The configurations of other pages, in order. */
  function OtherPages(configs: seq<PageConfig>, page: nat): (r: seq<PageConfig>)
    ensures forall c :: c in r <==> c in configs && c.pageIndex != page
    ensures |r| <= |configs|
  {
    if configs == [] then []
    else (if configs[0].pageIndex == page then [] else [configs[0]]) + OtherPages(configs[1..], page)
  }

  /** `handleApprovePage`: the new configuration replaces any old one for its
      page and goes last. */
  function ApprovePage(configs: seq<PageConfig>, cfg: PageConfig): (r: seq<PageConfig>)
    ensures |r| >= 1 && r[|r| - 1] == cfg
    ensures forall c :: c in r <==> c == cfg || (c in configs && c.pageIndex != cfg.pageIndex)
  {
    OtherPages(configs, cfg.pageIndex) + [cfg]
  }

  /** No two configurations are for the same page. */
  predicate OnePerPage(configs: seq<PageConfig>)
  {
    forall i, j :: 0 <= i < j < |configs| ==> configs[i].pageIndex != configs[j].pageIndex
  }

  lemma {:induction false} OtherPagesOnePerPage(configs: seq<PageConfig>, page: nat)
    requires OnePerPage(configs)
    ensures OnePerPage(OtherPages(configs, page))
  {
    if configs != [] {
      OtherPagesOnePerPage(configs[1..], page);
      var rest := OtherPages(configs[1..], page);
      forall j | 0 <= j < |rest|
        ensures configs[0].pageIndex != rest[j].pageIndex
      {
        assert rest[j] in rest;
        var k :| 0 <= k < |configs[1..]| && configs[1..][k] == rest[j];
        assert configs[k + 1] == rest[j];
      }
    }
  }

  /** After an approval the page has exactly one configuration, and no page
      that had one configuration has two. */
  lemma ApprovalKeepsOnePerPage(configs: seq<PageConfig>, cfg: PageConfig)
    requires OnePerPage(configs)
    ensures OnePerPage(ApprovePage(configs, cfg))
  {
    var rest := OtherPages(configs, cfg.pageIndex);
    OtherPagesOnePerPage(configs, cfg.pageIndex);
    forall i | 0 <= i < |rest|
      ensures rest[i].pageIndex != cfg.pageIndex
    {
      assert rest[i] in rest;
    }
  }

  // ---------------------------------------------------------------------
  // The combined file (handleGenerateFile)

  function PageColumns(p: PageConfig): seq<string> { p.columns }

  /** `allColumns`: the columns of every page, each once, in order of first
      appearance. */
  function AllColumns(pages: seq<PageConfig>): seq<string>
  {
    Distinct(FlatMap(PageColumns, pages))
  }

  /** A row padded with "" or cut to exactly `n` cells. */
  function Normalized(row: seq<string>, n: nat): (r: seq<string>)
    ensures |r| == n
  {
    seq(n, i requires 0 <= i < n => if i < |row| then row[i] else "")
  }

  /** The padding loop and the cut of `handleGenerateFile`. */
  method NormalizeRow(row: seq<string>, n: nat) returns (out: seq<string>)
    ensures out == Normalized(row, n)
  {
    out := row;
    while |out| < n
      invariant |row| <= |out|
      invariant out[..|row|] == row
      invariant forall i :: |row| <= i < |out| ==> out[i] == ""
      decreases n - |out|
    {
      out := out + [""];
    }
    out := out[..n];
  }

  /** The rows of one page, normalised; none when the page's sheet is
      missing or has no range. */
  function PageData(book: map<string, Sheet>, p: PageConfig, n: nat): seq<seq<string>>
  {
    if p.pageName !in book then []
    else
      match PageRows(book[p.pageName], p.startRow, p.stopRow)
      case None => []
      case Some(rows) => seq(|rows|, k requires 0 <= k < |rows| => Normalized(rows[k], n))
  }

  /** The rows of the pages, one page after the other. */
  function AllData(book: map<string, Sheet>, pages: seq<PageConfig>, n: nat): seq<seq<string>>
  {
    FlatMap(PagesData(book, n), pages)
  }

  /** The rows of each page. */
  function PagesData(book: map<string, Sheet>, n: nat): PageConfig -> seq<seq<string>>
  {
    (p: PageConfig) => PageData(book, p, n)
  }

  /** `UploadedFile` */
  datatype CombinedFile = CombinedFile(name: string, columns: seq<string>, data: seq<seq<string>>, sheets: seq<string>)

  function PageNames(pages: seq<PageConfig>): seq<string>
  {
    seq(|pages|, i requires 0 <= i < |pages| => pages[i].pageName)
  }

  /** The rows one page adds to the combined file. */
  method NormalizedPage(book: map<string, Sheet>, p: PageConfig, n: nat) returns (normalized: seq<seq<string>>)
    ensures normalized == PageData(book, p, n)
  {
    var pageData: Option<seq<seq<string>>> := None;
    if p.pageName in book {
      pageData := ProcessPageData(book[p.pageName], p.startRow, p.stopRow);
    }
    normalized := [];
    if pageData.Some? {
      var rows := pageData.value;
      for k := 0 to |rows|
        invariant |normalized| == k
        invariant forall j :: 0 <= j < k ==> normalized[j] == Normalized(rows[j], n)
      {
        var out := NormalizeRow(rows[k], n);
        normalized := normalized + [out];
      }
    }
  }

  /** `handleGenerateFile`: nothing without an approved page. */
  method GenerateFile(book: map<string, Sheet>, name: string, pages: seq<PageConfig>) returns (file: Option<CombinedFile>)
    ensures pages == [] <==> file.None?
    ensures file.Some? ==> file.value == CombinedFile(name, AllColumns(pages), AllData(book, pages, |AllColumns(pages)|), PageNames(pages))
  {
    if pages == [] {
      return None;
    }
    var columns := AllColumns(pages);
    var n := |columns|;
    var allData: seq<seq<string>> := [];
    for i := 0 to |pages|
      invariant allData == AllData(book, pages[..i], n)
    {
      var normalized := NormalizedPage(book, pages[i], n);
      assert pages[..i + 1][..i] == pages[..i];
      assert AllData(book, pages[..i + 1], n) == AllData(book, pages[..i], n) + PagesData(book, n)(pages[i]);
      allData := allData + normalized;
    }
    assert pages[..|pages|] == pages;
    file := Some(CombinedFile(name, columns, allData, PageNames(pages)));
  }

  lemma {:induction false} AllDataWidth(book: map<string, Sheet>, pages: seq<PageConfig>, n: nat)
    ensures forall k :: 0 <= k < |AllData(book, pages, n)| ==> |AllData(book, pages, n)[k]| == n
    decreases |pages|
  {
    if pages != [] {
      AllDataWidth(book, pages[..|pages| - 1], n);
      assert AllData(book, pages, n) == AllData(book, pages[..|pages| - 1], n) + PageData(book, pages[|pages| - 1], n);
    }
  }

  /** The combined file names every column of every page once, and every row
      has exactly one cell per column. */
  lemma CombinedFileShape(book: map<string, Sheet>, pages: seq<PageConfig>)
    ensures var cols := AllColumns(pages);
            NoDup(cols)
            && (forall i, c :: 0 <= i < |pages| && c in pages[i].columns ==> c in cols)
            && (forall k :: 0 <= k < |AllData(book, pages, |cols|)| ==> |AllData(book, pages, |cols|)[k]| == |cols|)
  {
    var cols := AllColumns(pages);
    AllDataWidth(book, pages, |cols|);
    forall i, c | 0 <= i < |pages| && c in pages[i].columns
      ensures c in cols
    {
      FlatMapMember(pages, i, c);
    }
  }

  lemma {:induction false} FlatMapMember(pages: seq<PageConfig>, i: nat, c: string)
    requires i < |pages| && c in pages[i].columns
    ensures c in FlatMap(PageColumns, pages)
    decreases |pages|
  {
    var n := |pages| - 1;
    if i < n {
      FlatMapMember(pages[..n], i, c);
    }
  }
}
