// The spreadsheet-to-text converter (MOTOR/conversor_etl.py): every sheet of
// every workbook becomes a text file in which each data row is a block
// "========== REGISTRO n ==========" followed by one "column: value" line per
// column and a blank line.
module VerticalText {
  import opened Wrappers
  import opened Text
  import opened Split
  import opened Numerals
  import opened Order

  /** A sheet as pandas reads it: the header cells and the data rows, an empty
      (NaN) cell as `None`.  Cell text is what `str(value)` gives. */
  datatype Sheet = Sheet(header: seq<string>, rows: seq<seq<Option<string>>>)
  {
    predicate Valid() { forall r :: 0 <= r < |rows| ==> |rows[r]| == |header| }
  }

  /** The sheet after cleaning: the kept columns, and for every kept row its
      original position (the pandas index) and its cells in the kept columns. */
  datatype Table = Table(columns: seq<string>, labels: seq<nat>, cells: seq<seq<Option<string>>>)
  {
    predicate Valid()
    {
      |labels| == |cells| && forall r :: 0 <= r < |cells| ==> |cells[r]| == |columns|
    }
  }

  const MARKER: string := "========== REGISTRO "

  /** `df.columns.str.replace('\n', ' ').str.strip()` */
  function CleanHeader(c: string): string { Trim(ReplaceChar(c, '\n', ' ')) }

  predicate RowHasData(sheet: Sheet, r: nat)
    requires r < |sheet.rows|
  {
    exists c :: 0 <= c < |sheet.rows[r]| && sheet.rows[r][c].Some?
  }

  predicate ColumnHasData(sheet: Sheet, c: nat)
  {
    exists r :: 0 <= r < |sheet.rows| && c < |sheet.rows[r]| && sheet.rows[r][c].Some?
  }

  predicate Increasing(s: seq<nat>)
  {
    forall i, j :: 0 <= i < j < |s| ==> s[i] < s[j]
  }

  /** The positions below `n` that satisfy `keep`, in increasing order. */
  function Positions(n: nat, keep: nat -> bool): (r: seq<nat>)
    ensures forall i :: 0 <= i < |r| ==> r[i] < n && keep(r[i])
    ensures forall k :: 0 <= k < n && keep(k) ==> k in r
    ensures Increasing(r)
  {
    if n == 0 then [] else Positions(n - 1, keep) + (if keep(n - 1) then [n - 1] else [])
  }

  /** `dropna(how='all')` followed by `dropna(axis=1, how='all')`, after the
      header cells have been cleaned. */
  function Clean(sheet: Sheet): (t: Table)
    requires sheet.Valid()
    ensures t.Valid()
  {
    var rs := Positions(|sheet.rows|, (r: nat) => r < |sheet.rows| && RowHasData(sheet, r));
    var cs := Positions(|sheet.header|, (c: nat) => ColumnHasData(sheet, c));
    Table(
      seq(|cs|, j requires 0 <= j < |cs| => CleanHeader(sheet.header[cs[j]])),
      rs,
      seq(|rs|, i requires 0 <= i < |rs| =>
        seq(|cs|, j requires 0 <= j < |cs| => sheet.rows[rs[i]][cs[j]])))
  }

  /** `"" if pd.isna(valor) else str(valor)` */
  function CellText(v: Option<string>): string
  {
    match v
    case None => ""
    case Some(s) => s
  }

  /** The rest of a block's first line, after the marker. */
  function TitleRest(index: nat): string { NatToString(index + 1) + " ==========" }

  function FieldLine(column: string, v: Option<string>): string { column + ": " + CellText(v) }

  /** The lines of a block after the marker: the title, one line per column and
      the two empty pieces that the closing blank line leaves. */
  function BlockLines(index: nat, columns: seq<string>, row: seq<Option<string>>): (r: seq<string>)
    requires |row| == |columns|
    ensures |r| == |columns| + 3
  {
    [TitleRest(index)] + FieldLines(columns, row) + ["", ""]
  }

  /** A block without its marker: what the reader gets back for it. */
  function BlockBody(index: nat, columns: seq<string>, row: seq<Option<string>>): string
    requires |row| == |columns|
  {
    Join(BlockLines(index, columns, row), "\n")
  }

  function BlockText(index: nat, columns: seq<string>, row: seq<Option<string>>): string
    requires |row| == |columns|
  {
    MARKER + BlockBody(index, columns, row)
  }

  function Concat(ss: seq<string>): string
  {
    if ss == [] then "" else ss[0] + Concat(ss[1..])
  }

  lemma {:induction false} ConcatSnoc(ss: seq<string>, x: string)
    ensures Concat(ss + [x]) == Concat(ss) + x
    decreases |ss|
  {
    if ss == [] {
      assert [] + [x] == [x];
    } else {
      assert (ss + [x])[1..] == ss[1..] + [x];
      ConcatSnoc(ss[1..], x);
    }
  }

  function TableBlocks(t: Table): (r: seq<string>)
    requires t.Valid()
    ensures |r| == |t.cells|
  {
    seq(|t.cells|, i requires 0 <= i < |t.cells| => BlockText(t.labels[i], t.columns, t.cells[i]))
  }

  /** The whole text file. */
  function Render(t: Table): string
    requires t.Valid()
  {
    Concat(TableBlocks(t))
  }

  /** `f"{nome_base}_{nome_aba}.txt"` */
  function TxtName(workbook: string, sheetName: string): string
  {
    Stem(workbook) + "_" + sheetName + ".txt"
  }

  /** Lines each followed by a newline, as the writer emits them. */
  function Terminated(lines: seq<string>): string
  {
    if lines == [] then "" else lines[0] + "\n" + Terminated(lines[1..])
  }

  lemma {:induction false} TerminatedSnoc(lines: seq<string>, x: string)
    ensures Terminated(lines + [x]) == Terminated(lines) + x + "\n"
    decreases |lines|
  {
    if lines != [] {
      assert (lines + [x])[1..] == lines[1..] + [x];
      TerminatedSnoc(lines[1..], x);
    } else {
      assert [] + [x] == [x];
    }
  }

  /** Writing each line with its newline and then one more newline gives the
      lines joined by newlines followed by a blank line. */
  lemma {:induction false} TerminatedIsJoin(lines: seq<string>)
    ensures Terminated(lines) + "\n" == Join(lines + ["", ""], "\n")
    decreases |lines|
  {
    if lines == [] {
      assert lines + ["", ""] == ["", ""];
    } else {
      assert lines + ["", ""] == [lines[0]] + (lines[1..] + ["", ""]);
      TerminatedIsJoin(lines[1..]);
    }
  }

  function FieldLines(columns: seq<string>, row: seq<Option<string>>): (r: seq<string>)
    requires |row| == |columns|
    ensures |r| == |columns|
  {
    seq(|columns|, j requires 0 <= j < |columns| => FieldLine(columns[j], row[j]))
  }

  /** Column `j` shares its cleaned header with another kept column, so
      `row[col]` yields several values and `pd.isna` of them cannot be used as
      a condition: pandas raises a ValueError there. */
  predicate Repeated(columns: seq<string>, j: nat)
    requires j < |columns|
  {
    exists k :: 0 <= k < |columns| && k != j && columns[k] == columns[j]
  }

  /** The first column, from `j` on, whose header is repeated; `|columns|` if
      there is none. */
  function FirstRepeatedFrom(columns: seq<string>, j: nat): (r: nat)
    requires j <= |columns|
    ensures j <= r <= |columns|
    ensures r < |columns| ==> Repeated(columns, r)
    ensures forall k :: j <= k < r ==> !Repeated(columns, k)
    decreases |columns| - j
  {
    if j == |columns| then j
    else if Repeated(columns, j) then j
    else FirstRepeatedFrom(columns, j + 1)
  }

  function FirstRepeated(columns: seq<string>): nat
  {
    FirstRepeatedFrom(columns, 0)
  }

  /** The headers are pairwise different exactly when no column is repeated. */
  lemma NoDupIffNoneRepeated(columns: seq<string>)
    ensures NoDup(columns) <==> FirstRepeated(columns) == |columns|
  {
    var j := FirstRepeated(columns);
    if j < |columns| {
      var k :| 0 <= k < |columns| && k != j && columns[k] == columns[j];
      if k < j { assert columns[k] == columns[j]; } else { assert columns[j] == columns[k]; }
    } else {
      forall i, k | 0 <= i < k < |columns|
        ensures columns[i] != columns[k]
      {
        assert !Repeated(columns, i);
      }
    }
  }

  /** What is left in the file when writing a row stops at the first repeated
      header: the marker line and the lines of the columns before it. */
  function PartialBlock(index: nat, columns: seq<string>, row: seq<Option<string>>): string
    requires |row| == |columns|
  {
    MARKER + Terminated([TitleRest(index)] + FieldLines(columns, row)[..FirstRepeated(columns)])
  }

  /** One record block, written line by line; `ok` is false when a repeated
      header made the write stop, and `text` is then what was written. */
  method WriteBlock(index: nat, columns: seq<string>, row: seq<Option<string>>) returns (text: string, ok: bool)
    requires |row| == |columns|
    ensures ok <==> NoDup(columns)
    ensures ok ==> text == BlockText(index, columns, row)
    ensures !ok ==> text == PartialBlock(index, columns, row)
  {
    ghost var lines := [TitleRest(index)] + FieldLines(columns, row);
    text := MARKER + TitleRest(index) + "\n";
    assert lines[..1] == [TitleRest(index)];
    var j := 0;
    while j < |columns|
      invariant 0 <= j <= |columns|
      invariant forall k :: 0 <= k < j ==> !Repeated(columns, k)
      invariant text == MARKER + Terminated(lines[..j + 1])
    {
      if Repeated(columns, j) {
        StopsAt(index, columns, row, j);
        return text, false;
      }
      ghost var prev := lines[..j + 1];
      assert lines[..j + 2] == prev + [FieldLine(columns[j], row[j])];
      TerminatedSnoc(prev, FieldLine(columns[j], row[j]));
      text := text + FieldLine(columns[j], row[j]) + "\n";
      j := j + 1;
    }
    NoDupIffNoneRepeated(columns);
    assert lines[..j + 1] == lines;
    TerminatedIsJoin(lines);
    assert lines + ["", ""] == BlockLines(index, columns, row);
    text := text + "\n";
    ok := true;
  }

  /** Writing stops at the first repeated header `j`: the headers are not all
      different, and the text so far is the partial block. */
  lemma StopsAt(index: nat, columns: seq<string>, row: seq<Option<string>>, j: nat)
    requires |row| == |columns| && j < |columns| && Repeated(columns, j)
    requires forall k :: 0 <= k < j ==> !Repeated(columns, k)
    ensures !NoDup(columns)
    ensures PartialBlock(index, columns, row)
      == MARKER + Terminated(([TitleRest(index)] + FieldLines(columns, row))[..j + 1])
  {
    NoDupIffNoneRepeated(columns);
    assert FirstRepeated(columns) == j;
    assert ([TitleRest(index)] + FieldLines(columns, row))[..j + 1]
      == [TitleRest(index)] + FieldLines(columns, row)[..j];
  }

  /** The writer: the blocks of all rows, one after the other.  A repeated
      header stops it inside the first row, leaving that row's partial block. */
  method WriteTable(t: Table) returns (text: string, ok: bool)
    requires t.Valid()
    ensures ok <==> |t.cells| == 0 || NoDup(t.columns)
    ensures ok ==> text == Render(t)
    ensures !ok ==> |t.cells| > 0 && text == PartialBlock(t.labels[0], t.columns, t.cells[0])
  {
    ghost var blocks := TableBlocks(t);
    text := "";
    var i := 0;
    while i < |t.cells|
      invariant 0 <= i <= |t.cells|
      invariant i > 0 ==> NoDup(t.columns)
      invariant text == Concat(blocks[..i])
    {
      var block, rowOk := WriteBlock(t.labels[i], t.columns, t.cells[i]);
      if !rowOk {
        assert i == 0 && text == "";
        return block, false;
      }
      assert blocks[..i + 1] == blocks[..i] + [block];
      ConcatSnoc(blocks[..i], block);
      text := text + block;
      i := i + 1;
    }
    assert blocks[..i] == blocks;
    ok := true;
  }

  /** A sheet that converts without an error: no two kept columns have the
      same cleaned header. */
  predicate Converts(sheet: Sheet)
    requires sheet.Valid()
  {
    NoDup(Clean(sheet).columns)
  }

  /** The file a sheet with a repeated header leaves: the partial block of its
      first kept row. */
  function FailedText(sheet: Sheet): string
    requires sheet.Valid() && !Converts(sheet)
  {
    var t := Clean(sheet);
    ColumnsNeedRows(sheet);
    PartialBlock(t.labels[0], t.columns, t.cells[0])
  }

  /** One sheet of one workbook: the file name and the file's content; `ok`
      is false when the write stopped at a repeated header. */
  method ConvertSheet(workbook: string, sheetName: string, sheet: Sheet) returns (fileName: string, text: string, ok: bool)
    requires sheet.Valid()
    ensures fileName == TxtName(workbook, sheetName)
    ensures ok <==> Converts(sheet)
    ensures ok ==> text == Render(Clean(sheet))
    ensures !ok ==> text == FailedText(sheet)
  {
    fileName := Stem(workbook) + "_" + sheetName + ".txt";
    var t := Clean(sheet);
    ColumnsNeedRows(sheet);
    text, ok := WriteTable(t);
  }

  /** What a failed write leaves is the beginning of the block that would have
      been written, and strictly shorter than it. */
  lemma PartialBlockIsPrefix(index: nat, columns: seq<string>, row: seq<Option<string>>)
    requires |row| == |columns|
    ensures PartialBlock(index, columns, row) < BlockText(index, columns, row)
  {
    var lines := [TitleRest(index)] + FieldLines(columns, row);
    var m := FirstRepeated(columns);
    assert [TitleRest(index)] + FieldLines(columns, row)[..m] == lines[..m + 1];
    TerminatedPrefix(lines, m + 1);
    TerminatedIsJoin(lines);
    assert lines + ["", ""] == BlockLines(index, columns, row);
    var whole := Terminated(lines);
    var part := Terminated(lines[..m + 1]);
    assert BlockText(index, columns, row) == MARKER + whole + "\n";
    assert part <= whole;
    assert MARKER + part <= MARKER + whole + "\n" by {
      assert (MARKER + whole + "\n")[..|MARKER + part|] == MARKER + part;
    }
  }

  lemma {:induction false} TerminatedPrefix(lines: seq<string>, m: nat)
    requires m <= |lines|
    ensures Terminated(lines[..m]) <= Terminated(lines)
    decreases |lines|
  {
    if m < |lines| {
      var init := lines[..|lines| - 1];
      assert lines == init + [lines[|lines| - 1]];
      TerminatedSnoc(init, lines[|lines| - 1]);
      assert lines[..m] == init[..m];
      TerminatedPrefix(init, m);
      var a, b := Terminated(init[..m]), Terminated(init);
      assert a <= b;
      assert (b + lines[|lines| - 1] + "\n")[..|a|] == a;
    } else {
      assert lines[..m] == lines;
    }
  }

  /** A kept column holds a value in some kept row, so a cleaned sheet with
      columns has rows. */
  lemma ColumnsNeedRows(sheet: Sheet)
    requires sheet.Valid()
    ensures |Clean(sheet).columns| > 0 ==> |Clean(sheet).cells| > 0
  {
    CleanKeepsData(sheet);
    var t := Clean(sheet);
    if |t.columns| > 0 {
      assert TableColumnHasData(t, 0);
    }
  }

  // ---------------------------------------------------------------------
  // Properties

  /** Some kept cell of row `i` of the table holds a value. */
  predicate TableRowHasData(t: Table, i: nat)
    requires t.Valid() && i < |t.cells|
  {
    exists j :: 0 <= j < |t.columns| && t.cells[i][j].Some?
  }

  /** Some kept row holds a value in column `j` of the table. */
  predicate TableColumnHasData(t: Table, j: nat)
    requires t.Valid() && j < |t.columns|
  {
    exists i :: 0 <= i < |t.cells| && t.cells[i][j].Some?
  }

  predicate NoNewline(s: string)
  {
    forall k :: 0 <= k < |s| ==> s[k] != '\n'
  }

  /** Cleaning keeps exactly the rows with some data, in their original order;
      every kept row and every kept column holds some data; and no cleaned
      header contains a line break. */
  lemma CleanKeepsData(sheet: Sheet)
    requires sheet.Valid()
    ensures var t := Clean(sheet);
      (forall r :: 0 <= r < |sheet.rows| ==> (r in t.labels <==> RowHasData(sheet, r)))
      && Increasing(t.labels)
      && (forall i :: 0 <= i < |t.cells| ==> TableRowHasData(t, i))
      && (forall j :: 0 <= j < |t.columns| ==> TableColumnHasData(t, j))
      && (forall j :: 0 <= j < |t.columns| ==> NoNewline(t.columns[j]))
  {
    var t := Clean(sheet);
    var rs := Positions(|sheet.rows|, (r: nat) => r < |sheet.rows| && RowHasData(sheet, r));
    var cs := Positions(|sheet.header|, (c: nat) => ColumnHasData(sheet, c));
    forall i | 0 <= i < |t.cells|
      ensures TableRowHasData(t, i)
    {
      var c :| 0 <= c < |sheet.rows[rs[i]]| && sheet.rows[rs[i]][c].Some?;
      assert ColumnHasData(sheet, c);
      var j := IndexIn(cs, c);
      assert t.cells[i][j] == sheet.rows[rs[i]][c];
    }
    forall j | 0 <= j < |t.columns|
      ensures TableColumnHasData(t, j)
    {
      assert ColumnHasData(sheet, cs[j]);
      var r :| 0 <= r < |sheet.rows| && cs[j] < |sheet.rows[r]| && sheet.rows[r][cs[j]].Some?;
      assert RowHasData(sheet, r);
      var i := IndexIn(rs, r);
      assert t.cells[i][j] == sheet.rows[r][cs[j]];
    }
    forall j | 0 <= j < |t.columns|
      ensures NoNewline(t.columns[j])
    {
      CleanHeaderNoNewline(sheet.header[cs[j]]);
    }
  }

  lemma CleanHeaderNoNewline(c: string)
    ensures NoNewline(CleanHeader(c))
  {
    var h := ReplaceChar(c, '\n', ' ');
    TrimStartShape(h);
    TrimEndShape(TrimStart(h));
  }

  function IndexIn(s: seq<nat>, x: nat): (i: nat)
    requires x in s
    ensures i < |s| && s[i] == x
  {
    if s[0] == x then 0 else 1 + IndexIn(s[1..], x)
  }

  /** The converter's file name, read back by `Path(name).stem`, is the
      workbook's stem and the sheet name (Excel forbids '/' in sheet names). */
  lemma TxtNameStem(workbook: string, sheetName: string)
    requires forall k :: 0 <= k < |sheetName| ==> sheetName[k] != '/'
    ensures Stem(TxtName(workbook, sheetName)) == Stem(workbook) + "_" + sheetName
  {
    var base := Stem(workbook) + "_" + sheetName;
    var name := TxtName(workbook, sheetName);
    assert name == (base + ".") + "txt";
    StemHasNoSlash(workbook);
    BaseNameNoSlash(name);
    LastIndexSkips(base + ".", "txt", '.');
    assert (base + ".")[|base|] == '.';
    assert name[..|base|] == base;
  }

  lemma {:induction false} LastIndexSkips(s: string, t: string, c: char)
    requires forall k :: 0 <= k < |t| ==> t[k] != c
    ensures LastIndex(s + t, c) == LastIndex(s, c)
    decreases |t|
  {
    if t != [] {
      assert (s + t)[..|s + t| - 1] == s + t[..|t| - 1];
      LastIndexSkips(s, t[..|t| - 1], c);
    } else {
      assert s + t == s;
    }
  }

  lemma StemHasNoSlash(path: string)
    ensures forall k :: 0 <= k < |Stem(path)| ==> Stem(path)[k] != '/'
  {
    BaseNameHasNoSlash(path);
  }

  lemma {:induction false} BaseNameHasNoSlash(path: string)
    ensures forall k :: 0 <= k < |BaseName(path)| ==> BaseName(path)[k] != '/'
    decreases |path|
  {
    if path != [] && path[|path| - 1] != '/' {
      BaseNameHasNoSlash(path[..|path| - 1]);
    }
  }

  lemma {:induction false} BaseNameNoSlash(path: string)
    requires forall k :: 0 <= k < |path| ==> path[k] != '/'
    ensures BaseName(path) == path
    decreases |path|
  {
    if path != [] {
      BaseNameNoSlash(path[..|path| - 1]);
    }
  }
}
