// The spreadsheet upload of the configuration editor
// (JSON/src/components/FileUpload.tsx): which file names are accepted, and
// the tokenizer that turns the text of a CSV file into rows of cells.
module CsvUpload {
  import opened Wrappers
  import opened Text
  import opened Split
  import opened Order

  // ---------------------------------------------------------------------
  // File extensions

  const SUPPORTED_FORMATS: set<string> := {"xlsx", "xls", "xlsm", "csv"}

  /** `name.toLowerCase().split('.').pop()`: the lower-cased text after the
      last '.', or the whole lower-cased name when it has no '.'. */
  function Extension(name: string): string
  {
    var parts := SplitOn(Lower(name), ".");
    parts[|parts| - 1]
  }

  /** The extension check of `handleFileChange`. */
  predicate Accepted(name: string)
  {
    Extension(name) != "" && Extension(name) in SUPPORTED_FORMATS
  }

  lemma LowerAppend(a: string, b: string)
    ensures Lower(a + b) == Lower(a) + Lower(b)
  {
  }

  /** The last piece of a split is what follows the last separator. */
  lemma {:induction false} SplitLast(s: string, c: char, b: string)
    requires c !in b
    ensures |SplitOn(s + [c] + b, [c])| >= 2
    ensures SplitOn(s + [c] + b, [c])[|SplitOn(s + [c] + b, [c])| - 1] == b
    decreases |s|
  {
    var t := s + [c] + b;
    NoMatchOfAbsentChar(b, "", c, |b|);
    assert b + "" == b;
    SplitWhole(b, [c]);
    if s == [] {
      assert t == [c] + b;
      SplitAfterSeparator([c], b);
    } else {
      assert t[..1] == [s[0]];
      assert t[1..] == s[1..] + [c] + b;
      SplitLast(s[1..], c, b);
    }
  }

  /** A name with a dot is judged by what follows its last dot, in any
      case. */
  lemma ExtensionAfterLastDot(stem: string, ext: string)
    requires '.' !in ext
    ensures Extension(stem + "." + ext) == Lower(ext)
    ensures Accepted(stem + "." + ext) <==> Lower(ext) in SUPPORTED_FORMATS
  {
    LowerAppend(stem + ".", ext);
    LowerAppend(stem, ".");
    assert Lower(".") == ".";
    forall i | 0 <= i < |Lower(ext)|
      ensures Lower(ext)[i] != '.'
    {
      assert ext[i] != '.';
    }
    assert '.' !in Lower(ext);
    SplitLast(Lower(stem), '.', Lower(ext));
    assert Lower(stem + "." + ext) == Lower(stem) + ['.'] + Lower(ext);
  }

  /** A name without a dot is its own extension: "csv" is accepted and so is
      "CSV". */
  lemma ExtensionWithoutDot(name: string)
    requires '.' !in name
    ensures Extension(name) == Lower(name)
  {
    forall i | 0 <= i < |Lower(name)|
      ensures Lower(name)[i] != '.'
    {
      assert name[i] != '.';
    }
    NoMatchOfAbsentChar(Lower(name), "", '.', |Lower(name)|);
    assert Lower(name) + "" == Lower(name);
    SplitWhole(Lower(name), ".");
  }

  // ---------------------------------------------------------------------
  // Lines

  /** One piece of `text.split(/\r?\n/)` before a line break: a '\r' just
      before the '\n' belongs to the break. */
  function DropCarriageReturn(s: string): string
  {
    if |s| > 0 && s[|s| - 1] == '\r' then s[..|s| - 1] else s
  }

  /** The pieces of `text.split(/\r?\n/)`. */
  function Pieces(text: string): (r: seq<string>)
    ensures |r| == |SplitOn(text, "\n")|
  {
    var ps := SplitOn(text, "\n");
    seq(|ps|, i requires 0 <= i < |ps| => if i < |ps| - 1 then DropCarriageReturn(ps[i]) else ps[i])
  }

  predicate NotBlank(line: string) { !IsBlank(line) }

  /** `csvText.split(/\r?\n/).filter(line => line.trim() !== '')` */
  function Lines(text: string): seq<string>
  {
    Keep(Pieces(text), NotBlank)
  }

  /** Pieces without a line break or a '\r', joined by '\n', are split back
      into the same pieces. */
  lemma PiecesOfJoinedText(ls: seq<string>)
    requires |ls| >= 1
    requires forall k :: 0 <= k < |ls| ==> '\n' !in ls[k] && '\r' !in ls[k]
    ensures Pieces(Join(ls, "\n")) == ls
  {
    forall k, i | 0 <= k < |ls| && 0 <= i < |ls[k]|
      ensures ls[k][i] != '\n'
    {
      assert ls[k][i] in ls[k];
    }
    SplitJoin(ls, '\n');
    var ps := Pieces(Join(ls, "\n"));
    forall k | 0 <= k < |ls|
      ensures ps[k] == ls[k]
    {
      if |ls[k]| > 0 {
        assert ls[k][|ls[k]| - 1] in ls[k];
      }
    }
  }

  /** Lines without a '\r' that are not blank and hold no line break come
      back from their text joined by '\n'. */
  lemma LinesOfJoinedText(ls: seq<string>)
    requires |ls| >= 1
    requires forall k :: 0 <= k < |ls| ==> NotBlank(ls[k]) && '\n' !in ls[k] && '\r' !in ls[k]
    ensures Lines(Join(ls, "\n")) == ls
  {
    PiecesOfJoinedText(ls);
    KeepAll(ls, NotBlank);
  }

  // ---------------------------------------------------------------------
  // The delimiter

  function Count(s: string, c: char): nat
  {
    if s == [] then 0 else (if s[0] == c then 1 else 0) + Count(s[1..], c)
  }

  /** Tab when tabs outnumber both commas and semicolons on the first line,
      else ';' when semicolons outnumber commas, else ','. */
  function Delimiter(firstLine: string): (d: char)
    ensures d == '\t' <==> Count(firstLine, '\t') > Count(firstLine, ',') && Count(firstLine, '\t') > Count(firstLine, ';')
    ensures d == ';' <==> (!(Count(firstLine, '\t') > Count(firstLine, ',') && Count(firstLine, '\t') > Count(firstLine, ';'))
                           && Count(firstLine, ';') > Count(firstLine, ','))
    ensures d in {',', ';', '\t'}
  {
    var commas := Count(firstLine, ',');
    var semicolons := Count(firstLine, ';');
    var tabs := Count(firstLine, '\t');
    if tabs > (if commas > semicolons then commas else semicolons) then '\t'
    else if semicolons > commas then ';'
    else ','
  }

  // ---------------------------------------------------------------------
  // Cells of one line

  /** The delimiters `parseCSV` can choose; a quote is never one of them. */
  predicate IsDelimiter(d: char) { d == ',' || d == ';' || d == '\t' }

  /** What the character loop does with the rest `s` of a line, given the
      quoting state, the cell being read and the cells already finished:
      `""` inside quotes is one quote, any other quote toggles the quoting,
      an unquoted delimiter ends a cell, and the end of the line ends the
      last one. */
  function Scan(s: string, d: char, inQuotes: bool, cell: string, row: seq<string>): (r: seq<string>)
    ensures |r| > |row|
    decreases |s|
  {
    if s == [] then row + [cell]
    else if s[0] == '"' then
      if inQuotes && |s| > 1 && s[1] == '"' then Scan(s[2..], d, inQuotes, cell + ['"'], row)
      else Scan(s[1..], d, !inQuotes, cell, row)
    else if s[0] == d && !inQuotes then Scan(s[1..], d, inQuotes, "", row + [cell])
    else Scan(s[1..], d, inQuotes, cell + [s[0]], row)
  }

  /** The cells of a line. */
  function Cells(line: string, d: char): seq<string>
  {
    Scan(line, d, false, "", [])
  }

  /** The per-line loop of `parseCSV`. */
  method ParseLine(line: string, d: char) returns (row: seq<string>)
    ensures row == Cells(line, d)
  {
    row := [];
    var cell := "";
    var inQuotes := false;
    var i := 0;
    while i < |line|
      invariant 0 <= i <= |line|
      invariant Scan(line[i..], d, inQuotes, cell, row) == Cells(line, d)
    {
      var c := line[i];
      if c == '"' {
        if inQuotes && i + 1 < |line| && line[i + 1] == '"' {
          assert line[i..][2..] == line[i + 2..];
          cell := cell + ['"'];
          i := i + 1;
        } else {
          assert line[i..][1..] == line[i + 1..];
          inQuotes := !inQuotes;
        }
      } else if c == d && !inQuotes {
        assert line[i..][1..] == line[i + 1..];
        row := row + [cell];
        cell := "";
      } else {
        assert line[i..][1..] == line[i + 1..];
        cell := cell + [c];
      }
      i := i + 1;
    }
    row := row + [cell];
  }

  /** Without quotes the loop splits at every delimiter. */
  lemma {:induction false} ScanUnquoted(s: string, d: char, cell: string, row: seq<string>)
    requires '"' !in s
    ensures var parts := SplitOn(s, [d]);
            Scan(s, d, false, cell, row) == row + [cell + parts[0]] + parts[1..]
    decreases |s|
  {
    if s == [] {
      assert cell + "" == cell;
    } else if s[0] == d {
      assert s[..1] == [d];
      ScanUnquoted(s[1..], d, "", row + [cell]);
      var rest := SplitOn(s[1..], [d]);
      assert SplitOn(s, [d]) == [""] + rest;
      assert "" + rest[0] == rest[0];
      assert cell + "" == cell;
      assert ([""] + rest)[1..] == rest;
    } else {
      assert s[..1] == [s[0]];
      assert '"' !in s[1..];
      ScanUnquoted(s[1..], d, cell + [s[0]], row);
      var rest := SplitOn(s[1..], [d]);
      assert cell + [s[0]] + rest[0] == cell + ([s[0]] + rest[0]);
    }
  }

  /** A line without quotes is cut at every delimiter, and joining its cells
      with the delimiter gives the line back. */
  lemma UnquotedLine(line: string, d: char)
    requires '"' !in line
    ensures Cells(line, d) == SplitOn(line, [d])
    ensures Join(Cells(line, d), [d]) == line
  {
    CellsUnquoted(line, d);
    JoinSplit(line, [d]);
  }

  lemma CellsUnquoted(line: string, d: char)
    requires '"' !in line
    ensures Cells(line, d) == SplitOn(line, [d])
  {
    var parts := SplitOn(line, [d]);
    ScanUnquoted(line, d, "", []);
    assert Cells(line, d) == [] + ["" + parts[0]] + parts[1..];
    assert "" + parts[0] == parts[0];
    assert [parts[0]] + parts[1..] == parts;
  }

  /** Cells without quotes or the delimiter, joined by the delimiter, read
      back as the same cells. */
  lemma UnquotedCellsRoundTrip(cells: seq<string>, d: char)
    requires |cells| >= 1 && IsDelimiter(d)
    requires forall k :: 0 <= k < |cells| ==> '"' !in cells[k] && d !in cells[k]
    ensures Cells(Join(cells, [d]), d) == cells
  {
    forall k, i | 0 <= k < |cells| && 0 <= i < |cells[k]|
      ensures cells[k][i] != d
    {
      assert cells[k][i] in cells[k];
    }
    SplitJoin(cells, d);
    JoinNoQuote(cells, d);
    UnquotedLine(Join(cells, [d]), d);
  }

  lemma {:induction false} JoinNoQuote(cells: seq<string>, d: char)
    requires IsDelimiter(d)
    requires forall k :: 0 <= k < |cells| ==> '"' !in cells[k]
    ensures '"' !in Join(cells, [d])
    decreases |cells|
  {
    if |cells| > 1 {
      JoinNoQuote(cells[1..], d);
    }
  }

  // ---------------------------------------------------------------------
  // Quoted cells (the convention of section 2 of RFC 4180)

  /** Every quote doubled. */
  function Escape(x: string): string
  {
    if x == [] then [] else (if x[0] == '"' then "\"\"" else [x[0]]) + Escape(x[1..])
  }

  /** A cell written between quotes. */
  function Quote(x: string): string
  {
    "\"" + Escape(x) + "\""
  }

  /** All cells quoted and joined by the delimiter. */
  function Encode(cells: seq<string>, d: char): string
    decreases |cells|
  {
    if |cells| <= 1 then (if cells == [] then "" else Quote(cells[0]))
    else Quote(cells[0]) + [d] + Encode(cells[1..], d)
  }

  /** One step of the scan: an unquoted delimiter ends the cell. */
  lemma ScanDelimiter(t: string, d: char, cell: string, row: seq<string>)
    requires IsDelimiter(d)
    ensures Scan([d] + t, d, false, cell, row) == Scan(t, d, false, "", row + [cell])
  {
    assert ([d] + t)[1..] == t;
  }

  /** One step of the scan: a character other than a quote or an unquoted
      delimiter goes into the cell. */
  lemma ScanPlain(c: char, t: string, d: char, inQuotes: bool, cell: string, row: seq<string>)
    requires c != '"' && (c != d || inQuotes)
    ensures Scan([c] + t, d, inQuotes, cell, row) == Scan(t, d, inQuotes, cell + [c], row)
  {
    assert ([c] + t)[1..] == t;
  }

  /** One step of the scan: a doubled quote inside quotes is one quote. */
  lemma ScanQuotePair(t: string, d: char, cell: string, row: seq<string>)
    ensures Scan("\"\"" + t, d, true, cell, row) == Scan(t, d, true, cell + ['"'], row)
  {
    assert ("\"\"" + t)[2..] == t;
  }

  /** One step of the scan: a quote not followed by a quote toggles the
      quoting. */
  lemma ScanToggle(t: string, d: char, inQuotes: bool, cell: string, row: seq<string>)
    requires t == [] || t[0] != '"'
    ensures Scan("\"" + t, d, inQuotes, cell, row) == Scan(t, d, !inQuotes, cell, row)
  {
    assert ("\"" + t)[1..] == t;
  }

  /** One step of the scan: outside quotes a quote opens the quoting. */
  lemma ScanOpen(t: string, d: char, cell: string, row: seq<string>)
    ensures Scan("\"" + t, d, false, cell, row) == Scan(t, d, true, cell, row)
  {
    assert ("\"" + t)[1..] == t;
  }

  /** Inside quotes the escaped text is read back, delimiters included, and
      the closing quote ends the quoting without being written. */
  lemma {:induction false} ScanEscaped(x: string, rest: string, d: char, cell: string, row: seq<string>)
    requires IsDelimiter(d)
    requires rest == [] || rest[0] != '"'
    ensures Scan(Escape(x) + "\"" + rest, d, true, cell, row) == Scan(rest, d, false, cell + x, row)
    decreases |x|
  {
    if x == [] {
      assert Escape(x) + "\"" + rest == "\"" + rest;
      ScanToggle(rest, d, true, cell, row);
      assert cell + x == cell;
    } else {
      EscapedHead(x, rest, d, cell, row);
      ScanEscaped(x[1..], rest, d, cell + [x[0]], row);
      assert cell + [x[0]] + x[1..] == cell + x;
    }
  }

  /** Inside quotes the first escaped character goes into the cell. */
  lemma EscapedHead(x: string, rest: string, d: char, cell: string, row: seq<string>)
    requires IsDelimiter(d) && x != []
    ensures Scan(Escape(x) + "\"" + rest, d, true, cell, row)
            == Scan(Escape(x[1..]) + "\"" + rest, d, true, cell + [x[0]], row)
  {
    var tail := Escape(x[1..]) + "\"" + rest;
    if x[0] == '"' {
      assert Escape(x) + "\"" + rest == "\"\"" + tail;
      ScanQuotePair(tail, d, cell, row);
    } else {
      assert Escape(x) + "\"" + rest == [x[0]] + tail;
      ScanPlain(x[0], tail, d, true, cell, row);
    }
  }

  /** A quoted cell followed by the rest of the line. */
  lemma QuotedCell(x: string, rest: string, d: char, row: seq<string>)
    requires IsDelimiter(d)
    requires rest == [] || rest[0] != '"'
    ensures Scan(Quote(x) + rest, d, false, "", row) == Scan(rest, d, false, x, row)
  {
    var inner := Escape(x) + "\"" + rest;
    assert Quote(x) + rest == "\"" + inner;
    ScanOpen(inner, d, "", row);
    ScanEscaped(x, rest, d, "", row);
    assert "" + x == x;
  }

  /** The last quoted cell ends the row. */
  lemma EncodeLast(x: string, d: char, row: seq<string>)
    requires IsDelimiter(d)
    ensures Scan(Quote(x), d, false, "", row) == row + [x]
  {
    QuotedCell(x, "", d, row);
    assert Quote(x) + "" == Quote(x);
  }

  /** A quoted cell and a delimiter add the cell to the row. */
  lemma QuotedThenDelimiter(x: string, tail: string, d: char, row: seq<string>)
    requires IsDelimiter(d)
    ensures Scan(Quote(x) + ([d] + tail), d, false, "", row) == Scan(tail, d, false, "", row + [x])
  {
    QuotedCell(x, [d] + tail, d, row);
    ScanDelimiter(tail, d, x, row);
  }

  lemma {:induction false} EncodeRoundTrip(cells: seq<string>, d: char, row: seq<string>)
    requires IsDelimiter(d) && |cells| >= 1
    ensures Scan(Encode(cells, d), d, false, "", row) == row + cells
    decreases |cells|
  {
    if |cells| == 1 {
      assert Encode(cells, d) == Quote(cells[0]);
      EncodeLast(cells[0], d, row);
      assert [cells[0]] == cells;
    } else {
      var tail := Encode(cells[1..], d);
      assert Encode(cells, d) == Quote(cells[0]) + ([d] + tail);
      QuotedThenDelimiter(cells[0], tail, d, row);
      EncodeRoundTrip(cells[1..], d, row + [cells[0]]);
      assert row + [cells[0]] + cells[1..] == row + cells;
    }
  }

  /** Any cells, quoted with their quotes doubled and joined by the
      delimiter, read back exactly: delimiters and quotes inside a quoted
      cell are literal. */
  lemma QuotedCellsRoundTrip(cells: seq<string>, d: char)
    requires IsDelimiter(d) && |cells| >= 1
    ensures Cells(Encode(cells, d), d) == cells
  {
    EncodeRoundTrip(cells, d, []);
    assert [] + cells == cells;
  }

  // ---------------------------------------------------------------------
  // The whole file

  /** `parseCSV`: the delimiter comes from the first line and every line is
      split with it. */
  function ParseCsv(text: string): (rows: seq<seq<string>>)
    ensures |rows| == |Lines(text)|
    ensures forall k :: 0 <= k < |rows| ==> |rows[k]| >= 1
  {
    var lines := Lines(text);
    if lines == [] then []
    else
      var d := Delimiter(lines[0]);
      seq(|lines|, k requires 0 <= k < |lines| => Cells(lines[k], d))
  }

  /** The CSV branch of the upload: blank text is refused, anything else is
      parsed. */
  function ReadCsv(text: string): (r: Option<seq<seq<string>>>)
    ensures r.None? <==> IsBlank(text)
  {
    if IsBlank(text) then None else Some(ParseCsv(text))
  }

  /** A line of the file without quotes has one cell more than it has
      delimiters, and its cells joined give the line back. */
  lemma CsvRowOfUnquotedLine(text: string, k: nat)
    requires k < |Lines(text)| && '"' !in Lines(text)[k]
    ensures var d := Delimiter(Lines(text)[0]);
            ParseCsv(text)[k] == SplitOn(Lines(text)[k], [d])
            && Join(ParseCsv(text)[k], [d]) == Lines(text)[k]
  {
    var d := Delimiter(Lines(text)[0]);
    UnquotedLine(Lines(text)[k], d);
  }
}
