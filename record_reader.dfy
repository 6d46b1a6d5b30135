// Reading the converter's text back (MOTOR/geradorJSON.py): the file is cut
// into blocks at every record marker, each block into lines, and a field is
// looked up by the normalised name before the first ':' of a line.
module RecordReader {
  import opened Wrappers
  import opened Text
  import opened Split
  import opened Numerals
  import opened ConfigResolver
  import opened VerticalText

  /** What follows a '\r' once it is read: a '\n' right after it belongs to
      it. */
  function AfterReturn(b: string): (r: string)
    ensures |r| <= |b|
  {
    if b != [] && b[0] == '\n' then b[1..] else b
  }

  /** `open(path, 'r').read()`: a text-mode read turns every "\r\n" and every
      lone '\r' of the file into '\n' (universal newlines). */
  function ReadText(contents: string): (r: string)
    ensures NoChar(r, '\r')
    decreases |contents|
  {
    if contents == [] then []
    else if contents[0] == '\r' then "\n" + ReadText(AfterReturn(contents[1..]))
    else [contents[0]] + ReadText(contents[1..])
  }

  /** A carriage return read in text mode ends the line: what precedes it is
      kept, and it becomes a single '\n' together with a '\n' right after it. */
  lemma ReturnEndsLine(a: string, b: string)
    requires NoChar(a, '\r')
    ensures ReadText(a + "\r" + b) == a + "\n" + ReadText(AfterReturn(b))
  {
    var s := ['\r'] + b;
    ReadPrefix(a, s);
    assert s[1..] == b;
    assert ReadText(s) == "\n" + ReadText(AfterReturn(b));
    assert a + "\r" + b == a + s;
    assert a + ("\n" + ReadText(AfterReturn(b))) == a + "\n" + ReadText(AfterReturn(b));
  }

  /** Text without '\r' is read as it is, also in front of other text. */
  lemma {:induction false} ReadPrefix(a: string, s: string)
    requires NoChar(a, '\r')
    ensures ReadText(a + s) == a + ReadText(s)
    decreases |a|
  {
    if a != [] {
      var rest := a[1..] + s;
      assert a[0] != '\r';
      assert NoChar(a[1..], '\r');
      assert a + s == [a[0]] + rest;
      ReadOther(a[0], rest);
      ReadPrefix(a[1..], s);
      assert [a[0]] + (a[1..] + ReadText(s)) == a + ReadText(s);
    } else {
      assert a + s == s;
      assert a + ReadText(s) == ReadText(s);
    }
  }

  lemma ReadOther(x: char, rest: string)
    requires x != '\r'
    ensures ReadText([x] + rest) == [x] + ReadText(rest)
  {
    assert ([x] + rest)[1..] == rest;
  }

  /** `conteudo.split('========== REGISTRO ')[1:]` of the file read in text
      mode. */
  function Blocks(contents: string): seq<string>
  {
    SplitOn(ReadText(contents), MARKER)[1..]
  }

  /** `bloco.split('\n')` */
  function Lines(block: string): (r: seq<string>)
    ensures |r| >= 1
  {
    SplitOn(block, "\n")
  }

  /** `linha.split(c, 1)` when `c in linha`: the text before the first `c` and
      the text after it; `None` when the line has no `c`. */
  function SplitAtFirst(s: string, c: char): (r: Option<(string, string)>)
    ensures r.None? <==> forall k :: 0 <= k < |s| ==> s[k] != c
    ensures r.Some? ==> s == r.value.0 + [c] + r.value.1
    ensures r.Some? ==> forall k :: 0 <= k < |r.value.0| ==> r.value.0[k] != c
  {
    if s == [] then None
    else if s[0] == c then Some(([], s[1..]))
    else match SplitAtFirst(s[1..], c)
      case None => None
      case Some(parts) => Some(([s[0]] + parts.0, parts.1))
  }

  /** `comparar_nomes(coluna.strip(), alvo)` for the column part of a line. */
  predicate LineMatches(line: string, target: string)
  {
    match SplitAtFirst(line, ':')
    case None => false
    case Some(parts) => NormalizeName(Trim(parts.0)) == NormalizeName(target)
  }

  /** `encontrar_valor_registro`: the trimmed value of the first line whose
      column matches, or "" when none does. */
  function FindValue(lines: seq<string>, target: string): string
  {
    if lines == [] then ""
    else if LineMatches(lines[0], target) then Trim(SplitAtFirst(lines[0], ':').value.1)
    else FindValue(lines[1..], target)
  }

  // ---------------------------------------------------------------------
  // The lookup, characterised

  /** The first matching line decides the value. */
  lemma {:induction false} FindValueAt(lines: seq<string>, target: string, k: nat)
    requires k < |lines| && LineMatches(lines[k], target)
    requires forall m :: 0 <= m < k ==> !LineMatches(lines[m], target)
    ensures FindValue(lines, target) == Trim(SplitAtFirst(lines[k], ':').value.1)
    decreases k
  {
    if k > 0 {
      assert !LineMatches(lines[0], target);
      FindValueAt(lines[1..], target, k - 1);
    }
  }

  /** Without a matching line the value is empty. */
  lemma {:induction false} FindValueMissing(lines: seq<string>, target: string)
    requires forall m :: 0 <= m < |lines| ==> !LineMatches(lines[m], target)
    ensures FindValue(lines, target) == ""
    decreases |lines|
  {
    if lines != [] {
      assert !LineMatches(lines[0], target);
      FindValueMissing(lines[1..], target);
    }
  }

  lemma {:induction false} SplitAtFirstOf(a: string, c: char, b: string)
    requires forall k :: 0 <= k < |a| ==> a[k] != c
    ensures SplitAtFirst(a + [c] + b, c) == Some((a, b))
    decreases |a|
  {
    if a != [] {
      assert (a + [c] + b)[1..] == a[1..] + [c] + b;
      SplitAtFirstOf(a[1..], c, b);
      assert [a[0]] + a[1..] == a;
    }
  }

  // ---------------------------------------------------------------------
  // The round trip between the converter and the reader

  predicate NoChar(s: string, c: char)
  {
    forall k :: 0 <= k < |s| ==> s[k] != c
  }

  /** The marker does not occur in `s`. */
  predicate Unmarked(s: string)
  {
    !Contains(s, MARKER)
  }

  /** What the converter needs of a cleaned table for the reader to find every
      value again: column names without ':', '\n' or '\r', distinct after
      normalisation; no marker in any name or value; no '\n' or '\r' in a
      value (the text-mode read makes a '\r' a line break, see
      `ReturnEndsLine`). */
  predicate Readable(t: Table)
  {
    t.Valid()
    && (forall j :: 0 <= j < |t.columns| ==>
          NoChar(t.columns[j], '\n') && NoChar(t.columns[j], '\r') && NoChar(t.columns[j], ':') && Unmarked(t.columns[j]))
    && (forall j1, j2 :: 0 <= j1 < j2 < |t.columns| ==>
          NormalizeName(t.columns[j1]) != NormalizeName(t.columns[j2]))
    && (forall i, j :: 0 <= i < |t.cells| && 0 <= j < |t.columns| ==>
          NoChar(CellText(t.cells[i][j]), '\n') && NoChar(CellText(t.cells[i][j]), '\r') && Unmarked(CellText(t.cells[i][j])))
  }

  function Bodies(t: Table): (r: seq<string>)
    requires t.Valid()
    ensures |r| == |t.cells|
  {
    seq(|t.cells|, i requires 0 <= i < |t.cells| => BlockBody(t.labels[i], t.columns, t.cells[i]))
  }

  function Framed(bodies: seq<string>): seq<string>
  {
    seq(|bodies|, i requires 0 <= i < |bodies| => MARKER + bodies[i])
  }

  /** No column of the table has the normalised name of `target`. */
  predicate Unknown(t: Table, target: string)
  {
    forall j :: 0 <= j < |t.columns| ==> NormalizeName(target) != NormalizeName(t.columns[j])
  }

  /** Reading the converter's output gives back one block per kept row, the
      block's lines are its title and field lines, and looking up any column
      of the table in a block yields that row's value, trimmed; a name that
      matches no column yields "". */
  lemma RoundTrip(t: Table)
    requires Readable(t)
    ensures Blocks(Render(t)) == Bodies(t)
    ensures forall i :: 0 <= i < |t.cells| ==>
      Lines(Bodies(t)[i]) == BlockLines(t.labels[i], t.columns, t.cells[i])
    ensures forall i, j :: 0 <= i < |t.cells| && 0 <= j < |t.columns| ==>
      FindValue(Lines(Blocks(Render(t))[i]), t.columns[j]) == Trim(CellText(t.cells[i][j]))
    ensures forall i, target :: 0 <= i < |t.cells| && Unknown(t, target) ==>
      FindValue(Lines(Blocks(Render(t))[i]), target) == ""
  {
    var bodies := Bodies(t);
    assert TableBlocks(t) == Framed(bodies);
    forall i | 0 <= i < |bodies|
      ensures Unmarked(bodies[i]) && bodies[i] != [] && bodies[i][|bodies[i]| - 1] == '\n'
      ensures Lines(bodies[i]) == BlockLines(t.labels[i], t.columns, t.cells[i])
    {
      BodyShape(t, i);
    }
    SplitFramed(bodies);
    RenderNoReturn(t);
    assert Blocks(Render(t)) == bodies;
    forall i, j | 0 <= i < |t.cells| && 0 <= j < |t.columns|
      ensures FindValue(Lines(bodies[i]), t.columns[j]) == Trim(CellText(t.cells[i][j]))
    {
      LookupInBlock(t, i, t.columns[j]);
    }
    forall i, target | 0 <= i < |t.cells| && Unknown(t, target)
      ensures FindValue(Lines(bodies[i]), target) == ""
    {
      LookupInBlock(t, i, target);
    }
  }

  /** Lookup in the lines of one block. */
  lemma LookupInBlock(t: Table, i: nat, target: string)
    requires Readable(t) && i < |t.cells|
    ensures forall j :: 0 <= j < |t.columns| && NormalizeName(target) == NormalizeName(t.columns[j]) ==>
      FindValue(BlockLines(t.labels[i], t.columns, t.cells[i]), target) == Trim(CellText(t.cells[i][j]))
    ensures Unknown(t, target) ==>
      FindValue(BlockLines(t.labels[i], t.columns, t.cells[i]), target) == ""
  {
    ReadableBlockShaped(t, i);
    LookupInLines(BlockLines(t.labels[i], t.columns, t.cells[i]), t.columns, RowTexts(t, i), target);
  }

  /** The texts written for the cells of row `i`. */
  function RowTexts(t: Table, i: nat): (r: seq<string>)
    requires t.Valid() && i < |t.cells|
    ensures |r| == |t.columns|
    ensures forall j :: 0 <= j < |t.columns| ==> r[j] == CellText(t.cells[i][j])
  {
    seq(|t.columns|, j requires 0 <= j < |t.columns| => CellText(t.cells[i][j]))
  }

  lemma ReadableBlockShaped(t: Table, i: nat)
    requires Readable(t) && i < |t.cells|
    ensures BlockShaped(BlockLines(t.labels[i], t.columns, t.cells[i]), t.columns, RowTexts(t, i))
    ensures forall j1, j2 :: 0 <= j1 < j2 < |t.columns| ==> NormalizeName(t.columns[j1]) != NormalizeName(t.columns[j2])
  {
    var values := RowTexts(t, i);
    var lines := BlockLines(t.labels[i], t.columns, t.cells[i]);
    TitleShape(t.labels[i]);
    forall j | 0 <= j < |t.columns|
      ensures lines[j + 1] == t.columns[j] + [':'] + ([' '] + values[j])
    {
    }
    assert NoChar(lines[0], ':');
  }

  /** The lines of a block, as the reader sees them: a title without ':',
      one "column: value" line per column and two empty lines. */
  predicate BlockShaped(lines: seq<string>, columns: seq<string>, values: seq<string>)
  {
    |lines| == |columns| + 3 && |values| == |columns|
    && NoChar(lines[0], ':') && lines[|columns| + 1] == "" && lines[|columns| + 2] == ""
    && (forall j :: 0 <= j < |columns| ==> NoChar(columns[j], ':'))
    && (forall j :: 0 <= j < |columns| ==> lines[j + 1] == columns[j] + [':'] + ([' '] + values[j]))
  }

  lemma FieldLineParts(column: string, v: string, target: string)
    requires NoChar(column, ':')
    ensures var line := column + [':'] + ([' '] + v);
      (LineMatches(line, target) <==> NormalizeName(target) == NormalizeName(column))
      && SplitAtFirst(line, ':') == Some((column, [' '] + v))
      && Trim([' '] + v) == Trim(v)
  {
    SplitAtFirstOf(column, ':', [' '] + v);
    TrimIdempotent(column);
    TrimStartSpace(v);
  }

  /** Only the title and the two empty lines are not column lines, and they
      never match. */
  lemma OtherLinesNoMatch(lines: seq<string>, columns: seq<string>, values: seq<string>, target: string, m: nat)
    requires BlockShaped(lines, columns, values) && m < |lines|
    requires m == 0 || m > |columns|
    ensures !LineMatches(lines[m], target)
  {
    assert SplitAtFirst(lines[m], ':').None?;
  }

  /** Lookup in a block: the line of the first column with the target's
      normalised name decides. */
  lemma LookupInLines(lines: seq<string>, columns: seq<string>, values: seq<string>, target: string)
    requires BlockShaped(lines, columns, values)
    requires forall j1, j2 :: 0 <= j1 < j2 < |columns| ==> NormalizeName(columns[j1]) != NormalizeName(columns[j2])
    ensures forall j :: 0 <= j < |columns| && NormalizeName(target) == NormalizeName(columns[j]) ==>
      FindValue(lines, target) == Trim(values[j])
    ensures (forall j :: 0 <= j < |columns| ==> NormalizeName(target) != NormalizeName(columns[j])) ==>
      FindValue(lines, target) == ""
  {
    var n := |columns|;
    forall j | 0 <= j < n && NormalizeName(target) == NormalizeName(columns[j])
      ensures FindValue(lines, target) == Trim(values[j])
    {
      forall m | 0 <= m < j + 1
        ensures !LineMatches(lines[m], target)
      {
        if m == 0 {
          OtherLinesNoMatch(lines, columns, values, target, m);
        } else {
          FieldLineParts(columns[m - 1], values[m - 1], target);
        }
      }
      FieldLineParts(columns[j], values[j], target);
      FindValueAt(lines, target, j + 1);
    }
    if forall j :: 0 <= j < n ==> NormalizeName(target) != NormalizeName(columns[j]) {
      forall m | 0 <= m < |lines|
        ensures !LineMatches(lines[m], target)
      {
        if 1 <= m <= n {
          FieldLineParts(columns[m - 1], values[m - 1], target);
        } else {
          OtherLinesNoMatch(lines, columns, values, target, m);
        }
      }
      FindValueMissing(lines, target);
    }
  }

  /** The title line holds digits, spaces and '=' only. */
  lemma TitleShape(index: nat)
    ensures forall k :: 0 <= k < |TitleRest(index)| ==>
      IsDigit(TitleRest(index)[k]) || TitleRest(index)[k] == ' ' || TitleRest(index)[k] == '='
  {
    var d := NatToString(index + 1);
    assert TitleRest(index) == d + " ==========";
    assert AllDigits(d);
  }

  /** Each body is free of the marker, ends with a line break, and splits back
      into its lines. */
  lemma BodyShape(t: Table, i: nat)
    requires Readable(t) && i < |t.cells|
    ensures var b := Bodies(t)[i];
      Unmarked(b) && b != [] && b[|b| - 1] == '\n'
      && Lines(b) == BlockLines(t.labels[i], t.columns, t.cells[i])
  {
    var lines := BlockLines(t.labels[i], t.columns, t.cells[i]);
    var b := Bodies(t)[i];
    var n := |t.columns|;
    TitleShape(t.labels[i]);
    forall k | 0 <= k < |lines|
      ensures NoChar(lines[k], '\n') && Unmarked(lines[k])
    {
      if k == 0 {
        TitleUnmarked(lines[0]);
      } else if k <= n {
        var v := CellText(t.cells[i][k - 1]);
        assert lines[k] == t.columns[k - 1] + [':'] + ([' '] + v);
        FieldUnmarked(t.columns[k - 1], v);
      } else {
        assert lines[k] == "";
        assert !OccursAt(lines[k], MARKER, 0);
      }
    }
    SplitJoin(lines, '\n');
    JoinUnmarked(lines);
    TerminatedIsJoin(lines[..n + 1]);
    assert lines[..n + 1] + ["", ""] == lines;
    TerminatedEnds(lines[..n + 1]);
  }

  lemma TerminatedEnds(lines: seq<string>)
    ensures var s := Terminated(lines) + "\n"; s[|s| - 1] == '\n'
  {
  }

  lemma TitleUnmarked(title: string)
    requires forall k :: 0 <= k < |title| ==> IsDigit(title[k]) || title[k] == ' ' || title[k] == '='
    ensures Unmarked(title)
  {
    forall p | 0 <= p <= |title|
      ensures !OccursAt(title, MARKER, p)
    {
      if p + |MARKER| <= |title| {
        assert title[p..p + |MARKER|][11] == title[p + 11];
        assert MARKER[11] == 'R';
      }
    }
  }

  lemma FieldUnmarked(column: string, v: string)
    requires NoChar(column, ':') && Unmarked(column) && Unmarked(v)
    ensures Unmarked(column + [':'] + ([' '] + v))
  {
    var line := column + [':'] + ([' '] + v);
    forall p | 0 <= p <= |line|
      ensures !OccursAt(line, MARKER, p)
    {
      if p + |MARKER| <= |line| {
        if p + |MARKER| <= |column| {
          assert line[p..p + |MARKER|] == column[p..p + |MARKER|];
          assert !OccursAt(column, MARKER, p);
        } else if p <= |column| {
          assert line[p..p + |MARKER|][|column| - p] == line[|column|];
        } else if p == |column| + 1 {
          assert line[p..p + |MARKER|][0] == ' ';
        } else {
          assert line[p..p + |MARKER|] == v[p - |column| - 2..p - |column| - 2 + |MARKER|];
          assert !OccursAt(v, MARKER, p - |column| - 2);
        }
      }
    }
  }

  /** Lines free of the marker, joined by line breaks, stay free of it. */
  lemma {:induction false} JoinUnmarked(lines: seq<string>)
    requires forall k :: 0 <= k < |lines| ==> Unmarked(lines[k])
    ensures Unmarked(Join(lines, "\n"))
    decreases |lines|
  {
    if |lines| > 1 {
      JoinUnmarked(lines[1..]);
      var x := lines[0];
      var y := Join(lines[1..], "\n");
      assert Unmarked(x);
      forall p | 0 <= p <= |x + "\n" + y|
        ensures !OccursAt(x + "\n" + y, MARKER, p)
      {
        var s := x + "\n" + y;
        if p + |MARKER| <= |s| {
          if p + |MARKER| <= |x| {
            assert s[p..p + |MARKER|] == x[p..p + |MARKER|];
            assert !OccursAt(x, MARKER, p);
          } else if p <= |x| {
            assert s[p..p + |MARKER|][|x| - p] == s[|x|];
          } else {
            assert s[p..p + |MARKER|] == y[p - |x| - 1..p - |x| - 1 + |MARKER|];
            assert !OccursAt(y, MARKER, p - |x| - 1);
          }
        }
      }
    }
  }

  /** No occurrence of the marker starts inside a marker-free body that ends
      with a line break, whatever follows it. */
  lemma BodyFramed(b: string, rest: string)
    requires Unmarked(b) && b != [] && b[|b| - 1] == '\n'
    ensures NoMatchBefore(b + rest, MARKER, |b|)
  {
    var s := b + rest;
    forall p | 0 <= p < |b|
      ensures !OccursAt(s, MARKER, p)
    {
      if p + |MARKER| <= |b| {
        assert s[p..p + |MARKER|] == b[p..p + |MARKER|];
        assert !OccursAt(b, MARKER, p);
      } else if p + |MARKER| <= |s| {
        assert s[p..p + |MARKER|][|b| - 1 - p] == s[|b| - 1];
      }
    }
  }

  lemma {:induction false} SplitFramedTail(b: string, rest: seq<string>)
    requires Unmarked(b) && b != [] && b[|b| - 1] == '\n'
    requires forall k :: 0 <= k < |rest| ==>
      Unmarked(rest[k]) && rest[k] != [] && rest[k][|rest[k]| - 1] == '\n'
    ensures SplitOn(b + Concat(Framed(rest)), MARKER) == [b] + rest
    decreases |rest|
  {
    if rest == [] {
      BodyFramed(b, "");
      assert b + Concat(Framed(rest)) == b;
      SplitWhole(b, MARKER);
    } else {
      var tail := Concat(Framed(rest[1..]));
      assert Framed(rest)[1..] == Framed(rest[1..]);
      assert Concat(Framed(rest)) == MARKER + rest[0] + tail;
      BodyFramed(b, MARKER + (rest[0] + tail));
      assert b + Concat(Framed(rest)) == b + MARKER + (rest[0] + tail);
      assert b + (MARKER + (rest[0] + tail)) == b + MARKER + (rest[0] + tail);
      SplitPiece(b, rest[0] + tail, MARKER);
      SplitFramedTail(rest[0], rest[1..]);
      assert rest == [rest[0]] + rest[1..];
    }
  }

  /** Splitting marked bodies at the marker gives back the bodies. */
  lemma SplitFramed(bodies: seq<string>)
    requires forall k :: 0 <= k < |bodies| ==>
      Unmarked(bodies[k]) && bodies[k] != [] && bodies[k][|bodies[k]| - 1] == '\n'
    ensures SplitOn(Concat(Framed(bodies)), MARKER)[1..] == bodies
  {
    if bodies == [] {
      assert SplitOn("", MARKER) == [""];
    } else {
      var tail := Concat(Framed(bodies[1..]));
      assert Framed(bodies)[1..] == Framed(bodies[1..]);
      assert Concat(Framed(bodies)) == MARKER + (bodies[0] + tail);
      SplitAfterSeparator(MARKER, bodies[0] + tail);
      SplitFramedTail(bodies[0], bodies[1..]);
      assert bodies == [bodies[0]] + bodies[1..];
    }
  }

  // ---------------------------------------------------------------------
  // No carriage return in the converter's output

  lemma NoCharAppend(a: string, b: string, c: char)
    requires NoChar(a, c) && NoChar(b, c)
    ensures NoChar(a + b, c)
  {
    forall k | 0 <= k < |a + b|
      ensures (a + b)[k] != c
    {
      if k >= |a| {
        assert (a + b)[k] == b[k - |a|];
      }
    }
  }

  lemma {:induction false} NoCharJoin(lines: seq<string>, c: char)
    requires c != '\n'
    requires forall k :: 0 <= k < |lines| ==> NoChar(lines[k], c)
    ensures NoChar(Join(lines, "\n"), c)
    decreases |lines|
  {
    if |lines| > 1 {
      NoCharJoin(lines[1..], c);
      NoCharAppend(lines[0], "\n", c);
      NoCharAppend(lines[0] + "\n", Join(lines[1..], "\n"), c);
    }
  }

  lemma {:induction false} NoCharConcat(ss: seq<string>, c: char)
    requires forall k :: 0 <= k < |ss| ==> NoChar(ss[k], c)
    ensures NoChar(Concat(ss), c)
    decreases |ss|
  {
    if ss != [] {
      NoCharConcat(ss[1..], c);
      NoCharAppend(ss[0], Concat(ss[1..]), c);
    }
  }

  /** A block of a readable table holds no '\r'. */
  lemma BodyNoReturn(t: Table, i: nat)
    requires Readable(t) && i < |t.cells|
    ensures NoChar(Bodies(t)[i], '\r')
  {
    var lines := BlockLines(t.labels[i], t.columns, t.cells[i]);
    var n := |t.columns|;
    TitleShape(t.labels[i]);
    forall k | 0 <= k < |lines|
      ensures NoChar(lines[k], '\r')
    {
      if k == 0 {
        assert lines[0] == TitleRest(t.labels[i]);
      } else if k <= n {
        var v := CellText(t.cells[i][k - 1]);
        assert lines[k] == t.columns[k - 1] + [':'] + ([' '] + v);
        NoCharAppend([':'], [' '] + v, '\r');
        NoCharAppend(t.columns[k - 1], [':'] + ([' '] + v), '\r');
        assert t.columns[k - 1] + [':'] + ([' '] + v) == t.columns[k - 1] + ([':'] + ([' '] + v));
      } else {
        assert lines[k] == "";
      }
    }
    NoCharJoin(lines, '\r');
  }

  /** The converter's whole output for a readable table holds no '\r', so the
      text-mode read gives it back unchanged. */
  lemma RenderNoReturn(t: Table)
    requires Readable(t)
    ensures ReadText(Render(t)) == Render(t)
  {
    var blocks := TableBlocks(t);
    forall i | 0 <= i < |blocks|
      ensures NoChar(blocks[i], '\r')
    {
      BodyNoReturn(t, i);
      assert blocks[i] == MARKER + Bodies(t)[i];
      NoCharAppend(MARKER, Bodies(t)[i], '\r');
    }
    NoCharConcat(blocks, '\r');
    ReadPrefix(Render(t), []);
    assert Render(t) + [] == Render(t);
  }
}
