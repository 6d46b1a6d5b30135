// The older record extractor (geradorJSON.py): a fixed list of colour
// columns, every mapping of the configuration applied to every block, no
// header detection and no description numbering; empty records are dropped.
module LegacyExtractor {
  import opened Wrappers
  import opened Order
  import opened Catalog
  import opened RecordReader
  import opened Extractor

  /** The colour columns the older extractor always reads, in this order. */
  const FIXED_COLORS: seq<string> := [
    "Indoor IV", "Indoor I", "Outdoor V Sunbrella",
    "Outdoor IV Docril/Boucle", "Outdoor II Olefin/Courvin",
    "Outdoor I Acquablock", "Sem Almofada/ Kit"]

  /** A value the older extractor takes from a list mapping: "MERGE" passes. */
  predicate LegacyListValue(v: string) { v != "" && v != "0" }

  /** What one mapping writes into a record in the older extractor. */
  function LegacyContribution(m: ColumnMapping, lines: seq<string>, variations: seq<Variation>): (r: Option<Value>)
    ensures r.Some? ==> r.value.Str? || (r.value.Colors? && m.gabaritoColumn == COR && r.value.variations != [])
    ensures r.Some? && m.IsEmptySource() ==> r.value.Str? && r.value.s != "VAZIO" && r.value.s != "MERGE"
    ensures r.Some? && !m.IsEmptySource() && r.value.Str? ==> r.value.s != ""
  {
    if m.IsEmptySource() then
      match m.name
      case None => None
      case Some(n) => if n == "VAZIO" || n == "MERGE" then None else Some(Str(n))
    else
      match m.sourceColumn
      case Columns(names) =>
        if m.gabaritoColumn == COR then
          (if variations != [] then Some(Colors(variations)) else None)
        else
          (match FirstWhere(names, (c: string) => LegacyListValue(FindValue(lines, c)))
           case Some(k) => Some(Str(FindValue(lines, names[k])))
           case None => None)
      case Column(c) =>
        var v := FindValue(lines, c);
        if v != "" && v != "MERGE" then Some(Str(v)) else None
  }

  /** The older extractor writes whenever the newer one does: it only accepts
      more list values. */
  lemma LegacyAcceptsMore(m: ColumnMapping, lines: seq<string>, variations: seq<Variation>)
    ensures Contribution(m, lines, variations).Some? ==> LegacyContribution(m, lines, variations).Some?
  {
    if !m.IsEmptySource() && m.sourceColumn.Columns? && m.gabaritoColumn != COR {
      var names := m.sourceColumn.names;
      var f := FirstWhere(names, (c: string) => ListValue(FindValue(lines, c)));
      if f.Some? {
        assert LegacyListValue(FindValue(lines, names[f.value]));
      }
    }
  }

  function LegacyWrites(ms: seq<ColumnMapping>, lines: seq<string>, variations: seq<Variation>): (r: seq<(string, Option<Value>)>)
    ensures |r| == |ms|
  {
    seq(|ms|, i requires 0 <= i < |ms| => (ms[i].gabaritoColumn, LegacyContribution(ms[i], lines, variations)))
  }

  /** The record of one block: every mapping applied in order. */
  function LegacyRecord(ms: seq<ColumnMapping>, lines: seq<string>): Product
  {
    Updates(LegacyWrites(ms, lines, ExtractVariations(lines, FIXED_COLORS)))
  }

  /** The records of a file: one per block whose record is not empty. */
  function LegacyRecords(blocks: seq<string>, ms: seq<ColumnMapping>): seq<Product>
  {
    if blocks == [] then []
    else
      var r := LegacyRecord(ms, Lines(blocks[|blocks| - 1]));
      LegacyRecords(blocks[..|blocks| - 1], ms) + (if r != map[] then [r] else [])
  }

  /** No emitted record is empty, and at most one is emitted per block. */
  lemma {:induction false} LegacyRecordsShape(blocks: seq<string>, ms: seq<ColumnMapping>)
    ensures |LegacyRecords(blocks, ms)| <= |blocks|
    ensures forall p :: 0 <= p < |LegacyRecords(blocks, ms)| ==> LegacyRecords(blocks, ms)[p] != map[]
    decreases |blocks|
  {
    if blocks != [] {
      LegacyRecordsShape(blocks[..|blocks| - 1], ms);
    }
  }

  /** A column of a block's record holds the value of the last mapping for it
      that writes one. */
  lemma LegacyLastWins(ms: seq<ColumnMapping>, lines: seq<string>, key: string)
    ensures var vs := ExtractVariations(lines, FIXED_COLORS);
      (key in LegacyRecord(ms, lines) <==>
        exists i :: 0 <= i < |ms| && ms[i].gabaritoColumn == key && LegacyContribution(ms[i], lines, vs).Some?)
      && forall i :: LastWrite(LegacyWrites(ms, lines, vs), key, i) ==>
        LegacyRecord(ms, lines)[key] == LegacyContribution(ms[i], lines, vs).value
  {
    var vs := ExtractVariations(lines, FIXED_COLORS);
    var ws := LegacyWrites(ms, lines, vs);
    UpdatesLastWins(ws, key);
    assert forall i :: 0 <= i < |ms| ==> ws[i] == (ms[i].gabaritoColumn, LegacyContribution(ms[i], lines, vs));
    if key in LegacyRecord(ms, lines) {
      var i :| 0 <= i < |ws| && ws[i].0 == key && ws[i].1.Some?;
      assert ms[i].gabaritoColumn == key;
    }
  }

  /** The body of the older mapping loop: one mapping. */
  method LegacyApply(record: Product, m: ColumnMapping, lines: seq<string>, variations: seq<Variation>)
    returns (updated: Product)
    ensures updated == match LegacyContribution(m, lines, variations)
                       case None => record
                       case Some(v) => record[m.gabaritoColumn := v]
  {
    updated := record;
    if m.sourceColumn == Column(EMPTY_SOURCE) {
      if m.name.Some? && m.name.value != "VAZIO" && m.name.value != "MERGE" {
        updated := record[m.gabaritoColumn := Str(m.name.value)];
      }
    } else if m.sourceColumn.Columns? {
      if m.gabaritoColumn == COR {
        if variations != [] {
          updated := record[m.gabaritoColumn := Colors(variations)];
        }
      } else {
        var names := m.sourceColumn.names;
        var k := LegacyFirstListed(names, lines);
        if k < |names| {
          updated := record[m.gabaritoColumn := Str(FindValue(lines, names[k]))];
        }
        ghost var f := FirstWhere(names, (c: string) => LegacyListValue(FindValue(lines, c)));
        assert k < |names| ==> f == Some(k);
        assert k == |names| ==> f.None?;
      }
    } else {
      var value := FindValue(lines, m.sourceColumn.name);
      if value != "" && value != "MERGE" {
        updated := record[m.gabaritoColumn := Str(value)];
      }
    }
  }

  /** The loop over a list mapping's columns: the position of the first
      column whose value passes, or the number of columns when none does. */
  method LegacyFirstListed(names: seq<string>, lines: seq<string>) returns (k: nat)
    ensures k <= |names|
    ensures forall j :: 0 <= j < k ==> !LegacyListValue(FindValue(lines, names[j]))
    ensures k < |names| ==> LegacyListValue(FindValue(lines, names[k]))
  {
    k := 0;
    while k < |names| && !LegacyListValue(FindValue(lines, names[k]))
      invariant k <= |names|
      invariant forall j :: 0 <= j < k ==> !LegacyListValue(FindValue(lines, names[j]))
    {
      k := k + 1;
    }
  }

  /** The mapping loop of the older extractor for one block. */
  method LegacyBlockRecord(ms: seq<ColumnMapping>, lines: seq<string>) returns (record: Product)
    ensures record == LegacyRecord(ms, lines)
  {
    var variations := ExtractVariations(lines, FIXED_COLORS);
    ghost var ws := LegacyWrites(ms, lines, variations);
    record := map[];
    var i := 0;
    while i < |ms|
      invariant 0 <= i <= |ms|
      invariant record == Updates(ws[..i])
    {
      assert ws[..i + 1][..i] == ws[..i];
      record := LegacyApply(record, ms[i], lines, variations);
      i := i + 1;
    }
    assert ws[..i] == ws;
  }

  lemma LegacyRecordsStep(blocks: seq<string>, b: nat, ms: seq<ColumnMapping>)
    requires b < |blocks|
    ensures var r := LegacyRecord(ms, Lines(blocks[b]));
      LegacyRecords(blocks[..b + 1], ms) == LegacyRecords(blocks[..b], ms) + (if r != map[] then [r] else [])
  {
    assert blocks[..b + 1][..b] == blocks[..b];
  }

  /** `processar_arquivo_txt` of the older extractor. */
  method LegacyProcessFile(text: string, config: Config) returns (records: seq<Product>)
    ensures records == LegacyRecords(Blocks(text), config.columnMapping)
  {
    var blocks := Blocks(text);
    var ms := config.columnMapping;
    records := [];
    var b := 0;
    while b < |blocks|
      invariant 0 <= b <= |blocks|
      invariant records == LegacyRecords(blocks[..b], ms)
    {
      LegacyRecordsStep(blocks, b, ms);
      var record := LegacyBlockRecord(ms, Lines(blocks[b]));
      if record != map[] {
        records := records + [record];
      }
      b := b + 1;
    }
    assert blocks[..b] == blocks;
  }
}
