// The mapping steps of the configuration editor's main page
// (JSON/src/pages/Index.tsx): default mappings for the template columns that
// must always be present, the new colour variations typed by the user (a
// comma-separated list stored on the variation column's mappings), and the
// condition for generating the configuration.  The template's column lists
// are parameters: `immutable` for IMMUTABLE_OPTIONAL_COLUMNS and `required`
// for REQUIRED_COLUMNS.
module MappingEditor {
  import opened Wrappers
  import opened Text
  import opened Split
  import opened Order
  import opened Catalog
  import opened ColumnMapper

  /** The template column of every mapping, in order. */
  function MappedColumns(ms: seq<ColumnMapping>): (r: seq<string>)
    ensures |r| == |ms| && forall k :: 0 <= k < |ms| ==> r[k] == ms[k].gabaritoColumn
  {
    seq(|ms|, k requires 0 <= k < |ms| => ms[k].gabaritoColumn)
  }

  // ---------------------------------------------------------------------
  // addImmutableOptionalDefaults

  /** The placeholder mapping of a column that must always be present. */
  function Placeholder(col: string, file: Role): ColumnMapping
  {
    ColumnMapping(col, Column(EMPTY_SOURCE), Some(file), Some("VAZIO"), None)
  }

  /** One placeholder for each column not yet mapped, in list order. */
  function Placeholders(immutable: seq<string>, mapped: seq<string>, file: Role): (r: seq<ColumnMapping>)
    ensures |r| <= |immutable|
  {
    if immutable == [] then []
    else (if immutable[0] in mapped then [] else [Placeholder(immutable[0], file)])
         + Placeholders(immutable[1..], mapped, file)
  }

  /** `addImmutableOptionalDefaults` */
  function AddImmutableDefaults(ms: seq<ColumnMapping>, hasCusto: bool, hasVenda: bool, immutable: seq<string>): (r: seq<ColumnMapping>)
    ensures ms <= r
  {
    if !hasCusto && !hasVenda then ms
    else ms + Placeholders(immutable, MappedColumns(ms), if hasCusto then Custo else Venda)
  }

  lemma {:induction false} PlaceholdersAre(immutable: seq<string>, mapped: seq<string>, file: Role)
    ensures var p := Placeholders(immutable, mapped, file);
            (forall k :: 0 <= k < |p| ==> p[k] == Placeholder(p[k].gabaritoColumn, file)
                                          && p[k].gabaritoColumn in immutable && p[k].gabaritoColumn !in mapped)
            && (forall c :: c in immutable && c !in mapped ==> Placeholder(c, file) in p)
  {
    if immutable != [] {
      PlaceholdersAre(immutable[1..], mapped, file);
      var rest := Placeholders(immutable[1..], mapped, file);
      var head := if immutable[0] in mapped then [] else [Placeholder(immutable[0], file)];
      assert Placeholders(immutable, mapped, file) == head + rest;
      assert forall c :: c in immutable ==> c == immutable[0] || c in immutable[1..];
    }
  }

  /** With a spreadsheet loaded, the list is kept as a prefix, every column
      that must be present is mapped afterwards, and what is appended is one
      "VAZIO" placeholder per such column that had no mapping, filed under
      the cost spreadsheet when it is loaded.  Without any spreadsheet the
      list is unchanged. */
  lemma ImmutableDefaultsFill(ms: seq<ColumnMapping>, hasCusto: bool, hasVenda: bool, immutable: seq<string>)
    ensures !hasCusto && !hasVenda ==> AddImmutableDefaults(ms, hasCusto, hasVenda, immutable) == ms
    ensures hasCusto || hasVenda ==>
              var r := AddImmutableDefaults(ms, hasCusto, hasVenda, immutable);
              var file := if hasCusto then Custo else Venda;
              (forall c :: c in immutable ==> c in MappedColumns(r))
              && (forall k :: |ms| <= k < |r| ==>
                    r[k] == Placeholder(r[k].gabaritoColumn, file)
                    && r[k].gabaritoColumn in immutable && r[k].gabaritoColumn !in MappedColumns(ms))
  {
    if hasCusto || hasVenda {
      var file := if hasCusto then Custo else Venda;
      var mapped := MappedColumns(ms);
      var p := Placeholders(immutable, mapped, file);
      var r := ms + p;
      PlaceholdersAre(immutable, mapped, file);
      forall c | c in immutable
        ensures c in MappedColumns(r)
      {
        if c in mapped {
          var k :| 0 <= k < |ms| && mapped[k] == c;
          assert MappedColumns(r)[k] == c;
        } else {
          var k :| 0 <= k < |p| && p[k] == Placeholder(c, file);
          assert MappedColumns(r)[|ms| + k] == c;
        }
      }
      forall k | |ms| <= k < |r|
        ensures r[k] == Placeholder(r[k].gabaritoColumn, file)
                && r[k].gabaritoColumn in immutable && r[k].gabaritoColumn !in mapped
      {
        assert r[k] == p[k - |ms|];
      }
    }
  }

  // ---------------------------------------------------------------------
  // The list of new variations

  /** Pieces trimmed and upper-cased, blank ones dropped. */
  function NormalizedPieces(pieces: seq<string>): seq<string>
  {
    if pieces == [] then []
    else
      var v := Upper(Trim(pieces[0]));
      (if |v| > 0 then [v] else []) + NormalizedPieces(pieces[1..])
  }

  /** `text.split(",").map((v) => v.trim().toUpperCase()).filter((v) => v.length > 0)` */
  function ParseVariations(text: string): seq<string>
  {
    NormalizedPieces(SplitOn(text, ","))
  }

  /** An entry as the parser leaves it: not blank, without a comma, trimmed
      and upper-case. */
  predicate Normal(v: string)
  {
    v != "" && ',' !in v && Upper(Trim(v)) == v
  }

  predicate AllNormal(vs: seq<string>)
  {
    forall k :: 0 <= k < |vs| ==> Normal(vs[k])
  }

  lemma NormalizedEntry(piece: string)
    requires ',' !in piece && Upper(Trim(piece)) != ""
    ensures Normal(Upper(Trim(piece)))
  {
    var t := Trim(piece);
    TrimChars(piece);
    UpperTrimmed(piece);
    UpperIdempotent(t);
    assert forall i :: 0 <= i < |Upper(t)| ==> Upper(t)[i] == ToUpper(t[i]);
  }

  lemma {:induction false} NormalizedPiecesNormal(pieces: seq<string>)
    requires forall k :: 0 <= k < |pieces| ==> ',' !in pieces[k]
    ensures AllNormal(NormalizedPieces(pieces))
  {
    if pieces != [] {
      NormalizedPiecesNormal(pieces[1..]);
      if Upper(Trim(pieces[0])) != "" {
        NormalizedEntry(pieces[0]);
      }
    }
  }

  /** Every parsed entry is normal. */
  lemma ParsedNormal(text: string)
    ensures AllNormal(ParseVariations(text))
  {
    SplitPiecesNoSeparator(text, ',');
    NormalizedPiecesNormal(SplitOn(text, ","));
  }

  lemma {:induction false} NormalPiecesKept(vs: seq<string>)
    requires AllNormal(vs)
    ensures NormalizedPieces(vs) == vs
  {
    if vs != [] {
      NormalPiecesKept(vs[1..]);
    }
  }

  /** Joining normal entries with commas and parsing the text gives the
      entries back. */
  lemma JoinParseRoundTrip(vs: seq<string>)
    requires AllNormal(vs)
    ensures ParseVariations(Join(vs, ",")) == vs
  {
    if vs == [] {
      assert SplitOn("", ",") == [""];
      TrimNoop("");
    } else {
      assert forall k, i :: 0 <= k < |vs| && 0 <= i < |vs[k]| ==> vs[k][i] != ',' by {
        forall k, i | 0 <= k < |vs| && 0 <= i < |vs[k]|
          ensures vs[k][i] != ','
        {
          assert Normal(vs[k]);
        }
      }
      SplitJoin(vs, ',');
      NormalPiecesKept(vs);
    }
  }

  /** The existing entries followed by each new entry not yet present. */
  function Combined(existing: seq<string>, novas: seq<string>): (r: seq<string>)
    ensures existing <= r
    ensures forall v :: v in r <==> v in existing || v in novas
    ensures NoDup(existing) ==> NoDup(r)
    decreases |novas|
  {
    if novas == [] then existing
    else
      var c := Combined(existing, novas[..|novas| - 1]);
      assert forall v :: v in novas <==> v in novas[..|novas| - 1] || v == novas[|novas| - 1];
      if novas[|novas| - 1] in c then c else c + [novas[|novas| - 1]]
  }

  lemma {:induction false} CombinedNormal(existing: seq<string>, novas: seq<string>)
    requires AllNormal(existing) && AllNormal(novas)
    ensures AllNormal(Combined(existing, novas))
    decreases |novas|
  {
    if novas != [] {
      CombinedNormal(existing, novas[..|novas| - 1]);
    }
  }

  /** The source the variation mapping keeps: its own (`""` reads as
      "empty"), or "empty" when there is no mapping yet. */
  function KeptSource(slot: Option<ColumnMapping>): Source
  {
    match slot
    case None => Column(EMPTY_SOURCE)
    case Some(m) => if m.sourceColumn == Column("") then Column(EMPTY_SOURCE) else m.sourceColumn
  }

  /** The entries a mapping already holds. */
  function StoredVariations(m: ColumnMapping): seq<string>
  {
    if m.novasVariacoes.Some? && m.novasVariacoes.value != "" then ParseVariations(m.novasVariacoes.value) else []
  }

  function SlotMapping(ms: seq<ColumnMapping>, col: string, file: Role): Option<ColumnMapping>
  {
    match SlotIndex(ms, col, file)
    case Some(i) => Some(ms[i])
    case None => None
  }

  /** The variation mapping of one spreadsheet after new entries are added. */
  function VariationMapping(ms: seq<ColumnMapping>, file: Role, novas: seq<string>): ColumnMapping
  {
    var slot := SlotMapping(ms, COR, file);
    var existing := if slot.Some? then StoredVariations(slot.value) else [];
    ColumnMapping(COR, KeptSource(slot), Some(file), None, Some(Join(Combined(existing, novas), ",")))
  }

  /** What `handleNovasVariacoes` does for one loaded spreadsheet. */
  function AddVariationsFor(ms: seq<ColumnMapping>, file: Role, novas: seq<string>): seq<ColumnMapping>
  {
    Upsert(ms, VariationMapping(ms, file, novas))
  }

  /** What `handleNovasVariacoes` sets the list to. */
  function NovasUpdate(ms: seq<ColumnMapping>, text: string, hasCusto: bool, hasVenda: bool): seq<ColumnMapping>
  {
    var novas := ParseVariations(text);
    if novas == [] then ms
    else
      var afterCusto := if hasCusto then AddVariationsFor(ms, Custo, novas) else ms;
      if hasVenda then AddVariationsFor(afterCusto, Venda, novas) else afterCusto
  }

  /** The step of `handleNovasVariacoes` for one spreadsheet. */
  method AddVariations(ms: seq<ColumnMapping>, file: Role, novas: seq<string>) returns (updated: seq<ColumnMapping>)
    ensures updated == AddVariationsFor(ms, file, novas)
  {
    var existingIndex := FindSlot(ms, COR, file);
    var existingSource := Column(EMPTY_SOURCE);
    var combined: seq<string> := [];
    if existingIndex >= 0 {
      existingSource := if ms[existingIndex].sourceColumn == Column("") then Column(EMPTY_SOURCE) else ms[existingIndex].sourceColumn;
      var stored := ms[existingIndex].novasVariacoes;
      if stored.Some? && stored.value != "" {
        combined := ParseVariations(stored.value);
      }
    }
    ghost var existing := combined;
    var i := 0;
    while i < |novas|
      invariant 0 <= i <= |novas|
      invariant combined == Combined(existing, novas[..i])
    {
      assert novas[..i + 1][..i] == novas[..i];
      if novas[i] !in combined {
        combined := combined + [novas[i]];
      }
      i := i + 1;
    }
    assert novas[..|novas|] == novas;
    var newMapping := ColumnMapping(COR, existingSource, Some(file), None, Some(Join(combined, ",")));
    if existingIndex >= 0 {
      updated := ms[existingIndex := newMapping];
    } else {
      updated := ms + [newMapping];
    }
  }

  /** `handleNovasVariacoes` */
  method HandleNovasVariacoes(ms: seq<ColumnMapping>, text: string, hasCusto: bool, hasVenda: bool)
    returns (updated: seq<ColumnMapping>)
    ensures updated == NovasUpdate(ms, text, hasCusto, hasVenda)
  {
    var novas := ParseVariations(text);
    if |novas| == 0 {
      return ms;
    }
    updated := ms;
    if hasCusto {
      updated := AddVariations(updated, Custo, novas);
    }
    if hasVenda {
      updated := AddVariations(updated, Venda, novas);
    }
  }

  /** For a loaded spreadsheet, the variation mapping afterwards keeps its
      source and reads back as its old entries followed by the new entries
      not yet among them, each once. */
  lemma VariationsAppended(ms: seq<ColumnMapping>, file: Role, novas: seq<string>)
    requires AllNormal(novas)
    ensures var slot := SlotMapping(ms, COR, file);
            var existing := if slot.Some? then StoredVariations(slot.value) else [];
            var m := VariationMapping(ms, file, novas);
            m.sourceColumn == KeptSource(slot)
            && ParseVariations(m.novasVariacoes.value) == Combined(existing, novas)
            && (NoDup(existing) && NoDup(novas) ==> NoDup(ParseVariations(m.novasVariacoes.value)))
  {
    var slot := SlotMapping(ms, COR, file);
    var existing := if slot.Some? then StoredVariations(slot.value) else [];
    if slot.Some? && slot.value.novasVariacoes.Some? && slot.value.novasVariacoes.value != "" {
      ParsedNormal(slot.value.novasVariacoes.value);
    }
    CombinedNormal(existing, novas);
    JoinParseRoundTrip(Combined(existing, novas));
  }

  /** Text without any entry changes nothing; otherwise no slot is filled
      twice afterwards. */
  lemma NovasUpdateOnePerSlot(ms: seq<ColumnMapping>, text: string, hasCusto: bool, hasVenda: bool)
    requires OnePerSlot(ms)
    ensures ParseVariations(text) == [] ==> NovasUpdate(ms, text, hasCusto, hasVenda) == ms
    ensures OnePerSlot(NovasUpdate(ms, text, hasCusto, hasVenda))
  {
    var novas := ParseVariations(text);
    if novas != [] {
      var afterCusto := if hasCusto then AddVariationsFor(ms, Custo, novas) else ms;
      if hasCusto {
        UpsertKeepsOnePerSlot(ms, VariationMapping(ms, Custo, novas));
      }
      if hasVenda {
        UpsertKeepsOnePerSlot(afterCusto, VariationMapping(afterCusto, Venda, novas));
      }
    }
  }

  // ---------------------------------------------------------------------
  // handleRemoverVariacaoIndividual and handleLimparNovasVariacoes

  /** A variation mapping with stored entries. */
  predicate HasNewVariations(m: ColumnMapping)
  {
    m.gabaritoColumn == COR && m.novasVariacoes.Some? && m.novasVariacoes.value != ""
  }

  function WithoutVariation(m: ColumnMapping, v: string): ColumnMapping
  {
    if HasNewVariations(m) then
      var rest := Without(ParseVariations(m.novasVariacoes.value), Upper(v));
      m.(novasVariacoes := if |rest| > 0 then Some(Join(rest, ",")) else None)
    else m
  }

  /** `handleRemoverVariacaoIndividual` */
  function RemoveVariation(ms: seq<ColumnMapping>, v: string): (r: seq<ColumnMapping>)
    ensures |r| == |ms|
  {
    seq(|ms|, k requires 0 <= k < |ms| => WithoutVariation(ms[k], v))
  }

  lemma {:induction false} WithoutKeepsNormal(vs: seq<string>, x: string)
    requires AllNormal(vs)
    ensures AllNormal(Without(vs, x))
  {
    var r := Without(vs, x);
    forall k | 0 <= k < |r|
      ensures Normal(r[k])
    {
      assert r[k] in vs;
    }
  }

  /** Removing a variation touches only the stored entries of variation
      mappings: the entry (upper-cased) is gone from each, the others stay,
      and a list left empty is removed. */
  lemma RemoveVariationEffect(ms: seq<ColumnMapping>, v: string)
    ensures var r := RemoveVariation(ms, v);
            forall k :: 0 <= k < |ms| ==>
              r[k] == ms[k].(novasVariacoes := r[k].novasVariacoes)
              && (!HasNewVariations(ms[k]) ==> r[k] == ms[k])
              && (HasNewVariations(ms[k]) && r[k].novasVariacoes.Some? ==>
                    ParseVariations(r[k].novasVariacoes.value)
                    == Without(ParseVariations(ms[k].novasVariacoes.value), Upper(v)))
              && (HasNewVariations(ms[k]) && r[k].novasVariacoes.None? ==>
                    forall y :: y in ParseVariations(ms[k].novasVariacoes.value) ==> y == Upper(v))
  {
    var r := RemoveVariation(ms, v);
    forall k | 0 <= k < |ms| && HasNewVariations(ms[k])
      ensures r[k].novasVariacoes.Some? ==>
                ParseVariations(r[k].novasVariacoes.value) == Without(ParseVariations(ms[k].novasVariacoes.value), Upper(v))
    {
      var vs := ParseVariations(ms[k].novasVariacoes.value);
      ParsedNormal(ms[k].novasVariacoes.value);
      WithoutKeepsNormal(vs, Upper(v));
      JoinParseRoundTrip(Without(vs, Upper(v)));
    }
  }

  /** `handleLimparNovasVariacoes` */
  function ClearVariations(ms: seq<ColumnMapping>): (r: seq<ColumnMapping>)
    ensures |r| == |ms|
    ensures forall k :: 0 <= k < |ms| ==>
              r[k] == (if HasNewVariations(ms[k]) then ms[k].(novasVariacoes := None) else ms[k])
  {
    seq(|ms|, k requires 0 <= k < |ms| => if HasNewVariations(ms[k]) then ms[k].(novasVariacoes := None) else ms[k])
  }

  /** After clearing, no variation mapping holds entries, and only the
      stored entries of variation mappings have changed. */
  lemma ClearVariationsEffect(ms: seq<ColumnMapping>)
    ensures var r := ClearVariations(ms);
            forall k :: 0 <= k < |ms| ==>
              !HasNewVariations(r[k])
              && r[k] == ms[k].(novasVariacoes := r[k].novasVariacoes)
              && (ms[k].gabaritoColumn != COR ==> r[k] == ms[k])
  {
  }

  // ---------------------------------------------------------------------
  // canGenerate

  /** The first mapping of the group filed under a spreadsheet. */
  function FirstFor(group: seq<ColumnMapping>, file: Role): Option<ColumnMapping>
  {
    if group == [] then None
    else if group[0].sourceFile == Some(file) then Some(group[0])
    else FirstFor(group[1..], file)
  }

  /** The mappings of one template column, in order. */
  function GroupOf(ms: seq<ColumnMapping>, col: string): (r: seq<ColumnMapping>)
    ensures forall m :: m in r <==> m in ms && m.gabaritoColumn == col
  {
    if ms == [] then []
    else (if ms[0].gabaritoColumn == col then [ms[0]] else []) + GroupOf(ms[1..], col)
  }

  /** Whether a mapping of the variation column, with the spreadsheet it is
      filed under loaded, selects a column of that spreadsheet or a custom
      value that is not one of the new entries. */
  predicate VariationsChosen(m: Option<ColumnMapping>, columns: Option<seq<string>>, novas: seq<string>)
  {
    m.Some? && columns.Some?
    && exists v :: v in Selected(m.value) && (v in columns.value || v !in novas)
  }

  /** Whether one template column counts as mapped for generation: the
      variation column needs a chosen variation on the cost or the sales
      side; any other column one mapping that fills it. */
  predicate ColumnReady(group: seq<ColumnMapping>, col: string, custo: Option<seq<string>>, venda: Option<seq<string>>)
  {
    if col == COR then
      var custoMapping := FirstFor(group, Custo);
      var vendaMapping := FirstFor(group, Venda);
      var novas := (if custoMapping.Some? then StoredVariations(custoMapping.value) else [])
                   + (if vendaMapping.Some? then StoredVariations(vendaMapping.value) else []);
      VariationsChosen(custoMapping, custo, novas) || VariationsChosen(vendaMapping, venda, novas)
    else exists m :: m in group && CountsAsMapped(m)
  }

  /** `mappedRequiredColumns`: the required columns that count as mapped,
      each once. */
  function ReadyRequired(cols: seq<string>, ms: seq<ColumnMapping>, required: seq<string>,
                         custo: Option<seq<string>>, venda: Option<seq<string>>): (r: seq<string>)
    ensures forall c :: c in r <==> c in cols && c in required && ColumnReady(GroupOf(ms, c), c, custo, venda)
    ensures NoDup(cols) ==> NoDup(r)
  {
    if cols == [] then []
    else
      var rest := ReadyRequired(cols[1..], ms, required, custo, venda);
      assert NoDup(cols) ==> cols[0] !in cols[1..];
      (if cols[0] in required && ColumnReady(GroupOf(ms, cols[0]), cols[0], custo, venda) then [cols[0]] else [])
      + rest
  }

  /** `canGenerate`: both spreadsheets loaded, as many required columns
      mapped as there are required columns, and both merge keys set. */
  predicate CanGenerate(ms: seq<ColumnMapping>, required: seq<string>,
                        custo: Option<seq<string>>, venda: Option<seq<string>>, merge: Option<MergeSettings>)
  {
    custo.Some? && venda.Some?
    && |ReadyRequired(Distinct(MappedColumns(ms)), ms, required, custo, venda)| == |required|
    && merge.Some? && merge.value.leftKey != "" && merge.value.rightKey != ""
  }

  /** With the required columns listed once each, generation is possible
      exactly when both spreadsheets are loaded, every required column has a
      mapping that counts, and both merge keys are set. */
  lemma CanGenerateExactly(ms: seq<ColumnMapping>, required: seq<string>,
                           custo: Option<seq<string>>, venda: Option<seq<string>>, merge: Option<MergeSettings>)
    requires NoDup(required)
    ensures CanGenerate(ms, required, custo, venda, merge) <==>
              custo.Some? && venda.Some?
              && (forall c :: c in required ==> c in MappedColumns(ms) && ColumnReady(GroupOf(ms, c), c, custo, venda))
              && merge.Some? && merge.value.leftKey != "" && merge.value.rightKey != ""
  {
    var ready := ReadyRequired(Distinct(MappedColumns(ms)), ms, required, custo, venda);
    NoDupWithin(ready, required);
    if forall c :: c in required ==> c in MappedColumns(ms) && ColumnReady(GroupOf(ms, c), c, custo, venda) {
      NoDupWithin(required, ready);
    }
  }
}
