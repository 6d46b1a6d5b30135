// The column mapper of the configuration editor
// (JSON/src/components/ColumnMapper.tsx): the user fills each template column
// from a column of the cost or the sales spreadsheet, from several of them,
// or with a literal name.  The list of mappings is edited by copying it and
// replacing, removing or appending entries by position.
module ColumnMapper {
  import opened Wrappers
  import opened Order
  import opened Catalog

  /** A mapping fills the slot (template column, spreadsheet). */
  predicate InSlot(m: ColumnMapping, col: string, file: Role)
  {
    m.gabaritoColumn == col && m.sourceFile == Some(file)
  }

  /** No two mappings fill the same slot. */
  predicate OnePerSlot(ms: seq<ColumnMapping>)
  {
    forall i, j :: 0 <= i < j < |ms| ==>
      ms[i].gabaritoColumn != ms[j].gabaritoColumn || ms[i].sourceFile != ms[j].sourceFile
  }

  /** `mappings.findIndex(...)` for a slot: the first position filling it. */
  function SlotIndex(ms: seq<ColumnMapping>, col: string, file: Role): (r: Option<nat>)
    ensures r.Some? ==> r.value < |ms| && InSlot(ms[r.value], col, file)
    ensures r.Some? ==> forall k :: 0 <= k < r.value ==> !InSlot(ms[k], col, file)
    ensures r.None? ==> forall k :: 0 <= k < |ms| ==> !InSlot(ms[k], col, file)
  {
    if ms == [] then None
    else if InSlot(ms[0], col, file) then Some(0)
    else match SlotIndex(ms[1..], col, file)
      case None => None
      case Some(k) => Some(k + 1)
  }

  /** The index `findIndex` returns: -1 when there is none. */
  function IndexOrMinusOne(o: Option<nat>): int
  {
    match o
    case Some(k) => k
    case None => -1
  }

  /** `findIndex` */
  method FindSlot(ms: seq<ColumnMapping>, col: string, file: Role) returns (index: int)
    ensures index == IndexOrMinusOne(SlotIndex(ms, col, file))
  {
    var i := 0;
    while i < |ms|
      invariant 0 <= i <= |ms|
      invariant forall k :: 0 <= k < i ==> !InSlot(ms[k], col, file)
    {
      if InSlot(ms[i], col, file) {
        return i;
      }
      i := i + 1;
    }
    return -1;
  }

  /** A mapping built by the handlers: no name and no new variations. */
  function Plain(col: string, source: Source, file: Role): ColumnMapping
  {
    ColumnMapping(col, source, Some(file), None, None)
  }

  /** The new mapping takes the place of the first one in its slot, or is
      appended when the slot is free. */
  function Upsert(ms: seq<ColumnMapping>, m: ColumnMapping): seq<ColumnMapping>
    requires m.sourceFile.Some?
  {
    match SlotIndex(ms, m.gabaritoColumn, m.sourceFile.value)
    case Some(i) => ms[i := m]
    case None => ms + [m]
  }

  /** The first mapping of a slot removed (`splice(index, 1)`). */
  function DropSlot(ms: seq<ColumnMapping>, col: string, file: Role): seq<ColumnMapping>
  {
    match SlotIndex(ms, col, file)
    case Some(i) => ms[..i] + ms[i + 1..]
    case None => ms
  }

  /** A replacement keeps the length and every other entry in place; an
      append adds one entry at the end. */
  lemma UpsertReplacesOrAppends(ms: seq<ColumnMapping>, m: ColumnMapping)
    requires m.sourceFile.Some?
    ensures var slot := SlotIndex(ms, m.gabaritoColumn, m.sourceFile.value);
            var r := Upsert(ms, m);
            (slot.Some? ==> |r| == |ms| && r[slot.value] == m
                            && forall k :: 0 <= k < |ms| && k != slot.value ==> r[k] == ms[k])
            && (slot.None? ==> |r| == |ms| + 1 && r[..|ms|] == ms && r[|ms|] == m)
  {
  }

  /** After an upsert the slot is filled by the new mapping alone, and no
      slot is filled twice. */
  lemma UpsertKeepsOnePerSlot(ms: seq<ColumnMapping>, m: ColumnMapping)
    requires m.sourceFile.Some? && OnePerSlot(ms)
    ensures var r := Upsert(ms, m);
            OnePerSlot(r)
            && m in r
            && forall k :: 0 <= k < |r| && InSlot(r[k], m.gabaritoColumn, m.sourceFile.value) ==> r[k] == m
  {
    var r := Upsert(ms, m);
    match SlotIndex(ms, m.gabaritoColumn, m.sourceFile.value)
    case Some(i) =>
      assert r[i] == m;
      forall k | 0 <= k < |r| && InSlot(r[k], m.gabaritoColumn, m.sourceFile.value)
        ensures r[k] == m
      {
        if k != i {
          assert false;
        }
      }
    case None =>
      assert r[|ms|] == m;
  }

  /** An upsert leaves every mapping of another slot in the list. */
  lemma UpsertKeepsOtherSlots(ms: seq<ColumnMapping>, m: ColumnMapping, x: ColumnMapping)
    requires m.sourceFile.Some? && x in ms
    requires x.gabaritoColumn != m.gabaritoColumn || x.sourceFile != m.sourceFile
    ensures x in Upsert(ms, m)
  {
    var k :| 0 <= k < |ms| && ms[k] == x;
    assert Upsert(ms, m)[k] == x;
  }

  /** Removing the first mapping of a slot in a list that fills each slot
      once empties that slot and keeps every other mapping. */
  lemma DropSlotEmpties(ms: seq<ColumnMapping>, col: string, file: Role)
    requires OnePerSlot(ms)
    ensures var r := DropSlot(ms, col, file);
            OnePerSlot(r)
            && (forall k :: 0 <= k < |r| ==> !InSlot(r[k], col, file))
            && (forall x :: x in ms && !InSlot(x, col, file) ==> x in r)
            && (forall x :: x in r ==> x in ms)
  {
    var r := DropSlot(ms, col, file);
    match SlotIndex(ms, col, file)
    case None =>
    case Some(i) =>
      assert forall k :: 0 <= k < |r| ==> r[k] == (if k < i then ms[k] else ms[k + 1]);
      forall x | x in ms && !InSlot(x, col, file)
        ensures x in r
      {
        var k :| 0 <= k < |ms| && ms[k] == x;
        assert k != i;
        assert r[if k < i then k else k - 1] == x;
      }
  }

  // ---------------------------------------------------------------------
  // handleMapping

  /** What `handleMapping` sets the list to.  Only when both spreadsheets
      are loaded and the column is not the variation column does choosing a
      column the spreadsheet has remove the other spreadsheet's mapping of
      the same template column. */
  function MappingUpdate(ms: seq<ColumnMapping>, col: string, src: string, file: Role,
                         custo: Option<seq<string>>, venda: Option<seq<string>>): seq<ColumnMapping>
  {
    var m := Plain(col, Column(src), file);
    if src == EMPTY_SOURCE then Upsert(ms, m)
    else if col != COR && custo.Some? && venda.Some? then
      var columns := if file == Custo then custo.value else venda.value;
      var base := if src in columns then DropSlot(ms, col, OtherRole(Some(file))) else ms;
      Upsert(base, m)
    else Upsert(ms, m)
  }

  /** `handleMapping`; `custo` and `venda` are the columns of the loaded
      spreadsheets. */
  method HandleMapping(ms: seq<ColumnMapping>, col: string, src: string, file: Role,
                       custo: Option<seq<string>>, venda: Option<seq<string>>) returns (updated: seq<ColumnMapping>)
    ensures updated == MappingUpdate(ms, col, src, file, custo, venda)
  {
    var newMapping := Plain(col, Column(src), file);
    updated := ms;
    if src != EMPTY_SOURCE && col != COR && custo.Some? && venda.Some? {
      var columns := if file == Custo then custo.value else venda.value;
      if src in columns {
        var otherIndex := FindSlot(updated, col, OtherRole(Some(file)));
        if otherIndex >= 0 {
          updated := updated[..otherIndex] + updated[otherIndex + 1..];
        }
      }
    }
    var existingIndex := FindSlot(updated, col, file);
    if existingIndex >= 0 {
      updated := updated[existingIndex := newMapping];
    } else {
      updated := updated + [newMapping];
    }
  }

  /** `handleMapping` fills each slot at most once; the chosen slot then
      holds exactly the new mapping, without a name or new variations. */
  lemma MappingUpdateOnePerSlot(ms: seq<ColumnMapping>, col: string, src: string, file: Role,
                                custo: Option<seq<string>>, venda: Option<seq<string>>)
    requires OnePerSlot(ms)
    ensures var r := MappingUpdate(ms, col, src, file, custo, venda);
            OnePerSlot(r)
            && Plain(col, Column(src), file) in r
            && forall k :: 0 <= k < |r| && InSlot(r[k], col, file) ==> r[k] == Plain(col, Column(src), file)
  {
    var m := Plain(col, Column(src), file);
    if src != EMPTY_SOURCE && col != COR && custo.Some? && venda.Some? {
      DropSlotEmpties(ms, col, OtherRole(Some(file)));
      var columns := if file == Custo then custo.value else venda.value;
      var base := if src in columns then DropSlot(ms, col, OtherRole(Some(file))) else ms;
      UpsertKeepsOnePerSlot(base, m);
    } else {
      UpsertKeepsOnePerSlot(ms, m);
    }
  }

  /** Choosing a column that the spreadsheet has, for a column other than
      the variation column with both spreadsheets loaded, leaves no mapping
      of that template column to the other spreadsheet. */
  lemma ListedColumnDropsOther(ms: seq<ColumnMapping>, col: string, src: string, file: Role,
                               custo: seq<string>, venda: seq<string>)
    requires OnePerSlot(ms)
    requires src != EMPTY_SOURCE && col != COR
    requires src in (if file == Custo then custo else venda)
    ensures var r := MappingUpdate(ms, col, src, file, Some(custo), Some(venda));
            forall k :: 0 <= k < |r| ==> !InSlot(r[k], col, OtherRole(Some(file)))
  {
    var other := OtherRole(Some(file));
    var base := DropSlot(ms, col, other);
    DropSlotEmpties(ms, col, other);
    var m := Plain(col, Column(src), file);
    var r := Upsert(base, m);
    forall k | 0 <= k < |r|
      ensures !InSlot(r[k], col, other)
    {
      if k < |base| && r[k] == base[k] {
      } else {
        UpsertReplacesOrAppends(base, m);
      }
    }
  }

  /** A custom value (one the spreadsheet does not have) keeps the other
      spreadsheet's mapping of the same template column. */
  lemma CustomValueKeepsOther(ms: seq<ColumnMapping>, col: string, src: string, file: Role,
                              custo: seq<string>, venda: seq<string>, x: ColumnMapping)
    requires src != EMPTY_SOURCE && col != COR
    requires src !in (if file == Custo then custo else venda)
    requires x in ms && InSlot(x, col, OtherRole(Some(file)))
    ensures x in MappingUpdate(ms, col, src, file, Some(custo), Some(venda))
  {
    UpsertKeepsOtherSlots(ms, Plain(col, Column(src), file), x);
  }

  /** Choosing "empty" replaces the slot's mapping in place or appends one. */
  lemma EmptyChoiceLength(ms: seq<ColumnMapping>, col: string, file: Role,
                          custo: Option<seq<string>>, venda: Option<seq<string>>)
    ensures var r := MappingUpdate(ms, col, EMPTY_SOURCE, file, custo, venda);
            |r| == (if SlotIndex(ms, col, file).Some? then |ms| else |ms| + 1)
  {
    UpsertReplacesOrAppends(ms, Plain(col, Column(EMPTY_SOURCE), file));
  }

  // ---------------------------------------------------------------------
  // handleNameMapping

  /** The mappings of every other template column, in order. */
  function OtherColumns(ms: seq<ColumnMapping>, col: string): (r: seq<ColumnMapping>)
    ensures forall x :: x in r <==> x in ms && x.gabaritoColumn != col
    ensures |r| <= |ms|
  {
    if ms == [] then []
    else (if ms[0].gabaritoColumn == col then [] else [ms[0]]) + OtherColumns(ms[1..], col)
  }

  /** The spreadsheet a named mapping is filed under: the cost spreadsheet
      when it is loaded, else the sales one when that is, else cost. */
  function NameFile(hasCusto: bool, hasVenda: bool): Role
  {
    if hasCusto then Custo else if hasVenda then Venda else Custo
  }

  /** `handleNameMapping`: every mapping of the template column is replaced
      by one mapping, last, that carries the name. */
  function NameUpdate(ms: seq<ColumnMapping>, col: string, name: string, hasCusto: bool, hasVenda: bool): (r: seq<ColumnMapping>)
    ensures |r| >= 1
    ensures r[|r| - 1] == ColumnMapping(col, Column(EMPTY_SOURCE), Some(NameFile(hasCusto, hasVenda)), Some(name), None)
    ensures forall k :: 0 <= k < |r| - 1 ==> r[k].gabaritoColumn != col
    ensures forall k :: 0 <= k < |r| - 1 ==> r[k] in ms
    ensures forall x :: x in ms && x.gabaritoColumn != col ==> x in r
  {
    var rest := OtherColumns(ms, col);
    assert forall k :: 0 <= k < |rest| ==> rest[k] in rest;
    rest + [ColumnMapping(col, Column(EMPTY_SOURCE), Some(NameFile(hasCusto, hasVenda)), Some(name), None)]
  }

  // ---------------------------------------------------------------------
  // handleMultipleMapping

  /** The columns a mapping selects: a list as it is, one real column as a
      one-element list, "" or "empty" as none. */
  function Selected(m: ColumnMapping): seq<string>
  {
    match m.sourceColumn
    case Columns(names) => names
    case Column(s) => if s != "" && s != EMPTY_SOURCE then [s] else []
  }

  /** A column checked is added once; a column unchecked is removed
      wherever it occurs. */
  function NewSelection(selected: seq<string>, src: string, checked: bool): (r: seq<string>)
    ensures checked ==> src in r && forall y :: y in r <==> y in selected || y == src
    ensures !checked ==> forall y :: y in r <==> y in selected && y != src
    ensures NoDup(selected) ==> NoDup(r)
  {
    if checked then (if src in selected then selected else selected + [src])
    else Without(selected, src)
  }

  /** The source of the new mapping: the selection, or "empty" when it is
      empty. */
  function SelectionSource(selection: seq<string>): Source
  {
    if |selection| > 0 then Columns(selection) else Column(EMPTY_SOURCE)
  }

  /** What `handleMultipleMapping` sets the list to. */
  function MultipleUpdate(ms: seq<ColumnMapping>, col: string, src: string, file: Role, checked: bool): seq<ColumnMapping>
  {
    var slot := SlotIndex(ms, col, file);
    var selected := if slot.Some? then Selected(ms[slot.value]) else [];
    Upsert(ms, Plain(col, SelectionSource(NewSelection(selected, src, checked)), file))
  }

  /** `handleMultipleMapping` */
  method HandleMultipleMapping(ms: seq<ColumnMapping>, col: string, src: string, file: Role, checked: bool)
    returns (updated: seq<ColumnMapping>)
    ensures updated == MultipleUpdate(ms, col, src, file, checked)
  {
    var existingIndex := FindSlot(ms, col, file);
    var selectedColumns: seq<string> := [];
    if existingIndex >= 0 {
      var existing := ms[existingIndex];
      if existing.sourceColumn.Columns? {
        selectedColumns := existing.sourceColumn.names;
      } else if existing.sourceColumn.name != "" && existing.sourceColumn.name != EMPTY_SOURCE {
        selectedColumns := [existing.sourceColumn.name];
      }
    }
    if checked {
      if src !in selectedColumns {
        selectedColumns := selectedColumns + [src];
      }
    } else {
      selectedColumns := Without(selectedColumns, src);
    }
    var newMapping := Plain(col, if |selectedColumns| > 0 then Columns(selectedColumns) else Column(EMPTY_SOURCE), file);
    if existingIndex >= 0 {
      updated := ms[existingIndex := newMapping];
    } else {
      updated := ms + [newMapping];
    }
  }

  /** After a check or an uncheck, the slot's mapping selects exactly the
      old selection with the column added or removed, never a column twice
      when there was none twice before, and every slot is still filled at
      most once. */
  lemma MultipleUpdateSelection(ms: seq<ColumnMapping>, col: string, src: string, file: Role, checked: bool)
    requires OnePerSlot(ms)
    ensures var r := MultipleUpdate(ms, col, src, file, checked);
            var slot := SlotIndex(ms, col, file);
            var before := if slot.Some? then Selected(ms[slot.value]) else [];
            var after := SlotIndex(r, col, file);
            OnePerSlot(r)
            && after.Some?
            && (checked ==> forall y :: y in Selected(r[after.value]) <==> y in before || y == src)
            && (!checked ==> forall y :: y in Selected(r[after.value]) <==> y in before && y != src)
            && (NoDup(before) ==> NoDup(Selected(r[after.value])))
  {
    var slot := SlotIndex(ms, col, file);
    var before := if slot.Some? then Selected(ms[slot.value]) else [];
    var selection := NewSelection(before, src, checked);
    var m := Plain(col, SelectionSource(selection), file);
    UpsertKeepsOnePerSlot(ms, m);
    var r := Upsert(ms, m);
    var after := SlotIndex(r, col, file);
    var k :| 0 <= k < |r| && r[k] == m;
    assert InSlot(r[k], col, file);
    assert after.Some?;
    assert r[after.value] == m;
    assert Selected(m) == selection;
  }

  // ---------------------------------------------------------------------
  // totalMapped

  /** A mapping that fills its column: it has a name, or a source other than
      "empty" (a non-empty list when it is a list). */
  predicate CountsAsMapped(m: ColumnMapping)
  {
    (m.name.Some? && m.name.value != "")
    || (m.sourceColumn != Column(EMPTY_SOURCE) && (m.sourceColumn.Columns? ==> |m.sourceColumn.names| > 0))
  }

  /** The template columns, in list order, of the mappings that fill a
      column of the template. */
  function FilledColumns(ms: seq<ColumnMapping>, template: seq<string>): (r: seq<string>)
    ensures forall c :: c in r ==> c in template
  {
    if ms == [] then []
    else
      (if ms[0].gabaritoColumn in template && CountsAsMapped(ms[0]) then [ms[0].gabaritoColumn] else [])
      + FilledColumns(ms[1..], template)
  }

  /** `totalMapped`: how many template columns are filled. */
  function TotalMapped(ms: seq<ColumnMapping>, template: seq<string>): nat
  {
    |Distinct(FilledColumns(ms, template))|
  }

  lemma {:induction false} FilledColumnsMembers(ms: seq<ColumnMapping>, template: seq<string>, c: string)
    ensures c in FilledColumns(ms, template) <==> c in template && exists m :: m in ms && m.gabaritoColumn == c && CountsAsMapped(m)
  {
    if ms != [] {
      FilledColumnsMembers(ms[1..], template, c);
      assert forall m :: m in ms <==> m == ms[0] || m in ms[1..];
    }
  }

  /** A template column counts once however many mappings fill it, only
      when one of its mappings fills it, and the count never exceeds the
      number of distinct template columns. */
  lemma TotalMappedCounts(ms: seq<ColumnMapping>, template: seq<string>)
    ensures TotalMapped(ms, template) <= |Distinct(template)|
    ensures forall c :: c in Distinct(FilledColumns(ms, template)) <==>
              c in template && exists m :: m in ms && m.gabaritoColumn == c && CountsAsMapped(m)
  {
    var filled := Distinct(FilledColumns(ms, template));
    forall c
      ensures c in filled <==> c in template && exists m :: m in ms && m.gabaritoColumn == c && CountsAsMapped(m)
    {
      FilledColumnsMembers(ms, template, c);
    }
    NoDupWithin(filled, Distinct(template));
  }
}
