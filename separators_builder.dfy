// The separator editor of the configuration editor
// (JSON/src/components/SeparadoresBuilder.tsx): each block names a column,
// the original value to look for, and the comma-separated words it is split
// into.  Export keeps the blocks with a column and some words and turns them
// into the `separadores` rules the separator stage reads.
module SeparatorsBuilder {
  import opened Wrappers
  import opened Text
  import opened Split
  import opened Order
  import opened Catalog
  import CommaLists

  /** `SeparadorConfig`: the words as typed, one text. */
  datatype Block = Block(coluna: string, valorOriginal: string, palavras: string)

  /** The block `handleAddBlock` appends. */
  const EMPTY_BLOCK: Block := Block("", "", "")

  // ---------------------------------------------------------------------
  // One block

  /** `itensSeparados`: the words split on commas, trimmed, blank ones
      dropped. */
  function ItemsOf(b: Block): (r: seq<string>)
    ensures CommaLists.AllEntries(r)
  {
    CommaLists.ItemsAreEntries(b.palavras);
    CommaLists.Items(b.palavras)
  }

  /** `handleRemoveItem`: the words without every copy of the item, joined
      with ", ".  Reading the new text gives exactly the old items minus
      that one, in their order. */
  function RemoveItem(b: Block, item: string): (r: Block)
    ensures r.(palavras := b.palavras) == b
    ensures ItemsOf(r) == Without(ItemsOf(b), item)
    ensures forall y :: y in ItemsOf(r) <==> y in ItemsOf(b) && y != item
  {
    var items := ItemsOf(b);
    var kept := Without(items, item);
    assert CommaLists.AllEntries(kept) by {
      forall k | 0 <= k < |kept|
        ensures CommaLists.Entry(kept[k])
      {
        assert kept[k] in items;
      }
    }
    CommaLists.ItemsJoinRoundTrip(kept);
    b.(palavras := Join(kept, ", "))
  }

  /** Removing an item twice is removing it once. */
  lemma RemoveItemIdempotent(b: Block, item: string)
    ensures ItemsOf(RemoveItem(RemoveItem(b, item), item)) == ItemsOf(RemoveItem(b, item))
  {
    var once := ItemsOf(RemoveItem(b, item));
    WithoutAbsent(once, item);
  }

  lemma {:induction false} WithoutAbsent(xs: seq<string>, x: string)
    requires x !in xs
    ensures Without(xs, x) == xs
  {
    if xs != [] {
      WithoutAbsent(xs[1..], x);
      assert xs == [xs[0]] + xs[1..];
    }
  }

  // ---------------------------------------------------------------------
  // The list of blocks

  /** `handleAddBlock` */
  function AddBlock(bs: seq<Block>): (r: seq<Block>)
    ensures |r| == |bs| + 1 && r[..|bs|] == bs && r[|bs|] == EMPTY_BLOCK
  {
    bs + [EMPTY_BLOCK]
  }

  // ---------------------------------------------------------------------
  // Export

  /** A block is exported when its column and its words are not blank. */
  predicate Valid(b: Block)
  {
    Trim(b.coluna) != "" && Trim(b.palavras) != ""
  }

  /** `isValid` */
  predicate IsValid(bs: seq<Block>)
  {
    exists k :: 0 <= k < |bs| && Valid(bs[k])
  }

  /** The rule exported for a block. */
  function Rule(b: Block): SeparatorRule
  {
    SeparatorRule(Trim(b.coluna), Trim(b.valorOriginal), ItemsOf(b))
  }

  /** The rules of the valid blocks, in order. */
  function ValidRules(bs: seq<Block>): seq<SeparatorRule>
  {
    if bs == [] then []
    else (if Valid(bs[0]) then [Rule(bs[0])] else []) + ValidRules(bs[1..])
  }

  /** `handleExport`: `None` (a warning) when no block is valid, otherwise
      the `separadores` list. */
  function Export(bs: seq<Block>): (r: Option<seq<SeparatorRule>>)
    ensures r.Some? ==> |r.value| > 0
  {
    var rules := ValidRules(bs);
    if |rules| == 0 then None else Some(rules)
  }

  /** The block a rule of `ValidRules` comes from. */
  ghost function Origin(bs: seq<Block>, k: nat): (j: nat)
    requires k < |ValidRules(bs)|
    ensures j < |bs| && Valid(bs[j]) && ValidRules(bs)[k] == Rule(bs[j])
    decreases |bs|
  {
    var here := if Valid(bs[0]) then [Rule(bs[0])] else [];
    assert ValidRules(bs) == here + ValidRules(bs[1..]);
    if k < |here| then 0
    else
      var j := Origin(bs[1..], k - |here|);
      assert bs[1..][j] == bs[j + 1];
      j + 1
  }

  /** Every valid block gives its rule, and there are no more rules than
      blocks. */
  lemma {:induction false} ValidRulesCover(bs: seq<Block>)
    ensures forall j :: 0 <= j < |bs| && Valid(bs[j]) ==> Rule(bs[j]) in ValidRules(bs)
    ensures |ValidRules(bs)| <= |bs|
  {
    if bs != [] {
      ValidRulesCover(bs[1..]);
      var here := if Valid(bs[0]) then [Rule(bs[0])] else [];
      assert ValidRules(bs) == here + ValidRules(bs[1..]);
      forall j | 0 <= j < |bs| && Valid(bs[j])
        ensures Rule(bs[j]) in ValidRules(bs)
      {
        if j > 0 {
          assert bs[1..][j - 1] == bs[j];
        }
      }
    }
  }

  /** The rule comes from some valid block. */
  ghost predicate FromValidBlock(bs: seq<Block>, r: SeparatorRule)
  {
    exists j :: 0 <= j < |bs| && Valid(bs[j]) && r == Rule(bs[j])
  }

  /** Exactly one rule per valid block: every rule comes from a valid block,
      every valid block gives its rule, and no more rules than blocks. */
  lemma ValidRulesExactly(bs: seq<Block>)
    ensures forall k :: 0 <= k < |ValidRules(bs)| ==> FromValidBlock(bs, ValidRules(bs)[k])
    ensures forall j :: 0 <= j < |bs| && Valid(bs[j]) ==> Rule(bs[j]) in ValidRules(bs)
    ensures |ValidRules(bs)| <= |bs|
  {
    ValidRulesCover(bs);
    forall k | 0 <= k < |ValidRules(bs)|
      ensures FromValidBlock(bs, ValidRules(bs)[k])
    {
      var j := Origin(bs, k);
      assert 0 <= j < |bs| && Valid(bs[j]) && ValidRules(bs)[k] == Rule(bs[j]);
    }
  }

  /** `isValid` is exactly the condition under which export produces a
      list. */
  lemma ExportIffValid(bs: seq<Block>)
    ensures Export(bs).Some? <==> IsValid(bs)
  {
    ValidRulesCover(bs);
    if IsValid(bs) {
      var j :| 0 <= j < |bs| && Valid(bs[j]);
      assert Rule(bs[j]) in ValidRules(bs);
    }
    if |ValidRules(bs)| > 0 {
      var j := Origin(bs, 0);
    }
  }

  /** Every exported rule has a trimmed, non-blank column, a trimmed
      original value, and items that are trimmed, non-blank and free of
      commas. */
  lemma ExportedRulesClean(bs: seq<Block>)
    requires Export(bs).Some?
    ensures forall k :: 0 <= k < |Export(bs).value| ==>
              var e := Export(bs).value[k];
              e.coluna != "" && Trim(e.coluna) == e.coluna && Trim(e.valorOriginal) == e.valorOriginal
              && CommaLists.AllEntries(e.itensSeparados)
  {
    var rules := Export(bs).value;
    assert rules == ValidRules(bs);
    forall k | 0 <= k < |rules|
      ensures var e := rules[k];
              e.coluna != "" && Trim(e.coluna) == e.coluna && Trim(e.valorOriginal) == e.valorOriginal
              && CommaLists.AllEntries(e.itensSeparados)
    {
      var j := Origin(bs, k);
      TrimIdempotent(bs[j].coluna);
      TrimIdempotent(bs[j].valorOriginal);
    }
  }

  /** The words only have to be non-blank: a block with a column whose
      words are only commas and blanks, with at least one comma, is valid
      and is exported with no items. */
  lemma CommaOnlyExportsNoItems(b: Block)
    requires Trim(b.coluna) != ""
    requires ',' in b.palavras
    requires forall i :: 0 <= i < |b.palavras| ==> b.palavras[i] == ',' || IsSpace(b.palavras[i])
    ensures Export([b]) == Some([SeparatorRule(Trim(b.coluna), Trim(b.valorOriginal), [])])
  {
    CommaLists.ItemsOfSeparatorsOnly(b.palavras);
    var k :| 0 <= k < |b.palavras| && b.palavras[k] == ',';
    NotSpaceNotBlank(b.palavras, k);
    assert ItemsOf(b) == [];
    assert Rule(b) == SeparatorRule(Trim(b.coluna), Trim(b.valorOriginal), []);
    assert Valid(b);
    assert ValidRules([b]) == [Rule(b)] + ValidRules([]) by {
      assert [b][1..] == [];
    }
    assert ValidRules([b]) == [Rule(b)];
    assert |ValidRules([b])| == 1;
  }

  // ---------------------------------------------------------------------
  // The columns offered in a block's column choice

  /** A mapping has data when its source is a column (or a list holding a
      column) that is neither blank nor the empty marker. */
  predicate HasData(m: ColumnMapping)
  {
    match m.sourceColumn
    case Column(name) => Trim(name) != "" && name != EMPTY_SOURCE
    case Columns(names) => |names| > 0 && exists k :: 0 <= k < |names| && Trim(names[k]) != "" && names[k] != EMPTY_SOURCE
  }

  /** The template columns of the mappings with data, in mapping order. */
  function DataColumns(ms: seq<ColumnMapping>): seq<string>
  {
    if ms == [] then []
    else (if HasData(ms[0]) then [ms[0].gabaritoColumn] else []) + DataColumns(ms[1..])
  }

  /** `mappedGabaritoColumns`: `Array.from(new Set(...)).sort()`. */
  function MappedGabaritoColumns(ms: seq<ColumnMapping>): seq<string>
  {
    SortedDistinct(DataColumns(ms))
  }

  lemma {:induction false} DataColumnsMembers(ms: seq<ColumnMapping>)
    ensures forall c :: c in DataColumns(ms) <==> exists k :: 0 <= k < |ms| && HasData(ms[k]) && ms[k].gabaritoColumn == c
  {
    if ms != [] {
      DataColumnsMembers(ms[1..]);
      forall c
        ensures c in DataColumns(ms) <==> exists k :: 0 <= k < |ms| && HasData(ms[k]) && ms[k].gabaritoColumn == c
      {
        if c in DataColumns(ms[1..]) {
          var k :| 0 <= k < |ms[1..]| && HasData(ms[1..][k]) && ms[1..][k].gabaritoColumn == c;
          assert HasData(ms[k + 1]) && ms[k + 1].gabaritoColumn == c;
        }
        if exists k :: 0 <= k < |ms| && HasData(ms[k]) && ms[k].gabaritoColumn == c {
          var k :| 0 <= k < |ms| && HasData(ms[k]) && ms[k].gabaritoColumn == c;
          if k > 0 {
            assert ms[1..][k - 1] == ms[k];
          }
        }
      }
    }
  }

  /** The offered columns are sorted, without repeats, and are exactly the
      template columns of the mappings with data. */
  lemma MappedColumnsExactly(ms: seq<ColumnMapping>)
    ensures StrictlySorted(MappedGabaritoColumns(ms)) && NoDup(MappedGabaritoColumns(ms))
    ensures forall c :: c in MappedGabaritoColumns(ms) <==> exists k :: 0 <= k < |ms| && HasData(ms[k]) && ms[k].gabaritoColumn == c
  {
    DataColumnsMembers(ms);
    StrictlySortedNoDup(MappedGabaritoColumns(ms));
  }

  /** A column filled with the empty marker, or with nothing, is never
      offered. */
  lemma EmptySourcesHaveNoData(m: ColumnMapping)
    requires m.sourceColumn == Column(EMPTY_SOURCE) || m.sourceColumn == Columns([])
      || m.sourceColumn == Columns([EMPTY_SOURCE])
    ensures !HasData(m)
  {
  }
}
