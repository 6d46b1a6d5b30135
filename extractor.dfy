// The record extractor (MOTOR/geradorJSON.py): reads the converter's text
// files and turns every record block into a product record, following the
// column mapping of the supplier configuration chosen for the file.
module Extractor {
  import opened Wrappers
  import opened Text
  import opened Numerals
  import opened Order
  import opened Catalog
  import opened ConfigResolver
  import opened VerticalText
  import opened RecordReader

  const SEM_NOME: string := "SEM NOME"

  // ---------------------------------------------------------------------
  // The role of a file

  /** The word a file name must contain to be recognised as a role. */
  function RoleWord(role: Role): string
  {
    match role
    case Custo => "custo"
    case Venda => "venda"
  }

  /** A configured spreadsheet and a normalised file name contain one another. */
  predicate DeclaredMatches(e: FileEntry, file: string)
  {
    e.path.Some? &&
    var declared := NormalizeName(Stem(e.path.value));
    Contains(file, declared) || Contains(declared, file)
  }

  /** The fallback on the file name alone. */
  function RoleByName(file: string): Option<Role>
  {
    if Contains(file, "custo") then Some(Custo)
    else if Contains(file, "venda") then Some(Venda)
    else None
  }

  /** `identificar_tipo_arquivo`: the first configured file that matches the
      normalised name, else the role named in the file name. */
  function IdentifyRole(txtName: string, config: Option<Config>): Option<Role>
  {
    var file := NormalizeName(txtName);
    match config
    case None => RoleByName(file)
    case Some(c) =>
      match FirstWhere(c.files, (e: FileEntry) => DeclaredMatches(e, file))
      case Some(k) => Some(c.files[k].role)
      case None => RoleByName(file)
  }

  /** A recognised role is justified by a matching configured file of that
      role or by the role's word in the file name; an unrecognised file matches
      no configured file and names no role.  Which role wins: the first
      configured file that matches decides, and only when none matches (or
      there is no configuration) is the name tested, "custo" before "venda". */
  lemma IdentifyRoleJustified(txtName: string, config: Option<Config>)
    ensures var file := NormalizeName(txtName);
      var r := IdentifyRole(txtName, config);
      (r.Some? ==>
        (config.Some? && exists k :: 0 <= k < |config.value.files|
                                      && config.value.files[k].role == r.value
                                      && DeclaredMatches(config.value.files[k], file))
        || Contains(file, RoleWord(r.value)))
      && (r.None? ==>
        !Contains(file, "custo") && !Contains(file, "venda")
        && (config.Some? ==> forall k :: 0 <= k < |config.value.files| ==> !DeclaredMatches(config.value.files[k], file)))
    ensures var file := NormalizeName(txtName);
      config.Some? && (exists k :: 0 <= k < |config.value.files| && DeclaredMatches(config.value.files[k], file)) ==>
        exists k ::
          && 0 <= k < |config.value.files|
          && DeclaredMatches(config.value.files[k], file)
          && (forall j :: 0 <= j < k ==> !DeclaredMatches(config.value.files[j], file))
          && IdentifyRole(txtName, config) == Some(config.value.files[k].role)
    ensures var file := NormalizeName(txtName);
      (config.None? || forall k :: 0 <= k < |config.value.files| ==> !DeclaredMatches(config.value.files[k], file)) ==>
        IdentifyRole(txtName, config) ==
          (if Contains(file, "custo") then Some(Custo)
           else if Contains(file, "venda") then Some(Venda)
           else None)
  {
    var file := NormalizeName(txtName);
    if config.Some? {
      var files := config.value.files;
      var m := FirstWhere(files, (e: FileEntry) => DeclaredMatches(e, file));
      if m.Some? {
        assert DeclaredMatches(files[m.value], file);
        assert forall j :: 0 <= j < m.value ==> !DeclaredMatches(files[j], file);
      } else {
        assert forall k :: 0 <= k < |files| ==> !DeclaredMatches(files[k], file);
      }
    }
  }

  // ---------------------------------------------------------------------
  // Colour variations

  predicate IsColorList(m: ColumnMapping)
  {
    m.gabaritoColumn == COR && m.sourceColumn.Columns?
  }

  function ListAt(ms: seq<ColumnMapping>, k: Option<nat>): seq<string>
    requires k.Some? ==> k.value < |ms| && ms[k.value].sourceColumn.Columns?
  {
    match k
    case None => []
    case Some(i) => ms[i].sourceColumn.names
  }

  /** The list of the first COR list mapping whose file is `src`, or [] when
      there is none: one of the searches of `obter_colunas_cores_do_config`. */
  function ColorListOf(ms: seq<ColumnMapping>, src: Option<Role>): seq<string>
  {
    ListAt(ms, FirstWhere(ms, (m: ColumnMapping) => IsColorList(m) && m.sourceFile == src))
  }

  /** `obter_colunas_cores_do_config`: the source columns of the first COR
      list mapping of the file's role, else of the other role, else of any
      role. */
  function ColorColumns(ms: seq<ColumnMapping>, role: Option<Role>): seq<string>
  {
    var own := ColorListOf(ms, role);
    if own != [] then own
    else
      var other := ColorListOf(ms, Some(OtherRole(role)));
      if other != [] then other
      else ListAt(ms, FirstWhere(ms, IsColorList))
  }

  /** `ms[k]` is the first COR list mapping whose file is `src`. */
  predicate FirstColorOf(ms: seq<ColumnMapping>, k: nat, src: Option<Role>)
    requires k < |ms|
  {
    IsColorList(ms[k]) && ms[k].sourceFile == src
    && forall j :: 0 <= j < k ==> !(IsColorList(ms[j]) && ms[j].sourceFile == src)
  }

  /** `ms[k]` is the first COR list mapping of any file. */
  predicate FirstColor(ms: seq<ColumnMapping>, k: nat)
    requires k < |ms|
  {
    IsColorList(ms[k]) && forall j :: 0 <= j < k ==> !IsColorList(ms[j])
  }

  /** The search for `src` finds no non-empty list: there is no COR list
      mapping for it, or the first one is empty. */
  predicate NoListFor(ms: seq<ColumnMapping>, src: Option<Role>)
  {
    forall k :: 0 <= k < |ms| && FirstColorOf(ms, k, src) ==> ms[k].sourceColumn.names == []
  }

  /** One search finds the list of the first COR list mapping for `src`, and
      nothing when that list is empty or missing. */
  lemma ColorListOfFirst(ms: seq<ColumnMapping>, src: Option<Role>)
    ensures forall k :: 0 <= k < |ms| && FirstColorOf(ms, k, src) ==> ColorListOf(ms, src) == ms[k].sourceColumn.names
    ensures NoListFor(ms, src) ==> ColorListOf(ms, src) == []
    ensures ColorListOf(ms, src) != [] ==>
      exists k :: 0 <= k < |ms| && IsColorList(ms[k]) && ms[k].sourceColumn.names == ColorListOf(ms, src)
  {
    var p := (m: ColumnMapping) => IsColorList(m) && m.sourceFile == src;
    var f := FirstWhere(ms, p);
    forall k | 0 <= k < |ms| && FirstColorOf(ms, k, src)
      ensures f == Some(k)
    {
      assert p(ms[k]);
    }
    if f.Some? {
      assert FirstColorOf(ms, f.value, src);
    }
  }

  /** The colour columns are the list of some COR mapping, and without a COR
      list there are none.  The three searches are tried in order: the first
      COR list of the file's own role when it is non-empty; otherwise the
      first one of the other role when it is non-empty; otherwise the first
      COR list of any role. */
  lemma ColorColumnsFromMapping(ms: seq<ColumnMapping>, role: Option<Role>)
    ensures var r := ColorColumns(ms, role);
      (r != [] ==> exists k :: 0 <= k < |ms| && IsColorList(ms[k]) && ms[k].sourceColumn.names == r)
      && ((forall k :: 0 <= k < |ms| ==> !IsColorList(ms[k])) ==> r == [])
      && (forall k :: 0 <= k < |ms| && IsColorList(ms[k]) && ms[k].sourceFile == role
            && ms[k].sourceColumn.names != []
            && (forall j :: 0 <= j < k ==> !(IsColorList(ms[j]) && ms[j].sourceFile == role))
            ==> r == ms[k].sourceColumn.names)
    ensures NoListFor(ms, role) ==>
      forall k :: 0 <= k < |ms| && FirstColorOf(ms, k, Some(OtherRole(role))) && ms[k].sourceColumn.names != []
        ==> ColorColumns(ms, role) == ms[k].sourceColumn.names
    ensures NoListFor(ms, role) && NoListFor(ms, Some(OtherRole(role))) ==>
      forall k :: 0 <= k < |ms| && FirstColor(ms, k) ==> ColorColumns(ms, role) == ms[k].sourceColumn.names
  {
    ColorListOfFirst(ms, role);
    ColorListOfFirst(ms, Some(OtherRole(role)));
    var h := FirstWhere(ms, IsColorList);
    forall k | 0 <= k < |ms| && FirstColor(ms, k)
      ensures h == Some(k)
    {
    }
    forall k | 0 <= k < |ms| && IsColorList(ms[k]) && ms[k].sourceFile == role
        && (forall j :: 0 <= j < k ==> !(IsColorList(ms[j]) && ms[j].sourceFile == role))
      ensures FirstColorOf(ms, k, role)
    {
    }
  }

  /** A value that counts as a colour price: neither "" nor "0". */
  predicate PriceValue(v: string) { v != "" && v != "0" }

  /** `extrair_variacoes_cores`: one variation per colour column whose value
      is a price, in column order, named by the cleaned column name. */
  function ExtractVariations(lines: seq<string>, columns: seq<string>): (r: seq<Variation>)
    ensures |r| <= |columns|
    ensures forall k :: 0 <= k < |r| ==> PriceValue(r[k].preco)
  {
    if columns == [] then []
    else
      var v := FindValue(lines, columns[0]);
      (if PriceValue(v) then [Variation(CleanHeader(columns[0]), v)] else [])
      + ExtractVariations(lines, columns[1..])
  }

  /** Every variation comes from a colour column and carries its value, and
      every colour column with a price yields a variation. */
  lemma {:induction false} ExtractVariationsExact(lines: seq<string>, columns: seq<string>)
    ensures forall v :: v in ExtractVariations(lines, columns) ==>
      exists c :: c in columns && v == Variation(CleanHeader(c), FindValue(lines, c))
    ensures forall c :: c in columns && PriceValue(FindValue(lines, c)) ==>
      Variation(CleanHeader(c), FindValue(lines, c)) in ExtractVariations(lines, columns)
    decreases |columns|
  {
    if columns != [] {
      ExtractVariationsExact(lines, columns[1..]);
      assert columns == [columns[0]] + columns[1..];
    }
  }

  // ---------------------------------------------------------------------
  // Header records

  /** A mapping that counts for a role (every mapping when the role is unknown). */
  predicate Relevant(m: ColumnMapping, role: Option<Role>)
  {
    role.None? || m.sourceFile == role
  }

  function SourcesOf(m: ColumnMapping): set<string>
  {
    match m.sourceColumn
    case Columns(names) => set x | x in names
    case Column(c) => if c != EMPTY_SOURCE then {c} else {}
  }

  /** `obter_colunas_source_mapping`: every source column named by a mapping of
      the role, except the empty-source marker. */
  function SourceColumns(ms: seq<ColumnMapping>, role: Option<Role>): (r: set<string>)
    ensures forall x :: x in r <==> exists k :: 0 <= k < |ms| && Relevant(ms[k], role) && x in SourcesOf(ms[k])
  {
    if ms == [] then {}
    else
      var rest := SourceColumns(ms[1..], role);
      assert forall x :: x in rest <==> exists k :: 1 <= k < |ms| && Relevant(ms[k], role) && x in SourcesOf(ms[k]) by {
        forall x | x in rest ensures exists k :: 1 <= k < |ms| && Relevant(ms[k], role) && x in SourcesOf(ms[k]) {
          var k :| 0 <= k < |ms[1..]| && Relevant(ms[1..][k], role) && x in SourcesOf(ms[1..][k]);
          assert ms[k + 1] == ms[1..][k];
        }
        forall x | exists k :: 1 <= k < |ms| && Relevant(ms[k], role) && x in SourcesOf(ms[k]) ensures x in rest {
          var k :| 1 <= k < |ms| && Relevant(ms[k], role) && x in SourcesOf(ms[k]);
          assert ms[1..][k - 1] == ms[k];
        }
      }
      (if Relevant(ms[0], role) then SourcesOf(ms[0]) else {}) + rest
  }

  predicate NamesSource(column: string, sources: set<string>)
  {
    exists s :: s in sources && NormalizeName(s) == NormalizeName(Trim(column))
  }

  /** `not v or v == "0" or v == "0.0"` on a trimmed value. */
  predicate Blankish(v: string) { v == "" || v == "0" || v == "0.0" }

  /** A line "column: value" whose column is a source column. */
  predicate SourceLine(line: string, sources: set<string>)
  {
    match SplitAtFirst(line, ':')
    case None => false
    case Some(parts) => NamesSource(parts.0, sources)
  }

  /** A line "column: value" of another column holding real data. */
  predicate DataLine(line: string, sources: set<string>)
  {
    match SplitAtFirst(line, ':')
    case None => false
    case Some(parts) => !NamesSource(parts.0, sources) && !Blankish(Trim(parts.1))
  }

  /** A repeated header row: some line names a source column and no other
      column holds data. */
  predicate IsHeaderRecord(lines: seq<string>, sources: set<string>)
  {
    sources != {}
    && (exists k :: 0 <= k < |lines| && SourceLine(lines[k], sources))
    && (forall k :: 0 <= k < |lines| ==> !DataLine(lines[k], sources))
  }

  /** The inner loop of `registro_eh_header`: does a source column normalise
      to this name? */
  method MatchesSource(normalized: string, sources: set<string>) returns (isSource: bool)
    ensures isSource <==> exists s :: s in sources && NormalizeName(s) == normalized
  {
    isSource := false;
    var rest := sources;
    while rest != {}
      invariant rest <= sources
      invariant !isSource ==> forall s :: s in sources - rest ==> NormalizeName(s) != normalized
      invariant isSource ==> exists s :: s in sources && NormalizeName(s) == normalized
      decreases |rest|
    {
      var s :| s in rest;
      if NormalizeName(s) == normalized {
        isSource := true;
        break;
      }
      rest := rest - {s};
    }
  }

  /** One line of `registro_eh_header`: its normalised column name, whether
      that column is a source column, and whether its value is blank. */
  method ClassifyLine(line: string, sources: set<string>)
    returns (normalized: string, isSource: bool, blank: bool)
    ensures isSource ==> SourceLine(line, sources)
    ensures SourceLine(line, sources) ==> isSource
    ensures DataLine(line, sources) <==> SplitAtFirst(line, ':').Some? && !isSource && !blank
  {
    normalized, isSource, blank := "", false, true;
    match SplitAtFirst(line, ':') {
      case None =>
      case Some(parts) =>
        normalized := NormalizeName(Trim(parts.0));
        blank := Blankish(Trim(parts.1));
        isSource := MatchesSource(normalized, sources);
    }
  }

  /** Some of the first `i` lines names a source column. */
  ghost predicate AnySourceLine(lines: seq<string>, i: nat, sources: set<string>)
    requires i <= |lines|
  {
    AnyUpTo(lines, i, (line: string) => SourceLine(line, sources))
  }

  /** None of the first `i` lines holds data in another column. */
  ghost predicate NoDataLine(lines: seq<string>, i: nat, sources: set<string>)
    requires i <= |lines|
  {
    AllUpTo(lines, i, (line: string) => !DataLine(line, sources))
  }

  /** The two scans of the lines decide whether a block is a header. */
  lemma HeaderScan(lines: seq<string>, sources: set<string>)
    ensures IsHeaderRecord(lines, sources) <==>
      sources != {} && AnySourceLine(lines, |lines|, sources) && NoDataLine(lines, |lines|, sources)
  {
    AnyUpToExists(lines, |lines|, (line: string) => SourceLine(line, sources));
    AllUpToForall(lines, |lines|, (line: string) => !DataLine(line, sources));
  }

  /** `registro_eh_header`, with its three sets of normalised column names. */
  method IsHeader(lines: seq<string>, sources: set<string>) returns (header: bool)
    ensures header == IsHeaderRecord(lines, sources)
  {
    if sources == {} {
      return false;
    }
    var found: set<string> := {};
    var empties: set<string> := {};
    var others: set<string> := {};
    var i := 0;
    while i < |lines|
      invariant 0 <= i <= |lines|
      invariant found != {} <==> AnySourceLine(lines, i, sources)
      invariant others == {} <==> NoDataLine(lines, i, sources)
      invariant empties <= found
    {
      var hasColon := SplitAtFirst(lines[i], ':').Some?;
      var normalized, isSource, blank := ClassifyLine(lines[i], sources);
      if isSource {
        found := found + {normalized};
        if blank {
          empties := empties + {normalized};
        }
      } else if hasColon && !blank {
        others := others + {normalized};
      }
      i := i + 1;
    }
    HeaderScan(lines, sources);
    if found != {} {
      if |empties| == |found| && others == {} {
        return true;
      }
      if others == {} {
        return true;
      }
    }
    return false;
  }

  // ---------------------------------------------------------------------
  // Building a record

  /** The mappings declared for one file, in configuration order. */
  function FileMappings(ms: seq<ColumnMapping>, src: Option<Role>): seq<ColumnMapping>
  {
    Keep(ms, (m: ColumnMapping) => m.sourceFile == src)
  }

  /** The mappings used for a file: those of its role, else those of the
      other role, else all of them; all of them for an unknown role. */
  function MappingsFor(ms: seq<ColumnMapping>, role: Option<Role>): seq<ColumnMapping>
  {
    if role.None? then ms
    else
      var own := FileMappings(ms, role);
      if own != [] then own
      else
        var other := FileMappings(ms, Some(OtherRole(role)));
        if other != [] then other else ms
  }

  /** The mappings used are mappings of the configuration, chosen in the
      order of the fallbacks: the role's own mappings when it has any, else
      the other role's when they exist, else every mapping; every mapping
      for an unknown role. */
  lemma MappingsForRole(ms: seq<ColumnMapping>, role: Option<Role>)
    ensures forall m :: m in MappingsFor(ms, role) ==> m in ms
    ensures ms != [] ==> MappingsFor(ms, role) != []
    ensures role.None? ==> MappingsFor(ms, role) == ms
    ensures role.Some? && (exists m :: m in ms && m.sourceFile == role) ==>
      MappingsFor(ms, role) == FileMappings(ms, role)
      && forall m :: m in MappingsFor(ms, role) <==> m in ms && m.sourceFile == role
    ensures role.Some? && (forall m :: m in ms ==> m.sourceFile != role)
            && (exists m :: m in ms && m.sourceFile == Some(OtherRole(role))) ==>
      MappingsFor(ms, role) == FileMappings(ms, Some(OtherRole(role)))
    ensures role.Some? && (forall m :: m in ms ==> m.sourceFile != role && m.sourceFile != Some(OtherRole(role))) ==>
      MappingsFor(ms, role) == ms
  {
    if role.Some? {
      var own := FileMappings(ms, role);
      var other := FileMappings(ms, Some(OtherRole(role)));
      KeepMembers(ms, (m: ColumnMapping) => m.sourceFile == role);
      KeepMembers(ms, (m: ColumnMapping) => m.sourceFile == Some(OtherRole(role)));
      assert forall m :: m in own <==> m in ms && m.sourceFile == role;
      assert forall m :: m in other <==> m in ms && m.sourceFile == Some(OtherRole(role));
      if own != [] {
        assert own[0] in own;
        assert MappingsFor(ms, role) == own;
      } else if other != [] {
        assert other[0] in other;
        assert MappingsFor(ms, role) == other;
      } else {
        assert MappingsFor(ms, role) == ms;
      }
    }
  }

  /** A list value that a non-COR list mapping may take. */
  predicate ListValue(v: string) { v != "" && v != "0" && v != "MERGE" }

  /** What one mapping writes into the record, if anything. */
  function Contribution(m: ColumnMapping, lines: seq<string>, variations: seq<Variation>): (r: Option<Value>)
    ensures r.Some? ==> r.value.Str? || (r.value.Colors? && m.gabaritoColumn == COR && r.value.variations != [])
    ensures r.Some? && m.IsEmptySource() ==> r.value.Str? && r.value.s != "VAZIO" && r.value.s != "MERGE"
    ensures r.Some? && !m.IsEmptySource() && r.value.Str? ==> r.value.s != "" && r.value.s != "MERGE"
  {
    if m.IsEmptySource() then
      match m.name
      case None => None
      case Some(n) => if n == "VAZIO" || n == "MERGE" then None else Some(Str(n))
    else
      match m.sourceColumn
      case Columns(names) =>
        if m.gabaritoColumn == COR then
          (if variations != [] then Some(Colors(variations)) else None)
        else
          (match FirstWhere(names, (c: string) => ListValue(FindValue(lines, c)))
           case Some(k) => Some(Str(FindValue(lines, names[k])))
           case None => None)
      case Column(c) =>
        var v := FindValue(lines, c);
        if v != "" && v != "MERGE" then Some(Str(v)) else None
  }

  /** The write of each mapping: its template column and its contribution. */
  function Writes(ms: seq<ColumnMapping>, lines: seq<string>, variations: seq<Variation>): (r: seq<(string, Option<Value>)>)
    ensures |r| == |ms|
  {
    seq(|ms|, i requires 0 <= i < |ms| => (ms[i].gabaritoColumn, Contribution(ms[i], lines, variations)))
  }

  /** A dictionary after a sequence of optional assignments. */
  function Updates(ws: seq<(string, Option<Value>)>): Product
  {
    if ws == [] then map[]
    else
      var w := ws[|ws| - 1];
      var before := Updates(ws[..|ws| - 1]);
      if w.1.Some? then before[w.0 := w.1.value] else before
  }

  /** The record after applying the mappings in order, a later write to the
      same column replacing an earlier one. */
  function RecordOf(ms: seq<ColumnMapping>, lines: seq<string>, variations: seq<Variation>): Product
  {
    Updates(Writes(ms, lines, variations))
  }

  /** Write `i` is the last one that assigns `key`. */
  predicate LastWrite(ws: seq<(string, Option<Value>)>, key: string, i: int)
  {
    0 <= i < |ws| && ws[i].0 == key && ws[i].1.Some?
    && forall j :: i < j < |ws| && ws[j].0 == key ==> ws[j].1.None?
  }

  lemma {:induction false} UpdatesLastWins(ws: seq<(string, Option<Value>)>, key: string)
    ensures key in Updates(ws) <==> exists i :: 0 <= i < |ws| && ws[i].0 == key && ws[i].1.Some?
    ensures forall i :: LastWrite(ws, key, i) ==> Updates(ws)[key] == ws[i].1.value
    decreases |ws|
  {
    if ws != [] {
      var init := ws[..|ws| - 1];
      var w := ws[|ws| - 1];
      UpdatesLastWins(init, key);
      if w.0 == key && w.1.Some? {
        LastWriteIsLast(ws, key);
      } else {
        LastWriteBefore(ws, key);
      }
    }
  }

  /** When the last write assigns `key`, it is the last write of `key`. */
  lemma LastWriteIsLast(ws: seq<(string, Option<Value>)>, key: string)
    requires ws != [] && ws[|ws| - 1].0 == key && ws[|ws| - 1].1.Some?
    ensures forall i :: LastWrite(ws, key, i) ==> i == |ws| - 1
  {
  }

  /** When the last write does not assign `key`, the writes of `key` are
      those before it. */
  lemma LastWriteBefore(ws: seq<(string, Option<Value>)>, key: string)
    requires ws != [] && !(ws[|ws| - 1].0 == key && ws[|ws| - 1].1.Some?)
    ensures forall i :: LastWrite(ws, key, i) ==> LastWrite(ws[..|ws| - 1], key, i)
    ensures forall i :: 0 <= i < |ws| && ws[i].0 == key && ws[i].1.Some? ==>
              i < |ws| - 1 && ws[..|ws| - 1][i].0 == key && ws[..|ws| - 1][i].1.Some?
  {
  }

  lemma RecordOfSnoc(ms: seq<ColumnMapping>, m: ColumnMapping, lines: seq<string>, variations: seq<Variation>)
    ensures RecordOf(ms + [m], lines, variations) == Applied(RecordOf(ms, lines, variations), m, lines, variations)
  {
    assert Writes(ms + [m], lines, variations)[..|ms|] == Writes(ms, lines, variations);
  }

  /** A column holds a value exactly when some mapping for it contributes
      one, and it holds the contribution of the last such mapping. */
  lemma RecordOfLastWins(ms: seq<ColumnMapping>, lines: seq<string>, variations: seq<Variation>, key: string)
    ensures key in RecordOf(ms, lines, variations) <==>
      exists i :: 0 <= i < |ms| && ms[i].gabaritoColumn == key && Contribution(ms[i], lines, variations).Some?
    ensures forall i :: LastWrite(Writes(ms, lines, variations), key, i) ==>
      RecordOf(ms, lines, variations)[key] == Contribution(ms[i], lines, variations).value
  {
    var ws := Writes(ms, lines, variations);
    UpdatesLastWins(ws, key);
    assert forall i :: 0 <= i < |ms| ==> ws[i] == (ms[i].gabaritoColumn, Contribution(ms[i], lines, variations));
    if key in RecordOf(ms, lines, variations) {
      var i :| 0 <= i < |ws| && ws[i].0 == key && ws[i].1.Some?;
      assert ms[i].gabaritoColumn == key && Contribution(ms[i], lines, variations).Some?;
    }
  }

  /** The record after one more mapping. */
  function Applied(record: Product, m: ColumnMapping, lines: seq<string>, variations: seq<Variation>): Product
  {
    match Contribution(m, lines, variations)
    case None => record
    case Some(v) => record[m.gabaritoColumn := v]
  }

  /** The value of the first of several source columns that holds one. */
  method FirstListed(names: seq<string>, lines: seq<string>) returns (found: Option<string>)
    ensures match FirstWhere(names, (c: string) => ListValue(FindValue(lines, c)))
            case Some(k) => found == Some(FindValue(lines, names[k]))
            case None => found.None?
  {
    found := None;
    var k := 0;
    while k < |names|
      invariant 0 <= k <= |names|
      invariant forall j :: 0 <= j < k ==> !ListValue(FindValue(lines, names[j]))
    {
      var value := FindValue(lines, names[k]);
      if ListValue(value) {
        found := Some(value);
        break;
      }
      k := k + 1;
    }
    ghost var f := FirstWhere(names, (c: string) => ListValue(FindValue(lines, c)));
    assert k < |names| ==> f == Some(k);
    assert k == |names| ==> f.None?;
  }

  /** The body of the mapping loop of `processar_arquivo_txt`: one mapping. */
  method ApplyMapping(record: Product, m: ColumnMapping, lines: seq<string>, variations: seq<Variation>)
    returns (updated: Product)
    ensures updated == Applied(record, m, lines, variations)
  {
    updated := record;
    if m.sourceColumn == Column(EMPTY_SOURCE) {
      if m.name.Some? && m.name.value != "VAZIO" && m.name.value != "MERGE" {
        updated := record[m.gabaritoColumn := Str(m.name.value)];
      }
    } else if m.sourceColumn.Columns? {
      if m.gabaritoColumn == COR {
        if variations != [] {
          updated := record[m.gabaritoColumn := Colors(variations)];
        }
      } else {
        var found := FirstListed(m.sourceColumn.names, lines);
        if found.Some? {
          updated := record[m.gabaritoColumn := Str(found.value)];
        }
      }
    } else {
      var value := FindValue(lines, m.sourceColumn.name);
      if value != "" && value != "MERGE" {
        updated := record[m.gabaritoColumn := Str(value)];
      }
    }
  }

  /** The mapping loop of `processar_arquivo_txt` for one record. */
  method BuildRecord(lines: seq<string>, mappings: seq<ColumnMapping>, variations: seq<Variation>) returns (record: Product)
    ensures record == RecordOf(mappings, lines, variations)
  {
    record := map[];
    var i := 0;
    while i < |mappings|
      invariant 0 <= i <= |mappings|
      invariant record == RecordOf(mappings[..i], lines, variations)
    {
      assert mappings[..i + 1] == mappings[..i] + [mappings[i]];
      RecordOfSnoc(mappings[..i], mappings[i], lines, variations);
      record := ApplyMapping(record, mappings[i], lines, variations);
      i := i + 1;
    }
    assert mappings[..i] == mappings;
  }

  // ---------------------------------------------------------------------
  // Numbering duplicate descriptions

  function DescText(v: Value): string
  {
    match v
    case Str(s) => s
    case _ => ""
  }

  /** A record with its description, "SEM NOME" when it has none. */
  function WithDescription(record: Product): (r: Product)
    ensures DESCRICAO in r
    ensures forall k :: k != DESCRICAO ==> (k in r <==> k in record) && (k in r ==> r[k] == record[k])
  {
    if DESCRICAO in record then record else record[DESCRICAO := Str(SEM_NOME)]
  }

  /** The trimmed, whitespace-collapsed description that duplicates are counted by. */
  function Base(record: Product): string
  {
    CollapseSpaces(Trim(DescText(Get(record, DESCRICAO))))
  }

  function Bases(records: seq<Product>): (r: seq<string>)
    ensures |r| == |records|
  {
    seq(|records|, i requires 0 <= i < |records| => Base(records[i]))
  }

  /** A record whose base was seen `k` times before. */
  function Renamed(record: Product, k: nat): Product
  {
    if k == 0 then record
    else record[DESCRICAO := Str(Base(record) + " (" + NatToString(k) + ")")]
  }

  /** The first record with a base keeps its description; the k-th repeat is
      renamed "base (k)". */
  function Numbered(records: seq<Product>): (r: seq<Product>)
    ensures |r| == |records|
  {
    seq(|records|, p requires 0 <= p < |records| =>
      Renamed(records[p], multiset(Bases(records[..p]))[Base(records[p])]))
  }

  /** Numbering changes nothing but descriptions, and a record whose base has
      not been seen before keeps its description. */
  lemma NumberedOnlyRenames(records: seq<Product>)
    ensures forall p, k :: 0 <= p < |records| && k != DESCRICAO ==>
      (k in Numbered(records)[p] <==> k in records[p])
      && (k in records[p] ==> Numbered(records)[p][k] == records[p][k])
    ensures forall p :: 0 <= p < |records| && DESCRICAO in records[p] ==> DESCRICAO in Numbered(records)[p]
    ensures forall p :: 0 <= p < |records| && (forall q :: 0 <= q < p ==> Base(records[q]) != Base(records[p])) ==>
      Numbered(records)[p] == records[p]
  {
    forall p | 0 <= p < |records| && (forall q :: 0 <= q < p ==> Base(records[q]) != Base(records[p]))
      ensures Numbered(records)[p] == records[p]
    {
      assert Base(records[p]) !in Bases(records[..p]);
    }
  }

  // ---------------------------------------------------------------------
  // A whole file

  /** The records of the blocks that are not headers, before numbering. */
  function RawRecords(blocks: seq<string>, sources: set<string>, mappings: seq<ColumnMapping>, colors: seq<string>): seq<Product>
  {
    if blocks == [] then []
    else
      var lines := Lines(blocks[|blocks| - 1]);
      RawRecords(blocks[..|blocks| - 1], sources, mappings, colors)
      + (if IsHeaderRecord(lines, sources) then []
         else [WithDescription(RecordOf(mappings, lines, ExtractVariations(lines, colors)))])
  }

  function HeaderCount(blocks: seq<string>, sources: set<string>): nat
  {
    if blocks == [] then 0
    else
      var last := if IsHeaderRecord(Lines(blocks[|blocks| - 1]), sources) then 1 else 0;
      HeaderCount(blocks[..|blocks| - 1], sources) + last
  }

  lemma {:induction false} RawRecordsCount(blocks: seq<string>, sources: set<string>, mappings: seq<ColumnMapping>, colors: seq<string>)
    ensures |RawRecords(blocks, sources, mappings, colors)| + HeaderCount(blocks, sources) == |blocks|
    ensures forall p :: 0 <= p < |RawRecords(blocks, sources, mappings, colors)| ==>
      DESCRICAO in RawRecords(blocks, sources, mappings, colors)[p]
    decreases |blocks|
  {
    if blocks != [] {
      RawRecordsCount(blocks[..|blocks| - 1], sources, mappings, colors);
    }
  }

  /** Every emitted record has a description, and one record is emitted per
      block that is not a header. */
  lemma EveryRecordNamed(blocks: seq<string>, sources: set<string>, mappings: seq<ColumnMapping>, colors: seq<string>)
    ensures var out := Numbered(RawRecords(blocks, sources, mappings, colors));
      |out| + HeaderCount(blocks, sources) == |blocks|
      && forall p :: 0 <= p < |out| ==> DESCRICAO in out[p]
  {
    RawRecordsCount(blocks, sources, mappings, colors);
    NumberedOnlyRenames(RawRecords(blocks, sources, mappings, colors));
  }

  /** The counter dictionary `nomes_usados`: a base is present once seen, and
      holds one less than the number of times it was seen. */
  ghost predicate CountsSeen(used: map<string, nat>, records: seq<Product>)
  {
    (forall x :: x in used <==> x in multiset(Bases(records)))
    && (forall x :: x in used ==> used[x] + 1 == multiset(Bases(records))[x])
  }

  /** One step of the counter: with `k` the number of times the record's base
      was seen before, the dictionary keeps counting and the record gets the
      name the numbering gives it. */
  lemma CounterStep(used: map<string, nat>, records: seq<Product>, r: Product, k: nat)
    requires CountsSeen(used, records)
    requires k == if Base(r) in used then used[Base(r)] + 1 else 0
    ensures CountsSeen(used[Base(r) := k], records + [r])
    ensures Numbered(records + [r]) == Numbered(records) + [Renamed(r, k)]
  {
    assert Bases(records + [r]) == Bases(records) + [Base(r)];
    assert multiset(Bases(records))[Base(r)] == k;
    NumberedSnoc(records, r);
  }

  lemma BlockStep(blocks: seq<string>, b: nat, sources: set<string>, mappings: seq<ColumnMapping>, colors: seq<string>)
    requires b < |blocks|
    ensures var lines := Lines(blocks[b]);
      var header := IsHeaderRecord(lines, sources);
      RawRecords(blocks[..b + 1], sources, mappings, colors)
        == RawRecords(blocks[..b], sources, mappings, colors)
           + (if header then [] else [WithDescription(RecordOf(mappings, lines, ExtractVariations(lines, colors)))])
      && HeaderCount(blocks[..b + 1], sources) == HeaderCount(blocks[..b], sources) + (if header then 1 else 0)
  {
    assert blocks[..b + 1][..b] == blocks[..b];
  }

  /** The `nomes_usados` step of `processar_arquivo_txt` for one record: the
      record is named as the numbering names it, and the counter keeps
      counting the bases seen. */
  method NameRecord(used: map<string, nat>, ghost raw: seq<Product>, record: Product)
    returns (used': map<string, nat>, named: Product)
    requires CountsSeen(used, raw) && DESCRICAO in record
    ensures CountsSeen(used', raw + [record])
    ensures Numbered(raw + [record]) == Numbered(raw) + [named]
  {
    var base := CollapseSpaces(Trim(DescText(record[DESCRICAO])));
    assert base == Base(record);
    if base !in used {
      used', named := used[base := 0], record;
      CounterStep(used, raw, record, 0);
    } else {
      used' := used[base := used[base] + 1];
      named := record[DESCRICAO := Str(base + " (" + NatToString(used'[base]) + ")")];
      CounterStep(used, raw, record, used'[base]);
    }
  }

  /** `processar_arquivo_txt` for a file with its configuration. */
  method ProcessFile(txtName: string, text: string, config: Config) returns (records: seq<Product>, skipped: nat)
    ensures var role := IdentifyRole(txtName, Some(config));
      var sources := SourceColumns(config.columnMapping, role);
      records == Numbered(RawRecords(Blocks(text), sources,
                                     MappingsFor(config.columnMapping, role),
                                     ColorColumns(config.columnMapping, role)))
      && skipped == HeaderCount(Blocks(text), sources)
  {
    var role := IdentifyRole(txtName, Some(config));
    var sources := SourceColumns(config.columnMapping, role);
    var mappings := MappingsFor(config.columnMapping, role);
    ghost var colors := ColorColumns(config.columnMapping, role);
    var blocks := Blocks(text);
    records := [];
    skipped := 0;
    var used: map<string, nat> := map[];
    ghost var raw: seq<Product> := [];
    var b := 0;
    while b < |blocks|
      invariant 0 <= b <= |blocks|
      invariant raw == RawRecords(blocks[..b], sources, mappings, colors)
      invariant skipped == HeaderCount(blocks[..b], sources)
      invariant records == Numbered(raw)
      invariant CountsSeen(used, raw)
    {
      BlockStep(blocks, b, sources, mappings, colors);
      var lines := Lines(blocks[b]);
      var header := IsHeader(lines, sources);
      if header {
        skipped := skipped + 1;
      } else {
        var variations := ExtractVariations(lines, ColorColumns(config.columnMapping, role));
        var record := BuildRecord(lines, mappings, variations);
        if DESCRICAO !in record {
          record := record[DESCRICAO := Str(SEM_NOME)];
        }
        assert record == WithDescription(RecordOf(mappings, lines, ExtractVariations(lines, colors)));
        var named;
        used, named := NameRecord(used, raw, record);
        records := records + [named];
        raw := raw + [record];
      }
      b := b + 1;
    }
    assert blocks[..b] == blocks;
  }

  lemma NumberedSnoc(records: seq<Product>, r: Product)
    ensures Numbered(records + [r]) ==
      Numbered(records) + [Renamed(r, multiset(Bases(records))[Base(r)])]
  {
    var all := records + [r];
    assert all[..|records|] == records;
    forall p | 0 <= p < |records|
      ensures all[..p] == records[..p]
    {
    }
  }
}
