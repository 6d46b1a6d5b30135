// The data shared by the pipeline stages: product records as they travel
// through the JSON files, and the per-supplier configuration written by the
// mapping front end (types/spreadsheet.ts) and read by the Python stages.
module Catalog {
  import opened Wrappers
  import opened Split

  /** One colour variation of a record: `{"nome_cor": ..., "preco": ...}`. */
  datatype Variation = Variation(nomeCor: string, preco: string)

  /** A field value of a product record.  `Colors` is the list of colour
      variations the extractor stores under COR, `Items` the one-element lists
      the separator stores under OBS / itensSeparados, `Null` is JSON null. */
  datatype Value = Str(s: string) | Colors(variations: seq<Variation>) | Items(items: seq<string>) | Null
  {
    /** Python truthiness. */
    predicate Truthy()
    {
      match this
      case Str(s) => s != ""
      case Colors(vs) => vs != []
      case Items(xs) => xs != []
      case Null => false
    }
  }

  /** The template columns the pipeline stages read or write themselves. */
  const DESCRICAO: string := "DESCRICAO"
  const COR: string := "COR"
  const CUSTO: string := "CUSTO"
  const PRECO1: string := "PRECO1"
  const COD_PRODUTO: string := "COD_PRODUTO"

  /** A product record: a JSON object (key order is not modelled). */
  type Product = map<string, Value>

  /** `record.get(key, '')` */
  function Get(p: Product, key: string): Value
  {
    if key in p then p[key] else Str("")
  }

  /** Python's `str(v)` for the values a product holds (the repr of a list is
      written with single quotes around each string). */
  function Shown(v: Value): string
  {
    match v
    case Str(s) => s
    case Null => "None"
    case Items(xs) => "[" + Join(seq(|xs|, i requires 0 <= i < |xs| => "'" + xs[i] + "'"), ", ") + "]"
    case Colors(vs) =>
      "[" + Join(seq(|vs|, i requires 0 <= i < |vs| =>
                   "{'nome_cor': '" + vs[i].nomeCor + "', 'preco': '" + vs[i].preco + "'}"), ", ") + "]"
  }

  /** Which supplier spreadsheet a file or mapping belongs to. */
  datatype Role = Custo | Venda

  /** `'venda' if role == 'custo' else 'custo'` (an unknown role falls back to custo). */
  function OtherRole(role: Option<Role>): Role
  {
    if role == Some(Custo) then Venda else Custo
  }

  const EMPTY_SOURCE: string := "__EMPTY__"

  /** `sourceColumn: string | string[]` */
  datatype Source = Column(name: string) | Columns(names: seq<string>)

  /** One entry of `columnMapping`: which template column is filled from which
      source column(s) of which file, or with a literal `name`. */
  datatype ColumnMapping = ColumnMapping(
    gabaritoColumn: string,
    sourceColumn: Source,
    sourceFile: Option<Role>,
    name: Option<string>,
    novasVariacoes: Option<string>)
  {
    predicate IsEmptySource() { sourceColumn == Column(EMPTY_SOURCE) }
  }

  /** One entry of the configuration's `files` object, in key order. */
  datatype FileEntry = FileEntry(role: Role, path: Option<string>)

  /** `mergeConfig`; absent members are `None` and read with their defaults. */
  datatype MergeSettings = MergeSettings(
    includeVariationKey: Option<bool>,
    additionalKeys: Option<seq<string>>,
    leftKey: string,
    rightKey: string)

  /** One entry of `separadores`, with absent members read as their defaults. */
  datatype SeparatorRule = SeparatorRule(coluna: string, valorOriginal: string, itensSeparados: seq<string>)

  /** A supplier configuration file, as the Python stages read it. */
  datatype Config = Config(
    files: seq<FileEntry>,
    columnMapping: seq<ColumnMapping>,
    mergeConfig: Option<MergeSettings>,
    separadores: Option<seq<SeparatorRule>>)
}
