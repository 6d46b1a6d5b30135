// The final translator (TRADUTOR/tradutor_final.py): the records of the
// separated JSON files become one table in the column order of the template
// spreadsheet.  On the way the fiscal classification (NCM) gets a code kept
// in a persistent cache, rows without two valid prices are dropped, products
// and colours are numbered, and numeric columns are written in Brazilian
// notation.
module Translator {
  import opened Wrappers
  import opened Text
  import opened Numerals
  import opened Order
  import opened Catalog
  import opened BrazilianNumbers

  const CLASSIFICACAO_FIS: string := "CLASSIFICACAO_FIS"
  const COD_CLASSIFICACAO_FIS: string := "COD_CLASSIFICACAO_FIS"
  const COD_COR: string := "COD_COR"

  // ---------------------------------------------------------------------
  // Frames

  /** A pandas DataFrame: its set of columns and its rows.  A row without one
      of the columns holds NaN there; a column stays in the frame when a
      filter removes every row that had it. */
  datatype Frame = Frame(columns: set<string>, rows: seq<Product>)

  /** The cell of a row in a column; `None` is NaN. */
  function Cell(p: Product, col: string): Option<Value>
  {
    if col in p then Some(p[col]) else None
  }

  /** `astype(str)` of a cell: NaN is written "nan". */
  function CellText(c: Option<Value>): string
  {
    match c
    case None => "nan"
    case Some(v) => Shown(v)
  }

  /** What `json.load` gives for one file: a list of records, one record, or
      anything else (which adds nothing). */
  datatype JsonDoc = RecordList(records: seq<Product>) | OneRecord(record: Product) | NotRecords

  function DocRecords(doc: JsonDoc): seq<Product>
  {
    match doc
    case RecordList(rs) => rs
    case OneRecord(r) => [r]
    case NotRecords => []
  }

  /** Every key of every record. */
  function KeysOf(rs: seq<Product>): set<string>
  {
    set i, k | 0 <= i < |rs| && k in rs[i] :: k
  }

  // ---------------------------------------------------------------------
  // _limpar_texto / _ler_jsons

  /** `_limpar_texto`: line breaks in text become spaces; other values are
      returned as they are. */
  function CleanText(v: Value): (r: Value)
    ensures !v.Str? ==> r == v
    ensures v.Str? ==> r.Str? && |r.s| == |v.s|
    ensures v.Str? ==> forall i :: 0 <= i < |r.s| ==> r.s[i] != '\n' && r.s[i] != '\r'
    ensures v.Str? ==> forall i :: 0 <= i < |v.s| && v.s[i] != '\n' && v.s[i] != '\r' ==> r.s[i] == v.s[i]
  {
    match v
    case Str(s) => Str(ReplaceChar(ReplaceChar(s, '\n', ' '), '\r', ' '))
    case _ => v
  }

  /** Cleaning twice is cleaning once. */
  lemma CleanTextIdempotent(v: Value)
    ensures CleanText(CleanText(v)) == CleanText(v)
  {
  }

  function CleanRow(p: Product): Product
  {
    map k | k in p :: CleanText(p[k])
  }

  /** `_ler_jsons` once the files are read: the records of every file in
      order, as a frame whose columns are the keys of any record, cleaned by
      `_limpar_dataframe`. */
  function ReadFrame(docs: seq<JsonDoc>): (f: Frame)
    ensures |f.rows| == |FlatMap(DocRecords, docs)|
    ensures f.columns == KeysOf(FlatMap(DocRecords, docs))
  {
    var rs := FlatMap(DocRecords, docs);
    Frame(KeysOf(rs), seq(|rs|, i requires 0 <= i < |rs| => CleanRow(rs[i])))
  }

  /** Reading keeps every record's keys and cleans every value. */
  lemma ReadFrameRows(docs: seq<JsonDoc>, i: nat)
    requires i < |FlatMap(DocRecords, docs)|
    ensures var p := FlatMap(DocRecords, docs)[i];
            ReadFrame(docs).rows[i].Keys == p.Keys
            && forall k :: k in p ==> ReadFrame(docs).rows[i][k] == CleanText(p[k])
  {
  }

  // ---------------------------------------------------------------------
  // _extrair_nome_arquivo / _obter_nome_saida

  /** `re.match(r'^saida_(.+)\.json$', name)`: `.` does not match a line
      break, and `$` also matches before a final line break. */
  function ExtractName(name: string): (r: Option<string>)
    ensures r.Some? ==> r.value != [] && '\n' !in r.value
    ensures r.Some? ==> name == "saida_" + r.value + ".json" || name == "saida_" + r.value + ".json\n"
  {
    var body := if |name| > 0 && name[|name| - 1] == '\n' then name[..|name| - 1] else name;
    assert name == body || name == body + "\n";
    if |body| > 11 && body[..6] == "saida_" && body[|body| - 5..] == ".json" && '\n' !in body[6..|body| - 5]
    then
      assert body == body[..6] + body[6..|body| - 5] + body[|body| - 5..];
      Some(body[6..|body| - 5])
    else None
  }

  /** The name written by the separator stage gives back the name inside it. */
  lemma ExtractNameRoundTrip(x: string)
    requires x != [] && '\n' !in x
    ensures ExtractName("saida_" + x + ".json") == Some(x)
    ensures ExtractName("saida_" + x + ".json\n") == Some(x)
  {
    var a := "saida_" + x + ".json";
    assert a[|a| - 1] == 'n';
    assert a[..6] == "saida_" && a[|a| - 5..] == ".json" && a[6..|a| - 5] == x;
    var b := a + "\n";
    assert "saida_" + x + ".json\n" == b;
    assert b[|b| - 1] == '\n';
    assert b[..|b| - 1] == a;
    var body := b[..|b| - 1];
    assert body[..6] == "saida_" && body[|body| - 5..] == ".json" && body[6..|body| - 5] == x;
  }

  predicate IsJsonName(f: string) { EndsWith(f, ".json") }

  /** `os.path.splitext(f)[0]` for a name ending in ".json": a name whose
      part before the extension is only dots has no extension. */
  function DropExtension(f: string): string
    requires IsJsonName(f)
  {
    var base := f[..|f| - 5];
    if forall i :: 0 <= i < |base| ==> base[i] == '.' then f else base
  }

  /** `_obter_nome_saida`: the name inside the first ".json" file name, or
      that name without its extension; no name when there is no such file. */
  function OutputName(files: seq<string>): (r: Option<string>)
    ensures r.None? <==> forall i :: 0 <= i < |files| ==> !IsJsonName(files[i])
  {
    match FirstWhere(files, IsJsonName)
    case None => None
    case Some(k) =>
      match ExtractName(files[k])
      case Some(x) => Some(x)
      case None => Some(DropExtension(files[k]))
  }

  /** When the first JSON file is one the separator wrote, its inner name is
      the output name. */
  lemma OutputNameOfSeparatorFile(files: seq<string>, k: nat, x: string)
    requires k < |files| && files[k] == "saida_" + x + ".json" && x != [] && '\n' !in x
    requires forall i :: 0 <= i < k ==> !IsJsonName(files[i])
    ensures OutputName(files) == Some(x)
  {
    ExtractNameRoundTrip(x);
    assert IsJsonName(files[k]);
  }

  // ---------------------------------------------------------------------
  // _gerar_cod_classificacao_fis: the NCM cache

  /** Normalised NCMs that get no code. */
  const INVALID_NCM: set<string> := {"", "NAN", "NONE", "NULL", "NA"}

  /** Texts both NCM columns have replaced by "" at the end. */
  const NAN_TEXTS: set<string> := {"nan", "NaN", "None", "NONE", "NULL", "null"}

  predicate ValidNcm(s: string) { s !in INVALID_NCM }

  function Scrub(s: string): string
  {
    if s in NAN_TEXTS then "" else s
  }

  /** `astype(str).str.strip().str.upper()` of the CLASSIFICACAO_FIS cell. */
  function NcmOf(p: Product): string
  {
    Upper(Trim(CellText(Cell(p, CLASSIFICACAO_FIS))))
  }

  function Ncms(rows: seq<Product>): seq<string>
  {
    seq(|rows|, i requires 0 <= i < |rows| => NcmOf(rows[i]))
  }

  /** `ncms_unicos`: the distinct valid NCMs in order of first appearance. */
  function NcmCandidates(rows: seq<Product>): seq<string>
  {
    Keep(Distinct(Ncms(rows)), ValidNcm)
  }

  /** `str.isdigit` */
  predicate IsNumeral(s: string) { |s| > 0 && AllDigits(s) }

  /** The numbers of the cached codes that are all digits. */
  ghost function CodeNumbersOf(cache: map<string, string>): set<nat>
  {
    set k | k in cache && IsNumeral(cache[k]) :: DigitsToNat(cache[k])
  }

  ghost function MaxOf(s: set<nat>): (r: nat)
    ensures forall x :: x in s ==> x <= r
    ensures s != {} ==> r in s
    decreases s
  {
    if s == {} then 0
    else
      var x :| x in s;
      var m := MaxOf(s - {x});
      assert forall y :: y in s && y != x ==> y in s - {x};
      if x < m then m else x
  }

  /** `max(codigos_existentes) + 1 if codigos_existentes else 1`. */
  ghost function NextFreeCode(cache: map<string, string>): nat
  {
    MaxOf(CodeNumbersOf(cache)) + 1
  }

  /** The loop over `ncms_unicos`: a cached NCM keeps its code, a new one gets
      the next number written with at least four digits. */
  function AssignFrom(cache: map<string, string>, xs: seq<string>, next: nat): (map<string, string>, nat)
    decreases |xs|
  {
    if xs == [] then (cache, next)
    else if xs[0] in cache then AssignFrom(cache, xs[1..], next)
    else AssignFrom(cache[xs[0] := ZeroPad(next, 4)], xs[1..], next + 1)
  }

  /** The NCMs of `xs` that the cache does not hold yet, in order. */
  function Unseen(cache: map<string, string>, xs: seq<string>): seq<string>
    decreases |xs|
  {
    if xs == [] then [] else (if xs[0] in cache then [] else [xs[0]]) + Unseen(cache, xs[1..])
  }

  /** Consecutive codes from `next` for the NCMs of `fs`, in order. */
  function FreshCodes(fs: seq<string>, next: nat): map<string, string>
    decreases |fs|
  {
    if fs == [] then map[] else FreshCodes(fs[1..], next + 1)[fs[0] := ZeroPad(next, 4)]
  }

  /** The cache after `_gerar_cod_classificacao_fis` (unchanged without a
      CLASSIFICACAO_FIS column). */
  ghost function UpdatedCache(cache: map<string, string>, f: Frame): map<string, string>
  {
    if CLASSIFICACAO_FIS !in f.columns then cache
    else AssignFrom(cache, NcmCandidates(f.rows), NextFreeCode(cache)).0
  }

  /** `ncm_cache.get(ncm, '')` for a valid NCM, "" otherwise. */
  function FiscalCode(cache: map<string, string>, ncm: string): string
  {
    if ValidNcm(ncm) && ncm in cache then cache[ncm] else ""
  }

  function FiscalRow(p: Product, cache: map<string, string>): Product
  {
    var n := NcmOf(p);
    p[CLASSIFICACAO_FIS := Str(Scrub(n))][COD_CLASSIFICACAO_FIS := Str(Scrub(FiscalCode(cache, n)))]
  }

  /** The frame after `_gerar_cod_classificacao_fis`, given the updated cache. */
  function FiscalFrame(f: Frame, cache: map<string, string>): Frame
  {
    if CLASSIFICACAO_FIS !in f.columns then f
    else Frame(f.columns + {CLASSIFICACAO_FIS, COD_CLASSIFICACAO_FIS},
               seq(|f.rows|, i requires 0 <= i < |f.rows| => FiscalRow(f.rows[i], cache)))
  }

  /** No two NCMs share a code. */
  ghost predicate CodesUnique(cache: map<string, string>)
  {
    forall a, b :: a in cache && b in cache && a != b ==> cache[a] != cache[b]
  }

  lemma {:induction false} UnseenMembers(cache: map<string, string>, xs: seq<string>)
    ensures forall k :: k in Unseen(cache, xs) <==> k in xs && k !in cache
    decreases |xs|
  {
    if xs != [] {
      UnseenMembers(cache, xs[1..]);
      assert xs == [xs[0]] + xs[1..];
    }
  }

  lemma {:induction false} UnseenNoDup(cache: map<string, string>, xs: seq<string>)
    requires NoDup(xs)
    ensures NoDup(Unseen(cache, xs))
    decreases |xs|
  {
    if xs != [] {
      UnseenNoDup(cache, xs[1..]);
      UnseenMembers(cache, xs[1..]);
      assert xs[0] !in xs[1..];
    }
  }

  lemma {:induction false} UnseenUpdate(cache: map<string, string>, k: string, v: string, xs: seq<string>)
    requires k !in xs
    ensures Unseen(cache[k := v], xs) == Unseen(cache, xs)
    decreases |xs|
  {
    if xs != [] {
      UnseenUpdate(cache, k, v, xs[1..]);
    }
  }

  lemma {:induction false} FreshCodesKeys(fs: seq<string>, next: nat)
    ensures forall k :: k in FreshCodes(fs, next) <==> k in fs
    decreases |fs|
  {
    if fs != [] {
      FreshCodesKeys(fs[1..], next + 1);
      assert fs == [fs[0]] + fs[1..];
    }
  }

  /** The fresh codes are numbered in order from `next`. */
  lemma {:induction false} FreshCodesAt(fs: seq<string>, next: nat, j: nat)
    requires NoDup(fs) && j < |fs|
    ensures fs[j] in FreshCodes(fs, next) && FreshCodes(fs, next)[fs[j]] == ZeroPad(next + j, 4)
    decreases |fs|
  {
    if j > 0 {
      FreshCodesAt(fs[1..], next + 1, j - 1);
      assert fs[j] == fs[1..][j - 1];
      assert fs[j] != fs[0];
    }
  }

  lemma MergeUpdated(m: map<string, string>, r: map<string, string>, x: string, c: string)
    requires x !in r
    ensures m[x := c] + r == m + r[x := c]
  {
  }

  /** A new NCM numbered first, then the rest from the next number. */
  lemma FreshPrepend(cache: map<string, string>, x: string, rest: seq<string>, next: nat)
    requires x !in rest
    ensures cache[x := ZeroPad(next, 4)] + FreshCodes(rest, next + 1) == cache + FreshCodes([x] + rest, next)
  {
    var c := ZeroPad(next, 4);
    FreshCodesKeys(rest, next + 1);
    assert ([x] + rest)[1..] == rest;
    assert FreshCodes([x] + rest, next) == FreshCodes(rest, next + 1)[x := c];
    MergeUpdated(cache, FreshCodes(rest, next + 1), x, c);
  }

  /** The loop adds exactly the unseen NCMs, numbered in order from `next`. */
  lemma {:induction false} AssignFromFresh(cache: map<string, string>, xs: seq<string>, next: nat)
    requires NoDup(xs)
    ensures AssignFrom(cache, xs, next).0 == cache + FreshCodes(Unseen(cache, xs), next)
    ensures AssignFrom(cache, xs, next).1 == next + |Unseen(cache, xs)|
    decreases |xs|
  {
    if xs == [] {
      assert cache + map[] == cache;
    } else {
      var x, xs1 := xs[0], xs[1..];
      assert NoDup(xs1);
      if x in cache {
        AssignFromFresh(cache, xs1, next);
        assert Unseen(cache, xs) == Unseen(cache, xs1);
      } else {
        assert x !in xs1;
        var c := ZeroPad(next, 4);
        var rest := Unseen(cache, xs1);
        AssignFromFresh(cache[x := c], xs1, next + 1);
        UnseenUpdate(cache, x, c, xs1);
        UnseenMembers(cache, xs1);
        assert Unseen(cache, xs) == [x] + rest;
        FreshPrepend(cache, x, rest, next);
      }
    }
  }

  lemma CandidatesNoDup(rows: seq<Product>)
    ensures NoDup(NcmCandidates(rows))
    ensures forall n :: n in NcmCandidates(rows) <==> n in Ncms(rows) && ValidNcm(n)
  {
    KeepNoDup(Distinct(Ncms(rows)), ValidNcm);
    KeepMembers(Distinct(Ncms(rows)), ValidNcm);
  }

  /** The new NCMs of a run, in order of first appearance. */
  function NewNcms(cache: map<string, string>, rows: seq<Product>): seq<string>
  {
    Unseen(cache, NcmCandidates(rows))
  }

  /** The updated cache is the old one with fresh codes for the new NCMs. */
  lemma UpdatedCacheFresh(cache: map<string, string>, f: Frame)
    requires CLASSIFICACAO_FIS in f.columns
    ensures UpdatedCache(cache, f) == cache + FreshCodes(NewNcms(cache, f.rows), NextFreeCode(cache))
    ensures NoDup(NewNcms(cache, f.rows))
    ensures forall k :: k in NewNcms(cache, f.rows) <==> k in Ncms(f.rows) && ValidNcm(k) && k !in cache
  {
    var xs := NcmCandidates(f.rows);
    CandidatesNoDup(f.rows);
    AssignFromFresh(cache, xs, NextFreeCode(cache));
    UnseenMembers(cache, xs);
    UnseenNoDup(cache, xs);
  }

  /** The cache only grows: old entries keep their codes, and the new keys
      are exactly the valid NCMs of the frame that were not cached. */
  lemma CacheGrows(cache: map<string, string>, f: Frame)
    requires CLASSIFICACAO_FIS in f.columns
    ensures forall k :: k in cache ==> k in UpdatedCache(cache, f) && UpdatedCache(cache, f)[k] == cache[k]
    ensures forall k :: k in UpdatedCache(cache, f) <==> k in cache || (k in Ncms(f.rows) && ValidNcm(k))
  {
    UpdatedCacheFresh(cache, f);
    FreshCodesKeys(NewNcms(cache, f.rows), NextFreeCode(cache));
  }

  /** New NCMs get consecutive four-digit codes in order of first appearance,
      starting one above the largest numeric code already cached. */
  lemma NewCodesConsecutive(cache: map<string, string>, f: Frame)
    requires CLASSIFICACAO_FIS in f.columns
    ensures NoDup(NewNcms(cache, f.rows))
    ensures forall k :: k in NewNcms(cache, f.rows) <==> k in UpdatedCache(cache, f) && k !in cache
    ensures forall j :: 0 <= j < |NewNcms(cache, f.rows)| ==>
              UpdatedCache(cache, f)[NewNcms(cache, f.rows)[j]] == ZeroPad(NextFreeCode(cache) + j, 4)
    ensures forall x :: x in CodeNumbersOf(cache) ==> x < NextFreeCode(cache)
  {
    var fs := NewNcms(cache, f.rows);
    var n := NextFreeCode(cache);
    UpdatedCacheFresh(cache, f);
    FreshCodesKeys(fs, n);
    forall j | 0 <= j < |fs|
      ensures UpdatedCache(cache, f)[fs[j]] == ZeroPad(n + j, 4)
    {
      FreshCodesAt(fs, n, j);
    }
  }

  /** A new code differs from every code already cached. */
  lemma NewCodeIsNew(cache: map<string, string>, n: nat, a: string)
    requires a in cache && forall x :: x in CodeNumbersOf(cache) ==> x < n
    ensures cache[a] != ZeroPad(n, 4)
  {
    ZeroPadValue(n, 4);
    if cache[a] == ZeroPad(n, 4) {
      NumeralCodeCounted(cache, a);
    }
  }

  lemma NumeralCodeCounted(cache: map<string, string>, a: string)
    requires a in cache && IsNumeral(cache[a])
    ensures DigitsToNat(cache[a]) in CodeNumbersOf(cache)
  {
  }

  /** Two new NCMs get different codes. */
  lemma FreshFreshDiffer(fs: seq<string>, n: nat, a: string, b: string)
    requires NoDup(fs) && a in fs && b in fs && a != b
    ensures a in FreshCodes(fs, n) && b in FreshCodes(fs, n) && FreshCodes(fs, n)[a] != FreshCodes(fs, n)[b]
  {
    var i, j := IndexOf(fs, a), IndexOf(fs, b);
    FreshCodesAt(fs, n, i);
    FreshCodesAt(fs, n, j);
    var ca, cb := ZeroPad(n + i, 4), ZeroPad(n + j, 4);
    assert FreshCodes(fs, n)[a] == ca && FreshCodes(fs, n)[b] == cb;
    assert ca != cb by {
      if ca == cb {
        ZeroPadInjective(n + i, n + j, 4);
      }
    }
  }

  /** A new NCM's code differs from every cached code. */
  lemma FreshCachedDiffer(cache: map<string, string>, fs: seq<string>, n: nat, a: string, b: string)
    requires NoDup(fs) && a in fs && b in cache
    requires forall x :: x in CodeNumbersOf(cache) ==> x < n
    ensures a in FreshCodes(fs, n) && FreshCodes(fs, n)[a] != cache[b]
  {
    var i := IndexOf(fs, a);
    FreshCodesAt(fs, n, i);
    NewCodeIsNew(cache, n + i, b);
  }

  /** Fresh codes numbered from above every cached number keep the codes of
      the merged cache different. */
  lemma FreshCodesDiffer(cache: map<string, string>, fs: seq<string>, n: nat, a: string, b: string)
    requires CodesUnique(cache) && NoDup(fs)
    requires forall k :: k in fs ==> k !in cache
    requires forall x :: x in CodeNumbersOf(cache) ==> x < n
    requires a in cache + FreshCodes(fs, n) && b in cache + FreshCodes(fs, n) && a != b
    ensures (cache + FreshCodes(fs, n))[a] != (cache + FreshCodes(fs, n))[b]
  {
    FreshCodesKeys(fs, n);
    if a in fs && b in fs {
      FreshFreshDiffer(fs, n, a, b);
    } else if a in fs {
      FreshCachedDiffer(cache, fs, n, a, b);
    } else if b in fs {
      FreshCachedDiffer(cache, fs, n, b, a);
    }
  }

  /** If no two cached NCMs shared a code before, none do after. */
  lemma CacheStaysUnique(cache: map<string, string>, f: Frame)
    requires CLASSIFICACAO_FIS in f.columns
    requires CodesUnique(cache)
    ensures CodesUnique(UpdatedCache(cache, f))
  {
    var fs := NewNcms(cache, f.rows);
    var n := NextFreeCode(cache);
    UpdatedCacheFresh(cache, f);
    var c := cache + FreshCodes(fs, n);
    forall a, b | a in c && b in c && a != b
      ensures c[a] != c[b]
    {
      FreshCodesDiffer(cache, fs, n, a, b);
    }
  }

  /** A missing NCM cell reads as "NAN". */
  lemma MissingNcm(p: Product)
    requires Cell(p, CLASSIFICACAO_FIS).None?
    ensures NcmOf(p) == "NAN"
  {
    TrimNoop("nan");
    assert Upper("nan") == "NAN";
  }

  /** Every valid NCM of the frame is in the updated cache. */
  lemma NcmCached(cache: map<string, string>, f: Frame, i: nat)
    requires CLASSIFICACAO_FIS in f.columns && i < |f.rows| && ValidNcm(NcmOf(f.rows[i]))
    ensures NcmOf(f.rows[i]) in UpdatedCache(cache, f)
  {
    CacheGrows(cache, f);
    assert NcmOf(f.rows[i]) == Ncms(f.rows)[i];
  }

  /** What `FiscalRow` writes, for any cache. */
  lemma FiscalRowShape(p: Product, c: map<string, string>)
    ensures var q := FiscalRow(p, c);
            var n := NcmOf(p);
            q[CLASSIFICACAO_FIS] == Str(Scrub(n))
            && (ValidNcm(n) && n in c ==> q[COD_CLASSIFICACAO_FIS] == Str(Scrub(c[n])))
            && (!ValidNcm(n) ==> q[COD_CLASSIFICACAO_FIS] == Str(""))
            && (forall k :: k in p && k != CLASSIFICACAO_FIS && k != COD_CLASSIFICACAO_FIS ==> k in q && q[k] == p[k])
  {
  }

  /** Every row ends with its normalised NCM (the cleanup texts removed) and
      the cached code of a valid NCM; a row without the NCM cell keeps the
      text "NAN", which neither cleanup list contains. */
  lemma FiscalCodesOfRows(cache: map<string, string>, f: Frame, i: nat)
    requires CLASSIFICACAO_FIS in f.columns && i < |f.rows|
    ensures var c := UpdatedCache(cache, f);
            var g := FiscalFrame(f, c);
            var n := NcmOf(f.rows[i]);
            g.rows[i][CLASSIFICACAO_FIS] == Str(Scrub(n))
            && (ValidNcm(n) ==> n in c && g.rows[i][COD_CLASSIFICACAO_FIS] == Str(Scrub(c[n])))
            && (!ValidNcm(n) ==> g.rows[i][COD_CLASSIFICACAO_FIS] == Str(""))
            && (Cell(f.rows[i], CLASSIFICACAO_FIS).None? ==> g.rows[i][CLASSIFICACAO_FIS] == Str("NAN"))
            && (forall k :: k in f.rows[i] && k != CLASSIFICACAO_FIS && k != COD_CLASSIFICACAO_FIS ==> k in g.rows[i] && g.rows[i][k] == f.rows[i][k])
  {
    var c := UpdatedCache(cache, f);
    var p := f.rows[i];
    var n := NcmOf(p);
    assert FiscalFrame(f, c).rows[i] == FiscalRow(p, c);
    FiscalRowShape(p, c);
    if ValidNcm(n) {
      NcmCached(cache, f, i);
    }
    if Cell(p, CLASSIFICACAO_FIS).None? {
      MissingNcm(p);
      assert Scrub("NAN") == "NAN";
    }
  }

  // ---------------------------------------------------------------------
  // _filtrar_produtos_invalidos

  /** `_ambos_precos_validos(row.get('CUSTO'), row.get('PRECO1'))` */
  predicate BothPricesValid(p: Product)
  {
    ValidPrice(Cell(p, CUSTO)) && ValidPrice(Cell(p, PRECO1))
  }

  /** `row['DESCRICAO'][:30]` in the log line succeeds: the cell is neither
      NaN nor None. */
  predicate Sliceable(c: Option<Value>)
  {
    c.Some? && c.value != Null
  }

  /** The descriptions of the rows whose prices are both valid. */
  function ValidDescriptions(rows: seq<Product>): set<Option<Value>>
  {
    set i | 0 <= i < |rows| && BothPricesValid(rows[i]) :: Cell(rows[i], DESCRICAO)
  }

  /** `df[df['DESCRICAO'].isin(valid) & df['_ambos_validos']]` */
  function KeptRows(rows: seq<Product>, valid: set<Option<Value>>): seq<Product>
  {
    if rows == [] then []
    else (if Cell(rows[0], DESCRICAO) in valid && BothPricesValid(rows[0]) then [rows[0]] else [])
         + KeptRows(rows[1..], valid)
  }

  /** A description that is a Python `str`; NaN, None and lists are not. */
  predicate IsText(c: Option<Value>)
  {
    c.Some? && c.value.Str?
  }

  /** A list description, which pandas cannot hash in `unique()` or `isin`. */
  predicate IsList(c: Option<Value>)
  {
    c.Some? && (c.value.Colors? || c.value.Items?)
  }

  /** `pd.isna(v)` of a list of two or more items is an array, and testing
      that array for truth raises a ValueError.  A list of one item stands
      for that item, and an empty one is taken as not missing. */
  predicate ManyItems(c: Option<Value>)
  {
    c.Some? && ((c.value.Items? && |c.value.items| >= 2) || (c.value.Colors? && |c.value.variations| >= 2))
  }

  /** `_ambos_precos_validos(row.get('CUSTO'), row.get('PRECO1'))` raises:
      CUSTO is such a list, or CUSTO is a valid price (so that PRECO1 is
      tested at all) and PRECO1 is such a list. */
  predicate PriceCheckRaises(p: Product)
  {
    ManyItems(Cell(p, CUSTO)) || (ValidPrice(Cell(p, CUSTO)) && ManyItems(Cell(p, PRECO1)))
  }

  /** `set(df['DESCRICAO'].unique())` */
  function DescriptionSet(rows: seq<Product>): set<Option<Value>>
  {
    set i | 0 <= i < |rows| :: Cell(rows[i], DESCRICAO)
  }

  /** `sorted(list(ds))` raises a TypeError: two or more descriptions, one
      of them not text.  Such a description cannot be compared with text,
      nor NaN with None, and the set holds at most one NaN and one None, so
      the sort meets an incomparable pair. */
  predicate Unsortable(ds: set<Option<Value>>)
  {
    |ds| >= 2 && exists d :: d in ds && !IsText(d)
  }

  /** The report printed when rows were removed fails: sorting the removed
      descriptions or the kept ones raises. */
  predicate ReportFails(before: set<Option<Value>>, after: set<Option<Value>>)
  {
    Unsortable(before - after) || Unsortable(after)
  }

  /** `_filtrar_produtos_invalidos`: the frame unchanged without a DESCRICAO
      column; otherwise the rows of products with a valid variation whose own
      prices are both valid.  No frame at all (an uncaught error) when the
      price test raises on some row, when one of the first ten rows has no
      description for the log slice, when some description is a list, or
      when rows were removed and the report cannot sort the removed or the
      kept descriptions. */
  function FilterInvalid(f: Frame): Option<Frame>
  {
    if DESCRICAO !in f.columns then Some(f)
    else if exists i :: 0 <= i < |f.rows| && PriceCheckRaises(f.rows[i]) then None
    else if exists i :: 0 <= i < |f.rows| && i < 10 && !Sliceable(Cell(f.rows[i], DESCRICAO)) then None
    else if exists i :: 0 <= i < |f.rows| && IsList(Cell(f.rows[i], DESCRICAO)) then None
    else
      var kept := KeptRows(f.rows, ValidDescriptions(f.rows));
      if |kept| < |f.rows| && ReportFails(DescriptionSet(f.rows), DescriptionSet(kept)) then None
      else Some(Frame(f.columns, kept))
  }

  lemma {:induction false} KeptRowsValid(rows: seq<Product>, valid: set<Option<Value>>)
    requires forall i :: 0 <= i < |rows| && BothPricesValid(rows[i]) ==> Cell(rows[i], DESCRICAO) in valid
    ensures KeptRows(rows, valid) == Keep(rows, BothPricesValid)
    decreases |rows|
  {
    if rows != [] {
      assert forall i :: 1 <= i < |rows| ==> rows[1..][i - 1] == rows[i];
      KeptRowsValid(rows[1..], valid);
    }
  }

  /** The product test is redundant: a row is kept exactly when both of its
      own prices are valid, in the original order. */
  lemma FilterKeepsValidRows(f: Frame)
    requires DESCRICAO in f.columns && FilterInvalid(f).Some?
    ensures FilterInvalid(f).value.rows == Keep(f.rows, BothPricesValid)
    ensures FilterInvalid(f).value.columns == f.columns
    ensures forall p :: p in FilterInvalid(f).value.rows <==> p in f.rows && BothPricesValid(p)
  {
    KeptRowsValid(f.rows, ValidDescriptions(f.rows));
    KeepMembers(f.rows, BothPricesValid);
  }

  /** Two different descriptions, one of them not text, cannot be sorted. */
  lemma TwoDescriptionsUnsortable(ks: seq<Product>, a: nat, b: nat)
    requires a < |ks| && b < |ks|
    requires Cell(ks[a], DESCRICAO) != Cell(ks[b], DESCRICAO) && !IsText(Cell(ks[a], DESCRICAO))
    ensures Unsortable(DescriptionSet(ks))
  {
    var pair := {Cell(ks[a], DESCRICAO), Cell(ks[b], DESCRICAO)};
    assert pair <= DescriptionSet(ks);
    assert |pair| == 2;
    CardinalityMonotone(pair, DescriptionSet(ks));
  }

  lemma CardinalityMonotone<T>(a: set<T>, b: set<T>)
    requires a <= b
    ensures |a| <= |b|
  {
    assert b == a + (b - a);
  }

  /** The kept rows are the rows with both prices valid. */
  lemma KeptAreValid(rows: seq<Product>)
    ensures KeptRows(rows, ValidDescriptions(rows)) == Keep(rows, BothPricesValid)
    ensures forall p :: p in KeptRows(rows, ValidDescriptions(rows)) <==> p in rows && BothPricesValid(p)
  {
    KeptRowsValid(rows, ValidDescriptions(rows));
    KeepMembers(rows, BothPricesValid);
  }

  /** The failure of the report: when a row is removed and two rows with both
      prices valid carry different descriptions, one of them missing, None or
      otherwise not text, the filter raises instead of returning a frame. */
  lemma MixedKeptDescriptionsFail(f: Frame, i: nat, j: nat, k: nat)
    requires DESCRICAO in f.columns && i < |f.rows| && j < |f.rows| && k < |f.rows|
    requires !BothPricesValid(f.rows[k])
    requires BothPricesValid(f.rows[i]) && BothPricesValid(f.rows[j])
    requires Cell(f.rows[i], DESCRICAO) != Cell(f.rows[j], DESCRICAO) && !IsText(Cell(f.rows[i], DESCRICAO))
    ensures FilterInvalid(f).None?
  {
    var rows := f.rows;
    var kept := KeptRows(rows, ValidDescriptions(rows));
    KeptAreValid(rows);
    KeepShorter(rows, BothPricesValid, k);
    assert rows[i] in kept && rows[j] in kept;
    var a :| 0 <= a < |kept| && kept[a] == rows[i];
    var b :| 0 <= b < |kept| && kept[b] == rows[j];
    TwoDescriptionsUnsortable(kept, a, b);
    assert |kept| < |rows| && ReportFails(DescriptionSet(rows), DescriptionSet(kept));
  }

  /** Only text in a set: it can be sorted. */
  lemma TextSortable(ds: set<Option<Value>>)
    requires forall d :: d in ds ==> IsText(d)
    ensures !Unsortable(ds)
  {
  }

  /** The descriptions of the kept rows are descriptions of rows. */
  lemma KeptDescriptionsOfRows(rows: seq<Product>)
    ensures DescriptionSet(KeptRows(rows, ValidDescriptions(rows))) <= DescriptionSet(rows)
  {
    var kept := KeptRows(rows, ValidDescriptions(rows));
    KeptAreValid(rows);
    forall d | d in DescriptionSet(kept)
      ensures d in DescriptionSet(rows)
    {
      var a :| 0 <= a < |kept| && Cell(kept[a], DESCRICAO) == d;
      assert kept[a] in rows;
      var b :| 0 <= b < |rows| && rows[b] == kept[a];
    }
  }

  /** A price cell holding a list of two or more items makes the price test,
      and with it the filter, raise. */
  lemma ListPriceFails(f: Frame, i: nat)
    requires DESCRICAO in f.columns && i < |f.rows|
    requires ManyItems(Cell(f.rows[i], CUSTO)) || (ValidPrice(Cell(f.rows[i], CUSTO)) && ManyItems(Cell(f.rows[i], PRECO1)))
    ensures FilterInvalid(f).None?
  {
    assert PriceCheckRaises(f.rows[i]);
  }

  /** The other direction: with a text description in every row, the filter
      returns a frame exactly when the price test raises on no row. */
  lemma TextDescriptionsFilter(f: Frame)
    requires forall i :: 0 <= i < |f.rows| ==> IsText(Cell(f.rows[i], DESCRICAO))
    ensures FilterInvalid(f).Some? <==> DESCRICAO !in f.columns || forall i :: 0 <= i < |f.rows| ==> !PriceCheckRaises(f.rows[i])
  {
    if DESCRICAO in f.columns {
      var rows := f.rows;
      FilterInvalidSome(f);
      assert forall i :: 0 <= i < |rows| ==> Sliceable(Cell(rows[i], DESCRICAO)) && !IsList(Cell(rows[i], DESCRICAO));
      TextReportSorts(rows);
    }
  }

  /** When the filter returns a frame: no error branch is taken. */
  lemma FilterInvalidSome(f: Frame)
    requires DESCRICAO in f.columns
    ensures var kept := KeptRows(f.rows, ValidDescriptions(f.rows));
      FilterInvalid(f).Some? <==>
        (forall i :: 0 <= i < |f.rows| ==> !PriceCheckRaises(f.rows[i]))
        && (forall i :: 0 <= i < |f.rows| && i < 10 ==> Sliceable(Cell(f.rows[i], DESCRICAO)))
        && (forall i :: 0 <= i < |f.rows| ==> !IsList(Cell(f.rows[i], DESCRICAO)))
        && !(|kept| < |f.rows| && ReportFails(DescriptionSet(f.rows), DescriptionSet(kept)))
  {
  }

  /** With text descriptions only, the report sorts both of its sets. */
  lemma TextReportSorts(rows: seq<Product>)
    requires forall i :: 0 <= i < |rows| ==> IsText(Cell(rows[i], DESCRICAO))
    ensures !ReportFails(DescriptionSet(rows), DescriptionSet(KeptRows(rows, ValidDescriptions(rows))))
  {
    var before := DescriptionSet(rows);
    var after := DescriptionSet(KeptRows(rows, ValidDescriptions(rows)));
    assert forall d :: d in before ==> IsText(d);
    KeptDescriptionsOfRows(rows);
    TextSortable(after);
    TextSortable(before - after);
  }

  /** Rows chosen by their prices carry exactly the descriptions of the rows
      with both prices valid. */
  lemma DescriptionsOfKept(rows: seq<Product>, ks: seq<Product>)
    requires forall p :: p in ks <==> p in rows && BothPricesValid(p)
    ensures (set i | 0 <= i < |ks| :: Cell(ks[i], DESCRICAO)) == ValidDescriptions(rows)
  {
    var lhs := set i | 0 <= i < |ks| :: Cell(ks[i], DESCRICAO);
    forall d | d in lhs
      ensures d in ValidDescriptions(rows)
    {
      var i :| 0 <= i < |ks| && Cell(ks[i], DESCRICAO) == d;
      assert ks[i] in ks;
      var j :| 0 <= j < |rows| && rows[j] == ks[i];
    }
    forall d | d in ValidDescriptions(rows)
      ensures d in lhs
    {
      var j :| 0 <= j < |rows| && BothPricesValid(rows[j]) && Cell(rows[j], DESCRICAO) == d;
      assert rows[j] in rows;
      var i :| 0 <= i < |ks| && ks[i] == rows[j];
    }
  }

  /** A product disappears exactly when none of its variations has both
      prices valid. */
  lemma FilterKeepsProducts(f: Frame)
    requires DESCRICAO in f.columns && FilterInvalid(f).Some?
    ensures var g := FilterInvalid(f).value;
            (set i | 0 <= i < |g.rows| :: Cell(g.rows[i], DESCRICAO)) == ValidDescriptions(f.rows)
  {
    FilterKeepsValidRows(f);
    DescriptionsOfKept(f.rows, FilterInvalid(f).value.rows);
  }

  // ---------------------------------------------------------------------
  // Numbering by position: `for idx, x in enumerate(xs, start=1)`

  /** `{x: f"{idx:0<w>d}" for idx, x in enumerate(xs, start=1)}` */
  function Numbering<T>(xs: seq<T>, w: nat): map<T, string>
  {
    if xs == [] then map[] else Numbering(xs[..|xs| - 1], w)[xs[|xs| - 1] := ZeroPad(|xs|, w)]
  }

  /** The numbered values are exactly the elements. */
  lemma {:induction false} NumberingKeys<T>(xs: seq<T>, w: nat)
    ensures forall x :: x in Numbering(xs, w) <==> x in xs
    decreases |xs|
  {
    if xs != [] {
      var n := |xs| - 1;
      NumberingKeys(xs[..n], w);
      assert xs == xs[..n] + [xs[n]];
    }
  }

  /** Without repeats, the element at position j is numbered j + 1. */
  lemma {:induction false} NumberingIndex<T>(xs: seq<T>, w: nat, j: nat)
    requires NoDup(xs) && j < |xs|
    ensures xs[j] in Numbering(xs, w) && Numbering(xs, w)[xs[j]] == ZeroPad(j + 1, w)
    decreases |xs|
  {
    var n := |xs| - 1;
    if j < n {
      var pre := xs[..n];
      assert NoDup(pre) by {
        forall a, b | 0 <= a < b < |pre|
          ensures pre[a] != pre[b]
        {
          assert pre[a] == xs[a] && pre[b] == xs[b];
        }
      }
      NumberingIndex(pre, w, j);
      assert pre[j] == xs[j] && xs[j] != xs[n];
    }
  }

  /** Without repeats, every element is numbered by its position from 1. */
  lemma NumberingAt<T>(xs: seq<T>, w: nat)
    requires NoDup(xs)
    ensures forall x :: x in Numbering(xs, w) <==> x in xs
    ensures forall j :: 0 <= j < |xs| ==> Numbering(xs, w)[xs[j]] == ZeroPad(j + 1, w)
  {
    NumberingKeys(xs, w);
    forall j | 0 <= j < |xs|
      ensures Numbering(xs, w)[xs[j]] == ZeroPad(j + 1, w)
    {
      NumberingIndex(xs, w, j);
    }
  }

  /** Numbering the distinct values gives each element its rank. */
  lemma NumberingRanks<T(!new)>(xs: seq<T>, w: nat)
    ensures forall i :: 0 <= i < |xs| ==>
              xs[i] in Numbering(Distinct(xs), w) && Numbering(Distinct(xs), w)[xs[i]] == ZeroPad(Rank(xs, i), w)
  {
    NumberingAt(Distinct(xs), w);
    forall i | 0 <= i < |xs|
      ensures xs[i] in Numbering(Distinct(xs), w) && Numbering(Distinct(xs), w)[xs[i]] == ZeroPad(Rank(xs, i), w)
    {
      assert xs[i] in xs;
    }
  }

  /** The numbering loop. */
  method BuildNumbering<T>(xs: seq<T>, w: nat) returns (m: map<T, string>)
    ensures m == Numbering(xs, w)
  {
    m := map[];
    var i := 0;
    while i < |xs|
      invariant 0 <= i <= |xs|
      invariant m == Numbering(xs[..i], w)
    {
      assert xs[..i + 1][..i] == xs[..i];
      m := m[xs[i] := ZeroPad(i + 1, w)];
      i := i + 1;
    }
    assert xs[..|xs|] == xs;
  }

  // ---------------------------------------------------------------------
  // _renumerar_cod_produto

  function Descriptions(rows: seq<Product>): seq<Option<Value>>
  {
    seq(|rows|, i requires 0 <= i < |rows| => Cell(rows[i], DESCRICAO))
  }

  /** Each row's COD_PRODUTO set to the code in the same position. */
  function WithProductCodes(rows: seq<Product>, codes: seq<string>): (r: seq<Product>)
    requires |codes| == |rows|
  {
    seq(|rows|, i requires 0 <= i < |rows| => rows[i][COD_PRODUTO := Str(codes[i])])
  }

  /** The rank of each description, written with six digits. */
  function RankCodes(ds: seq<Option<Value>>): (r: seq<string>)
  {
    seq(|ds|, i requires 0 <= i < |ds| => ZeroPad(Rank(ds, i), 6))
  }

  /** The frame after `_renumerar_cod_produto`: each row's COD_PRODUTO is the
      rank of its exact description, written with six digits. */
  function Renumbered(f: Frame): Frame
  {
    if DESCRICAO !in f.columns then f
    else Frame(f.columns + {COD_PRODUTO}, WithProductCodes(f.rows, RankCodes(Descriptions(f.rows))))
  }

  /** `_renumerar_cod_produto` */
  method RenumberProducts(f: Frame) returns (g: Frame)
    ensures g == Renumbered(f)
  {
    if DESCRICAO !in f.columns {
      return f;
    }
    var ds := Descriptions(f.rows);
    var uniq := Distinct(ds);
    var mapping := BuildNumbering(uniq, 6);
    NumberingRanks(ds, 6);
    var codes := seq(|ds|, i requires 0 <= i < |ds| => mapping[ds[i]]);
    assert codes == RankCodes(ds);
    g := Frame(f.columns + {COD_PRODUTO}, WithProductCodes(f.rows, codes));
  }

  /** The six-digit rank codes read back as the ranks, and two codes agree
      exactly when the descriptions do. */
  lemma RankCodesShape(ds: seq<Option<Value>>)
    ensures forall i :: 0 <= i < |ds| ==> DigitsToNat(RankCodes(ds)[i]) == Rank(ds, i) && |RankCodes(ds)[i]| >= 6
    ensures forall i, j :: 0 <= i < |ds| && 0 <= j < |ds| ==> (RankCodes(ds)[i] == RankCodes(ds)[j] <==> ds[i] == ds[j])
    ensures |ds| > 0 ==> RankCodes(ds)[0] == "000001"
  {
    var cs := RankCodes(ds);
    Ranks(ds);
    forall i | 0 <= i < |ds|
      ensures DigitsToNat(cs[i]) == Rank(ds, i) && |cs[i]| >= 6
    {
      ZeroPadValue(Rank(ds, i), 6);
    }
    forall i, j | 0 <= i < |ds| && 0 <= j < |ds|
      ensures cs[i] == cs[j] <==> ds[i] == ds[j]
    {
      if cs[i] == cs[j] {
        ZeroPadInjective(Rank(ds, i), Rank(ds, j), 6);
      }
    }
    if |ds| > 0 {
      assert ZeroPad(1, 6) == "000001";
    }
  }

  /** Product codes start at 000001 on every run, are shared exactly by rows
      with the same description, and grow in order of first appearance. */
  lemma ProductCodesFollowDescriptions(f: Frame)
    requires DESCRICAO in f.columns
    ensures var g := Renumbered(f);
            var ds := Descriptions(f.rows);
            forall i :: 0 <= i < |f.rows| ==> DigitsToNat(g.rows[i][COD_PRODUTO].s) == Rank(ds, i) && |g.rows[i][COD_PRODUTO].s| >= 6
    ensures var g := Renumbered(f);
            var ds := Descriptions(f.rows);
            forall i, j :: 0 <= i < |f.rows| && 0 <= j < |f.rows| ==> (g.rows[i][COD_PRODUTO] == g.rows[j][COD_PRODUTO] <==> ds[i] == ds[j])
    ensures |f.rows| > 0 ==> Renumbered(f).rows[0][COD_PRODUTO] == Str("000001")
    ensures var ds := Descriptions(f.rows);
            forall i, j :: 0 <= i < j < |f.rows| && ds[j] !in ds[..j] ==> Rank(ds, i) < Rank(ds, j)
  {
    var g := Renumbered(f);
    var ds := Descriptions(f.rows);
    var cs := RankCodes(ds);
    Ranks(ds);
    RankCodesShape(ds);
    assert forall i :: 0 <= i < |f.rows| ==> g.rows[i][COD_PRODUTO] == Str(cs[i]);
  }

  // ---------------------------------------------------------------------
  // _gerar_cod_cor

  /** Normalised colours that get no code. */
  const INVALID_COLORS: set<string> := {"", "NAN", "NONE", "NULL"}

  predicate ValidColor(c: string) { c !in INVALID_COLORS }

  /** `astype(str).str.strip().str.upper()` of the COR cell. */
  function ColorOf(p: Product): string
  {
    Upper(Trim(CellText(Cell(p, COR))))
  }

  function Colors(rows: seq<Product>): seq<string>
  {
    seq(|rows|, i requires 0 <= i < |rows| => ColorOf(rows[i]))
  }

  /** `cores_unicas`: the distinct valid colours in increasing order. */
  function Palette(rows: seq<Product>): seq<string>
  {
    SortedDistinct(Keep(Colors(rows), ValidColor))
  }

  /** A colour's code: its place in the palette from 1, with three digits;
      "" for a colour outside the palette. */
  function ColorCode(palette: seq<string>, c: string): (r: string)
    ensures AllDigits(r)
  {
    if c in palette then ZeroPad(IndexOf(palette, c) + 1, 3) else ""
  }

  /** The frame after `_gerar_cod_cor`. */
  function Recolored(f: Frame): Frame
  {
    if COR !in f.columns then f
    else
      var palette := Palette(f.rows);
      Frame(f.columns + {COD_COR},
            seq(|f.rows|, i requires 0 <= i < |f.rows| =>
              f.rows[i][COR := Str(ColorOf(f.rows[i]))][COD_COR := Str(ColorCode(palette, ColorOf(f.rows[i])))]))
  }

  /** Looking a colour up in the numbered palette gives its code. */
  lemma NumberedColor(palette: seq<string>, c: string)
    requires NoDup(palette)
    ensures (if c in Numbering(palette, 3) then Numbering(palette, 3)[c] else "") == ColorCode(palette, c)
  {
    NumberingAt(palette, 3);
    if c in palette {
      var j := IndexOf(palette, c);
      assert palette[j] == c;
    }
  }

  /** `_gerar_cod_cor` */
  method GenerateColorCodes(f: Frame) returns (g: Frame)
    ensures g == Recolored(f)
  {
    if COR !in f.columns {
      return f;
    }
    var colors := Colors(f.rows);
    var palette := SortedDistinct(Keep(colors, ValidColor));
    var table := BuildNumbering(palette, 3);
    StrictlySortedNoDup(palette);
    var rows := seq(|f.rows|, i requires 0 <= i < |f.rows| =>
                  f.rows[i][COR := Str(colors[i])][COD_COR := Str(if colors[i] in table then table[colors[i]] else "")]);
    forall i | 0 <= i < |f.rows|
      ensures rows[i] == Recolored(f).rows[i]
    {
      NumberedColor(palette, colors[i]);
    }
    g := Frame(f.columns + {COD_COR}, rows);
  }

  /** A colour has a code exactly when it is in the palette; the code reads
      back as its place from 1. */
  lemma ColorCodeShape(palette: seq<string>, c: string)
    ensures ColorCode(palette, c) != "" <==> c in palette
    ensures c in palette ==> |ColorCode(palette, c)| >= 3
                             && DigitsToNat(ColorCode(palette, c)) == IndexOf(palette, c) + 1
                             && 1 <= DigitsToNat(ColorCode(palette, c)) <= |palette|
  {
    if c in palette {
      ZeroPadValue(IndexOf(palette, c) + 1, 3);
    }
  }

  /** In a strictly sorted palette, codes are shared only by equal colours
      and follow the order of the colours. */
  lemma ColorCodeOrder(palette: seq<string>, a: string, b: string)
    requires StrictlySorted(palette) && a in palette && b in palette
    ensures ColorCode(palette, a) == ColorCode(palette, b) <==> a == b
    ensures Less(a, b) <==> DigitsToNat(ColorCode(palette, a)) < DigitsToNat(ColorCode(palette, b))
  {
    StrictlySortedNoDup(palette);
    ColorCodeShape(palette, a);
    ColorCodeShape(palette, b);
    SortedPositions(palette, a, b);
    IndexOfNoDup(palette, a, b);
  }

  /** A row's colour is in the palette exactly when it is valid. */
  lemma PaletteHolds(rows: seq<Product>, i: nat)
    requires i < |rows|
    ensures ColorOf(rows[i]) in Palette(rows) <==> ValidColor(ColorOf(rows[i]))
  {
    var colors := Colors(rows);
    assert ColorOf(rows[i]) == colors[i];
    KeepMembers(colors, ValidColor);
  }

  /** Every valid colour has a code and no invalid one has; equal colours
      share a code, different valid colours have different codes, and codes
      follow the order of the colours. */
  lemma ColorCodesFollowColors(f: Frame, i: nat, j: nat)
    requires COR in f.columns && i < |f.rows| && j < |f.rows|
    ensures var palette, g := Palette(f.rows), Recolored(f);
            g.rows[i][COR] == Str(ColorOf(f.rows[i]))
            && g.rows[i][COD_COR] == Str(ColorCode(palette, ColorOf(f.rows[i])))
            && g.rows[j][COD_COR] == Str(ColorCode(palette, ColorOf(f.rows[j])))
    ensures var ci, cj := ColorOf(f.rows[i]), ColorOf(f.rows[j]);
            var ki, kj := ColorCode(Palette(f.rows), ci), ColorCode(Palette(f.rows), cj);
            (ki != "" <==> ValidColor(ci))
            && (ValidColor(ci) ==> |ki| >= 3 && 1 <= DigitsToNat(ki) <= |Palette(f.rows)|)
            && (ValidColor(ci) && ValidColor(cj) ==> (ki == kj <==> ci == cj))
            && (ValidColor(ci) && ValidColor(cj) ==> (Less(ci, cj) <==> DigitsToNat(ki) < DigitsToNat(kj)))
  {
    var palette := Palette(f.rows);
    var ci, cj := ColorOf(f.rows[i]), ColorOf(f.rows[j]);
    PaletteHolds(f.rows, i);
    PaletteHolds(f.rows, j);
    ColorCodeShape(palette, ci);
    if ValidColor(ci) && ValidColor(cj) {
      ColorCodeOrder(palette, ci, cj);
    }
  }

  /** A row without a COR cell keeps the text "NAN" there and gets no code. */
  lemma MissingColorStaysNan(f: Frame, i: nat)
    requires COR in f.columns && i < |f.rows| && Cell(f.rows[i], COR).None?
    ensures Recolored(f).rows[i][COR] == Str("NAN") && Recolored(f).rows[i][COD_COR] == Str("")
  {
    TrimNoop("nan");
    assert Upper("nan") == "NAN";
  }

  // ---------------------------------------------------------------------
  // _corrigir_valores

  /** The columns written in Brazilian notation. */
  const NUMERIC_COLUMNS: set<string> := {"CUSTO", "PRECO1", "PRECO2", "PRECO3", "PRECO4", "PRECO5",
    "PESO", "ALTURA", "LARGURA", "PROFUNDIDADE", "COMPRIMENTO", "QTDE_MAX_VENDA", "FATOR_CA", "FATOR_AU"}

  /** The texts of `invalidos`, after stripping. */
  const INVALID_TEXTS: set<string> := {"", "NaN", "nan", "undefined", "null", "NULL", "None"}

  /** `pd.isna(v) or str(v).strip() in invalidos` */
  predicate InvalidCell(c: Option<Value>)
  {
    c.None? || c.value == Null || Trim(Shown(c.value)) in INVALID_TEXTS
  }

  /** `valores_padrao.get(col, '')` */
  function DefaultOf(defaults: map<string, string>, col: string): string
  {
    if col in defaults then defaults[col] else ""
  }

  /** One corrected cell: the default for an invalid cell, the Brazilian
      notation in a numeric column, `str(v)` elsewhere. */
  function FixCell(col: string, c: Option<Value>, dflt: string): Value
  {
    if InvalidCell(c) then Str(dflt)
    else if col in NUMERIC_COLUMNS then FormatBR(c.value)
    else Str(Shown(c.value))
  }

  /** A column of the result: a column missing from the frame is first filled
      with its default in every row, and then corrected like the others. */
  function CorrectedColumn(f: Frame, col: string, defaults: map<string, string>): (r: seq<Value>)
    ensures |r| == |f.rows|
  {
    var d := DefaultOf(defaults, col);
    seq(|f.rows|, i requires 0 <= i < |f.rows| =>
      FixCell(col, if col in f.columns then Cell(f.rows[i], col) else Some(Str(d)), d))
  }

  /** `df[col].apply(...)` raises: the column is in the frame (a filled-in
      column holds only its default text) and some row holds a list of two
      or more items there, whose `pd.isna` cannot be tested for truth. */
  predicate ColumnRaises(f: Frame, col: string)
  {
    col in f.columns && exists i :: 0 <= i < |f.rows| && ManyItems(Cell(f.rows[i], col))
  }

  /** Some template column raises. */
  predicate CorrectionRaises(f: Frame, columns: seq<string>)
  {
    exists j :: 0 <= j < |columns| && ColumnRaises(f, columns[j])
  }

  /** The `apply` over one column, as far as raising goes. */
  method ApplyRaises(f: Frame, col: string) returns (raises: bool)
    ensures raises <==> ColumnRaises(f, col)
  {
    if col !in f.columns {
      return false;
    }
    var i := 0;
    while i < |f.rows|
      invariant 0 <= i <= |f.rows|
      invariant forall k :: 0 <= k < i ==> !ManyItems(Cell(f.rows[k], col))
    {
      if ManyItems(Cell(f.rows[i], col)) {
        return true;
      }
      i := i + 1;
    }
    return false;
  }

  /** `_corrigir_valores`: the result's columns are the template's, in the
      template's order; no table when the correction of a column raises. */
  method CorrectValues(f: Frame, columns: seq<string>, defaults: map<string, string>)
    returns (table: Option<seq<seq<Value>>>)
    ensures table.None? <==> CorrectionRaises(f, columns)
    ensures table.Some? ==> |table.value| == |columns|
    ensures table.Some? ==> forall j :: 0 <= j < |columns| ==> table.value[j] == CorrectedColumn(f, columns[j], defaults)
  {
    var done: seq<seq<Value>> := [];
    for j := 0 to |columns|
      invariant |done| == j
      invariant forall k :: 0 <= k < j ==> !ColumnRaises(f, columns[k])
      invariant forall k :: 0 <= k < j ==> done[k] == CorrectedColumn(f, columns[k], defaults)
    {
      var raises := ApplyRaises(f, columns[j]);
      if raises {
        return None;
      }
      done := done + [CorrectedColumn(f, columns[j], defaults)];
    }
    table := Some(done);
  }

  /** Text before and after a comma, trimmed at both ends. */
  lemma CommaJoined(a: string, b: string)
    requires |a| > 0 && !IsSpace(a[0]) && |b| == 2 && IsDigit(b[1])
    ensures var x := a + "," + b;
            |x| >= 4 && !IsSpace(x[0]) && !IsSpace(x[|x| - 1]) && ',' in x
  {
    var x := a + "," + b;
    assert x[|a|] == ',';
    assert x[|x| - 1] == b[1];
  }

  /** The Brazilian text of a number has no whitespace at its ends and holds
      a comma. */
  lemma BrazilianTextShape(d: Decimal)
    ensures var x := BrazilianText(d);
            |x| >= 4 && !IsSpace(x[0]) && !IsSpace(x[|x| - 1]) && ',' in x
  {
    var unit := Pow10(d.scale);
    DivisionBounds(d.mantissa, unit);
    var whole := d.mantissa / unit;
    var frac := d.mantissa % unit;
    ThousandsEnds(whole);
    if d.negative {
      var head := if whole == 0 then "0" else "-" + Thousands(whole);
      assert BrazilianText(d) == head + "," + "00";
      CommaJoined(head, "00");
    } else {
      var tail := if frac > 0 then ZeroPad(RoundToCents(Decimal(false, frac, d.scale)) % 100, 2) else "00";
      if frac > 0 {
        TwoDigitPad(RoundToCents(Decimal(false, frac, d.scale)) % 100);
      }
      assert BrazilianText(d) == Thousands(whole) + "," + tail;
      CommaJoined(Thousands(whole), tail);
    }
  }

  /** Text holding a comma, with nothing to trim, is none of the invalid
      texts. */
  lemma CommaTextValid(x: string)
    requires |x| >= 4 && !IsSpace(x[0]) && !IsSpace(x[|x| - 1]) && ',' in x
    ensures Trim(x) !in INVALID_TEXTS
  {
    TrimNoop(x);
  }

  /** The Brazilian notation of a valid cell is valid. */
  lemma FormatBRValid(v: Value)
    requires !InvalidCell(Some(v))
    ensures FormatBR(v) != Null && !InvalidCell(Some(FormatBR(v)))
  {
    if v.Str? && ParseFloat(v.s).Some? {
      var x := BrazilianText(ParseFloat(v.s).value);
      assert FormatBR(v) == Str(x);
      BrazilianTextShape(ParseFloat(v.s).value);
      CommaTextValid(x);
    }
  }

  /** What one corrected cell can be. */
  lemma FixCellClean(col: string, c: Option<Value>, d: string)
    ensures var r := FixCell(col, c, d);
            r != Null
            && (InvalidCell(Some(r)) ==> r == Str(d))
            && (col !in NUMERIC_COLUMNS ==> r.Str?)
  {
    if !InvalidCell(c) {
      if col in NUMERIC_COLUMNS {
        FormatBRValid(c.value);
      } else {
        assert Shown(Str(Shown(c.value))) == Shown(c.value);
      }
    }
  }

  /** Nothing invalid survives the correction except a default that is
      itself invalid, None never survives, and text columns hold text. */
  lemma CorrectedCellsClean(f: Frame, col: string, defaults: map<string, string>, i: nat)
    requires i < |f.rows|
    ensures var r := CorrectedColumn(f, col, defaults)[i];
            r != Null
            && (InvalidCell(Some(r)) ==> r == Str(DefaultOf(defaults, col)))
            && (col !in NUMERIC_COLUMNS ==> r.Str?)
  {
    var d := DefaultOf(defaults, col);
    var c := if col in f.columns then Cell(f.rows[i], col) else Some(Str(d));
    assert CorrectedColumn(f, col, defaults)[i] == FixCell(col, c, d);
    FixCellClean(col, c, d);
  }

  /** A valid non-negative number with at most two decimals in a numeric
      column comes out in Brazilian notation and reads back as the same
      amount. */
  lemma CorrectedNumberReadsBack(f: Frame, col: string, defaults: map<string, string>, i: nat)
    requires i < |f.rows| && col in f.columns && col in NUMERIC_COLUMNS
    requires Cell(f.rows[i], col).Some? && Cell(f.rows[i], col).value.Str?
    requires !InvalidCell(Cell(f.rows[i], col))
    requires var s := Cell(f.rows[i], col).value.s;
             ParseFloat(s).Some? && !ParseFloat(s).value.negative && ParseFloat(s).value.scale <= 2
    ensures var s := Cell(f.rows[i], col).value.s;
            var c := RoundToCents(ParseFloat(s).value);
            CorrectedColumn(f, col, defaults)[i] == Str(Thousands(c / 100) + "," + ZeroPad(c % 100, 2))
            && PriceNumber(Some(CorrectedColumn(f, col, defaults)[i])).Some?
            && PriceNumber(Some(CorrectedColumn(f, col, defaults)[i])).value == Decimal(false, c, 2)
  {
    var s := Cell(f.rows[i], col).value.s;
    FormatBRTwoDecimals(s);
    FormatBRReadsBack(s);
  }

  // ---------------------------------------------------------------------
  // processar

  /** The table `processar` writes, starting from the given cache, or `None`
      when a stage raises. */
  ghost function Translated(cache: map<string, string>, docs: seq<JsonDoc>, columns: seq<string>,
                            defaults: map<string, string>): Option<seq<seq<Value>>>
  {
    var f0 := ReadFrame(docs);
    var f1 := FiscalFrame(f0, UpdatedCache(cache, f0));
    match FilterInvalid(f1)
    case None => None
    case Some(f2) =>
      var f4 := Recolored(Renumbered(f2));
      if CorrectionRaises(f4, columns) then None
      else Some(seq(|columns|, j requires 0 <= j < |columns| => CorrectedColumn(f4, columns[j], defaults)))
  }

  /** A CUSTO holding a list of two or more items in any JSON row leaves no
      table: the NCM stage keeps the cell and the price test raises on it. */
  lemma ListCostNoTable(cache: map<string, string>, docs: seq<JsonDoc>, columns: seq<string>,
                        defaults: map<string, string>, i: nat)
    requires DESCRICAO in ReadFrame(docs).columns && i < |ReadFrame(docs).rows|
    requires ManyItems(Cell(ReadFrame(docs).rows[i], CUSTO))
    ensures Translated(cache, docs, columns, defaults).None?
  {
    var f0 := ReadFrame(docs);
    var f1 := FiscalFrame(f0, UpdatedCache(cache, f0));
    if CLASSIFICACAO_FIS in f0.columns {
      assert f1.rows[i] == FiscalRow(f0.rows[i], UpdatedCache(cache, f0));
      assert Cell(f1.rows[i], CUSTO) == Cell(f0.rows[i], CUSTO);
    }
    ListPriceFails(f1, i);
  }

  /** The translator and its NCM cache (read from and written to
      `cache/ncm_codes.json` by the caller). */
  class FinalTranslator {
    var ncmCache: map<string, string>

    constructor(cache: map<string, string>)
      ensures ncmCache == cache
    {
      ncmCache := cache;
    }

    /** `max(int(v) for v in cache.values() if v.isdigit()) + 1`, or 1. */
    static method NextFree(cache: map<string, string>) returns (n: nat)
      ensures n == NextFreeCode(cache)
      ensures forall x :: x in CodeNumbersOf(cache) ==> x < n
    {
      var found := false;
      var m := 0;
      var rest := cache.Keys;
      ghost var seen: set<nat> := {};
      while rest != {}
        invariant rest <= cache.Keys
        invariant forall k :: k in cache && k !in rest && IsNumeral(cache[k]) ==> DigitsToNat(cache[k]) in seen
        invariant seen <= CodeNumbersOf(cache)
        invariant found <==> seen != {}
        invariant forall x :: x in seen ==> x <= m
        invariant found ==> m in seen
        invariant !found ==> m == 0
        decreases rest
      {
        var k :| k in rest;
        var v := cache[k];
        if IsNumeral(v) {
          var c := DigitsToNat(v);
          if !found || c > m {
            m := c;
          }
          found := true;
          seen := seen + {c};
        }
        rest := rest - {k};
      }
      assert seen == CodeNumbersOf(cache);
      var top := MaxOf(seen);
      if found {
        assert top <= m && m <= top;
      }
      n := if found then m + 1 else 1;
    }

    /** The loop over `ncms_unicos`: each NCM not cached yet is added with
        the next code; `added` counts them. */
    method AssignCodes(uniq: seq<string>, start: nat) returns (added: nat)
      modifies this
      ensures ncmCache == AssignFrom(old(ncmCache), uniq, start).0
      ensures start + added == AssignFrom(old(ncmCache), uniq, start).1
    {
      ghost var cache0 := ncmCache;
      var next := start;
      added := 0;
      var i := 0;
      while i < |uniq|
        invariant 0 <= i <= |uniq|
        invariant AssignFrom(ncmCache, uniq[i..], next) == AssignFrom(cache0, uniq, start)
        invariant next == start + added
      {
        var ncm := uniq[i];
        assert uniq[i..][1..] == uniq[i + 1..];
        if ncm !in ncmCache {
          ncmCache := ncmCache[ncm := ZeroPad(next, 4)];
          next := next + 1;
          added := added + 1;
        }
        i := i + 1;
      }
    }

    /** `_gerar_cod_classificacao_fis`; `saved` tells whether the cache file
        is written, that is whether any NCM was new. */
    method GenerateFiscalCodes(f: Frame) returns (g: Frame, saved: bool)
      modifies this
      ensures ncmCache == UpdatedCache(old(ncmCache), f)
      ensures g == FiscalFrame(f, ncmCache)
      ensures saved <==> CLASSIFICACAO_FIS in f.columns && NewNcms(old(ncmCache), f.rows) != []
    {
      if CLASSIFICACAO_FIS !in f.columns {
        return f, false;
      }
      var uniq := NcmCandidates(f.rows);
      var next := NextFree(ncmCache);
      ghost var cache0 := ncmCache;
      var added := AssignCodes(uniq, next);
      CandidatesNoDup(f.rows);
      AssignFromFresh(cache0, uniq, next);
      g := FiscalFrame(f, ncmCache);
      saved := added > 0;
    }

    /** `processar`: the output name and the final table, or no table when
        there is no JSON file or a stage raises. */
    method Process(docs: seq<JsonDoc>, files: seq<string>, columns: seq<string>, defaults: map<string, string>)
      returns (name: Option<string>, table: Option<seq<seq<Value>>>)
      modifies this
      ensures name == OutputName(files)
      ensures name.None? ==> table.None? && ncmCache == old(ncmCache)
      ensures name.Some? ==> ncmCache == UpdatedCache(old(ncmCache), ReadFrame(docs))
      ensures name.Some? ==> table == Translated(old(ncmCache), docs, columns, defaults)
    {
      name := OutputName(files);
      if name.None? {
        return name, None;
      }
      var f0 := ReadFrame(docs);
      var f1, _ := GenerateFiscalCodes(f0);
      var filtered := FilterInvalid(f1);
      if filtered.None? {
        return name, None;
      }
      var f3 := RenumberProducts(filtered.value);
      var f4 := GenerateColorCodes(f3);
      table := CorrectValues(f4, columns, defaults);
      if table.Some? {
        assert table.value == seq(|columns|, j requires 0 <= j < |columns| => CorrectedColumn(f4, columns[j], defaults));
      }
    }
  }
}
