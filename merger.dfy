// The merge stage (MOTOR/mescladorJSON.py, and the older mescladorJSON.py whose
// functions of the same name do the same): the extracted cost and sale records
// of one supplier are expanded per colour, joined on a key built from their
// description, colour and configured extra fields, given product codes,
// upper-cased and stripped of empty fields.
module Merger {
  import opened Wrappers
  import opened Text
  import opened Split
  import opened Numerals
  import opened Order
  import opened Catalog
  import opened ConfigResolver

  // ---------------------------------------------------------------------
  // The role of a data file

  /** `normalizar_nome_arquivo`: the stem, lower-cased, letters and digits only. */
  function FileKey(name: string): (r: string)
    ensures forall i :: 0 <= i < |r| ==> IsDigit(r[i]) || IsLower(r[i])
  {
    FilterKeeps(Lower(Stem(name)), IsAlnum);
    assert forall c :: c in Lower(Stem(name)) ==> !IsUpper(c);
    Filter(Lower(Stem(name)), IsAlnum)
  }

  /** A configured spreadsheet path and a data file name contain one another
      once both are reduced to their keys. */
  predicate PathMatches(e: FileEntry, key: string)
  {
    e.path.Some? &&
    var declared := FileKey(Stem(e.path.value));
    Contains(key, declared) || Contains(declared, key)
  }

  /** `identificar_tipo_arquivo`: the role of the first configured file that
      matches, and none when there is no configuration or nothing matches. */
  function IdentifyFileRole(name: string, config: Option<Config>): (r: Option<Role>)
    ensures r.Some? <==>
      config.Some? && exists k :: 0 <= k < |config.value.files| && PathMatches(config.value.files[k], FileKey(name))
    ensures r.Some? ==>
      exists k ::
        && 0 <= k < |config.value.files|
        && config.value.files[k].role == r.value
        && PathMatches(config.value.files[k], FileKey(name))
        && (forall j :: 0 <= j < k ==> !PathMatches(config.value.files[j], FileKey(name)))
  {
    match config
    case None => None
    case Some(c) =>
      match FirstWhere(c.files, (e: FileEntry) => PathMatches(e, FileKey(name)))
      case Some(k) => Some(c.files[k].role)
      case None => None
  }

  // ---------------------------------------------------------------------
  // Normalised product names

  /** `normalizar_nome_produto`: lists become "", `None` prints as "None", and
      text is lower-cased, trimmed and has its whitespace runs made one space. */
  function NormalizeProductName(v: Value): string
  {
    var s := match v
      case Str(s) => s
      case Null => "None"
      case _ => "";
    CollapseSpaces(Trim(Lower(s)))
  }

  /** Lower-casing, trimming and collapsing leave no upper-case letter, no
      whitespace at either end and no whitespace but single spaces. */
  lemma NormalizedShape(s: string)
    ensures var n := CollapseSpaces(Trim(Lower(s)));
      && Collapsed(n) && NoUpper(n)
      && (n == [] || (!IsSpace(n[0]) && !IsSpace(n[|n| - 1])))
  {
    var t := Trim(Lower(s));
    var n := CollapseSpaces(t);
    CollapseCollapsed(t);
    assert NoUpper(n) by {
      LowerNoUpper(s);
      TrimChars(Lower(s));
      CollapseChars(t);
      forall i | 0 <= i < |n|
        ensures !IsUpper(n[i])
      {
        if n[i] != ' ' {
          var j :| 0 <= j < |t| && t[j] == n[i];
          var k :| 0 <= k < |Lower(s)| && Lower(s)[k] == t[j];
        }
      }
    }
    assert n == [] || (!IsSpace(n[0]) && !IsSpace(n[|n| - 1])) by {
      TrimEnds(Lower(s));
      CollapseNoSpaces(t);
      if t != [] {
        CollapseLast(t);
      }
    }
  }

  /** A normalised name has no upper-case letter, no whitespace at either end
      and no whitespace but single spaces, so normalising it again changes
      nothing. */
  lemma NormalizeProductNameIdempotent(v: Value)
    ensures var n := NormalizeProductName(v);
      && Collapsed(n) && NoUpper(n)
      && (n == [] || (!IsSpace(n[0]) && !IsSpace(n[|n| - 1])))
      && NormalizeProductName(Str(n)) == n
  {
    var s := match v
      case Str(s) => s
      case Null => "None"
      case _ => "";
    var n := CollapseSpaces(Trim(Lower(s)));
    assert n == NormalizeProductName(v);
    NormalizedShape(s);
    LowerNoop(n);
    TrimNoop(n);
    CollapsedNoop(n);
  }

  // ---------------------------------------------------------------------
  // Prices

  predicate NumberChar(c: char) { IsDigit(c) || c == ',' || c == '.' }

  /** `formatar_valor` on text: "" stays ""; otherwise everything but digits,
      ',' and '.' is dropped, ',' becomes '.', and a number that `float()`
      reads is written back with two decimals; anything else is returned as
      it came. */
  function FormatValue(s: string): (r: string)
    ensures s == "" ==> r == ""
  {
    if s == "" then ""
    else
      var cleaned := ReplaceChar(Filter(s, NumberChar), ',', '.');
      match ParseUnsigned(cleaned)
      case Some(d) => FixedTwo(RoundToCents(d))
      case None => s
  }

  /** `formatar_valor` on a field value: falsy values become "", text is
      formatted as above, other values are left as they are. */
  function FormatField(v: Value): (r: Value)
    ensures !v.Truthy() ==> r == Str("")
    ensures v.Str? ==> r == Str(FormatValue(v.s))
  {
    if !v.Truthy() then Str("")
    else match v
      case Str(s) => Str(FormatValue(s))
      case _ => v
  }

  /** A formatted price is either the input unchanged or a number with exactly
      two decimals, and formatting it again changes nothing. */
  lemma FormatValueShape(s: string)
    ensures FormatValue(s) == s || exists c: nat :: FormatValue(s) == FixedTwo(c)
    ensures FormatValue(FormatValue(s)) == FormatValue(s)
  {
    if s != "" {
      var cleaned := ReplaceChar(Filter(s, NumberChar), ',', '.');
      match ParseUnsigned(cleaned)
      case Some(d) =>
        FormatFixedTwo(RoundToCents(d));
      case None =>
    }
  }

  /** Two-decimal text holds only digits and a point. */
  lemma FixedTwoChars(c: nat)
    ensures forall i :: 0 <= i < |FixedTwo(c)| ==> NumberChar(FixedTwo(c)[i]) && FixedTwo(c)[i] != ','
  {
    var a := NatToString(c / 100);
    var b := ZeroPad(c % 100, 2);
    TwoDigitPad(c % 100);
    assert FixedTwo(c) == a + "." + b;
  }

  /** Text of digits, points and signs passes the cleaning unchanged. */
  lemma CleanNumberText(s: string)
    requires forall i :: 0 <= i < |s| ==> NumberChar(s[i]) && s[i] != ','
    ensures ReplaceChar(Filter(s, NumberChar), ',', '.') == s
  {
    FilterAllKept(s, NumberChar);
    assert ReplaceChar(s, ',', '.') == s;
  }

  /** A two-decimal number is a fixed point of the price formatter. */
  lemma FormatFixedTwo(c: nat)
    ensures FormatValue(FixedTwo(c)) == FixedTwo(c)
  {
    FixedTwoChars(c);
    CleanNumberText(FixedTwo(c));
    FixedTwoParses(c);
  }

  /** Digits pass the cleaning of `formatar_valor` unchanged. */
  lemma CleanDigits(s: string)
    requires AllDigits(s)
    ensures ReplaceChar(Filter(s, NumberChar), ',', '.') == s
  {
    FilterAllKept(s, NumberChar);
    assert ReplaceChar(s, ',', '.') == s;
  }

  /** Plain digits gain two zero decimals ("12" is written "12.00"). */
  lemma FormatWholeNumber(n: nat)
    ensures FormatValue(NatToString(n)) == FixedTwo(n * 100)
  {
    var s := NatToString(n);
    CleanDigits(s);
    ParseDigits(s);
    NatToStringRoundTrip(n);
    assert Pow10(2) == 100 by {
      assert Pow10(0) == 1;
      assert Pow10(1) == 10;
    }
    assert RoundToCents(Decimal(false, n, 0)) == n * 100;
    assert FormatValue(s) == FixedTwo(RoundToCents(Decimal(false, n, 0)));
  }

  /** Digits have no comma and no point. */
  lemma DigitsNoSeparators(a: string)
    requires AllDigits(a)
    ensures forall i :: 0 <= i < |a| ==> a[i] != ',' && a[i] != '.' && NumberChar(a[i])
  {
  }

  /** A decimal comma is read as a decimal point: digits, ',' and digits are
      written as that number with two decimals ("10,5" is written "10.50"). */
  lemma FormatDecimalComma(s: string, a: string, b: string)
    requires AllDigits(a) && AllDigits(b) && |a| + |b| > 0 && s == a + "," + b
    ensures AllDigits(a + b)
    ensures FormatValue(s) == FixedTwo(RoundToCents(Decimal(false, DigitsToNat(a + b), |b|)))
  {
    var y := a + "." + b;
    DigitsNoSeparators(a);
    DigitsNoSeparators(b);
    assert forall i :: 0 <= i < |s| ==> NumberChar(s[i]);
    FilterAllKept(s, NumberChar);
    assert ReplaceChar(s, ',', '.') == y;
    ParsePointed(y, a, b);
  }

  /** Thousands separators make the text unreadable once its comma becomes a
      point, so text such as "1.234,56" is kept as it is. */
  lemma FormatThousandsUnchanged(s: string, a: string, b: string, c: string)
    requires AllDigits(a) && AllDigits(b) && AllDigits(c) && s == a + "." + b + "," + c
    ensures FormatValue(s) == s
  {
    ThousandsCleaned(s, a, b, c);
    ThreePieces(a, b, c);
  }

  lemma ThousandsCleaned(s: string, a: string, b: string, c: string)
    requires AllDigits(a) && AllDigits(b) && AllDigits(c) && s == a + "." + b + "," + c
    ensures ReplaceChar(Filter(s, NumberChar), ',', '.') == a + "." + (b + "." + c)
  {
    var y := a + "." + (b + "." + c);
    var m := |a| + 1 + |b|;
    DigitsNoSeparators(a);
    DigitsNoSeparators(b);
    DigitsNoSeparators(c);
    assert |s| == |y|;
    forall i | 0 <= i < |s|
      ensures NumberChar(s[i]) && ReplaceChar(s, ',', '.')[i] == y[i]
    {
      if i < |a| {
        assert s[i] == a[i] == y[i];
      } else if i == |a| {
        assert s[i] == '.' == y[i];
      } else if i < m {
        assert s[i] == b[i - |a| - 1] == y[i];
      } else if i == m {
        assert s[i] == ',' && y[i] == '.';
      } else {
        assert s[i] == c[i - m - 1] == y[i];
      }
    }
    FilterAllKept(s, NumberChar);
  }

  lemma ThreePieces(a: string, b: string, c: string)
    requires AllDigits(a) && AllDigits(b) && AllDigits(c)
    ensures |SplitOn(a + "." + (b + "." + c), ".")| == 3
  {
    var t := b + "." + c;
    DigitsNoSeparators(a);
    DigitsNoSeparators(b);
    DigitsNoSeparators(c);
    NoMatchOfAbsentChar(a, "." + t, '.', |a|);
    assert a + ("." + t) == a + "." + t;
    SplitPiece(a, t, ".");
    NoMatchOfAbsentChar(b, "." + c, '.', |b|);
    assert b + ("." + c) == t;
    SplitPiece(b, c, ".");
    NoMatchOfAbsentChar(c, "", '.', |c|);
    assert c + "" == c;
    SplitWhole(c, ".");
  }

  // ---------------------------------------------------------------------
  // One record per colour

  /** The field a colour's price goes to in a file of the given role. */
  function PriceField(role: Role): string
  {
    match role
    case Custo => CUSTO
    case Venda => PRECO1
  }

  /** COR holds a non-empty list of colour variations. */
  predicate HasColorList(p: Product)
  {
    COR in p && p[COR].Colors? && p[COR].variations != []
  }

  /** The copy of a record for one of its colours. */
  function Variant(p: Product, v: Variation, role: Role): (r: Product)
    ensures !HasColorList(r)
  {
    p[COR := Str(v.nomeCor)][PriceField(role) := Str(FormatValue(v.preco))]
  }

  /** The number of records a record expands to. */
  function VariantCount(p: Product): nat
  {
    if HasColorList(p) then |p[COR].variations| else 1
  }

  /** The records one record expands to: a copy per colour, in list order, or
      the record itself.  A copy's COR is its colour's name and its price field
      the colour's formatted price; every other field is the record's own. */
  function Expanded(p: Product, role: Role): (r: seq<Product>)
    ensures |r| == VariantCount(p) >= 1
    ensures !HasColorList(p) ==> r == [p]
    ensures HasColorList(p) ==> forall i :: 0 <= i < |r| ==>
      && !HasColorList(r[i])
      && r[i].Keys == p.Keys + {PriceField(role)}
      && r[i][COR] == Str(p[COR].variations[i].nomeCor)
      && r[i][PriceField(role)] == Str(FormatValue(p[COR].variations[i].preco))
      && (forall k :: k in p && k != COR && k != PriceField(role) ==> r[i][k] == p[k])
  {
    if HasColorList(p) then Variants(p, p[COR].variations, role) else [p]
  }

  /** A copy of the record per colour of `vs`, in order. */
  function Variants(p: Product, vs: seq<Variation>, role: Role): seq<Product>
  {
    seq(|vs|, i requires 0 <= i < |vs| => Variant(p, vs[i], role))
  }

  /** `expandir_variacoes_cores` as a whole: each record's expansion, in order. */
  function ExpandAll(ps: seq<Product>, role: Role): seq<Product>
    decreases |ps|
  {
    if ps == [] then [] else ExpandAll(ps[..|ps| - 1], role) + Expanded(ps[|ps| - 1], role)
  }

  /** The inner loop of `expandir_variacoes_cores`: the copies of one record. */
  method ExpandRecord(p: Product, role: Role) returns (copies: seq<Product>)
    ensures copies == Expanded(p, role)
  {
    if COR in p && p[COR].Colors? && p[COR].variations != [] {
      var vs := p[COR].variations;
      copies := [];
      var j := 0;
      ghost var all := Variants(p, vs, role);
      while j < |vs|
        invariant j <= |vs|
        invariant copies == all[..j]
      {
        var copy := p[COR := Str(vs[j].nomeCor)];
        match role {
          case Custo => copy := copy[CUSTO := Str(FormatValue(vs[j].preco))];
          case Venda => copy := copy[PRECO1 := Str(FormatValue(vs[j].preco))];
        }
        assert copy == all[j];
        PrefixSnoc(all, j);
        copies := copies + [copy];
        j := j + 1;
      }
      assert all[..|vs|] == all;
    } else {
      copies := [p];
    }
  }

  /** `expandir_variacoes_cores`: every record's copies, in order. */
  method ExpandColors(ps: seq<Product>, role: Role) returns (out: seq<Product>)
    ensures out == ExpandAll(ps, role)
  {
    out := [];
    var i := 0;
    while i < |ps|
      invariant i <= |ps|
      invariant out == ExpandAll(ps[..i], role)
    {
      var copies := ExpandRecord(ps[i], role);
      assert ps[..i + 1][..i] == ps[..i];
      out := out + copies;
      i := i + 1;
    }
    assert ps[..i] == ps;
  }

  function TotalVariants(ps: seq<Product>): nat
    decreases |ps|
  {
    if ps == [] then 0 else TotalVariants(ps[..|ps| - 1]) + VariantCount(ps[|ps| - 1])
  }

  /** Expansion makes as many records as there are colours (one for a record
      without colours). */
  lemma {:induction false} ExpandAllCount(ps: seq<Product>, role: Role)
    ensures |ExpandAll(ps, role)| == TotalVariants(ps)
    ensures |ExpandAll(ps, role)| >= |ps|
    decreases |ps|
  {
    if ps != [] {
      ExpandAllCount(ps[..|ps| - 1], role);
    }
  }

  /** No expanded record still holds a colour list. */
  lemma {:induction false} ExpandAllFlat(ps: seq<Product>, role: Role)
    ensures forall i :: 0 <= i < |ExpandAll(ps, role)| ==> !HasColorList(ExpandAll(ps, role)[i])
    decreases |ps|
  {
    if ps != [] {
      ExpandAllFlat(ps[..|ps| - 1], role);
      var e := Expanded(ps[|ps| - 1], role);
      if HasColorList(ps[|ps| - 1]) {
        assert forall i :: 0 <= i < |e| ==> !HasColorList(e[i]);
      }
    }
  }

  /** Records without a colour list pass through unchanged. */
  lemma {:induction false} ExpandAllKeepsFlat(ps: seq<Product>, role: Role)
    requires forall i :: 0 <= i < |ps| ==> !HasColorList(ps[i])
    ensures ExpandAll(ps, role) == ps
    decreases |ps|
  {
    if ps != [] {
      ExpandAllKeepsFlat(ps[..|ps| - 1], role);
      assert ps == ps[..|ps| - 1] + [ps[|ps| - 1]];
    }
  }

  /** Expanding twice is expanding once. */
  lemma ExpandIdempotent(ps: seq<Product>, role: Role)
    ensures ExpandAll(ExpandAll(ps, role), role) == ExpandAll(ps, role)
  {
    ExpandAllFlat(ps, role);
    ExpandAllKeepsFlat(ExpandAll(ps, role), role);
  }

  // ---------------------------------------------------------------------
  // The join of cost and sale records

  /** The members of `mergeConfig` that `mesclar_dados` reads; `leftKey`,
      `rightKey` and `how` are never read. */
  datatype KeySettings = KeySettings(includeVariation: bool, additionalKeys: seq<string>)

  /** `includeVariationKey` defaults to true and `additionalKeys` to none. */
  function KeySettingsOf(config: Config): (r: KeySettings)
    ensures config.mergeConfig.None? ==> r == KeySettings(true, [])
  {
    match config.mergeConfig
    case None => KeySettings(true, [])
    case Some(m) => KeySettings(m.includeVariationKey.GetOr(true), m.additionalKeys.GetOr([]))
  }

  /** The normalised description, then the colour when variations are part of
      the key, then every additional key field. */
  function KeyParts(p: Product, ks: KeySettings): (r: seq<string>)
    ensures |r| == 1 + (if ks.includeVariation then 1 else 0) + |ks.additionalKeys|
  {
    [NormalizeProductName(Get(p, DESCRICAO))]
    + (if ks.includeVariation then [NormalizeProductName(Get(p, COR))] else [])
    + seq(|ks.additionalKeys|, i requires 0 <= i < |ks.additionalKeys| => NormalizeProductName(Get(p, ks.additionalKeys[i])))
  }

  /** `gerar_chave`: the parts joined by "|". */
  function MergeKey(p: Product, ks: KeySettings): string
  {
    Join(KeyParts(p, ks), "|")
  }

  /** While no part contains '|', the key gives its parts back, so records get
      the same key exactly when their parts agree. */
  lemma MergeKeyParts(p: Product, q: Product, ks: KeySettings)
    requires forall k, i :: 0 <= k < |KeyParts(p, ks)| && 0 <= i < |KeyParts(p, ks)[k]| ==> KeyParts(p, ks)[k][i] != '|'
    requires forall k, i :: 0 <= k < |KeyParts(q, ks)| && 0 <= i < |KeyParts(q, ks)[k]| ==> KeyParts(q, ks)[k][i] != '|'
    ensures SplitOn(MergeKey(p, ks), "|") == KeyParts(p, ks)
    ensures MergeKey(p, ks) == MergeKey(q, ks) <==> KeyParts(p, ks) == KeyParts(q, ks)
  {
    SplitJoin(KeyParts(p, ks), '|');
    SplitJoin(KeyParts(q, ks), '|');
  }

  /** The keys of the records, in order. */
  function KeysOf(ps: seq<Product>, ks: KeySettings): (r: seq<string>)
    ensures |r| == |ps|
    ensures forall i :: 0 <= i < |ps| ==> r[i] == MergeKey(ps[i], ks)
  {
    seq(|ps|, i requires 0 <= i < |ps| => MergeKey(ps[i], ks))
  }

  /** Records stored under their keys in order, a later record replacing an
      earlier one with the same key. */
  function IndexBy(keys: seq<string>, ps: seq<Product>): map<string, Product>
    requires |keys| == |ps|
    decreases |ps|
  {
    if ps == [] then map[]
    else IndexBy(keys[..|ps| - 1], ps[..|ps| - 1])[keys[|ps| - 1] := ps[|ps| - 1]]
  }

  /** Extending the prefix by one record stores that record under its key. */
  lemma IndexByStep(keys: seq<string>, ps: seq<Product>, i: nat)
    requires |keys| == |ps| && i < |ps|
    ensures IndexBy(keys[..i + 1], ps[..i + 1]) == IndexBy(keys[..i], ps[..i])[keys[i] := ps[i]]
  {
    Order.PrefixSnoc(keys, i);
    Order.PrefixSnoc(ps, i);
  }

  /** `indice_venda`. */
  function SaleIndex(sales: seq<Product>, ks: KeySettings): map<string, Product>
  {
    IndexBy(KeysOf(sales, ks), sales)
  }

  /** `j` is the last position that holds `key`. */
  predicate LastAt(keys: seq<string>, key: string, j: int)
  {
    0 <= j < |keys| && keys[j] == key && forall j' :: j < j' < |keys| ==> keys[j'] != key
  }

  /** The index holds exactly the keys given, each with the record at the last
      position that has it. */
  lemma {:induction false} IndexByLastWins(keys: seq<string>, ps: seq<Product>, key: string)
    requires |keys| == |ps|
    ensures key in IndexBy(keys, ps) <==> key in keys
    ensures key in IndexBy(keys, ps) ==> exists j :: LastAt(keys, key, j) && IndexBy(keys, ps)[key] == ps[j]
    decreases |ps|
  {
    if ps != [] {
      var n := |ps| - 1;
      IndexByLastWins(keys[..n], ps[..n], key);
      if keys[n] == key {
        assert LastAt(keys, key, n);
      } else {
        assert keys == keys[..n] + [keys[n]];
        if key in IndexBy(keys, ps) {
          var j :| LastAt(keys[..n], key, j) && IndexBy(keys[..n], ps[..n])[key] == ps[..n][j];
          assert LastAt(keys, key, j);
        }
      }
    }
  }

  /** `j` is the last sale record with the given key. */
  predicate LastWithKey(sales: seq<Product>, ks: KeySettings, key: string, j: int)
  {
    0 <= j < |sales| && MergeKey(sales[j], ks) == key
    && forall j' :: j < j' < |sales| ==> MergeKey(sales[j'], ks) != key
  }

  /** The sale index holds exactly the keys of the sale records, each with the
      last record that has it. */
  lemma SaleIndexLastWins(sales: seq<Product>, ks: KeySettings, key: string)
    ensures key in SaleIndex(sales, ks) <==> exists j :: 0 <= j < |sales| && MergeKey(sales[j], ks) == key
    ensures forall j :: LastWithKey(sales, ks, key, j) ==> key in SaleIndex(sales, ks) && SaleIndex(sales, ks)[key] == sales[j]
  {
    var keys := KeysOf(sales, ks);
    IndexByLastWins(keys, sales, key);
    if key in keys {
      var i :| 0 <= i < |keys| && keys[i] == key;
      assert MergeKey(sales[i], ks) == key;
    }
    forall j | LastWithKey(sales, ks, key, j)
      ensures key in SaleIndex(sales, ks) && SaleIndex(sales, ks)[key] == sales[j]
    {
      assert keys[j] == key;
      var j' :| LastAt(keys, key, j') && IndexBy(keys, sales)[key] == sales[j'];
      assert j == j';
    }
  }

  /** The sale record a cost record is joined with has a price to give. */
  predicate PricedMatch(c: Product, index: map<string, Product>, ks: KeySettings)
  {
    var key := MergeKey(c, ks);
    key in index && PRECO1 in index[key] && index[key][PRECO1].Truthy()
  }

  /** One row of the left join: the cost record, with PRECO1 taken (formatted)
      from the matching sale record when that has a truthy PRECO1, and CUSTO
      formatted when present. */
  function MergedRow(c: Product, index: map<string, Product>, ks: KeySettings): Product
  {
    var priced := if PricedMatch(c, index, ks) then c[PRECO1 := FormatField(index[MergeKey(c, ks)][PRECO1])] else c;
    if CUSTO in priced then priced[CUSTO := FormatField(priced[CUSTO])] else priced
  }

  /** The loop that builds `indice_venda`. */
  method BuildSaleIndex(sales: seq<Product>, ks: KeySettings) returns (index: map<string, Product>)
    ensures index == SaleIndex(sales, ks)
  {
    ghost var keys := KeysOf(sales, ks);
    index := map[];
    var i := 0;
    while i < |sales|
      invariant i <= |sales|
      invariant index == IndexBy(keys[..i], sales[..i])
    {
      var key := MergeKey(sales[i], ks);
      index := index[key := sales[i]];
      IndexByStep(keys, sales, i);
      i := i + 1;
    }
    assert sales[..i] == sales;
    assert keys[..i] == keys;
  }

  /** `mesclar_dados`: one output row per cost record, in order. */
  method Merge(costs: seq<Product>, sales: seq<Product>, ks: KeySettings) returns (out: seq<Product>)
    ensures |out| == |costs|
    ensures forall i :: 0 <= i < |costs| ==> out[i] == MergedRow(costs[i], SaleIndex(sales, ks), ks)
  {
    var index := BuildSaleIndex(sales, ks);
    out := [];
    var i := 0;
    while i < |costs|
      invariant i <= |costs|
      invariant |out| == i
      invariant forall j :: 0 <= j < i ==> out[j] == MergedRow(costs[j], index, ks)
    {
      var row := MergeRow(costs[i], index, ks);
      out := out + [row];
      i := i + 1;
    }
  }

  /** The body of the loop over cost records. */
  method MergeRow(c: Product, index: map<string, Product>, ks: KeySettings) returns (row: Product)
    ensures row == MergedRow(c, index, ks)
  {
    var key := MergeKey(c, ks);
    row := c;
    if key in index {
      var sale := index[key];
      if PRECO1 in sale && sale[PRECO1].Truthy() {
        row := row[PRECO1 := FormatField(sale[PRECO1])];
      }
    }
    if CUSTO in row {
      row := row[CUSTO := FormatField(row[CUSTO])];
    }
  }

  /** What the join does to a cost record: PRECO1 comes from the last sale
      record with the same key when that one has a truthy PRECO1, and is the
      cost record's own otherwise; CUSTO is formatted; no other field changes
      and no field is added but PRECO1. */
  lemma MergedRowFields(c: Product, sales: seq<Product>, ks: KeySettings)
    ensures var r := MergedRow(c, SaleIndex(sales, ks), ks);
      && (forall k :: k in r <==> k in c || (k == PRECO1 && PricedMatch(c, SaleIndex(sales, ks), ks)))
      && (forall k :: k in c && k != PRECO1 && k != CUSTO ==> r[k] == c[k])
      && (CUSTO in c ==> r[CUSTO] == FormatField(c[CUSTO]))
      && (forall j :: LastWithKey(sales, ks, MergeKey(c, ks), j) && PRECO1 in sales[j] && sales[j][PRECO1].Truthy()
            ==> PRECO1 in r && r[PRECO1] == FormatField(sales[j][PRECO1]))
      && (!PricedMatch(c, SaleIndex(sales, ks), ks) ==>
            forall j :: LastWithKey(sales, ks, MergeKey(c, ks), j) ==> !(PRECO1 in sales[j] && sales[j][PRECO1].Truthy()))
      && (!PricedMatch(c, SaleIndex(sales, ks), ks) && PRECO1 in c ==> r[PRECO1] == c[PRECO1])
  {
    SaleIndexLastWins(sales, ks, MergeKey(c, ks));
  }

  // ---------------------------------------------------------------------
  // Product codes

  /** The normalised descriptions of the records, in order. */
  function Descriptions(ps: seq<Product>): (r: seq<string>)
    ensures |r| == |ps|
    ensures forall i :: 0 <= i < |ps| ==> r[i] == NormalizeProductName(Get(ps[i], DESCRICAO))
  {
    seq(|ps|, i requires 0 <= i < |ps| => NormalizeProductName(Get(ps[i], DESCRICAO)))
  }

  /** `f"{n:06d}"` */
  function ProductCode(n: nat): string
  {
    ZeroPad(n, 6)
  }

  /** A record with the code of the given number. */
  function WithCode(p: Product, n: nat): Product
  {
    p[COD_PRODUTO := Str(ProductCode(n))]
  }

  /** The records with their COD_PRODUTO. */
  function Coded(ps: seq<Product>): seq<Product>
  {
    var ds := Descriptions(ps);
    seq(|ps|, i requires 0 <= i < |ps| => WithCode(ps[i], Rank(ds, i)))
  }

  /** The table of codes after the first `i` descriptions: each description
      seen so far, with the code of its number. */
  ghost predicate CodesSoFar(codes: map<string, string>, ds: seq<string>, i: nat)
    requires i <= |ds|
  {
    && (forall d :: d in codes <==> d in ds[..i])
    && (forall d :: d in codes ==> d in Distinct(ds) && codes[d] == ProductCode(IndexOf(Distinct(ds), d) + 1))
  }

  /** One step of the counter: a description already seen changes nothing. */
  lemma CodesKept(codes: map<string, string>, ds: seq<string>, i: nat, next: nat)
    requires i < |ds| && CodesSoFar(codes, ds, i) && next == |Distinct(ds[..i])| + 1
    requires ds[i] in codes
    ensures CodesSoFar(codes, ds, i + 1) && next == |Distinct(ds[..i + 1])| + 1
  {
    var pre, pre1 := ds[..i], ds[..i + 1];
    PrefixSnoc(ds, i);
    assert ds[i] in pre;
    assert Distinct(pre1) == Distinct(pre);
    forall d
      ensures d in codes <==> d in pre1
    {
      assert d in pre1 <==> d in pre || d == ds[i];
    }
  }

  /** One step of the counter: an unseen description is given the next code. */
  lemma CodesAdvance(codes: map<string, string>, ds: seq<string>, i: nat, next: nat)
    requires i < |ds| && CodesSoFar(codes, ds, i) && next == |Distinct(ds[..i])| + 1
    requires ds[i] !in codes
    ensures CodesSoFar(codes[ds[i] := ProductCode(next)], ds, i + 1) && next + 1 == |Distinct(ds[..i + 1])| + 1
  {
    var pre, pre1 := ds[..i], ds[..i + 1];
    var u := codes[ds[i] := ProductCode(next)];
    PrefixSnoc(ds, i);
    assert ds[i] !in pre;
    assert Distinct(pre1) == Distinct(pre) + [ds[i]];
    forall d
      ensures d in u <==> d in pre1
    {
      assert d in pre1 <==> d in pre || d == ds[i];
    }
    forall d | d in u
      ensures d in Distinct(ds) && u[d] == ProductCode(IndexOf(Distinct(ds), d) + 1)
    {
      if d == ds[i] {
        RankStep(ds, i);
        assert ds[i] in ds;
      } else {
        assert d in codes;
      }
    }
  }

  /** The table of codes after reading `ds`, built as the counter builds it. */
  function CodeTable(ds: seq<string>): map<string, string>
  {
    if ds == [] then map[]
    else
      var prev := ds[..|ds| - 1];
      var t := CodeTable(prev);
      if ds[|ds| - 1] in t then t else t[ds[|ds| - 1] := ProductCode(|Distinct(prev)| + 1)]
  }

  /** After the first `i` descriptions the table holds exactly them, each with the
      code of its number. */
  lemma {:induction false} CodeTableSoFar(ds: seq<string>, i: nat)
    requires i <= |ds|
    ensures CodesSoFar(CodeTable(ds[..i]), ds, i)
    decreases i
  {
    if i == 0 {
      assert CodeTable(ds[..0]) == map[];
    } else {
      CodeTableSoFar(ds, i - 1);
      PrefixSnoc(ds, i - 1);
      var t, next := CodeTable(ds[..i - 1]), |Distinct(ds[..i - 1])| + 1;
      var u := if ds[i - 1] in t then t else t[ds[i - 1] := ProductCode(next)];
      assert CodeTable(ds[..i]) == u;
      if ds[i - 1] in t {
        CodesKept(t, ds, i - 1, next);
      } else {
        CodesAdvance(t, ds, i - 1, next);
      }
      assert CodesSoFar(u, ds, i);
    }
  }

  /** How reading one more description changes the table and the count. */
  lemma CodeTableStep(ds: seq<string>, i: nat)
    requires i < |ds|
    ensures var t := CodeTable(ds[..i]);
      && (ds[i] in t ==> CodeTable(ds[..i + 1]) == t && |Distinct(ds[..i + 1])| == |Distinct(ds[..i])|)
      && (ds[i] !in t ==>
            && CodeTable(ds[..i + 1]) == t[ds[i] := ProductCode(|Distinct(ds[..i])| + 1)]
            && |Distinct(ds[..i + 1])| == |Distinct(ds[..i])| + 1)
    ensures ds[i] in CodeTable(ds[..i + 1]) && CodeTable(ds[..i + 1])[ds[i]] == ProductCode(Rank(ds, i))
  {
    assert ds[..i + 1][..i] == ds[..i];
    assert ds[..i + 1] == ds[..i] + [ds[i]];
    CodeTableSoFar(ds, i);
    CodeTableSoFar(ds, i + 1);
  }

  /** One pass of the loop body: look the description up, adding it with the
      next code when it is new. */
  method NextCode(codes: map<string, string>, next: nat, d: string, ghost ds: seq<string>, ghost i: nat)
    returns (codes': map<string, string>, next': nat, code: string)
    requires i < |ds| && d == ds[i]
    requires codes == CodeTable(ds[..i]) && next == |Distinct(ds[..i])| + 1
    ensures codes' == CodeTable(ds[..i + 1]) && next' == |Distinct(ds[..i + 1])| + 1
    ensures code == ProductCode(Rank(ds, i))
  {
    CodeTableStep(ds, i);
    codes', next' := codes, next;
    if d !in codes {
      codes' := codes[d := ProductCode(next)];
      next' := next + 1;
    }
    code := codes'[d];
  }

  /** `gerar_codigos_produto`: a counter and a table of the codes given so far. */
  method AssignProductCodes(ps: seq<Product>) returns (out: seq<Product>)
    ensures out == Coded(ps)
  {
    ghost var ds := Descriptions(ps);
    var codes: map<string, string> := map[];
    var next := 1;
    out := [];
    var i := 0;
    while i < |ps|
      invariant i <= |ps| && |out| == i
      invariant codes == CodeTable(ds[..i]) && next == |Distinct(ds[..i])| + 1
      invariant out == Coded(ps)[..i]
    {
      var d := NormalizeProductName(Get(ps[i], DESCRICAO));
      var code;
      codes, next, code := NextCode(codes, next, d, ds, i);
      CodedStep(ps, i);
      out := out + [ps[i][COD_PRODUTO := Str(code)]];
      i := i + 1;
    }
    assert Coded(ps)[..|ps|] == Coded(ps);
  }

  lemma CodedStep(ps: seq<Product>, i: nat)
    requires i < |ps|
    ensures Coded(ps)[..i + 1] == Coded(ps)[..i] + [WithCode(ps[i], Rank(Descriptions(ps), i))]
  {
    var c := Coded(ps);
    PrefixSnoc(c, i);
    assert c[i] == WithCode(ps[i], Rank(Descriptions(ps), i));
  }

  /** A code is at least six digits that read back as its number, so different
      numbers have different codes; the first code is "000001". */
  lemma ProductCodeDigits(n: nat, m: nat)
    ensures |ProductCode(n)| >= 6 && AllDigits(ProductCode(n)) && DigitsToNat(ProductCode(n)) == n
    ensures ProductCode(n) == ProductCode(m) <==> n == m
    ensures ProductCode(1) == "000001"
  {
    ZeroPadValue(n, 6);
    ZeroPadValue(m, 6);
    assert ZeroPad(1, 6) == "00000" + "1";
  }

  /** The records keep their order and fields and gain COD_PRODUTO; two records
      share a code exactly when their normalised descriptions are equal. */
  lemma ProductCodes(ps: seq<Product>)
    ensures |Coded(ps)| == |ps|
    ensures forall i :: 0 <= i < |ps| ==>
      && Coded(ps)[i].Keys == ps[i].Keys + {COD_PRODUTO}
      && (forall k :: k in ps[i] && k != COD_PRODUTO ==> Coded(ps)[i][k] == ps[i][k])
      && Coded(ps)[i] == WithCode(ps[i], Rank(Descriptions(ps), i))
    ensures forall i, j :: 0 <= i < |ps| && 0 <= j < |ps| ==>
      (Coded(ps)[i][COD_PRODUTO] == Coded(ps)[j][COD_PRODUTO] <==> Descriptions(ps)[i] == Descriptions(ps)[j])
  {
    var ds := Descriptions(ps);
    Ranks(ds);
    forall i, j | 0 <= i < |ps| && 0 <= j < |ps|
      ensures Coded(ps)[i][COD_PRODUTO] == Coded(ps)[j][COD_PRODUTO] <==> ds[i] == ds[j]
    {
      ProductCodeDigits(Rank(ds, i), Rank(ds, j));
    }
  }

  // ---------------------------------------------------------------------
  // Upper case and empty fields

  /** A text value upper-cased; other values as they are. */
  function UpperValue(v: Value): (r: Value)
    ensures !v.Str? ==> r == v
    ensures v.Str? ==> r.Str? && |r.s| == |v.s|
  {
    match v
    case Str(s) => Str(Upper(s))
    case _ => v
  }

  /** A record with its text values upper-cased. */
  function Uppercased(p: Product): (r: Product)
    ensures r.Keys == p.Keys
    ensures forall k :: k in p ==> r[k] == UpperValue(p[k])
  {
    map k | k in p :: UpperValue(p[k])
  }

  /** Upper-casing twice is upper-casing once. */
  lemma UppercasedIdempotent(p: Product)
    ensures Uppercased(Uppercased(p)) == Uppercased(p)
  {
    forall k | k in p
      ensures UpperValue(UpperValue(p[k])) == UpperValue(p[k])
    {
      if p[k].Str? {
        UpperIdempotent(p[k].s);
      }
    }
  }

  /** The inner loop of `converter_para_maiusculas`, over the fields of one record. */
  method UppercaseRecord(p: Product) returns (q: Product)
    ensures q == Uppercased(p)
  {
    q := p;
    var pending := p.Keys;
    while pending != {}
      invariant pending <= p.Keys
      invariant q.Keys == p.Keys
      invariant forall k :: k in p ==> q[k] == (if k in pending then p[k] else UpperValue(p[k]))
      decreases pending
    {
      var k :| k in pending;
      if q[k].Str? {
        q := q[k := Str(Upper(q[k].s))];
      }
      pending := pending - {k};
    }
  }

  /** `converter_para_maiusculas`: the records are changed where they are. */
  method UppercaseAll(a: array<Product>)
    modifies a
    ensures forall i :: 0 <= i < a.Length ==> a[i] == Uppercased(old(a[i]))
  {
    var i := 0;
    while i < a.Length
      invariant 0 <= i <= a.Length
      invariant forall j :: 0 <= j < i ==> a[j] == Uppercased(old(a[j]))
      invariant forall j :: i <= j < a.Length ==> a[j] == old(a[j])
    {
      a[i] := UppercaseRecord(a[i]);
      i := i + 1;
    }
  }

  /** The values `limpar_dados` drops: "", None, "null" and "NULL". */
  predicate NullLike(v: Value)
  {
    v == Str("") || v == Null || v == Str("null") || v == Str("NULL")
  }

  /** A record without its null-like fields. */
  function Cleaned(p: Product): (r: Product)
    ensures forall k :: k in r <==> k in p && !NullLike(p[k])
    ensures forall k :: k in r ==> r[k] == p[k]
  {
    map k | k in p && !NullLike(p[k]) :: p[k]
  }

  /** Cleaning twice is cleaning once, and a cleaned record keeps every field
      that is not null-like. */
  lemma CleanedIdempotent(p: Product)
    ensures Cleaned(Cleaned(p)) == Cleaned(p)
    ensures forall k :: k in Cleaned(p) ==> !NullLike(Cleaned(p)[k])
  {
  }

  /** The inner loop of `limpar_dados`: a new record with the fields kept. */
  method CleanRecord(p: Product) returns (q: Product)
    ensures q == Cleaned(p)
  {
    q := map[];
    var pending := p.Keys;
    while pending != {}
      invariant pending <= p.Keys
      invariant forall k :: k in q <==> k in p && k !in pending && !NullLike(p[k])
      invariant forall k :: k in q ==> q[k] == p[k]
      decreases pending
    {
      var k :| k in pending;
      if !NullLike(p[k]) {
        q := q[k := p[k]];
      }
      pending := pending - {k};
    }
  }

  /** `limpar_dados`: every record cleaned, in order. */
  method CleanAll(ps: seq<Product>) returns (out: seq<Product>)
    ensures |out| == |ps|
    ensures forall i :: 0 <= i < |ps| ==> out[i] == Cleaned(ps[i])
  {
    out := [];
    var i := 0;
    while i < |ps|
      invariant i <= |ps| && |out| == i
      invariant forall j :: 0 <= j < i ==> out[j] == Cleaned(ps[j])
    {
      var q := CleanRecord(ps[i]);
      out := out + [q];
      i := i + 1;
    }
  }

  // ---------------------------------------------------------------------
  // Grouping the JSON files by configuration

  /** The files that share one configuration. */
  datatype Group = Group(config: nat, files: seq<string>)

  /** The names whose chosen configuration is `c`, in order. */
  function Select(names: seq<string>, keys: seq<nat>, c: nat): (r: seq<string>)
    requires |names| == |keys|
    ensures |r| <= |names|
    ensures forall x :: x in r ==> x in names
  {
    if names == [] then []
    else
      var n := |names| - 1;
      Select(names[..n], keys[..n], c) + (if keys[n] == c then [names[n]] else [])
  }

  /** `agrupar_arquivos_por_config`'s result: one group per chosen configuration,
      in order of first use, each with its files in order. */
  function Grouped(names: seq<string>, keys: seq<nat>): (r: seq<Group>)
    requires |names| == |keys|
  {
    var cs := Distinct(keys);
    seq(|cs|, j requires 0 <= j < |cs| => Group(cs[j], Select(names, keys, cs[j])))
  }

  /** A configuration that was never chosen has no files. */
  lemma {:induction false} SelectUnused(names: seq<string>, keys: seq<nat>, c: nat)
    requires |names| == |keys| && c !in keys
    ensures Select(names, keys, c) == []
    decreases |names|
  {
    if names != [] {
      var n := |names| - 1;
      assert forall x :: x in keys[..n] ==> x in keys;
      SelectUnused(names[..n], keys[..n], c);
    }
  }

  /** Every file is in exactly one group, the one of its configuration; the
      groups' configurations are the chosen ones, each once, in order of first
      use, and no group is empty. */
  lemma GroupedCovers(names: seq<string>, keys: seq<nat>)
    requires |names| == |keys|
    ensures var gs := Grouped(names, keys);
      && (forall j, k :: 0 <= j < k < |gs| ==> gs[j].config != gs[k].config)
      && (forall c :: c in keys <==> exists j :: 0 <= j < |gs| && gs[j].config == c)
      && (forall j :: 0 <= j < |gs| ==> gs[j].files != [])
      && (forall i :: 0 <= i < |names| ==> names[i] in gs[IndexOf(Distinct(keys), keys[i])].files)
  {
    var gs := Grouped(names, keys);
    var cs := Distinct(keys);
    forall c | c in keys
      ensures exists j :: 0 <= j < |gs| && gs[j].config == c
    {
      assert gs[IndexOf(cs, c)].config == c;
    }
    forall j | 0 <= j < |gs|
      ensures gs[j].files != []
    {
      GroupNotEmpty(names, keys, cs[j]);
    }
    forall i | 0 <= i < |names|
      ensures names[i] in gs[IndexOf(cs, keys[i])].files
    {
      SelectHas(names, keys, i);
    }
  }

  lemma GroupNotEmpty(names: seq<string>, keys: seq<nat>, c: nat)
    requires |names| == |keys| && c in keys
    ensures Select(names, keys, c) != []
  {
    var i :| 0 <= i < |keys| && keys[i] == c;
    SelectHas(names, keys, i);
  }

  lemma {:induction false} SelectHas(names: seq<string>, keys: seq<nat>, i: nat)
    requires |names| == |keys| && i < |names|
    ensures names[i] in Select(names, keys, keys[i])
    decreases |names|
  {
    var n := |names| - 1;
    if i < n {
      SelectHas(names[..n], keys[..n], i);
    }
  }

  /** The dictionary `grupos_por_config` after the files `names`, which went to
      the configurations `keys`, as the loop builds it. */
  function Dictionary(names: seq<string>, keys: seq<nat>): map<nat, seq<string>>
    requires |names| == |keys|
  {
    if names == [] then map[]
    else
      var n := |names| - 1;
      var d := Dictionary(names[..n], keys[..n]);
      d[keys[n] := (if keys[n] in d then d[keys[n]] else []) + [names[n]]]
  }

  /** The dictionary has an entry for each configuration used, holding the files
      sent to it, in order. */
  lemma {:induction false} DictionaryEntries(names: seq<string>, keys: seq<nat>)
    requires |names| == |keys|
    ensures forall c :: c in Dictionary(names, keys) <==> c in keys
    ensures forall c :: c in Dictionary(names, keys) ==> Dictionary(names, keys)[c] == Select(names, keys, c)
    decreases |names|
  {
    if names != [] {
      var n := |names| - 1;
      DictionaryEntries(names[..n], keys[..n]);
      assert keys == keys[..n] + [keys[n]];
      if keys[n] !in keys[..n] {
        SelectUnused(names[..n], keys[..n], keys[n]);
      }
    }
  }

  /** The groups of the dictionary, in insertion order. */
  function GroupList(order: seq<nat>, files: map<nat, seq<string>>): seq<Group>
    requires forall c :: c in order ==> c in files
  {
    seq(|order|, j requires 0 <= j < |order| => Group(order[j], files[order[j]]))
  }

  lemma GroupListOfDictionary(names: seq<string>, keys: seq<nat>)
    requires |names| == |keys|
    ensures forall c :: c in Distinct(keys) ==> c in Dictionary(names, keys)
    ensures GroupList(Distinct(keys), Dictionary(names, keys)) == Grouped(names, keys)
  {
    DictionaryEntries(names, keys);
  }

  /** Adding the next file to the dictionary and, for a new configuration, to
      the insertion order. */
  method AddFile(order: seq<nat>, files: map<nat, seq<string>>, names: seq<string>, i: nat, c: nat,
                 ghost keys: seq<nat>)
    returns (order': seq<nat>, files': map<nat, seq<string>>)
    requires i < |names| && i == |keys|
    requires order == Distinct(keys) && files == Dictionary(names[..i], keys)
    ensures order' == Distinct(keys + [c]) && files' == Dictionary(names[..i + 1], keys + [c])
  {
    ghost var ns := names[..i + 1];
    ghost var ks := keys + [c];
    assert ns[..i] == names[..i] && ks[..i] == keys && ns[i] == names[i];
    DictionaryEntries(names[..i], keys);
    assert Dictionary(ns, ks) == files[c := (if c in files then files[c] else []) + [names[i]]];
    assert Distinct(ks) == if c in order then order else order + [c];
    if c !in files {
      order' := order + [c];
      assert [] + [names[i]] == [names[i]];
      files' := files[c := [names[i]]];
    } else {
      order' := order;
      files' := files[c := files[c] + [names[i]]];
    }
  }

  /** Each file went to the configuration chosen for it. */
  ghost predicate AllChosen(pool: seq<Config>, names: seq<string>, chosen: seq<nat>)
  {
    |chosen| == |names| && forall i :: 0 <= i < |names| ==> ChosenFor(pool, names[i], chosen[i])
  }

  /** `encontrar_config` for one more file. */
  method ChooseNext(pool: seq<Config>, names: seq<string>, chosen: seq<nat>, i: nat)
    returns (c: Option<nat>)
    requires i < |names| && AllChosen(pool, names[..i], chosen)
    ensures c.None? <==> pool == []
    ensures c.Some? ==> AllChosen(pool, names[..i + 1], chosen + [c.value])
  {
    c := FindExtractorConfig(pool, Some(names[i]));
    assert names[..i + 1] == names[..i] + [names[i]];
  }

  /** One pass of the grouping loop: the file's configuration is chosen and
      the file is added to its group. */
  method GroupStep(pool: seq<Config>, names: seq<string>, i: nat, chosen: seq<nat>,
                   order: seq<nat>, files: map<nat, seq<string>>)
    returns (r: Option<nat>, order': seq<nat>, files': map<nat, seq<string>>)
    requires i < |names| && AllChosen(pool, names[..i], chosen)
    requires order == Distinct(chosen) && files == Dictionary(names[..i], chosen)
    ensures r.None? <==> pool == []
    ensures r.Some? ==> && AllChosen(pool, names[..i + 1], chosen + [r.value])
                        && order' == Distinct(chosen + [r.value])
                        && files' == Dictionary(names[..i + 1], chosen + [r.value])
  {
    r := ChooseNext(pool, names, chosen, i);
    order', files' := order, files;
    if r.Some? {
      order', files' := AddFile(order, files, names, i, r.value, chosen);
    }
  }

  /** `agrupar_arquivos_por_config` on the JSON files found (`names`): no files
      gives no groups; files with no configuration at all end the program
      (`None`); otherwise each file is sent to the configuration chosen for it
      and the groups keep the order in which configurations are first used. */
  method GroupFiles(pool: seq<Config>, names: seq<string>) returns (groups: Option<seq<Group>>, chosen: seq<nat>)
    ensures names == [] ==> groups == Some([])
    ensures names != [] && pool == [] ==> groups.None?
    ensures pool != [] ==> groups.Some?
    ensures groups.Some? ==> |chosen| == |names| && groups.value == Grouped(names, chosen)
    ensures groups.Some? ==> AllChosen(pool, names, chosen)
  {
    chosen := [];
    if names == [] {
      return Some([]), chosen;
    }
    var order: seq<nat> := [];
    var files: map<nat, seq<string>> := map[];
    var i := 0;
    while i < |names|
      invariant i <= |names| && |chosen| == i
      invariant i > 0 ==> pool != []
      invariant AllChosen(pool, names[..i], chosen)
      invariant order == Distinct(chosen) && files == Dictionary(names[..i], chosen)
    {
      var r;
      r, order, files := GroupStep(pool, names, i, chosen, order, files);
      if r.None? {
        return None, chosen;
      }
      chosen := chosen + [r.value];
      i := i + 1;
    }
    assert names[..i] == names;
    GroupListOfDictionary(names, chosen);
    groups := Some(GroupList(order, files));
  }
}
