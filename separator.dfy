// The separator stage (MOTOR/separadorVariacoes.py): each merged product is
// copied once per item of every separator rule that applies to it, the copy
// carrying the item under OBS (rules on DESCRICAO) or under itensSeparados.
module Separator {
  import opened Wrappers
  import opened Text
  import opened Split
  import opened Catalog
  import opened ConfigResolver
  import opened Order

  const OBS: string := "OBS"
  const ITENS_SEPARADOS: string := "itensSeparados"

  // ---------------------------------------------------------------------
  // verificar_varacao: the item followed by a number

  /** The three patterns of `verificar_varacao`, after the escaped item:
      `\s*\(\s*\d+\s*\)`, `\s+\d+` and `\s*-\s*\d+`. */
  datatype Suffix = Parenthesised | Spaced | Dashed

  /** The first position at or after `j` that does not hold a whitespace character. */
  function SkipSpaces(v: string, j: nat): (r: nat)
    requires j <= |v|
    ensures j <= r <= |v|
    ensures forall k :: j <= k < r ==> IsSpace(v[k])
    ensures r < |v| ==> !IsSpace(v[r])
    decreases |v| - j
  {
    if j == |v| || !IsSpace(v[j]) then j else SkipSpaces(v, j + 1)
  }

  /** The first position at or after `j` that does not hold a digit. */
  function SkipDigits(v: string, j: nat): (r: nat)
    requires j <= |v|
    ensures j <= r <= |v|
    ensures forall k :: j <= k < r ==> IsDigit(v[k])
    ensures r < |v| ==> !IsDigit(v[r])
    decreases |v| - j
  {
    if j == |v| || !IsDigit(v[j]) then j else SkipDigits(v, j + 1)
  }

  /** Whether the suffix pattern matches `v` from position `j`.  Whitespace,
      digits and the punctuation around them are disjoint character classes, so
      the greedy scan finds a match exactly when the regular expression does. */
  predicate SuffixAt(pat: Suffix, v: string, j: nat)
    requires j <= |v|
  {
    var a := SkipSpaces(v, j);
    match pat
    case Parenthesised =>
      a < |v| && v[a] == '(' &&
      var b := SkipSpaces(v, a + 1);
      var c := SkipDigits(v, b);
      c > b && var d := SkipSpaces(v, c); d < |v| && v[d] == ')'
    case Spaced =>
      a > j && SkipDigits(v, a) > a
    case Dashed =>
      a < |v| && v[a] == '-' &&
      var b := SkipSpaces(v, a + 1);
      SkipDigits(v, b) > b
  }

  /** `\b` at position `i`: a word character on exactly one side. */
  predicate WordBoundary(v: string, i: nat)
    requires i <= |v|
  {
    (i > 0 && IsWordChar(v[i - 1])) != (i < |v| && IsWordChar(v[i]))
  }

  /** The pattern `\b<item><suffix>` matches `v` at position `i`. */
  predicate MatchAt(pat: Suffix, v: string, item: string, i: nat)
  {
    i <= |v| && WordBoundary(v, i) && OccursAt(v, item, i) && SuffixAt(pat, v, i + |item|)
  }

  /** `re.search`: the leftmost position from `i` on where the pattern matches. */
  function Search(pat: Suffix, v: string, item: string, i: nat): (r: Option<nat>)
    ensures r.Some? ==> i <= r.value <= |v| && MatchAt(pat, v, item, r.value)
    ensures r.Some? ==> forall k :: i <= k < r.value ==> !MatchAt(pat, v, item, k)
    ensures r.None? ==> forall k :: i <= k <= |v| ==> !MatchAt(pat, v, item, k)
    decreases |v| + 1 - i
  {
    if i > |v| then None
    else if MatchAt(pat, v, item, i) then Some(i)
    else Search(pat, v, item, i + 1)
  }

  /** The check made on a match: it starts the value, or the text before it,
      stripped, is empty or ends in a character that is not alphanumeric. */
  predicate StandsAlone(v: string, i: nat)
    requires i <= |v|
  {
    var before := Trim(v[..i]);
    i == 0 || before == [] || !IsAlnum(before[|before| - 1])
  }

  /** One pattern accepts: its leftmost match passes the check.  A later match
      of the same pattern is never looked at. */
  predicate PatternAccepts(pat: Suffix, v: string, item: string)
  {
    match Search(pat, v, item, 0)
    case None => false
    case Some(i) => StandsAlone(v, i)
  }

  /** `verificar_varacao(valor, item)`: false for an empty value or item; true
      when one of the three patterns accepts the upper-cased value. */
  predicate IsVariation(valor: Value, item: string)
  {
    if !valor.Truthy() || item == "" then false
    else
      var v := Upper(Shown(valor));
      var it := Trim(Upper(item));
      PatternAccepts(Parenthesised, v, it) || PatternAccepts(Spaced, v, it) || PatternAccepts(Dashed, v, it)
  }

  /** A variation always contains the item: `verificar_varacao` implies the
      plain substring test. */
  lemma VariationContainsItem(valor: Value, item: string)
    requires IsVariation(valor, item)
    ensures Contains(Upper(Shown(valor)), Trim(Upper(item)))
  {
    var v := Upper(Shown(valor));
    var it := Trim(Upper(item));
    if PatternAccepts(Parenthesised, v, it) {
      AcceptedContains(Parenthesised, v, it);
    } else if PatternAccepts(Spaced, v, it) {
      AcceptedContains(Spaced, v, it);
    } else {
      AcceptedContains(Dashed, v, it);
    }
  }

  lemma AcceptedContains(pat: Suffix, v: string, item: string)
    requires PatternAccepts(pat, v, item)
    ensures Contains(v, item)
  {
    var found := Search(pat, v, item, 0);
    assert OccursAt(v, item, found.value);
  }

  // ---------------------------------------------------------------------
  // deve_aplicar_separador

  /** A rule applies to a product when it names a column whose value is
      truthy and, when it has a `valorOriginal`, that text occurs in the value
      (ignoring case). */
  predicate ShouldApply(p: Product, rule: SeparatorRule)
  {
    if rule.coluna == "" then false
    else
      var v := Get(p, rule.coluna);
      if !v.Truthy() then false
      else if rule.valorOriginal == "" then true
      else Contains(Upper(Shown(v)), Upper(rule.valorOriginal))
  }

  // ---------------------------------------------------------------------
  // processar_separadores

  /** Whether a (stripped, non-empty) item is found in the rule's column. */
  predicate ItemMatches(p: Product, rule: SeparatorRule, item: string)
  {
    var shown := Shown(Get(p, rule.coluna));
    || (rule.valorOriginal != "" && Contains(Lower(shown), Lower(rule.valorOriginal)))
    || IsVariation(Get(p, rule.coluna), item)
    || Contains(Upper(shown), Upper(item))
    || (rule.coluna != DESCRICAO && Upper(shown) == Upper(item))
  }

  predicate EmptyList(v: Value)
  {
    v == Items([]) || v == Colors([])
  }

  /** The copy of `p` made for a matched item. */
  function Emitted(p: Product, rule: SeparatorRule, item: string): Product
  {
    if rule.coluna == DESCRICAO then
      p[OBS := Items([item])] - {ITENS_SEPARADOS}
    else
      var q := p[ITENS_SEPARADOS := Items([item])];
      if OBS in q && EmptyList(q[OBS]) then q - {OBS} else q
  }

  /** What one item of an applicable rule contributes. */
  function ItemOutput(p: Product, rule: SeparatorRule, raw: string): seq<Product>
  {
    var item := Trim(raw);
    if item != "" && ItemMatches(p, rule, item) then [Emitted(p, rule, item)] else []
  }

  /** The copies an applicable rule makes, one per matched item, in item order. */
  function ItemOutputs(p: Product, rule: SeparatorRule, items: seq<string>): (r: seq<Product>)
    ensures |r| <= |items|
  {
    if items == [] then []
    else ItemOutputs(p, rule, items[..|items| - 1]) + ItemOutput(p, rule, items[|items| - 1])
  }

  /** What one rule contributes: nothing when it is incomplete or does not apply. */
  function RuleOutputs(p: Product, rule: SeparatorRule): seq<Product>
  {
    if rule.coluna == "" || rule.itensSeparados == [] || !ShouldApply(p, rule) then []
    else ItemOutputs(p, rule, rule.itensSeparados)
  }

  /** The rules' contributions, concatenated in rule order. */
  function AllOutputs(p: Product, rules: seq<SeparatorRule>): seq<Product>
  {
    FlatMap((rule: SeparatorRule) => RuleOutputs(p, rule), rules)
  }

  /** `processar_separadores`: the copies, or the product itself when there are
      no rules or no copy was made. */
  function Separated(p: Product, rules: Option<seq<SeparatorRule>>): seq<Product>
  {
    match rules
    case None => [p]
    case Some(rs) =>
      var out := AllOutputs(p, rs);
      if out == [] then [p] else out
  }

  /** The loop over the items of one applicable rule. */
  method SeparateItems(p: Product, rule: SeparatorRule) returns (out: seq<Product>)
    ensures out == ItemOutputs(p, rule, rule.itensSeparados)
  {
    var items := rule.itensSeparados;
    out := [];
    var k := 0;
    while k < |items|
      invariant k <= |items|
      invariant out == ItemOutputs(p, rule, items[..k])
    {
      assert items[..k + 1][..k] == items[..k];
      var item := Trim(items[k]);
      if item != "" {
        var v := Get(p, rule.coluna);
        var shown := Shown(v);
        var matched := false;
        if rule.valorOriginal != "" && Contains(Lower(shown), Lower(rule.valorOriginal)) {
          matched := true;
        } else if IsVariation(v, item) {
          matched := true;
        } else if Contains(Upper(shown), Upper(item)) || (rule.coluna != DESCRICAO && Upper(shown) == Upper(item)) {
          matched := true;
        }
        if matched {
          var copy := p;
          if rule.coluna == DESCRICAO {
            copy := copy[OBS := Items([item])];
            if ITENS_SEPARADOS in copy {
              copy := copy - {ITENS_SEPARADOS};
            }
          } else {
            copy := copy[ITENS_SEPARADOS := Items([item])];
            if OBS in copy && EmptyList(copy[OBS]) {
              copy := copy - {OBS};
            }
          }
          assert copy == Emitted(p, rule, item);
          out := out + [copy];
        }
      }
      k := k + 1;
    }
    assert items[..k] == items;
  }

  /** `processar_separadores`, rule by rule. */
  method ProcessSeparators(p: Product, rules: Option<seq<SeparatorRule>>) returns (out: seq<Product>)
    ensures out == Separated(p, rules)
    ensures out != []
  {
    if rules.None? || rules.value == [] {
      return [p];
    }
    var rs := rules.value;
    out := [];
    var i := 0;
    while i < |rs|
      invariant i <= |rs|
      invariant out == AllOutputs(p, rs[..i])
    {
      assert rs[..i + 1][..i] == rs[..i];
      var rule := rs[i];
      if rule.coluna != "" && rule.itensSeparados != [] && ShouldApply(p, rule) {
        var copies := SeparateItems(p, rule);
        out := out + copies;
      } else {
        assert RuleOutputs(p, rule) == [];
        out := out + [];
      }
      i := i + 1;
    }
    assert rs[..i] == rs;
    if out == [] {
      out := [p];
    }
  }

  // ---------------------------------------------------------------------
  // Properties of the separation

  /** A rule with a `valorOriginal` that applies takes every item: the
      lower-case test on the column repeats the upper-case test that made the
      rule apply. */
  lemma ValorOriginalMatchesAll(p: Product, rule: SeparatorRule, item: string)
    requires ShouldApply(p, rule) && rule.valorOriginal != ""
    ensures ItemMatches(p, rule, item)
  {
    ContainsIgnoringCase(Shown(Get(p, rule.coluna)), rule.valorOriginal);
  }

  /** Without a `valorOriginal`, an item is taken exactly when it occurs in the
      column, ignoring case: the numbered-variation test and the equality test
      only ever accept items that occur. */
  lemma MatchIsSubstring(p: Product, rule: SeparatorRule, raw: string)
    requires rule.valorOriginal == ""
    ensures var item := Trim(raw);
      ItemMatches(p, rule, item) <==> Contains(Upper(Shown(Get(p, rule.coluna))), Upper(item))
  {
    var item := Trim(raw);
    var shown := Upper(Shown(Get(p, rule.coluna)));
    if IsVariation(Get(p, rule.coluna), item) {
      VariationContainsItem(Get(p, rule.coluna), item);
      UpperTrimmed(raw);
    }
    if shown == Upper(item) {
      assert OccursAt(shown, Upper(item), 0);
    }
  }

  /** The copy for an item differs from the product only in OBS and
      itensSeparados: a DESCRICAO rule sets OBS to the item and drops
      itensSeparados; any other rule sets itensSeparados to the item and drops
      an empty OBS list, leaving the rule's column as it was. */
  lemma EmittedFields(p: Product, rule: SeparatorRule, item: string)
    ensures var q := Emitted(p, rule, item);
      && (forall k :: k in p && k != OBS && k != ITENS_SEPARADOS ==> k in q && q[k] == p[k])
      && (forall k :: k in q ==> k in p || k == OBS || k == ITENS_SEPARADOS)
      && (rule.coluna == DESCRICAO ==> OBS in q && q[OBS] == Items([item]) && ITENS_SEPARADOS !in q)
      && (rule.coluna != DESCRICAO ==>
            && ITENS_SEPARADOS in q && q[ITENS_SEPARADOS] == Items([item])
            && (OBS in q <==> OBS in p && !EmptyList(p[OBS]))
            && (OBS in q ==> q[OBS] == p[OBS]))
  {
  }

  /** One copy comes from one item of one rule that applies. */
  ghost predicate ProducedBy(p: Product, rule: SeparatorRule, q: Product)
  {
    exists k :: 0 <= k < |rule.itensSeparados|
      && Trim(rule.itensSeparados[k]) != ""
      && ItemMatches(p, rule, Trim(rule.itensSeparados[k]))
      && q == Emitted(p, rule, Trim(rule.itensSeparados[k]))
  }

  lemma {:induction false} ItemOutputsExplained(p: Product, rule: SeparatorRule, items: seq<string>)
    requires items <= rule.itensSeparados
    ensures forall q :: q in ItemOutputs(p, rule, items) ==> ProducedBy(p, rule, q)
    decreases |items|
  {
    if items != [] {
      var n := |items| - 1;
      ItemOutputsExplained(p, rule, items[..n]);
      forall q | q in ItemOutput(p, rule, items[n])
        ensures ProducedBy(p, rule, q)
      {
        assert items[n] == rule.itensSeparados[n];
      }
    }
  }

  /** Every copy is the copy for a matched, non-blank item of a complete rule
      that applies to the product; no copy combines two rules. */
  lemma {:induction false} OutputsExplained(p: Product, rules: seq<SeparatorRule>)
    ensures forall q :: q in AllOutputs(p, rules) ==>
      exists j :: 0 <= j < |rules| && rules[j].coluna != "" && ShouldApply(p, rules[j]) && ProducedBy(p, rules[j], q)
    decreases |rules|
  {
    if rules != [] {
      var n := |rules| - 1;
      OutputsExplained(p, rules[..n]);
      ItemOutputsExplained(p, rules[n], rules[n].itensSeparados);
      forall q | q in AllOutputs(p, rules)
        ensures exists j :: 0 <= j < |rules| && rules[j].coluna != "" && ShouldApply(p, rules[j]) && ProducedBy(p, rules[j], q)
      {
        if q in AllOutputs(p, rules[..n]) {
          var j :| 0 <= j < n && rules[..n][j].coluna != "" && ShouldApply(p, rules[..n][j]) && ProducedBy(p, rules[..n][j], q);
          assert rules[j] == rules[..n][j];
        } else {
          assert q in RuleOutputs(p, rules[n]);
        }
      }
    }
  }

  /** Outputs of a list of rules are the outputs of its parts, concatenated in
      order. */
  lemma RulesConcatenate(p: Product, a: seq<SeparatorRule>, b: seq<SeparatorRule>)
    ensures AllOutputs(p, a + b) == AllOutputs(p, a) + AllOutputs(p, b)
  {
    FlatMapAppend((rule: SeparatorRule) => RuleOutputs(p, rule), a, b);
  }

  /** A rule that is incomplete or does not apply adds nothing: removing it
      leaves the outputs as they were. */
  lemma SkippedRule(p: Product, a: seq<SeparatorRule>, rule: SeparatorRule, b: seq<SeparatorRule>)
    requires rule.coluna == "" || rule.itensSeparados == [] || !ShouldApply(p, rule)
    ensures AllOutputs(p, a + [rule] + b) == AllOutputs(p, a + b)
  {
    RulesConcatenate(p, a + [rule], b);
    RulesConcatenate(p, a, [rule]);
    RulesConcatenate(p, a, b);
    assert AllOutputs(p, [rule]) == AllOutputs(p, []) + RuleOutputs(p, rule);
  }

  // ---------------------------------------------------------------------
  // processar_arquivo

  /** The products of a file after separation, in order. */
  function SeparatedAll(ps: seq<Product>, rules: Option<seq<SeparatorRule>>): seq<Product>
  {
    FlatMap((p: Product) => Separated(p, rules), ps)
  }

  /** `processar_arquivo` on a file named `jsonName` holding `ps`: no output
      when no configuration is found or it has no separators; otherwise the
      products separated one by one and concatenated. */
  method ProcessFile(pool: seq<Config>, jsonName: string, ps: seq<Product>)
    returns (out: Option<seq<Product>>, config: Option<nat>)
    ensures SeparatorChosen(pool, jsonName, config)
    ensures out.Some? <==> config.Some? && pool[config.value].separadores.Some? && pool[config.value].separadores.value != []
    ensures out.Some? ==> out.value == SeparatedAll(ps, pool[config.value].separadores)
  {
    config := FindSeparatorConfig(pool, jsonName);
    if config.None? {
      return None, config;
    }
    var rules := pool[config.value].separadores;
    if rules.None? || rules.value == [] {
      return None, config;
    }
    var acc := [];
    var i := 0;
    while i < |ps|
      invariant i <= |ps|
      invariant acc == SeparatedAll(ps[..i], rules)
    {
      assert ps[..i + 1][..i] == ps[..i];
      var produced := ProcessSeparators(ps[i], rules);
      acc := acc + produced;
      i := i + 1;
    }
    assert ps[..i] == ps;
    out := Some(acc);
  }

  /** The file's output is the products' outputs concatenated in order, so it
      is split product by product, and no product is lost. */
  lemma SeparatedAllConcatenate(a: seq<Product>, b: seq<Product>, rules: Option<seq<SeparatorRule>>)
    ensures SeparatedAll(a + b, rules) == SeparatedAll(a, rules) + SeparatedAll(b, rules)
  {
    FlatMapAppend((p: Product) => Separated(p, rules), a, b);
  }

  lemma {:induction false} SeparatedAllLength(ps: seq<Product>, rules: Option<seq<SeparatorRule>>)
    ensures |SeparatedAll(ps, rules)| >= |ps|
    decreases |ps|
  {
    if ps != [] {
      SeparatedAllLength(ps[..|ps| - 1], rules);
    }
  }
}
