// The regex configuration builder of the configuration editor
// (JSON/src/components/ConfigRegexBuilder.tsx, types in
// JSON/src/types/regexConfig.ts): each configuration names where a block
// starts (`inicio`), its variations, and optionally a stop line that may
// start a new configuration below it.  The handlers are record updates; the
// export cleans the configurations and appends the complete ones to the
// final list.
module RegexConfig {
  import opened Wrappers
  import opened Text
  import opened Split
  import opened CommaLists

  /** `AplicarRegexTipo` */
  datatype Apply = Inicial | Abaixo

  /** `LinhaParadaTipo`: stop everything, apply to the stop line and stop,
      or apply to the stop line and go on with a new configuration. */
  datatype StopKind = PararTotal | AplicarEParar | IgnorarEContinuar

  /** `LinhaParada` */
  datatype StopLine = StopLine(nome: string, tipo: StopKind, regexLinhaParada: Option<string>,
                               novaConfiguracaoAbaixo: Option<Configuration>)

  /** `ConfiguracaoRegex` */
  datatype Configuration = Configuration(inicio: string, variacoes: seq<string>, regexAtivado: bool,
                                         aplicarRegex: Apply, linhaParada: Option<StopLine>)

  /** A new configuration: nothing filled in, regex off, applied from the
      start. */
  const EMPTY_CONFIGURATION: Configuration := Configuration("", [], false, Inicial, None)

  // ---------------------------------------------------------------------
  // The variation field

  /** `text.split(/[,\n]/).map((v) => v.trim()).filter((v) => v.length > 0)`:
      splitting on a comma or a newline is splitting on a comma once every
      newline is a comma. */
  function ParseList(text: string): seq<string>
  {
    Items(ReplaceChar(text, '\n', ','))
  }

  /** An entry as the field keeps it: not blank, trimmed, without a comma or
      a newline. */
  predicate Clean(v: string)
  {
    Entry(v) && '\n' !in v
  }

  predicate AllClean(vs: seq<string>)
  {
    forall k :: 0 <= k < |vs| ==> Clean(vs[k])
  }

  /** Every entry of a parsed field is clean. */
  lemma ParsedClean(text: string)
    ensures AllClean(ParseList(text))
  {
    var t := ReplaceChar(text, '\n', ',');
    ItemsAreEntries(t);
    ItemsAvoid(t, '\n');
  }

  /** The field shows the variations joined with ", " (the initial text of
      the input); parsing that text gives them back. */
  lemma ShownListRoundTrip(vs: seq<string>)
    requires AllClean(vs)
    ensures ParseList(Join(vs, ", ")) == vs
  {
    var text := Join(vs, ", ");
    forall k, i | 0 <= k < |vs| && 0 <= i < |vs[k]|
      ensures vs[k][i] != '\n'
    {
      assert Clean(vs[k]);
    }
    JoinNoChar(vs, ", ", '\n');
    assert ReplaceChar(text, '\n', ',') == text;
    assert AllEntries(vs);
    ItemsJoinRoundTrip(vs);
  }

  // ---------------------------------------------------------------------
  // The handlers

  /** `handleVariacoesChange` */
  function SetVariations(c: Configuration, text: string): (r: Configuration)
    ensures r.(variacoes := c.variacoes) == c
    ensures AllClean(r.variacoes)
  {
    ParsedClean(text);
    c.(variacoes := ParseList(text))
  }

  /** `handleRegexAtivadoChange`: switching the regex off puts it back to
      "apply from the start". */
  function SetRegexActive(c: Configuration, on: bool): (r: Configuration)
    ensures r.regexAtivado == on
    ensures !on ==> r.aplicarRegex == Inicial
    ensures r.(regexAtivado := c.regexAtivado, aplicarRegex := c.aplicarRegex) == c
  {
    c.(regexAtivado := on, aplicarRegex := if on then c.aplicarRegex else Inicial)
  }

  /** `handleAplicarRegexChange`: choosing "apply from the start" drops the
      stop line. */
  function SetApply(c: Configuration, a: Apply): (r: Configuration)
    ensures r.aplicarRegex == a
    ensures a == Inicial ==> r.linhaParada.None?
    ensures a == Abaixo ==> r.linhaParada == c.linhaParada
    ensures r.(aplicarRegex := c.aplicarRegex, linhaParada := c.linhaParada) == c
  {
    c.(aplicarRegex := a, linhaParada := if a == Inicial then None else c.linhaParada)
  }

  /** `handleTipoChange`: stopping everything drops the stop line's own
      regex; any kind but "ignore and continue" drops the configuration
      below. */
  function SetStopKind(l: StopLine, t: StopKind): StopLine
  {
    l.(tipo := t,
       regexLinhaParada := if t == PararTotal then None else l.regexLinhaParada,
       novaConfiguracaoAbaixo := if t != IgnorarEContinuar then None else l.novaConfiguracaoAbaixo)
  }

  /** A stop line carries only what its kind uses. */
  predicate Tidy(l: StopLine)
  {
    (l.tipo == PararTotal ==> l.regexLinhaParada.None?)
    && (l.tipo != IgnorarEContinuar ==> l.novaConfiguracaoAbaixo.None?)
  }

  /** Changing the kind always leaves a tidy stop line and keeps its name;
      changing it to "ignore and continue" keeps everything else. */
  lemma StopKindTidy(l: StopLine, t: StopKind)
    ensures Tidy(SetStopKind(l, t))
    ensures SetStopKind(l, t).tipo == t && SetStopKind(l, t).nome == l.nome
    ensures t == IgnorarEContinuar ==> SetStopKind(l, t) == l.(tipo := t)
    ensures t == AplicarEParar ==> SetStopKind(l, t).regexLinhaParada == l.regexLinhaParada
  {
  }

  /** `handleAdicionarLinhaParada`: a new, unnamed stop line that stops
      everything. */
  function AddStopLine(c: Configuration): (r: Configuration)
    ensures r.linhaParada.Some? && Tidy(r.linhaParada.value) && r.linhaParada.value.nome == ""
    ensures r.(linhaParada := c.linhaParada) == c
  {
    c.(linhaParada := Some(StopLine("", PararTotal, None, None)))
  }

  // ---------------------------------------------------------------------
  // The list of configurations

  /** `handleConfigDuplicate`: a deep copy, which for values is the value
      itself, appended. */
  function Duplicate(cs: seq<Configuration>, i: nat): (r: seq<Configuration>)
    requires i < |cs|
    ensures |r| == |cs| + 1 && r[..|cs|] == cs && r[|cs|] == cs[i]
  {
    cs + [cs[i]]
  }

  /** `handleAddConfig` */
  function AddConfig(cs: seq<Configuration>): (r: seq<Configuration>)
    ensures |r| == |cs| + 1 && r[..|cs|] == cs && r[|cs|] == EMPTY_CONFIGURATION
  {
    cs + [EMPTY_CONFIGURATION]
  }

  // ---------------------------------------------------------------------
  // Export

  /** The variations trimmed, blank ones dropped. */
  function CleanVariations(vs: seq<string>): seq<string>
  {
    NonBlankPieces(vs)
  }

  /** The stop line's own regex, exported only when set and used by its
      kind. */
  function CleanStopRegex(l: StopLine): Option<string>
  {
    if l.regexLinhaParada.Some? && Trim(l.regexLinhaParada.value) != ""
       && (l.tipo == AplicarEParar || l.tipo == IgnorarEContinuar)
    then Some(Trim(l.regexLinhaParada.value))
    else None
  }

  /** `cleanConfig`: texts trimmed, blank variations dropped, a stop line
      only when it has a name, its regex only when its kind uses one, and
      the configuration below only for "ignore and continue" and only when,
      cleaned, it has a start and a variation. */
  function CleanConfig(c: Configuration): Configuration
    decreases c
  {
    Configuration(Trim(c.inicio), CleanVariations(c.variacoes), c.regexAtivado, c.aplicarRegex,
      match c.linhaParada
      case None => None
      case Some(l) =>
        if Trim(l.nome) == "" then None
        else
          var below :=
            match l.novaConfiguracaoAbaixo
            case Some(sub) =>
              if l.tipo == IgnorarEContinuar then
                var s := CleanConfig(sub);
                if s.inicio != "" && |s.variacoes| > 0 then Some(s) else None
              else None
            case None => None;
          Some(StopLine(Trim(l.nome), l.tipo, CleanStopRegex(l), below)))
  }

  /** Cleaning a cleaned configuration changes nothing. */
  lemma {:induction false} CleanConfigIdempotent(c: Configuration)
    ensures CleanConfig(CleanConfig(c)) == CleanConfig(c)
    decreases c
  {
    TrimIdempotent(c.inicio);
    NonBlankPiecesIdempotent(c.variacoes);
    match c.linhaParada
    case None =>
    case Some(l) =>
      if Trim(l.nome) != "" {
        TrimIdempotent(l.nome);
        if l.regexLinhaParada.Some? {
          TrimIdempotent(l.regexLinhaParada.value);
        }
        match l.novaConfiguracaoAbaixo
        case None =>
        case Some(sub) =>
          if l.tipo == IgnorarEContinuar {
            CleanConfigIdempotent(sub);
          }
      }
  }

  /** A configuration is exported when its start and one of its variations
      are not blank. */
  predicate Exportable(c: Configuration)
  {
    Trim(c.inicio) != "" && exists k :: 0 <= k < |c.variacoes| && Trim(c.variacoes[k]) != ""
  }

  function ExportedConfigs(cs: seq<Configuration>): seq<Configuration>
  {
    if cs == [] then []
    else (if Exportable(cs[0]) then [CleanConfig(cs[0])] else []) + ExportedConfigs(cs[1..])
  }

  /** `handleExport`: the cleaned exportable configurations appended to the
      final list, and the list being edited emptied. */
  function Export(jsonFinal: seq<Configuration>, cs: seq<Configuration>): (r: (seq<Configuration>, seq<Configuration>))
    ensures jsonFinal <= r.0 && r.1 == []
    ensures forall x :: x in r.0[|jsonFinal|..] <==>
              exists k :: 0 <= k < |cs| && Exportable(cs[k]) && x == CleanConfig(cs[k])
  {
    ExportedExactly(cs);
    var r0 := jsonFinal + ExportedConfigs(cs);
    assert r0[|jsonFinal|..] == ExportedConfigs(cs);
    (r0, [])
  }

  /** What is exported is exactly the cleaned form of each configuration
      whose start and some variation are not blank: every such configuration
      is exported, and nothing else is. */
  lemma {:induction false} ExportedExactly(cs: seq<Configuration>)
    ensures forall x :: x in ExportedConfigs(cs) <==>
              exists k :: 0 <= k < |cs| && Exportable(cs[k]) && x == CleanConfig(cs[k])
    decreases |cs|
  {
    if cs != [] {
      var tail := cs[1..];
      ExportedExactly(tail);
      forall x
        ensures x in ExportedConfigs(cs) <==>
                exists k :: 0 <= k < |cs| && Exportable(cs[k]) && x == CleanConfig(cs[k])
      {
        if x in ExportedConfigs(tail) {
          var k :| 0 <= k < |tail| && Exportable(tail[k]) && x == CleanConfig(tail[k]);
          assert cs[k + 1] == tail[k];
        }
        if exists k :: 0 <= k < |cs| && Exportable(cs[k]) && x == CleanConfig(cs[k]) {
          var k :| 0 <= k < |cs| && Exportable(cs[k]) && x == CleanConfig(cs[k]);
          if k > 0 {
            assert tail[k - 1] == cs[k];
          }
        }
      }
    }
  }

  lemma {:induction false} ExportedComplete(cs: seq<Configuration>)
    ensures forall k :: 0 <= k < |ExportedConfigs(cs)| ==>
              var e := ExportedConfigs(cs)[k];
              e.inicio != "" && |e.variacoes| > 0 && CleanConfig(e) == e
    ensures |ExportedConfigs(cs)| <= |cs|
  {
    if cs != [] {
      ExportedComplete(cs[1..]);
      if Exportable(cs[0]) {
        var k :| 0 <= k < |cs[0].variacoes| && Trim(cs[0].variacoes[k]) != "";
        NonBlankPiecesNonEmpty(cs[0].variacoes, k);
        CleanConfigIdempotent(cs[0]);
      }
    }
  }

  /** Export keeps the final list as a prefix and appends only complete,
      already-clean configurations (a start and at least one variation). */
  lemma ExportAppendsClean(jsonFinal: seq<Configuration>, cs: seq<Configuration>)
    ensures var r := Export(jsonFinal, cs).0;
            |jsonFinal| <= |r| <= |jsonFinal| + |cs|
            && forall k :: |jsonFinal| <= k < |r| ==> r[k].inicio != "" && |r[k].variacoes| > 0 && CleanConfig(r[k]) == r[k]
  {
    ExportedComplete(cs);
  }

  // ---------------------------------------------------------------------
  // isValid

  /** The check for one configuration: a start and a variation, and, when
      the regex is applied below a stop line, a named stop line with the
      regex its kind needs and a complete configuration below it. */
  predicate Valid(c: Configuration)
  {
    Trim(c.inicio) != "" && |c.variacoes| > 0
    && (c.regexAtivado && c.aplicarRegex == Abaixo && c.linhaParada.Some? ==>
          var l := c.linhaParada.value;
          Trim(l.nome) != ""
          && (l.tipo == AplicarEParar ==> l.regexLinhaParada.Some? && l.regexLinhaParada.value != "")
          && (l.tipo == IgnorarEContinuar ==>
                l.regexLinhaParada.Some? && l.regexLinhaParada.value != ""
                && (l.novaConfiguracaoAbaixo.Some? ==>
                      Trim(l.novaConfiguracaoAbaixo.value.inicio) != "" && |l.novaConfiguracaoAbaixo.value.variacoes| > 0)))
  }

  /** `isValid` */
  predicate AllValid(cs: seq<Configuration>)
  {
    forall k :: 0 <= k < |cs| ==> Valid(cs[k])
  }

  /** A valid list whose variations came from the field (so none is blank)
      is exported whole: every configuration reaches the final list. */
  lemma ValidFieldsExportAll(jsonFinal: seq<Configuration>, cs: seq<Configuration>)
    requires AllValid(cs)
    requires forall k :: 0 <= k < |cs| ==> AllClean(cs[k].variacoes)
    ensures |Export(jsonFinal, cs).0| == |jsonFinal| + |cs|
  {
    ExportsEvery(cs);
  }

  lemma {:induction false} ExportsEvery(cs: seq<Configuration>)
    requires AllValid(cs)
    requires forall k :: 0 <= k < |cs| ==> AllClean(cs[k].variacoes)
    ensures |ExportedConfigs(cs)| == |cs|
  {
    if cs != [] {
      assert Valid(cs[0]) && AllClean(cs[0].variacoes);
      assert Clean(cs[0].variacoes[0]);
      assert Exportable(cs[0]);
      ExportsEvery(cs[1..]);
    }
  }
}
