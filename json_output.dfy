// The output panel of the configuration editor
// (JSON/src/components/JsonOutput.tsx): the configuration shown and
// downloaded, with the regex configurations attached when there are some,
// and the download dialog, which turns what the user types into a file
// name of the form `config_<NAME>.json`.
module JsonOutput {
  import opened Wrappers
  import opened Text
  import RegexConfig

  // ---------------------------------------------------------------------
  // finalConfig

  /** The object serialised: the configuration, plus a `regexConfig` member
      when it is present. */
  datatype Output<C> = Output(config: C, regexConfig: Option<seq<RegexConfig.Configuration>>)

  /** `finalConfig`: `{...config, regexConfig}` when the regex
      configurations are a non-empty list, the configuration alone
      otherwise. */
  function FinalConfig<C>(config: C, regexConfig: Option<seq<RegexConfig.Configuration>>): (r: Output<C>)
    ensures r.config == config
    ensures r.regexConfig.Some? <==> regexConfig.Some? && |regexConfig.value| > 0
    ensures r.regexConfig.Some? ==> r.regexConfig == regexConfig
  {
    if regexConfig.Some? && |regexConfig.value| > 0 then Output(config, regexConfig)
    else Output(config, None)
  }

  // ---------------------------------------------------------------------
  // Sanitising

  /** `replace(/\s+/g, '_')`: every run of whitespace becomes one
      underscore. */
  function Underscored(s: string): (r: string)
    ensures forall i :: 0 <= i < |r| ==> !IsSpace(r[i])
    ensures (forall i :: 0 <= i < |s| ==> !IsSpace(s[i])) ==> r == s
    ensures forall i :: 0 <= i < |r| ==> r[i] == '_' || r[i] in s
    decreases |s|
  {
    if s == [] then []
    else if IsSpace(s[0]) then
      TrimStartShape(s[1..]);
      "_" + Underscored(TrimStart(s[1..]))
    else
      [s[0]] + Underscored(s[1..])
  }

  /** The characters `[a-zA-Z0-9_-]` a file name keeps. */
  predicate Allowed(c: char)
  {
    IsAlnum(c) || c == '_' || c == '-'
  }

  /** The characters of a download name: `[A-Z0-9_-]`. */
  predicate NameChar(c: char)
  {
    IsDigit(c) || IsUpper(c) || c == '_' || c == '-'
  }

  predicate AllAllowed(s: string)
  {
    forall i :: 0 <= i < |s| ==> Allowed(s[i])
  }

  predicate AllNameChars(s: string)
  {
    forall i :: 0 <= i < |s| ==> NameChar(s[i])
  }

  /** The submitted text, trimmed, whitespace runs turned into "_", other
      characters outside the allowed class removed. */
  function Sanitize(s: string): (r: string)
    ensures AllAllowed(r)
  {
    var u := Underscored(Trim(s));
    FilterKeeps(u, Allowed);
    Filter(u, Allowed)
  }

  /** A text made of allowed characters is its own sanitised form. */
  lemma SanitizeKeepsAllowed(s: string)
    requires AllAllowed(s)
    ensures Sanitize(s) == s
  {
    assert forall i :: 0 <= i < |s| ==> !IsSpace(s[i]) by {
      forall i | 0 <= i < |s| ensures !IsSpace(s[i]) { assert Allowed(s[i]); }
    }
    TrimNoSpaces(s);
    FilterAllKept(s, Allowed);
  }

  /** Sanitising twice is sanitising once. */
  lemma SanitizeIdempotent(s: string)
    ensures Sanitize(Sanitize(s)) == Sanitize(s)
  {
    SanitizeKeepsAllowed(Sanitize(s));
  }

  /** `handleFileNameChange`: what the field keeps as the user types, with
      no trimming, then upper-cased. */
  function FieldValue(v: string): (r: string)
    ensures AllNameChars(r)
  {
    var kept := Filter(Underscored(v), Allowed);
    FilterKeeps(Underscored(v), Allowed);
    UpperNameChars(kept);
    Upper(kept)
  }

  lemma UpperNameChars(s: string)
    requires AllAllowed(s)
    ensures AllNameChars(Upper(s))
  {
    forall i | 0 <= i < |s|
      ensures NameChar(Upper(s)[i])
    {
      assert Allowed(s[i]);
    }
  }

  /** Typing into a field that already holds a value of its own changes
      nothing. */
  lemma FieldValueIdempotent(v: string)
    ensures FieldValue(FieldValue(v)) == FieldValue(v)
  {
    var f := FieldValue(v);
    assert forall i :: 0 <= i < |f| ==> !IsSpace(f[i]) && Allowed(f[i]) by {
      forall i | 0 <= i < |f| ensures !IsSpace(f[i]) && Allowed(f[i]) { assert NameChar(f[i]); }
    }
    FilterAllKept(f, Allowed);
    assert forall i :: 0 <= i < |f| ==> !IsLower(f[i]) by {
      forall i | 0 <= i < |f| ensures !IsLower(f[i]) { assert NameChar(f[i]); }
    }
  }

  // ---------------------------------------------------------------------
  // The download name

  const PREFIX: string := "config_"
  const SUFFIX: string := ".json"

  /** `replace(/^config_/i, '')`: one leading "config_", in any case. */
  function StripPrefix(s: string): (r: string)
    ensures |s| >= |PREFIX| && Lower(s[..|PREFIX|]) == PREFIX ==> s == s[..|PREFIX|] + r
    ensures !(|s| >= |PREFIX| && Lower(s[..|PREFIX|]) == PREFIX) ==> r == s
  {
    if |s| >= |PREFIX| && Lower(s[..|PREFIX|]) == PREFIX then s[|PREFIX|..] else s
  }

  /** `replace(/\.json$/i, '')`: one trailing ".json", in any case. */
  function StripSuffix(s: string): (r: string)
    ensures |s| >= |SUFFIX| && Lower(s[|s| - |SUFFIX|..]) == SUFFIX ==> s == r + s[|s| - |SUFFIX|..]
    ensures !(|s| >= |SUFFIX| && Lower(s[|s| - |SUFFIX|..]) == SUFFIX) ==> r == s
  {
    if |s| >= |SUFFIX| && Lower(s[|s| - |SUFFIX|..]) == SUFFIX then s[..|s| - |SUFFIX|] else s
  }

  /** The name part: the sanitised text without the prefix and the
      suffix. */
  function ProcessedName(input: string): (r: string)
    ensures AllAllowed(r)
  {
    var s := Sanitize(input);
    var p := StripPrefix(s);
    assert forall i :: 0 <= i < |p| ==> p[i] in s;
    StripSuffix(p)
  }

  /** `handleFileNameSubmit`: `None` (an invalid-name warning and no
      download) when the name part is empty, otherwise
      `config_<NAME>.json`. */
  function DownloadName(input: string): Option<string>
  {
    var p := ProcessedName(input);
    if p == "" then None else Some(PREFIX + Upper(p) + SUFFIX)
  }

  /** The suffix strip runs after sanitising has removed every '.', so it
      never removes anything. */
  lemma SuffixNeverStripped(s: string)
    requires AllAllowed(s)
    ensures StripSuffix(s) == s
  {
    if |s| >= |SUFFIX| {
      var tail := s[|s| - |SUFFIX|..];
      assert Allowed(s[|s| - |SUFFIX|]);
      assert Lower(tail)[0] != '.';
    }
  }

  /** The suffix holds no whitespace. */
  lemma SuffixNoSpace()
    ensures forall i :: 0 <= i < |SUFFIX| ==> !IsSpace(SUFFIX[i])
  {
  }

  /** Sanitising the suffix drops its dot. */
  lemma SuffixFiltered()
    ensures Filter(SUFFIX, Allowed) == "json"
  {
    assert SUFFIX[1..] == "json";
    FilterAllKept("json", Allowed);
  }

  lemma UpperJson()
    ensures Upper("json") == "JSON"
  {
  }

  /** Sanitising a name of allowed characters followed by ".json" drops
      only the dot. */
  lemma SanitizeDotted(name: string, typed: string, kept: string)
    requires AllAllowed(name) && typed == name + SUFFIX && kept == name + "json"
    ensures Sanitize(typed) == kept
  {
    SuffixNoSpace();
    SuffixFiltered();
    assert Underscored(Trim(typed)) == typed by {
      forall i | 0 <= i < |typed| ensures !IsSpace(typed[i]) {
        if i < |name| {
          assert Allowed(name[i]);
        } else {
          assert typed[i] == SUFFIX[i - |name|];
        }
      }
      TrimNoSpaces(typed);
    }
    assert Filter(typed, Allowed) == kept by {
      FilterAppend(name, SUFFIX, Allowed);
      FilterAllKept(name, Allowed);
    }
  }

  lemma NoPrefixWithJson(name: string)
    requires !(|name| >= |PREFIX| && Lower(name[..|PREFIX|]) == PREFIX)
    ensures StripPrefix(name + "json") == name + "json"
  {
    var kept := name + "json";
    if |kept| >= |PREFIX| && Lower(kept[..|PREFIX|]) == PREFIX && |name| < |PREFIX| {
      assert kept[|name|] == 'j';
      assert Lower(kept[..|PREFIX|])[|name|] == PREFIX[|name|];
    }
  }

  /** A name typed with ".json" at its end keeps it, without the dot, as
      part of the name. */
  lemma DottedSuffixKept(name: string)
    requires AllNameChars(name)
    requires !(|name| >= |PREFIX| && Lower(name[..|PREFIX|]) == PREFIX)
    ensures DownloadName(name + SUFFIX).Some?
    ensures DownloadName(name + SUFFIX).value == PREFIX + name + "JSON" + SUFFIX
  {
    var p := name + "json";
    DottedProcessed(name);
    DottedUpper(name);
    DownloadNameOf(name + SUFFIX, p);
    ConcatFour(PREFIX, name, "JSON", SUFFIX);
  }

  lemma DownloadNameOf(input: string, p: string)
    requires ProcessedName(input) == p && p != ""
    ensures DownloadName(input) == Some(PREFIX + Upper(p) + SUFFIX)
  {
  }

  lemma ConcatFour(a: string, b: string, c: string, d: string)
    ensures a + (b + c) + d == a + b + c + d
  {
  }

  /** The name part of such a name is the name followed by "json". */
  lemma DottedProcessed(name: string)
    requires AllNameChars(name)
    requires !(|name| >= |PREFIX| && Lower(name[..|PREFIX|]) == PREFIX)
    ensures ProcessedName(name + SUFFIX) == name + "json"
  {
    NameCharsAllowed(name);
    SanitizeDotted(name, name + SUFFIX, name + "json");
    NoPrefixWithJson(name);
    ProcessedNameIsStripped(name + SUFFIX);
  }

  lemma DottedUpper(name: string)
    requires AllNameChars(name)
    ensures Upper(name + "json") == name + "JSON"
  {
    NameCharsAllowed(name);
    UpperJson();
    UpperAppend(name, "json");
  }

  /** The name part is the sanitised text with one leading "config_" (in
      any case) removed. */
  lemma ProcessedNameIsStripped(input: string)
    ensures ProcessedName(input) == StripPrefix(Sanitize(input))
  {
    var s := Sanitize(input);
    var p := StripPrefix(s);
    assert forall i :: 0 <= i < |p| ==> p[i] in s;
    SuffixNeverStripped(p);
  }

  /** Every download name is "config_", a non-empty name of `[A-Z0-9_-]`
      and ".json"; the download is refused exactly when the name part is
      empty. */
  lemma DownloadNameShape(input: string)
    ensures DownloadName(input).None? <==> StripPrefix(Sanitize(input)) == ""
    ensures DownloadName(input).Some? ==>
              exists rest :: DownloadName(input).value == PREFIX + rest + SUFFIX && |rest| > 0 && AllNameChars(rest)
  {
    ProcessedNameIsStripped(input);
    var p := ProcessedName(input);
    if p != "" {
      UpperNameChars(p);
      assert DownloadName(input).value == PREFIX + Upper(p) + SUFFIX;
    }
  }

  lemma NameCharsAllowed(s: string)
    requires AllNameChars(s)
    ensures AllAllowed(s) && Upper(s) == s
  {
    assert AllAllowed(s) by {
      forall i | 0 <= i < |s| ensures Allowed(s[i]) { assert NameChar(s[i]); }
    }
    forall i | 0 <= i < |s| ensures Upper(s)[i] == s[i] { assert NameChar(s[i]); }
  }

  /** A name of `[A-Z0-9_-]` that does not itself start with "config_"
      gives `config_<name>.json`. */
  lemma DownloadNameOfName(name: string)
    requires |name| > 0 && AllNameChars(name)
    requires !(|name| >= |PREFIX| && Lower(name[..|PREFIX|]) == PREFIX)
    ensures DownloadName(name) == Some(PREFIX + name + SUFFIX)
  {
    NameCharsAllowed(name);
    SanitizeKeepsAllowed(name);
    ProcessedNameIsStripped(name);
  }

  lemma StripTypedPrefix(name: string)
    ensures StripPrefix(PREFIX + name) == name
  {
    var t := PREFIX + name;
    assert t[..|PREFIX|] == PREFIX && t[|PREFIX|..] == name;
    assert Lower(PREFIX) == PREFIX;
  }

  lemma PrefixedAllowed(name: string)
    requires AllAllowed(name)
    ensures AllAllowed(PREFIX + name)
  {
    var t := PREFIX + name;
    forall i | 0 <= i < |t| ensures Allowed(t[i]) {
      if i >= |PREFIX| { assert t[i] == name[i - |PREFIX|]; }
    }
  }

  /** Typing the "config_" prefix too gives the same name: the prefix is
      not doubled. */
  lemma DownloadNameOfPrefixedName(name: string)
    requires |name| > 0 && AllNameChars(name)
    ensures DownloadName(PREFIX + name) == Some(PREFIX + name + SUFFIX)
  {
    NameCharsAllowed(name);
    PrefixedAllowed(name);
    SanitizeKeepsAllowed(PREFIX + name);
    ProcessedNameIsStripped(PREFIX + name);
    StripTypedPrefix(name);
  }

  /** A name of `[A-Z0-9_-]` is processed by stripping the prefix alone. */
  lemma NameProcessed(f: string)
    requires AllNameChars(f)
    ensures ProcessedName(f) == StripPrefix(f)
  {
    NameCharsAllowed(f);
    SanitizeKeepsAllowed(f);
    ProcessedNameIsStripped(f);
  }

  /** Stripping the prefix of such a name leaves such a name. */
  lemma StrippedNameChars(f: string)
    requires AllNameChars(f)
    ensures AllNameChars(StripPrefix(f)) && Upper(StripPrefix(f)) == StripPrefix(f)
  {
    var p := StripPrefix(f);
    forall i | 0 <= i < |p| ensures NameChar(p[i]) {
      if p != f { assert p[i] == f[i + |PREFIX|]; }
    }
    NameCharsAllowed(p);
  }

  /** What the dialog submits is what the field kept: the download name of
      typed text is the field's value, without one leading "CONFIG_", between
      "config_" and ".json", and nothing is downloaded when that is empty. */
  lemma SubmitAfterTyping(v: string)
    ensures var f := FieldValue(v);
            DownloadName(f) == if StripPrefix(f) == "" then None else Some(PREFIX + StripPrefix(f) + SUFFIX)
  {
    var f := FieldValue(v);
    NameProcessed(f);
    StrippedNameChars(f);
  }
}
