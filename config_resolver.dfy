// Choosing the supplier configuration for a data file by comparing the file's
// name with the spreadsheet paths each configuration declares
// (`encontrar_config` of the extractor and of the separator stage).
module ConfigResolver {
  import opened Text
  import opened Wrappers
  import opened Catalog

  /** `re.sub(r'[^a-zA-Z0-9]', '', name.lower().strip())` */
  function NormalizeName(s: string): (r: string)
    ensures forall i :: 0 <= i < |r| ==> IsDigit(r[i]) || IsLower(r[i])
  {
    FilterKeeps(Lower(Trim(s)), IsAlnum);
    assert forall c :: c in Lower(Trim(s)) ==> !IsUpper(c);
    Filter(Lower(Trim(s)), IsAlnum)
  }

  /** How well the normalised name of a data file (`file`) matches the
      normalised stem of a configured spreadsheet path (`declared`). */
  function Score(file: string, declared: string): real
  {
    if declared == file then 100.0
    else if StartsWith(file, declared) then
      90.0 + (if file == "" then 0.0 else (|declared| as real / |file| as real) * 10.0)
    else if StartsWith(declared, file) then
      70.0 + (if declared == "" then 0.0 else (|file| as real / |declared| as real) * 10.0)
    else if Contains(file, declared) then
      var p := if file == "" then 0.0 else |declared| as real / |file| as real;
      if p < 0.3 then 30.0 else 50.0 + p * 20.0
    else 0.0
  }

  /** A configured spreadsheet that matches the data file's name. */
  datatype Candidate = Candidate(config: nat, score: real, stemLength: nat, role: Role)

  /** The order of the sort key `(score, len(stem))`. */
  predicate KeyLess(a: Candidate, b: Candidate)
  {
    a.score < b.score || (a.score == b.score && a.stemLength < b.stemLength)
  }

  /** The candidates of one configuration's `files`, in key order. */
  function FileCandidates(index: nat, files: seq<FileEntry>, file: string): (r: seq<Candidate>)
    ensures forall c :: c in r ==> c.config == index && c.score > 0.0
  {
    if files == [] then []
    else
      var rest := FileCandidates(index, files[1..], file);
      match files[0].path
      case None => rest
      case Some(p) =>
        var s := Score(file, NormalizeName(Stem(p)));
        if s > 0.0 then [Candidate(index, s, |Stem(p)|, files[0].role)] + rest else rest
  }

  /** All candidates over the configuration files, in directory order. */
  function Candidates(pool: seq<Config>, file: string): (r: seq<Candidate>)
    ensures forall c :: c in r ==> c.config < |pool| && c.score > 0.0
    decreases |pool|
  {
    if pool == [] then []
    else Candidates(pool[..|pool| - 1], file) + FileCandidates(|pool| - 1, pool[|pool| - 1].files, file)
  }

  /** The match a stable sort by descending `(score, len(stem))` puts first:
      no candidate has a greater key, and every earlier one has a smaller key. */
  predicate IsFirstBest(cs: seq<Candidate>, k: nat)
  {
    k < |cs|
    && (forall j :: 0 <= j < |cs| ==> !KeyLess(cs[k], cs[j]))
    && (forall j :: 0 <= j < k ==> KeyLess(cs[j], cs[k]))
  }

  /** The head of `sorted(candidates, key=(score, len(stem)), reverse=True)`. */
  method SelectBest(cs: seq<Candidate>) returns (best: Option<nat>)
    ensures best.None? <==> cs == []
    ensures best.Some? ==> IsFirstBest(cs, best.value)
  {
    if cs == [] {
      return None;
    }
    var k := 0;
    var i := 1;
    while i < |cs|
      invariant 1 <= i <= |cs| && k < i
      invariant forall j :: 0 <= j < i ==> !KeyLess(cs[k], cs[j])
      invariant forall j :: 0 <= j < k ==> KeyLess(cs[j], cs[k])
    {
      if KeyLess(cs[k], cs[i]) {
        k := i;
      }
      i := i + 1;
    }
    return Some(k);
  }

  /** The candidate list, built as the source builds it: one configuration at a
      time, one declared file at a time. */
  method CollectCandidates(pool: seq<Config>, file: string) returns (cs: seq<Candidate>)
    ensures cs == Candidates(pool, file)
  {
    cs := [];
    var n := 0;
    while n < |pool|
      invariant n <= |pool|
      invariant cs == Candidates(pool[..n], file)
    {
      var files := pool[n].files;
      var fromThis: seq<Candidate> := [];
      var m := |files|;
      while m > 0
        invariant 0 <= m <= |files|
        invariant fromThis == FileCandidates(n, files[m..], file)
      {
        m := m - 1;
        assert files[m..][1..] == files[m + 1..];
        match files[m].path {
          case None =>
          case Some(p) =>
            var s := Score(file, NormalizeName(Stem(p)));
            if s > 0.0 {
              fromThis := [Candidate(n, s, |Stem(p)|, files[m].role)] + fromThis;
            }
        }
      }
      assert files[0..] == files;
      assert pool[..n + 1][..n] == pool[..n];
      cs := cs + fromThis;
      n := n + 1;
    }
    assert pool[..n] == pool;
  }

  /** `c` is the configuration chosen for the file `name` when there is at least
      one: the first best match, or the first configuration when none matches. */
  ghost predicate ChosenFor(pool: seq<Config>, name: string, c: nat)
  {
    var cs := Candidates(pool, NormalizeName(Stem(name)));
    && c < |pool|
    && (cs != [] ==> exists k: nat :: IsFirstBest(cs, k) && c == cs[k].config)
    && (cs == [] ==> c == 0)
  }

  /** The extractor's choice (MOTOR/geradorJSON.py): no configuration at all
      ends the program (`None`); without a file name, or when nothing matches,
      the first configuration is used. */
  method FindExtractorConfig(pool: seq<Config>, txtName: Option<string>) returns (r: Option<nat>)
    ensures r.None? <==> pool == []
    ensures r.Some? ==> r.value < |pool|
    ensures r.Some? && txtName.Some? ==> ChosenFor(pool, txtName.value, r.value)
    ensures r.Some? && txtName.None? ==> r.value == 0
  {
    if pool == [] {
      return None;
    }
    if txtName.None? {
      return Some(0);
    }
    var cs := CollectCandidates(pool, NormalizeName(Stem(txtName.value)));
    var best := SelectBest(cs);
    match best {
      case None => r := Some(0);
      case Some(k) =>
        assert cs[k] in cs;
        r := Some(cs[k].config);
    }
  }

  /** `r` is the separator stage's choice for `jsonName`: none when nothing
      matches, else the first best match. */
  ghost predicate SeparatorChosen(pool: seq<Config>, jsonName: string, r: Option<nat>)
  {
    var cs := Candidates(pool, NormalizeName(ReplaceAll(Stem(jsonName), "_mesclado", "")));
    && (r.None? <==> cs == [])
    && (r.Some? ==> r.value < |pool| && exists k: nat :: IsFirstBest(cs, k) && r.value == cs[k].config)
  }

  /** The separator stage's choice (MOTOR/separadorVariacoes.py): the name has
      every "_mesclado" removed, and when nothing matches there is no
      configuration. */
  method FindSeparatorConfig(pool: seq<Config>, jsonName: string) returns (r: Option<nat>)
    ensures SeparatorChosen(pool, jsonName, r)
  {
    var cs := CollectCandidates(pool, NormalizeName(ReplaceAll(Stem(jsonName), "_mesclado", "")));
    var best := SelectBest(cs);
    match best {
      case None => r := None;
      case Some(k) =>
        assert cs[k] in cs;
        r := Some(cs[k].config);
    }
  }

  // ---------------------------------------------------------------------
  // Properties

  /** Normalising twice is normalising once. */
  lemma NormalizeIdempotent(s: string)
    ensures NormalizeName(NormalizeName(s)) == NormalizeName(s)
  {
    var n := NormalizeName(s);
    TrimNoSpaces(n);
    assert Lower(n) == n;
    FilterAllKept(n, IsAlnum);
  }

  lemma RatioBelowOne(a: real, b: real)
    requires 0.0 <= a < b
    ensures a / b < 1.0
  {
    var q := a / b;
    assert q * b == a;
    assert q >= 1.0 ==> (q - 1.0) * b >= 0.0;
  }

  /** The score bands: an exact match scores 100, a data-file name that starts
      with the declared stem scores in [90, 100), a declared stem that starts
      with the file name in [70, 80), a declared stem inside the file name
      either 30 (under 30% of it) or in [56, 70), anything else 0. */
  lemma ScoreBands(file: string, declared: string)
    ensures declared == file <==> Score(file, declared) == 100.0
    ensures declared != file && StartsWith(file, declared) ==>
      90.0 <= Score(file, declared) < 100.0
    ensures declared != file && !StartsWith(file, declared) && StartsWith(declared, file) ==>
      70.0 <= Score(file, declared) < 80.0
    ensures !StartsWith(file, declared) && !StartsWith(declared, file) && Contains(file, declared) ==>
      Score(file, declared) == 30.0 || (56.0 <= Score(file, declared) < 70.0)
    ensures Score(file, declared) > 0.0 <==> Contains(file, declared) || StartsWith(declared, file)
  {
    if declared != file && StartsWith(file, declared) {
      assert file[..|file|] == file;
      assert |declared| < |file|;
      RatioBelowOne(|declared| as real, |file| as real);
    }
    if declared != file && StartsWith(declared, file) {
      assert declared[..|declared|] == declared;
      assert |file| < |declared|;
      RatioBelowOne(|file| as real, |declared| as real);
    }
    if !StartsWith(file, declared) && Contains(file, declared) {
      var i :| 0 <= i <= |file| && OccursAt(file, declared, i);
      assert |declared| < |file|;
      var p := |declared| as real / |file| as real;
      RatioBelowOne(|declared| as real, |file| as real);
      assert p >= 0.3 ==> 56.0 <= 50.0 + p * 20.0;
    }
    if StartsWith(file, declared) {
      assert OccursAt(file, declared, 0);
    }
  }
}
