/**
 * The flag parsers of internal/cli/flags.go. Reading a flag through cobra
 * is left out: a flag's value (or its absence) is the input.
 */
module CliFlags {
  import opened Wrappers
  import opened Strs

  /** The language names and short aliases --lang accepts, with their canonical language. */
  const LanguageAliases: map<string, string> := map[
    "go" := "go",
    "python" := "python",
    "py" := "python",
    "ruby" := "ruby",
    "rb" := "ruby",
    "typescript" := "typescript",
    "ts" := "typescript",
    "javascript" := "javascript",
    "js" := "javascript"
  ]

  const CanonicalLanguages: set<string> := {"go", "python", "ruby", "typescript", "javascript"}

  /** Every alias names a canonical language, and each canonical name is its own alias. */
  lemma AliasesCanonical()
    ensures forall k :: k in LanguageAliases ==> LanguageAliases[k] in CanonicalLanguages
    ensures forall c :: c in CanonicalLanguages ==> c in LanguageAliases && LanguageAliases[c] == c
  {
  }

  /** The lookup key of one --lang entry. */
  function LanguageKey(lang: string): string {
    ToLower(TrimSpace(lang))
  }

  predicate Supported(lang: string) {
    LanguageKey(lang) in LanguageAliases
  }

  /**
   * ParseLanguageFilter: an empty list gives the empty filter; the first
   * entry whose key is not a known alias fails the whole call; otherwise
   * the filter holds exactly the canonical languages of the entries.
   */
  method ParseLanguageFilter(langs: seq<string>) returns (r: Result<map<string, bool>, string>)
    ensures langs == [] ==> r == Success(map[])
    ensures r.Failure? <==> exists i :: 0 <= i < |langs| && !Supported(langs[i])
    ensures r.Failure? ==> exists i :: (0 <= i < |langs| && r.error == langs[i] && !Supported(langs[i]) &&
      forall j :: 0 <= j < i ==> Supported(langs[j]))
    ensures r.Success? ==> forall c :: c in r.value <==>
      exists i :: 0 <= i < |langs| && Supported(langs[i]) && LanguageAliases[LanguageKey(langs[i])] == c
    ensures r.Success? ==> forall c :: c in r.value ==> r.value[c]
  {
    if |langs| == 0 {
      return Success(map[]);
    }
    var filter: map<string, bool> := map[];
    var i := 0;
    while i < |langs|
      invariant 0 <= i <= |langs|
      invariant forall j :: 0 <= j < i ==> Supported(langs[j])
      invariant FilterOf(filter, LanguageAliases, langs, i)
    {
      var key := LanguageKey(langs[i]);
      if key !in LanguageAliases {
        return Failure(langs[i]);
      }
      FilterStep(filter, LanguageAliases, langs, i);
      filter := filter[LanguageAliases[key] := true];
      i := i + 1;
    }
    return Success(filter);
  }

  /** The filter holds, each set to true, the canonical languages of the first n entries. */
  ghost predicate FilterOf(filter: map<string, bool>, aliases: map<string, string>, langs: seq<string>, n: nat)
    requires n <= |langs|
  {
    && (forall c :: c in filter <==> exists j :: 0 <= j < n && LanguageKey(langs[j]) in aliases && aliases[LanguageKey(langs[j])] == c)
    && (forall c :: c in filter ==> filter[c])
  }

  lemma FilterStep(filter: map<string, bool>, aliases: map<string, string>, langs: seq<string>, i: nat)
    requires i < |langs| && FilterOf(filter, aliases, langs, i) && LanguageKey(langs[i]) in aliases
    ensures FilterOf(filter[aliases[LanguageKey(langs[i])] := true], aliases, langs, i + 1)
  {
  }

  /** Every language of a parsed filter is canonical. */
  lemma FilterCanonical(langs: seq<string>, filter: map<string, bool>)
    requires forall c :: c in filter ==> exists i :: 0 <= i < |langs| && Supported(langs[i]) && LanguageAliases[LanguageKey(langs[i])] == c
    ensures forall c :: c in filter ==> c in CanonicalLanguages
  {
    AliasesCanonical();
  }

  /**
   * OptionalStringFlag: "" when the command or the flag is absent, else the
   * trimmed value.
   */
  function OptionalStringFlag(flag: Option<string>): (r: string)
    ensures NoEdgeSpace(r)
    ensures flag.None? ==> r == ""
    ensures flag.Some? && NoEdgeSpace(flag.value) ==> r == flag.value
  {
    match flag
    case None => ""
    case Some(v) => TrimSpace(v)
  }
}
