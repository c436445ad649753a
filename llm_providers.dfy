/**
 * The --llm provider list and the context-format probe of
 * internal/llm/providers.go.
 *
 * A provider list is read as values separated by commas and white space;
 * "all" stands for every provider, and the providers come out once each,
 * in the order they were first named. Which generated files exist in the
 * context directory is a parameter: the set of their names.
 */
module LlmProviders {
  import opened Wrappers
  import opened Strs
  import opened Seqs
  import CliHelpers

  /** The providers "all" stands for, in the order it adds them. */
  const AllProviders: seq<string> := ["codex", "claude", "cursor"]

  /** A value the parser accepts: a provider, or "all". */
  predicate Valid(value: string) {
    value == "all" || value in AllProviders
  }

  // ---------------------------------------------------------------------
  // Specification

  /** The values of each chunk, in order. */
  function FieldsOfAll(chunks: seq<string>): (r: seq<string>)
    ensures forall k :: 0 <= k < |r| ==> IsWord(r[k])
  {
    if chunks == [] then []
    else FieldsOfAll(chunks[..|chunks| - 1]) + Fields(chunks[|chunks| - 1])
  }

  /**
   * The values of a raw --llm argument: lower-cased and trimmed, then split
   * on commas, and each chunk on white space. A blank argument has none.
   */
  function Values(raw: string): seq<string> {
    var s := TrimSpace(ToLower(raw));
    if s == "" then [] else FieldsOfAll(Split(s, ","))
  }

  /** The first value that is not accepted, if any. */
  function FirstInvalid(values: seq<string>): Option<string> {
    if values == [] then None
    else if !Valid(values[0]) then Some(values[0])
    else FirstInvalid(values[1..])
  }

  /** What one value asks for: every provider for "all", else itself. */
  function Expand(value: string): seq<string> {
    if value == "all" then AllProviders else [value]
  }

  function ExpandAll(values: seq<string>): seq<string> {
    if values == [] then []
    else ExpandAll(values[..|values| - 1]) + Expand(values[|values| - 1])
  }

  /** xs appended to out one at a time, each only when not already there. */
  function AppendNew(out: seq<string>, xs: seq<string>): seq<string> {
    if xs == [] then out
    else
      var o := AppendNew(out, xs[..|xs| - 1]);
      if xs[|xs| - 1] in o then o else o + [xs[|xs| - 1]]
  }

  /**
   * The parse of a list of values: the first value that is not accepted is
   * the error; otherwise the requested providers, each once, in the order
   * first asked for. An empty result stands for Go's nil slice.
   */
  function ParseValues(values: seq<string>): Result<seq<string>, string> {
    match FirstInvalid(values)
    case Some(bad) => Failure(bad)
    case None => Success(Distinct(ExpandAll(values)))
  }

  // ---------------------------------------------------------------------
  // ParseLLMProviders

  /**
   * The closure addProvider: the trimmed value is skipped when blank; "all"
   * appends the providers not seen yet; any other accepted value is
   * appended unless seen; anything else is the error. `seen` is the set of
   * providers in `out`.
   */
  method AddProvider(value: string, seen: set<string>, out: seq<string>)
    returns (seen': set<string>, out': seq<string>, err: Option<string>)
    requires forall x :: x in seen <==> x in out
    ensures var v := TrimSpace(value);
      && (err.Some? <==> v != "" && !Valid(v))
      && (err.Some? ==> err.value == v)
      && (err.None? && v == "" ==> out' == out)
      && (err.None? && v != "" ==> out' == AppendNew(out, Expand(v)))
      && (err.None? ==> forall x :: x in seen' <==> x in out')
  {
    var v := TrimSpace(value);
    if v == "" {
      return seen, out, None;
    }
    if v == "all" {
      seen', out' := seen, out;
      var k := 0;
      while k < |AllProviders|
        invariant 0 <= k <= |AllProviders|
        invariant out' == AppendNew(out, AllProviders[..k])
        invariant forall x :: x in seen' <==> x in out'
      {
        var provider := AllProviders[k];
        assert AllProviders[..k + 1][..k] == AllProviders[..k];
        if provider !in seen' {
          seen' := seen' + {provider};
          out' := out' + [provider];
        }
        k := k + 1;
      }
      assert AllProviders[..3] == AllProviders;
      return seen', out', None;
    }
    if v !in AllProviders {
      return seen, out, Some(v);
    }
    assert [v][..0] == [];
    if v !in seen {
      return seen + {v}, out + [v], None;
    }
    return seen, out, None;
  }

  /**
   * The inner loop over one chunk's values: each is added in turn, and the
   * first one not accepted stops the loop. `done` are the values added
   * before, none of them rejected.
   */
  method AddValues(values: seq<string>, seen: set<string>, out: seq<string>, ghost done: seq<string>)
    returns (seen': set<string>, out': seq<string>, err: Option<string>)
    requires forall k :: 0 <= k < |values| ==> IsWord(values[k])
    requires FirstInvalid(done).None? && out == Distinct(ExpandAll(done))
    requires forall x :: x in seen <==> x in out
    ensures err.Some? ==> FirstInvalid(done + values) == err
    ensures err.None? ==> FirstInvalid(done + values).None? && out' == Distinct(ExpandAll(done + values))
    ensures err.None? ==> forall x :: x in seen' <==> x in out'
  {
    seen', out', err := seen, out, None;
    var j := 0;
    assert done + values[..0] == done;
    while j < |values|
      invariant 0 <= j <= |values|
      invariant err.None?
      invariant FirstInvalid(done + values[..j]).None?
      invariant out' == Distinct(ExpandAll(done + values[..j]))
      invariant forall x :: x in seen' <==> x in out'
    {
      var value := values[j];
      ghost var d := done + values[..j];
      WordTrimmed(value);
      seen', out', err := AddProvider(value, seen', out');
      FirstInvalidAppend(d, [value]);
      FirstInvalidOne(value);
      SplitAtValue(done, values, j);
      if err.Some? {
        assert err == FirstInvalid(d + [value]);
        FirstInvalidAppend(d + [value], values[j + 1..]);
        return;
      }
      DistinctAppend(ExpandAll(d), Expand(value));
      ExpandAllSnoc(d, value);
      j := j + 1;
    }
    assert values[..j] == values;
  }

  /**
   * ParseLLMProviders: the parse of the argument's values, the first
   * unsupported one failing the whole call.
   */
  method ParseLLMProviders(raw: string) returns (r: Result<seq<string>, string>)
    ensures r == ParseValues(Values(raw))
  {
    var s := TrimSpace(ToLower(raw));
    if s == "" {
      return Success([]);
    }
    r := ParseChunks(Split(s, ","));
  }

  /** The outer loop over the comma-separated chunks. */
  method ParseChunks(chunks: seq<string>) returns (r: Result<seq<string>, string>)
    ensures r == ParseValues(FieldsOfAll(chunks))
  {
    var seen: set<string> := {};
    var out: seq<string> := [];
    var i := 0;
    assert chunks[..0] == [];
    while i < |chunks|
      invariant 0 <= i <= |chunks|
      invariant FirstInvalid(FieldsOfAll(chunks[..i])).None?
      invariant out == Distinct(ExpandAll(FieldsOfAll(chunks[..i])))
      invariant forall x :: x in seen <==> x in out
    {
      var err;
      assert chunks[..i + 1][..i] == chunks[..i];
      seen, out, err := AddValues(Fields(chunks[i]), seen, out, FieldsOfAll(chunks[..i]));
      if err.Some? {
        FieldsOfAllAppend(chunks[..i + 1], chunks[i + 1..]);
        assert chunks[..i + 1] + chunks[i + 1..] == chunks;
        FirstInvalidAppend(FieldsOfAll(chunks[..i + 1]), FieldsOfAll(chunks[i + 1..]));
        return Failure(err.value);
      }
      i := i + 1;
    }
    assert chunks[..i] == chunks;
    return Success(out);
  }

  // ---------------------------------------------------------------------
  // Lemmas

  lemma FirstInvalidOne(v: string)
    ensures FirstInvalid([v]) == if Valid(v) then None else Some(v)
  {
    assert [v][1..] == [];
  }

  lemma SplitAtValue(done: seq<string>, values: seq<string>, j: int)
    requires 0 <= j < |values|
    ensures done + values[..j + 1] == (done + values[..j]) + [values[j]]
    ensures done + values == (done + values[..j] + [values[j]]) + values[j + 1..]
  {
    assert values[..j + 1] == values[..j] + [values[j]];
    assert values == values[..j + 1] + values[j + 1..];
  }

  lemma ExpandAllSnoc(values: seq<string>, v: string)
    ensures ExpandAll(values + [v]) == ExpandAll(values) + Expand(v)
  {
    assert (values + [v])[..|values|] == values;
  }

  lemma {:induction false} FieldsOfAllAppend(a: seq<string>, b: seq<string>)
    ensures FieldsOfAll(a + b) == FieldsOfAll(a) + FieldsOfAll(b)
    decreases |b|
  {
    if b == [] {
      assert a + b == a;
    } else {
      var init := b[..|b| - 1];
      FieldsOfAllAppend(a, init);
      assert (a + b)[..|a + b| - 1] == a + init;
    }
  }

  lemma {:induction false} FirstInvalidAppend(p: seq<string>, q: seq<string>)
    ensures FirstInvalid(p + q) == if FirstInvalid(p).Some? then FirstInvalid(p) else FirstInvalid(q)
    decreases |p|
  {
    if p == [] {
      assert p + q == q;
    } else {
      assert (p + q)[1..] == p[1..] + q;
      FirstInvalidAppend(p[1..], q);
    }
  }

  /** A word of Fields is its own trim, and never blank. */
  lemma WordTrimmed(w: string)
    requires IsWord(w)
    ensures TrimSpace(w) == w && w != ""
  {
    TrimSpaceNoop(w);
  }

  /** De-duplicating a longer list appends its new elements in order. */
  lemma {:induction false} DistinctAppend(e: seq<string>, xs: seq<string>)
    ensures Distinct(e + xs) == AppendNew(Distinct(e), xs)
    decreases |xs|
  {
    if xs == [] {
      assert e + xs == e;
    } else {
      var init := xs[..|xs| - 1];
      var last := xs[|xs| - 1];
      DistinctAppend(e, init);
      assert e + xs == (e + init) + [last];
      DistinctSnoc(e + init, last);
    }
  }

  /** The first invalid value is the earliest value that is not accepted. */
  lemma {:induction false} FirstInvalidSpec(values: seq<string>)
    ensures FirstInvalid(values).None? <==> forall k :: 0 <= k < |values| ==> Valid(values[k])
    ensures FirstInvalid(values).Some? ==> exists i :: (0 <= i < |values| && values[i] == FirstInvalid(values).value &&
      !Valid(values[i]) && forall k :: 0 <= k < i ==> Valid(values[k]))
    decreases |values|
  {
    if values != [] && Valid(values[0]) {
      FirstInvalidSpec(values[1..]);
      if FirstInvalid(values).Some? {
        var i :| 0 <= i < |values[1..]| && values[1..][i] == FirstInvalid(values).value &&
          !Valid(values[1..][i]) && forall k :: 0 <= k < i ==> Valid(values[1..][k]);
        assert values[i + 1] == values[1..][i];
        assert forall k :: 0 < k < i + 1 ==> values[k] == values[1..][k - 1];
      } else {
        assert forall k :: 0 < k < |values| ==> values[k] == values[1..][k - 1];
      }
    } else if values != [] {
      assert values[0] == FirstInvalid(values).value;
    }
  }

  /** What the values ask for: the providers they name, and all of them when "all" is among them. */
  lemma {:induction false} ExpandAllMembers(values: seq<string>, x: string)
    ensures x in ExpandAll(values) <==> (x in values && x != "all") || ("all" in values && x in AllProviders)
    decreases |values|
  {
    if values != [] {
      var init := values[..|values| - 1];
      ExpandAllMembers(init, x);
      assert values == init + [values[|values| - 1]];
    }
  }

  /**
   * The parse fails exactly when some value is not accepted, naming the
   * first such value; otherwise it holds each requested provider once and
   * nothing else, and no values give an empty result.
   */
  lemma ParseValuesSpec(values: seq<string>)
    ensures ParseValues(values).Failure? <==> exists k :: 0 <= k < |values| && !Valid(values[k])
    ensures ParseValues(values).Failure? ==> exists i :: (0 <= i < |values| && values[i] == ParseValues(values).error &&
      !Valid(values[i]) && forall k :: 0 <= k < i ==> Valid(values[k]))
    ensures ParseValues(values).Success? ==> NoDups(ParseValues(values).value)
    ensures ParseValues(values).Success? ==> forall x :: x in ParseValues(values).value <==>
      (x in values && x != "all") || ("all" in values && x in AllProviders)
    ensures ParseValues(values).Success? ==> forall x :: x in ParseValues(values).value ==> x in AllProviders
    ensures values == [] ==> ParseValues(values) == Success([])
  {
    FirstInvalidSpec(values);
    if ParseValues(values).Success? {
      forall x
        ensures x in ParseValues(values).value <==> (x in values && x != "all") || ("all" in values && x in AllProviders)
      {
        ExpandAllMembers(values, x);
      }
    }
  }

  /**
   * The providers keep the order in which they were first asked for: of two
   * providers in the result, the earlier one was requested first.
   */
  lemma ParseValuesOrder(values: seq<string>, i: int, j: int)
    requires ParseValues(values).Success? && 0 <= i < j < |ParseValues(values).value|
    ensures var r := ParseValues(values).value;
      FirstIndex(ExpandAll(values), r[i]) < FirstIndex(ExpandAll(values), r[j])
  {
    DistinctFirstOccurrenceOrder(ExpandAll(values), i, j);
  }

  /** "all" alone asks for every provider, in order. */
  lemma ParseAll()
    ensures ParseValues(["all"]) == Success(AllProviders)
  {
    ExpandAllSnoc([], "all");
    assert [] + ["all"] == ["all"];
    assert ExpandAll(["all"]) == AllProviders;
    DistinctNoDups(AllProviders);
  }

  /** "all" after "claude" adds the two providers not named yet, in order. */
  lemma ParseAllAfterOne()
    ensures ParseValues(["claude", "all"]) == Success(["claude", "codex", "cursor"])
  {
    ExpandAllSnoc([], "claude");
    assert [] + ["claude"] == ["claude"];
    ExpandAllSnoc(["claude"], "all");
    assert ["claude"] + ["all"] == ["claude", "all"];
    DistinctNoDups(["claude"]);
    DistinctAppend(["claude"], AllProviders);
    AppendNewAll();
  }

  lemma AppendNewAll()
    ensures AppendNew(["claude"], AllProviders) == ["claude", "codex", "cursor"]
  {
    var c := ["claude"];
    assert AllProviders[..2] == ["codex", "claude"] && AllProviders[..2][..1] == ["codex"];
    assert ["codex"][..0] == [];
    assert AppendNew(c, ["codex"]) == ["claude", "codex"];
    assert AppendNew(c, ["codex", "claude"]) == ["claude", "codex"];
  }

  // ---------------------------------------------------------------------
  // How the argument is read

  predicate IsLower(s: string) {
    forall k :: 0 <= k < |s| ==> LowerChar(s[k]) == s[k]
  }

  lemma ToLowerNoop(s: string)
    requires IsLower(s)
    ensures ToLower(s) == s
  {
  }

  lemma {:induction false} JoinLower(parts: seq<string>, sep: string)
    requires IsLower(sep) && forall k :: 0 <= k < |parts| ==> IsLower(parts[k])
    ensures IsLower(Join(parts, sep))
    decreases |parts|
  {
    if |parts| > 1 {
      JoinLower(parts[1..], sep);
      JoinCons(parts[0], parts[1..], sep);
    }
  }

  /** A lower-case list of words, each free of commas. */
  predicate PlainWords(words: seq<string>) {
    |words| >= 1 && forall k :: 0 <= k < |words| ==> IsWord(words[k]) && IsLower(words[k]) && ',' !in words[k]
  }

  /** A joined list of words starts and ends with a word character, so trimming leaves it. */
  lemma JoinedNoEdgeSpace(words: seq<string>, sep: string)
    requires |words| >= 1 && forall k :: 0 <= k < |words| ==> IsWord(words[k])
    ensures NoEdgeSpace(Join(words, sep)) && Join(words, sep) != ""
  {
    var j := Join(words, sep);
    if |words| > 1 {
      JoinCons(words[0], words[1..], sep);
      assert j[0] == words[0][0];
      var init := words[..|words| - 1];
      var last := words[|words| - 1];
      assert words == init + [last];
      JoinSnoc(init, last, sep);
      assert j[|j| - 1] == last[|last| - 1];
    } else {
      assert j == words[0];
    }
  }

  /** A joined list of plain words is already lower-case and trimmed. */
  lemma JoinedNormal(words: seq<string>, sep: string)
    requires PlainWords(words) && IsLower(sep)
    ensures TrimSpace(ToLower(Join(words, sep))) == Join(words, sep) != ""
  {
    JoinLower(words, sep);
    ToLowerNoop(Join(words, sep));
    JoinedNoEdgeSpace(words, sep);
    TrimSpaceNoop(Join(words, sep));
  }

  /** Values separated by commas are read back one by one. */
  lemma ValuesOfCommaList(words: seq<string>)
    requires PlainWords(words)
    ensures Values(Join(words, ",")) == words
  {
    JoinedNormal(words, ",");
    SplitJoin(words, ',');
    FieldsOfWords(words);
  }

  /** Values separated by spaces are read back one by one. */
  lemma ValuesOfSpaceList(words: seq<string>)
    requires PlainWords(words)
    ensures Values(Join(words, " ")) == words
  {
    var j := Join(words, " ");
    JoinedNormal(words, " ");
    JoinAvoids(words, " ", ',');
    OneChunk(j);
    FieldsOfJoin(words);
  }

  /** A chunk without commas is read as one chunk. */
  lemma OneChunk(j: string)
    requires ',' !in j
    ensures FieldsOfAll(Split(j, ",")) == Fields(j)
  {
    SplitJoin([j], ',');
    assert Join([j], ",") == j;
    assert [j][..0] == [];
  }

  /** Each chunk that is one word gives that word. */
  lemma {:induction false} FieldsOfWords(words: seq<string>)
    requires forall k :: 0 <= k < |words| ==> IsWord(words[k])
    ensures FieldsOfAll(words) == words
    decreases |words|
  {
    if words != [] {
      var w := words[|words| - 1];
      FieldsOfWords(words[..|words| - 1]);
      FieldsCons(w, "");
      assert w + "" == w;
    }
  }

  /** Letter case does not matter. */
  lemma ValuesIgnoreCase(raw: string)
    ensures Values(ToLower(raw)) == Values(raw)
  {
    ToLowerIdempotent(raw);
  }

  // ---------------------------------------------------------------------
  // DetectContextFormat

  /**
   * DetectContextFormat: "mixed" when both the text and the JSONL artifacts
   * are present, else the format whose artifacts are, else "none".
   */
  function DetectContextFormat(present: set<string>): string {
    var hasText := CliHelpers.IndexFile in present && CliHelpers.GraphFile in present;
    var hasJSONL := CliHelpers.SymbolsFile in present && CliHelpers.EdgesFile in present && CliHelpers.ManifestFile in present;
    if hasText && hasJSONL then "mixed"
    else if hasJSONL then "jsonl"
    else if hasText then "text"
    else "none"
  }

  /**
   * A context directory holding every output a format requires is detected
   * as that format or as mixed; one holding the required outputs of neither
   * format is detected as none.
   */
  lemma DetectRequiredOutputs(present: set<string>)
    ensures (forall f :: f in CliHelpers.RequiredOutputFiles(CliHelpers.Text) ==> f in present) ==>
      DetectContextFormat(present) in {"text", "mixed"}
    ensures (forall f :: f in CliHelpers.RequiredOutputFiles(CliHelpers.JSONL) ==> f in present) ==>
      DetectContextFormat(present) in {"jsonl", "mixed"}
    ensures DetectContextFormat(present) == "none" ==>
      (exists f :: f in CliHelpers.RequiredOutputFiles(CliHelpers.Text) && f !in present) &&
      (exists f :: f in CliHelpers.RequiredOutputFiles(CliHelpers.JSONL) && f !in present)
  {
    var text := CliHelpers.RequiredOutputFiles(CliHelpers.Text);
    var jsonl := CliHelpers.RequiredOutputFiles(CliHelpers.JSONL);
    assert text[0] == CliHelpers.IndexFile && text[1] == CliHelpers.GraphFile;
    assert jsonl[0] == CliHelpers.SymbolsFile && jsonl[1] == CliHelpers.EdgesFile && jsonl[2] == CliHelpers.ManifestFile;
  }

  /** Adding files never loses a format already detected. */
  lemma DetectMonotone(present: set<string>, more: set<string>)
    requires present <= more
    ensures DetectContextFormat(present) == "mixed" ==> DetectContextFormat(more) == "mixed"
    ensures DetectContextFormat(present) == "jsonl" ==> DetectContextFormat(more) in {"jsonl", "mixed"}
    ensures DetectContextFormat(present) == "text" ==> DetectContextFormat(more) in {"text", "mixed"}
  {
  }
}
