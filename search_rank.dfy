/**
 * Ranking in internal/search/index.go: the edit distance, the fuzzy name
 * fallback, and the limits and order of Search. The BM25 score of a
 * document is floating point and is a parameter of Search.
 */
module SearchRank {
  import Wrappers
  import opened Seqs
  import opened Sorting
  import opened Strs
  import opened Search
  import FileutilStrings

  // ---------------------------------------------------------------------
  // levenshteinDistance

  function Min(a: int, b: int): int {
    if a < b then a else b
  }

  /**
   * The edit distance: the fewest insertions, deletions and substitutions
   * of one character that turn a into b, by the recurrence on prefixes.
   */
  function EditDistance(a: string, b: string): nat
    decreases |a| + |b|
  {
    if |a| == 0 then |b|
    else if |b| == 0 then |a|
    else
      var cost := if a[|a| - 1] != b[|b| - 1] then 1 else 0;
      Min(EditDistance(a, b[..|b| - 1]) + 1,
          Min(EditDistance(a[..|a| - 1], b) + 1, EditDistance(a[..|a| - 1], b[..|b| - 1]) + cost))
  }

  /** A string is at distance 0 from itself. */
  lemma {:induction false} EditDistanceSelf(a: string)
    ensures EditDistance(a, a) == 0
  {
    if |a| > 0 {
      EditDistanceSelf(a[..|a| - 1]);
    }
  }

  /** Distance 0 means equal strings. */
  lemma {:induction false} EditDistanceZero(a: string, b: string)
    requires EditDistance(a, b) == 0
    ensures a == b
    decreases |a| + |b|
  {
    if |a| > 0 && |b| > 0 {
      var a', b' := a[..|a| - 1], b[..|b| - 1];
      assert EditDistance(a', b') == 0 && a[|a| - 1] == b[|b| - 1];
      EditDistanceZero(a', b');
      assert a == a' + [a[|a| - 1]] && b == b' + [b[|b| - 1]];
    }
  }

  /** The distance is 0 exactly for equal strings. */
  lemma EditDistanceZeroIff(a: string, b: string)
    ensures EditDistance(a, b) == 0 <==> a == b
  {
    if a == b {
      EditDistanceSelf(a);
    } else if EditDistance(a, b) == 0 {
      EditDistanceZero(a, b);
    }
  }

  /** The distance from the empty string is the other string's length. */
  lemma EditDistanceEmpty(a: string)
    ensures EditDistance(a, "") == |a| && EditDistance("", a) == |a|
  {
  }

  /** The distance is symmetric. */
  lemma {:induction false} EditDistanceSymmetric(a: string, b: string)
    ensures EditDistance(a, b) == EditDistance(b, a)
    decreases |a| + |b|
  {
    if |a| > 0 && |b| > 0 {
      var a', b' := a[..|a| - 1], b[..|b| - 1];
      EditDistanceSymmetric(a, b');
      EditDistanceSymmetric(a', b);
      EditDistanceSymmetric(a', b');
    }
  }

  /** The distance is at most the longer length. */
  lemma {:induction false} EditDistanceBound(a: string, b: string)
    ensures EditDistance(a, b) <= if |a| < |b| then |b| else |a|
    decreases |a| + |b|
  {
    if |a| > 0 && |b| > 0 {
      EditDistanceBound(a[..|a| - 1], b[..|b| - 1]);
      if |a| < |b| {
        EditDistanceBound(a, b[..|b| - 1]);
      } else if |b| < |a| {
        EditDistanceBound(a[..|a| - 1], b);
      }
    }
  }

  /** One row of the table: row[k] is the distance from the prefix a[..i] to b[..k]. */
  ghost predicate Row(row: seq<int>, a: string, i: nat, b: string, upTo: nat)
    requires i <= |a| && upTo <= |b| + 1 <= |row|
  {
    forall k :: 0 <= k < upTo ==> row[k] == EditDistance(a[..i], b[..k])
  }

  /** The entry of the table at (i, j) from its three neighbours. */
  lemma TableStep(a: string, b: string, i: nat, j: nat)
    requires 1 <= i <= |a| && 1 <= j <= |b|
    ensures var cost := if a[i - 1] != b[j - 1] then 1 else 0;
      EditDistance(a[..i], b[..j]) ==
        Min(EditDistance(a[..i], b[..j - 1]) + 1, Min(EditDistance(a[..i - 1], b[..j]) + 1, EditDistance(a[..i - 1], b[..j - 1]) + cost))
  {
    assert a[..i][..i - 1] == a[..i - 1] && b[..j][..j - 1] == b[..j - 1];
  }

  /** The row for a[..i] computed from the row for a[..i - 1], in place in a fresh array. */
  method NextRow(a: string, b: string, i: nat, prev: array<int>) returns (current: array<int>)
    requires 1 <= i <= |a| && prev.Length == |b| + 1
    requires Row(prev[..], a, i - 1, b, |b| + 1)
    ensures fresh(current) && current.Length == |b| + 1
    ensures Row(current[..], a, i, b, |b| + 1)
  {
    current := new int[|b| + 1];
    current[0] := i;
    assert |a[..i]| == i;
    for j := 1 to |b| + 1
      invariant Row(current[..], a, i, b, j)
    {
      var cost := 0;
      if a[i - 1] != b[j - 1] {
        cost := 1;
      }
      var ins := current[j - 1] + 1;
      var del := prev[j] + 1;
      var sub := prev[j - 1] + cost;
      TableStep(a, b, i, j);
      current[j] := Min(ins, Min(del, sub));
    }
  }

  /** levenshteinDistance: the edit distance, by rows of the table. */
  method LevenshteinDistance(a: string, b: string) returns (d: int)
    ensures d == EditDistance(a, b)
  {
    if a == b {
      EditDistanceSelf(a);
      return 0;
    }
    if |a| == 0 {
      return |b|;
    }
    if |b| == 0 {
      return |a|;
    }
    var prev := new int[|b| + 1];
    for j := 0 to |b| + 1
      invariant Row(prev[..], a, 0, b, j)
    {
      prev[j] := j;
    }
    for i := 1 to |a| + 1
      invariant prev.Length == |b| + 1 && Row(prev[..], a, i - 1, b, |b| + 1)
    {
      prev := NextRow(a, b, i, prev);
    }
    assert a[..|a|] == a && b[..|b|] == b;
    return prev[|b|];
  }

  // ---------------------------------------------------------------------
  // Results and their order

  datatype Result = Result(ID: string, Score: real)

  /** The order of results: higher score first, then ascending ID. */
  predicate RankLe(a: Result, b: Result) {
    a.Score > b.Score || (a.Score == b.Score && LessEq(a.ID, b.ID))
  }

  lemma RankLeTotalPreorder()
    ensures TotalPreorder(RankLe)
  {
    forall a, b
      ensures RankLe(a, b) || RankLe(b, a)
    {
      LessEqTotal(a.ID, b.ID);
    }
    forall a, b, c | RankLe(a, b) && RankLe(b, c)
      ensures RankLe(a, c)
    {
      if a.Score == b.Score && b.Score == c.Score {
        LessEqTransitive(a.ID, b.ID, c.ID);
      }
    }
  }

  /** Results sorted by rank. */
  function Ranked(s: seq<Result>): seq<Result> {
    SortBy(s, RankLe)
  }

  /** Ranking permutes the results into rank order. */
  lemma RankedSpec(s: seq<Result>)
    ensures multiset(Ranked(s)) == multiset(s)
    ensures SortedBy(Ranked(s), RankLe)
  {
    RankLeTotalPreorder();
    SortBySorted(s, RankLe);
  }

  /** The first n results, or all of them when there are fewer. */
  function Take(s: seq<Result>, n: int): (r: seq<Result>)
    requires n >= 0
    ensures |r| <= n && |r| <= |s| && r == s[..|r|]
    ensures |s| <= n ==> r == s
  {
    if |s| > n then s[..n] else s
  }

  // ---------------------------------------------------------------------
  // fuzzyNameFallback

  /** normalizeForFuzzy: the tokens run together. */
  function NormalizeForFuzzy(value: string): string {
    var tokens := Tokenize(value);
    if |tokens| == 0 then "" else Join(tokens, "")
  }

  /** Joined without a separator, the tokens keep only token characters, and are empty only when there are none. */
  lemma {:induction false} JoinTokens(tokens: seq<string>)
    requires forall i :: 0 <= i < |tokens| ==> tokens[i] != "" && AllTokenChars(tokens[i])
    ensures AllTokenChars(Join(tokens, ""))
    ensures |tokens| > 0 ==> Join(tokens, "") != ""
  {
    if |tokens| > 1 {
      JoinTokens(tokens[1..]);
      var j := Join(tokens[1..], "");
      assert Join(tokens, "") == tokens[0] + j;
      assert forall k :: 0 <= k < |tokens[0] + j| ==> (tokens[0] + j)[k] == if k < |tokens[0]| then tokens[0][k] else j[k - |tokens[0]|];
    }
  }

  /** The normalised form holds only token characters and is empty exactly when the value has no tokens. */
  lemma NormalizeForFuzzySpec(value: string)
    ensures AllTokenChars(NormalizeForFuzzy(value))
    ensures NormalizeForFuzzy(value) == "" <==> Tokenize(value) == []
  {
    JoinTokens(Tokenize(value));
  }

  /** The distance a name may be from the query: a third of its length, but at least 2. */
  function Threshold(candidate: string): int {
    if |candidate| / 3 < 2 then 2 else |candidate| / 3
  }

  /** The score of a fuzzy match: 1 / (1 + distance). */
  function FuzzyScore(distance: nat): real {
    1.0 / (1 + distance) as real
  }

  /** A smaller distance scores strictly higher, so ranking fuzzy matches orders them by distance. */
  lemma FuzzyScoreOrder(d1: nat, d2: nat)
    ensures FuzzyScore(d1) > FuzzyScore(d2) <==> d1 < d2
    ensures FuzzyScore(d1) == FuzzyScore(d2) <==> d1 == d2
  {
    if d1 < d2 {
      FuzzyScoreLess(d1, d2);
    } else if d2 < d1 {
      FuzzyScoreLess(d2, d1);
    }
  }

  lemma FuzzyScoreLess(d1: nat, d2: nat)
    requires d1 < d2
    ensures FuzzyScore(d1) > FuzzyScore(d2)
  {
    ReciprocalLess((1 + d1) as real, (1 + d2) as real);
  }

  lemma ReciprocalLess(x: real, y: real)
    requires 0.0 < x < y
    ensures 1.0 / y < 1.0 / x
  {
    var p, q := 1.0 / x, 1.0 / y;
    assert p * x == 1.0;
    assert q * y == 1.0;
    assert q * x < q * y;
  }

  /** The documents whose normalised name is close enough to the needle, in document order. */
  function FuzzyMatches(docs: seq<Document>, needle: string): seq<Result> {
    if docs == [] then []
    else
      var doc := docs[|docs| - 1];
      var candidate := NormalizeForFuzzy(doc.Name);
      var prev := FuzzyMatches(docs[..|docs| - 1], needle);
      if candidate == "" || EditDistance(needle, candidate) > Threshold(candidate) then prev
      else prev + [Result(doc.ID, FuzzyScore(EditDistance(needle, candidate)))]
  }

  /** A fuzzy match is a document with a name within the threshold, scored by its distance. */
  lemma {:induction false} FuzzyMatchesSpec(docs: seq<Document>, needle: string)
    ensures forall r :: r in FuzzyMatches(docs, needle) <==> exists doc :: doc in docs && var c := NormalizeForFuzzy(doc.Name);
      c != "" && EditDistance(needle, c) <= Threshold(c) && r == Result(doc.ID, FuzzyScore(EditDistance(needle, c)))
  {
    if docs != [] {
      var init := docs[..|docs| - 1];
      FuzzyMatchesSpec(init, needle);
      assert docs == init + [docs[|docs| - 1]];
    }
  }

  /** The loop of fuzzyNameFallback over the documents. */
  method CollectFuzzy(docs: seq<Document>, needle: string) returns (results: seq<Result>)
    ensures results == FuzzyMatches(docs, needle)
  {
    results := [];
    for i := 0 to |docs|
      invariant results == FuzzyMatches(docs[..i], needle)
    {
      assert docs[..i + 1][..i] == docs[..i];
      var candidate := NormalizeForFuzzy(docs[i].Name);
      if candidate == "" {
        continue;
      }
      var distance := LevenshteinDistance(needle, candidate);
      var threshold := |candidate| / 3;
      if threshold < 2 {
        threshold := 2;
      }
      if distance > threshold {
        continue;
      }
      results := results + [Result(docs[i].ID, FuzzyScore(distance))];
    }
    assert docs[..|docs|] == docs;
  }

  /**
   * fuzzyNameFallback: nothing for a query without tokens; otherwise the
   * best-ranked fuzzy matches, at most limit of them.
   */
  method FuzzyNameFallback(docs: seq<Document>, query: string, limit: int) returns (results: seq<Result>)
    requires limit > 0
    ensures NormalizeForFuzzy(query) == "" ==> results == []
    ensures NormalizeForFuzzy(query) != "" ==> results == Take(Ranked(FuzzyMatches(docs, NormalizeForFuzzy(query))), limit)
  {
    var needle := NormalizeForFuzzy(query);
    if needle == "" {
      return [];
    }
    var matches := CollectFuzzy(docs, needle);
    results := Take(Ranked(matches), limit);
  }

  // ---------------------------------------------------------------------
  // Search

  /** The limit Search applies: 10 when none is given. */
  function EffectiveLimit(limit: int): int {
    if limit <= 0 then 10 else limit
  }

  /** The documents with a positive score, in document order. */
  function Scored(index: Index, docs: seq<Document>, terms: seq<string>, score: (Index, Document, seq<string>) -> real): seq<Result> {
    if docs == [] then []
    else
      var doc := docs[|docs| - 1];
      var prev := Scored(index, docs[..|docs| - 1], terms, score);
      if score(index, doc, terms) > 0.0 then prev + [Result(doc.ID, score(index, doc, terms))] else prev
  }

  /** A scored result is a document with a positive score. */
  lemma {:induction false} ScoredSpec(index: Index, docs: seq<Document>, terms: seq<string>, score: (Index, Document, seq<string>) -> real)
    ensures forall r :: r in Scored(index, docs, terms, score) <==>
      exists doc :: doc in docs && score(index, doc, terms) > 0.0 && r == Result(doc.ID, score(index, doc, terms))
  {
    if docs != [] {
      var init := docs[..|docs| - 1];
      ScoredSpec(index, init, terms, score);
      assert docs == init + [docs[|docs| - 1]];
    }
  }

  /** The loop of Search over the documents. */
  method ScoreDocuments(index: Index, terms: seq<string>, score: (Index, Document, seq<string>) -> real) returns (results: seq<Result>)
    ensures results == Scored(index, index.Documents, terms, score)
  {
    var docs := index.Documents;
    results := [];
    for i := 0 to |docs|
      invariant results == Scored(index, docs[..i], terms, score)
    {
      assert docs[..i + 1][..i] == docs[..i];
      var s := score(index, docs[i], terms);
      if s > 0.0 {
        results := results + [Result(docs[i].ID, s)];
      }
    }
    assert docs[..|docs|] == docs;
  }

  /**
   * What Search answers: nothing without an index, documents or query
   * tokens; otherwise the best-ranked documents with a positive score for
   * the distinct query terms, at most the limit (10 when none is given),
   * and, only when no document scores, the fuzzy name matches instead when
   * there are any.
   */
  function SearchResults(index: Wrappers.Option<Index>, query: string, limit: int,
                         score: (Index, Document, seq<string>) -> real): seq<Result>
  {
    if index.None? || index.value.Documents == [] || Tokenize(query) == [] then []
    else
      var scored := Scored(index.value, index.value.Documents, Distinct(Tokenize(query)), score);
      var fuzzy := if NormalizeForFuzzy(query) == "" then []
        else Take(Ranked(FuzzyMatches(index.value.Documents, NormalizeForFuzzy(query))), EffectiveLimit(limit));
      if scored == [] && fuzzy != [] then fuzzy else Take(Ranked(scored), EffectiveLimit(limit))
  }

  /** A prefix of a sorted sequence is sorted. */
  lemma TakeSorted(s: seq<Result>, n: int)
    requires n >= 0 && SortedBy(s, RankLe)
    ensures SortedBy(Take(s, n), RankLe)
  {
  }

  /**
   * The answer holds at most the limit of results, in rank order, and
   * every result is a scored document or, in the fallback, a fuzzy match.
   */
  lemma SearchResultsSpec(index: Wrappers.Option<Index>, query: string, limit: int,
                          score: (Index, Document, seq<string>) -> real)
    ensures |SearchResults(index, query, limit, score)| <= EffectiveLimit(limit)
    ensures SortedBy(SearchResults(index, query, limit, score), RankLe)
    ensures index.Some? && index.value.Documents != [] && Tokenize(query) != [] ==>
      forall r :: r in SearchResults(index, query, limit, score) ==>
        r in Scored(index.value, index.value.Documents, Distinct(Tokenize(query)), score) ||
        r in FuzzyMatches(index.value.Documents, NormalizeForFuzzy(query))
  {
    if index.Some? && index.value.Documents != [] && Tokenize(query) != [] {
      var scored := Scored(index.value, index.value.Documents, Distinct(Tokenize(query)), score);
      var matches := FuzzyMatches(index.value.Documents, NormalizeForFuzzy(query));
      RankedSpec(scored);
      RankedSpec(matches);
      TakeSorted(Ranked(scored), EffectiveLimit(limit));
      TakeSorted(Ranked(matches), EffectiveLimit(limit));
      forall r | r in Take(Ranked(scored), EffectiveLimit(limit))
        ensures r in scored
      {
        assert r in multiset(Ranked(scored));
      }
      forall r | r in Take(Ranked(matches), EffectiveLimit(limit))
        ensures r in matches
      {
        assert r in multiset(Ranked(matches));
      }
    }
  }

  /** The ranked scored documents, or the fuzzy fallback when none scores. */
  method RankOrFallback(index: Index, query: string, terms: seq<string>, lim: int,
                        score: (Index, Document, seq<string>) -> real) returns (results: seq<Result>)
    requires lim > 0
    ensures var scored := Scored(index, index.Documents, terms, score);
      var fuzzy := if NormalizeForFuzzy(query) == "" then []
        else Take(Ranked(FuzzyMatches(index.Documents, NormalizeForFuzzy(query))), lim);
      results == if scored == [] && fuzzy != [] then fuzzy else Take(Ranked(scored), lim)
  {
    var scored := ScoreDocuments(index, terms, score);
    results := Take(Ranked(scored), lim);
    if |results| == 0 {
      var fallback := FuzzyNameFallback(index.Documents, query, lim);
      if |fallback| > 0 {
        return fallback;
      }
    }
  }

  /** Search, over the scores the ranking function gives. */
  method SearchIndex(index: Wrappers.Option<Index>, query: string, limit: int,
                     score: (Index, Document, seq<string>) -> real) returns (results: seq<Result>)
    ensures results == SearchResults(index, query, limit, score)
  {
    if index.None? || |index.value.Documents| == 0 {
      return [];
    }
    var lim := limit;
    if lim <= 0 {
      lim := 10;
    }
    var queryTerms := Tokenize(query);
    if |queryTerms| == 0 {
      return [];
    }
    var uniqueTerms := FileutilStrings.DedupeStrings(queryTerms);
    results := RankOrFallback(index.value, query, uniqueTerms, lim, score);
  }
}
