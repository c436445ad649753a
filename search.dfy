/**
 * The symbol search index of internal/search/index.go: documents built
 * from the graph's nodes with weighted term counts, the edit distance and
 * fuzzy fallback, and the limits and ordering of Search. The BM25 score
 * itself is floating point and is a parameter here.
 */
module Search {
  import opened Seqs
  import opened Sorting
  import opened Strs
  import opened ParserTypes
  import opened GraphEdges
  import Graph
  import FileutilStrings

  // ---------------------------------------------------------------------
  // tokenize

  /** The characters of the token pattern [a-z0-9_]. */
  predicate IsTokenChar(c: char) {
    'a' <= c <= 'z' || '0' <= c <= '9' || c == '_'
  }

  predicate AllTokenChars(s: string) {
    forall k :: 0 <= k < |s| ==> IsTokenChar(s[k])
  }

  /** The length of the run of token characters at the start of s. */
  function RunLen(s: string): (n: nat)
    ensures n <= |s| && AllTokenChars(s[..n]) && (n == |s| || !IsTokenChar(s[n]))
  {
    if s == [] || !IsTokenChar(s[0]) then 0
    else
      var n := 1 + RunLen(s[1..]);
      assert forall k :: 1 <= k < n ==> s[..n][k] == s[1..][..n - 1][k - 1];
      n
  }

  /** The maximal runs of token characters, left to right. */
  function Tokens(s: string): (r: seq<string>)
    ensures forall i :: 0 <= i < |r| ==> r[i] != "" && AllTokenChars(r[i])
    decreases |s|
  {
    if s == [] then []
    else if !IsTokenChar(s[0]) then Tokens(s[1..])
    else
      var n := RunLen(s);
      [s[..n]] + Tokens(s[n..])
  }

  /** tokenize: the maximal [a-z0-9_] runs of the lowercased value. */
  function Tokenize(value: string): seq<string> {
    var v := ToLower(value);
    if v == "" then [] else Tokens(v)
  }

  /** A run that ends before a non-token character is not extended by what follows. */
  lemma {:induction false} RunLenStops(a: string, c: char, b: string)
    requires !IsTokenChar(c)
    ensures RunLen(a + [c] + b) == if RunLen(a) < |a| then RunLen(a) else |a|
    decreases |a|
  {
    var s := a + [c] + b;
    if a != [] && IsTokenChar(a[0]) {
      assert s[1..] == a[1..] + [c] + b;
      RunLenStops(a[1..], c, b);
    }
  }

  /** A word of token characters is one token. */
  lemma {:induction false} TokensOfWord(w: string)
    requires w != "" && AllTokenChars(w)
    ensures Tokens(w) == [w]
  {
    var n := RunLen(w);
    assert IsTokenChar(w[0]);
    assert n == |w|;
    assert w[..n] == w && w[n..] == [];
  }

  /** A non-token character separates tokens: tokens on either side are listed in order. */
  lemma {:induction false} TokensSeparated(a: string, c: char, b: string)
    requires !IsTokenChar(c)
    ensures Tokens(a + [c] + b) == Tokens(a) + Tokens(b)
    decreases |a|
  {
    var s := a + [c] + b;
    if a == [] {
      assert s[1..] == b;
    } else if !IsTokenChar(a[0]) {
      assert s[1..] == a[1..] + [c] + b;
      TokensSeparated(a[1..], c, b);
    } else {
      RunLenStops(a, c, b);
      var n := RunLen(a);
      assert RunLen(s) == n;
      assert s[..n] == a[..n];
      assert s[n..] == a[n..] + [c] + b;
      TokensSeparated(a[n..], c, b);
    }
  }

  // ---------------------------------------------------------------------
  // buildTerms and addWeighted

  /** The count stored for a term, zero when absent. */
  function Get(m: map<string, int>, t: string): int {
    if t in m then m[t] else 0
  }

  /** The map after adding the weight once for each token, in order. */
  function Weighted(m: map<string, int>, toks: seq<string>, w: int): map<string, int> {
    if toks == [] then m
    else
      var prev := Weighted(m, toks[..|toks| - 1], w);
      var t := toks[|toks| - 1];
      prev[t := Get(prev, t) + w]
  }

  /** The number of occurrences of t in toks. */
  function Occurrences(toks: seq<string>, t: string): (n: nat)
    ensures n > 0 <==> t in toks
  {
    if toks == [] then 0
    else Occurrences(toks[..|toks| - 1], t) + (if toks[|toks| - 1] == t then 1 else 0)
  }

  lemma MulSucc(w: int, n: int)
    ensures w * (n + 1) == w * n + w
  {
  }

  /** One step of Weighted. */
  lemma WeightedSnoc(m: map<string, int>, toks: seq<string>, w: int)
    requires toks != []
    ensures var prev := Weighted(m, toks[..|toks| - 1], w);
      Weighted(m, toks, w) == prev[toks[|toks| - 1] := Get(prev, toks[|toks| - 1]) + w]
  {
  }

  /** Each term's count grows by the weight times its number of occurrences. */
  lemma {:induction false} WeightedGet(m: map<string, int>, toks: seq<string>, w: int, t: string)
    ensures Get(Weighted(m, toks, w), t) == Get(m, t) + w * Occurrences(toks, t)
  {
    if toks != [] {
      var init := toks[..|toks| - 1];
      var last := toks[|toks| - 1];
      WeightedGet(m, init, w, t);
      WeightedSnoc(m, toks, w);
      if last == t {
        MulSucc(w, Occurrences(init, t));
      }
    }
  }

  /** Exactly the tokens are added as keys. */
  lemma {:induction false} WeightedKeys(m: map<string, int>, toks: seq<string>, w: int, t: string)
    ensures t in Weighted(m, toks, w) <==> t in m || t in toks
  {
    if toks != [] {
      var init := toks[..|toks| - 1];
      WeightedKeys(m, init, w, t);
      WeightedSnoc(m, toks, w);
      assert toks == init + [toks[|toks| - 1]];
    }
  }

  /** The sum of a map's counts. */
  ghost function MapSum(m: map<string, int>): int
    decreases |m|
  {
    if m == map[] then 0
    else
      var k :| k in m;
      m[k] + MapSum(m - {k})
  }

  /** The sum can be split at any key. */
  lemma {:induction false} MapSumAt(m: map<string, int>, k: string)
    requires k in m
    ensures MapSum(m) == m[k] + MapSum(m - {k})
    decreases |m|
  {
    var j :| j in m && MapSum(m) == m[j] + MapSum(m - {j});
    if j != k {
      assert |m - {j}| < |m|;
      MapSumAt(m - {j}, k);
      MapSumAt(m - {k}, j);
      assert (m - {j}) - {k} == (m - {k}) - {j};
    }
  }

  /** Adding w to one term adds w to the sum. */
  lemma MapSumAdd(m: map<string, int>, t: string, w: int)
    ensures MapSum(m[t := Get(m, t) + w]) == MapSum(m) + w
  {
    var m' := m[t := Get(m, t) + w];
    MapSumAt(m', t);
    if t in m {
      MapSumAt(m, t);
      assert m' - {t} == m - {t};
    } else {
      assert m' - {t} == m;
    }
  }

  /** Adding the weight for each token adds the weight times the number of tokens to the sum. */
  lemma {:induction false} WeightedSum(m: map<string, int>, toks: seq<string>, w: int)
    ensures MapSum(Weighted(m, toks, w)) == MapSum(m) + w * |toks|
  {
    if toks != [] {
      var init := toks[..|toks| - 1];
      WeightedSum(m, init, w);
      WeightedSnoc(m, toks, w);
      MulSucc(w, |init|);
      MapSumAdd(Weighted(m, init, w), toks[|toks| - 1], w);
    }
  }

  /** addWeighted: the value's tokens, each adding the weight; a weight of 0 or less changes nothing. */
  method AddWeighted(terms: map<string, int>, value: string, weight: int) returns (r: map<string, int>)
    ensures weight <= 0 ==> r == terms
    ensures weight > 0 ==> r == Weighted(terms, Tokenize(value), weight)
  {
    if weight <= 0 {
      return terms;
    }
    var toks := Tokenize(value);
    r := terms;
    for i := 0 to |toks|
      invariant r == Weighted(terms, toks[..i], weight)
    {
      assert toks[..i + 1][..i] == toks[..i];
      r := r[toks[i] := Get(r, toks[i]) + weight];
    }
    assert toks[..|toks|] == toks;
  }

  /** The term counts of a symbol: name tokens weigh 4, signature and file path tokens 2, doc tokens 1. */
  function TermsOf(name: string, signature: string, filePath: string, doc: string): map<string, int> {
    Weighted(Weighted(Weighted(Weighted(map[], Tokenize(name), 4), Tokenize(signature), 2), Tokenize(filePath), 2), Tokenize(doc), 1)
  }

  /** The total weight of a symbol's tokens. */
  function TokenWeight(name: string, signature: string, filePath: string, doc: string): int {
    4 * |Tokenize(name)| + 2 * |Tokenize(signature)| + 2 * |Tokenize(filePath)| + |Tokenize(doc)|
  }

  /** buildTerms */
  method BuildTerms(name: string, signature: string, filePath: string, doc: string) returns (terms: map<string, int>)
    ensures terms == TermsOf(name, signature, filePath, doc)
  {
    terms := AddWeighted(map[], name, 4);
    terms := AddWeighted(terms, signature, 2);
    terms := AddWeighted(terms, filePath, 2);
    terms := AddWeighted(terms, doc, 1);
  }

  /**
   * A term's count is its weighted number of occurrences, the terms are
   * exactly the tokens, and the counts add up to the token weight.
   */
  lemma TermsOfSpec(name: string, signature: string, filePath: string, doc: string)
    ensures var m := TermsOf(name, signature, filePath, doc);
      && (forall t :: Get(m, t) == 4 * Occurrences(Tokenize(name), t) + 2 * Occurrences(Tokenize(signature), t)
                                  + 2 * Occurrences(Tokenize(filePath), t) + Occurrences(Tokenize(doc), t))
      && (forall t :: t in m <==> t in Tokenize(name) || t in Tokenize(signature) || t in Tokenize(filePath) || t in Tokenize(doc))
      && MapSum(m) == TokenWeight(name, signature, filePath, doc)
  {
    var m1 := Weighted(map[], Tokenize(name), 4);
    var m2 := Weighted(m1, Tokenize(signature), 2);
    var m3 := Weighted(m2, Tokenize(filePath), 2);
    forall t
      ensures Get(TermsOf(name, signature, filePath, doc), t) == 4 * Occurrences(Tokenize(name), t) + 2 * Occurrences(Tokenize(signature), t)
                                  + 2 * Occurrences(Tokenize(filePath), t) + Occurrences(Tokenize(doc), t)
      ensures t in TermsOf(name, signature, filePath, doc) <==> t in Tokenize(name) || t in Tokenize(signature) || t in Tokenize(filePath) || t in Tokenize(doc)
    {
      WeightedGet(map[], Tokenize(name), 4, t);
      WeightedGet(m1, Tokenize(signature), 2, t);
      WeightedGet(m2, Tokenize(filePath), 2, t);
      WeightedGet(m3, Tokenize(doc), 1, t);
      WeightedKeys(map[], Tokenize(name), 4, t);
      WeightedKeys(m1, Tokenize(signature), 2, t);
      WeightedKeys(m2, Tokenize(filePath), 2, t);
      WeightedKeys(m3, Tokenize(doc), 1, t);
    }
    TermsOfSum(name, signature, filePath, doc);
  }

  /** The counts of a symbol's terms add up to its token weight. */
  lemma TermsOfSum(name: string, signature: string, filePath: string, doc: string)
    ensures MapSum(TermsOf(name, signature, filePath, doc)) == TokenWeight(name, signature, filePath, doc)
  {
    var m1 := Weighted(map[], Tokenize(name), 4);
    var m2 := Weighted(m1, Tokenize(signature), 2);
    var m3 := Weighted(m2, Tokenize(filePath), 2);
    WeightedSum(map[], Tokenize(name), 4);
    WeightedSum(m1, Tokenize(signature), 2);
    WeightedSum(m2, Tokenize(filePath), 2);
    WeightedSum(m3, Tokenize(doc), 1);
    assert MapSum(map[]) == 0;
  }

  /** The loop of Build that adds up a document's term counts, over the terms in any order. */
  method SumCounts(terms: map<string, int>) returns (total: int)
    ensures total == MapSum(terms)
  {
    total := 0;
    var rest := terms.Keys;
    assert (map k | k in rest :: terms[k]) == terms;
    while rest != {}
      invariant rest <= terms.Keys
      invariant total + MapSum(map k | k in rest :: terms[k]) == MapSum(terms)
      decreases |rest|
    {
      var k :| k in rest;
      var m := map k' | k' in rest :: terms[k'];
      MapSumAt(m, k);
      assert m - {k} == map k' | k' in rest - {k} :: terms[k'];
      total := total + terms[k];
      rest := rest - {k};
    }
    assert (map k | k in rest :: terms[k]) == map[];
  }

  // ---------------------------------------------------------------------
  // Build

  const Version := "search-index-v1"

  /** A searchable symbol: its record, the sum of its term counts and the counts. */
  datatype Document = Document(ID: string, Name: string, Kind: string, Signature: string, File: string, Line: int,
                               Doc: string, Length: int, Terms: map<string, int>)

  /** The index, without the average document length (a float). */
  datatype Index = Index(Version: string, DocumentCount: int, DocFreq: map<string, int>, Documents: seq<Document>)

  function WeightOf(n: Node<string>): int {
    TokenWeight(n.Symbol.Name, n.Symbol.Signature, n.File, n.Symbol.Doc)
  }

  /** The document of a node. */
  function DocumentOf(n: Node<string>): Document {
    Document(n.ID, n.Symbol.Name, KindString(n.Symbol.Kind), n.Symbol.Signature, n.File, n.Symbol.Line,
             n.Symbol.Doc, WeightOf(n), TermsOf(n.Symbol.Name, n.Symbol.Signature, n.File, n.Symbol.Doc))
  }

  /** The documents of the nodes with at least one token, in node order. */
  function DocsOf(nodes: seq<Node<string>>): seq<Document> {
    if nodes == [] then []
    else
      var n := nodes[|nodes| - 1];
      DocsOf(nodes[..|nodes| - 1]) + (if WeightOf(n) > 0 then [DocumentOf(n)] else [])
  }

  /** The number of documents that contain a term. */
  function DocCount(docs: seq<Document>, t: string): (c: nat)
    ensures c <= |docs|
  {
    if docs == [] then 0
    else DocCount(docs[..|docs| - 1], t) + (if t in docs[|docs| - 1].Terms then 1 else 0)
  }

  /** A document is kept exactly for a node with a token; its length is the sum of its counts and is positive. */
  lemma {:induction false} DocsOfSpec(nodes: seq<Node<string>>)
    ensures forall d :: d in DocsOf(nodes) <==> exists n :: n in nodes && WeightOf(n) > 0 && d == DocumentOf(n)
    ensures forall d :: d in DocsOf(nodes) ==> d.Length > 0 && d.Length == MapSum(d.Terms)
  {
    if nodes != [] {
      var init := nodes[..|nodes| - 1];
      var n := nodes[|nodes| - 1];
      DocsOfSpec(init);
      TermsOfSpec(n.Symbol.Name, n.Symbol.Signature, n.File, n.Symbol.Doc);
      assert nodes == init + [n];
    }
  }

  /** A node has no document exactly when its name, signature, file path and doc have no tokens. */
  lemma SkippedIff(n: Node<string>)
    ensures WeightOf(n) == 0 <==>
      Tokenize(n.Symbol.Name) == [] && Tokenize(n.Symbol.Signature) == [] && Tokenize(n.File) == [] && Tokenize(n.Symbol.Doc) == []
  {
  }

  /** A term's document frequency is positive exactly when some document contains it. */
  lemma {:induction false} DocCountSpec(docs: seq<Document>, t: string)
    ensures DocCount(docs, t) > 0 <==> exists d :: d in docs && t in d.Terms
  {
    if docs != [] {
      var init := docs[..|docs| - 1];
      DocCountSpec(init, t);
      assert docs == init + [docs[|docs| - 1]];
    }
  }

  /** The inner loop of Build: one more document for each of the terms, in any order. */
  method CountTerms(docFreq: map<string, int>, terms: map<string, int>) returns (r: map<string, int>)
    ensures forall t :: Get(r, t) == Get(docFreq, t) + (if t in terms then 1 else 0)
    ensures forall t :: t in r <==> t in docFreq || t in terms
  {
    r := docFreq;
    var rest := terms.Keys;
    while rest != {}
      invariant rest <= terms.Keys
      invariant forall t :: Get(r, t) == Get(docFreq, t) + (if t in terms && t !in rest then 1 else 0)
      invariant forall t :: t in r <==> t in docFreq || (t in terms && t !in rest)
      decreases |rest|
    {
      var t :| t in rest;
      r := r[t := Get(r, t) + 1];
      rest := rest - {t};
    }
  }

  /** The document frequencies match the documents so far. */
  ghost predicate FreqOf(docFreq: map<string, int>, docs: seq<Document>) {
    forall t :: Get(docFreq, t) == DocCount(docs, t) && (t in docFreq <==> DocCount(docs, t) > 0)
  }

  function DocKey(d: Document): seq<KeyPart> {
    [StrKey(d.ID)]
  }

  /** Adding a document to the counts keeps them matching the documents. */
  lemma FreqStep(docFreq: map<string, int>, r: map<string, int>, docs: seq<Document>, doc: Document)
    requires FreqOf(docFreq, docs)
    requires forall t :: Get(r, t) == Get(docFreq, t) + (if t in doc.Terms then 1 else 0)
    requires forall t :: t in r <==> t in docFreq || t in doc.Terms
    ensures FreqOf(r, docs + [doc])
  {
    assert (docs + [doc])[..|docs|] == docs;
  }

  /** The loop of Build over the nodes, in the order the graph lists them. */
  method CollectDocuments(nodes: seq<Node<string>>) returns (docs: seq<Document>, docFreq: map<string, int>)
    ensures docs == DocsOf(nodes) && FreqOf(docFreq, docs)
  {
    docs, docFreq := [], map[];
    for i := 0 to |nodes|
      invariant docs == DocsOf(nodes[..i])
      invariant FreqOf(docFreq, docs)
    {
      var node := nodes[i];
      assert nodes[..i + 1][..i] == nodes[..i];
      var terms := BuildTerms(node.Symbol.Name, node.Symbol.Signature, node.File, node.Symbol.Doc);
      var length := SumCounts(terms);
      TermsOfSum(node.Symbol.Name, node.Symbol.Signature, node.File, node.Symbol.Doc);
      if length == 0 {
        continue;
      }
      var doc := Document(node.ID, node.Symbol.Name, KindString(node.Symbol.Kind), node.Symbol.Signature,
                          node.File, node.Symbol.Line, node.Symbol.Doc, length, terms);
      var r := CountTerms(docFreq, terms);
      FreqStep(docFreq, r, docs, doc);
      docFreq := r;
      docs := docs + [doc];
    }
    assert nodes[..|nodes|] == nodes;
  }

  /** The documents of the nodes sorted by ID, with their document frequencies. */
  method BuildDocuments(nodes: seq<Node<string>>) returns (index: Index)
    ensures index.Version == Version && index.DocumentCount == |index.Documents|
    ensures multiset(index.Documents) == multiset(DocsOf(nodes))
    ensures forall i, j :: 0 <= i < j < |index.Documents| ==> LessEq(index.Documents[i].ID, index.Documents[j].ID)
    ensures FreqOf(index.DocFreq, DocsOf(nodes))
  {
    var docs, docFreq := CollectDocuments(nodes);
    var sorted := SortByKey(docs, DocKey);
    SortByKeySorted(docs, DocKey);
    forall i, j | 0 <= i < j < |sorted|
      ensures LessEq(sorted[i].ID, sorted[j].ID)
    {
      assert KeyLe(DocKey(sorted[i]), DocKey(sorted[j]));
    }
    index := Index(Version, |sorted|, docFreq, sorted);
  }

  /** The graph's nodes file by file, in the given file order. */
  function NodesInOrder(nodes: Nodes, fileNodes: map<string, seq<string>>, files: seq<string>): seq<Node<string>> {
    if files == [] then []
    else NodesInOrder(nodes, fileNodes, files[..|files| - 1]) + Graph.FileNodesSorted(nodes, fileNodes, files[|files| - 1])
  }

  /**
   * Build: no graph gives an empty index; otherwise the documents of the
   * graph's nodes, taken file by file in ascending file order and each
   * file's nodes by line.
   */
  method Build(g: Graph.Graph?) returns (index: Index, ghost order: seq<Node<string>>)
    ensures g == null ==> index == Index(Version, 0, map[], [])
    ensures g != null ==> exists files :: (StrictlyAscending(files) && (forall f :: f in files <==> f in g.fileNodes) &&
      order == NodesInOrder(g.nodes, g.fileNodes, files))
    ensures multiset(index.Documents) == multiset(DocsOf(order))
    ensures forall i, j :: 0 <= i < j < |index.Documents| ==> LessEq(index.Documents[i].ID, index.Documents[j].ID)
    ensures FreqOf(index.DocFreq, DocsOf(order))
    ensures index.Version == Version && index.DocumentCount == |index.Documents|
  {
    if g == null {
      order := [];
      return Index(Version, 0, map[], []), order;
    }
    var files := g.Files();
    var collected: seq<Node<string>> := [];
    for i := 0 to |files|
      invariant collected == NodesInOrder(g.nodes, g.fileNodes, files[..i])
    {
      assert files[..i + 1][..i] == files[..i];
      var fileNodes := g.NodesForFile(files[i]);
      collected := collected + fileNodes;
    }
    assert files[..|files|] == files;
    order := collected;
    index := BuildDocuments(collected);
  }
}
