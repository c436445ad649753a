/**
 * The Graph of internal/graph/graph.go: nodes keyed by node ID and the node
 * IDs of each file, built in place by the passes of buildFromParseResult.
 * Each pass is proved against its fold in module GraphEdges, where the
 * invariants of the finished graph are proved.
 */
module Graph {
  import opened Seqs
  import opened Sorting
  import opened Wrappers
  import opened ParserTypes
  import opened GraphLookup
  import opened GraphEdges
  import SymbolIds

  /** The sort key of NodesForFile: line first, node ID second. */
  function NodeKey(n: Node<string>): seq<KeyPart> {
    [IntKey(n.Symbol.Line), StrKey(n.ID)]
  }

  /** The nodes under the listed IDs, skipping IDs without a node. */
  function PresentNodes(nodes: Nodes, ids: seq<string>): seq<Node<string>> {
    if ids == [] then []
    else
      var prev := PresentNodes(nodes, ids[..|ids| - 1]);
      var id := ids[|ids| - 1];
      if id in nodes then prev + [nodes[id]] else prev
  }

  lemma {:induction false} PresentNodesMember(nodes: Nodes, ids: seq<string>, n: Node<string>)
    ensures n in PresentNodes(nodes, ids) <==> exists id :: id in ids && id in nodes && nodes[id] == n
  {
    if ids != [] {
      var init := ids[..|ids| - 1];
      PresentNodesMember(nodes, init, n);
      if exists id :: id in ids && id in nodes && nodes[id] == n {
        var id :| id in ids && id in nodes && nodes[id] == n;
        if id != ids[|ids| - 1] {
          assert id in init;
        }
      }
    }
  }

  /** The nodes of a file as NodesForFile returns them: none for an unknown file. */
  function FileNodesSorted(nodes: Nodes, fileNodes: map<string, seq<string>>, file: string): seq<Node<string>> {
    if file in fileNodes then SortByKey(PresentNodes(nodes, fileNodes[file]), NodeKey) else []
  }

  /**
   * NodesForFile lists each node under the file's IDs as often as its ID is
   * listed, ordered by line and then by ID.
   */
  lemma NodesForFileSpec(nodes: Nodes, fileNodes: map<string, seq<string>>, file: string)
    ensures var r := FileNodesSorted(nodes, fileNodes, file);
      && (forall n :: n in r <==> file in fileNodes && exists id :: id in fileNodes[file] && id in nodes && nodes[id] == n)
      && (forall i, j :: 0 <= i < j < |r| ==> KeyLe(NodeKey(r[i]), NodeKey(r[j])))
  {
    if file in fileNodes {
      var present := PresentNodes(nodes, fileNodes[file]);
      SortByKeySorted(present, NodeKey);
      forall n
        ensures n in SortByKey(present, NodeKey) <==> exists id :: id in fileNodes[file] && id in nodes && nodes[id] == n
      {
        assert n in SortByKey(present, NodeKey) <==> n in multiset(SortByKey(present, NodeKey));
        assert n in present <==> n in multiset(present);
        PresentNodesMember(nodes, fileNodes[file], n);
      }
    }
  }

  class Graph {
    var nodes: Nodes
    var fileNodes: map<string, seq<string>>

    /** NewGraph */
    constructor ()
      ensures nodes == map[] && fileNodes == map[]
    {
      nodes := map[];
      fileNodes := map[];
    }

    /** The first pass: a fresh node per symbol, its ID appended under its file. */
    method AddNodes(files: seq<FileSymbols>, ids: NodeIds)
      modifies this
      ensures nodes == NodesOfFiles(old(nodes), files, ids)
      ensures fileNodes == FileNodesOfFiles(old(fileNodes), files, ids)
    {
      var i := 0;
      while i < |files|
        invariant 0 <= i <= |files|
        invariant nodes == NodesOfFiles(old(nodes), files[..i], ids)
        invariant fileNodes == FileNodesOfFiles(old(fileNodes), files[..i], ids)
      {
        var file := files[i];
        ghost var nodes0 := nodes;
        ghost var fileNodes0 := fileNodes;
        var j := 0;
        while j < |file.Symbols|
          invariant 0 <= j <= |file.Symbols|
          invariant nodes == NodesOfSymbols(nodes0, file.Path, file.Symbols[..j], ids)
          invariant fileNodes == FileNodesOfSymbols(fileNodes0, file.Path, file.Symbols[..j], ids)
        {
          var sym := file.Symbols[j];
          var id := ids(file.Path, sym);
          assert file.Symbols[..j + 1][..j] == file.Symbols[..j];
          nodes := nodes[id := NewNode(id, sym, file.Path)];
          fileNodes := fileNodes[file.Path := Listed(fileNodes, file.Path) + [id]];
          j := j + 1;
        }
        assert file.Symbols[..j] == file.Symbols;
        assert files[..i + 1][..i] == files[..i];
        i := i + 1;
      }
      assert files[..i] == files;
    }

    /** The edges to the targets of one resolved call from srcID. */
    method AddResolution(srcID: string, res: Resolution)
      modifies this
      ensures nodes == WithEdges(old(nodes), srcID, res.targets, res.confidence)
      ensures fileNodes == old(fileNodes)
    {
      var i := 0;
      while i < |res.targets|
        invariant 0 <= i <= |res.targets|
        invariant nodes == WithEdges(old(nodes), srcID, res.targets[..i], res.confidence)
        invariant fileNodes == old(fileNodes)
      {
        var targetID := res.targets[i];
        assert res.targets[..i + 1][..i] == res.targets[..i];
        if targetID != srcID && srcID in nodes {
          var srcNode := nodes[srcID];
          nodes := nodes[srcID := srcNode.(OutEdges := srcNode.OutEdges + [targetID],
                                           OutEdgeConfidence := srcNode.OutEdgeConfidence[targetID :=
                                             MergeConfidence(ConfidenceOf(srcNode, targetID), res.confidence)])];
          if targetID in nodes {
            var targetNode := nodes[targetID];
            nodes := nodes[targetID := targetNode.(InEdges := targetNode.InEdges + [srcID])];
          }
        }
        i := i + 1;
      }
      assert res.targets[..i] == res.targets;
    }

    /** The edges of every resolved call of one symbol. */
    method AddSymbolEdges(resolve: Resolver, ids: NodeIds, path: string, sym: Symbol)
      modifies this
      ensures nodes == CallEdges(old(nodes), resolve, ids, path, sym, sym.Calls)
      ensures fileNodes == old(fileNodes)
    {
      var srcID := ids(path, sym);
      var i := 0;
      while i < |sym.Calls|
        invariant 0 <= i <= |sym.Calls|
        invariant nodes == CallEdges(old(nodes), resolve, ids, path, sym, sym.Calls[..i])
        invariant fileNodes == old(fileNodes)
      {
        assert sym.Calls[..i + 1][..i] == sym.Calls[..i];
        var res := resolve(path, sym, sym.Calls[i]);
        if res.Some? {
          AddResolution(srcID, res.value);
        }
        i := i + 1;
      }
      assert sym.Calls[..i] == sym.Calls;
    }

    /** The second pass: the edges of the symbols of every selected file. */
    method AddEdges(files: seq<FileSymbols>, resolve: Resolver, ids: NodeIds, sources: Option<set<string>>)
      modifies this
      ensures nodes == FileEdges(old(nodes), resolve, ids, sources, files)
      ensures fileNodes == old(fileNodes)
    {
      var i := 0;
      while i < |files|
        invariant 0 <= i <= |files|
        invariant nodes == FileEdges(old(nodes), resolve, ids, sources, files[..i])
        invariant fileNodes == old(fileNodes)
      {
        var file := files[i];
        assert files[..i + 1][..i] == files[..i];
        if Selected(sources, file.Path) {
          ghost var nodes0 := nodes;
          var j := 0;
          while j < |file.Symbols|
            invariant 0 <= j <= |file.Symbols|
            invariant nodes == SymbolEdges(nodes0, resolve, ids, file.Path, file.Symbols[..j])
            invariant fileNodes == old(fileNodes)
          {
            assert file.Symbols[..j + 1][..j] == file.Symbols[..j];
            AddSymbolEdges(resolve, ids, file.Path, file.Symbols[j]);
            j := j + 1;
          }
          assert file.Symbols[..j] == file.Symbols;
        }
        i := i + 1;
      }
      assert files[..i] == files;
    }

    /** normalizeEdges: every node normalised, in any order. */
    method NormalizeEdges()
      modifies this
      ensures nodes == NormalizedNodes(old(nodes))
      ensures fileNodes == old(fileNodes)
    {
      nodes := NormalizeAll(nodes);
    }

    /** NodesForFile */
    method NodesForFile(file: string) returns (r: seq<Node<string>>)
      ensures r == FileNodesSorted(nodes, fileNodes, file)
    {
      if file !in fileNodes {
        return [];
      }
      var ids := fileNodes[file];
      var present: seq<Node<string>> := [];
      var i := 0;
      while i < |ids|
        invariant 0 <= i <= |ids|
        invariant present == PresentNodes(nodes, ids[..i])
      {
        assert ids[..i + 1][..i] == ids[..i];
        if ids[i] in nodes {
          present := present + [nodes[ids[i]]];
        }
        i := i + 1;
      }
      assert ids[..i] == ids;
      r := SortByKey(present, NodeKey);
    }

    /** Files: every file with an entry, once, in ascending order. */
    method Files() returns (r: seq<string>)
      ensures StrictlyAscending(r)
      ensures forall f :: f in r <==> f in fileNodes
    {
      var files: seq<string> := [];
      var rest := fileNodes.Keys;
      while rest != {}
        invariant rest <= fileNodes.Keys
        invariant NoDups(files)
        invariant forall f :: f in files <==> f in fileNodes && f !in rest
        decreases |rest|
      {
        var f :| f in rest;
        files := files + [f];
        rest := rest - {f};
      }
      r := SortStrings(files);
      SortStringsAscending(files);
      SortStringsSorted(files);
      MultisetMembers(r, files);
    }
  }

  /** The loop of normalizeEdges: each node replaced by its normal form, in any order. */
  method NormalizeAll(nodes: Nodes) returns (r: Nodes)
    ensures r == NormalizedNodes(nodes)
  {
    ghost var target := NormalizedNodes(nodes);
    r := nodes;
    var pending := r.Keys;
    while pending != {}
      invariant pending <= r.Keys == target.Keys
      invariant forall k :: k in pending ==> r[k] == nodes[k]
      invariant forall k :: k in r && k !in pending ==> r[k] == target[k]
      decreases pending
    {
      var k :| k in pending;
      var m := NormalizeNode(r[k]);
      r := r[k := m];
      pending := pending - {k};
    }
  }

  /** One node of normalizeEdges: edge lists de-duplicated and sorted, labels kept for the remaining out-edges. */
  method NormalizeNode(n: Node<string>) returns (m: Node<string>)
    ensures m == NormalizedNode(n)
  {
    var out := DedupeAndSort(n.OutEdges);
    var ins := DedupeAndSort(n.InEdges);
    var cleaned := CleanedConfidence(n, out);
    m := n.(OutEdges := out, InEdges := ins, OutEdgeConfidence := cleaned);
  }

  /** The labels of n for the edges of out, "" for an edge without one. */
  method CleanedConfidence<K>(n: Node<K>, out: seq<K>) returns (cleaned: map<K, string>)
    ensures cleaned == map e | e in out :: ConfidenceOf(n, e)
  {
    cleaned := map[];
    var i := 0;
    while i < |out|
      invariant 0 <= i <= |out|
      invariant cleaned == map e | e in out[..i] :: ConfidenceOf(n, e)
    {
      assert out[..i + 1] == out[..i] + [out[i]];
      cleaned := cleaned[out[i] := ConfidenceOf(n, out[i])];
      i := i + 1;
    }
    assert out[..i] == out;
  }

  /**
   * buildFromParseResult without PageRank: the nodes are BuildNodes of the
   * parse result with resolve over the import-alias candidates, and the
   * graph has every proved property of BuildNodes.
   */
  method BuildFromParseResult(result: ParseResult, orders: seq<seq<string>>, h: SymbolIds.SigHash,
                              sourceFiles: Option<set<string>>)
    returns (g: Graph)
    requires AliasOrders(result.Files, orders)
    ensures fresh(g)
    ensures var ids := NodeIdsOf(h);
      && g.nodes == BuildNodes(result.Files, ResolverOf(result.Files, BuildImportAliasCandidates(result.Files, orders), ids), ids, sourceFiles)
      && g.fileNodes == FileNodesOfFiles(map[], result.Files, ids)
    ensures forall k :: k in g.nodes <==> NodeOf(result.Files, NodeIdsOf(h), k)
    ensures Linked(g.nodes) && EdgesSorted(g.nodes)
  {
    var files := result.Files;
    var ids := NodeIdsOf(h);
    g := new Graph();
    g.AddNodes(files, ids);
    var candidates := BuildImportAliasCandidates(files, orders);
    var resolve := ResolverOf(files, candidates, ids);
    g.AddEdges(files, resolve, ids, sourceFiles);
    g.NormalizeEdges();
    ResolverOfSound(files, candidates, ids);
    BuildNodesLinked(files, resolve, ids, sourceFiles);
  }
}
