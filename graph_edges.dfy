/**
 * The dependency graph of internal/graph/graph.go as values: the nodes keyed
 * by node ID, the first pass that creates one node per symbol, the second
 * pass that adds the resolved call edges, and the normalisation that
 * de-duplicates and sorts every edge list. The Graph class in module Graph
 * performs these passes in place; the lemmas here state what they keep.
 */
module GraphEdges {
  import opened Seqs
  import Strs
  import opened Sorting
  import opened Wrappers
  import opened ParserTypes
  import opened GraphLookup

  /**
   * A graph node; PageRank is not part of this model. The node ID type K is
   * a parameter so that the edge invariants are stated for any ID type; the
   * graph itself uses strings.
   */
  datatype Node<K> = Node(
    ID: K,
    Symbol: Symbol,
    File: string,
    OutEdges: seq<K>,
    OutEdgeConfidence: map<K, string>,
    InEdges: seq<K>)

  type NodeMap<K> = map<K, Node<K>>

  type Nodes = NodeMap<string>

  function NewNode(id: string, sym: Symbol, file: string): Node<string> {
    Node(id, sym, file, [], map[], [])
  }

  // ---------------------------------------------------------------------
  // First pass: one node per symbol

  function NodesOfSymbols(m: Nodes, path: string, syms: seq<Symbol>, ids: NodeIds): Nodes {
    if syms == [] then m
    else
      var s := syms[|syms| - 1];
      var id := ids(path, s);
      NodesOfSymbols(m, path, syms[..|syms| - 1], ids)[id := NewNode(id, s, path)]
  }

  function NodesOfFiles(m: Nodes, files: seq<FileSymbols>, ids: NodeIds): Nodes {
    if files == [] then m
    else
      var f := files[|files| - 1];
      NodesOfSymbols(NodesOfFiles(m, files[..|files| - 1], ids), f.Path, f.Symbols, ids)
  }

  /** The IDs listed under a file, none when the file has no entry (a nil slice). */
  function Listed(fm: map<string, seq<string>>, path: string): seq<string> {
    if path in fm then fm[path] else []
  }

  function FileNodesOfSymbols(fm: map<string, seq<string>>, path: string, syms: seq<Symbol>, ids: NodeIds): map<string, seq<string>> {
    if syms == [] then fm
    else
      var prev := FileNodesOfSymbols(fm, path, syms[..|syms| - 1], ids);
      prev[path := Listed(prev, path) + [ids(path, syms[|syms| - 1])]]
  }

  function FileNodesOfFiles(fm: map<string, seq<string>>, files: seq<FileSymbols>, ids: NodeIds): map<string, seq<string>> {
    if files == [] then fm
    else
      var f := files[|files| - 1];
      FileNodesOfSymbols(FileNodesOfFiles(fm, files[..|files| - 1], ids), f.Path, f.Symbols, ids)
  }

  /** Some symbol of file f has node ID id. */
  ghost predicate NodeInFile(f: FileSymbols, ids: NodeIds, id: string) {
    exists j :: 0 <= j < |f.Symbols| && ids(f.Path, f.Symbols[j]) == id
  }

  /** Some symbol of the parse result has node ID id. */
  ghost predicate NodeOf(files: seq<FileSymbols>, ids: NodeIds, id: string) {
    exists i :: 0 <= i < |files| && NodeInFile(files[i], ids, id)
  }

  /** A node freshly made for a symbol of the parse result: no edges yet. */
  ghost predicate FreshNode(files: seq<FileSymbols>, ids: NodeIds, k: string, n: Node<string>) {
    && n == NewNode(k, n.Symbol, n.File)
    && exists i :: 0 <= i < |files| && files[i].Path == n.File && n.Symbol in files[i].Symbols && ids(n.File, n.Symbol) == k
  }

  lemma {:induction false} NodesOfSymbolsMember(m: Nodes, f: FileSymbols, n: nat, ids: NodeIds, k: string)
    requires n <= |f.Symbols|
    requires k in NodesOfSymbols(m, f.Path, f.Symbols[..n], ids)
    ensures var r := NodesOfSymbols(m, f.Path, f.Symbols[..n], ids);
      (k in m && r[k] == m[k]) || (r[k] == NewNode(k, r[k].Symbol, f.Path) && r[k].Symbol in f.Symbols && ids(f.Path, r[k].Symbol) == k)
  {
    if n > 0 {
      assert f.Symbols[..n][..n - 1] == f.Symbols[..n - 1];
      var s := f.Symbols[n - 1];
      if ids(f.Path, s) != k {
        NodesOfSymbolsMember(m, f, n - 1, ids, k);
      }
    }
  }

  lemma {:induction false} NodesOfSymbolsKeys(m: Nodes, f: FileSymbols, n: nat, ids: NodeIds, k: string)
    requires n <= |f.Symbols|
    ensures k in NodesOfSymbols(m, f.Path, f.Symbols[..n], ids) <==>
      (k in m || exists j :: 0 <= j < n && ids(f.Path, f.Symbols[j]) == k)
  {
    if n > 0 {
      assert f.Symbols[..n][..n - 1] == f.Symbols[..n - 1];
      NodesOfSymbolsKeys(m, f, n - 1, ids, k);
      if exists j :: 0 <= j < n && ids(f.Path, f.Symbols[j]) == k {
        var j :| 0 <= j < n && ids(f.Path, f.Symbols[j]) == k;
        if j < n - 1 {
          assert exists j' :: 0 <= j' < n - 1 && ids(f.Path, f.Symbols[j']) == k;
        }
      }
    }
  }

  /** The first pass creates exactly one node per distinct node ID of the parse result. */
  lemma {:induction false} NodesOfFilesKeys(files: seq<FileSymbols>, ids: NodeIds, k: string)
    ensures k in NodesOfFiles(map[], files, ids) <==> NodeOf(files, ids, k)
  {
    if files != [] {
      var init := files[..|files| - 1];
      var f := files[|files| - 1];
      NodesOfFilesKeys(init, ids, k);
      NodesOfSymbolsKeys(NodesOfFiles(map[], init, ids), f, |f.Symbols|, ids, k);
      assert f.Symbols[..|f.Symbols|] == f.Symbols;
      if NodeOf(files, ids, k) {
        var i :| 0 <= i < |files| && NodeInFile(files[i], ids, k);
        if i < |files| - 1 {
          assert files[i] == init[i];
        }
      }
      if NodeOf(init, ids, k) {
        var i :| 0 <= i < |init| && NodeInFile(init[i], ids, k);
        assert files[i] == init[i];
      }
    }
  }

  /** Every node the first pass creates is the edge-less node of a symbol with that ID. */
  lemma {:induction false} NodesOfFilesFresh(files: seq<FileSymbols>, ids: NodeIds, k: string)
    requires k in NodesOfFiles(map[], files, ids)
    ensures FreshNode(files, ids, k, NodesOfFiles(map[], files, ids)[k])
  {
    var init := files[..|files| - 1];
    var f := files[|files| - 1];
    var prev := NodesOfFiles(map[], init, ids);
    assert f.Symbols[..|f.Symbols|] == f.Symbols;
    NodesOfSymbolsMember(prev, f, |f.Symbols|, ids, k);
    var r := NodesOfFiles(map[], files, ids);
    if k in prev && r[k] == prev[k] {
      NodesOfFilesFresh(init, ids, k);
      var i :| 0 <= i < |init| && init[i].Path == r[k].File && r[k].Symbol in init[i].Symbols && ids(r[k].File, r[k].Symbol) == k;
      assert files[i] == init[i];
    } else {
      assert files[|files| - 1].Path == r[k].File;
    }
  }

  lemma {:induction false} FileNodesOfSymbolsMember(fm: map<string, seq<string>>, f: FileSymbols, n: nat, ids: NodeIds, p: string, id: string)
    requires n <= |f.Symbols|
    ensures var r := FileNodesOfSymbols(fm, f.Path, f.Symbols[..n], ids);
      && (p in r <==> p in fm || (p == f.Path && n > 0))
      && (id in Listed(r, p) <==> id in Listed(fm, p) || (p == f.Path && exists j :: 0 <= j < n && ids(f.Path, f.Symbols[j]) == id))
  {
    if n > 0 {
      assert f.Symbols[..n][..n - 1] == f.Symbols[..n - 1];
      FileNodesOfSymbolsMember(fm, f, n - 1, ids, p, id);
      if p == f.Path && exists j :: 0 <= j < n && ids(f.Path, f.Symbols[j]) == id {
        var j :| 0 <= j < n && ids(f.Path, f.Symbols[j]) == id;
        if j < n - 1 {
          assert exists j' :: 0 <= j' < n - 1 && ids(f.Path, f.Symbols[j']) == id;
        }
      }
    }
  }

  /**
   * FileNodes gets an entry exactly for the files that declare a symbol, and
   * lists under a path the node IDs of the symbols of the files with that path.
   */
  lemma {:induction false} FileNodesOfFilesMember(files: seq<FileSymbols>, ids: NodeIds, p: string, id: string)
    ensures var r := FileNodesOfFiles(map[], files, ids);
      && (p in r <==> exists i :: 0 <= i < |files| && files[i].Path == p && files[i].Symbols != [])
      && (id in Listed(r, p) <==> exists i :: 0 <= i < |files| && files[i].Path == p && NodeInFile(files[i], ids, id))
  {
    if files != [] {
      var init := files[..|files| - 1];
      var f := files[|files| - 1];
      FileNodesOfFilesMember(init, ids, p, id);
      FileNodesOfSymbolsMember(FileNodesOfFiles(map[], init, ids), f, |f.Symbols|, ids, p, id);
      assert f.Symbols[..|f.Symbols|] == f.Symbols;
      forall i | 0 <= i < |init|
        ensures files[i] == init[i]
      {
      }
    }
  }

  // ---------------------------------------------------------------------
  // Second pass: call edges

  /** The labels resolve can give (it never answers "ambiguous"). */
  predicate IsLabel(c: string) {
    c == Resolved || c == Heuristic
  }

  function ConfidenceOf<K>(n: Node<K>, t: K): string {
    if t in n.OutEdgeConfidence then n.OutEdgeConfidence[t] else ""
  }

  /**
   * One resolved target of a call from src: skipped when it is src itself;
   * otherwise appended to src's out-edges with its label merged into the
   * label already recorded, and src appended to the target's in-edges when
   * the target is a node.
   */
  function WithEdge<K>(nodes: NodeMap<K>, src: K, target: K, conf: string): (r: NodeMap<K>)
    ensures r.Keys == nodes.Keys
  {
    if src !in nodes || target == src then nodes
    else
      var n := nodes[src];
      var out := nodes[src := n.(OutEdges := n.OutEdges + [target],
                                OutEdgeConfidence := n.OutEdgeConfidence[target := MergeConfidence(ConfidenceOf(n, target), conf)])];
      if target in out then out[target := out[target].(InEdges := out[target].InEdges + [src])] else out
  }

  function WithEdges<K>(nodes: NodeMap<K>, src: K, targets: seq<K>, conf: string): (r: NodeMap<K>)
    ensures r.Keys == nodes.Keys
  {
    if targets == [] then nodes
    else WithEdge(WithEdges(nodes, src, targets[..|targets| - 1], conf), src, targets[|targets| - 1], conf)
  }

  /** Resolution of a call made by a symbol of a file. */
  type Resolver = (string, Symbol, CallSite) -> Option<Resolution>

  function ResolverOf(files: seq<FileSymbols>, candidates: AliasCandidates, ids: NodeIds): Resolver {
    (path: string, sym: Symbol, call: CallSite) => Resolve(files, candidates, ids, path, sym, call)
  }

  function CallEdges(nodes: Nodes, resolve: Resolver, ids: NodeIds, path: string, sym: Symbol, calls: seq<CallSite>): (r: Nodes)
    ensures r.Keys == nodes.Keys
  {
    if calls == [] then nodes
    else
      var prev := CallEdges(nodes, resolve, ids, path, sym, calls[..|calls| - 1]);
      var res := resolve(path, sym, calls[|calls| - 1]);
      if res.Some? then WithEdges(prev, ids(path, sym), res.value.targets, res.value.confidence) else prev
  }

  function SymbolEdges(nodes: Nodes, resolve: Resolver, ids: NodeIds, path: string, syms: seq<Symbol>): (r: Nodes)
    ensures r.Keys == nodes.Keys
  {
    if syms == [] then nodes
    else
      var s := syms[|syms| - 1];
      CallEdges(SymbolEdges(nodes, resolve, ids, path, syms[..|syms| - 1]), resolve, ids, path, s, s.Calls)
  }

  /** Edges are computed for every file when no source set is given, else only for the listed files. */
  predicate Selected(sources: Option<set<string>>, path: string) {
    sources.None? || path in sources.value
  }

  function FileEdges(nodes: Nodes, resolve: Resolver, ids: NodeIds, sources: Option<set<string>>, files: seq<FileSymbols>): (r: Nodes)
    ensures r.Keys == nodes.Keys
  {
    if files == [] then nodes
    else
      var f := files[|files| - 1];
      var prev := FileEdges(nodes, resolve, ids, sources, files[..|files| - 1]);
      if Selected(sources, f.Path) then SymbolEdges(prev, resolve, ids, f.Path, f.Symbols) else prev
  }

  // ---------------------------------------------------------------------
  // Normalisation

  /**
   * A node with both edge lists passed through dedupe, and a label kept for
   * each remaining out-edge. The graph uses DedupedSorted; the invariants
   * hold for any dedupe that keeps the members of a list.
   */
  function NormalizedNodeBy<K>(n: Node<K>, dedupe: seq<K> -> seq<K>): Node<K> {
    var out := dedupe(n.OutEdges);
    n.(OutEdges := out,
       InEdges := dedupe(n.InEdges),
       OutEdgeConfidence := map e | e in out :: ConfidenceOf(n, e))
  }

  function NormalizedNodesBy<K>(nodes: NodeMap<K>, dedupe: seq<K> -> seq<K>): NodeMap<K> {
    map k | k in nodes :: NormalizedNodeBy(nodes[k], dedupe)
  }

  function NormalizedNode(n: Node<string>): Node<string> {
    NormalizedNodeBy(n, DedupedSorted)
  }

  function NormalizedNodes(nodes: Nodes): Nodes {
    NormalizedNodesBy(nodes, DedupedSorted)
  }

  // ---------------------------------------------------------------------
  // The invariants of the edge sets

  ghost predicate KeysAreIDs<K>(nodes: NodeMap<K>) {
    forall k :: k in nodes ==> nodes[k].ID == k
  }

  ghost predicate NoSelfEdges<K>(nodes: NodeMap<K>) {
    forall k :: k in nodes ==> k !in nodes[k].OutEdges
  }

  /** The confidence map has an entry for exactly the out-edges. */
  ghost predicate ConfidenceAligned<K>(nodes: NodeMap<K>) {
    && (forall k, t :: k in nodes && t in nodes[k].OutEdgeConfidence ==> t in nodes[k].OutEdges)
    && (forall k, t :: k in nodes && t in nodes[k].OutEdges ==> t in nodes[k].OutEdgeConfidence)
  }

  ghost predicate ConfidenceLabelled<K>(nodes: NodeMap<K>) {
    forall k, t :: k in nodes && t in nodes[k].OutEdgeConfidence ==> IsLabel(nodes[k].OutEdgeConfidence[t])
  }

  /** Every out-edge leads to a node that lists the source among its in-edges. */
  ghost predicate OutMirrored<K>(nodes: NodeMap<K>) {
    forall k, t :: k in nodes && t in nodes[k].OutEdges ==> t in nodes && k in nodes[t].InEdges
  }

  /** Every in-edge comes from a node that lists the target among its out-edges. */
  ghost predicate InMirrored<K>(nodes: NodeMap<K>) {
    forall k, s :: k in nodes && s in nodes[k].InEdges ==> s in nodes && k in nodes[s].OutEdges
  }

  ghost predicate Linked<K>(nodes: NodeMap<K>) {
    && KeysAreIDs(nodes)
    && NoSelfEdges(nodes)
    && ConfidenceAligned(nodes)
    && ConfidenceLabelled(nodes)
    && OutMirrored(nodes)
    && InMirrored(nodes)
  }

  ghost predicate EdgesSorted(nodes: Nodes) {
    forall k :: k in nodes ==> StrictlyAscending(nodes[k].OutEdges) && StrictlyAscending(nodes[k].InEdges)
  }

  // ---------------------------------------------------------------------
  // Adding edges keeps the invariants

  /** After adding src -> target, an out-edge is an old one or that edge. */
  lemma WithEdgeOut<K>(nodes: NodeMap<K>, src: K, target: K, conf: string, k: K, x: K)
    requires src in nodes && target != src && k in nodes
    ensures x in WithEdge(nodes, src, target, conf)[k].OutEdges <==> x in nodes[k].OutEdges || (k == src && x == target)
  {
    if k == src {
      assert WithEdge(nodes, src, target, conf)[k].OutEdges == nodes[k].OutEdges + [target];
    }
  }

  /** After adding src -> target, an in-edge is an old one or that edge. */
  lemma WithEdgeIn<K>(nodes: NodeMap<K>, src: K, target: K, conf: string, k: K, x: K)
    requires src in nodes && target != src && target in nodes && k in nodes
    ensures x in WithEdge(nodes, src, target, conf)[k].InEdges <==> x in nodes[k].InEdges || (k == target && x == src)
  {
    if k == target {
      assert WithEdge(nodes, src, target, conf)[k].InEdges == nodes[k].InEdges + [src];
    }
  }

  /** After adding src -> target, the label map changes only at src, and only for target. */
  lemma WithEdgeLabel<K>(nodes: NodeMap<K>, src: K, target: K, conf: string, k: K)
    requires src in nodes && target != src && k in nodes
    ensures WithEdge(nodes, src, target, conf)[k].ID == nodes[k].ID
    ensures WithEdge(nodes, src, target, conf)[k].OutEdgeConfidence ==
      if k == src then nodes[k].OutEdgeConfidence[target := MergeConfidence(ConfidenceOf(nodes[k], target), conf)]
      else nodes[k].OutEdgeConfidence
  {
  }

  lemma WithEdgeMirrored<K>(nodes: NodeMap<K>, src: K, target: K, conf: string)
    requires OutMirrored(nodes) && InMirrored(nodes) && src in nodes && target != src && target in nodes
    ensures OutMirrored(WithEdge(nodes, src, target, conf)) && InMirrored(WithEdge(nodes, src, target, conf))
  {
    var r := WithEdge(nodes, src, target, conf);
    forall k, t | k in r && t in r[k].OutEdges
      ensures t in r && k in r[t].InEdges
    {
      WithEdgeOut(nodes, src, target, conf, k, t);
      WithEdgeIn(nodes, src, target, conf, t, k);
    }
    forall k, s | k in r && s in r[k].InEdges
      ensures s in r && k in r[s].OutEdges
    {
      WithEdgeIn(nodes, src, target, conf, k, s);
      WithEdgeOut(nodes, src, target, conf, s, k);
    }
  }

  /** r has nodes' keys and IDs, and src -> target is a proper edge between two of them. */
  ghost predicate SameNodes<K>(nodes: NodeMap<K>, r: NodeMap<K>, src: K, target: K) {
    && src in nodes && src != target
    && (forall k :: k in r ==> k in nodes)
    && (forall k :: k in nodes ==> k in r)
    && forall k {:trigger r[k]} :: k in r && k in nodes ==> r[k].ID == nodes[k].ID
  }

  /** Only src's out-edges grow, by target. */
  ghost predicate OutAdded<K>(nodes: NodeMap<K>, r: NodeMap<K>, src: K, target: K) {
    forall k {:trigger r[k]} :: k in r && k in nodes ==>
      r[k].OutEdges == (if k == src then nodes[k].OutEdges + [target] else nodes[k].OutEdges)
  }

  /** Only src's label map changes: target gets the merged label. */
  ghost predicate LabelMerged<K>(nodes: NodeMap<K>, r: NodeMap<K>, src: K, target: K, conf: string) {
    forall k {:trigger r[k]} :: k in r && k in nodes ==>
      r[k].OutEdgeConfidence == (if k == src then nodes[k].OutEdgeConfidence[target := MergeConfidence(ConfidenceOf(nodes[k], target), conf)]
                                 else nodes[k].OutEdgeConfidence)
  }

  lemma WithEdgeAdded<K>(nodes: NodeMap<K>, src: K, target: K, conf: string)
    requires src in nodes && target != src
    ensures var r := WithEdge(nodes, src, target, conf);
      SameNodes(nodes, r, src, target) && OutAdded(nodes, r, src, target) && LabelMerged(nodes, r, src, target, conf)
  {
  }

  /** One node's label map stays aligned and labelled when an edge to target is (or is not) added to it. */
  lemma LabelsAt<K>(n: Node<K>, m: Node<K>, isSrc: bool, target: K, conf: string, t: K)
    requires m.OutEdges == if isSrc then n.OutEdges + [target] else n.OutEdges
    requires m.OutEdgeConfidence == if isSrc then n.OutEdgeConfidence[target := MergeConfidence(ConfidenceOf(n, target), conf)]
                                    else n.OutEdgeConfidence
    requires t in n.OutEdgeConfidence <==> t in n.OutEdges
    requires t in n.OutEdgeConfidence ==> IsLabel(n.OutEdgeConfidence[t])
    requires target in n.OutEdgeConfidence ==> IsLabel(n.OutEdgeConfidence[target])
    requires IsLabel(conf)
    ensures t in m.OutEdgeConfidence <==> t in m.OutEdges
    ensures t in m.OutEdgeConfidence ==> IsLabel(m.OutEdgeConfidence[t])
  {
  }

  lemma EdgeAddedAligned<K>(nodes: NodeMap<K>, r: NodeMap<K>, src: K, target: K, conf: string)
    requires SameNodes(nodes, r, src, target) && OutAdded(nodes, r, src, target) && LabelMerged(nodes, r, src, target, conf)
    requires KeysAreIDs(nodes) && NoSelfEdges(nodes) && ConfidenceAligned(nodes) && ConfidenceLabelled(nodes) && IsLabel(conf)
    ensures KeysAreIDs(r) && NoSelfEdges(r) && ConfidenceAligned(r) && ConfidenceLabelled(r)
  {
    forall k | k in r
      ensures r[k].ID == k && k !in r[k].OutEdges
    {
      assert k in nodes;
      assert r[k].OutEdges == if k == src then nodes[k].OutEdges + [target] else nodes[k].OutEdges;
    }
    forall k, t | k in r
      ensures t in r[k].OutEdgeConfidence <==> t in r[k].OutEdges
      ensures t in r[k].OutEdgeConfidence ==> IsLabel(r[k].OutEdgeConfidence[t])
    {
      assert k in nodes;
      LabelsAt(nodes[k], r[k], k == src, target, conf, t);
    }
  }

  /** Adding an edge between two nodes keeps the graph linked. */
  lemma WithEdgeLinked<K>(nodes: NodeMap<K>, src: K, target: K, conf: string)
    requires Linked(nodes) && IsLabel(conf) && target in nodes
    ensures Linked(WithEdge(nodes, src, target, conf))
  {
    if src in nodes && target != src {
      WithEdgeAdded(nodes, src, target, conf);
      EdgeAddedAligned(nodes, WithEdge(nodes, src, target, conf), src, target, conf);
      WithEdgeMirrored(nodes, src, target, conf);
    }
  }

  /** Out-edges change only at the source of the added edge. */
  lemma WithEdgeOthers<K>(nodes: NodeMap<K>, src: K, target: K, conf: string, k: K)
    requires k in nodes && k != src
    ensures WithEdge(nodes, src, target, conf)[k].OutEdges == nodes[k].OutEdges
  {
  }

  lemma {:induction false} WithEdgesLinked<K>(nodes: NodeMap<K>, src: K, targets: seq<K>, conf: string)
    requires Linked(nodes) && IsLabel(conf)
    requires forall t :: t in targets ==> t in nodes
    ensures Linked(WithEdges(nodes, src, targets, conf))
  {
    if targets != [] {
      var init := targets[..|targets| - 1];
      WithEdgesLinked(nodes, src, init, conf);
      WithEdgeLinked(WithEdges(nodes, src, init, conf), src, targets[|targets| - 1], conf);
    }
  }

  lemma {:induction false} WithEdgesOthers<K>(nodes: NodeMap<K>, src: K, targets: seq<K>, conf: string, k: K)
    requires k in nodes && k != src
    ensures WithEdges(nodes, src, targets, conf)[k].OutEdges == nodes[k].OutEdges
  {
    if targets != [] {
      var init := targets[..|targets| - 1];
      WithEdgesOthers(nodes, src, init, conf, k);
      WithEdgeOthers(WithEdges(nodes, src, init, conf), src, targets[|targets| - 1], conf, k);
    }
  }

  // ---------------------------------------------------------------------
  // The second pass keeps the invariants

  /** A resolution whose label is one resolve gives and whose targets are nodes of the parse result. */
  ghost predicate ResolutionOk(files: seq<FileSymbols>, ids: NodeIds, r: Resolution) {
    IsLabel(r.confidence) && forall t :: t in r.targets ==> NodeOf(files, ids, t)
  }

  ghost predicate SoundResolver(resolve: Resolver, files: seq<FileSymbols>, ids: NodeIds) {
    forall p, s, c :: resolve(p, s, c).Some? ==> ResolutionOk(files, ids, resolve(p, s, c).value)
  }

  /** Every node of the parse result is in nodes. */
  ghost predicate Covers(nodes: Nodes, files: seq<FileSymbols>, ids: NodeIds) {
    forall k :: NodeOf(files, ids, k) ==> k in nodes
  }

  /** A declared name is a node of the parse result. */
  lemma DeclaredNode(files: seq<FileSymbols>, scope: Scope, name: string, id: string, ids: NodeIds)
    requires DeclaredIn(files, scope, name, id, ids)
    ensures NodeOf(files, ids, id)
  {
    var i :| 0 <= i < |files| && DeclaredInFile(files[i], scope, name, id, ids);
    assert NodeInFile(files[i], ids, id);
  }

  /** A resolution as resolve makes it names nodes of the parse result, with a resolve label. */
  lemma SoundResolutionOk(files: seq<FileSymbols>, ids: NodeIds, name: string, r: Resolution)
    requires SoundAs(files, r, name, ids, Resolved) || SoundAs(files, r, name, ids, Heuristic)
    ensures ResolutionOk(files, ids, r)
  {
    DeclaredNode(files, Anywhere, name, r.targets[0], ids);
  }

  lemma ResolverOfSound(files: seq<FileSymbols>, candidates: AliasCandidates, ids: NodeIds)
    ensures SoundResolver(ResolverOf(files, candidates, ids), files, ids)
  {
    forall p, s, c | ResolverOf(files, candidates, ids)(p, s, c).Some?
      ensures ResolutionOk(files, ids, ResolverOf(files, candidates, ids)(p, s, c).value)
    {
      ResolveSound(files, candidates, ids, p, s, c);
      SoundResolutionOk(files, ids, Strs.TrimSpace(c.Name), Resolve(files, candidates, ids, p, s, c).value);
    }
  }

  lemma {:induction false} CallEdgesLinked(nodes: Nodes, resolve: Resolver, ids: NodeIds, files: seq<FileSymbols>,
                                          path: string, sym: Symbol, calls: seq<CallSite>)
    requires Linked(nodes) && Covers(nodes, files, ids) && SoundResolver(resolve, files, ids)
    ensures Linked(CallEdges(nodes, resolve, ids, path, sym, calls))
  {
    if calls != [] {
      var init := calls[..|calls| - 1];
      CallEdgesLinked(nodes, resolve, ids, files, path, sym, init);
      var res := resolve(path, sym, calls[|calls| - 1]);
      if res.Some? {
        var prev := CallEdges(nodes, resolve, ids, path, sym, init);
        assert ResolutionOk(files, ids, res.value);
        WithEdgesLinked(prev, ids(path, sym), res.value.targets, res.value.confidence);
      }
    }
  }

  lemma {:induction false} CallEdgesOthers(nodes: Nodes, resolve: Resolver, ids: NodeIds,
                                          path: string, sym: Symbol, calls: seq<CallSite>, k: string)
    requires k in nodes && k != ids(path, sym)
    ensures CallEdges(nodes, resolve, ids, path, sym, calls)[k].OutEdges == nodes[k].OutEdges
  {
    if calls != [] {
      var init := calls[..|calls| - 1];
      CallEdgesOthers(nodes, resolve, ids, path, sym, init, k);
      var res := resolve(path, sym, calls[|calls| - 1]);
      if res.Some? {
        WithEdgesOthers(CallEdges(nodes, resolve, ids, path, sym, init), ids(path, sym), res.value.targets, res.value.confidence, k);
      }
    }
  }

  lemma {:induction false} SymbolEdgesLinked(nodes: Nodes, resolve: Resolver, ids: NodeIds, files: seq<FileSymbols>,
                                            path: string, syms: seq<Symbol>)
    requires Linked(nodes) && Covers(nodes, files, ids) && SoundResolver(resolve, files, ids)
    ensures Linked(SymbolEdges(nodes, resolve, ids, path, syms))
  {
    if syms != [] {
      var init := syms[..|syms| - 1];
      var s := syms[|syms| - 1];
      SymbolEdgesLinked(nodes, resolve, ids, files, path, init);
      CallEdgesLinked(SymbolEdges(nodes, resolve, ids, path, init), resolve, ids, files, path, s, s.Calls);
    }
  }

  /** Only the nodes of the symbols whose calls are processed gain out-edges. */
  lemma {:induction false} SymbolEdgesOthers(nodes: Nodes, resolve: Resolver, ids: NodeIds,
                                            path: string, syms: seq<Symbol>, k: string)
    requires k in nodes
    requires SymbolEdges(nodes, resolve, ids, path, syms)[k].OutEdges != nodes[k].OutEdges
    ensures exists j :: 0 <= j < |syms| && ids(path, syms[j]) == k
  {
    var init := syms[..|syms| - 1];
    var s := syms[|syms| - 1];
    var prev := SymbolEdges(nodes, resolve, ids, path, init);
    if k == ids(path, s) {
      assert ids(path, syms[|syms| - 1]) == k;
    } else {
      CallEdgesOthers(prev, resolve, ids, path, s, s.Calls, k);
      SymbolEdgesOthers(nodes, resolve, ids, path, init, k);
      var j :| 0 <= j < |init| && ids(path, init[j]) == k;
      assert syms[j] == init[j];
    }
  }

  lemma {:induction false} FileEdgesLinked(nodes: Nodes, resolve: Resolver, ids: NodeIds, sources: Option<set<string>>,
                                          files: seq<FileSymbols>, all: seq<FileSymbols>)
    requires Linked(nodes) && Covers(nodes, all, ids) && SoundResolver(resolve, all, ids)
    ensures Linked(FileEdges(nodes, resolve, ids, sources, files))
  {
    if files != [] {
      var init := files[..|files| - 1];
      var f := files[|files| - 1];
      FileEdgesLinked(nodes, resolve, ids, sources, init, all);
      if Selected(sources, f.Path) {
        SymbolEdgesLinked(FileEdges(nodes, resolve, ids, sources, init), resolve, ids, all, f.Path, f.Symbols);
      }
    }
  }

  /** With a source set, only the nodes of symbols of listed files gain out-edges. */
  lemma {:induction false} FileEdgesOthers(nodes: Nodes, resolve: Resolver, ids: NodeIds, sources: Option<set<string>>,
                                          files: seq<FileSymbols>, k: string)
    requires k in nodes
    requires FileEdges(nodes, resolve, ids, sources, files)[k].OutEdges != nodes[k].OutEdges
    ensures exists i :: 0 <= i < |files| && Selected(sources, files[i].Path) && NodeInFile(files[i], ids, k)
  {
    var init := files[..|files| - 1];
    var f := files[|files| - 1];
    var prev := FileEdges(nodes, resolve, ids, sources, init);
    if Selected(sources, f.Path) && SymbolEdges(prev, resolve, ids, f.Path, f.Symbols)[k].OutEdges != prev[k].OutEdges {
      SymbolEdgesOthers(prev, resolve, ids, f.Path, f.Symbols, k);
      assert NodeInFile(files[|files| - 1], ids, k);
    } else {
      FileEdgesOthers(nodes, resolve, ids, sources, init, k);
      var i :| 0 <= i < |init| && Selected(sources, init[i].Path) && NodeInFile(init[i], ids, k);
      assert files[i] == init[i];
    }
  }

  // ---------------------------------------------------------------------
  // Normalisation keeps the invariants and sorts the edge lists

  /**
   * A normalised node keeps its identity and its edge sets, lists each edge
   * once in ascending order, and keeps a label for exactly its out-edges.
   */
  lemma NormalizedNodeSpec(n: Node<string>)
    ensures var m := NormalizedNode(n);
      && m.ID == n.ID && m.Symbol == n.Symbol && m.File == n.File
      && StrictlyAscending(m.OutEdges) && StrictlyAscending(m.InEdges)
      && (forall x :: x in m.OutEdges <==> x in n.OutEdges)
      && (forall x :: x in m.InEdges <==> x in n.InEdges)
      && (forall x :: x in m.OutEdgeConfidence <==> x in m.OutEdges)
      && (forall x :: x in m.OutEdgeConfidence ==> m.OutEdgeConfidence[x] == ConfidenceOf(n, x))
  {
    DedupedSortedSpec(n.OutEdges);
    DedupedSortedSpec(n.InEdges);
  }

  /** After normalisation every edge list is sorted and duplicate-free, and the label keys are the out-edges. */
  lemma NormalizedNodesSorted(nodes: Nodes)
    ensures NormalizedNodes(nodes).Keys == nodes.Keys
    ensures EdgesSorted(NormalizedNodes(nodes)) && ConfidenceAligned(NormalizedNodes(nodes))
  {
    var r := NormalizedNodes(nodes);
    forall k | k in r
      ensures StrictlyAscending(r[k].OutEdges) && StrictlyAscending(r[k].InEdges)
      ensures forall x :: x in r[k].OutEdgeConfidence <==> x in r[k].OutEdges
    {
      NormalizedNodeSpec(nodes[k]);
    }
  }

  ghost predicate KeepsMembers<K(!new)>(dedupe: seq<K> -> seq<K>) {
    forall l: seq<K>, x: K :: x in dedupe(l) <==> x in l
  }

  lemma DedupedSortedKeepsMembers()
    ensures KeepsMembers(DedupedSorted)
  {
    forall l: seq<string>
      ensures forall x :: x in DedupedSorted(l) <==> x in l
    {
      DedupedSortedSpec(l);
    }
  }

  lemma NormalizedByLabel<K>(n: Node<K>, dedupe: seq<K> -> seq<K>, x: K)
    requires x in dedupe(n.OutEdges) <==> x in n.OutEdges
    requires x in n.OutEdges ==> x in n.OutEdgeConfidence && IsLabel(n.OutEdgeConfidence[x])
    ensures var m := NormalizedNodeBy(n, dedupe);
      (x in m.OutEdgeConfidence <==> x in m.OutEdges) && (x in m.OutEdgeConfidence ==> IsLabel(m.OutEdgeConfidence[x]))
  {
  }

  lemma NormalizedByLabelled<K(!new)>(nodes: NodeMap<K>, dedupe: seq<K> -> seq<K>)
    requires KeepsMembers(dedupe)
    requires KeysAreIDs(nodes) && NoSelfEdges(nodes) && ConfidenceAligned(nodes) && ConfidenceLabelled(nodes)
    ensures var r := NormalizedNodesBy(nodes, dedupe);
      KeysAreIDs(r) && NoSelfEdges(r) && ConfidenceAligned(r) && ConfidenceLabelled(r)
  {
    var r := NormalizedNodesBy(nodes, dedupe);
    forall k | k in r
      ensures r[k].ID == k && k !in r[k].OutEdges
    {
      assert k in dedupe(nodes[k].OutEdges) <==> k in nodes[k].OutEdges;
    }
    forall k, x | k in r
      ensures x in r[k].OutEdgeConfidence <==> x in r[k].OutEdges
      ensures x in r[k].OutEdgeConfidence ==> IsLabel(r[k].OutEdgeConfidence[x])
    {
      assert x in dedupe(nodes[k].OutEdges) <==> x in nodes[k].OutEdges;
      NormalizedByLabel(nodes[k], dedupe, x);
    }
  }

  lemma NormalizedByOutMirrored<K(!new)>(nodes: NodeMap<K>, dedupe: seq<K> -> seq<K>)
    requires KeepsMembers(dedupe) && OutMirrored(nodes)
    ensures OutMirrored(NormalizedNodesBy(nodes, dedupe))
  {
    var r := NormalizedNodesBy(nodes, dedupe);
    forall k, t | k in r && t in r[k].OutEdges
      ensures t in r && k in r[t].InEdges
    {
      assert t in dedupe(nodes[k].OutEdges) <==> t in nodes[k].OutEdges;
      assert k in dedupe(nodes[t].InEdges) <==> k in nodes[t].InEdges;
    }
  }

  lemma NormalizedByInMirrored<K(!new)>(nodes: NodeMap<K>, dedupe: seq<K> -> seq<K>)
    requires KeepsMembers(dedupe) && InMirrored(nodes)
    ensures InMirrored(NormalizedNodesBy(nodes, dedupe))
  {
    var r := NormalizedNodesBy(nodes, dedupe);
    forall k, s | k in r && s in r[k].InEdges
      ensures s in r && k in r[s].OutEdges
    {
      assert s in dedupe(nodes[k].InEdges) <==> s in nodes[k].InEdges;
      assert k in dedupe(nodes[s].OutEdges) <==> k in nodes[s].OutEdges;
    }
  }

  /** Normalisation keeps a linked graph linked. */
  lemma NormalizedNodesLinked(nodes: Nodes)
    requires Linked(nodes)
    ensures Linked(NormalizedNodes(nodes))
  {
    DedupedSortedKeepsMembers();
    NormalizedByLabelled(nodes, DedupedSorted);
    NormalizedByOutMirrored(nodes, DedupedSorted);
    NormalizedByInMirrored(nodes, DedupedSorted);
  }

  /** A duplicate-free ascending list is its own normal form. */
  lemma DedupedSortedAscending(l: seq<string>)
    requires StrictlyAscending(l)
    ensures DedupedSorted(l) == l
  {
    DedupedSortedSpec(l);
    AscendingUnique(DedupedSorted(l), l);
  }

  lemma NormalizedNodeByIdempotent<K>(n: Node<K>, dedupe: seq<K> -> seq<K>)
    requires dedupe(dedupe(n.OutEdges)) == dedupe(n.OutEdges)
    requires dedupe(dedupe(n.InEdges)) == dedupe(n.InEdges)
    ensures NormalizedNodeBy(NormalizedNodeBy(n, dedupe), dedupe) == NormalizedNodeBy(n, dedupe)
  {
    var m := NormalizedNodeBy(n, dedupe);
    assert NormalizedNodeBy(m, dedupe).OutEdgeConfidence == m.OutEdgeConfidence;
  }

  lemma NormalizedNodeIdempotent(n: Node<string>)
    ensures NormalizedNode(NormalizedNode(n)) == NormalizedNode(n)
  {
    NormalizedNodeSpec(n);
    DedupedSortedAscending(DedupedSorted(n.OutEdges));
    DedupedSortedAscending(DedupedSorted(n.InEdges));
    NormalizedNodeByIdempotent(n, DedupedSorted);
  }

  /** Normalising a normalised graph changes nothing. */
  lemma NormalizedNodesIdempotent(nodes: Nodes)
    ensures NormalizedNodes(NormalizedNodes(nodes)) == NormalizedNodes(nodes)
  {
    var r := NormalizedNodes(nodes);
    forall k | k in r
      ensures NormalizedNode(r[k]) == r[k]
    {
      NormalizedNodeIdempotent(nodes[k]);
    }
  }

  // ---------------------------------------------------------------------
  // The whole build

  /** The nodes of buildFromParseResult: first pass, edges of the selected files, normalisation. */
  function BuildNodes(files: seq<FileSymbols>, resolve: Resolver, ids: NodeIds, sources: Option<set<string>>): Nodes {
    NormalizedNodes(FileEdges(NodesOfFiles(map[], files, ids), resolve, ids, sources, files))
  }

  lemma FirstPassLinked(files: seq<FileSymbols>, ids: NodeIds)
    ensures Linked(NodesOfFiles(map[], files, ids))
  {
    var nodes := NodesOfFiles(map[], files, ids);
    forall k | k in nodes
      ensures nodes[k] == NewNode(k, nodes[k].Symbol, nodes[k].File)
    {
      NodesOfFilesFresh(files, ids, k);
    }
  }

  lemma FirstPassCovers(files: seq<FileSymbols>, ids: NodeIds)
    ensures Covers(NodesOfFiles(map[], files, ids), files, ids)
  {
    forall k | NodeOf(files, ids, k)
      ensures k in NodesOfFiles(map[], files, ids)
    {
      NodesOfFilesKeys(files, ids, k);
    }
  }

  /**
   * The built graph has a node for every node ID of the parse result and no
   * other, is linked (no self edges; labels exactly on the out-edges; every
   * edge recorded at both ends), and lists its edges sorted without repeats.
   */
  lemma BuildNodesLinked(files: seq<FileSymbols>, resolve: Resolver, ids: NodeIds, sources: Option<set<string>>)
    requires SoundResolver(resolve, files, ids)
    ensures forall k :: k in BuildNodes(files, resolve, ids, sources) <==> NodeOf(files, ids, k)
    ensures Linked(BuildNodes(files, resolve, ids, sources))
    ensures EdgesSorted(BuildNodes(files, resolve, ids, sources))
  {
    var first := NodesOfFiles(map[], files, ids);
    FirstPassLinked(files, ids);
    FirstPassCovers(files, ids);
    FileEdgesLinked(first, resolve, ids, sources, files, files);
    var edged := FileEdges(first, resolve, ids, sources, files);
    NormalizedNodesLinked(edged);
    NormalizedNodesSorted(edged);
    forall k
      ensures k in BuildNodes(files, resolve, ids, sources) <==> NodeOf(files, ids, k)
    {
      NodesOfFilesKeys(files, ids, k);
    }
  }

  /** With a source set, only nodes of symbols of listed files have out-edges. */
  lemma BuildNodesSources(files: seq<FileSymbols>, resolve: Resolver, ids: NodeIds, sources: Option<set<string>>, k: string)
    requires k in BuildNodes(files, resolve, ids, sources) && BuildNodes(files, resolve, ids, sources)[k].OutEdges != []
    ensures exists i :: 0 <= i < |files| && Selected(sources, files[i].Path) && NodeInFile(files[i], ids, k)
  {
    var first := NodesOfFiles(map[], files, ids);
    var edged := FileEdges(first, resolve, ids, sources, files);
    NodesOfFilesFresh(files, ids, k);
    NormalizedNodeSpec(edged[k]);
    FileEdgesOthers(first, resolve, ids, sources, files, k);
  }
}
