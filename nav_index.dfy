/**
 * The navigation index of internal/nav/index.go and internal/nav/types.go:
 * the index written from the graph, the lookup tables built when it is
 * loaded, and symbol resolution against them.
 *
 * The lookup's ByID map holds pointers into the decoded index in the
 * source; nothing changes a node after loading, so here it holds the
 * nodes themselves. Encoding and decoding JSON and reading or writing the
 * index file are left out: the index is built as a value and loading
 * starts from the outcome of reading and decoding it.
 */
module NavIndex {
  import opened Wrappers
  import opened Seqs
  import opened Sorting
  import opened Strs
  import opened ParserTypes
  import opened GraphEdges
  import St = State
  import Graph

  datatype EdgeConfidence = EdgeConfidence(TargetID: string, Confidence: string)

  datatype IndexNode = IndexNode(
    ID: string,
    Name: string,
    Kind: string,
    Signature: string,
    File: string,
    Line: int,
    OutEdges: seq<string>,
    InEdges: seq<string>,
    OutConfidence: seq<EdgeConfidence>)

  datatype Index = Index(Version: string, Nodes: seq<IndexNode>)

  datatype Lookup = Lookup(ByID: map<string, IndexNode>, ByName: map<string, seq<string>>)

  datatype SymbolRecord = SymbolRecord(ID: string, Name: string, Kind: string, Signature: string, File: string, Line: int)

  /** A caller or callee with the label of the edge; Source is set only by the references command. */
  datatype EdgeRecord = EdgeRecord(Symbol: SymbolRecord, Confidence: string, Source: string)

  const IndexVersion := "nav-index-v1"

  function NodeID(n: IndexNode): string {
    n.ID
  }

  // ---------------------------------------------------------------------
  // Writing the index

  /** The confidence entry of each out-edge, in out-edge order; a missing label reads "". */
  function Confidences(n: Node<string>): (r: seq<EdgeConfidence>)
    ensures |r| == |n.OutEdges|
  {
    seq(|n.OutEdges|, i requires 0 <= i < |n.OutEdges| => EdgeConfidence(n.OutEdges[i], ConfidenceOf(n, n.OutEdges[i])))
  }

  function TargetKey(e: EdgeConfidence): seq<KeyPart> {
    [StrKey(e.TargetID)]
  }

  /** The index entry of a graph node: its symbol's fields, its edges, and its labels sorted by target. */
  function IndexNodeOf(n: Node<string>): IndexNode {
    IndexNode(n.ID, n.Symbol.Name, KindString(n.Symbol.Kind), n.Symbol.Signature, n.File, n.Symbol.Line,
              n.OutEdges, n.InEdges, SortByKey(Confidences(n), TargetKey))
  }

  /** Each entry pairs an out-edge with its recorded label, and every out-edge has one. */
  lemma ConfidencesSpec(n: Node<string>)
    ensures forall e :: e in Confidences(n) ==> e.TargetID in n.OutEdges && e.Confidence == ConfidenceOf(n, e.TargetID)
    ensures forall t :: t in n.OutEdges ==> exists e :: e in Confidences(n) && e.TargetID == t
  {
    var conf := Confidences(n);
    forall t | t in n.OutEdges
      ensures exists e :: e in conf && e.TargetID == t
    {
      var i :| 0 <= i < |n.OutEdges| && n.OutEdges[i] == t;
      assert conf[i].TargetID == t;
    }
  }

  /** Sorting entries by target orders them by target and keeps them. */
  lemma SortedByTarget(s: seq<EdgeConfidence>)
    ensures var c := SortByKey(s, TargetKey);
      && (forall i, j :: 0 <= i < j < |c| ==> LessEq(c[i].TargetID, c[j].TargetID))
      && multiset(c) == multiset(s)
  {
    var c := SortByKey(s, TargetKey);
    SortByKeySorted(s, TargetKey);
    forall i, j | 0 <= i < j < |c|
      ensures LessEq(c[i].TargetID, c[j].TargetID)
    {
      assert KeyLe(TargetKey(c[i]), TargetKey(c[j]));
    }
  }

  /**
   * An entry's labels are sorted by target, there is one per out-edge, and
   * each carries the label the graph recorded for its target.
   */
  lemma IndexNodeConfidence(n: Node<string>)
    ensures var c := IndexNodeOf(n).OutConfidence;
      && (forall i, j :: 0 <= i < j < |c| ==> LessEq(c[i].TargetID, c[j].TargetID))
      && multiset(c) == multiset(Confidences(n))
      && (forall e :: e in c ==> e.TargetID in n.OutEdges && e.Confidence == ConfidenceOf(n, e.TargetID))
      && (forall t :: t in n.OutEdges ==> exists e :: e in c && e.TargetID == t)
  {
    SortedByTarget(Confidences(n));
    ConfidencesSpec(n);
    MultisetMembers(IndexNodeOf(n).OutConfidence, Confidences(n));
  }

  /** The loop of WriteIndex that pairs each out-edge with its label. */
  method ConfidenceList(n: Node<string>) returns (out: seq<EdgeConfidence>)
    ensures out == Confidences(n)
  {
    out := [];
    for i := 0 to |n.OutEdges|
      invariant out == Confidences(n)[..i]
    {
      out := out + [EdgeConfidence(n.OutEdges[i], ConfidenceOf(n, n.OutEdges[i]))];
    }
  }

  /** The index entry WriteIndex builds for one graph node. */
  method IndexEntry(node: Node<string>) returns (e: IndexNode)
    ensures e == IndexNodeOf(node)
  {
    var outConf := ConfidenceList(node);
    outConf := SortByKey(outConf, TargetKey);
    e := IndexNode(node.ID, node.Symbol.Name, KindString(node.Symbol.Kind), node.Symbol.Signature,
                   node.File, node.Symbol.Line, node.OutEdges, node.InEdges, outConf);
  }

  /**
   * Values computed from a map's entries taken over every key in order hold
   * the value of each entry and nothing else.
   */
  lemma EntriesCover<V, T>(m: map<string, V>, ids: seq<string>, entries: seq<T>, f: V -> T)
    requires forall x :: x in ids <==> x in m
    requires |entries| == |ids|
    requires forall j :: 0 <= j < |ids| ==> entries[j] == f(m[ids[j]])
    ensures forall x :: x in m ==> f(m[x]) in entries
    ensures forall e :: e in entries ==> exists x :: x in m && e == f(m[x])
  {
    forall x | x in m
      ensures f(m[x]) in entries
    {
      var j :| 0 <= j < |ids| && ids[j] == x;
      assert entries[j] == f(m[x]);
    }
    forall e | e in entries
      ensures exists x :: x in m && e == f(m[x])
    {
      var j :| 0 <= j < |entries| && entries[j] == e;
      assert ids[j] in m;
    }
  }

  /** Entries taken in ascending ID order are keyed ascending when every node sits under its own ID. */
  lemma EntriesAscending(nodes: Nodes, ids: seq<string>, entries: seq<IndexNode>)
    requires StrictlyAscending(ids) && forall x :: x in ids ==> x in nodes
    requires |entries| == |ids|
    requires forall j :: 0 <= j < |ids| ==> entries[j].ID == nodes[ids[j]].ID
    requires forall x :: x in nodes ==> nodes[x].ID == x
    ensures StrictlyAscending(Keys(entries, NodeID))
  {
    var keys := Keys(entries, NodeID);
    forall j | 0 <= j < |ids|
      ensures keys[j] == ids[j]
    {
      assert ids[j] in ids;
      assert keys[j] == entries[j].ID == nodes[ids[j]].ID;
    }
    assert keys == ids;
  }

  /** The loop of WriteIndex: the entry of each node, in the order of ids. */
  method IndexEntries(nodes: Nodes, ids: seq<string>) returns (entries: seq<IndexNode>)
    requires forall x :: x in ids ==> x in nodes
    ensures |entries| == |ids|
    ensures forall j :: 0 <= j < |ids| ==> entries[j] == IndexNodeOf(nodes[ids[j]])
  {
    entries := [];
    for k := 0 to |ids|
      invariant |entries| == k
      invariant forall j :: 0 <= j < k ==> entries[j] == IndexNodeOf(nodes[ids[j]])
    {
      var entry := IndexEntry(nodes[ids[k]]);
      entries := entries + [entry];
    }
  }

  /**
   * WriteIndex, up to the encoding and the write: one entry per graph node
   * in ascending ID order, at the current index version.
   */
  method BuildIndex(g: Graph.Graph) returns (index: Index)
    ensures index.Version == IndexVersion
    ensures forall x :: x in g.nodes ==> IndexNodeOf(g.nodes[x]) in index.Nodes
    ensures forall e :: e in index.Nodes ==> exists x :: x in g.nodes && e == IndexNodeOf(g.nodes[x])
    ensures (forall x :: x in g.nodes ==> g.nodes[x].ID == x) ==> StrictlyAscending(Keys(index.Nodes, NodeID))
  {
    var graphNodes := g.nodes;
    var ids := St.SortedMembers(graphNodes.Keys);
    var nodes := IndexEntries(graphNodes, ids);
    EntriesCover(graphNodes, ids, nodes, IndexNodeOf);
    if forall x :: x in graphNodes ==> graphNodes[x].ID == x {
      EntriesAscending(graphNodes, ids, nodes);
    }
    index := Index(IndexVersion, nodes);
  }

  // ---------------------------------------------------------------------
  // Loading the lookup

  /** Each ID's node: a later node with the same ID replaces an earlier one. */
  function LastByID(nodes: seq<IndexNode>): map<string, IndexNode> {
    if nodes == [] then map[]
    else LastByID(nodes[..|nodes| - 1])[nodes[|nodes| - 1].ID := nodes[|nodes| - 1]]
  }

  /** The names of the nodes. */
  function Names(nodes: seq<IndexNode>): set<string> {
    if nodes == [] then {} else Names(nodes[..|nodes| - 1]) + {nodes[|nodes| - 1].Name}
  }

  /** The IDs of the nodes with a given name, in index order. */
  function IDsNamed(nodes: seq<IndexNode>, name: string): seq<string> {
    if nodes == [] then []
    else
      var last := nodes[|nodes| - 1];
      IDsNamed(nodes[..|nodes| - 1], name) + (if last.Name == name then [last.ID] else [])
  }

  /** An ID is in LastByID exactly when some node has it. */
  lemma {:induction false} LastByIDKeys(nodes: seq<IndexNode>)
    ensures forall id :: id in LastByID(nodes) <==> exists i :: 0 <= i < |nodes| && nodes[i].ID == id
  {
    if nodes != [] {
      var init := nodes[..|nodes| - 1];
      LastByIDKeys(init);
      var m := LastByID(nodes);
      assert m == LastByID(init)[nodes[|nodes| - 1].ID := nodes[|nodes| - 1]];
      forall id | id in m
        ensures exists i :: 0 <= i < |nodes| && nodes[i].ID == id
      {
        if id != nodes[|nodes| - 1].ID {
          assert id in LastByID(init);
          var i :| 0 <= i < |init| && init[i].ID == id;
          assert nodes[i] == init[i];
        }
      }
      forall i | 0 <= i < |nodes|
        ensures nodes[i].ID in m
      {
        if i < |init| {
          assert nodes[i] == init[i];
          assert init[i].ID in LastByID(init);
        }
      }
    }
  }

  /** Each ID in LastByID maps to the last node that has it. */
  lemma {:induction false} LastByIDLast(nodes: seq<IndexNode>)
    ensures forall id :: id in LastByID(nodes) ==> exists i :: (0 <= i < |nodes| && nodes[i] == LastByID(nodes)[id] &&
      nodes[i].ID == id && forall j :: i < j < |nodes| ==> nodes[j].ID != id)
  {
    if nodes != [] {
      var init := nodes[..|nodes| - 1];
      var last := nodes[|nodes| - 1];
      LastByIDLast(init);
      var m := LastByID(nodes);
      assert m == LastByID(init)[last.ID := last];
      forall id | id in m
        ensures exists i :: (0 <= i < |nodes| && nodes[i] == m[id] &&
          nodes[i].ID == id && forall j :: i < j < |nodes| ==> nodes[j].ID != id)
      {
        if id == last.ID {
          assert nodes[|nodes| - 1] == m[id];
        } else {
          assert id in LastByID(init) && m[id] == LastByID(init)[id];
          var i :| 0 <= i < |init| && init[i] == LastByID(init)[id] && init[i].ID == id &&
            forall j :: i < j < |init| ==> init[j].ID != id;
          assert nodes[i] == init[i];
        }
      }
    }
  }

  /**
   * An ID is in LastByID exactly when some node has it, and it maps to the
   * last such node.
   */
  lemma LastByIDSpec(nodes: seq<IndexNode>)
    ensures forall id :: id in LastByID(nodes) <==> exists i :: 0 <= i < |nodes| && nodes[i].ID == id
    ensures forall id :: id in LastByID(nodes) ==> exists i :: (0 <= i < |nodes| && nodes[i] == LastByID(nodes)[id] &&
      nodes[i].ID == id && forall j :: i < j < |nodes| ==> nodes[j].ID != id)
  {
    LastByIDKeys(nodes);
    LastByIDLast(nodes);
  }

  /** Every listed ID of a name is the ID of a node with that name. */
  lemma {:induction false} IDsNamedSpec(nodes: seq<IndexNode>, name: string)
    ensures forall id :: id in IDsNamed(nodes, name) <==> exists i :: 0 <= i < |nodes| && nodes[i].Name == name && nodes[i].ID == id
    ensures name !in Names(nodes) ==> IDsNamed(nodes, name) == []
  {
    if nodes != [] {
      var init := nodes[..|nodes| - 1];
      IDsNamedSpec(init, name);
      forall id | id in IDsNamed(nodes, name)
        ensures exists i :: 0 <= i < |nodes| && nodes[i].Name == name && nodes[i].ID == id
      {
        if id in IDsNamed(init, name) {
          var i :| 0 <= i < |init| && init[i].Name == name && init[i].ID == id;
          assert nodes[i] == init[i];
        } else {
          assert nodes[|nodes| - 1].ID == id;
        }
      }
      forall i | 0 <= i < |nodes| && nodes[i].Name == name
        ensures nodes[i].ID in IDsNamed(nodes, name)
      {
        if i < |init| {
          assert nodes[i] == init[i];
        }
      }
    }
  }

  /** The tables after the first i nodes. */
  ghost predicate LoadedUpTo(nodes: seq<IndexNode>, i: int, byID: map<string, IndexNode>, byName: map<string, seq<string>>)
    requires 0 <= i <= |nodes|
  {
    && byID == LastByID(nodes[..i])
    && byName.Keys == Names(nodes[..i])
    && forall name :: name in byName ==> byName[name] == IDsNamed(nodes[..i], name)
  }

  lemma LoadStep(nodes: seq<IndexNode>, i: int, byID: map<string, IndexNode>, byName: map<string, seq<string>>)
    requires 0 <= i < |nodes| && LoadedUpTo(nodes, i, byID, byName)
    ensures var n := nodes[i];
      var prior := if n.Name in byName then byName[n.Name] else [];
      LoadedUpTo(nodes, i + 1, byID[n.ID := n], byName[n.Name := prior + [n.ID]])
  {
    var p := nodes[..i + 1];
    assert p[..i] == nodes[..i];
    IDsNamedSpec(nodes[..i], nodes[i].Name);
  }

  /** The outcome of reading and decoding the index file. */
  datatype IndexRead = Decoded(index: Index) | Absent | ReadFailed(msg: string) | Malformed(msg: string)

  datatype LoadError = IndexMissing | ReadError(msg: string) | BadIndex(msg: string)

  /** Every listed ID has a node, and every node sits under its own ID. */
  ghost predicate Closed(l: Lookup) {
    && (forall id :: id in l.ByID ==> l.ByID[id].ID == id)
    && (forall name, id :: name in l.ByName && id in l.ByName[name] ==> id in l.ByID)
  }

  /** The sorting loop of LoadLookup: each name's list of IDs sorted. */
  method SortNames(byName0: map<string, seq<string>>) returns (byName: map<string, seq<string>>)
    ensures byName.Keys == byName0.Keys
    ensures forall name :: name in byName ==> byName[name] == SortStrings(byName0[name])
  {
    byName := byName0;
    var rest := byName0.Keys;
    while rest != {}
      invariant rest <= byName0.Keys && byName.Keys == byName0.Keys
      invariant forall name :: name in byName && name !in rest ==> byName[name] == SortStrings(byName0[name])
      invariant forall name :: name in rest ==> byName[name] == byName0[name]
      decreases |rest|
    {
      var name :| name in rest;
      byName := byName[name := SortStrings(byName[name])];
      rest := rest - {name};
    }
  }

  /**
   * LoadLookup: a missing, unreadable or malformed index is an error;
   * otherwise ByID holds the last node of each ID and ByName the IDs of
   * each name's nodes, sorted.
   */
  method LoadLookup(read: IndexRead) returns (r: Result<Lookup, LoadError>)
    ensures read.Absent? ==> r == Failure(IndexMissing)
    ensures read.ReadFailed? ==> r == Failure(ReadError(read.msg))
    ensures read.Malformed? ==> r == Failure(BadIndex(read.msg))
    ensures read.Decoded? ==> r.Success? && r.value.ByID == LastByID(read.index.Nodes)
    ensures read.Decoded? ==> r.Success? && r.value.ByName.Keys == Names(read.index.Nodes)
    ensures read.Decoded? ==> r.Success? && forall name :: name in r.value.ByName ==>
      SortedBy(r.value.ByName[name], LessEq) && multiset(r.value.ByName[name]) == multiset(IDsNamed(read.index.Nodes, name))
  {
    match read {
      case Absent => return Failure(IndexMissing);
      case ReadFailed(msg) => return Failure(ReadError(msg));
      case Malformed(msg) => return Failure(BadIndex(msg));
      case Decoded(index) =>
        var nodes := index.Nodes;
        var byID: map<string, IndexNode> := map[];
        var byName: map<string, seq<string>> := map[];
        for i := 0 to |nodes|
          invariant LoadedUpTo(nodes, i, byID, byName)
        {
          LoadStep(nodes, i, byID, byName);
          var node := nodes[i];
          var prior := if node.Name in byName then byName[node.Name] else [];
          byID := byID[node.ID := node];
          byName := byName[node.Name := prior + [node.ID]];
        }
        assert nodes[..|nodes|] == nodes;
        var sorted := SortNames(byName);
        forall name | name in sorted
          ensures SortedBy(sorted[name], LessEq) && multiset(sorted[name]) == multiset(IDsNamed(nodes, name))
        {
          SortStringsSorted(byName[name]);
        }
        return Success(Lookup(byID, sorted));
    }
  }

  /** A loaded lookup is closed: each node sits under its own ID and each listed ID has a node. */
  lemma LoadedLookupClosed(nodes: seq<IndexNode>, l: Lookup)
    requires l.ByID == LastByID(nodes)
    requires forall name :: name in l.ByName ==> multiset(l.ByName[name]) == multiset(IDsNamed(nodes, name))
    ensures Closed(l)
  {
    LastByIDSpec(nodes);
    forall name, id | name in l.ByName && id in l.ByName[name]
      ensures id in l.ByID
    {
      assert id in multiset(l.ByName[name]);
      assert id in IDsNamed(nodes, name);
      IDsNamedSpec(nodes, name);
    }
  }

  // ---------------------------------------------------------------------
  // Resolution

  /** The nodes of the IDs that have one, in order. */
  function NodesOf(l: Lookup, ids: seq<string>): seq<IndexNode> {
    if ids == [] then []
    else
      var id := ids[|ids| - 1];
      NodesOf(l, ids[..|ids| - 1]) + (if id in l.ByID then [l.ByID[id]] else [])
  }

  /** The IDs listed under a name; none for an unknown name. */
  function NameIDs(l: Lookup, name: string): seq<string> {
    if name in l.ByName then l.ByName[name] else []
  }

  /** What Resolve answers for a query. */
  function Resolved(l: Lookup, query: string): seq<IndexNode> {
    var q := TrimSpace(query);
    if q == "" then []
    else if q in l.ByID then [l.ByID[q]]
    else NodesOf(l, NameIDs(l, q))
  }

  /** NodesOf keeps exactly the nodes of the IDs that have one, and drops nothing from a closed lookup. */
  lemma {:induction false} NodesOfSpec(l: Lookup, ids: seq<string>)
    ensures forall n :: n in NodesOf(l, ids) <==> exists id :: id in ids && id in l.ByID && l.ByID[id] == n
    ensures |NodesOf(l, ids)| <= |ids|
    ensures (forall id :: id in ids ==> id in l.ByID) ==> |NodesOf(l, ids)| == |ids|
  {
    if ids != [] {
      var init := ids[..|ids| - 1];
      NodesOfSpec(l, init);
      assert ids == init + [ids[|ids| - 1]];
    }
  }

  /**
   * Resolve: nothing for a blank query; the node of an exact ID first;
   * otherwise the nodes listed under the name, skipping IDs without a node.
   * On a closed lookup nothing is skipped.
   */
  lemma ResolvedSpec(l: Lookup, query: string)
    ensures TrimSpace(query) == "" ==> Resolved(l, query) == []
    ensures TrimSpace(query) in l.ByID && TrimSpace(query) != "" ==> Resolved(l, query) == [l.ByID[TrimSpace(query)]]
    ensures TrimSpace(query) != "" && TrimSpace(query) !in l.ByID ==> forall n :: n in Resolved(l, query) <==>
      exists id :: id in NameIDs(l, TrimSpace(query)) && id in l.ByID && l.ByID[id] == n
    ensures Closed(l) && TrimSpace(query) != "" && TrimSpace(query) !in l.ByID ==> |Resolved(l, query)| == |NameIDs(l, TrimSpace(query))|
  {
    var q := TrimSpace(query);
    NodesOfSpec(l, NameIDs(l, q));
  }

  /** Resolve: the loop over a name's IDs that keeps those with a node. */
  method Resolve(l: Lookup, query: string) returns (out: seq<IndexNode>)
    ensures out == Resolved(l, query)
  {
    var q := TrimSpace(query);
    if q == "" {
      return [];
    }
    if q in l.ByID {
      return [l.ByID[q]];
    }
    var ids := NameIDs(l, q);
    out := [];
    for i := 0 to |ids|
      invariant out == NodesOf(l, ids[..i])
    {
      assert ids[..i + 1][..i] == ids[..i];
      if ids[i] in l.ByID {
        out := out + [l.ByID[ids[i]]];
      }
    }
    assert ids[..|ids|] == ids;
  }

  datatype ResolveError = NotFound(query: string) | Ambiguous(query: string, options: seq<string>)

  /**
   * ResolveSingleSymbol: not found for no match, the node for one, and for
   * several an ambiguity listing their IDs sorted.
   */
  method ResolveSingleSymbol(l: Lookup, query: string) returns (r: Result<IndexNode, ResolveError>)
    ensures |Resolved(l, query)| == 0 <==> r == Failure(NotFound(query))
    ensures r.Success? <==> |Resolved(l, query)| == 1
    ensures r.Success? ==> r.value == Resolved(l, query)[0]
    ensures |Resolved(l, query)| > 1 <==> r.Failure? && r.error.Ambiguous?
    ensures r.Failure? && r.error.Ambiguous? ==> (r.error.query == query &&
      SortedBy(r.error.options, LessEq) && multiset(r.error.options) == multiset(Keys(Resolved(l, query), NodeID)))
  {
    var matches := Resolve(l, query);
    if |matches| == 0 {
      return Failure(NotFound(query));
    }
    if |matches| == 1 {
      return Success(matches[0]);
    }
    var options: seq<string> := [];
    for i := 0 to |matches|
      invariant options == Keys(matches[..i], NodeID)
    {
      assert matches[..i + 1] == matches[..i] + [matches[i]];
      KeysSnoc(matches[..i], matches[i], NodeID);
      options := options + [matches[i].ID];
    }
    assert matches[..|matches|] == matches;
    SortStringsSorted(options);
    return Failure(Ambiguous(query, SortStrings(options)));
  }

  /** SymbolRecordFromNode: the zero record for no node, else the node's six symbol fields. */
  function SymbolRecordFromNode(node: Option<IndexNode>): (r: SymbolRecord)
    ensures node.None? ==> r == SymbolRecord("", "", "", "", "", 0)
    ensures node.Some? ==> (r.ID == node.value.ID && r.Name == node.value.Name && r.Kind == node.value.Kind &&
      r.Signature == node.value.Signature && r.File == node.value.File && r.Line == node.value.Line)
  {
    match node
    case None => SymbolRecord("", "", "", "", "", 0)
    case Some(n) => SymbolRecord(n.ID, n.Name, n.Kind, n.Signature, n.File, n.Line)
  }

  function RecordOf(n: IndexNode): SymbolRecord {
    SymbolRecordFromNode(Some(n))
  }

  /** A record together with the node's edges gives the node back. */
  lemma RecordKeepsSymbol(n: IndexNode)
    ensures var r := RecordOf(n);
      IndexNode(r.ID, r.Name, r.Kind, r.Signature, r.File, r.Line, n.OutEdges, n.InEdges, n.OutConfidence) == n
  {
  }

  /** The label of the first entry for the target, or "". */
  function FirstConfidence(items: seq<EdgeConfidence>, target: string): string {
    if items == [] then ""
    else if items[0].TargetID == target then items[0].Confidence
    else FirstConfidence(items[1..], target)
  }

  /** The label EdgeConfidenceValue reads. */
  function EdgeConfidenceIn(l: Lookup, fromID: string, toID: string): string {
    if fromID in l.ByID then FirstConfidence(l.ByID[fromID].OutConfidence, toID) else ""
  }

  /** Without an entry for the target the label is "". */
  lemma {:induction false} FirstConfidenceNone(items: seq<EdgeConfidence>, target: string)
    requires forall i :: 0 <= i < |items| ==> items[i].TargetID != target
    ensures FirstConfidence(items, target) == ""
  {
    if items != [] {
      FirstConfidenceNone(items[1..], target);
    }
  }

  /** The first entry for the target gives the label. */
  lemma {:induction false} FirstConfidenceAt(items: seq<EdgeConfidence>, target: string, i: nat)
    requires i < |items| && items[i].TargetID == target
    requires forall j :: 0 <= j < i ==> items[j].TargetID != target
    ensures FirstConfidence(items, target) == items[i].Confidence
  {
    if i > 0 {
      FirstConfidenceAt(items[1..], target, i - 1);
    }
  }

  /** The first entry for the target gives the label; without one the label is "". */
  lemma FirstConfidenceSpec(items: seq<EdgeConfidence>, target: string)
    ensures (forall i :: 0 <= i < |items| ==> items[i].TargetID != target) ==> FirstConfidence(items, target) == ""
    ensures forall i :: (0 <= i < |items| && items[i].TargetID == target &&
      (forall j :: 0 <= j < i ==> items[j].TargetID != target)) ==> FirstConfidence(items, target) == items[i].Confidence
  {
    if forall i :: 0 <= i < |items| ==> items[i].TargetID != target {
      FirstConfidenceNone(items, target);
    }
    forall i | (0 <= i < |items| && items[i].TargetID == target &&
      (forall j :: 0 <= j < i ==> items[j].TargetID != target))
      ensures FirstConfidence(items, target) == items[i].Confidence
    {
      FirstConfidenceAt(items, target, i);
    }
  }

  /** EdgeConfidenceValue: "" for an unknown source; else the label of its first entry for the target. */
  method EdgeConfidenceValue(l: Lookup, fromID: string, toID: string) returns (r: string)
    ensures r == EdgeConfidenceIn(l, fromID, toID)
  {
    if fromID !in l.ByID {
      return "";
    }
    var items := l.ByID[fromID].OutConfidence;
    for i := 0 to |items|
      invariant FirstConfidence(items[i..], toID) == FirstConfidence(items, toID)
    {
      assert items[i..][1..] == items[i + 1..];
      if items[i].TargetID == toID {
        return items[i].Confidence;
      }
    }
    return "";
  }
}
