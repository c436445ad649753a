// Graph queries over the navigation lookup: the callers and callees of a
// node, and the shortest call path between two nodes.

module NavGraphOps {
  import opened Seqs
  import opened Sorting
  import opened Strs
  import opened NavIndex

  // ---------------------------------------------------------------------
  // Callers and callees

  /** Which edge list of a node is walked. */
  datatype Direction = Callers | Callees

  /**
   * The record of a neighbour: its symbol, and the label of the edge from
   * the caller to the node (Callers) or from the node to the callee (Callees).
   */
  function NeighbourRecord(l: Lookup, node: IndexNode, dir: Direction, other: IndexNode): EdgeRecord {
    match dir
    case Callers => EdgeRecord(RecordOf(other), EdgeConfidenceIn(l, other.ID, node.ID), "")
    case Callees => EdgeRecord(RecordOf(other), EdgeConfidenceIn(l, node.ID, other.ID), "")
  }

  /** The records of the listed IDs that have a node, in list order. */
  function Neighbours(l: Lookup, node: IndexNode, dir: Direction, ids: seq<string>): seq<EdgeRecord> {
    if ids == [] then []
    else
      var last := ids[|ids| - 1];
      Neighbours(l, node, dir, ids[..|ids| - 1]) + (if last in l.ByID then [NeighbourRecord(l, node, dir, l.ByID[last])] else [])
  }

  /** A record is listed exactly when it is the record of a listed ID that has a node. */
  lemma {:induction false} NeighboursSpec(l: Lookup, node: IndexNode, dir: Direction, ids: seq<string>)
    ensures forall e :: e in Neighbours(l, node, dir, ids) <==>
      exists id :: id in ids && id in l.ByID && e == NeighbourRecord(l, node, dir, l.ByID[id])
    ensures |Neighbours(l, node, dir, ids)| <= |ids|
  {
    if ids != [] {
      var init := ids[..|ids| - 1];
      NeighboursSpec(l, node, dir, init);
      forall e | e in Neighbours(l, node, dir, ids)
        ensures exists id :: id in ids && id in l.ByID && e == NeighbourRecord(l, node, dir, l.ByID[id])
      {
        if e in Neighbours(l, node, dir, init) {
          var id :| id in init && id in l.ByID && e == NeighbourRecord(l, node, dir, l.ByID[id]);
          assert id in ids;
        }
      }
      forall id | id in ids && id in l.ByID
        ensures NeighbourRecord(l, node, dir, l.ByID[id]) in Neighbours(l, node, dir, ids)
      {
        if id != ids[|ids| - 1] {
          var i :| 0 <= i < |ids| && ids[i] == id;
          assert init[i] == id;
        }
      }
    }
  }

  /** The edge list a direction walks. */
  function EdgeList(node: IndexNode, dir: Direction): seq<string> {
    match dir
    case Callers => node.InEdges
    case Callees => node.OutEdges
  }

  function SymbolKey(e: EdgeRecord): seq<KeyPart> {
    [StrKey(e.Symbol.ID)]
  }

  /** The collecting loop shared by CollectCallers and CollectCallees. */
  method NeighbourList(l: Lookup, node: IndexNode, dir: Direction) returns (out: seq<EdgeRecord>)
    ensures out == Neighbours(l, node, dir, EdgeList(node, dir))
  {
    var ids := EdgeList(node, dir);
    out := [];
    for i := 0 to |ids|
      invariant out == Neighbours(l, node, dir, ids[..i])
    {
      assert ids[..i + 1][..i] == ids[..i];
      var other := ids[i];
      if other in l.ByID {
        out := out + [NeighbourRecord(l, node, dir, l.ByID[other])];
      }
    }
    assert ids[..|ids|] == ids;
  }

  /**
   * The neighbours of a node in one direction: the records of the listed
   * IDs that have a node, sorted by symbol ID.
   */
  method Collect(l: Lookup, node: IndexNode, dir: Direction) returns (out: seq<EdgeRecord>)
    ensures forall i, j :: 0 <= i < j < |out| ==> LessEq(out[i].Symbol.ID, out[j].Symbol.ID)
    ensures multiset(out) == multiset(Neighbours(l, node, dir, EdgeList(node, dir)))
    ensures forall e :: e in out <==>
      exists id :: id in EdgeList(node, dir) && id in l.ByID && e == NeighbourRecord(l, node, dir, l.ByID[id])
    ensures |out| <= |EdgeList(node, dir)|
  {
    var found := NeighbourList(l, node, dir);
    out := SortByKey(found, SymbolKey);
    SortByKeySorted(found, SymbolKey);
    forall i, j | 0 <= i < j < |out|
      ensures LessEq(out[i].Symbol.ID, out[j].Symbol.ID)
    {
      assert KeyLe(SymbolKey(out[i]), SymbolKey(out[j]));
    }
    NeighboursSpec(l, node, dir, EdgeList(node, dir));
    MultisetMembers(out, found);
    assert |out| == |multiset(out)| == |multiset(found)| == |found|;
  }

  /**
   * CollectCallers: the callers that have a node, sorted by ID, each with
   * the label of its edge to the node.
   */
  method CollectCallers(l: Lookup, node: IndexNode) returns (out: seq<EdgeRecord>)
    ensures forall i, j :: 0 <= i < j < |out| ==> LessEq(out[i].Symbol.ID, out[j].Symbol.ID)
    ensures multiset(out) == multiset(Neighbours(l, node, Callers, node.InEdges))
    ensures forall e :: e in out <==> exists id :: (id in node.InEdges && id in l.ByID &&
      e == EdgeRecord(RecordOf(l.ByID[id]), EdgeConfidenceIn(l, l.ByID[id].ID, node.ID), ""))
  {
    out := Collect(l, node, Callers);
  }

  /**
   * CollectCallees: the callees that have a node, sorted by ID, each with
   * the label of the node's edge to it.
   */
  method CollectCallees(l: Lookup, node: IndexNode) returns (out: seq<EdgeRecord>)
    ensures forall i, j :: 0 <= i < j < |out| ==> LessEq(out[i].Symbol.ID, out[j].Symbol.ID)
    ensures multiset(out) == multiset(Neighbours(l, node, Callees, node.OutEdges))
    ensures forall e :: e in out <==> exists id :: (id in node.OutEdges && id in l.ByID &&
      e == EdgeRecord(RecordOf(l.ByID[id]), EdgeConfidenceIn(l, node.ID, l.ByID[id].ID), ""))
  {
    out := Collect(l, node, Callees);
  }

  // ---------------------------------------------------------------------
  // Paths

  /** The out-edges of an ID; an ID without a node has none. */
  function Succ(l: Lookup, a: string): seq<string> {
    if a in l.ByID then l.ByID[a].OutEdges else []
  }

  predicate Edge(l: Lookup, a: string, b: string) {
    b in Succ(l, a)
  }

  /** p is a walk along out-edges from a to b. */
  predicate PathFromTo(l: Lookup, p: seq<string>, a: string, b: string) {
    && |p| > 0 && p[0] == a && p[|p| - 1] == b
    && forall i :: 0 < i < |p| ==> Edge(l, p[i - 1], p[i])
  }

  // ---------------------------------------------------------------------
  // ReconstructPath

  /** The parent walk from x reaches `from` or an ID without a parent within n steps. */
  ghost predicate WalkStops(parent: map<string, string>, from: string, x: string, n: nat)
    decreases n
  {
    x == from || x !in parent || (n > 0 && WalkStops(parent, from, parent[x], n - 1))
  }

  /** c follows parent links: each element but the last is not `from` and has the next as its parent. */
  ghost predicate ParentChain(parent: map<string, string>, from: string, c: seq<string>) {
    forall i :: 0 <= i < |c| - 1 ==> c[i] != from && c[i] in parent && parent[c[i]] == c[i + 1]
  }

  /** r runs from `from` to `to`, and read backwards it is the parent walk from `to`. */
  ghost predicate Reconstructed(parent: map<string, string>, from: string, to: string, r: seq<string>) {
    && |r| > 0 && r[0] == from && r[|r| - 1] == to
    && forall i :: 0 < i < |r| ==> r[i] != from && r[i] in parent && parent[r[i]] == r[i - 1]
  }

  /** The parent walk from `to` ends at an ID other than `from` that has no parent. */
  ghost predicate BrokenWalk(parent: map<string, string>, from: string, to: string) {
    exists c :: |c| > 0 && c[0] == to && ParentChain(parent, from, c) && c[|c| - 1] != from && c[|c| - 1] !in parent
  }

  /** The swap loop that reverses the collected chain. */
  method Reverse(s: seq<string>) returns (r: seq<string>)
    ensures |r| == |s| && forall k :: 0 <= k < |s| ==> r[k] == s[|s| - 1 - k]
  {
    r := s;
    var i, j := 0, |s| - 1;
    while i < j
      invariant 0 <= i <= |s| && j == |s| - 1 - i && i <= j + 1
      invariant |r| == |s|
      invariant forall k :: (0 <= k < i || j < k < |s|) ==> r[k] == s[|s| - 1 - k]
      invariant forall k :: i <= k <= j ==> r[k] == s[k]
    {
      r := r[i := r[j]][j := r[i]];
      i, j := i + 1, j - 1;
    }
  }

  /**
   * ReconstructPath: walk the parent links back from `to`; nil when the
   * walk reaches an ID without a parent, else the walk reversed, which
   * runs from `from` to `to`. The walk must stop, as it does on the
   * parent map of a breadth-first search.
   */
  method ReconstructPath(parent: map<string, string>, from: string, to: string) returns (r: seq<string>)
    requires exists n: nat :: WalkStops(parent, from, to, n)
    ensures r != [] ==> Reconstructed(parent, from, to, r)
    ensures r == [] ==> BrokenWalk(parent, from, to)
  {
    ghost var fuel: nat :| WalkStops(parent, from, to, fuel);
    var out := [to];
    var current := to;
    while current != from
      invariant |out| > 0 && out[0] == to && out[|out| - 1] == current
      invariant ParentChain(parent, from, out)
      invariant WalkStops(parent, from, current, fuel)
      decreases fuel
    {
      if current !in parent {
        assert |out| > 0 && out[0] == to && ParentChain(parent, from, out);
        return [];
      }
      var prev := parent[current];
      out := out + [prev];
      current := prev;
      fuel := fuel - 1;
    }
    r := Reverse(out);
  }

  /** A walk that follows parent links and starts on the parent map's domain never leaves it. */
  lemma {:induction false} ChainStaysVisited(parent: map<string, string>, from: string, visited: set<string>, c: seq<string>, i: nat)
    requires parent.Keys == visited - {from} && forall v :: v in parent ==> parent[v] in visited
    requires |c| > 0 && c[0] in visited && ParentChain(parent, from, c) && i < |c|
    ensures c[i] in visited
  {
    if i > 0 {
      ChainStaysVisited(parent, from, visited, c, i - 1);
    }
  }

  // ---------------------------------------------------------------------
  // ShortestPath

  /** Every ID a search from `from` can reach: `from` and every out-edge target. */
  ghost function Reach(l: Lookup, from: string): set<string> {
    {from} + set a, b | a in l.ByID && b in l.ByID[a].OutEdges :: b
  }

  /** Every distance recorded is at most the length of any path to that ID. */
  ghost predicate Optimal(l: Lookup, from: string, dist: map<string, nat>) {
    forall v, p :: v in dist && PathFromTo(l, p, from, v) ==> dist[v] < |p|
  }

  /**
   * The search tree: every visited ID has a distance, and each but `from`
   * a parent one step closer with an out-edge to it.
   */
  ghost predicate Tree(l: Lookup, from: string, visited: set<string>, parent: map<string, string>, dist: map<string, nat>) {
    && visited == dist.Keys && from in visited && dist[from] == 0
    && parent.Keys == visited - {from}
    && (forall v :: v in parent ==> parent[v] in visited && dist[v] == dist[parent[v]] + 1 && Edge(l, parent[v], v))
  }

  /** The expanded IDs are visited and have all their successors visited. */
  ghost predicate ExpandedClosed(l: Lookup, done: set<string>, visited: set<string>) {
    && done <= visited
    && (forall x, y :: x in done && y in Succ(l, x) ==> y in visited)
  }

  /** The search state: the tree, the expanded IDs, and distances no path beats. */
  ghost predicate Explored(l: Lookup, from: string, visited: set<string>, parent: map<string, string>,
                           dist: map<string, nat>, done: set<string>)
  {
    Tree(l, from, visited, parent, dist) && ExpandedClosed(l, done, visited) && Optimal(l, from, dist)
  }

  /** The queue is ordered by distance, and its distances lie in [d, d + 1]. */
  ghost predicate Layered(queue: seq<string>, dist: map<string, nat>, d: nat) {
    && (forall i :: 0 <= i < |queue| ==> queue[i] in dist && d <= dist[queue[i]] <= d + 1)
    && (forall i, j :: 0 <= i < j < |queue| ==> dist[queue[i]] <= dist[queue[j]])
  }

  lemma {:induction false} SubsetCard(a: set<string>, b: set<string>)
    requires a <= b
    ensures |a| <= |b|
  {
    if a != {} {
      var x :| x in a;
      SubsetCard(a - {x}, b - {x});
    }
  }

  /** The first ID on a path that lies outside s, when the path starts inside it and ends outside. */
  lemma FirstOutside(p: seq<string>, s: set<string>) returns (j: nat)
    requires |p| > 0 && p[0] in s && p[|p| - 1] !in s
    ensures 0 < j < |p| && p[j] !in s && p[j - 1] in s
  {
    j := |p| - 1;
    while p[j - 1] !in s
      invariant 0 < j < |p| && p[j] !in s
      decreases j
    {
      j := j - 1;
    }
  }

  /**
   * An unvisited ID is at least two steps further from `from` than the ID
   * being expanded: a path to it leaves the visited set from an ID that is
   * queued or being expanded, whose distance is at least the current one.
   */
  lemma NewOptimal(l: Lookup, from: string, visited: set<string>, parent: map<string, string>, dist: map<string, nat>,
                   done: set<string>, queue: seq<string>, current: string, w: string, p: seq<string>)
    requires Explored(l, from, visited, parent, dist, done)
    requires current in visited && Layered(queue, dist, dist[current])
    requires forall v :: v in visited ==> v in done || v in queue || v == current
    requires w !in visited && PathFromTo(l, p, from, w)
    ensures dist[current] + 1 < |p|
  {
    var j := FirstOutside(p, visited);
    var u := p[j - 1];
    assert Edge(l, u, p[j]);
    assert u !in done;
    assert dist[current] <= dist[u];
    assert PathFromTo(l, p[..j], from, u);
  }

  /** Recording a distance that no path to the new ID beats keeps the distances optimal. */
  lemma OptimalExtend(l: Lookup, from: string, dist: map<string, nat>, w: string, d: nat)
    requires Optimal(l, from, dist) && w !in dist
    requires forall p :: PathFromTo(l, p, from, w) ==> d < |p|
    ensures Optimal(l, from, dist[w := d])
  {
  }

  /** Visiting an unvisited successor w of a visited ID, one step further than it, extends the tree. */
  lemma VisitTree(l: Lookup, from: string, visited: set<string>, parent: map<string, string>, dist: map<string, nat>,
                  current: string, w: string)
    requires Tree(l, from, visited, parent, dist)
    requires current in visited && w !in visited && Edge(l, current, w)
    ensures Tree(l, from, visited + {w}, parent[w := current], dist[w := dist[current] + 1])
  {
  }

  /**
   * Visiting an unvisited successor w of the ID being expanded, one step
   * further than it, keeps the search state, and w may join the queue.
   */
  lemma Visit(l: Lookup, from: string, visited: set<string>, parent: map<string, string>, dist: map<string, nat>,
              done: set<string>, queue: seq<string>, current: string, w: string)
    requires Explored(l, from, visited, parent, dist, done)
    requires current in visited && Layered(queue, dist, dist[current])
    requires forall v :: v in visited ==> v in done || v in queue || v == current
    requires w !in visited && Edge(l, current, w)
    ensures var dist' := dist[w := dist[current] + 1];
      && Explored(l, from, visited + {w}, parent[w := current], dist', done)
      && Layered(queue + [w], dist', dist[current])
      && dist'[current] == dist[current]
  {
    var d := dist[current];
    forall p | PathFromTo(l, p, from, w)
      ensures d + 1 < |p|
    {
      NewOptimal(l, from, visited, parent, dist, done, queue, current, w, p);
    }
    OptimalExtend(l, from, dist, w, d + 1);
    VisitTree(l, from, visited, parent, dist, current, w);
  }

  /** Queuing a newly visited ID keeps every visited ID expanded, queued or current. */
  lemma CoveredSnoc(visited: set<string>, done: set<string>, queue: seq<string>, current: string, w: string)
    requires forall v :: v in visited ==> v in done || v in queue || v == current
    ensures forall v :: v in visited + {w} ==> v in done || v in queue + [w] || v == current
  {
    forall v | v in visited + {w}
      ensures v in done || v in queue + [w] || v == current
    {
      if v == w {
        assert (queue + [w])[|queue|] == w;
      } else if v in queue {
        var i :| 0 <= i < |queue| && queue[i] == v;
        assert (queue + [w])[i] == v;
      }
    }
  }

  /**
   * The state while `current`, at distance d, is expanded: the search state
   * with `to` still unvisited, the queue layered from d, and every visited
   * ID expanded, queued or current.
   */
  ghost predicate Expanding(l: Lookup, from: string, to: string, current: string, d: nat, queue: seq<string>,
                            visited: set<string>, parent: map<string, string>, dist: map<string, nat>, done: set<string>)
  {
    && Explored(l, from, visited, parent, dist, done) && to !in visited
    && current in visited && dist[current] == d
    && Layered(queue, dist, d)
    && forall v :: v in visited ==> v in done || v in queue || v == current
  }

  /** Visiting and queuing a successor other than `to` keeps the expansion state. */
  lemma VisitStep(l: Lookup, from: string, to: string, current: string, d: nat, queue: seq<string>,
                  visited: set<string>, parent: map<string, string>, dist: map<string, nat>, done: set<string>, w: string)
    requires Expanding(l, from, to, current, d, queue, visited, parent, dist, done)
    requires w !in visited && Edge(l, current, w) && w != to
    ensures Expanding(l, from, to, current, d, queue + [w], visited + {w}, parent[w := current], dist[w := d + 1], done)
  {
    Visit(l, from, visited, parent, dist, done, queue, current, w);
    CoveredSnoc(visited, done, queue, current, w);
  }

  /** The path ShortestPath returns once `to` is visited: the parent walk from `to`, reversed. */
  method Finish(l: Lookup, from: string, to: string, visited: set<string>, parent: map<string, string>,
                ghost dist: map<string, nat>, ghost done: set<string>) returns (r: seq<string>)
    requires Explored(l, from, visited, parent, dist, done) && to in visited
    ensures r != [] && PathFromTo(l, r, from, to)
    ensures forall p :: PathFromTo(l, p, from, to) ==> |r| <= |p|
  {
    WalkStopsFromDist(l, from, visited, parent, dist, done, to);
    r := ReconstructPath(parent, from, to);
    FoundShortest(l, from, to, visited, parent, dist, done, r);
  }

  /**
   * The state after the first k out-edges of `current` are handled: the
   * expansion state, only new successors of `current` visited (the queue
   * unchanged while none is), and the first k successors visited.
   */
  ghost predicate Expanded(l: Lookup, from: string, to: string, current: string, d: nat, k: nat,
                           queue0: seq<string>, visited0: set<string>, queue: seq<string>,
                           visited: set<string>, parent: map<string, string>, dist: map<string, nat>, done: set<string>)
  {
    && k <= |Succ(l, current)|
    && Expanding(l, from, to, current, d, queue, visited, parent, dist, done)
    && visited0 <= visited && (visited == visited0 || |visited| > |visited0|)
    && (visited == visited0 ==> queue == queue0)
    && (forall v :: v in visited && v !in visited0 ==> Edge(l, current, v))
    && forall i :: 0 <= i < k ==> Succ(l, current)[i] in visited
  }

  /** Handling the k-th successor, other than `to`: skipped when visited, otherwise visited and queued. */
  lemma ExpandStep(l: Lookup, from: string, to: string, current: string, d: nat, k: nat,
                   queue0: seq<string>, visited0: set<string>, queue: seq<string>,
                   visited: set<string>, parent: map<string, string>, dist: map<string, nat>, done: set<string>,
                   queue': seq<string>, visited': set<string>, parent': map<string, string>, dist': map<string, nat>)
    requires Expanded(l, from, to, current, d, k, queue0, visited0, queue, visited, parent, dist, done)
    requires k < |Succ(l, current)| && Succ(l, current)[k] != to
    requires var w := Succ(l, current)[k];
      if w in visited then queue' == queue && visited' == visited && parent' == parent && dist' == dist
      else queue' == queue + [w] && visited' == visited + {w} && parent' == parent[w := current] && dist' == dist[w := d + 1]
    ensures Expanded(l, from, to, current, d, k + 1, queue0, visited0, queue', visited', parent', dist', done)
  {
    var w := Succ(l, current)[k];
    if w !in visited {
      VisitStep(l, from, to, current, d, queue, visited, parent, dist, done, w);
    }
  }

  /** Visiting `to` as the k-th successor finishes the expansion: the visited set grows by a successor. */
  lemma ExpandFound(l: Lookup, from: string, to: string, current: string, d: nat, k: nat,
                    queue0: seq<string>, visited0: set<string>, queue: seq<string>,
                    visited: set<string>, parent: map<string, string>, dist: map<string, nat>, done: set<string>)
    requires Expanded(l, from, to, current, d, k, queue0, visited0, queue, visited, parent, dist, done)
    requires k < |Succ(l, current)| && Succ(l, current)[k] == to
    ensures Explored(l, from, visited + {to}, parent[to := current], dist[to := d + 1], done)
    ensures visited0 <= visited + {to} && |visited + {to}| > |visited0|
    ensures forall v :: v in visited + {to} && v !in visited0 ==> Edge(l, current, v)
  {
    Visit(l, from, visited, parent, dist, done, queue, current, to);
    assert visited0 < visited + {to};
  }

  /**
   * The inner loop of ShortestPath: visit the unvisited out-edges of
   * `current`, recording parent and distance, until `to` is found or the
   * edges run out; the new IDs are queued behind the rest.
   */
  method Expand(l: Lookup, from: string, to: string, current: string, queue0: seq<string>,
                visited0: set<string>, parent0: map<string, string>, ghost dist0: map<string, nat>, ghost done: set<string>)
    returns (found: bool, path: seq<string>, queue: seq<string>, visited: set<string>, parent: map<string, string>,
             ghost dist: map<string, nat>)
    requires Explored(l, from, visited0, parent0, dist0, done) && to !in visited0
    requires current in visited0 && Layered(queue0, dist0, dist0[current])
    requires forall v :: v in visited0 ==> v in done || v in queue0 || v == current
    ensures visited0 <= visited && (visited == visited0 || |visited| > |visited0|)
    ensures visited == visited0 ==> queue == queue0
    ensures forall v :: v in visited && v !in visited0 ==> Edge(l, current, v)
    ensures found ==> path != [] && PathFromTo(l, path, from, to) && forall p :: PathFromTo(l, p, from, to) ==> |path| <= |p|
    ensures !found ==> to !in visited && Explored(l, from, visited, parent, dist, done + {current})
    ensures !found ==> Layered(queue, dist, dist0[current]) && forall v :: v in visited ==> v in done + {current} || v in queue
  {
    found, path := false, [];
    queue, visited, parent, dist := queue0, visited0, parent0, dist0;
    if current !in l.ByID {
      return;
    }
    var next := l.ByID[current].OutEdges;
    ghost var d := dist0[current];
    for k := 0 to |next|
      invariant Expanded(l, from, to, current, d, k, queue0, visited0, queue, visited, parent, dist, done)
    {
      var nextID := next[k];
      if nextID == to && nextID !in visited {
        ExpandFound(l, from, to, current, d, k, queue0, visited0, queue, visited, parent, dist, done);
        visited := visited + {nextID};
        parent := parent[nextID := current];
        dist := dist[nextID := d + 1];
        found := true;
        path := Finish(l, from, to, visited, parent, dist, done);
        return;
      }
      ghost var (queue1, visited1, parent1, dist1) := (queue, visited, parent, dist);
      if nextID !in visited {
        visited := visited + {nextID};
        parent := parent[nextID := current];
        dist := dist[nextID := d + 1];
        queue := queue + [nextID];
      }
      ExpandStep(l, from, to, current, d, k, queue0, visited0, queue1, visited1, parent1, dist1, done,
                 queue, visited, parent, dist);
    }
  }

  /** Following parents from a visited ID stops within its distance. */
  lemma WalkStopsFromDist(l: Lookup, from: string, visited: set<string>, parent: map<string, string>,
                          dist: map<string, nat>, done: set<string>, v: string)
    requires Tree(l, from, visited, parent, dist) && v in visited
    ensures WalkStops(parent, from, v, dist[v])
    decreases dist[v]
  {
    if v != from {
      WalkStopsFromDist(l, from, visited, parent, dist, done, parent[v]);
    }
  }

  /** On the search's parent map the walk from a visited ID never breaks. */
  lemma NoBrokenWalk(l: Lookup, from: string, visited: set<string>, parent: map<string, string>,
                     dist: map<string, nat>, done: set<string>, to: string)
    requires Tree(l, from, visited, parent, dist) && to in visited
    ensures !BrokenWalk(parent, from, to)
  {
    forall c | |c| > 0 && c[0] == to && ParentChain(parent, from, c)
      ensures c[|c| - 1] == from || c[|c| - 1] in parent
    {
      ChainStaysVisited(parent, from, visited, c, |c| - 1);
    }
  }

  /** Position i of a reconstructed path is an ID at distance i. */
  lemma {:induction false} ChainDist(l: Lookup, from: string, to: string, visited: set<string>, parent: map<string, string>,
                                     dist: map<string, nat>, done: set<string>, r: seq<string>, i: nat)
    requires Tree(l, from, visited, parent, dist) && Reconstructed(parent, from, to, r) && i < |r|
    ensures r[i] in visited && dist[r[i]] == i
  {
    if i > 0 {
      ChainDist(l, from, to, visited, parent, dist, done, r, i - 1);
    }
  }

  /** The path rebuilt from the search's parents is a path to `to` that no other path is shorter than. */
  lemma FoundShortest(l: Lookup, from: string, to: string, visited: set<string>, parent: map<string, string>,
                      dist: map<string, nat>, done: set<string>, r: seq<string>)
    requires Explored(l, from, visited, parent, dist, done) && to in visited
    requires r != [] ==> Reconstructed(parent, from, to, r)
    requires r == [] ==> BrokenWalk(parent, from, to)
    ensures r != [] && PathFromTo(l, r, from, to)
    ensures forall p :: PathFromTo(l, p, from, to) ==> |r| <= |p|
  {
    NoBrokenWalk(l, from, visited, parent, dist, done, to);
    assert r != [];
    ChainDist(l, from, to, visited, parent, dist, done, r, |r| - 1);
    forall i | 0 < i < |r|
      ensures Edge(l, r[i - 1], r[i])
    {
      assert parent[r[i]] == r[i - 1];
    }
  }

  /** A path from a visited ID stays inside a visited set that is closed under out-edges. */
  lemma {:induction false} PathStaysVisited(l: Lookup, visited: set<string>, done: set<string>, p: seq<string>, i: nat)
    requires visited <= done && forall x, y :: x in done && y in Succ(l, x) ==> y in visited
    requires |p| > 0 && p[0] in visited && i < |p|
    requires forall k :: 0 < k < |p| ==> Edge(l, p[k - 1], p[k])
    ensures p[i] in visited
  {
    if i > 0 {
      PathStaysVisited(l, visited, done, p, i - 1);
    }
  }

  /** When the queue runs dry every visited ID is expanded, so `to`, unvisited, has no path. */
  lemma NoPath(l: Lookup, from: string, to: string, visited: set<string>, parent: map<string, string>,
               dist: map<string, nat>, done: set<string>)
    requires Explored(l, from, visited, parent, dist, done) && to !in visited
    requires forall v :: v in visited ==> v in done
    ensures forall p :: !PathFromTo(l, p, from, to)
  {
    forall p | |p| > 0 && p[0] == from && forall k :: 0 < k < |p| ==> Edge(l, p[k - 1], p[k])
      ensures p[|p| - 1] in visited
    {
      PathStaysVisited(l, visited, done, p, |p| - 1);
    }
  }

  /** IDs reached along out-edges of a visited ID stay within what the search can reach. */
  lemma ReachStep(l: Lookup, from: string, visited0: set<string>, visited: set<string>, current: string)
    requires visited0 <= Reach(l, from)
    requires forall v :: v in visited && v !in visited0 ==> Edge(l, current, v)
    requires visited0 <= visited
    ensures visited <= Reach(l, from)
  {
    forall v | v in visited && v !in visited0
      ensures v in Reach(l, from)
    {
      assert current in l.ByID && v in l.ByID[current].OutEdges;
    }
  }

  /**
   * The state at the head of the search loop: the search state with `to`
   * unvisited, the queue layered from its head, every visited ID expanded
   * or queued, and nothing visited that the search cannot reach.
   */
  ghost predicate Searching(l: Lookup, from: string, to: string, queue: seq<string>,
                            visited: set<string>, parent: map<string, string>, dist: map<string, nat>, done: set<string>)
  {
    && Explored(l, from, visited, parent, dist, done) && to !in visited
    && (queue != [] ==> queue[0] in dist && Layered(queue, dist, dist[queue[0]]))
    && (forall v :: v in visited ==> v in done || v in queue)
    && visited <= Reach(l, from)
  }

  /** Taking the head of the queue leaves the rest layered from the head's distance. */
  lemma Pop(l: Lookup, from: string, to: string, queue: seq<string>,
            visited: set<string>, parent: map<string, string>, dist: map<string, nat>, done: set<string>)
    requires Searching(l, from, to, queue, visited, parent, dist, done) && queue != []
    ensures queue[0] in visited && Layered(queue[1..], dist, dist[queue[0]])
    ensures forall v :: v in visited ==> v in done || v in queue[1..] || v == queue[0]
  {
    forall v | v in visited && v !in done && v != queue[0]
      ensures v in queue[1..]
    {
      var i :| 0 <= i < |queue| && queue[i] == v;
      assert queue[1..][i - 1] == v;
    }
  }

  /** After expanding `current` the loop's state holds again, with `current` expanded. */
  lemma Requeue(l: Lookup, from: string, to: string, current: string, d: nat, queue: seq<string>, visited0: set<string>,
                visited: set<string>, parent: map<string, string>, dist: map<string, nat>, done: set<string>)
    requires visited0 <= Reach(l, from) && visited0 <= visited
    requires forall v :: v in visited && v !in visited0 ==> Edge(l, current, v)
    requires to !in visited && Explored(l, from, visited, parent, dist, done + {current})
    requires Layered(queue, dist, d) && forall v :: v in visited ==> v in done + {current} || v in queue
    ensures Searching(l, from, to, queue, visited, parent, dist, done + {current})
    ensures |visited| <= |Reach(l, from)|
  {
    ReachStep(l, from, visited0, visited, current);
    SubsetCard(visited, Reach(l, from));
  }

  /**
   * ShortestPath: [from] when both ends agree; otherwise a breadth-first
   * search that marks IDs visited when it queues them. A non-empty result
   * is a path along out-edges from `from` to `to` with the fewest edges;
   * an empty one means there is no path.
   */
  method ShortestPath(l: Lookup, from: string, to: string) returns (r: seq<string>)
    ensures from == to ==> r == [from]
    ensures r != [] ==> PathFromTo(l, r, from, to) && forall p :: PathFromTo(l, p, from, to) ==> |r| <= |p|
    ensures r == [] ==> forall p :: !PathFromTo(l, p, from, to)
  {
    if from == to {
      return [from];
    }
    var queue := [from];
    var visited := {from};
    var parent: map<string, string> := map[];
    ghost var dist: map<string, nat> := map[from := 0];
    ghost var done: set<string> := {};
    SubsetCard(visited, Reach(l, from));
    while queue != []
      invariant Searching(l, from, to, queue, visited, parent, dist, done)
      invariant |visited| <= |Reach(l, from)|
      decreases |Reach(l, from)| - |visited|, |queue|
    {
      Pop(l, from, to, queue, visited, parent, dist, done);
      var current := queue[0];
      queue := queue[1..];
      ghost var d := dist[current];
      ghost var visited0 := visited;
      var found, path;
      found, path, queue, visited, parent, dist := Expand(l, from, to, current, queue, visited, parent, dist, done);
      if found {
        return path;
      }
      Requeue(l, from, to, current, d, queue, visited0, visited, parent, dist, done);
      done := done + {current};
    }
    NoPath(l, from, to, visited, parent, dist, done);
    r := [];
  }
}
