// The trace command's depth-bounded breadth-first walk over out-edges,
// and the defaults of the optional command-line flags.

module NavCommands {
  import opened Wrappers
  import opened Seqs
  import opened Sorting
  import opened Strs
  import opened NavIndex

  // ---------------------------------------------------------------------
  // Trace

  /** One traversed edge: the depth of its target, both ends and the edge's label. */
  datatype TraceHop = TraceHop(Depth: int, From: SymbolRecord, To: SymbolRecord, Confidence: string)

  datatype QueueItem = QueueItem(id: string, depth: int)

  datatype TraceError = BadDepth | Unresolved(err: ResolveError)

  /** The hop from one node to another, reached at the given depth. */
  function HopOf(l: Lookup, depth: int, from: IndexNode, to: IndexNode): TraceHop {
    TraceHop(depth, RecordOf(from), RecordOf(to), EdgeConfidenceIn(l, from.ID, to.ID))
  }

  /** The target of an out-edge of the node stored under key a, when the target has a node. */
  predicate EdgeTarget(l: Lookup, a: string, b: string) {
    a in l.ByID && b in l.ByID[a].OutEdges && b in l.ByID
  }

  /**
   * A hop a trace may report: its depth is between 1 and the limit, and it
   * follows an out-edge from a node of the lookup to a node of the lookup.
   */
  ghost predicate HopIn(l: Lookup, h: TraceHop, limit: int) {
    && 1 <= h.Depth <= limit
    && exists a :: a in l.ByID && exists b :: EdgeTarget(l, a, b) && h == HopOf(l, h.Depth, l.ByID[a], l.ByID[b])
  }

  /** The IDs the walk can ever hold: the start and the lookup's keys. */
  ghost function Universe(l: Lookup, start: string): set<string> {
    {start} + l.ByID.Keys
  }

  /** The depth recorded for an ID, with limit + 1 standing for an ID not yet seen. */
  function Recorded(seen: map<string, int>, k: string, limit: int): int {
    if k in seen then seen[k] else limit + 1
  }

  /**
   * The (ID, depth) pairs still free: depths below the recorded one. Every
   * enqueue lowers a recorded depth and so removes at least one pair; this
   * is why the walk terminates.
   */
  ghost function Slots(seen: map<string, int>, u: set<string>, limit: int): set<(string, int)> {
    set k, d | k in u && 0 <= d <= limit && d < Recorded(seen, k, limit) :: (k, d)
  }

  /** Recording a strictly smaller depth for an ID frees fewer pairs. */
  lemma SlotsShrink(seen: map<string, int>, u: set<string>, limit: int, k: string, v: int)
    requires k in u && 0 <= v <= limit && v < Recorded(seen, k, limit)
    ensures Slots(seen[k := v], u, limit) < Slots(seen, u, limit)
  {
    var s0 := Slots(seen, u, limit);
    var s1 := Slots(seen[k := v], u, limit);
    forall p | p in s1
      ensures p in s0
    {
      var k', d :| k' in u && 0 <= d <= limit && d < Recorded(seen[k := v], k', limit) && p == (k', d);
    }
    assert (k, v) in s0;
    assert (k, v) !in s1;
  }

  /** The walk's invariant: recorded depths and queued items lie in range, and every hop so far is one a trace may report. */
  ghost predicate Walking(l: Lookup, u: set<string>, limit: int, seen: map<string, int>, queue: seq<QueueItem>, hops: seq<TraceHop>) {
    && seen.Keys <= u
    && (forall k :: k in seen ==> 0 <= seen[k] <= limit)
    && (forall i :: 0 <= i < |queue| ==> queue[i].id in u && 0 <= queue[i].depth <= limit)
    && (forall i :: 0 <= i < |hops| ==> HopIn(l, hops[i], limit))
  }

  /** Appending a hop a trace may report keeps the invariant. */
  lemma AddHop(l: Lookup, u: set<string>, limit: int, seen: map<string, int>, queue: seq<QueueItem>, hops: seq<TraceHop>, hop: TraceHop)
    requires Walking(l, u, limit, seen, queue, hops) && HopIn(l, hop, limit)
    ensures Walking(l, u, limit, seen, queue, hops + [hop])
  {
  }

  /** Recording a depth in range and enqueueing the ID keeps the invariant. */
  lemma AddItem(l: Lookup, u: set<string>, limit: int, seen: map<string, int>, queue: seq<QueueItem>, hops: seq<TraceHop>, k: string, d: int)
    requires Walking(l, u, limit, seen, queue, hops) && k in u && 0 <= d <= limit
    ensures Walking(l, u, limit, seen[k := d], queue + [QueueItem(k, d)], hops)
  {
  }

  /**
   * The inner loop of the trace: a hop for each out-edge of the current
   * node whose target has a node, and an enqueue for each target first
   * reached or reached at a smaller depth than before.
   */
  method ExpandHops(l: Lookup, ghost u: set<string>, limit: int, from: string, depth: int,
                    seen0: map<string, int>, queue0: seq<QueueItem>, hops0: seq<TraceHop>)
    returns (seen: map<string, int>, queue: seq<QueueItem>, hops: seq<TraceHop>)
    requires from in l.ByID && l.ByID.Keys <= u && 0 <= depth < limit
    requires Walking(l, u, limit, seen0, queue0, hops0)
    ensures Walking(l, u, limit, seen, queue, hops)
    ensures |hops| >= |hops0| && hops[..|hops0|] == hops0
    ensures forall i :: |hops0| <= i < |hops| ==> hops[i].Depth == depth + 1 && hops[i].From == RecordOf(l.ByID[from])
    ensures (seen == seen0 && queue == queue0) || Slots(seen, u, limit) < Slots(seen0, u, limit)
  {
    seen, queue, hops := seen0, queue0, hops0;
    var fromNode := l.ByID[from];
    for j := 0 to |fromNode.OutEdges|
      invariant Walking(l, u, limit, seen, queue, hops)
      invariant |hops| >= |hops0| && hops[..|hops0|] == hops0
      invariant forall i :: |hops0| <= i < |hops| ==> hops[i].Depth == depth + 1 && hops[i].From == RecordOf(fromNode)
      invariant (seen == seen0 && queue == queue0) || Slots(seen, u, limit) < Slots(seen0, u, limit)
    {
      var nextID := fromNode.OutEdges[j];
      if nextID !in l.ByID {
        continue;
      }
      var toNode := l.ByID[nextID];
      var nextDepth := depth + 1;
      var hop := HopOf(l, nextDepth, fromNode, toNode);
      assert EdgeTarget(l, from, nextID);
      assert HopIn(l, hop, limit);
      AddHop(l, u, limit, seen, queue, hops, hop);
      hops := hops + [hop];
      if nextID !in seen || nextDepth < seen[nextID] {
        SlotsShrink(seen, u, limit, nextID, nextDepth);
        AddItem(l, u, limit, seen, queue, hops, nextID, nextDepth);
        seen := seen[nextID := nextDepth];
        queue := queue + [QueueItem(nextID, nextDepth)];
      }
    }
  }

  /**
   * The loop of RunTrace: a breadth-first walk from the start that expands
   * only items below the depth limit; it terminates because each enqueue
   * lowers a recorded depth, and every hop it reports is a real edge with
   * a depth between 1 and the limit.
   */
  method TraceWalk(l: Lookup, start: string, limit: int) returns (hops: seq<TraceHop>)
    requires limit >= 1
    ensures forall h :: h in hops ==> HopIn(l, h, limit)
  {
    ghost var u := Universe(l, start);
    var queue := [QueueItem(start, 0)];
    var seen := map[start := 0];
    hops := [];
    while |queue| > 0
      invariant Walking(l, u, limit, seen, queue, hops)
      decreases Slots(seen, u, limit), |queue|
    {
      var current := queue[0];
      queue := queue[1..];
      if current.depth >= limit {
        continue;
      }
      if current.id !in l.ByID {
        continue;
      }
      seen, queue, hops := ExpandHops(l, u, limit, current.id, current.depth, seen, queue, hops);
    }
  }

  /** The sort key of a hop: depth, then source ID, then target ID. */
  function HopKey(h: TraceHop): seq<KeyPart> {
    [IntKey(h.Depth), StrKey(h.From.ID), StrKey(h.To.ID)]
  }

  /** The order of the trace's output: by depth, then by source ID, then by target ID. */
  predicate HopLe(a: TraceHop, b: TraceHop) {
    || a.Depth < b.Depth
    || (a.Depth == b.Depth && Less(a.From.ID, b.From.ID))
    || (a.Depth == b.Depth && a.From.ID == b.From.ID && LessEq(a.To.ID, b.To.ID))
  }

  /** Keys in order mean hops in order. */
  lemma HopKeyOrder(a: TraceHop, b: TraceHop)
    requires KeyLe(HopKey(a), HopKey(b))
    ensures HopLe(a, b)
  {
    var ka, kb := HopKey(a), HopKey(b);
    if ka != kb {
      assert KeyLess(ka, kb);
      if ka[0] == kb[0] {
        var a1, b1 := ka[1..], kb[1..];
        assert KeyLess(a1, b1);
        if a1[0] == b1[0] {
          var a2, b2 := a1[1..], b1[1..];
          assert KeyLess(a2, b2);
          assert a2[0] != b2[0] by {
            assert ka == [ka[0], a1[0], a2[0]] && kb == [kb[0], b1[0], b2[0]];
          }
        }
      }
    }
  }

  /** The hops sorted into trace order. */
  method SortHops(hops: seq<TraceHop>) returns (out: seq<TraceHop>)
    ensures multiset(out) == multiset(hops)
    ensures forall h :: h in out <==> h in hops
    ensures forall i, j :: 0 <= i < j < |out| ==> HopLe(out[i], out[j])
  {
    out := SortByKey(hops, HopKey);
    SortByKeySorted(hops, HopKey);
    forall i, j | 0 <= i < j < |out|
      ensures HopLe(out[i], out[j])
    {
      HopKeyOrder(out[i], out[j]);
    }
    MultisetMembers(out, hops);
  }

  /**
   * The computation of RunTrace: a depth below 1 is refused; otherwise the
   * query must name exactly one symbol, and the result is that node with
   * the hops of the walk from it, in trace order.
   */
  method Trace(l: Lookup, query: string, limit: int) returns (r: Result<(IndexNode, seq<TraceHop>), TraceError>)
    ensures limit < 1 <==> r == Failure(BadDepth)
    ensures limit >= 1 && |Resolved(l, query)| == 0 ==> r == Failure(Unresolved(NotFound(query)))
    ensures limit >= 1 && |Resolved(l, query)| > 1 ==> r.Failure? && r.error.Unresolved? && r.error.err.Ambiguous?
    ensures r.Success? <==> limit >= 1 && |Resolved(l, query)| == 1
    ensures r.Success? ==> r.value.0 == Resolved(l, query)[0]
    ensures r.Success? ==> forall h :: h in r.value.1 ==> HopIn(l, h, limit)
    ensures r.Success? ==> forall i, j :: 0 <= i < j < |r.value.1| ==> HopLe(r.value.1[i], r.value.1[j])
  {
    if limit < 1 {
      return Failure(BadDepth);
    }
    var start := ResolveSingleSymbol(l, query);
    if start.Failure? {
      return Failure(Unresolved(start.error));
    }
    var walked := TraceWalk(l, start.value.ID, limit);
    var hops := SortHops(walked);
    return Success((start.value, hops));
  }

  // ---------------------------------------------------------------------
  // Optional flags

  /**
   * The command's flag set as far as these helpers see it: whether the
   * command exists, and for each defined flag the result of reading it
   * (a parse error is a Failure).
   */
  datatype Command<T> = NoCommand | Command(flags: map<string, Result<T, string>>)

  /**
   * OptionalBoolFlag and OptionalIntFlag: the default when there is no
   * command or no such flag, the flag's value when it reads, and an error
   * naming the flag when it does not.
   */
  function OptionalFlag<T>(cmd: Command<T>, name: string, default: T): (r: Result<T, string>)
    ensures cmd.NoCommand? || name !in cmd.flags ==> r == Success(default)
    ensures cmd.Command? && name in cmd.flags && cmd.flags[name].Success? ==> r == cmd.flags[name]
    ensures cmd.Command? && name in cmd.flags && cmd.flags[name].Failure? ==>
      r == Failure("failed to read --" + name + " flag: " + cmd.flags[name].error)
  {
    if cmd.NoCommand? || name !in cmd.flags then Success(default)
    else
      match cmd.flags[name]
      case Success(v) => Success(v)
      case Failure(e) => Failure("failed to read --" + name + " flag: " + e)
  }
}
