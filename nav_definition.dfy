// Resolving a definition query, which names a symbol or a "file:line"
// location, and de-duplicating the references a language server reports.

module NavDefinition {
  import opened Wrappers
  import opened Seqs
  import opened Sorting
  import opened Strs
  import opened GoStrconv
  import opened NavIndex
  import opened NavGraphOps

  // ---------------------------------------------------------------------
  // ParseLocationQuery

  datatype Location = Location(File: string, Line: int)

  /**
   * ParseLocationQuery: split at the last colon, which may be neither the
   * first nor the last character; both sides are trimmed and must be
   * non-empty, and the line must be a positive integer.
   */
  function ParseLocationQuery(query: string): (r: Option<Location>)
    ensures r.Some? ==> r.value.File != "" && r.value.Line >= 1
  {
    var idx := LastIndex(query, ":");
    if idx <= 0 || idx >= |query| - 1 then None
    else
      var file := TrimSpace(query[..idx]);
      var lineRaw := TrimSpace(query[idx + 1..]);
      if file == "" || lineRaw == "" then None
      else
        match Atoi(lineRaw)
        case Int(n) => if n <= 0 then None else Some(Location(file, n))
        case _ => None
  }

  /**
   * A parsed location comes from a query with a colon: its file is the
   * trimmed text before the last colon, and its line the number after it.
   */
  lemma ParsedLocation(query: string)
    requires ParseLocationQuery(query).Some?
    ensures var loc := ParseLocationQuery(query).value;
      && ':' in query
      && TrimSpace(loc.File) == loc.File
      && var idx := LastIndex(query, ":");
        && 0 < idx < |query| - 1 && query[idx] == ':' && ':' !in query[idx + 1..]
        && loc.File == TrimSpace(query[..idx])
        && Atoi(TrimSpace(query[idx + 1..])) == Int(loc.Line)
  {
    LastIndexChar(query, ':');
    var idx := LastIndex(query, ":");
    TrimSpaceIdempotent(query[..idx]);
  }

  /** A query without a colon is not a location. */
  lemma NoColonNoLocation(query: string)
    requires ':' !in query
    ensures ParseLocationQuery(query).None?
  {
    LastIndexChar(query, ':');
  }

  /** In "file:" followed by text without a colon, the last colon is the one after the file. */
  lemma LastColonAfterFile(file: string, rest: string)
    requires ':' !in rest
    ensures LastIndex(file + ":" + rest, ":") == |file|
  {
    var q := file + ":" + rest;
    LastIndexChar(q, ':');
    assert OccursAt(q, ":", |file|) by {
      assert q[|file|..|file| + 1] == ":";
    }
    assert forall k :: |file| < k < |q| ==> q[k] == rest[k - |file| - 1];
  }

  /** In "file:" followed by text without a colon, the text before the last colon is the file and the text after it the rest. */
  lemma SplitAtLastColon(file: string, rest: string)
    requires ':' !in rest
    ensures var q := file + ":" + rest; var idx := LastIndex(q, ":");
      idx == |file| && q[..idx] == file && q[idx + 1..] == rest
  {
    LastColonAfterFile(file, rest);
    var q := file + ":" + rest;
    assert q[..|file|] == file;
    assert q[|file| + 1..] == rest;
  }

  /** The decimal text of a positive number holds no colon and no white space at its ends. */
  lemma DigitsPlain(line: int)
    requires 1 <= line
    ensures ':' !in Itoa(line) && NoEdgeSpace(Itoa(line))
  {
    var digits := Itoa(line);
    assert forall k :: 0 <= k < |digits| ==> IsDigit(digits[k]);
    assert IsDigit(digits[0]) && IsDigit(digits[|digits| - 1]);
  }

  /** Writing a location as "file:line" and parsing it gives the location back, with the file trimmed. */
  lemma ParseLocationRoundTrip(file: string, line: int)
    requires TrimSpace(file) != "" && 1 <= line <= MaxInt
    ensures ParseLocationQuery(file + ":" + Itoa(line)) == Some(Location(TrimSpace(file), line))
  {
    var digits := Itoa(line);
    DigitsPlain(line);
    SplitAtLastColon(file, digits);
    TrimSpaceNoop(digits);
    AtoiItoa(line);
  }

  // ---------------------------------------------------------------------
  // ResolveNodeAtLocation

  /** A node in the file on exactly the line. */
  predicate IsExact(n: IndexNode, file: string, line: int) {
    n.File == file && n.Line == line
  }

  /**
   * A node in the file on an earlier line that the nearest-line search
   * considers: its best line starts at -1, so lines below -1 never count.
   */
  predicate IsNear(n: IndexNode, file: string, line: int) {
    n.File == file && -1 <= n.Line < line
  }

  /**
   * What ResolveNodeAtLocation returns: a node of the file on the line
   * with the smallest ID; failing that, a node on the greatest earlier
   * line with the smallest ID among that line's nodes; failing that, none.
   */
  ghost predicate AtLocation(l: Lookup, file: string, line: int, r: Option<IndexNode>) {
    if exists n :: n in l.ByID.Values && IsExact(n, file, line) then
      && r.Some? && r.value in l.ByID.Values && IsExact(r.value, file, line)
      && forall n :: n in l.ByID.Values && IsExact(n, file, line) ==> LessEq(r.value.ID, n.ID)
    else if exists n :: n in l.ByID.Values && IsNear(n, file, line) then
      && r.Some? && r.value in l.ByID.Values && IsNear(r.value, file, line)
      && forall n :: n in l.ByID.Values && IsNear(n, file, line) ==>
        n.Line <= r.value.Line && (n.Line == r.value.Line ==> LessEq(r.value.ID, n.ID))
    else
      r.None?
  }

  function NodeKey(n: IndexNode): seq<KeyPart> {
    [StrKey(n.ID)]
  }

  /** Sorting by ID and taking the first gives a node whose ID is the smallest. */
  method FirstByID(s: seq<IndexNode>) returns (m: IndexNode)
    requires |s| > 0
    ensures m in s && forall x :: x in s ==> LessEq(m.ID, x.ID)
  {
    var sorted := SortByKey(s, NodeKey);
    SortByKeySorted(s, NodeKey);
    MultisetMembers(sorted, s);
    m := sorted[0];
    forall x | x in s
      ensures LessEq(m.ID, x.ID)
    {
      var j :| 0 <= j < |sorted| && sorted[j] == x;
      if j > 0 {
        assert KeyLe(NodeKey(sorted[0]), NodeKey(sorted[j]));
      }
    }
  }

  /**
   * The loop of ResolveNodeAtLocation over the lookup's nodes (in any
   * order): the exact matches, and the nodes on the best earlier line.
   */
  method ScanLocation(l: Lookup, file: string, line: int) returns (exact: seq<IndexNode>, nearest: seq<IndexNode>, bestLine: int)
    ensures forall n :: n in exact ==> n in l.ByID.Values && IsExact(n, file, line)
    ensures forall n :: n in l.ByID.Values && IsExact(n, file, line) ==> n in exact
    ensures bestLine >= -1 && (bestLine > -1 ==> |nearest| > 0)
    ensures forall n :: n in nearest ==> n in l.ByID.Values && IsNear(n, file, line) && n.Line == bestLine
    ensures forall n :: n in l.ByID.Values && IsNear(n, file, line) ==> n.Line <= bestLine && (n.Line == bestLine ==> n in nearest)
  {
    exact, nearest, bestLine := [], [], -1;
    var rest := l.ByID.Keys;
    while rest != {}
      invariant rest <= l.ByID.Keys
      invariant forall n :: n in exact ==> n in l.ByID.Values && IsExact(n, file, line)
      invariant forall k :: k in l.ByID && k !in rest && IsExact(l.ByID[k], file, line) ==> l.ByID[k] in exact
      invariant bestLine >= -1 && (bestLine > -1 ==> |nearest| > 0)
      invariant forall n :: n in nearest ==> n in l.ByID.Values && IsNear(n, file, line) && n.Line == bestLine
      invariant forall k :: k in l.ByID && k !in rest && IsNear(l.ByID[k], file, line) ==>
        l.ByID[k].Line <= bestLine && (l.ByID[k].Line == bestLine ==> l.ByID[k] in nearest)
      decreases |rest|
    {
      var k :| k in rest;
      rest := rest - {k};
      var candidate := l.ByID[k];
      if candidate.File != file {
        continue;
      }
      if candidate.Line == line {
        exact := exact + [candidate];
        continue;
      }
      if candidate.Line <= line {
        if candidate.Line > bestLine {
          nearest := [];
          bestLine := candidate.Line;
        }
        if candidate.Line == bestLine {
          nearest := nearest + [candidate];
        }
      }
    }
  }

  /** ResolveNodeAtLocation: the exact node with the smallest ID, else the nearest earlier one, else none. */
  method ResolveNodeAtLocation(l: Lookup, file: string, line: int) returns (r: Option<IndexNode>)
    ensures AtLocation(l, file, line, r)
  {
    var exact, nearest, bestLine := ScanLocation(l, file, line);
    if |exact| > 0 {
      var m := FirstByID(exact);
      return Some(m);
    }
    if |nearest| > 0 {
      var m := FirstByID(nearest);
      return Some(m);
    }
    return None;
  }

  // ---------------------------------------------------------------------
  // ResolveSymbolOrLocation

  /** The query falls back to a location: it has a colon and parses as one. */
  predicate Fallback(query: string) {
    Contains(query, ":") && ParseLocationQuery(query).Some?
  }

  /**
   * ResolveSymbolOrLocation: a query naming exactly one symbol gives it.
   * Otherwise a query that parses as a location gives the node there, or
   * not-found when there is none; any other query keeps the symbol error.
   */
  method ResolveSymbolOrLocation(l: Lookup, query: string) returns (r: Result<IndexNode, ResolveError>)
    ensures |Resolved(l, query)| == 1 ==> r == Success(Resolved(l, query)[0])
    ensures |Resolved(l, query)| == 0 && !Fallback(query) ==> r == Failure(NotFound(query))
    ensures |Resolved(l, query)| > 1 && !Fallback(query) ==> (r.Failure? && r.error.Ambiguous? &&
      r.error.query == query && SortedBy(r.error.options, LessEq) &&
      multiset(r.error.options) == multiset(Keys(Resolved(l, query), NodeID)))
    ensures |Resolved(l, query)| != 1 && Fallback(query) ==> (r.Failure? ==> r.error == NotFound(query))
    ensures |Resolved(l, query)| != 1 && Fallback(query) ==>
      var loc := ParseLocationQuery(query).value;
      AtLocation(l, loc.File, loc.Line, if r.Success? then Some(r.value) else None)
  {
    r := ResolveSingleSymbol(l, query);
    if r.Success? {
      return;
    }
    if !Contains(query, ":") {
      return;
    }
    var loc := ParseLocationQuery(query);
    if loc.None? {
      return;
    }
    var candidate := ResolveNodeAtLocation(l, loc.value.File, loc.value.Line);
    if candidate.Some? {
      return Success(candidate.value);
    }
    return Failure(NotFound(query));
  }

  // ---------------------------------------------------------------------
  // References reported by a language server

  /** The candidates the reported locations resolved to, other than the queried node, in order. */
  function Kept(cands: seq<Option<IndexNode>>, self: string): seq<IndexNode> {
    if cands == [] then []
    else
      var last := cands[|cands| - 1];
      Kept(cands[..|cands| - 1], self) + (if last.Some? && last.value.ID != self then [last.value] else [])
  }

  /** A node is kept exactly when some location resolved to it and it is not the queried node. */
  lemma {:induction false} KeptSpec(cands: seq<Option<IndexNode>>, self: string)
    ensures forall n :: n in Kept(cands, self) <==> exists i :: 0 <= i < |cands| && cands[i] == Some(n) && n.ID != self
  {
    if cands != [] {
      var init := cands[..|cands| - 1];
      KeptSpec(init, self);
      forall n | n in Kept(cands, self)
        ensures exists i :: 0 <= i < |cands| && cands[i] == Some(n) && n.ID != self
      {
        if n in Kept(init, self) {
          var i :| 0 <= i < |init| && init[i] == Some(n) && n.ID != self;
          assert cands[i] == Some(n);
        } else {
          assert cands[|cands| - 1] == Some(n);
        }
      }
      forall i | 0 <= i < |cands| && cands[i].Some? && cands[i].value.ID != self
        ensures cands[i].value in Kept(cands, self)
      {
        if i < |init| {
          assert init[i] == cands[i];
        }
      }
    }
  }

  /** A reference found by the language server, labelled with the confidence of its edge to the node. */
  function LspRecord(l: Lookup, node: IndexNode, c: IndexNode): EdgeRecord {
    EdgeRecord(RecordOf(c), EdgeConfidenceIn(l, c.ID, node.ID), "lsp")
  }

  function RecordID(e: EdgeRecord): string {
    e.Symbol.ID
  }

  /** The first loop of ResolveReferencesViaLSP: the kept candidates by ID, a later one replacing an earlier. */
  method UniqueCandidates(cands: seq<Option<IndexNode>>, self: string) returns (unique: map<string, IndexNode>)
    ensures unique == LastByID(Kept(cands, self))
  {
    unique := map[];
    for i := 0 to |cands|
      invariant unique == LastByID(Kept(cands[..i], self))
    {
      assert cands[..i + 1][..i] == cands[..i];
      var candidate := cands[i];
      var kept := Kept(cands[..i], self);
      if candidate.None? || candidate.value.ID == self {
        assert Kept(cands[..i + 1], self) == kept;
        continue;
      }
      assert Kept(cands[..i + 1], self) == kept + [candidate.value];
      assert (kept + [candidate.value])[..|kept|] == kept;
      unique := unique[candidate.value.ID := candidate.value];
    }
    assert cands[..|cands|] == cands;
  }

  /**
   * The state of the second loop: each record so far is the record of a
   * unique candidate no longer left, every candidate no longer left has a
   * record, and no ID is recorded twice.
   */
  ghost predicate Recorded(l: Lookup, node: IndexNode, unique: map<string, IndexNode>, rest: set<string>, out: seq<EdgeRecord>) {
    && rest <= unique.Keys
    && (forall i :: 0 <= i < |out| ==>
          out[i].Symbol.ID in unique && out[i].Symbol.ID !in rest && out[i] == LspRecord(l, node, unique[out[i].Symbol.ID]))
    && (forall id :: id in unique && id !in rest ==> id in Keys(out, RecordID))
    && NoDups(Keys(out, RecordID))
  }

  /** Recording a candidate still left and removing it from what is left keeps the loop's state. */
  lemma RecordStep(l: Lookup, node: IndexNode, unique: map<string, IndexNode>, rest: set<string>, out: seq<EdgeRecord>,
                   id: string, rest': set<string>, out': seq<EdgeRecord>)
    requires forall id :: id in unique ==> unique[id].ID == id
    requires Recorded(l, node, unique, rest, out) && id in rest
    requires rest' == rest - {id} && out' == out + [LspRecord(l, node, unique[id])]
    ensures Recorded(l, node, unique, rest', out')
  {
    var record := LspRecord(l, node, unique[id]);
    assert RecordID(record) == id;
    KeysSnoc(out, record, RecordID);
    var keys := Keys(out, RecordID);
    forall k | 0 <= k < |keys|
      ensures keys[k] != id
    {
      assert keys[k] == out[k].Symbol.ID;
    }
    NoDupsSnoc(keys, id);
    forall i | 0 <= i < |out'|
      ensures out'[i].Symbol.ID in unique && out'[i].Symbol.ID !in rest' && out'[i] == LspRecord(l, node, unique[out'[i].Symbol.ID])
    {
      if i < |out| {
        assert out'[i] == out[i];
      }
    }
  }

  /** The second loop of ResolveReferencesViaLSP: one record per unique candidate, in any order. */
  method UniqueRecords(l: Lookup, node: IndexNode, unique: map<string, IndexNode>) returns (out: seq<EdgeRecord>)
    requires forall id :: id in unique ==> unique[id].ID == id
    ensures forall i :: 0 <= i < |out| ==> out[i].Symbol.ID in unique && out[i] == LspRecord(l, node, unique[out[i].Symbol.ID])
    ensures forall id :: id in unique ==> id in Keys(out, RecordID)
    ensures NoDups(Keys(out, RecordID))
  {
    out := [];
    var rest := unique.Keys;
    while rest != {}
      invariant Recorded(l, node, unique, rest, out)
      decreases |rest|
    {
      var id :| id in rest;
      ghost var (rest0, out0) := (rest, out);
      rest := rest - {id};
      out := out + [LspRecord(l, node, unique[id])];
      RecordStep(l, node, unique, rest0, out0, id, rest, out);
    }
  }

  /** Each kept ID maps to a node with that ID, and the kept IDs are those of the candidates other than the queried node. */
  lemma KeptIDs(cands: seq<Option<IndexNode>>, self: string)
    ensures forall id :: id in LastByID(Kept(cands, self)) ==> LastByID(Kept(cands, self))[id].ID == id
    ensures forall id :: id in LastByID(Kept(cands, self)) <==>
      exists i :: 0 <= i < |cands| && cands[i].Some? && cands[i].value.ID == id && id != self
  {
    var kept := Kept(cands, self);
    LastByIDSpec(kept);
    KeptSpec(cands, self);
    forall id | id in LastByID(kept)
      ensures exists i :: 0 <= i < |cands| && cands[i].Some? && cands[i].value.ID == id && id != self
    {
      var k :| 0 <= k < |kept| && kept[k].ID == id;
      assert kept[k] in kept;
    }
    forall i | 0 <= i < |cands| && cands[i].Some? && cands[i].value.ID != self
      ensures cands[i].value.ID in LastByID(kept)
    {
      assert cands[i].value in kept;
    }
  }

  /** The records sorted by symbol ID. */
  method SortRecords(records: seq<EdgeRecord>) returns (out: seq<EdgeRecord>)
    ensures multiset(out) == multiset(records)
    ensures SortedBy(Keys(out, RecordID), LessEq)
  {
    out := SortByKey(records, SymbolKey);
    SortByKeySorted(records, SymbolKey);
    var ids := Keys(out, RecordID);
    forall i, j | 0 <= i < j < |ids|
      ensures LessEq(ids[i], ids[j])
    {
      assert KeyLe(SymbolKey(out[i]), SymbolKey(out[j]));
    }
  }

  /**
   * The de-duplication of ResolveReferencesViaLSP, given the node each
   * reported location resolved to: one record per ID, from the last
   * candidate with it, without the queried node, in ascending ID order.
   */
  method LspReferences(l: Lookup, node: IndexNode, cands: seq<Option<IndexNode>>) returns (out: seq<EdgeRecord>)
    ensures StrictlyAscending(Keys(out, RecordID))
    ensures forall id :: id in Keys(out, RecordID) <==>
      exists i :: 0 <= i < |cands| && cands[i].Some? && cands[i].value.ID == id && id != node.ID
    ensures forall e :: e in out ==>
      e.Symbol.ID in LastByID(Kept(cands, node.ID)) && e == LspRecord(l, node, LastByID(Kept(cands, node.ID))[e.Symbol.ID])
  {
    var unique := UniqueCandidates(cands, node.ID);
    KeptIDs(cands, node.ID);
    var records := UniqueRecords(l, node, unique);
    out := SortRecords(records);
    MultisetMembers(out, records);
    NoDupKeysOfMultiset(records, out, RecordID);
    var ids := Keys(out, RecordID);
    SortedDistinctAscending(ids);
    forall id | id in ids
      ensures id in unique
    {
      var i :| 0 <= i < |ids| && ids[i] == id;
      assert out[i] in records;
    }
    forall id | id in unique
      ensures id in ids
    {
      var i :| 0 <= i < |records| && Keys(records, RecordID)[i] == id;
      assert records[i] in out;
      var j :| 0 <= j < |out| && out[j] == records[i];
      assert ids[j] == id;
    }
    forall e | e in out
      ensures e.Symbol.ID in unique && e == LspRecord(l, node, unique[e.Symbol.ID])
    {
      var i :| 0 <= i < |records| && records[i] == e;
    }
  }
}
