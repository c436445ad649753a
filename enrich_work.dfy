/**
 * The work list of internal/enrich/work.go: the symbols of the target
 * files in a fixed order, narrowed by a user-given selector, and the
 * one-line summary of what matched.
 */
module EnrichWork {
  import opened Wrappers
  import opened Strs
  import opened Sorting
  import GoStrconv
  import GoPath
  import opened ParserTypes
  import SymbolIds
  import State
  import GraphEdges
  import opened EnrichTypes

  // ---------------------------------------------------------------------
  // CloneSymbolsSorted

  /** The order of a file's symbols: by line, then by ID, computing the stable ID when it is empty. */
  function SymbolKey(file: string, sigHash: SymbolIds.SigHash, s: Symbol): seq<KeyPart> {
    [IntKey(s.Line), StrKey(if s.ID == "" then SymbolIds.StableSymbolID(file, s, sigHash) else s.ID)]
  }

  /** CloneSymbolsSorted: a sorted copy; the input is a value and so is left as it was. */
  function CloneSymbolsSorted(file: string, symbols: seq<Symbol>, sigHash: SymbolIds.SigHash): seq<Symbol> {
    SortByKey(symbols, s => SymbolKey(file, sigHash, s))
  }

  /** The copy is a permutation of the symbols ordered by (line, ID). */
  lemma CloneSymbolsSortedSpec(file: string, symbols: seq<Symbol>, sigHash: SymbolIds.SigHash)
    ensures var out := CloneSymbolsSorted(file, symbols, sigHash);
      multiset(out) == multiset(symbols) &&
      forall i, j :: 0 <= i < j < |out| ==> KeyLe(SymbolKey(file, sigHash, out[i]), SymbolKey(file, sigHash, out[j]))
  {
    SortByKeySorted(symbols, s => SymbolKey(file, sigHash, s));
  }

  /** Symbols on an earlier line come first. */
  lemma CloneSymbolsSortedByLine(file: string, symbols: seq<Symbol>, sigHash: SymbolIds.SigHash, i: int, j: int)
    requires 0 <= i < j < |CloneSymbolsSorted(file, symbols, sigHash)|
    ensures CloneSymbolsSorted(file, symbols, sigHash)[i].Line <= CloneSymbolsSorted(file, symbols, sigHash)[j].Line
  {
    CloneSymbolsSortedSpec(file, symbols, sigHash);
  }

  // ---------------------------------------------------------------------
  // CollectWorkItems

  /** The graph node of a symbol; a missing node is nil. */
  function NodeOf(nodes: GraphEdges.Nodes, id: string): Option<GraphEdges.Node<string>> {
    if id in nodes then Some(nodes[id]) else None
  }

  /** The work items of one tracked file, in sorted symbol order. */
  function FileItems(file: string, fs: State.FileState, nodes: GraphEdges.Nodes, sigHash: SymbolIds.SigHash): seq<WorkItem> {
    ItemsOf(file, fs, nodes, CloneSymbolsSorted(file, fs.Symbols, sigHash))
  }

  /** One work item per symbol, in the given order. */
  function ItemsOf(file: string, fs: State.FileState, nodes: GraphEdges.Nodes, symbols: seq<Symbol>): (r: seq<WorkItem>)
    ensures |r| == |symbols|
  {
    seq(|symbols|, i requires 0 <= i < |symbols| => WorkItem(file, fs, symbols[i], NodeOf(nodes, symbols[i].ID)))
  }

  /** The work items of the target files, file by file; untracked files give none. */
  function WorkItems(targetFiles: seq<string>, files: State.Files, nodes: GraphEdges.Nodes, sigHash: SymbolIds.SigHash): seq<WorkItem> {
    if targetFiles == [] then []
    else
      var file := targetFiles[|targetFiles| - 1];
      var prev := WorkItems(targetFiles[..|targetFiles| - 1], files, nodes, sigHash);
      if file in files then prev + FileItems(file, files[file], nodes, sigHash) else prev
  }

  /** What a work item is: a symbol of a tracked target file, with that file's state and the symbol's node. */
  ghost predicate ItemOf(targetFiles: seq<string>, files: State.Files, nodes: GraphEdges.Nodes, w: WorkItem) {
    w.File in targetFiles && w.File in files && w.FileState == files[w.File] &&
    w.Symbol in files[w.File].Symbols && w.Node == NodeOf(nodes, w.Symbol.ID)
  }

  lemma FileItemsSpec(file: string, fs: State.FileState, nodes: GraphEdges.Nodes, sigHash: SymbolIds.SigHash)
    ensures forall w :: w in FileItems(file, fs, nodes, sigHash) <==>
      w.File == file && w.FileState == fs && w.Symbol in fs.Symbols && w.Node == NodeOf(nodes, w.Symbol.ID)
  {
    var symbols := CloneSymbolsSorted(file, fs.Symbols, sigHash);
    CloneSymbolsSortedSpec(file, fs.Symbols, sigHash);
    forall s
      ensures s in symbols <==> s in fs.Symbols
    {
      assert s in symbols <==> s in multiset(symbols);
      assert s in fs.Symbols <==> s in multiset(fs.Symbols);
    }
    forall w: WorkItem | w.File == file && w.FileState == fs && w.Symbol in fs.Symbols && w.Node == NodeOf(nodes, w.Symbol.ID)
      ensures w in FileItems(file, fs, nodes, sigHash)
    {
      var i :| 0 <= i < |symbols| && symbols[i] == w.Symbol;
      assert FileItems(file, fs, nodes, sigHash)[i] == w;
    }
  }

  /** The items are exactly the symbols of the tracked target files. */
  lemma {:induction false} WorkItemsSpec(targetFiles: seq<string>, files: State.Files, nodes: GraphEdges.Nodes, sigHash: SymbolIds.SigHash)
    ensures forall w :: w in WorkItems(targetFiles, files, nodes, sigHash) <==> ItemOf(targetFiles, files, nodes, w)
  {
    if targetFiles != [] {
      var init, file := targetFiles[..|targetFiles| - 1], targetFiles[|targetFiles| - 1];
      WorkItemsSpec(init, files, nodes, sigHash);
      assert targetFiles == init + [file];
      if file in files {
        FileItemsSpec(file, files[file], nodes, sigHash);
      }
    }
  }

  /** The inner loop of CollectWorkItems over one file's sorted symbols. */
  method AppendFileItems(items: seq<WorkItem>, file: string, fs: State.FileState, nodes: GraphEdges.Nodes, symbols: seq<Symbol>)
    returns (r: seq<WorkItem>)
    ensures r == items + ItemsOf(file, fs, nodes, symbols)
  {
    ghost var all := ItemsOf(file, fs, nodes, symbols);
    r := items;
    for i := 0 to |symbols|
      invariant r == items + all[..i]
    {
      var sym := symbols[i];
      var node := None;
      if sym.ID in nodes {
        node := Some(nodes[sym.ID]);
      }
      assert all[i] == WorkItem(file, fs, sym, node);
      assert all[..i + 1] == all[..i] + [all[i]];
      r := r + [WorkItem(file, fs, sym, node)];
    }
    assert all[..|symbols|] == all;
  }

  /** CollectWorkItems: the items of each tracked target file in target order, then symbol order. */
  method CollectWorkItems(targetFiles: seq<string>, files: State.Files, nodes: GraphEdges.Nodes, sigHash: SymbolIds.SigHash)
    returns (items: seq<WorkItem>)
    ensures items == WorkItems(targetFiles, files, nodes, sigHash)
  {
    items := [];
    for i := 0 to |targetFiles|
      invariant items == WorkItems(targetFiles[..i], files, nodes, sigHash)
    {
      assert targetFiles[..i + 1][..i] == targetFiles[..i];
      var file := targetFiles[i];
      if file !in files {
        continue;
      }
      var symbols := CloneSymbolsSorted(file, files[file].Symbols, sigHash);
      items := AppendFileItems(items, file, files[file], nodes, symbols);
    }
    assert targetFiles[..|targetFiles|] == targetFiles;
  }

  // ---------------------------------------------------------------------
  // Selectors

  /** NormalizeSelector: trimmed, with '/' separators, one leading "./" removed, lower-cased. */
  function NormalizeSelector(value: string): string {
    var normalized := TrimSpace(value);
    if normalized == "" then ""
    else ToLower(TrimPrefix(GoPath.ToSlash(normalized), "./"))
  }

  /** A normalised selector is lower case, and empty exactly for blank input or a bare "./". */
  lemma NormalizeSelectorSpec(value: string)
    ensures ToLower(NormalizeSelector(value)) == NormalizeSelector(value)
    ensures NormalizeSelector(value) == "" <==> TrimSpace(value) == "" || TrimSpace(value) == "./"
  {
    var t := TrimSpace(value);
    if t != "" {
      ToLowerIdempotent(TrimPrefix(t, "./"));
      if HasPrefix(t, "./") && |t| == 2 {
        assert t == t[..2] == "./";
      }
    }
  }

  /** A selector that is already trimmed, lower case and without a leading "./" normalises to itself. */
  lemma NormalizeSelectorFixed(value: string)
    requires NoEdgeSpace(value) && ToLower(value) == value && !HasPrefix(value, "./")
    ensures NormalizeSelector(value) == value
  {
    TrimSpaceNoop(value);
  }

  /** The texts a selector may equal: the file, the ID, the name, and file:name, file:line and file:line:name. */
  function Candidates(item: WorkItem): seq<string> {
    var file := NormalizeSelector(item.File);
    var name := ToLower(TrimSpace(item.Symbol.Name));
    var line := GoStrconv.Itoa(item.Symbol.Line);
    [file, NormalizeSelector(item.Symbol.ID), name, file + ":" + name, file + ":" + line, file + ":" + line + ":" + name]
  }

  /** MatchesSelector: an exact candidate, a prefix or suffix of the file, or a part of the name. */
  predicate MatchesSelector(item: WorkItem, selector: string) {
    var file := NormalizeSelector(item.File);
    var name := ToLower(TrimSpace(item.Symbol.Name));
    selector in Candidates(item) || HasPrefix(file, selector) || HasSuffix(file, selector) || Contains(name, selector)
  }

  /** The candidate loop: some candidate equals the selector. */
  method MatchesCandidate(item: WorkItem, selector: string) returns (found: bool)
    ensures found <==> selector in Candidates(item)
  {
    var candidates := Candidates(item);
    for i := 0 to |candidates|
      invariant selector !in candidates[..i]
    {
      if selector == candidates[i] {
        return true;
      }
      assert candidates[..i + 1] == candidates[..i] + [candidates[i]];
    }
    assert candidates[..|candidates|] == candidates;
    return false;
  }

  /** A selector that is part of the lower-cased name matches. */
  lemma MatchesNamePart(item: WorkItem, selector: string, i: int)
    requires OccursAt(ToLower(TrimSpace(item.Symbol.Name)), selector, i)
    ensures MatchesSelector(item, selector)
  {
    ContainsAt(ToLower(TrimSpace(item.Symbol.Name)), selector, i);
  }

  /** The items that match, in their order. */
  function Matching(items: seq<WorkItem>, selector: string): (r: seq<WorkItem>)
    ensures |r| <= |items|
  {
    if items == [] then []
    else
      var prev := Matching(items[..|items| - 1], selector);
      if MatchesSelector(items[|items| - 1], selector) then prev + [items[|items| - 1]] else prev
  }

  /** The matching items are exactly the items that match the selector. */
  lemma {:induction false} MatchingSpec(items: seq<WorkItem>, selector: string)
    ensures forall w :: w in Matching(items, selector) <==> w in items && MatchesSelector(w, selector)
  {
    if items != [] {
      var init := items[..|items| - 1];
      MatchingSpec(init, selector);
      assert items == init + [items[|items| - 1]];
    }
  }

  /** FilterWorkItems: all items for a blank selector, else the matching items in order. */
  method FilterWorkItems(items: seq<WorkItem>, selector: string) returns (filtered: seq<WorkItem>)
    ensures NormalizeSelector(selector) == "" ==> filtered == items
    ensures NormalizeSelector(selector) != "" ==> filtered == Matching(items, NormalizeSelector(selector))
  {
    var normalized := NormalizeSelector(selector);
    if normalized == "" {
      return items;
    }
    filtered := [];
    for i := 0 to |items|
      invariant filtered == Matching(items[..i], normalized)
    {
      assert items[..i + 1][..i] == items[..i];
      var file := NormalizeSelector(items[i].File);
      var name := ToLower(TrimSpace(items[i].Symbol.Name));
      var found := MatchesCandidate(items[i], normalized);
      if found || HasPrefix(file, normalized) || HasSuffix(file, normalized) || Contains(name, normalized) {
        filtered := filtered + [items[i]];
      }
    }
    assert items[..|items|] == items;
  }

  // ---------------------------------------------------------------------
  // SummarizeMatches

  /** How a match is shown: file:line:name. */
  function MatchName(item: WorkItem): string {
    item.File + ":" + GoStrconv.Itoa(item.Symbol.Line) + ":" + item.Symbol.Name
  }

  function MatchNames(items: seq<WorkItem>): (r: seq<string>)
    ensures |r| == |items| && forall i :: 0 <= i < |items| ==> r[i] == MatchName(items[i])
  {
    seq(|items|, i requires 0 <= i < |items| => MatchName(items[i]))
  }

  /** The summary of the sorted names: all of them, or the first limit and how many more. */
  function Summary(names: seq<string>, limit: int): string {
    if |names| <= limit then Join(names, ", ")
    else if limit < 0 then ""
    else Join(names[..limit], ", ") + ", ... (+" + GoStrconv.Itoa(|names| - limit) + " more)"
  }

  /** A list of non-empty names joins to a non-empty text. */
  lemma JoinNonEmpty(parts: seq<string>, sep: string)
    requires parts != [] && parts[0] != ""
    ensures Join(parts, sep) != ""
  {
    if |parts| > 1 {
      JoinCons(parts[0], parts[1..], sep);
      assert parts == [parts[0]] + parts[1..];
    }
  }

  /** A summary of at least one non-empty name is not empty. */
  lemma SummaryNonEmpty(names: seq<string>, limit: int)
    requires names != [] && names[0] != "" && limit >= 1
    ensures Summary(names, limit) != ""
  {
    if |names| <= limit {
      JoinNonEmpty(names, ", ");
    }
  }

  /** The sorted names of at least one match start with a non-empty name. */
  lemma SortedNamesNonEmpty(items: seq<WorkItem>)
    requires items != []
    ensures var sorted := SortStrings(MatchNames(items)); sorted != [] && sorted[0] != ""
  {
    var names := MatchNames(items);
    var sorted := SortStrings(names);
    SortStringsSorted(names);
    assert sorted[0] in multiset(names);
    var i :| 0 <= i < |names| && names[i] == sorted[0];
    assert |MatchName(items[i])| > 0 by {
      assert MatchName(items[i]) == items[i].File + ":" + GoStrconv.Itoa(items[i].Symbol.Line) + ":" + items[i].Symbol.Name;
    }
  }

  /** The loop of SummarizeMatches over the items. */
  method CollectNames(items: seq<WorkItem>) returns (names: seq<string>)
    ensures names == MatchNames(items)
  {
    names := [];
    for i := 0 to |items|
      invariant names == MatchNames(items[..i])
    {
      names := names + [MatchName(items[i])];
    }
    assert items[..|items|] == items;
  }

  /**
   * SummarizeMatches: "" for no items; otherwise the sorted names, all of
   * them when they fit the limit (no limit when it is 0 or less), else the
   * first limit followed by the count of the rest.
   */
  method SummarizeMatches(items: seq<WorkItem>, limit: int) returns (s: string)
    ensures items == [] ==> s == ""
    ensures items != [] ==> s == Summary(SortStrings(MatchNames(items)), if limit <= 0 then |items| else limit)
    ensures items != [] ==> s != ""
  {
    if |items| == 0 {
      return "";
    }
    var lim := limit;
    if lim <= 0 {
      lim := |items|;
    }
    var names := CollectNames(items);
    var sorted := SortStrings(names);
    SortedNamesNonEmpty(items);
    if |sorted| <= lim {
      s := Join(sorted, ", ");
    } else {
      s := Join(sorted[..lim], ", ") + ", ... (+" + GoStrconv.Itoa(|sorted| - lim) + " more)";
    }
    SummaryNonEmpty(sorted, lim);
  }
}
