/**
 * The state helpers of internal/fileutil/state_helpers.go that rebuild a
 * parse result from the saved state and write graph dependencies back into
 * it. The impact analysis is in module FileutilImpact.
 */
module FileutilState {
  import opened Wrappers
  import opened Seqs
  import opened Sorting
  import opened ParserTypes
  import opened GraphLookup
  import opened GraphEdges
  import SymbolIds
  import Strs
  import FileutilStrings
  import State
  import Graph

  // ---------------------------------------------------------------------
  // Symbol IDs

  /** The symbol with its ID filled in: kept when set, the stable ID otherwise. */
  function WithID(path: string, sym: Symbol, h: SymbolIds.SigHash): (r: Symbol)
    ensures r.ID != ""
    ensures r == sym.(ID := NodeID(path, sym, h))
    ensures sym.ID != "" ==> r == sym
  {
    if sym.ID != "" then sym else sym.(ID := SymbolIds.StableSymbolID(path, sym, h))
  }

  /**
   * EnsureSymbolIDs: every symbol of the file keeps its ID when it has one
   * and gets the stable ID of its file otherwise; nothing else changes.
   */
  method EnsureSymbolIDs(file: FileSymbols, h: SymbolIds.SigHash) returns (r: FileSymbols)
    ensures r == file.(Symbols := r.Symbols) && |r.Symbols| == |file.Symbols|
    ensures forall i :: 0 <= i < |r.Symbols| ==> r.Symbols[i] == WithID(file.Path, file.Symbols[i], h)
  {
    var syms := file.Symbols;
    var i := 0;
    while i < |syms|
      invariant 0 <= i <= |syms| && |syms| == |file.Symbols|
      invariant forall k :: 0 <= k < i ==> syms[k] == WithID(file.Path, file.Symbols[k], h)
      invariant forall k :: i <= k < |syms| ==> syms[k] == file.Symbols[k]
    {
      if syms[i].ID != "" {
        i := i + 1;
        continue;
      }
      syms := syms[i := syms[i].(ID := SymbolIds.StableSymbolID(file.Path, syms[i], h))];
      i := i + 1;
    }
    r := file.(Symbols := syms);
  }

  /** After EnsureSymbolIDs every symbol has an ID, and a second run changes nothing. */
  lemma WithIDIdempotent(path: string, sym: Symbol, h: SymbolIds.SigHash)
    ensures WithID(path, WithID(path, sym, h), h) == WithID(path, sym, h)
    ensures NodeID(path, WithID(path, sym, h), h) == NodeID(path, sym, h)
  {
  }

  // ---------------------------------------------------------------------
  // ParseResultFromState

  /**
   * f is the parse result entry of a tracked file: its saved data under its
   * path, with the current hash and the symbol IDs filled in.
   */
  ghost predicate Restored(f: FileSymbols, path: string, fs: State.FileState, hash: string, h: SymbolIds.SigHash) {
    && f.Path == path && f.Language == fs.Language && f.Imports == fs.Imports
    && f.ImportAliases == fs.ImportAliases && f.Hash == hash
    && |f.Symbols| == |fs.Symbols|
    && forall k :: 0 <= k < |f.Symbols| ==> f.Symbols[k] == WithID(path, fs.Symbols[k], h)
  }

  /** Each collected file is the restored entry of a distinct tracked, current path. */
  ghost predicate Collected(files: seq<FileSymbols>, tracked: State.Files, currentHashes: map<string, string>, h: SymbolIds.SigHash) {
    && NoDups(Keys(files, Path))
    && forall i :: 0 <= i < |files| ==>
      var p := files[i].Path;
      p in currentHashes && p in tracked && Restored(files[i], p, tracked[p], currentHashes[p], h)
  }

  function PathKey(f: FileSymbols): seq<KeyPart> {
    [StrKey(f.Path)]
  }

  function Path(f: FileSymbols): string {
    f.Path
  }

  /** The loop of ParseResultFromState over the current paths, before sorting. */
  method CollectTracked(tracked: State.Files, currentHashes: map<string, string>, h: SymbolIds.SigHash)
      returns (files: seq<FileSymbols>)
    ensures Collected(files, tracked, currentHashes, h)
    ensures forall p :: p in currentHashes && p in tracked ==> p in Keys(files, Path)
  {
    files := [];
    var rest := currentHashes.Keys;
    while rest != {}
      invariant rest <= currentHashes.Keys
      invariant Collected(files, tracked, currentHashes, h)
      invariant forall p :: p in Keys(files, Path) ==> p !in rest
      invariant forall p :: p in currentHashes && p !in rest && p in tracked ==> p in Keys(files, Path)
      decreases |rest|
    {
      var path :| path in rest;
      rest := rest - {path};
      if path !in tracked {
        continue;
      }
      var fileState := tracked[path];
      var file := FileSymbols(path, fileState.Language, fileState.Symbols, fileState.Imports, fileState.ImportAliases, currentHashes[path]);
      file := EnsureSymbolIDs(file, h);
      CollectStep(files, file, tracked, currentHashes, h);
      files := files + [file];
    }
  }

  lemma CollectStep(files: seq<FileSymbols>, file: FileSymbols, tracked: State.Files, currentHashes: map<string, string>, h: SymbolIds.SigHash)
    requires Collected(files, tracked, currentHashes, h) && file.Path !in Keys(files, Path)
    requires file.Path in currentHashes && file.Path in tracked
    requires Restored(file, file.Path, tracked[file.Path], currentHashes[file.Path], h)
    ensures Collected(files + [file], tracked, currentHashes, h)
    ensures Keys(files + [file], Path) == Keys(files, Path) + [file.Path]
  {
    KeysSnoc(files, file, Path);
  }

  /**
   * ParseResultFromState: one file per current path that the state tracks,
   * restored with the current hash and symbol IDs filled in, in ascending
   * path order.
   */
  method ParseResultFromState(st: State.State, rootPath: string, currentHashes: map<string, string>, h: SymbolIds.SigHash)
      returns (r: ParseResult)
    ensures r.RootPath == rootPath
    ensures forall i, j :: 0 <= i < j < |r.Files| ==> Strs.Less(r.Files[i].Path, r.Files[j].Path)
    ensures Collected(r.Files, st.TrackedFiles(), currentHashes, h)
    ensures forall p :: p in currentHashes && p in st.TrackedFiles() ==> exists i :: 0 <= i < |r.Files| && r.Files[i].Path == p
  {
    var files := CollectTracked(st.TrackedFiles(), currentHashes, h);
    var sorted := SortByKey(files, PathKey);
    SortedByPath(files, sorted);
    CollectedPermutation(files, sorted, st.TrackedFiles(), currentHashes, h);
    r := ParseResult(sorted, rootPath);
  }

  lemma PathKeyOrder(a: FileSymbols, b: FileSymbols)
    requires KeyLe(PathKey(a), PathKey(b)) && a.Path != b.Path
    ensures Strs.Less(a.Path, b.Path)
  {
    assert PathKey(a)[0] != PathKey(b)[0];
  }

  /** Sorting files with different paths by path leaves them in strictly ascending path order. */
  lemma SortedByPath(files: seq<FileSymbols>, sorted: seq<FileSymbols>)
    requires NoDups(Keys(files, Path)) && sorted == SortByKey(files, PathKey)
    ensures multiset(sorted) == multiset(files) && NoDups(Keys(sorted, Path))
    ensures forall i, j :: 0 <= i < j < |sorted| ==> Strs.Less(sorted[i].Path, sorted[j].Path)
  {
    SortByKeySorted(files, PathKey);
    NoDupKeysOfMultiset(files, sorted, Path);
    forall i, j | 0 <= i < j < |sorted|
      ensures Strs.Less(sorted[i].Path, sorted[j].Path)
    {
      assert Keys(sorted, Path)[i] != Keys(sorted, Path)[j];
      PathKeyOrder(sorted[i], sorted[j]);
    }
  }

  /** A rearrangement of collected files is collected, and covers the same paths. */
  lemma CollectedPermutation(files: seq<FileSymbols>, sorted: seq<FileSymbols>, tracked: State.Files, currentHashes: map<string, string>, h: SymbolIds.SigHash)
    requires Collected(files, tracked, currentHashes, h)
    requires multiset(sorted) == multiset(files) && NoDups(Keys(sorted, Path))
    ensures Collected(sorted, tracked, currentHashes, h)
    ensures forall p :: p in Keys(files, Path) ==> exists i :: 0 <= i < |sorted| && sorted[i].Path == p
  {
    MultisetMembers(files, sorted);
    forall i | 0 <= i < |sorted|
      ensures var p := sorted[i].Path;
        p in currentHashes && p in tracked && Restored(sorted[i], p, tracked[p], currentHashes[p], h)
    {
      assert sorted[i] in files;
    }
    forall p | p in Keys(files, Path)
      ensures exists i :: 0 <= i < |sorted| && sorted[i].Path == p
    {
      var k :| 0 <= k < |files| && Keys(files, Path)[k] == p;
      assert files[k] in sorted;
    }
  }

  // ---------------------------------------------------------------------
  // ApplyGraphDependencies

  /** The file part of a node ID. */
  function EdgeFile(edge: string): string {
    ParseNodeID(edge).0
  }

  /** Some edge of the list leads into file t, which is neither "" nor file itself. */
  ghost predicate TargetIn(edges: seq<string>, file: string, t: string) {
    t != "" && t != file && exists e :: e in edges && EdgeFile(e) == t
  }

  /** Some node of file has an edge into file t, which is neither "" nor file itself. */
  ghost predicate IsDependency(nodes: Nodes, fileNodes: map<string, seq<string>>, file: string, t: string) {
    file in fileNodes && exists id :: id in fileNodes[file] && id in nodes && TargetIn(nodes[id].OutEdges, file, t)
  }

  /** The target files of one node's edges added to deps. */
  method AddEdgeTargets(deps0: map<string, bool>, edges: seq<string>, file: string) returns (deps: map<string, bool>)
    ensures forall t :: t in deps <==> t in deps0 || TargetIn(edges, file, t)
  {
    deps := deps0;
    var k := 0;
    while k < |edges|
      invariant 0 <= k <= |edges|
      invariant forall t :: t in deps <==> t in deps0 || TargetIn(edges[..k], file, t)
    {
      assert edges[..k + 1] == edges[..k] + [edges[k]];
      var targetFile := EdgeFile(edges[k]);
      if targetFile != "" && targetFile != file {
        deps := deps[targetFile := true];
      }
      k := k + 1;
    }
    assert edges[..k] == edges;
  }

  /** The dependencies of one file: the other files its nodes have edges into, sorted. */
  method FileDependencies(nodes: Nodes, fileNodes: map<string, seq<string>>, file: string) returns (out: seq<string>)
    ensures StrictlyAscending(out)
    ensures forall t :: t in out <==> IsDependency(nodes, fileNodes, file, t)
  {
    var nodeIDs := if file in fileNodes then fileNodes[file] else [];
    var deps: map<string, bool> := map[];
    var i := 0;
    while i < |nodeIDs|
      invariant 0 <= i <= |nodeIDs|
      invariant forall t :: t in deps <==> exists id :: id in nodeIDs[..i] && id in nodes && TargetIn(nodes[id].OutEdges, file, t)
    {
      assert nodeIDs[..i + 1] == nodeIDs[..i] + [nodeIDs[i]];
      if nodeIDs[i] in nodes {
        deps := AddEdgeTargets(deps, nodes[nodeIDs[i]].OutEdges, file);
      }
      i := i + 1;
    }
    assert nodeIDs[..i] == nodeIDs;
    out := FileutilStrings.MapKeysSorted(deps);
  }

  /** The files whose dependencies are rewritten: the given set, or every tracked file when it is nil. */
  function Targets(tracked: State.Files, files: Option<map<string, bool>>): set<string> {
    if files.Some? then files.value.Keys else tracked.Keys
  }

  /** The tracked entry with the dependencies ApplyGraphDependencies writes. */
  ghost predicate Applied(old_fs: State.FileState, fs: State.FileState, nodes: Nodes, fileNodes: map<string, seq<string>>, file: string) {
    && fs == old_fs.(Dependencies := fs.Dependencies)
    && StrictlyAscending(fs.Dependencies)
    && forall t :: t in fs.Dependencies <==> IsDependency(nodes, fileNodes, file, t)
  }

  /**
   * The loop of ApplyGraphDependencies over the target files, on the map of
   * tracked files: each tracked target gets its graph dependencies; every
   * other entry is kept.
   */
  method ApplyToFiles(tracked: State.Files, targets: seq<string>, nodes: Nodes, fileNodes: map<string, seq<string>>)
      returns (r: State.Files)
    ensures r.Keys == tracked.Keys
    ensures forall f :: f in r && f in targets ==> Applied(tracked[f], r[f], nodes, fileNodes, f)
    ensures forall f :: f in r && f !in targets ==> r[f] == tracked[f]
  {
    r := tracked;
    var i := 0;
    while i < |targets|
      invariant 0 <= i <= |targets|
      invariant r.Keys == tracked.Keys
      invariant forall f :: f in r && f in targets[..i] ==> Applied(tracked[f], r[f], nodes, fileNodes, f)
      invariant forall f :: f in r && f !in targets[..i] ==> r[f] == tracked[f]
    {
      var file := targets[i];
      assert targets[..i + 1] == targets[..i] + [file];
      if file in r {
        var fileState := r[file];
        var deps := FileDependencies(nodes, fileNodes, file);
        r := r[file := fileState.(Dependencies := deps)];
      }
      i := i + 1;
    }
    assert targets[..i] == targets;
  }

  /**
   * ApplyGraphDependencies: each tracked file among the targets gets as its
   * dependencies the other files its graph nodes have edges into, sorted
   * and without duplicates; untracked targets are skipped and every other
   * part of the state is kept.
   */
  method ApplyGraphDependencies(st: State.State, g: Graph.Graph, files: Option<map<string, bool>>)
    modifies st
    ensures st.Version == old(st.Version) && st.ParserVersion == old(st.ParserVersion)
    ensures st.OutputHashes == old(st.OutputHashes) && st.Files.Some? == old(st.Files.Some?)
    ensures st.TrackedFiles().Keys == old(st.TrackedFiles().Keys)
    ensures forall f :: f in st.TrackedFiles() && f in Targets(old(st.TrackedFiles()), files) ==>
      Applied(old(st.TrackedFiles()[f]), st.TrackedFiles()[f], g.nodes, g.fileNodes, f)
    ensures forall f :: f in st.TrackedFiles() && f !in Targets(old(st.TrackedFiles()), files) ==>
      st.TrackedFiles()[f] == old(st.TrackedFiles()[f])
  {
    var targetFiles := State.SortedMembers(Targets(st.TrackedFiles(), files));
    if st.Files.Some? {
      var updated := ApplyToFiles(st.Files.value, targetFiles, g.nodes, g.fileNodes);
      st.Files := Some(updated);
    }
  }
}
