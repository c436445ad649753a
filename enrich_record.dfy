/**
 * The pending record of internal/enrich/record.go, built for one symbol
 * before the agent runs, and the source line it quotes, read through a
 * per-run cache of file lines. The file system is a map from path to
 * content; a path that is not in it cannot be read.
 */
module EnrichRecord {
  import opened Wrappers
  import opened Strs
  import opened Sorting
  import GoPath
  import opened ParserTypes
  import SymbolIds
  import State
  import GraphEdges
  import opened EnrichTypes

  type FileSystem = map<string, string>

  /** The lines of a file as cached: None when it cannot be read. */
  function FileLines(fs: FileSystem, path: string): Option<seq<string>> {
    if path in fs then Some(Split(fs[path], "\n")) else None
  }

  /** The trimmed line at a 1-based position; "" when there is no such line or the file is unreadable. */
  function SourceLine(lines: Option<seq<string>>, line: int): string {
    if line <= 0 || lines.None? || line > |lines.value| then ""
    else TrimSpace(lines.value[line - 1])
  }

  /** Of a file made of lines, the n-th line read back is that line, trimmed. */
  lemma SourceLineOfText(ls: seq<string>, line: int)
    requires |ls| >= 1 && forall k :: 0 <= k < |ls| ==> '\n' !in ls[k]
    requires 1 <= line <= |ls|
    ensures SourceLine(Some(Split(Join(ls, "\n"), "\n")), line) == TrimSpace(ls[line - 1])
  {
    SplitJoin(ls, '\n');
  }

  /** A line past the end of a file made of lines reads as "". */
  lemma SourceLinePastEnd(ls: seq<string>, line: int)
    requires |ls| >= 1 && forall k :: 0 <= k < |ls| ==> '\n' !in ls[k]
    requires line > |ls|
    ensures SourceLine(Some(Split(Join(ls, "\n"), "\n")), line) == ""
  {
    SplitJoin(ls, '\n');
  }

  /** The lines read so far in one run, by file. */
  class LineCache {
    var lines: map<string, Option<seq<string>>>

    constructor()
      ensures lines == map[]
    {
      lines := map[];
    }

    /** Every cached entry is what reading that file gives. */
    ghost predicate Consistent(rootPath: string, fs: FileSystem)
      reads this
    {
      forall f :: f in lines ==> lines[f] == FileLines(fs, GoPath.Join2(rootPath, f))
    }

    /**
     * ReadSourceLine: "" for a line of 0 or less without touching the
     * cache; otherwise the file is read only when it is not cached yet (a
     * failed read is cached too), and the answer is the trimmed line, or ""
     * past the end. With a cache that agrees with the files, the answer is
     * what reading the file directly gives.
     */
    method ReadSourceLine(rootPath: string, file: string, line: int, fs: FileSystem) returns (s: string)
      modifies this
      ensures line <= 0 ==> s == "" && lines == old(lines)
      ensures line > 0 && file in old(lines) ==> lines == old(lines)
      ensures line > 0 && file !in old(lines) ==> lines == old(lines)[file := FileLines(fs, GoPath.Join2(rootPath, file))]
      ensures line > 0 ==> file in lines && s == SourceLine(lines[file], line)
      ensures old(Consistent(rootPath, fs)) ==> Consistent(rootPath, fs) && s == SourceLine(FileLines(fs, GoPath.Join2(rootPath, file)), line)
    {
      if line <= 0 {
        return "";
      }
      var cached: Option<seq<string>>;
      if file in lines {
        cached := lines[file];
      } else {
        var path := GoPath.Join2(rootPath, file);
        if path !in fs {
          lines := lines[file := None];
          return "";
        }
        cached := Some(Split(fs[path], "\n"));
        lines := lines[file := cached];
      }
      if cached.None? || line > |cached.value| {
        return "";
      }
      return TrimSpace(cached.value[line - 1]);
    }
  }

  // ---------------------------------------------------------------------
  // BuildRecord

  /** The ID a record carries: the symbol's, or its stable ID when it has none. */
  function RecordID(file: string, sym: Symbol, sigHash: SymbolIds.SigHash): string {
    if sym.ID == "" then SymbolIds.StableSymbolID(file, sym, sigHash) else sym.ID
  }

  /** The out- and in-edges of the node, each sorted; none without a node. */
  function EdgeLists(node: Option<GraphEdges.Node<string>>): (seq<string>, seq<string>) {
    match node
    case None => ([], [])
    case Some(n) => (SortStrings(n.OutEdges), SortStrings(n.InEdges))
  }

  /** The pending record of a symbol, quoting the given source line. */
  function PendingRecord(file: string, fileState: State.FileState, sym: Symbol, node: Option<GraphEdges.Node<string>>,
                         agent: string, scope: string, body: string, sigHash: SymbolIds.SigHash): Record
  {
    var id := RecordID(file, sym, sigHash);
    var edges := EdgeLists(node);
    Record(
      SymbolID := id, Agent := agent, AgentProfile := agent, Model := "", PromptVersion := "", CacheKey := "",
      Scope := scope, FileHash := fileState.Hash,
      Input := InputPayload(
        Symbol := SymbolMetadata(id, sym.Name, KindString(sym.Kind), sym.Signature, file, fileState.Language, sym.Line),
        Source := SourceSpan(sym.Line, sym.Line, body),
        Imports := fileState.Imports, Calls := edges.0, CalledBy := edges.1),
      Output := Output("", "", "", ""), Status := "pending", Error := "", GeneratedAt := "", UpdatedAt := "")
  }

  /**
   * A pending record is keyed by the symbol's ID (its stable ID when it has
   * none), belongs to the agent as both agent and profile, spans exactly
   * the symbol's line, and lists the node's callees and callers sorted.
   */
  lemma PendingRecordSpec(file: string, fileState: State.FileState, sym: Symbol, node: Option<GraphEdges.Node<string>>,
                          agent: string, scope: string, body: string, sigHash: SymbolIds.SigHash)
    ensures var r := PendingRecord(file, fileState, sym, node, agent, scope, body, sigHash);
      r.Status == "pending" && r.Agent == agent && r.AgentProfile == agent &&
      r.SymbolID == r.Input.Symbol.ID && r.SymbolID != "" &&
      (sym.ID != "" ==> r.SymbolID == sym.ID) &&
      r.Input.Source.StartLine == sym.Line && r.Input.Source.EndLine == sym.Line &&
      r.Input.Imports == fileState.Imports && r.FileHash == fileState.Hash &&
      (node.None? ==> r.Input.Calls == [] && r.Input.CalledBy == []) &&
      (node.Some? ==> SortedBy(r.Input.Calls, LessEq) && multiset(r.Input.Calls) == multiset(node.value.OutEdges) &&
                      SortedBy(r.Input.CalledBy, LessEq) && multiset(r.Input.CalledBy) == multiset(node.value.InEdges))
  {
    if sym.ID == "" {
      StableIDNonEmpty(file, sym, sigHash);
    }
    if node.Some? {
      SortStringsSorted(node.value.OutEdges);
      SortStringsSorted(node.value.InEdges);
    }
  }

  /** A stable ID is never empty: it holds at least the separators between its fields. */
  lemma StableIDNonEmpty(file: string, sym: Symbol, sigHash: SymbolIds.SigHash)
    ensures SymbolIds.StableSymbolID(file, sym, sigHash) != ""
  {
    var fields := SymbolIds.IDFields(file, sym, sigHash);
    JoinCons(fields[0], fields[1..], "|");
    assert fields == [fields[0]] + fields[1..];
  }

  /**
   * BuildRecord: the pending record of the symbol quoting its source line,
   * always with ok set.
   */
  method BuildRecord(rootPath: string, file: string, fileState: State.FileState, sym: Symbol,
                     node: Option<GraphEdges.Node<string>>, lineCache: LineCache, agent: string, scope: string,
                     fs: FileSystem, sigHash: SymbolIds.SigHash)
    returns (record: Record, ok: bool)
    modifies lineCache
    ensures ok
    ensures old(lineCache.Consistent(rootPath, fs)) ==>
      (lineCache.Consistent(rootPath, fs) &&
       record == PendingRecord(file, fileState, sym, node, agent, scope,
                               SourceLine(FileLines(fs, GoPath.Join2(rootPath, file)), sym.Line), sigHash))
  {
    var s := sym;
    if s.ID == "" {
      s := s.(ID := SymbolIds.StableSymbolID(file, sym, sigHash));
    }
    var sourceLine := lineCache.ReadSourceLine(rootPath, file, s.Line, fs);
    var calls := [];
    var calledBy := [];
    if node.Some? {
      calls := SortStrings(node.value.OutEdges);
      calledBy := SortStrings(node.value.InEdges);
    }
    record := Record(
      SymbolID := s.ID, Agent := agent, AgentProfile := agent, Model := "", PromptVersion := "", CacheKey := "",
      Scope := scope, FileHash := fileState.Hash,
      Input := InputPayload(
        Symbol := SymbolMetadata(s.ID, s.Name, KindString(s.Kind), s.Signature, file, fileState.Language, s.Line),
        Source := SourceSpan(s.Line, s.Line, sourceLine),
        Imports := fileState.Imports, Calls := calls, CalledBy := calledBy),
      Output := Output("", "", "", ""), Status := "pending", Error := "", GeneratedAt := "", UpdatedAt := "");
    ok := true;
  }
}
