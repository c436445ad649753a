/**
 * Call resolution of internal/graph/graph.go: the symbol lookups by name
 * (anywhere, per file, methods per file, per module), the import-alias
 * candidate files, and the precedence chain that turns one call site into
 * at most one target node with a confidence.
 *
 * The Go code builds the lookups once as maps; here each lookup is the
 * function of the parse result that the map holds, evaluated on demand.
 */
module GraphLookup {
  import opened Strs
  import opened Seqs
  import opened Sorting
  import opened Wrappers
  import opened ParserTypes
  import SymbolIds
  import GoPath

  // ---------------------------------------------------------------------
  // dedupeAndSort

  /** What dedupeAndSort returns: the distinct values in ascending order. */
  function DedupedSorted(values: seq<string>): seq<string> {
    if values == [] then values else SortStrings(Distinct(values))
  }

  /** dedupeAndSort yields, strictly ascending, exactly the input values. */
  lemma DedupedSortedSpec(values: seq<string>)
    ensures StrictlyAscending(DedupedSorted(values))
    ensures forall x :: x in DedupedSorted(values) <==> x in values
  {
    if values != [] {
      var d := Distinct(values);
      SortStringsAscending(d);
      SortStringsSorted(d);
      MultisetMembers(SortStrings(d), d);
    }
  }

  /** Two inputs with the same members de-duplicate to the same list. */
  lemma DedupedSortedSameMembers(a: seq<string>, b: seq<string>)
    requires forall x :: x in a <==> x in b
    ensures DedupedSorted(a) == DedupedSorted(b)
  {
    DedupedSortedSpec(a);
    DedupedSortedSpec(b);
    AscendingUnique(DedupedSorted(a), DedupedSorted(b));
  }

  /** One step of the dedupeAndSort loop. */
  lemma DistinctPrefixStep(values: seq<string>, i: nat)
    requires i < |values|
    ensures var d := Distinct(values[..i]);
            Distinct(values[..i + 1]) == if values[i] in d then d else d + [values[i]]
  {
    assert values[..i + 1] == values[..i] + [values[i]];
    DistinctSnoc(values[..i], values[i]);
  }

  /** dedupeAndSort */
  method DedupeAndSort(values: seq<string>) returns (out: seq<string>)
    ensures out == DedupedSorted(values)
  {
    if |values| == 0 {
      return values;
    }
    var seen: set<string> := {};
    var acc: seq<string> := [];
    var i := 0;
    while i < |values|
      invariant 0 <= i <= |values|
      invariant acc == Distinct(values[..i])
      invariant forall x :: x in seen <==> x in acc
    {
      var value := values[i];
      DistinctPrefixStep(values, i);
      if value !in seen {
        seen := seen + {value};
        acc := acc + [value];
      }
      i := i + 1;
    }
    assert values[..i] == values;
    out := SortStrings(acc);
  }

  // ---------------------------------------------------------------------
  // Confidence

  const Resolved := "resolved"
  const Heuristic := "heuristic"
  const Ambiguous := "ambiguous"

  /** The rank map of mergeConfidence; a missing key reads as 0. */
  function Rank(c: string): (r: int)
    ensures 0 <= r <= 3
    ensures r == 0 <==> c !in {Ambiguous, Heuristic, Resolved}
  {
    if c == Ambiguous then 1
    else if c == Heuristic then 2
    else if c == Resolved then 3
    else 0
  }

  /** mergeConfidence */
  function MergeConfidence(current: string, next: string): (r: string)
    ensures r == current || r == next
    ensures Rank(r) >= Rank(current) && Rank(r) >= Rank(next)
    ensures Rank(next) >= Rank(current) ==> r == next
  {
    if Rank(next) >= Rank(current) then next else current
  }

  /** Merging is idempotent and keeps the stronger label, whatever the order of two known labels. */
  lemma MergeConfidenceOrderFree(a: string, b: string)
    requires a in {Ambiguous, Heuristic, Resolved} && b in {Ambiguous, Heuristic, Resolved}
    ensures MergeConfidence(a, b) == MergeConfidence(b, a)
    ensures MergeConfidence(a, a) == a
  {
  }

  // ---------------------------------------------------------------------
  // Node IDs

  /** makeNodeID: the parser's ID when the symbol has one, else the stable ID. */
  function NodeID(path: string, sym: Symbol, h: SymbolIds.SigHash): string {
    if sym.ID != "" then sym.ID else SymbolIds.StableSymbolID(path, sym, h)
  }

  /**
   * How node IDs are made from a file path and a symbol. The graph uses
   * NodeID with the digest of the parse; the lookups below hold for any
   * such function.
   */
  type NodeIds = (string, Symbol) -> string

  function NodeIdsOf(h: SymbolIds.SigHash): NodeIds {
    (path: string, sym: Symbol) => NodeID(path, sym, h)
  }

  /** ParseNodeID: the first and fourth `|`-separated fields, or the whole ID and "". */
  function ParseNodeID(id: string): (r: (string, string)) {
    var parts := Split(id, "|");
    if |parts| >= 4 then (parts[0], parts[3]) else (id, "")
  }

  /** ParseNodeID recovers the file and the name from a stable ID. */
  lemma ParseNodeIDOfStable(file: string, sym: Symbol, h: SymbolIds.SigHash)
    requires '|' !in file && '|' !in sym.Name
    ensures ParseNodeID(SymbolIds.StableSymbolID(file, sym, h)) == (file, sym.Name)
  {
    SymbolIds.StableSymbolIDFields(file, sym, h);
  }

  /** An ID without `|` is all file and no symbol. */
  lemma ParseNodeIDPlain(id: string)
    requires '|' !in id
    ensures ParseNodeID(id) == (id, "")
  {
    SplitJoin([id], '|');
  }

  // ---------------------------------------------------------------------
  // Lookups

  /** Where a lookup searches: everywhere, one file, the methods of one file, or one module. */
  datatype Scope = Anywhere | InFile(path: string) | MethodsOfFile(file: string) | InModule(mod: string)

  /** moduleName: the first directory of a file's path, or "root" for a top-level file. */
  function ModuleName(file: string): (r: string)
    ensures '/' !in r
  {
    var dir := GoPath.Dir(file);
    if dir == "." then "root"
    else
      var parts := Split(dir, "/");
      SplitPiecesFree(dir, "/");
      assert !Contains(parts[0], "/");
      GoPath.NoSlashOfNotContains(parts[0]);
      parts[0]
  }

  predicate InScope(path: string, sym: Symbol, scope: Scope) {
    match scope
    case Anywhere => true
    case InFile(p) => path == p
    case MethodsOfFile(p) => path == p && sym.Kind == ParserTypes.Method
    case InModule(m) => ModuleName(path) == m
  }

  predicate Declares(path: string, sym: Symbol, scope: Scope, name: string) {
    sym.Name == name && InScope(path, sym, scope)
  }

  /** The IDs of one file's symbols called name in scope, in declaration order. */
  function SymbolIDs(path: string, syms: seq<Symbol>, scope: Scope, name: string, ids: NodeIds): seq<string> {
    if syms == [] then []
    else
      var s := syms[|syms| - 1];
      SymbolIDs(path, syms[..|syms| - 1], scope, name, ids)
      + (if Declares(path, s, scope, name) then [ids(path, s)] else [])
  }

  /** What buildSymbolLookup appends under name for a scope, file by file. */
  function ScopedIDs(files: seq<FileSymbols>, scope: Scope, name: string, ids: NodeIds): seq<string> {
    if files == [] then []
    else
      var f := files[|files| - 1];
      ScopedIDs(files[..|files| - 1], scope, name, ids) + SymbolIDs(f.Path, f.Symbols, scope, name, ids)
  }

  /** The lookup entry for name in a scope, as dedupeAndSort leaves it. */
  function Lookup(files: seq<FileSymbols>, scope: Scope, name: string, ids: NodeIds): seq<string> {
    DedupedSorted(ScopedIDs(files, scope, name, ids))
  }

  /** Some symbol of file f called name, in scope, has node ID id. */
  ghost predicate DeclaredInFile(f: FileSymbols, scope: Scope, name: string, id: string, ids: NodeIds) {
    exists j :: 0 <= j < |f.Symbols| && Declares(f.Path, f.Symbols[j], scope, name) && ids(f.Path, f.Symbols[j]) == id
  }

  /** Some symbol of the parse result called name, in scope, has node ID id. */
  ghost predicate DeclaredIn(files: seq<FileSymbols>, scope: Scope, name: string, id: string, ids: NodeIds) {
    exists i :: 0 <= i < |files| && DeclaredInFile(files[i], scope, name, id, ids)
  }

  lemma {:induction false} SymbolIDsMembers(path: string, syms: seq<Symbol>, scope: Scope, name: string, ids: NodeIds, id: string)
    ensures id in SymbolIDs(path, syms, scope, name, ids) <==>
      exists j :: 0 <= j < |syms| && Declares(path, syms[j], scope, name) && ids(path, syms[j]) == id
    decreases |syms|
  {
    if syms != [] {
      var init := syms[..|syms| - 1];
      SymbolIDsMembers(path, init, scope, name, ids, id);
      assert forall j :: 0 <= j < |init| ==> init[j] == syms[j];
    }
  }

  lemma {:induction false} ScopedIDsMembers(files: seq<FileSymbols>, scope: Scope, name: string, ids: NodeIds, id: string)
    ensures id in ScopedIDs(files, scope, name, ids) <==> DeclaredIn(files, scope, name, id, ids)
    decreases |files|
  {
    if files != [] {
      var init := files[..|files| - 1];
      var f := files[|files| - 1];
      ScopedIDsMembers(init, scope, name, ids, id);
      SymbolIDsMembers(f.Path, f.Symbols, scope, name, ids, id);
      assert files == init + [f];
      DeclaredInSnoc(init, f, scope, name, id, ids);
    }
  }

  lemma DeclaredInSnoc(init: seq<FileSymbols>, f: FileSymbols, scope: Scope, name: string, id: string, ids: NodeIds)
    ensures DeclaredIn(init + [f], scope, name, id, ids) <==> DeclaredIn(init, scope, name, id, ids) || DeclaredInFile(f, scope, name, id, ids)
  {
    var files := init + [f];
    if DeclaredIn(files, scope, name, id, ids) {
      var i :| 0 <= i < |files| && DeclaredInFile(files[i], scope, name, id, ids);
      if i < |init| {
        assert init[i] == files[i];
      }
    }
    if DeclaredIn(init, scope, name, id, ids) {
      var i :| 0 <= i < |init| && DeclaredInFile(init[i], scope, name, id, ids);
      assert files[i] == init[i];
    }
    if DeclaredInFile(f, scope, name, id, ids) {
      assert files[|init|] == f;
    }
  }

  lemma LookupMember(files: seq<FileSymbols>, scope: Scope, name: string, ids: NodeIds, id: string)
    ensures id in Lookup(files, scope, name, ids) <==> DeclaredIn(files, scope, name, id, ids)
  {
    DedupedSortedSpec(ScopedIDs(files, scope, name, ids));
    ScopedIDsMembers(files, scope, name, ids, id);
  }

  /** A lookup entry lists, strictly ascending, exactly the IDs declared under the name in its scope. */
  lemma LookupSpec(files: seq<FileSymbols>, scope: Scope, name: string, ids: NodeIds)
    ensures StrictlyAscending(Lookup(files, scope, name, ids))
    ensures forall id :: id in Lookup(files, scope, name, ids) <==> DeclaredIn(files, scope, name, id, ids)
  {
    DedupedSortedSpec(ScopedIDs(files, scope, name, ids));
    forall id
      ensures id in Lookup(files, scope, name, ids) <==> DeclaredIn(files, scope, name, id, ids)
    {
      LookupMember(files, scope, name, ids, id);
    }
  }

  /** A name declared nowhere in a scope has an empty entry there. */
  lemma LookupEmpty(files: seq<FileSymbols>, scope: Scope, name: string, ids: NodeIds)
    requires forall x :: !DeclaredIn(files, scope, name, x, ids)
    ensures Lookup(files, scope, name, ids) == []
  {
    var l := Lookup(files, scope, name, ids);
    if l != [] {
      LookupMember(files, scope, name, ids, l[0]);
      assert false;
    }
  }

  /** Every scoped declaration is also a declaration anywhere. */
  lemma DeclaredAnywhere(files: seq<FileSymbols>, scope: Scope, name: string, id: string, ids: NodeIds)
    requires DeclaredIn(files, scope, name, id, ids)
    ensures DeclaredIn(files, Anywhere, name, id, ids)
  {
    var i :| 0 <= i < |files| && DeclaredInFile(files[i], scope, name, id, ids);
    var f := files[i];
    var j :| 0 <= j < |f.Symbols| && Declares(f.Path, f.Symbols[j], scope, name) && ids(f.Path, f.Symbols[j]) == id;
    assert Declares(f.Path, f.Symbols[j], Anywhere, name);
    assert DeclaredInFile(f, Anywhere, name, id, ids);
  }

  // ---------------------------------------------------------------------
  // chooseUnique and collectFromFiles

  /** A resolved call: its target IDs and the confidence label. */
  datatype Resolution = Resolution(targets: seq<string>, confidence: string)

  /** chooseUnique */
  function ChooseUnique(ids: seq<string>, confidence: string): Option<Resolution> {
    var d := DedupedSorted(ids);
    if |d| == 1 then Some(Resolution(d, confidence)) else None
  }

  /** chooseUnique succeeds exactly when the IDs name one node, and then returns that node. */
  lemma ChooseUniqueSpec(ids: seq<string>, confidence: string)
    ensures ChooseUnique(ids, confidence).Some? <==> ids != [] && forall k :: 0 <= k < |ids| ==> ids[k] == ids[0]
    ensures ChooseUnique(ids, confidence).Some? ==> ChooseUnique(ids, confidence).value == Resolution([ids[0]], confidence)
  {
    var d := DedupedSorted(ids);
    DedupedSortedSpec(ids);
    if ids != [] && forall k :: 0 <= k < |ids| ==> ids[k] == ids[0] {
      assert ids[0] in d;
      if |d| >= 2 {
        assert d[0] in ids && d[1] in ids;
        LessIrreflexive(d[0]);
        assert false;
      }
    }
    if |d| == 1 {
      forall k | 0 <= k < |ids|
        ensures ids[k] == d[0]
      {
        assert ids[k] in d;
      }
    }
  }

  /** The byFile entries under name of each candidate file, concatenated. */
  function FromFiles(files: seq<FileSymbols>, candidates: seq<string>, name: string, ids: NodeIds): seq<string> {
    if candidates == [] then []
    else
      FromFiles(files, candidates[..|candidates| - 1], name, ids)
      + Lookup(files, InFile(candidates[|candidates| - 1]), name, ids)
  }

  /** collectFromFiles */
  function CollectFromFiles(files: seq<FileSymbols>, candidates: seq<string>, name: string, ids: NodeIds): seq<string> {
    DedupedSorted(FromFiles(files, candidates, name, ids))
  }

  /** Some candidate file declares id under the name. */
  ghost predicate DeclaredInCandidate(files: seq<FileSymbols>, candidates: seq<string>, name: string, id: string, ids: NodeIds) {
    exists c :: c in candidates && DeclaredIn(files, InFile(c), name, id, ids)
  }

  lemma {:induction false} FromFilesMembers(files: seq<FileSymbols>, candidates: seq<string>, name: string, ids: NodeIds, id: string)
    ensures id in FromFiles(files, candidates, name, ids) <==> DeclaredInCandidate(files, candidates, name, id, ids)
    decreases |candidates|
  {
    if candidates != [] {
      var init := candidates[..|candidates| - 1];
      var last := candidates[|candidates| - 1];
      FromFilesMembers(files, init, name, ids, id);
      LookupMember(files, InFile(last), name, ids, id);
      assert candidates == init + [last];
      if DeclaredInCandidate(files, candidates, name, id, ids) {
        var c :| c in candidates && DeclaredIn(files, InFile(c), name, id, ids);
        if c != last {
          assert c in init;
        }
      }
      if DeclaredInCandidate(files, init, name, id, ids) {
        var c :| c in init && DeclaredIn(files, InFile(c), name, id, ids);
        assert c in candidates;
      }
    }
  }

  /** collectFromFiles lists, ascending, exactly the IDs declared under the name in a candidate file. */
  lemma CollectFromFilesSpec(files: seq<FileSymbols>, candidates: seq<string>, name: string, ids: NodeIds)
    ensures StrictlyAscending(CollectFromFiles(files, candidates, name, ids))
    ensures forall id :: id in CollectFromFiles(files, candidates, name, ids) <==> DeclaredInCandidate(files, candidates, name, id, ids)
  {
    DedupedSortedSpec(FromFiles(files, candidates, name, ids));
    forall id
      ensures id in FromFiles(files, candidates, name, ids) <==> DeclaredInCandidate(files, candidates, name, id, ids)
    {
      FromFilesMembers(files, candidates, name, ids, id);
    }
  }

  // ---------------------------------------------------------------------
  // Qualifiers

  predicate IsReceiverWord(s: string) {
    s == "self" || s == "this" || s == "cls"
  }

  /** callIsReceiverScoped */
  predicate CallIsReceiverScoped(call: CallSite) {
    IsReceiverWord(TrimSpace(call.Receiver)) || IsReceiverWord(TrimSpace(call.Qualifier))
  }

  /** primaryQualifier */
  function PrimaryQualifier(value: string): string {
    var v := TrimSpace(value);
    if v == "" then ""
    else
      var idx := Index(v, ".");
      var head := if idx != -1 then v[..idx] else v;
      TrimSpace(TrimPrefix(TrimPrefix(head, "self."), "this."))
  }

  /** Text before the first '.' holds no '.'. */
  lemma BeforeFirstDot(v: string)
    ensures var idx := Index(v, ".");
      '.' !in (if idx != -1 then v[..idx] else v)
  {
    var idx := Index(v, ".");
    var head := if idx != -1 then v[..idx] else v;
    forall k | 0 <= k < |head|
      ensures head[k] != '.'
    {
      OccursAtCharIff(v, '.', k);
    }
  }

  /** Text without '.' has neither "self." nor "this." as a prefix. */
  lemma NoDotNoReceiverPrefix(head: string)
    requires '.' !in head
    ensures TrimPrefix(TrimPrefix(head, "self."), "this.") == head
  {
    if |head| >= 5 {
      assert head[4] in head;
    }
  }

  /**
   * primaryQualifier is the trimmed first '.'-separated segment of the
   * trimmed qualifier; the two "self."/"this." prefix cuts never apply,
   * because the segment holds no '.'.
   */
  lemma PrimaryQualifierFirstSegment(value: string)
    ensures PrimaryQualifier(value) == TrimSpace(Split(TrimSpace(value), ".")[0])
    ensures '.' !in PrimaryQualifier(value)
  {
    var v := TrimSpace(value);
    var idx := Index(v, ".");
    var head := if idx != -1 then v[..idx] else v;
    SplitFirst(v, ".");
    BeforeFirstDot(v);
    NoDotNoReceiverPrefix(head);
    TrimSpaceSubstring(head);
  }

  // ---------------------------------------------------------------------
  // Import alias candidates

  /** The trimmed import path with its quotes removed. */
  function UnquotedImport(importPath: string): string {
    TrimSpace(Trim(importPath, "\"'"))
  }

  /** The trimmed last '/'-separated segment of a path. */
  function LastSegment(p: string): (r: string)
    ensures '/' !in r
  {
    var segs := Split(p, "/");
    SplitPieceFree(p, '/', |segs| - 1);
    TrimSpace(segs[|segs| - 1])
  }

  /** defaultAliasFromImport: the last '/'-separated segment of the unquoted import path. */
  function DefaultAliasFromImport(importPath: string): (r: string)
    ensures '/' !in r
  {
    var p := UnquotedImport(importPath);
    if p == "" then "" else LastSegment(p)
  }

  /** importMatchesFile */
  predicate ImportMatchesFile(sourceFile: string, importPath: string, targetFile: string) {
    var ext := GoPath.Ext(targetFile);
    var targetNoExt := TrimSuffix(targetFile, ext);
    var targetDir := GoPath.Dir(targetFile);
    var targetBase := TrimSuffix(GoPath.Base(targetFile), ext);
    if HasPrefix(importPath, ".") then
      var resolved := GoPath.Clean(GoPath.Join2(GoPath.Dir(sourceFile), importPath));
      resolved == targetNoExt || resolved == targetDir
    else
      var normalizedImport := TrimPrefix(GoPath.ToSlash(importPath), "/");
      var normalizedNoExt := GoPath.ToSlash(targetNoExt);
      var normalizedDir := GoPath.ToSlash(targetDir);
      var normalizedBase := GoPath.ToSlash(targetBase);
      normalizedImport == normalizedNoExt
      || normalizedImport == normalizedDir
      || normalizedImport == normalizedBase
      || HasSuffix(normalizedImport, "/" + normalizedNoExt)
      || HasSuffix(normalizedImport, "/" + normalizedDir)
      || HasSuffix(normalizedImport, "/" + normalizedBase)
  }

  /** The files among allFiles that an unquoted import path matches, in order. */
  function MatchingFiles(sourceFile: string, p: string, allFiles: seq<string>): seq<string> {
    if allFiles == [] then []
    else
      var last := allFiles[|allFiles| - 1];
      MatchingFiles(sourceFile, p, allFiles[..|allFiles| - 1])
      + (if ImportMatchesFile(sourceFile, p, last) then [last] else [])
  }

  /** matchImportCandidates */
  function MatchImportCandidates(sourceFile: string, importPath: string, allFiles: seq<string>): seq<string> {
    var p := UnquotedImport(importPath);
    if p == "" then [] else MatchingFiles(sourceFile, p, allFiles)
  }

  lemma {:induction false} MatchingFilesSpec(sourceFile: string, p: string, allFiles: seq<string>)
    ensures forall t :: t in MatchingFiles(sourceFile, p, allFiles) <==> t in allFiles && ImportMatchesFile(sourceFile, p, t)
    decreases |allFiles|
  {
    if allFiles != [] {
      var init := allFiles[..|allFiles| - 1];
      MatchingFilesSpec(sourceFile, p, init);
      assert allFiles == init + [allFiles[|allFiles| - 1]];
    }
  }

  /** matchImportCandidates keeps exactly the known files that the unquoted import path matches. */
  lemma MatchImportCandidatesSpec(sourceFile: string, importPath: string, allFiles: seq<string>)
    ensures forall t :: t in MatchImportCandidates(sourceFile, importPath, allFiles) <==>
      UnquotedImport(importPath) != "" && t in allFiles && ImportMatchesFile(sourceFile, UnquotedImport(importPath), t)
  {
    MatchingFilesSpec(sourceFile, UnquotedImport(importPath), allFiles);
  }

  /** The explicit aliases of a file, trimmed on both sides, in the key order given. */
  function ExplicitAliases(src: map<string, string>, order: seq<string>): map<string, string>
    requires forall k :: k in order ==> k in src
  {
    if order == [] then map[]
    else
      var k := order[|order| - 1];
      ExplicitAliases(src, order[..|order| - 1])[TrimSpace(k) := TrimSpace(src[k])]
  }

  /**
   * The alias aliasOf(p) of each import p, added where it is non-blank and
   * no alias of that name exists yet.
   */
  function AddDefaultAliases(aliases: map<string, string>, imports: seq<string>, aliasOf: string -> string): map<string, string> {
    if imports == [] then aliases
    else
      var acc := AddDefaultAliases(aliases, imports[..|imports| - 1], aliasOf);
      var p := imports[|imports| - 1];
      var alias := aliasOf(p);
      if alias == "" || alias in acc then acc else acc[alias := p]
  }

  /** Default aliases never displace an existing alias. */
  lemma {:induction false} AddDefaultAliasesKeeps(aliases: map<string, string>, imports: seq<string>, aliasOf: string -> string, a: string)
    requires a in aliases
    ensures a in AddDefaultAliases(aliases, imports, aliasOf) && AddDefaultAliases(aliases, imports, aliasOf)[a] == aliases[a]
    decreases |imports|
  {
    if imports != [] {
      AddDefaultAliasesKeeps(aliases, imports[..|imports| - 1], aliasOf, a);
    }
  }

  /** An added alias is the non-blank alias of one of the imports, mapped to that import. */
  lemma {:induction false} AddDefaultAliasesOrigin(aliases: map<string, string>, imports: seq<string>, aliasOf: string -> string, a: string)
    requires a in AddDefaultAliases(aliases, imports, aliasOf) && a !in aliases
    ensures a != "" && AddDefaultAliases(aliases, imports, aliasOf)[a] in imports
    ensures aliasOf(AddDefaultAliases(aliases, imports, aliasOf)[a]) == a
    decreases |imports|
  {
    var init := imports[..|imports| - 1];
    var acc := AddDefaultAliases(aliases, init, aliasOf);
    if a in acc {
      AddDefaultAliasesOrigin(aliases, init, aliasOf, a);
      var k :| 0 <= k < |init| && init[k] == acc[a];
      assert imports[k] == acc[a];
    } else {
      assert imports[|imports| - 1] in imports;
    }
  }

  /** The alias map buildImportAliasCandidates builds for one source file. */
  function SourceAliases(f: FileSymbols, order: seq<string>): map<string, string>
    requires forall k :: k in order ==> k in f.ImportAliases
  {
    AddDefaultAliases(ExplicitAliases(f.ImportAliases, order), f.Imports, DefaultAliasFromImport)
  }

  /** The candidate files of each alias whose import path matches at least one file. */
  function SourceCandidates(sourcePath: string, aliases: map<string, string>, allFiles: seq<string>): map<string, seq<string>> {
    map a | a in aliases && MatchImportCandidates(sourcePath, aliases[a], allFiles) != []
      :: DedupedSorted(MatchImportCandidates(sourcePath, aliases[a], allFiles))
  }

  function Paths(files: seq<FileSymbols>): (r: seq<string>)
    ensures |r| == |files| && forall i :: 0 <= i < |files| ==> r[i] == files[i].Path
  {
    if files == [] then [] else Paths(files[..|files| - 1]) + [files[|files| - 1].Path]
  }

  /** The key order of each file's ImportAliases, one per file. */
  predicate AliasOrders(files: seq<FileSymbols>, orders: seq<seq<string>>) {
    |orders| == |files| && forall i, k :: 0 <= i < |files| && k in orders[i] ==> k in files[i].ImportAliases
  }

  type AliasCandidates = map<string, map<string, seq<string>>>

  /** The alias map of every file, in parse-result order. */
  function AliasMaps(files: seq<FileSymbols>, orders: seq<seq<string>>): (r: seq<map<string, string>>)
    requires AliasOrders(files, orders)
    ensures |r| == |files|
  {
    seq(|files|, i requires 0 <= i < |files| => SourceAliases(files[i], orders[i]))
  }

  /** The candidate files of every file's aliases, in parse-result order. */
  function CandidateMaps(files: seq<FileSymbols>, aliasMaps: seq<map<string, string>>): (r: seq<map<string, seq<string>>>)
    requires |aliasMaps| == |files|
    ensures |r| == |files|
  {
    seq(|files|, i requires 0 <= i < |files| => SourceCandidates(files[i].Path, aliasMaps[i], Paths(files)))
  }

  /**
   * The result of buildImportAliasCandidates after the first n files, given
   * each file's alias map and the candidates of its aliases.
   */
  function CandidatesFold(files: seq<FileSymbols>, aliasMaps: seq<map<string, string>>, candMaps: seq<map<string, seq<string>>>, n: nat): AliasCandidates
    requires |aliasMaps| == |files| && |candMaps| == |files| && n <= |files|
  {
    if n == 0 then map[]
    else
      var acc := CandidatesFold(files, aliasMaps, candMaps, n - 1);
      if |aliasMaps[n - 1]| == 0 || |candMaps[n - 1]| == 0 then acc else acc[files[n - 1].Path := candMaps[n - 1]]
  }

  /** buildImportAliasCandidates */
  function BuildImportAliasCandidates(files: seq<FileSymbols>, orders: seq<seq<string>>): AliasCandidates
    requires AliasOrders(files, orders)
  {
    var aliasMaps := AliasMaps(files, orders);
    CandidatesFold(files, aliasMaps, CandidateMaps(files, aliasMaps), |files|)
  }

  /** The candidates under one alias are a non-empty ascending list of files of the parse result. */
  predicate CandidateListOk(files: seq<FileSymbols>, l: seq<string>) {
    l != [] && StrictlyAscending(l) && forall t :: t in l ==> t in Paths(files)
  }

  /** Every alias map belongs to a file of the parse result, is non-empty, and holds good candidate lists. */
  predicate CandidatesOk(files: seq<FileSymbols>, out: AliasCandidates) {
    forall s :: s in out ==> s in Paths(files) && out[s] != map[] && forall a :: a in out[s] ==> CandidateListOk(files, out[s][a])
  }

  lemma SourceCandidatesOk(files: seq<FileSymbols>, sourcePath: string, aliases: map<string, string>)
    ensures var c := SourceCandidates(sourcePath, aliases, Paths(files));
      forall a :: a in c ==> a in aliases && CandidateListOk(files, c[a])
  {
    var c := SourceCandidates(sourcePath, aliases, Paths(files));
    forall a | a in c
      ensures a in aliases && CandidateListOk(files, c[a])
    {
      var m := MatchImportCandidates(sourcePath, aliases[a], Paths(files));
      DedupedSortedSpec(m);
      MatchImportCandidatesSpec(sourcePath, aliases[a], Paths(files));
      assert m[0] in DedupedSorted(m);
    }
  }

  lemma CandidatesOkUpdate(files: seq<FileSymbols>, acc: AliasCandidates, path: string, c: map<string, seq<string>>)
    requires CandidatesOk(files, acc) && path in Paths(files) && c != map[]
    requires CandidateMapOk(files, c)
    ensures CandidatesOk(files, acc[path := c])
  {
  }

  /** Every alias in a candidate map has a good candidate list. */
  predicate CandidateMapOk(files: seq<FileSymbols>, c: map<string, seq<string>>) {
    forall a :: a in c ==> CandidateListOk(files, c[a])
  }

  lemma {:induction false} CandidatesFoldOk(files: seq<FileSymbols>, aliasMaps: seq<map<string, string>>, candMaps: seq<map<string, seq<string>>>, n: nat)
    requires |aliasMaps| == |files| && |candMaps| == |files| && n <= |files|
    requires forall i :: 0 <= i < |files| ==> CandidateMapOk(files, candMaps[i])
    ensures CandidatesOk(files, CandidatesFold(files, aliasMaps, candMaps, n))
  {
    if n > 0 {
      CandidatesFoldOk(files, aliasMaps, candMaps, n - 1);
      assert Paths(files)[n - 1] == files[n - 1].Path;
      if |aliasMaps[n - 1]| != 0 && |candMaps[n - 1]| != 0 {
        assert CandidateMapOk(files, candMaps[n - 1]);
        CandidatesOkUpdate(files, CandidatesFold(files, aliasMaps, candMaps, n - 1), files[n - 1].Path, candMaps[n - 1]);
      }
    }
  }

  lemma CandidateMapsOk(files: seq<FileSymbols>, aliasMaps: seq<map<string, string>>)
    requires |aliasMaps| == |files|
    ensures forall i :: 0 <= i < |files| ==> CandidateMapOk(files, CandidateMaps(files, aliasMaps)[i])
  {
    forall i | 0 <= i < |files|
      ensures CandidateMapOk(files, CandidateMaps(files, aliasMaps)[i])
    {
      SourceCandidatesOk(files, files[i].Path, aliasMaps[i]);
    }
  }

  /**
   * buildImportAliasCandidates lists, for files of the parse result only,
   * non-empty alias maps whose every entry is a non-empty ascending list of
   * files of the parse result.
   */
  lemma BuildImportAliasCandidatesOk(files: seq<FileSymbols>, orders: seq<seq<string>>)
    requires AliasOrders(files, orders)
    ensures CandidatesOk(files, BuildImportAliasCandidates(files, orders))
  {
    var aliasMaps := AliasMaps(files, orders);
    CandidateMapsOk(files, aliasMaps);
    CandidatesFoldOk(files, aliasMaps, CandidateMaps(files, aliasMaps), |files|);
  }

  // ---------------------------------------------------------------------
  // resolve

  /**
   * resolve: the target of one call from sourceSymbol in sourceFile. The
   * calling file comes first (its methods for receiver calls, then all its
   * symbols), then the files an import alias names, then the module, then
   * the whole parse result; the first non-empty entry decides, and an
   * ambiguous entry leaves the call unresolved.
   */
  function Resolve(files: seq<FileSymbols>, candidates: AliasCandidates, ids: NodeIds,
                   sourceFile: string, sourceSymbol: Symbol, call: CallSite): Option<Resolution>
  {
    var name := TrimSpace(call.Name);
    var methods := Lookup(files, MethodsOfFile(sourceFile), name, ids);
    var sameFile := Lookup(files, InFile(sourceFile), name, ids);
    if name == "" then None
    else if CallIsReceiverScoped(call) && |methods| > 0 then ChooseUnique(methods, Resolved)
    else if CallIsReceiverScoped(call) && sourceSymbol.Kind == ParserTypes.Method && |sameFile| > 0 then ChooseUnique(sameFile, Resolved)
    else if |sameFile| > 0 then ChooseUnique(sameFile, Resolved)
    else ResolveElsewhere(files, candidates, ids, sourceFile, call, name)
  }

  /** Whether the call's primary qualifier is an import alias of the calling file. */
  predicate AliasMatched(candidates: AliasCandidates, sourceFile: string, qualifier: string) {
    qualifier != "" && sourceFile in candidates && qualifier in candidates[sourceFile]
  }

  /** resolve after the calling file had nothing under the name: import aliases, then the rest. */
  function ResolveElsewhere(files: seq<FileSymbols>, candidates: AliasCandidates, ids: NodeIds,
                            sourceFile: string, call: CallSite, name: string): Option<Resolution>
  {
    var qualifier := PrimaryQualifier(call.Qualifier);
    var matched := AliasMatched(candidates, sourceFile, qualifier);
    var fromAlias := if matched then CollectFromFiles(files, candidates[sourceFile][qualifier], name, ids) else [];
    if |fromAlias| > 0 then ChooseUnique(fromAlias, Heuristic)
    else if qualifier != "" && !CallIsReceiverScoped(call) && !matched then None
    else ResolveNearby(files, ids, sourceFile, name)
  }

  /** resolve's last resorts: the calling file's module, then the whole parse result. */
  function ResolveNearby(files: seq<FileSymbols>, ids: NodeIds, sourceFile: string, name: string): Option<Resolution> {
    var inModule := Lookup(files, InModule(ModuleName(sourceFile)), name, ids);
    var global := Lookup(files, Anywhere, name, ids);
    if |inModule| > 0 then ChooseUnique(inModule, Heuristic)
    else if |global| > 0 then ChooseUnique(global, Heuristic)
    else None
  }

  /** A resolution that names one node declared under the name, with the given label. */
  ghost predicate SoundAs(files: seq<FileSymbols>, r: Resolution, name: string, ids: NodeIds, conf: string) {
    |r.targets| == 1 && r.confidence == conf && DeclaredIn(files, Anywhere, name, r.targets[0], ids)
  }

  /** A unique lookup entry of some scope yields a sound resolution declared in that scope. */
  lemma ChooseFromScope(files: seq<FileSymbols>, scope: Scope, name: string, ids: NodeIds, conf: string)
    requires ChooseUnique(Lookup(files, scope, name, ids), conf).Some?
    ensures var r := ChooseUnique(Lookup(files, scope, name, ids), conf).value;
      SoundAs(files, r, name, ids, conf) && DeclaredIn(files, scope, name, r.targets[0], ids)
  {
    var l := Lookup(files, scope, name, ids);
    ChooseUniqueSpec(l, conf);
    LookupMember(files, scope, name, ids, l[0]);
    DeclaredAnywhere(files, scope, name, l[0], ids);
  }

  lemma ResolveNearbySound(files: seq<FileSymbols>, ids: NodeIds, sourceFile: string, name: string)
    requires ResolveNearby(files, ids, sourceFile, name).Some?
    ensures SoundAs(files, ResolveNearby(files, ids, sourceFile, name).value, name, ids, Heuristic)
  {
    if |Lookup(files, InModule(ModuleName(sourceFile)), name, ids)| > 0 {
      ChooseFromScope(files, InModule(ModuleName(sourceFile)), name, ids, Heuristic);
    } else {
      ChooseFromScope(files, Anywhere, name, ids, Heuristic);
    }
  }

  lemma ResolveElsewhereSound(files: seq<FileSymbols>, candidates: AliasCandidates, ids: NodeIds,
                              sourceFile: string, call: CallSite, name: string)
    requires ResolveElsewhere(files, candidates, ids, sourceFile, call, name).Some?
    ensures SoundAs(files, ResolveElsewhere(files, candidates, ids, sourceFile, call, name).value, name, ids, Heuristic)
  {
    var qualifier := PrimaryQualifier(call.Qualifier);
    if AliasMatched(candidates, sourceFile, qualifier) {
      var cands := candidates[sourceFile][qualifier];
      var fromAlias := CollectFromFiles(files, cands, name, ids);
      if |fromAlias| > 0 {
        ChooseUniqueSpec(fromAlias, Heuristic);
        CollectFromFilesSpec(files, cands, name, ids);
        assert fromAlias[0] in fromAlias;
        var c :| c in cands && DeclaredIn(files, InFile(c), name, fromAlias[0], ids);
        DeclaredAnywhere(files, InFile(c), name, fromAlias[0], ids);
        return;
      }
    }
    ResolveNearbySound(files, ids, sourceFile, name);
  }

  /** A method of a file is a symbol of that file. */
  lemma MethodsAreInFile(files: seq<FileSymbols>, sourceFile: string, name: string, id: string, ids: NodeIds)
    requires DeclaredIn(files, MethodsOfFile(sourceFile), name, id, ids)
    ensures DeclaredIn(files, InFile(sourceFile), name, id, ids)
  {
    var i :| 0 <= i < |files| && DeclaredInFile(files[i], MethodsOfFile(sourceFile), name, id, ids);
    var f := files[i];
    var j :| 0 <= j < |f.Symbols| && Declares(f.Path, f.Symbols[j], MethodsOfFile(sourceFile), name) && ids(f.Path, f.Symbols[j]) == id;
    assert Declares(f.Path, f.Symbols[j], InFile(sourceFile), name);
    assert DeclaredInFile(f, InFile(sourceFile), name, id, ids);
  }

  /**
   * Soundness of resolve: a resolution names exactly one node, declared
   * under the trimmed call name; "resolved" targets are declared in the
   * calling file; every other resolution is "heuristic".
   */
  lemma ResolveSound(files: seq<FileSymbols>, candidates: AliasCandidates, ids: NodeIds,
                     sourceFile: string, sourceSymbol: Symbol, call: CallSite)
    requires Resolve(files, candidates, ids, sourceFile, sourceSymbol, call).Some?
    ensures var r := Resolve(files, candidates, ids, sourceFile, sourceSymbol, call).value;
      var name := TrimSpace(call.Name);
      && name != ""
      && (SoundAs(files, r, name, ids, Resolved) || SoundAs(files, r, name, ids, Heuristic))
      && (r.confidence == Resolved ==> DeclaredIn(files, InFile(sourceFile), name, r.targets[0], ids))
  {
    var name := TrimSpace(call.Name);
    var methods := Lookup(files, MethodsOfFile(sourceFile), name, ids);
    var sameFile := Lookup(files, InFile(sourceFile), name, ids);
    if CallIsReceiverScoped(call) && |methods| > 0 {
      ChooseFromScope(files, MethodsOfFile(sourceFile), name, ids, Resolved);
      MethodsAreInFile(files, sourceFile, name, ChooseUnique(methods, Resolved).value.targets[0], ids);
    } else if |sameFile| > 0 {
      ChooseFromScope(files, InFile(sourceFile), name, ids, Resolved);
    } else {
      ResolveElsewhereSound(files, candidates, ids, sourceFile, call, name);
    }
  }

  /** A scoped lookup that is non-empty and declares only id is exactly [id]. */
  lemma LookupSingle(files: seq<FileSymbols>, scope: Scope, name: string, ids: NodeIds, id: string)
    requires DeclaredIn(files, scope, name, id, ids)
    requires forall x :: DeclaredIn(files, scope, name, x, ids) ==> x == id
    ensures Lookup(files, scope, name, ids) == [id]
  {
    LookupSpec(files, scope, name, ids);
    var l := Lookup(files, scope, name, ids);
    assert forall x :: x in l <==> x in [id];
    AscendingUnique(l, [id]);
  }

  /** Declarations in a narrower scope are declarations of the unique node. */
  lemma OnlyDeclaration(files: seq<FileSymbols>, scope: Scope, name: string, ids: NodeIds, id: string)
    requires forall x :: DeclaredIn(files, Anywhere, name, x, ids) ==> x == id
    ensures forall x :: DeclaredIn(files, scope, name, x, ids) ==> x == id
  {
    forall x | DeclaredIn(files, scope, name, x, ids)
      ensures x == id
    {
      DeclaredAnywhere(files, scope, name, x, ids);
    }
  }

  /** With a single declaring node and nothing in the calling file, the module or global entry is that node. */
  lemma ResolveNearbyUnique(files: seq<FileSymbols>, ids: NodeIds, sourceFile: string, name: string, id: string)
    requires DeclaredIn(files, Anywhere, name, id, ids)
    requires forall x :: DeclaredIn(files, Anywhere, name, x, ids) ==> x == id
    ensures ResolveNearby(files, ids, sourceFile, name) == Some(Resolution([id], Heuristic))
  {
    var scope := InModule(ModuleName(sourceFile));
    ChooseUniqueSpec([id], Heuristic);
    OnlyDeclaration(files, scope, name, ids, id);
    if DeclaredIn(files, scope, name, id, ids) {
      LookupSingle(files, scope, name, ids, id);
    } else {
      LookupEmpty(files, scope, name, ids);
      LookupSingle(files, Anywhere, name, ids, id);
    }
  }

  /**
   * A plain call (no receiver word, no qualifier) to a name that exactly one
   * node declares resolves to that node: "resolved" when the node is in the
   * calling file, "heuristic" otherwise.
   */
  lemma ResolveUniqueName(files: seq<FileSymbols>, candidates: AliasCandidates, ids: NodeIds,
                          sourceFile: string, sourceSymbol: Symbol, call: CallSite, id: string)
    requires TrimSpace(call.Name) != ""
    requires !CallIsReceiverScoped(call) && TrimSpace(call.Qualifier) == ""
    requires DeclaredIn(files, Anywhere, TrimSpace(call.Name), id, ids)
    requires forall x :: DeclaredIn(files, Anywhere, TrimSpace(call.Name), x, ids) ==> x == id
    ensures Resolve(files, candidates, ids, sourceFile, sourceSymbol, call) ==
      Some(Resolution([id], if DeclaredIn(files, InFile(sourceFile), TrimSpace(call.Name), id, ids) then Resolved else Heuristic))
  {
    var name := TrimSpace(call.Name);
    ChooseUniqueSpec([id], Resolved);
    OnlyDeclaration(files, InFile(sourceFile), name, ids, id);
    if DeclaredIn(files, InFile(sourceFile), name, id, ids) {
      LookupSingle(files, InFile(sourceFile), name, ids, id);
    } else {
      LookupEmpty(files, InFile(sourceFile), name, ids);
      assert PrimaryQualifier(call.Qualifier) == "";
      ResolveNearbyUnique(files, ids, sourceFile, name, id);
    }
  }

  /**
   * A qualified call whose qualifier is neither a receiver word nor an
   * import alias of the calling file, and whose name the calling file does
   * not declare, is left unresolved rather than guessed.
   */
  lemma ResolveUnknownQualifier(files: seq<FileSymbols>, candidates: AliasCandidates, ids: NodeIds,
                                sourceFile: string, sourceSymbol: Symbol, call: CallSite)
    requires !CallIsReceiverScoped(call) && PrimaryQualifier(call.Qualifier) != ""
    requires !AliasMatched(candidates, sourceFile, PrimaryQualifier(call.Qualifier))
    requires forall x :: !DeclaredIn(files, InFile(sourceFile), TrimSpace(call.Name), x, ids)
    ensures Resolve(files, candidates, ids, sourceFile, sourceSymbol, call) == None
  {
    var name := TrimSpace(call.Name);
    LookupEmpty(files, InFile(sourceFile), name, ids);
    UnknownQualifierElsewhere(files, candidates, ids, sourceFile, call, name);
  }

  lemma UnknownQualifierElsewhere(files: seq<FileSymbols>, candidates: AliasCandidates, ids: NodeIds,
                                  sourceFile: string, call: CallSite, name: string)
    requires !CallIsReceiverScoped(call) && PrimaryQualifier(call.Qualifier) != ""
    requires !AliasMatched(candidates, sourceFile, PrimaryQualifier(call.Qualifier))
    ensures ResolveElsewhere(files, candidates, ids, sourceFile, call, name) == None
  {
  }

  /** A name that two different nodes declare, and that the calling file and its module do not, is left unresolved. */
  lemma ResolveAmbiguousGlobal(files: seq<FileSymbols>, candidates: AliasCandidates, ids: NodeIds,
                               sourceFile: string, sourceSymbol: Symbol, call: CallSite, a: string, b: string)
    requires !CallIsReceiverScoped(call) && TrimSpace(call.Qualifier) == ""
    requires a != b
    requires DeclaredIn(files, Anywhere, TrimSpace(call.Name), a, ids) && DeclaredIn(files, Anywhere, TrimSpace(call.Name), b, ids)
    requires forall x :: !DeclaredIn(files, InFile(sourceFile), TrimSpace(call.Name), x, ids)
    requires forall x :: !DeclaredIn(files, InModule(ModuleName(sourceFile)), TrimSpace(call.Name), x, ids)
    ensures Resolve(files, candidates, ids, sourceFile, sourceSymbol, call) == None
  {
    var name := TrimSpace(call.Name);
    var global := Lookup(files, Anywhere, name, ids);
    LookupEmpty(files, InFile(sourceFile), name, ids);
    LookupEmpty(files, InModule(ModuleName(sourceFile)), name, ids);
    assert PrimaryQualifier(call.Qualifier) == "";
    LookupMember(files, Anywhere, name, ids, a);
    LookupMember(files, Anywhere, name, ids, b);
    ChooseUniqueSpec(global, Heuristic);
    var ka :| 0 <= ka < |global| && global[ka] == a;
    var kb :| 0 <= kb < |global| && global[kb] == b;
    assert global[ka] != global[kb];
  }
}
