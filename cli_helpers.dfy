/**
 * The command helpers of internal/cli/helpers.go: which generated outputs a
 * format requires, recording and comparing their hashes, the per-module
 * artifacts of the text format, and the small list helpers the commands
 * share.
 *
 * The file system is a parameter: a hash read of an output path is a
 * `HashRead`, the paths whose os.Stat succeeds are a set, and the matches
 * of the modules glob are a list of relative paths. The names of the
 * output package's files are constants; the modules directory, whose name
 * the output package defines, is a parameter.
 */
module CliHelpers {
  import opened Wrappers
  import opened Seqs
  import opened Sorting
  import opened Strs
  import opened ParserTypes
  import GoPath
  import St = State
  import FileutilState
  import Graph

  // ---------------------------------------------------------------------
  // Formats and output files

  datatype Format = Text | JSONL | Unsupported(name: string)

  const IndexFile := "index.txt"
  const GraphFile := "graph.txt"
  const SymbolsFile := "symbols.jsonl"
  const EdgesFile := "edges.jsonl"
  const ManifestFile := "manifest.json"
  /** nav.NavigationIndexFile */
  const NavigationIndexFile := "nav-index.json"
  /** search.IndexFile */
  const SearchIndexFile := "search-index.json"

  /**
   * RequiredOutputFiles: the fixed outputs of each format, both ending with
   * the navigation and search indexes; none for an unknown format.
   */
  function RequiredOutputFiles(format: Format): (r: seq<string>)
    ensures format.Unsupported? <==> r == []
    ensures r != [] ==> |r| >= 2 && r[|r| - 2] == NavigationIndexFile && r[|r| - 1] == SearchIndexFile
    ensures format.Text? ==> IndexFile in r && GraphFile in r && SymbolsFile !in r
    ensures format.JSONL? ==> SymbolsFile in r && EdgesFile in r && ManifestFile in r && IndexFile !in r
    ensures NoDups(r)
  {
    match format
    case Text => [IndexFile, GraphFile, NavigationIndexFile, SearchIndexFile]
    case JSONL => [SymbolsFile, EdgesFile, ManifestFile, NavigationIndexFile, SearchIndexFile]
    case Unsupported(_) => []
  }

  // ---------------------------------------------------------------------
  // Module artifacts of the text format

  /** strings.ReplaceAll with one-character old and new strings. */
  function ReplaceChar(s: string, from: char, to: char): (r: string)
    ensures |r| == |s|
    ensures forall i :: 0 <= i < |s| ==> r[i] == (if s[i] == from then to else s[i])
  {
    seq(|s|, i requires 0 <= i < |s| => if s[i] == from then to else s[i])
  }

  /**
   * The module a tracked file belongs to: the first segment of its
   * directory, or "root" when the file sits at the top (its directory is
   * ".") or the first segment is empty.
   */
  function ModuleOf(file: string): (m: string)
    ensures m == "root" || (m != "" && '/' !in m)
  {
    var dir := GoPath.Dir(file);
    if dir == "." then "root"
    else
      var parts := Split(GoPath.ToSlash(dir), "/");
      SplitPieceFree(GoPath.ToSlash(dir), '/', 0);
      if parts[0] != "" then parts[0] else "root"
  }

  /** The file name of a module's artifact. */
  function ModuleFileName(name: string): string {
    ReplaceChar(name, '/', '_') + ".txt"
  }

  /** The artifact path expected for a tracked file. */
  function ModuleArtifact(modulesDir: string, file: string): string {
    GoPath.Join2(modulesDir, ModuleFileName(ModuleOf(file)))
  }

  /** The artifact paths expected for a set of tracked files. */
  function ModuleArtifacts(files: set<string>, modulesDir: string): set<string> {
    set f | f in files :: ModuleArtifact(modulesDir, f)
  }

  /** A file at the top of the tree belongs to the module "root". */
  lemma TopLevelFileIsRoot(file: string)
    requires '/' !in file
    ensures ModuleOf(file) == "root"
  {
    LastIndexChar(file, '/');
    assert file[..0] == "";
  }

  /** A module name never holds '/', so its artifact is the name plus ".txt". */
  lemma ModuleFileNamePlain(file: string)
    ensures ModuleFileName(ModuleOf(file)) == ModuleOf(file) + ".txt"
  {
    var m := ModuleOf(file);
    assert ReplaceChar(m, '/', '_') == m;
  }

  /** Two files of one module share one artifact. */
  lemma SameModuleSameArtifact(modulesDir: string, f: string, g: string)
    requires ModuleOf(f) == ModuleOf(g)
    ensures ModuleArtifact(modulesDir, f) == ModuleArtifact(modulesDir, g)
  {
  }

  /**
   * expectedTextModuleArtifacts: nothing for a nil state; otherwise each
   * expected artifact once, in ascending order.
   */
  method ExpectedTextModuleArtifacts(st: St.State?, modulesDir: string) returns (out: seq<string>)
    ensures st == null ==> out == []
    ensures st != null ==> StrictlyAscending(out)
    ensures st != null ==> forall a :: a in out <==> a in ModuleArtifacts(st.TrackedFiles().Keys, modulesDir)
  {
    if st == null || |st.TrackedFiles()| == 0 {
      return [];
    }
    var files := st.TrackedFiles().Keys;
    var modules: set<string> := {};
    var rest := files;
    while rest != {}
      invariant rest <= files
      invariant modules == ModuleArtifacts(files - rest, modulesDir)
      decreases |rest|
    {
      var file :| file in rest;
      modules := modules + {ModuleArtifact(modulesDir, file)};
      rest := rest - {file};
    }
    assert files - rest == files;
    out := St.SortedMembers(modules);
  }

  // ---------------------------------------------------------------------
  // Recording output hashes

  /** The outcome of hashing one output file. */
  datatype HashRead = Hashed(hash: string) | Missing | Unreadable(msg: string)

  datatype RecordError = UnsupportedFormat(format: string) | HashFailed(path: string, msg: string)

  /**
   * The outputs RecordOutputHashes hashes, relative to the context
   * directory: the format's fixed files (with the module files the glob
   * found, for text), then the navigation and search indexes.
   */
  function OutputPaths(format: Format, moduleFiles: seq<string>): seq<string> {
    match format
    case Text => [IndexFile, GraphFile] + moduleFiles + [NavigationIndexFile, SearchIndexFile]
    case JSONL => [SymbolsFile, EdgesFile, ManifestFile, NavigationIndexFile, SearchIndexFile]
    case Unsupported(_) => []
  }

  /** The hash of each path that could be hashed; a missing file is skipped. */
  function HashesOf(paths: seq<string>, read: string -> HashRead): map<string, string> {
    if paths == [] then map[]
    else
      var m := HashesOf(paths[..|paths| - 1], read);
      var p := paths[|paths| - 1];
      if read(p).Hashed? then m[p := read(p).hash] else m
  }

  /** A path is recorded exactly when it is listed and its hash could be read, with that hash. */
  lemma {:induction false} HashesOfMembers(paths: seq<string>, read: string -> HashRead)
    ensures forall p :: p in HashesOf(paths, read) <==> p in paths && read(p).Hashed?
    ensures forall p :: p in HashesOf(paths, read) ==> HashesOf(paths, read)[p] == read(p).hash
  {
    if paths != [] {
      var init := paths[..|paths| - 1];
      HashesOfMembers(init, read);
      assert paths == init + [paths[|paths| - 1]];
    }
  }

  /** Every required output of a known format is among the paths that get hashed. */
  lemma RequiredAreRecorded(format: Format, moduleFiles: seq<string>)
    ensures forall f :: f in RequiredOutputFiles(format) ==> f in OutputPaths(format, moduleFiles)
  {
  }

  /** Hashing one more path adds its hash when it could be read. */
  lemma HashesOfStep(paths: seq<string>, i: int, read: string -> HashRead)
    requires 0 <= i < |paths|
    ensures HashesOf(paths[..i + 1], read) ==
      if read(paths[i]).Hashed? then HashesOf(paths[..i], read)[paths[i] := read(paths[i]).hash]
      else HashesOf(paths[..i], read)
  {
    assert paths[..i + 1][..i] == paths[..i];
  }

  /** Path i is the first whose hash could not be read. */
  ghost predicate FirstUnreadable(paths: seq<string>, read: string -> HashRead, i: int) {
    && 0 <= i < |paths|
    && read(paths[i]).Unreadable?
    && forall j :: 0 <= j < i ==> !read(paths[j]).Unreadable?
  }

  /**
   * The loop of RecordOutputHashes: each path is hashed in order into the
   * (reset) map; a missing file is skipped, any other read error stops the
   * walk with the hashes recorded so far.
   */
  method HashOutputs(st: St.State, paths: seq<string>, read: string -> HashRead) returns (r: Result<(), RecordError>)
    requires st.OutputHashes == Some(map[])
    modifies st
    ensures st.Version == old(st.Version) && st.ParserVersion == old(st.ParserVersion) && st.Files == old(st.Files)
    ensures r.Success? <==> forall j :: 0 <= j < |paths| ==> !read(paths[j]).Unreadable?
    ensures r.Success? ==> st.OutputHashes == Some(HashesOf(paths, read))
    ensures r.Failure? ==> exists i :: (FirstUnreadable(paths, read, i) &&
      r.error == HashFailed(paths[i], read(paths[i]).msg) && st.OutputHashes == Some(HashesOf(paths[..i], read)))
  {
    var i := 0;
    while i < |paths|
      invariant 0 <= i <= |paths|
      invariant st.OutputHashes == Some(HashesOf(paths[..i], read))
      invariant forall j :: 0 <= j < i ==> !read(paths[j]).Unreadable?
      invariant st.Version == old(st.Version) && st.ParserVersion == old(st.ParserVersion) && st.Files == old(st.Files)
    {
      HashesOfStep(paths, i, read);
      match read(paths[i]) {
        case Missing =>
        case Unreadable(msg) =>
          assert FirstUnreadable(paths, read, i);
          return Failure(HashFailed(paths[i], msg));
        case Hashed(hash) =>
          st.SetOutputHash(paths[i], hash);
      }
      i := i + 1;
    }
    assert paths[..i] == paths;
    return Success(());
  }

  /**
   * RecordOutputHashes: the stored output hashes are reset, then the
   * format's output paths are hashed in order. An unknown format fails
   * after the reset.
   */
  method RecordOutputHashes(st: St.State, format: Format, moduleFiles: seq<string>, read: string -> HashRead)
      returns (r: Result<(), RecordError>)
    modifies st
    ensures st.Version == old(st.Version) && st.ParserVersion == old(st.ParserVersion) && st.Files == old(st.Files)
    ensures format.Unsupported? ==> r == Failure(UnsupportedFormat(format.name)) && st.OutputHashes == Some(map[])
    ensures var paths := OutputPaths(format, moduleFiles);
      !format.Unsupported? ==> (r.Success? <==> forall j :: 0 <= j < |paths| ==> !read(paths[j]).Unreadable?)
    ensures r.Success? ==> st.OutputHashes == Some(HashesOf(OutputPaths(format, moduleFiles), read))
    ensures var paths := OutputPaths(format, moduleFiles);
      !format.Unsupported? && r.Failure? ==> exists i :: (FirstUnreadable(paths, read, i) &&
        r.error == HashFailed(paths[i], read(paths[i]).msg) && st.OutputHashes == Some(HashesOf(paths[..i], read)))
  {
    st.OutputHashes := Some(map[]);
    var paths: seq<string>;
    match format {
      case Text =>
        paths := [IndexFile, GraphFile] + moduleFiles;
      case JSONL =>
        paths := [SymbolsFile, EdgesFile, ManifestFile];
      case Unsupported(name) =>
        return Failure(UnsupportedFormat(name));
    }
    paths := paths + [NavigationIndexFile, SearchIndexFile];
    assert paths == OutputPaths(format, moduleFiles);
    r := HashOutputs(st, paths, read);
  }

  // ---------------------------------------------------------------------
  // Cloning and comparing output hashes

  /** CloneOutputHashes: a new map with the same entries; a nil map gives an empty one. */
  method CloneOutputHashes(input: Option<map<string, string>>) returns (out: map<string, string>)
    ensures input.None? ==> out == map[]
    ensures input.Some? ==> out == input.value
  {
    out := map[];
    if input.None? {
      return;
    }
    var m := input.value;
    var rest := m.Keys;
    while rest != {}
      invariant rest <= m.Keys
      invariant out.Keys == m.Keys - rest
      invariant forall k :: k in out ==> out[k] == m[k]
      decreases |rest|
    {
      var k :| k in rest;
      out := out[k := m[k]];
      rest := rest - {k};
    }
    assert out.Keys == m.Keys;
  }

  /** Reading a Go map: a missing key reads as "". */
  function Lookup(m: map<string, string>, k: string): string {
    if k in m then m[k] else ""
  }

  /** The keys of seen that read differently before and after. */
  function Differing(seen: set<string>, before: map<string, string>, after: map<string, string>): set<string> {
    set f | f in seen && Lookup(before, f) != Lookup(after, f)
  }

  /** The outputs whose hash reads differently before and after. */
  function Rewritten(before: map<string, string>, after: map<string, string>): set<string> {
    Differing(before.Keys + after.Keys, before, after)
  }

  /**
   * Counting rewritten outputs is symmetric, finds nothing exactly when
   * every key reads the same in both maps (so an entry hashed "" counts as
   * absent), and finds nothing between equal maps.
   */
  lemma RewrittenProperties(before: map<string, string>, after: map<string, string>)
    ensures Rewritten(before, after) == Rewritten(after, before)
    ensures Rewritten(before, after) == {} <==> forall f :: Lookup(before, f) == Lookup(after, f)
    ensures before == after ==> |Rewritten(before, after)| == 0
  {
    if Rewritten(before, after) == {} {
      forall f
        ensures Lookup(before, f) == Lookup(after, f)
      {
        if f !in before && f !in after {
        } else {
          assert f !in Rewritten(before, after);
        }
      }
    }
  }

  /** The keys of m added to seen. */
  method AddKeys(seen0: set<string>, m: map<string, string>) returns (seen: set<string>)
    ensures seen == seen0 + m.Keys
  {
    seen := seen0;
    var rest := m.Keys;
    while rest != {}
      invariant rest <= m.Keys
      invariant seen == seen0 + (m.Keys - rest)
      decreases |rest|
    {
      var k :| k in rest;
      seen := seen + {k};
      rest := rest - {k};
    }
  }

  /** CountRewrittenOutputs: how many outputs of either map read differently in the other. */
  method CountRewrittenOutputs(before: map<string, string>, after: map<string, string>) returns (rewritten: nat)
    ensures rewritten == |Rewritten(before, after)|
  {
    var seen := AddKeys({}, before);
    seen := AddKeys(seen, after);
    assert seen == before.Keys + after.Keys;
    rewritten := CountDiffering(seen, before, after);
  }

  /** The counting loop of CountRewrittenOutputs. */
  method CountDiffering(seen: set<string>, before: map<string, string>, after: map<string, string>) returns (n: nat)
    ensures n == |Differing(seen, before, after)|
  {
    n := 0;
    var rest := seen;
    ghost var counted: set<string> := {};
    while rest != {}
      invariant rest <= seen
      invariant forall f :: f in counted <==> f in seen && f !in rest && Lookup(before, f) != Lookup(after, f)
      invariant n == |counted|
      decreases |rest|
    {
      var file :| file in rest;
      if Lookup(before, file) != Lookup(after, file) {
        counted := counted + {file};
        n := n + 1;
      }
      rest := rest - {file};
    }
    assert counted == Differing(seen, before, after);
  }

  // ---------------------------------------------------------------------
  // Deciding whether outputs need a refresh

  /** An output is stale when no hash is recorded for it or it is not on disk. */
  predicate Stale(hashes: map<string, string>, present: set<string>, file: string) {
    file !in hashes || file !in present
  }

  /** The first stale file of the list, if any. */
  method FindStale(hashes: map<string, string>, present: set<string>, files: seq<string>) returns (r: bool)
    ensures r <==> exists i :: 0 <= i < |files| && Stale(hashes, present, files[i])
  {
    for i := 0 to |files|
      invariant forall j :: 0 <= j < i ==> !Stale(hashes, present, files[j])
    {
      if files[i] !in hashes || files[i] !in present {
        return true;
      }
    }
    return false;
  }

  /**
   * OutputsNeedRefresh: some required output, or for the text format some
   * expected module artifact, has no recorded hash or is not on disk.
   * `present` holds the relative paths whose os.Stat succeeds. The state
   * is read only when the format requires outputs, so only then must it be
   * non-nil.
   */
  method OutputsNeedRefresh(st: St.State?, format: Format, modulesDir: string, present: set<string>) returns (r: bool)
    requires st != null || format.Unsupported?
    ensures format.Unsupported? ==> !r
    ensures st != null ==> (r <==>
      (exists f :: f in RequiredOutputFiles(format) && Stale(st.StoredOutputHashes(), present, f)) ||
      (format.Text? && exists a :: (a in ModuleArtifacts(st.TrackedFiles().Keys, modulesDir) &&
        Stale(st.StoredOutputHashes(), present, a))))
  {
    var required := RequiredOutputFiles(format);
    if required == [] {
      return false;
    }
    r := FindStale(st.StoredOutputHashes(), present, required);
    if r {
      return;
    }
    if format.Text? {
      var artifacts := ExpectedTextModuleArtifacts(st, modulesDir);
      r := FindStale(st.StoredOutputHashes(), present, artifacts);
    }
  }

  /**
   * After a successful record in which every required output and every
   * module artifact was hashed, and all of them are on disk, no refresh is
   * needed.
   */
  lemma RecordedOutputsFresh(format: Format, moduleFiles: seq<string>, read: string -> HashRead,
                             files: set<string>, modulesDir: string, present: set<string>)
    requires forall f :: f in RequiredOutputFiles(format) ==> read(f).Hashed? && f in present
    requires format.Text? ==> forall a :: a in ModuleArtifacts(files, modulesDir) ==>
      a in moduleFiles && read(a).Hashed? && a in present
    ensures forall f :: f in RequiredOutputFiles(format) ==>
      !Stale(HashesOf(OutputPaths(format, moduleFiles), read), present, f)
    ensures format.Text? ==> forall a :: a in ModuleArtifacts(files, modulesDir) ==>
      !Stale(HashesOf(OutputPaths(format, moduleFiles), read), present, a)
  {
    RequiredAreRecorded(format, moduleFiles);
    HashesOfMembers(OutputPaths(format, moduleFiles), read);
  }

  // ---------------------------------------------------------------------
  // List helpers

  /** CollectFilePaths: the paths of the parsed files, sorted. */
  method CollectFilePaths(files: seq<FileSymbols>) returns (paths: seq<string>)
    ensures SortedBy(paths, LessEq)
    ensures multiset(paths) == multiset(Keys(files, FileutilState.Path))
  {
    paths := [];
    for i := 0 to |files|
      invariant paths == Keys(files[..i], FileutilState.Path)
    {
      assert files[..i + 1] == files[..i] + [files[i]];
      KeysSnoc(files[..i], files[i], FileutilState.Path);
      paths := paths + [files[i].Path];
    }
    assert files[..|files|] == files;
    SortStringsSorted(paths);
    paths := SortStrings(paths);
  }

  /** MaxInt */
  function MaxInt(a: int, b: int): (r: int)
    ensures r >= a && r >= b
    ensures r == a || r == b
  {
    if a > b then a else b
  }

  /** A file passes the language filter when its language maps to true; a missing key reads false. */
  predicate Selected(filter: map<string, bool>, file: FileSymbols) {
    file.Language in filter && filter[file.Language]
  }

  function Identity(file: FileSymbols): FileSymbols {
    file
  }

  /** The files that pass a non-empty filter, in order. */
  function Filtered(files: seq<FileSymbols>, filter: map<string, bool>): seq<FileSymbols> {
    MapFilter(files, Identity, f => Selected(filter, f))
  }

  /** Filtering keeps exactly the selected files, and filtering twice is filtering once. */
  lemma FilteredProperties(files: seq<FileSymbols>, filter: map<string, bool>)
    ensures forall f :: f in Filtered(files, filter) <==> f in files && Selected(filter, f)
    ensures Filtered(Filtered(files, filter), filter) == Filtered(files, filter)
  {
    var keep := f => Selected(filter, f);
    MapFilterMembers(files, Identity, keep);
    var r := Filtered(files, filter);
    forall f | f in files && Selected(filter, f)
      ensures f in r
    {
      var k :| 0 <= k < |files| && files[k] == f;
    }
    MapFilterMembers(r, Identity, keep);
    forall k | 0 <= k < |r|
      ensures keep(r[k]) && Identity(r[k]) == r[k]
    {
      assert r[k] in r;
    }
    MapFilterFixed(r, Identity, keep);
  }

  /** FilterFilesByLanguage: an empty filter keeps the input; otherwise the selected files in order. */
  method FilterFilesByLanguage(files: seq<FileSymbols>, filter: map<string, bool>) returns (out: seq<FileSymbols>)
    ensures |filter| == 0 ==> out == files
    ensures |filter| != 0 ==> out == Filtered(files, filter)
  {
    if |filter| == 0 {
      return files;
    }
    out := [];
    for i := 0 to |files|
      invariant out == Filtered(files[..i], filter)
    {
      assert files[..i + 1] == files[..i] + [files[i]];
      MapFilterSnoc(files[..i], files[i], Identity, f => Selected(filter, f));
      if files[i].Language in filter && filter[files[i].Language] {
        out := out + [files[i]];
      }
    }
    assert files[..|files|] == files;
  }

  // ---------------------------------------------------------------------
  // Persisting a fresh state

  /** The paths of the files, as a set. */
  function PathSet(files: seq<FileSymbols>): set<string> {
    if files == [] then {} else PathSet(files[..|files| - 1]) + {files[|files| - 1].Path}
  }

  /** A path is in the set exactly when some file has it. */
  lemma {:induction false} PathSetMembers(files: seq<FileSymbols>)
    ensures forall p :: p in PathSet(files) <==> exists i :: 0 <= i < |files| && files[i].Path == p
  {
    if files != [] {
      var init := files[..|files| - 1];
      PathSetMembers(init);
      forall p | p in PathSet(files)
        ensures exists i :: 0 <= i < |files| && files[i].Path == p
      {
        if p in PathSet(init) {
          var i :| 0 <= i < |init| && init[i].Path == p;
          assert files[i] == init[i];
        } else {
          assert files[|files| - 1].Path == p;
        }
      }
      forall i | 0 <= i < |files|
        ensures files[i].Path in PathSet(files)
      {
        if i < |init| {
          assert init[i] == files[i];
        }
      }
    }
  }

  /** The entry SetFileData writes for a parsed file: its data and no dependencies. */
  function EntryOf(file: FileSymbols): St.FileState {
    St.FileState(file.Hash, file.Language, file.Symbols, file.Imports, file.ImportAliases, [])
  }

  /** The tracked files after SetFileData has stored each parsed file in turn. */
  function Persisted(base: St.Files, files: seq<FileSymbols>): St.Files {
    if files == [] then base else Persisted(base, files[..|files| - 1])[files[|files| - 1].Path := EntryOf(files[|files| - 1])]
  }

  /** Index i holds the last parsed file with its path. */
  predicate LastOfPath(files: seq<FileSymbols>, i: int) {
    0 <= i < |files| && forall j :: i < j < |files| ==> files[j].Path != files[i].Path
  }

  /**
   * Storing the parsed files adds exactly their paths, leaves every other
   * entry alone, and leaves under each path the entry of the last parsed
   * file with that path.
   */
  lemma {:induction false} PersistedEntries(base: St.Files, files: seq<FileSymbols>)
    ensures forall p :: p in Persisted(base, files) <==> p in base || p in PathSet(files)
    ensures forall p :: p in base && p !in PathSet(files) ==> Persisted(base, files)[p] == base[p]
    ensures forall i :: LastOfPath(files, i) ==>
      files[i].Path in Persisted(base, files) && Persisted(base, files)[files[i].Path] == EntryOf(files[i])
  {
    if files != [] {
      var init := files[..|files| - 1];
      PersistedEntries(base, init);
      forall i | LastOfPath(files, i)
        ensures files[i].Path in Persisted(base, files) && Persisted(base, files)[files[i].Path] == EntryOf(files[i])
      {
        if i < |init| {
          assert LastOfPath(init, i);
          assert files[|files| - 1].Path != files[i].Path;
          assert init[i] == files[i];
        }
      }
    }
  }

  /** The loop of PersistState that stores every parsed file. */
  method StoreFiles(st: St.State, files: seq<FileSymbols>)
    requires st.Files.Some?
    modifies st
    ensures st.Files == Some(Persisted(old(st.TrackedFiles()), files))
    ensures st.Version == old(st.Version) && st.ParserVersion == old(st.ParserVersion)
    ensures st.OutputHashes == old(st.OutputHashes)
  {
    for i := 0 to |files|
      invariant st.Files == Some(Persisted(old(st.TrackedFiles()), files[..i]))
      invariant st.Version == old(st.Version) && st.ParserVersion == old(st.ParserVersion)
      invariant st.OutputHashes == old(st.OutputHashes)
    {
      assert files[..i + 1][..i] == files[..i];
      st.SetFileData(files[i]);
    }
    assert files[..|files|] == files;
  }

  /**
   * PersistState without the final save: a new state holding every parsed
   * file (the last file of a path wins), the graph's dependencies applied
   * to all of them, and the output hashes recorded.
   */
  method PersistState(files: seq<FileSymbols>, g: Graph.Graph, format: Format, moduleFiles: seq<string>,
                      read: string -> HashRead)
      returns (st: St.State, r: Result<(), RecordError>)
    ensures fresh(st)
    ensures st.Version == St.CurrentStateVersion && st.ParserVersion == St.CurrentParserVersion
    ensures st.Files.Some? && st.TrackedFiles().Keys == PathSet(files)
    ensures forall i :: LastOfPath(files, i) ==>
      && files[i].Path in st.TrackedFiles()
      && FileutilState.Applied(EntryOf(files[i]), st.TrackedFiles()[files[i].Path], g.nodes, g.fileNodes, files[i].Path)
    ensures r.Success? ==> st.OutputHashes == Some(HashesOf(OutputPaths(format, moduleFiles), read))
    ensures format.Unsupported? ==> r.Failure?
  {
    st := new St.State();
    StoreFiles(st, files);
    PersistedEntries(map[], files);
    FileutilState.ApplyGraphDependencies(st, g, None);
    r := RecordOutputHashes(st, format, moduleFiles, read);
  }
}
