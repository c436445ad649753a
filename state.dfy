/**
 * The incremental-update state of internal/state/state.go: the tracked
 * files with their hashes, parse results and dependencies, and the hashes
 * of the generated outputs. Reading and writing the state file, and the
 * UpdatedAt timestamps, are left out. A nil Go map is None.
 */
module State {
  import opened Wrappers
  import opened Seqs
  import opened Sorting
  import opened ParserTypes

  const CurrentStateVersion: string := "2"
  const CurrentParserVersion: string := "tree-sitter-v1"

  datatype FileState = FileState(
    Hash: string,
    Language: string,
    Symbols: seq<Symbol>,
    Imports: seq<string>,
    ImportAliases: map<string, string>,
    Dependencies: seq<string>)

  type Files = map<string, FileState>

  // ---------------------------------------------------------------------
  // Reverse dependencies and their closure

  /** File g lists d among its dependencies. */
  predicate DependsOn(files: Files, g: string, d: string) {
    g in files && d in files[g].Dependencies
  }

  /** A chain of files, each depending on the one before it. */
  ghost predicate Chain(files: Files, c: seq<string>) {
    forall i :: 0 <= i < |c| - 1 ==> DependsOn(files, c[i + 1], c[i])
  }

  /** f is a seed, or depends, directly or through other files, on a seed. */
  ghost predicate Reaches(files: Files, seeds: seq<string>, f: string) {
    exists c :: c != [] && c[0] in seeds && c[|c| - 1] == f && Chain(files, c)
  }

  /** Every file that depends on a member is a member. */
  ghost predicate ClosedUnder(files: Files, s: set<string>) {
    forall d, g :: d in s && DependsOn(files, g, d) ==> g in s
  }

  lemma ReachesSeed(files: Files, seeds: seq<string>, f: string)
    requires f in seeds
    ensures Reaches(files, seeds, f)
  {
    assert Chain(files, [f]);
  }

  lemma ReachesStep(files: Files, seeds: seq<string>, d: string, g: string)
    requires Reaches(files, seeds, d) && DependsOn(files, g, d)
    ensures Reaches(files, seeds, g)
  {
    var c :| c != [] && c[0] in seeds && c[|c| - 1] == d && Chain(files, c);
    var c' := c + [g];
    assert Chain(files, c');
  }

  lemma {:induction false} ChainInClosed(files: Files, c: seq<string>, s: set<string>)
    requires c != [] && c[0] in s && Chain(files, c) && ClosedUnder(files, s)
    ensures c[|c| - 1] in s
    decreases |c|
  {
    if |c| > 1 {
      var init := c[..|c| - 1];
      assert Chain(files, init);
      ChainInClosed(files, init, s);
      assert DependsOn(files, c[|c| - 1], c[|c| - 2]);
    }
  }

  /** A closed set that holds the seeds holds everything they reach. */
  lemma ReachesClosed(files: Files, seeds: seq<string>, s: set<string>)
    requires forall x :: x in seeds ==> x in s
    requires ClosedUnder(files, s)
    ensures forall f :: Reaches(files, seeds, f) ==> f in s
  {
    forall f | Reaches(files, seeds, f)
      ensures f in s
    {
      var c :| c != [] && c[0] in seeds && c[|c| - 1] == f && Chain(files, c);
      ChainInClosed(files, c, s);
    }
  }

  /** The reverse-dependency map lists h under d. */
  ghost predicate Lists(reverse: map<string, seq<string>>, d: string, h: string) {
    d in reverse && h in reverse[d]
  }

  /** The reverse-dependency map lists g under d exactly when g depends on d. */
  ghost predicate ReverseOf(reverse: map<string, seq<string>>, files: Files) {
    forall d, g :: Lists(reverse, d, g) <==> DependsOn(files, g, d)
  }

  /** r is reverse with g listed under each of deps. */
  ghost predicate AddedDependers(r: map<string, seq<string>>, reverse: map<string, seq<string>>, g: string, deps: seq<string>) {
    forall d, h :: Lists(r, d, h) <==> Lists(reverse, d, h) || (h == g && d in deps)
  }

  lemma AddDependerStep(r: map<string, seq<string>>, reverse: map<string, seq<string>>, g: string, deps: seq<string>, j: nat)
    requires j < |deps| && AddedDependers(r, reverse, g, deps[..j])
    ensures AddedDependers(r[deps[j] := (if deps[j] in r then r[deps[j]] else []) + [g]], reverse, g, deps[..j + 1])
  {
    var d0 := deps[j];
    var r' := r[d0 := (if d0 in r then r[d0] else []) + [g]];
    assert deps[..j + 1] == deps[..j] + [d0];
    forall d, h
      ensures Lists(r', d, h) <==> Lists(reverse, d, h) || (h == g && d in deps[..j + 1])
    {
      if d == d0 {
        assert Lists(r', d, h) <==> Lists(r, d, h) || h == g;
      } else {
        assert Lists(r', d, h) <==> Lists(r, d, h);
      }
    }
  }

  /** One file's dependencies added to the reverse map, each listing the file. */
  method AddDependers(reverse: map<string, seq<string>>, g: string, deps: seq<string>)
      returns (r: map<string, seq<string>>)
    ensures AddedDependers(r, reverse, g, deps)
  {
    r := reverse;
    var j := 0;
    while j < |deps|
      invariant 0 <= j <= |deps|
      invariant AddedDependers(r, reverse, g, deps[..j])
    {
      AddDependerStep(r, reverse, g, deps, j);
      var d := deps[j];
      r := r[d := (if d in r then r[d] else []) + [g]];
      j := j + 1;
    }
    assert deps[..j] == deps;
  }

  /** The reverse map of the dependencies of the files in done. */
  ghost predicate ReverseUpTo(reverse: map<string, seq<string>>, files: Files, done: set<string>) {
    forall d, g :: Lists(reverse, d, g) <==> DependsOn(files, g, d) && g in done
  }

  lemma ReverseStep(r: map<string, seq<string>>, reverse: map<string, seq<string>>, files: Files, done: set<string>, g: string)
    requires g in files && ReverseUpTo(reverse, files, done)
    requires AddedDependers(r, reverse, g, files[g].Dependencies)
    ensures ReverseUpTo(r, files, done + {g})
  {
  }

  /** The reverse-dependency map built by iterating over the tracked files. */
  method ReverseDeps(files: Files) returns (reverse: map<string, seq<string>>)
    ensures ReverseOf(reverse, files)
  {
    reverse := map[];
    var rest := files.Keys;
    while rest != {}
      invariant rest <= files.Keys
      invariant ReverseUpTo(reverse, files, files.Keys - rest)
      decreases |rest|
    {
      var g :| g in rest;
      var r := AddDependers(reverse, g, files[g].Dependencies);
      ReverseStep(r, reverse, files, files.Keys - rest, g);
      reverse := r;
      assert files.Keys - (rest - {g}) == (files.Keys - rest) + {g};
      rest := rest - {g};
    }
  }

  // ---------------------------------------------------------------------
  // Version migration

  /** The state version after migrateState: "" and "1" become the current version. */
  function MigratedVersion(v: string): (r: string)
    ensures r != "" && r != "1"
    ensures v != "" && v != "1" ==> r == v
  {
    if v == "" || v == "1" then CurrentStateVersion else v
  }

  /** An empty parser version defaults to the current one. */
  function DefaultParserVersion(v: string): (r: string)
    ensures r != ""
    ensures v != "" ==> r == v
  {
    if v == "" then CurrentParserVersion else v
  }

  /** The version Save writes: only an empty version is replaced. */
  function SavedVersion(v: string): (r: string)
    ensures r != ""
    ensures v != "" ==> r == v
  {
    if v == "" then CurrentStateVersion else v
  }

  /** Migrating twice is migrating once, and saving a migrated state keeps its versions. */
  lemma MigrationIdempotent(v: string, p: string)
    ensures MigratedVersion(MigratedVersion(v)) == MigratedVersion(v)
    ensures DefaultParserVersion(DefaultParserVersion(p)) == DefaultParserVersion(p)
    ensures SavedVersion(MigratedVersion(v)) == MigratedVersion(v)
  {
  }

  // ---------------------------------------------------------------------
  // The state

  class State {
    var Version: string
    var ParserVersion: string
    var Files: Option<Files>
    var OutputHashes: Option<map<string, string>>

    /** NewState: the current versions and empty maps. */
    constructor ()
      ensures Version == CurrentStateVersion && ParserVersion == CurrentParserVersion
      ensures Files == Some(map[]) && OutputHashes == Some(map[])
    {
      Version := CurrentStateVersion;
      ParserVersion := CurrentParserVersion;
      Files := Some(map[]);
      OutputHashes := Some(map[]);
    }

    /** A state as decoded from the state file, before migration. */
    constructor Decoded(version: string, parserVersion: string, files: Option<Files>, outputHashes: Option<map<string, string>>)
      ensures Version == version && ParserVersion == parserVersion
      ensures Files == files && OutputHashes == outputHashes
    {
      Version := version;
      ParserVersion := parserVersion;
      Files := files;
      OutputHashes := outputHashes;
    }

    /** The tracked files; reading a nil map finds nothing. */
    function TrackedFiles(): Files
      reads this
    {
      if Files.Some? then Files.value else map[]
    }

    function StoredOutputHashes(): map<string, string>
      reads this
    {
      if OutputHashes.Some? then OutputHashes.value else map[]
    }

    /** GetFileHash */
    function GetFileHash(file: string): (r: Option<string>)
      reads this
      ensures r.Some? <==> file in TrackedFiles()
      ensures r.Some? ==> r.value == TrackedFiles()[file].Hash
    {
      if file in TrackedFiles() then Some(TrackedFiles()[file].Hash) else None
    }

    /** HasChanged: an untracked file, or one whose stored hash differs. */
    function HasChanged(file: string, currentHash: string): (r: bool)
      reads this
      ensures r <==> file !in TrackedFiles() || TrackedFiles()[file].Hash != currentHash
    {
      match GetFileHash(file)
      case None => true
      case Some(stored) => stored != currentHash
    }

    /** SetFileHash: a fresh entry holding only the hash. */
    method SetFileHash(file: string, hash: string)
      requires Files.Some?
      modifies this
      ensures Files == Some(old(Files.value)[file := FileState(hash, "", [], [], map[], [])])
      ensures Version == old(Version) && ParserVersion == old(ParserVersion) && OutputHashes == old(OutputHashes)
      ensures !HasChanged(file, hash)
    {
      Files := Some(Files.value[file := FileState(hash, "", [], [], map[], [])]);
    }

    /** SetFileData: the entry for the file's path is replaced, without dependencies. */
    method SetFileData(file: FileSymbols)
      requires Files.Some?
      modifies this
      ensures Files == Some(old(Files.value)[file.Path := FileState(file.Hash, file.Language, file.Symbols, file.Imports, file.ImportAliases, [])])
      ensures Version == old(Version) && ParserVersion == old(ParserVersion) && OutputHashes == old(OutputHashes)
      ensures !HasChanged(file.Path, file.Hash)
    {
      Files := Some(Files.value[file.Path := FileState(file.Hash, file.Language, file.Symbols, file.Imports, file.ImportAliases, [])]);
    }

    /** RemoveFile: only that entry goes; deleting from a nil map does nothing. */
    method RemoveFile(file: string)
      modifies this
      ensures Files == if old(Files).Some? then Some(old(Files.value) - {file}) else None
      ensures Version == old(Version) && ParserVersion == old(ParserVersion) && OutputHashes == old(OutputHashes)
      ensures HasChanged(file, "")
    {
      if Files.Some? {
        Files := Some(Files.value - {file});
      }
    }

    /** GetOutputHash: the stored hash of a generated output, if any. */
    function GetOutputHash(path: string): (r: Option<string>)
      reads this
      ensures r.Some? <==> path in StoredOutputHashes()
      ensures r.Some? ==> r.value == StoredOutputHashes()[path]
    {
      if path in StoredOutputHashes() then Some(StoredOutputHashes()[path]) else None
    }

    /** SetOutputHash: records the hash, creating the map when it is nil. */
    method SetOutputHash(path: string, hash: string)
      modifies this
      ensures OutputHashes == Some(old(StoredOutputHashes())[path := hash])
      ensures Version == old(Version) && ParserVersion == old(ParserVersion) && Files == old(Files)
      ensures GetOutputHash(path) == Some(hash)
      ensures forall p :: p != path ==> GetOutputHash(p) == old(GetOutputHash(p))
    {
      OutputHashes := Some(StoredOutputHashes()[path := hash]);
    }

    /**
     * migrateState: nil maps become empty, an empty parser version becomes
     * the current one, and versions "" and "1" become the current version;
     * any other version is kept.
     */
    method Migrate()
      modifies this
      ensures Files == Some(old(TrackedFiles())) && OutputHashes == Some(old(StoredOutputHashes()))
      ensures Version == MigratedVersion(old(Version))
      ensures ParserVersion == DefaultParserVersion(old(ParserVersion))
    {
      if Files.None? {
        Files := Some(map[]);
      }
      if OutputHashes.None? {
        OutputHashes := Some(map[]);
      }
      if ParserVersion == "" {
        ParserVersion := CurrentParserVersion;
      }
      if Version == "" || Version == "1" {
        Version := CurrentStateVersion;
      }
    }

    /**
     * The defaults Save fills in before writing: an empty version or parser
     * version becomes the current one, nil maps become empty. Unlike
     * migration, version "1" is kept.
     */
    method PrepareSave()
      modifies this
      ensures Files == Some(old(TrackedFiles())) && OutputHashes == Some(old(StoredOutputHashes()))
      ensures Version == SavedVersion(old(Version))
      ensures ParserVersion == DefaultParserVersion(old(ParserVersion))
    {
      if Version == "" {
        Version := CurrentStateVersion;
      }
      if ParserVersion == "" {
        ParserVersion := CurrentParserVersion;
      }
      if Files.None? {
        Files := Some(map[]);
      }
      if OutputHashes.None? {
        OutputHashes := Some(map[]);
      }
    }

    /** ChangedFiles: each file of currentHashes that is new or whose hash differs, once. */
    method ChangedFiles(currentHashes: map<string, string>) returns (changed: seq<string>)
      ensures NoDups(changed)
      ensures forall f :: f in changed <==> f in currentHashes && HasChanged(f, currentHashes[f])
    {
      changed := [];
      var rest := currentHashes.Keys;
      while rest != {}
        invariant rest <= currentHashes.Keys
        invariant NoDups(changed)
        invariant forall f :: f in changed <==> f in currentHashes && f !in rest && HasChanged(f, currentHashes[f])
        decreases |rest|
      {
        var f :| f in rest;
        if HasChanged(f, currentHashes[f]) {
          changed := changed + [f];
        }
        rest := rest - {f};
      }
    }

    /** DeletedFiles: each tracked file not marked present in currentFiles, once. */
    method DeletedFiles(currentFiles: map<string, bool>) returns (deleted: seq<string>)
      ensures NoDups(deleted)
      ensures forall f :: f in deleted <==> f in TrackedFiles() && !(f in currentFiles && currentFiles[f])
    {
      deleted := [];
      var files := TrackedFiles();
      var rest := files.Keys;
      while rest != {}
        invariant rest <= files.Keys
        invariant NoDups(deleted)
        invariant forall f :: f in deleted <==> f in files && f !in rest && !(f in currentFiles && currentFiles[f])
        decreases |rest|
      {
        var f :| f in rest;
        if !(f in currentFiles && currentFiles[f]) {
          deleted := deleted + [f];
        }
        rest := rest - {f};
      }
    }

    /**
     * ImpactedFiles: the changed and deleted files and every tracked file
     * that depends on one of them, directly or not, once each, sorted.
     */
    method ImpactedFiles(changedFiles: seq<string>, deletedFiles: seq<string>) returns (out: seq<string>)
      ensures StrictlyAscending(out)
      ensures forall f :: f in out <==> Reaches(TrackedFiles(), changedFiles + deletedFiles, f)
    {
      var files := TrackedFiles();
      var seeds := changedFiles + deletedFiles;
      var reverse := ReverseDeps(files);
      var impacted: set<string> := {};
      var queue: seq<string> := [];
      var i := 0;
      while i < |seeds|
        invariant 0 <= i <= |seeds|
        invariant forall x :: x in impacted <==> x in seeds[..i]
        invariant forall x :: x in queue <==> x in impacted
      {
        assert seeds[..i + 1] == seeds[..i] + [seeds[i]];
        if seeds[i] !in impacted {
          impacted := impacted + {seeds[i]};
          queue := queue + [seeds[i]];
        }
        i := i + 1;
      }
      assert seeds[..i] == seeds;
      ImpactedSeeded(files, seeds, impacted);
      assert Frontier(files, seeds, impacted, queue, {});
      impacted := Propagate(files, reverse, seeds, impacted, queue);
      out := SortedMembers(impacted);
    }
  }

  /** Every seed is in the set, and every member is reached from the seeds. */
  ghost predicate Sound(files: Files, seeds: seq<string>, impacted: set<string>) {
    && (forall x :: x in seeds ==> x in impacted)
    && (forall x :: x in impacted ==> Reaches(files, seeds, x))
  }

  lemma ImpactedSeeded(files: Files, seeds: seq<string>, impacted: set<string>)
    requires forall x :: x in impacted <==> x in seeds
    ensures Sound(files, seeds, impacted)
  {
    forall x | x in impacted
      ensures Reaches(files, seeds, x)
    {
      ReachesSeed(files, seeds, x);
    }
  }

  /**
   * The state of the queue loop: the marked files are sound, the queued
   * ones are marked, and each marked file that has left the queue (other
   * than those in pending) has all of its dependers marked.
   */
  ghost predicate Frontier(files: Files, seeds: seq<string>, impacted: set<string>, queue: seq<string>, pending: set<string>) {
    && Sound(files, seeds, impacted)
    && (forall x :: x in queue ==> x in impacted)
    && (forall d, g :: d in impacted && d !in queue && d !in pending && DependsOn(files, g, d) ==> g in impacted)
  }

  /** Once the queue is empty, the marked files are exactly those reached. */
  lemma FrontierDone(files: Files, seeds: seq<string>, impacted: set<string>)
    requires Frontier(files, seeds, impacted, [], {})
    ensures forall f :: f in impacted <==> Reaches(files, seeds, f)
  {
    ReachesClosed(files, seeds, impacted);
  }

  lemma Dequeue(files: Files, seeds: seq<string>, impacted: set<string>, queue: seq<string>)
    requires |queue| > 0 && Frontier(files, seeds, impacted, queue, {})
    ensures Frontier(files, seeds, impacted, queue[1..], {queue[0]})
  {
    forall x | x in queue && x != queue[0]
      ensures x in queue[1..]
    {
    }
  }

  /**
   * The body of the queue loop for one dequeued file: marks and enqueues
   * each of its dependers not yet marked.
   */
  method MarkDependers(files: Files, reverse: map<string, seq<string>>, ghost seeds: seq<string>,
                       ghost universe: set<string>, file: string, impacted0: set<string>, queue0: seq<string>)
      returns (impacted: set<string>, queue: seq<string>)
    requires ReverseOf(reverse, files) && files.Keys <= universe
    requires Frontier(files, seeds, impacted0, queue0, {file})
    requires file in impacted0 && impacted0 <= universe
    ensures Frontier(files, seeds, impacted, queue, {})
    ensures impacted <= universe
    ensures |universe - impacted| + |queue| == |universe - impacted0| + |queue0|
  {
    var dependers := if file in reverse then reverse[file] else [];
    DependersTracked(files, reverse, file);
    impacted, queue := MarkAll(dependers, universe, impacted0, queue0);
    MarkDone(files, reverse, seeds, file, impacted0, queue0, impacted, queue);
  }

  /** Marks and enqueues each of the given files not yet marked. */
  method MarkAll(dependers: seq<string>, ghost universe: set<string>, impacted0: set<string>, queue0: seq<string>)
      returns (impacted: set<string>, queue: seq<string>)
    requires impacted0 <= universe && forall g :: g in dependers ==> g in universe
    ensures impacted <= universe
    ensures forall x :: x in impacted <==> x in impacted0 || x in dependers
    ensures forall x :: x in queue <==> x in queue0 || (x in dependers && x !in impacted0)
    ensures |universe - impacted| + |queue| == |universe - impacted0| + |queue0|
  {
    impacted, queue := impacted0, queue0;
    var j := 0;
    while j < |dependers|
      invariant 0 <= j <= |dependers|
      invariant impacted <= universe
      invariant forall x :: x in impacted <==> x in impacted0 || x in dependers[..j]
      invariant forall x :: x in queue <==> x in queue0 || (x in dependers[..j] && x !in impacted0)
      invariant |universe - impacted| + |queue| == |universe - impacted0| + |queue0|
    {
      var g := dependers[j];
      assert dependers[..j + 1] == dependers[..j] + [g];
      if g !in impacted {
        RemoveOne(universe, impacted, g);
        impacted := impacted + {g};
        queue := queue + [g];
      }
      j := j + 1;
    }
    assert dependers[..j] == dependers;
  }

  lemma DependersTracked(files: Files, reverse: map<string, seq<string>>, file: string)
    requires ReverseOf(reverse, files)
    ensures file in reverse ==> forall g :: g in reverse[file] ==> g in files
  {
    if file in reverse {
      forall g | g in reverse[file]
        ensures g in files
      {
        assert Lists(reverse, file, g);
      }
    }
  }

  lemma RemoveOne(universe: set<string>, s: set<string>, g: string)
    requires g in universe && g !in s
    ensures |universe - (s + {g})| == |universe - s| - 1
  {
    assert universe - s == (universe - (s + {g})) + {g};
  }

  /** Marking the dependers of the dequeued file restores the loop state. */
  lemma MarkDone(files: Files, reverse: map<string, seq<string>>, seeds: seq<string>, file: string,
                 impacted0: set<string>, queue0: seq<string>, impacted: set<string>, queue: seq<string>)
    requires ReverseOf(reverse, files) && Frontier(files, seeds, impacted0, queue0, {file}) && file in impacted0
    requires forall x :: x in impacted <==> x in impacted0 || Lists(reverse, file, x)
    requires forall x :: x in queue <==> x in queue0 || (Lists(reverse, file, x) && x !in impacted0)
    ensures Frontier(files, seeds, impacted, queue, {})
  {
    forall x | x in impacted
      ensures Reaches(files, seeds, x)
    {
      if x !in impacted0 {
        ReachesStep(files, seeds, file, x);
      }
    }
    forall d, g | d in impacted && d !in queue && DependsOn(files, g, d)
      ensures g in impacted
    {
      if d == file {
        assert Lists(reverse, file, g);
      }
    }
  }

  /**
   * The queue loop of ImpactedFiles: each dequeued file marks and enqueues
   * those of its dependers that are not yet marked. Returns the closure.
   */
  method Propagate(files: Files, reverse: map<string, seq<string>>, ghost seeds: seq<string>,
                   impacted0: set<string>, queue0: seq<string>)
      returns (impacted: set<string>)
    requires ReverseOf(reverse, files)
    requires Frontier(files, seeds, impacted0, queue0, {})
    ensures forall f :: f in impacted <==> Reaches(files, seeds, f)
  {
    impacted := impacted0;
    var queue := queue0;
    ghost var universe := impacted0 + files.Keys;
    while |queue| > 0
      invariant impacted <= universe
      invariant Frontier(files, seeds, impacted, queue, {})
      decreases |universe - impacted| + |queue|
    {
      var file := queue[0];
      Dequeue(files, seeds, impacted, queue);
      impacted, queue := MarkDependers(files, reverse, seeds, universe, file, impacted, queue[1..]);
    }
    FrontierDone(files, seeds, impacted);
  }

  /** The members of a set, once each, in ascending order. */
  method SortedMembers(s: set<string>) returns (out: seq<string>)
    ensures StrictlyAscending(out)
    ensures forall x :: x in out <==> x in s
  {
    var items: seq<string> := [];
    var rest := s;
    while rest != {}
      invariant rest <= s
      invariant NoDups(items)
      invariant forall x :: x in items <==> x in s && x !in rest
      decreases |rest|
    {
      var x :| x in rest;
      items := items + [x];
      rest := rest - {x};
    }
    out := SortStrings(items);
    SortStringsAscending(items);
    MultisetMembers(out, items);
  }
}
