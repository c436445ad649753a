/**
 * The git hook of internal/cli/hook.go: skelly keeps a marked block in the
 * repository's pre-commit hook that refreshes its context directory, and
 * upserts that block so that installing the hook twice changes nothing.
 * The context directory's name is a parameter; locating the hook through
 * git and writing it are not part of this model.
 */
module CliHook {
  import opened Wrappers
  import opened Strs
  import opened FileutilWrite
  import opened LlmManaged
  import GoStrconv

  const HookStart: string := "# >>> skelly update hook >>>"
  const HookEnd: string := "# <<< skelly update hook <<<"

  /** The artifacts whose presence selects the jsonl update. */
  const ArtifactFiles: seq<string> := ["manifest.json", "symbols.jsonl", "edges.jsonl"]
  const RootVar: string := "repo_root="
  const ContextVar: string := "context_dir=\"$repo_root/"
  const CommandTest: string := "if command -v skelly >/dev/null 2>&1; then"
  const JsonlUpdate: string := "skelly update --format jsonl"
  const PlainUpdate: string := "skelly update"

  /** The shell test that an artifact exists in the context directory. */
  function FileTest(name: string): string {
    "[ -f \"$context_dir/" + name + "\" ]"
  }

  function FileTests(names: seq<string>): (r: seq<string>)
    ensures |r| == |names| && forall k :: 0 <= k < |names| ==> r[k] == FileTest(names[k])
  {
    seq(|names|, k requires 0 <= k < |names| => FileTest(names[k]))
  }

  /** The test that every artifact exists. */
  function ArtifactTest(): string {
    "  if " + Join(FileTests(ArtifactFiles), " && ") + "; then"
  }

  /** An update command run from the repository root, failing the hook when it fails. */
  function RunUpdate(command: string): string {
    "    (cd \"$repo_root\" && " + command + ") || exit 1"
  }

  /** The lines of the script between the variables and the end marker. */
  function ScriptLines(): seq<string> {
    [CommandTest, ArtifactTest(), RunUpdate(JsonlUpdate), "  else", RunUpdate(PlainUpdate), "  fi", "fi"]
  }

  /** The update script, one line after the other. */
  function HookScript(): string {
    Join(ScriptLines(), "\n")
  }

  /** The two shell variables: the quoted repository root, and the context directory under it. */
  function HookVariables(repoRoot: string, contextDir: string): string {
    RootVar + GoStrconv.Quote(repoRoot) + "\n" + ContextVar + contextDir + "\""
  }

  /**
   * BuildSkellyHookBlock: the start marker, the two variables, the update
   * script (the jsonl update when the three artifacts exist, a plain update
   * otherwise), and the end marker, one after the other on lines of their own.
   */
  function BuildSkellyHookBlock(repoRoot: string, contextDir: string): string {
    HookBlockWith(HookVariables(repoRoot, contextDir), HookScript())
  }

  /** The markers around the variables and the script, each on lines of their own. */
  function HookBlockWith(vars: string, script: string): string {
    HookStart + "\n" + vars + "\n" + script + "\n" + HookEnd
  }

  /** The text the block is appended after: the hook, newline-terminated, behind a shell line when it lacks one. */
  function AppendBase(existingHook: string): string {
    var base := EnsureTrailingNewline(existingHook);
    if HasPrefix(base, "#!") then base else "#!/bin/sh\n" + base
  }

  /** The upsert of a given block. */
  function UpsertHookBlock(existingHook: string, block: string): (r: string)
    ensures HasSuffix(r, "\n")
  {
    if existingHook == "" then "#!/bin/sh\n\n" + block + "\n"
    else if HasBlock(existingHook, HookStart, HookEnd) then ReplaceBlock(existingHook, HookStart, HookEnd, block)
    else AppendBase(existingHook) + "\n" + block + "\n"
  }

  /**
   * UpsertSkellyHook: a new hook is a shell script holding only the block;
   * an existing block is replaced in place; otherwise the block is appended
   * after a blank line, with a shell line put first when the hook has none.
   */
  function UpsertSkellyHook(existingHook: string, repoRoot: string, contextDir: string): string {
    UpsertHookBlock(existingHook, BuildSkellyHookBlock(repoRoot, contextDir))
  }

  // ---------------------------------------------------------------------
  // The block

  lemma HookMarkersOneLine()
    ensures '\n' !in HookStart && '\n' !in HookEnd
  {
  }

  lemma HookMarkersDiffer()
    ensures HookStart[0] == '#' && HookEnd[0] == '#' && HookStart[2] != HookEnd[2]
    ensures forall i :: 1 <= i < |HookStart| ==> HookStart[i] != '#'
  {
  }

  lemma CommandTestNoHash()
    ensures '#' !in CommandTest
  {
  }

  lemma FileTestNoHash(name: string)
    requires '#' !in name
    ensures '#' !in FileTest(name)
  {
  }

  lemma ArtifactNamesNoHash()
    ensures forall k :: 0 <= k < |ArtifactFiles| ==> '#' !in ArtifactFiles[k]
  {
    assert '#' !in ArtifactFiles[0] && '#' !in ArtifactFiles[1] && '#' !in ArtifactFiles[2];
  }

  lemma ArtifactTestNoHash()
    ensures '#' !in ArtifactTest()
  {
    var tests := FileTests(ArtifactFiles);
    ArtifactNamesNoHash();
    forall k | 0 <= k < |tests|
      ensures '#' !in tests[k]
    {
      FileTestNoHash(ArtifactFiles[k]);
    }
    JoinAvoids(tests, " && ", '#');
  }

  lemma RunUpdateNoHash(command: string)
    requires '#' !in command
    ensures '#' !in RunUpdate(command)
  {
  }

  lemma ScriptNoHash()
    ensures '#' !in HookScript()
  {
    var lines := ScriptLines();
    CommandTestNoHash();
    ArtifactTestNoHash();
    assert '#' !in JsonlUpdate && '#' !in PlainUpdate;
    RunUpdateNoHash(JsonlUpdate);
    RunUpdateNoHash(PlainUpdate);
    assert forall k :: 0 <= k < |lines| ==> '#' !in lines[k];
    JoinAvoids(lines, "\n", '#');
  }

  lemma HookVariablesNoHash(repoRoot: string, contextDir: string)
    requires '#' !in repoRoot && '#' !in contextDir
    ensures '#' !in HookVariables(repoRoot, contextDir)
  {
    GoStrconv.QuoteBodyChars(repoRoot);
    assert GoStrconv.Plain('#');
  }

  /** The script tests each artifact, runs the jsonl update and, failing the tests, the plain one. */
  lemma ScriptSpec()
    ensures var script := HookScript();
      (forall k :: 0 <= k < |ArtifactFiles| ==> Contains(script, FileTest(ArtifactFiles[k]))) &&
      Contains(script, RunUpdate(JsonlUpdate)) && Contains(script, RunUpdate(PlainUpdate))
  {
    var lines := ScriptLines();
    var script := Join(lines, "\n");
    var tests := FileTests(ArtifactFiles);
    var a := ArtifactTest();
    JoinHolds(lines, "\n", 1);
    JoinHolds(lines, "\n", 2);
    JoinHolds(lines, "\n", 4);
    forall k | 0 <= k < |ArtifactFiles|
      ensures Contains(script, FileTest(ArtifactFiles[k]))
    {
      JoinHolds(tests, " && ", k);
      ContainsInfix("  if ", Join(tests, " && "), "; then", tests[k]);
      ContainsTrans(script, a, tests[k]);
    }
  }

  /** A copy of h inside b carries every part of h into b. */
  lemma InCopy(b: string, s: nat, h: string, p: nat, w: string)
    requires s + |h| <= |b| && b[s..s + |h|] == h
    requires p + |w| <= |h| && h[p..p + |w|] == w
    ensures Contains(b, w)
  {
    OccursInside(b, s, h, w, s + p);
    ContainsAt(b, w, s + p);
  }

  lemma SliceOfSlice(b: string, i: nat, j: nat, k: nat, l: nat)
    requires i <= j <= |b| && k <= l <= j - i
    ensures b[i..j][k..l] == b[i + k..i + l]
  {
    var x, y := b[i..j][k..l], b[i + k..i + l];
    forall m | 0 <= m < l - k
      ensures x[m] == y[m]
    {
    }
    assert x == y;
  }

  /** Where the parts of a block lie in it. */
  lemma BlockWithParts(vars: string, script: string)
    ensures var b := HookBlockWith(vars, script);
      var v := |HookStart| + 1;
      var h := v + |vars| + 1;
      |b| == h + |script| + 1 + |HookEnd| &&
      b[..v] == HookStart + "\n" && b[v..v + |vars|] == vars && b[h..h + |script|] == script &&
      b[h + |script|..] == "\n" + HookEnd
  {
  }

  /** Where the parts of the variables lie in them. */
  lemma VariablesParts(repoRoot: string, contextDir: string)
    ensures var vars := HookVariables(repoRoot, contextDir);
      var q := GoStrconv.Quote(repoRoot);
      var line := ContextVar + contextDir + "\"";
      var n := |RootVar|;
      |vars| == n + |q| + 1 + |line| &&
      vars[..n] == RootVar && vars[n..n + |q|] == q && vars[n + |q| + 1..] == line
  {
  }

  /**
   * The block opens with the start marker and the repository root variable,
   * holding the root quoted so that it reads back unchanged; it holds the
   * context directory under the root and the script, and closes with the
   * end marker on a line of its own.
   */
lemma HookBlockSpec(repoRoot: string, contextDir: string)
    ensures var b := BuildSkellyHookBlock(repoRoot, contextDir);
      var q := GoStrconv.Quote(repoRoot);
      var v := |HookStart| + 1 + |RootVar|;
      HasPrefix(b, HookStart + "\n" + RootVar) && |b| >= v + |q| && HasSuffix(b, "\n" + HookEnd) &&
      GoStrconv.Unquote(b[v..v + |q|]) == Some(repoRoot) &&
      Contains(b, ContextVar + contextDir + "\"") &&
      Contains(b, HookScript())
  {
    BlockWithSpec(repoRoot, contextDir, HookScript());
  }

  lemma BlockWithSpec(repoRoot: string, contextDir: string, h: string)
    ensures var b := HookBlockWith(HookVariables(repoRoot, contextDir), h);
      var q := GoStrconv.Quote(repoRoot);
      var v := |HookStart| + 1 + |RootVar|;
      HasPrefix(b, HookStart + "\n" + RootVar) && |b| >= v + |q| && HasSuffix(b, "\n" + HookEnd) &&
      GoStrconv.Unquote(b[v..v + |q|]) == Some(repoRoot) &&
      Contains(b, ContextVar + contextDir + "\"") &&
      Contains(b, h)
  {
    var vars := HookVariables(repoRoot, contextDir);
    BlockWithParts(vars, h);
    VariablesParts(repoRoot, contextDir);
    BlockFacts(HookBlockWith(vars, h), vars, h, GoStrconv.Quote(repoRoot), ContextVar + contextDir + "\"");
    GoStrconv.UnquoteQuote(repoRoot);
  }

  /** Where the parts of the variables lie in a block, from where the variables lie. */
  lemma BlockFacts(b: string, vars: string, h: string, q: string, line: string)
    requires var v := |HookStart| + 1;
      var n := |RootVar|;
      |b| >= v + |vars| + 1 + |h| &&
      b[..v] == HookStart + "\n" && b[v..v + |vars|] == vars && b[v + |vars| + 1..v + |vars| + 1 + |h|] == h &&
      |vars| == n + |q| + 1 + |line| && vars[..n] == RootVar && vars[n..n + |q|] == q && vars[n + |q| + 1..] == line
    ensures var v := |HookStart| + 1 + |RootVar|;
      HasPrefix(b, HookStart + "\n" + RootVar) && |b| >= v + |q| && b[v..v + |q|] == q &&
      Contains(b, line) && Contains(b, h)
  {
    var v := |HookStart| + 1;
    var n := |RootVar|;
    SliceOfSlice(b, v, v + |vars|, 0, n);
    SliceOfSlice(b, v, v + |vars|, n, n + |q|);
    assert b[..v + n] == b[..v] + b[v..v + n];
    assert vars[n + |q| + 1..n + |q| + 1 + |line|] == line;
    InCopy(b, v, vars, n + |q| + 1, line);
    ContainsAt(b, h, v + |vars| + 1);
  }

  /**
   * With no '#' in the variables or the script, the end marker occurs in
   * the block only at its end, so the block has the shape an upsert finds
   * again.
   */
  lemma BlockWithShape(vars: string, script: string)
    requires '#' !in vars && '#' !in script
    ensures BlockShape(HookStart, HookEnd, HookBlockWith(vars, script))
  {
    var b := HookBlockWith(vars, script);
    var y := "\n" + vars + "\n" + script;
    var x := HookStart + y;
    assert b == x + "\n" + HookEnd;
    HookMarkersOneLine();
    assert x[|HookStart|..] == y;
    NoMarkerAfterHead(x, |HookStart|, HookEnd);
    assert b[..|HookStart|] == HookStart && b[|HookStart|] == '\n';
    LastLineMarker(x, HookEnd);
  }

  /**
   * With no '#' in the repository root or the context directory, the block
   * has the shape an upsert finds again.
   */
  lemma HookBlockShape(repoRoot: string, contextDir: string)
    requires '#' !in repoRoot && '#' !in contextDir
    ensures BlockShape(HookStart, HookEnd, BuildSkellyHookBlock(repoRoot, contextDir))
  {
    ScriptNoHash();
    HookVariablesNoHash(repoRoot, contextDir);
    BlockWithShape(HookVariables(repoRoot, contextDir), HookScript());
  }

  /**
   * A marker opening with '#' and differing from the start marker is not in
   * a text that is the start marker followed by text without '#'.
   */
  lemma NoMarkerAfterHead(x: string, n: nat, sub: string)
    requires n == |HookStart| <= |x| && x[..n] == HookStart && '#' !in x[n..]
    requires sub == HookEnd
    ensures Index(x, sub) == -1
  {
    HookMarkersDiffer();
    forall j | 0 <= j <= |x|
      ensures !OccursAt(x, sub, j)
    {
      if j == 0 {
        if |sub| <= |x| {
          assert x[..|sub|][2] == HookStart[2];
        }
      } else if j + |sub| <= |x| {
        assert x[j..j + |sub|][0] == x[j];
        if j >= n {
          assert x[j] == x[n..][j - n];
        } else {
          assert x[j] == HookStart[j];
        }
      }
    }
  }

  // ---------------------------------------------------------------------
  // What an upsert promises

  /** A new hook is a shell line, a blank line, the block and a newline. */
  lemma HookNewScript(block: string)
    ensures var r := UpsertHookBlock("", block);
      r == "#!/bin/sh\n\n" + block + "\n" && HasPrefix(r, "#!")
  {
  }

  /**
   * A hook with a block has it replaced, with the text before the first
   * start marker and after the first end marker kept around the new block.
   */
  lemma HookReplaceKeepsText(existingHook: string, block: string)
    requires existingHook != "" && HasBlock(existingHook, HookStart, HookEnd)
    ensures var r := UpsertHookBlock(existingHook, block);
      var s := Index(existingHook, HookStart);
      var e := Index(existingHook, HookEnd) + |HookEnd|;
      |r| >= s + |block| && r[..s] == existingHook[..s] && r[s..s + |block|] == block &&
      (r[s + |block|..] == existingHook[e..] || r[s + |block|..] == existingHook[e..] + "\n")
  {
    ReplaceKeepsOutside(existingHook, HookStart, HookEnd, block);
  }

  /**
   * A hook without a block stays whole in the result, behind a shell line
   * when it had none, followed by a blank line and the block; the result
   * starts with "#!".
   */
  lemma HookAppendKeepsText(existingHook: string, block: string)
    requires existingHook != "" && !HasBlock(existingHook, HookStart, HookEnd)
    ensures var r := UpsertHookBlock(existingHook, block);
      var base := EnsureTrailingNewline(existingHook);
      (HasPrefix(existingHook, "#!") ==> r == base + "\n" + block + "\n") &&
      (!HasPrefix(existingHook, "#!") ==> r == "#!/bin/sh\n" + base + "\n" + block + "\n") &&
      HasPrefix(r, "#!")
  {
    AppendBaseSpec(existingHook);
    var r := UpsertHookBlock(existingHook, block);
    var a := AppendBase(existingHook);
    assert r == a + ("\n" + block + "\n");
    assert r[..2] == a[..2];
  }

  /** The base starts with "#!", and is the newline-terminated hook, behind a shell line when the hook lacks one. */
  lemma AppendBaseSpec(existingHook: string)
    requires existingHook != ""
    ensures var a := AppendBase(existingHook);
      var base := EnsureTrailingNewline(existingHook);
      HasPrefix(a, "#!") &&
      (HasPrefix(existingHook, "#!") ==> a == base) &&
      (!HasPrefix(existingHook, "#!") ==> a == "#!/bin/sh\n" + base)
  {
    var base := EnsureTrailingNewline(existingHook);
    assert HasPrefix(base, "#!") <==> HasPrefix(existingHook, "#!") by {
      if |existingHook| == 1 {
        assert existingHook[0] == base[0];
      } else {
        assert base[..2] == existingHook[..2];
      }
    }
    if !HasPrefix(base, "#!") {
      assert ("#!/bin/sh\n" + base)[..2] == "#!/bin/sh\n"[..2];
    }
  }

  /** A hook without markers keeps none once it is made the base of an append. */
  lemma AppendBaseClear(existingHook: string, sub: string)
    requires '\n' !in sub && |sub| > 10 && Index(existingHook, sub) == -1
    ensures Index(AppendBase(existingHook), sub) == -1
  {
    var base := EnsureTrailingNewline(existingHook);
    EnsureTrailingNewlineClear(existingHook, sub);
    if !HasPrefix(base, "#!") {
      ClearAcrossNewline("#!/bin/sh", base, sub);
      assert AppendBase(existingHook) == "#!/bin/sh" + "\n" + base;
    }
  }

  /**
   * After an upsert of a block of the right shape the first block of the
   * hook is exactly that block, when the hook was empty, held a block, or
   * held no marker at all.
   */
  lemma HookInstallsBlock(existingHook: string, block: string)
    requires BlockShape(HookStart, HookEnd, block) && Upsertable(existingHook, HookStart, HookEnd)
    ensures var r := UpsertHookBlock(existingHook, block);
      HasBlock(r, HookStart, HookEnd) && BlockOf(r, HookStart, HookEnd) == block
  {
    if existingHook == "" {
      assert "#!/bin/sh\n\n" + block + "\n" == "#!/bin/sh\n" + "\n" + block + "\n";
      AppendFindsContent("#!/bin/sh\n", block, HookStart, HookEnd);
    } else if HasBlock(existingHook, HookStart, HookEnd) {
      ReplaceFindsContent(existingHook, HookStart, HookEnd, block);
    } else {
      AppendBaseClear(existingHook, HookStart);
      AppendBaseClear(existingHook, HookEnd);
      AppendFindsContent(AppendBase(existingHook), block, HookStart, HookEnd);
    }
  }

  /**
   * Installing the hook twice gives what installing it once gave, for a
   * repository root and context directory without '#'.
   */
  lemma HookUpsertIdempotent(existingHook: string, repoRoot: string, contextDir: string)
    requires '#' !in repoRoot && '#' !in contextDir && Upsertable(existingHook, HookStart, HookEnd)
    ensures var r := UpsertSkellyHook(existingHook, repoRoot, contextDir);
      UpsertSkellyHook(r, repoRoot, contextDir) == r
  {
    var block := BuildSkellyHookBlock(repoRoot, contextDir);
    var r := UpsertHookBlock(existingHook, block);
    HookBlockShape(repoRoot, contextDir);
    HookInstallsBlock(existingHook, block);
    ReplaceOwnBlock(r, HookStart, HookEnd, block);
  }
}
