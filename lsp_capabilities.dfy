/**
 * Language-server capabilities (internal/lsp/capabilities.go): which
 * languages a set of paths contains, judged by file extension, and for each
 * known language whether one of its preferred servers can be found. The
 * path lookup is a parameter; iteration over Go maps visits the languages in
 * an arbitrary order, chosen here with `:|`.
 */
module LspCapabilities {
  import opened Strs
  import GoPath

  datatype Capability = Capability(Present: bool, Server: string, Available: bool, Reason: string)

  const GoLang := "go"
  const PythonLang := "python"
  const TypeScriptLang := "typescript"
  const RubyLang := "ruby"

  const LanguageNotPresent := "language_not_present"
  const ServerNotFound := "server_not_found"

  /** The servers of each known language, most preferred first. */
  const LanguageServers: map<string, seq<string>> := map[
    GoLang := ["gopls"],
    PythonLang := ["pyright-langserver", "pylsp"],
    TypeScriptLang := ["typescript-language-server"],
    RubyLang := ["solargraph"]]

  /** The file extensions of each known language. */
  const LanguageExtensions: map<string, seq<string>> := map[
    GoLang := [".go"],
    PythonLang := [".py"],
    TypeScriptLang := [".ts", ".tsx", ".js", ".jsx", ".mjs", ".cjs"],
    RubyLang := [".rb"]]

  /** The lower-cased extension a path is classified by. */
  function ExtKey(path: string): string {
    ToLower(GoPath.Ext(path))
  }

  predicate HasExtension(language: string, ext: string) {
    language in LanguageExtensions && ext in LanguageExtensions[language]
  }

  /** Both tables name the same languages. */
  lemma SameLanguages()
    ensures LanguageExtensions.Keys == LanguageServers.Keys
  {
  }

  /**
   * No extension belongs to two languages, so the language of a path does
   * not depend on the order the table is visited in.
   */
  lemma ExtensionsDisjoint(l1: string, l2: string, ext: string)
    requires HasExtension(l1, ext) && HasExtension(l2, ext)
    ensures l1 == l2
  {
  }

  /** Whether ext is one of the candidates: the inner loop over a language's extensions. */
  method Among(ext: string, candidates: seq<string>) returns (found: bool)
    ensures found <==> ext in candidates
  {
    found := false;
    for i := 0 to |candidates|
      invariant ext !in candidates[..i]
    {
      if ext == candidates[i] {
        return true;
      }
    }
    assert candidates[..|candidates|] == candidates;
  }

  /**
   * LanguageForPath: the language whose extensions include the path's
   * lower-cased extension; not found when no language has it.
   */
  method LanguageForPath(path: string) returns (language: string, ok: bool)
    ensures ok <==> exists l :: HasExtension(l, ExtKey(path))
    ensures ok ==> HasExtension(language, ExtKey(path))
    ensures !ok ==> language == ""
  {
    var ext := ExtKey(path);
    var remaining := LanguageExtensions.Keys;
    while remaining != {}
      invariant remaining <= LanguageExtensions.Keys
      invariant forall l :: l in LanguageExtensions && l !in remaining ==> !HasExtension(l, ext)
      decreases remaining
    {
      var l :| l in remaining;
      var found := Among(ext, LanguageExtensions[l]);
      if found {
        assert HasExtension(l, ext);
        return l, true;
      }
      remaining := remaining - {l};
    }
    return "", false;
  }

  /** Whether some path has one of the language's extensions. */
  ghost predicate SomePathOf(language: string, paths: seq<string>) {
    exists i :: 0 <= i < |paths| && HasExtension(language, ExtKey(paths[i]))
  }

  /** Whether one of the first n paths has one of the language's extensions. */
  ghost predicate SomePathBefore(language: string, paths: seq<string>, n: nat)
    requires n <= |paths|
  {
    exists i :: 0 <= i < n && HasExtension(language, ExtKey(paths[i]))
  }

  lemma SomePathBeforeNext(language: string, paths: seq<string>, n: nat)
    requires n < |paths|
    ensures SomePathBefore(language, paths, n + 1) <==>
            SomePathBefore(language, paths, n) || HasExtension(language, ExtKey(paths[n]))
  {
  }

  /** Marks every language that has the extension: one path of DetectLanguagePresence. */
  method MarkPresent(presence: map<string, bool>, ext: string) returns (marked: map<string, bool>)
    requires presence.Keys == LanguageExtensions.Keys
    ensures marked.Keys == presence.Keys
    ensures forall l :: l in marked ==> (marked[l] <==> presence[l] || HasExtension(l, ext))
  {
    marked := presence;
    var remaining := LanguageExtensions.Keys;
    while remaining != {}
      invariant remaining <= LanguageExtensions.Keys
      invariant marked.Keys == presence.Keys
      invariant forall l :: l in marked ==> (marked[l] <==> presence[l] || (l !in remaining && HasExtension(l, ext)))
      decreases remaining
    {
      var l :| l in remaining;
      var found := Among(ext, LanguageExtensions[l]);
      if found {
        marked := marked[l := true];
      }
      remaining := remaining - {l};
    }
  }

  /** Every known language, each marked absent. */
  method AllAbsent() returns (presence: map<string, bool>)
    ensures presence.Keys == LanguageServers.Keys
    ensures forall l :: l in presence ==> !presence[l]
  {
    presence := map[];
    var remaining := LanguageServers.Keys;
    while remaining != {}
      invariant remaining <= LanguageServers.Keys
      invariant presence.Keys == LanguageServers.Keys - remaining
      invariant forall l :: l in presence ==> !presence[l]
      decreases remaining
    {
      var l :| l in remaining;
      presence := presence[l := false];
      remaining := remaining - {l};
    }
  }

  /**
   * DetectLanguagePresence: an entry for every known language, true exactly
   * when some path has one of its extensions.
   */
  method DetectLanguagePresence(paths: seq<string>) returns (presence: map<string, bool>)
    ensures presence.Keys == LanguageServers.Keys
    ensures forall l :: l in presence ==> (presence[l] <==> SomePathOf(l, paths))
  {
    presence := AllAbsent();
    SameLanguages();
    for i := 0 to |paths|
      invariant presence.Keys == LanguageServers.Keys
      invariant forall l :: l in presence ==> (presence[l] <==> SomePathBefore(l, paths, i))
    {
      presence := MarkPresent(presence, ExtKey(paths[i]));
      forall l | l in presence
        ensures presence[l] <==> SomePathBefore(l, paths, i + 1)
      {
        SomePathBeforeNext(l, paths, i);
      }
    }
  }

  // ---------------------------------------------------------------------
  // ProbeCapabilitiesWithLookPath

  /** The most preferred server, or "" when there is none. */
  function FirstOr(servers: seq<string>): string {
    if |servers| > 0 then servers[0] else ""
  }

  /** Whether a language counts as present: a missing entry reads as false. */
  function Present(presence: map<string, bool>, language: string): bool {
    language in presence && presence[language]
  }

  /**
   * What the probe of one language reports: an absent language is not
   * available, with its first server and reason "language_not_present"; a
   * present one takes the first of its servers that the lookup finds, with
   * no reason, or else keeps the first server with reason "server_not_found".
   */
  ghost predicate Probed(cap: Capability, present: bool, servers: seq<string>, lookPath: string -> bool) {
    && cap.Present == present
    && (!present ==> cap == Capability(false, FirstOr(servers), false, LanguageNotPresent))
    && (present && (exists k :: 0 <= k < |servers| && lookPath(servers[k])) ==>
          && cap.Available && cap.Reason == ""
          && exists k :: 0 <= k < |servers| && cap.Server == servers[k] && lookPath(servers[k]) &&
               forall j :: 0 <= j < k ==> !lookPath(servers[j]))
    && (present && (forall k :: 0 <= k < |servers| ==> !lookPath(servers[k])) ==>
          cap == Capability(true, FirstOr(servers), false, ServerNotFound))
  }

  /** The report of a probe is fully determined. */
  lemma ProbedUnique(c1: Capability, c2: Capability, present: bool, servers: seq<string>, lookPath: string -> bool)
    requires Probed(c1, present, servers, lookPath) && Probed(c2, present, servers, lookPath)
    ensures c1 == c2
  {
    if present && exists k :: 0 <= k < |servers| && lookPath(servers[k]) {
      var k1 :| 0 <= k1 < |servers| && c1.Server == servers[k1] && lookPath(servers[k1]) &&
                forall j :: 0 <= j < k1 ==> !lookPath(servers[j]);
      var k2 :| 0 <= k2 < |servers| && c2.Server == servers[k2] && lookPath(servers[k2]) &&
                forall j :: 0 <= j < k2 ==> !lookPath(servers[j]);
      assert !(k1 < k2) && !(k2 < k1);
    }
  }

  /** The probe of one language: a loop over its preferred servers that stops at the first found. */
  method ProbeLanguage(present: bool, servers: seq<string>, lookPath: string -> bool) returns (cap: Capability)
    ensures Probed(cap, present, servers, lookPath)
  {
    cap := Capability(present, FirstOr(servers), false, "");
    if !cap.Present {
      cap := cap.(Reason := LanguageNotPresent);
      return;
    }
    for i := 0 to |servers|
      invariant cap == Capability(true, FirstOr(servers), false, "")
      invariant forall j :: 0 <= j < i ==> !lookPath(servers[j])
    {
      if lookPath(servers[i]) {
        cap := cap.(Available := true, Server := servers[i], Reason := "");
        return;
      }
    }
    cap := cap.(Reason := ServerNotFound);
  }

  /**
   * ProbeCapabilitiesWithLookPath: exactly one entry per known language,
   * each the probe of that language's preferred servers.
   */
  method ProbeCapabilities(presence: map<string, bool>, lookPath: string -> bool) returns (caps: map<string, Capability>)
    ensures caps.Keys == LanguageServers.Keys
    ensures forall l :: l in caps ==> Probed(caps[l], Present(presence, l), LanguageServers[l], lookPath)
  {
    caps := map[];
    var remaining := LanguageServers.Keys;
    while remaining != {}
      invariant remaining <= LanguageServers.Keys
      invariant caps.Keys == LanguageServers.Keys - remaining
      invariant forall l :: l in caps ==> Probed(caps[l], Present(presence, l), LanguageServers[l], lookPath)
      decreases remaining
    {
      var l :| l in remaining;
      var cap := ProbeLanguage(Present(presence, l), LanguageServers[l], lookPath);
      caps := caps[l := cap];
      remaining := remaining - {l};
    }
  }

  /** With pyright missing but pylsp installed, python falls back to pylsp. */
  lemma PythonFallback(cap: Capability, lookPath: string -> bool)
    requires !lookPath("pyright-langserver") && lookPath("pylsp")
    requires Probed(cap, true, LanguageServers[PythonLang], lookPath)
    ensures cap.Available && cap.Server == "pylsp" && cap.Reason == ""
  {
    var servers := LanguageServers[PythonLang];
    assert servers == ["pyright-langserver", "pylsp"];
    assert lookPath(servers[1]);
    var k :| 0 <= k < |servers| && cap.Server == servers[k] && lookPath(servers[k]) &&
             forall j :: 0 <= j < k ==> !lookPath(servers[j]);
    assert k != 0;
  }
}
