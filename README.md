# skelly, modelled in Dafny

skelly is a command-line tool, written in Go, that parses a source tree into
per-file symbol tables. It builds a call graph between symbols and keeps a
state file so that later runs only re-parse what changed. It answers
navigation queries (definition, callers, callees, shortest path, trace) and
keyword search over the symbols. It also keeps an enrichment cache of
LLM-written summaries and maintains managed text blocks in agent
instruction files and in a git hook.

This project models the deterministic core of that tool. It covers the
parser registry and the normalisation of parsed files, stable symbol IDs,
and the string helpers of the language front ends. It also covers the
call-graph edge pass, the ignore-rule matcher, incremental-update
bookkeeping, navigation, search, the enrichment cache and work selection,
the text upserts, and the small parsers and validators around the command
line. Go's standard library is modelled where the core relies on it:

- `strings` (trimming, splitting, joining, searching, ASCII lower-casing, byte order) in `Strs`;
- `strconv` in `GoStrconv`;
- `path/filepath` in `GoPath`;
- `sort` in `Sorting`, as a stable insertion sort.

Strings are sequences of characters. Go compares strings byte by byte, and
for UTF-8 this is the same as comparing code points, so the ordering agrees.
Hash functions (SHA-1, SHA-256) are parameters that return fixed-length hex
strings. Go map iteration order is an arbitrary choice (`:|`) wherever the
source iterates over a map.

## Model

| member | source | states |
|---|---|---|
| ParserTypes.KindString | internal/parser/types.go:22-43 | the eight kinds have names other than "unknown", every other value is "unknown"; no name contains `\|` |
| ParserTypes.KindStringInjective | internal/parser/types.go:22-43 | the eight kinds have pairwise different names |
| ParserTypes.LegacyCalls | internal/parser/types.go:112-120 | legacy call names become call sites whose name and raw text are the trimmed, non-blank name |
| ParserTypes.LegacyCallsAppend | internal/parser/types.go:113-119 | the legacy conversion distributes over concatenation, so it works name by name in order |
| ParserTypes.LegacyCallsSingle | internal/parser/types.go:114-118 | a single name is dropped when blank, else becomes `CallSite{Name: s, Raw: s}` with s trimmed |
| ParserTypes.ConvertLegacyCalls | internal/parser/types.go:112-120 | the conversion loop yields exactly LegacyCalls of the names |
| ParserTypes.UnmarshalSymbol | internal/parser/types.go:69-121 | a failed decoding returns its error; plain fields are copied; blank or `null` calls give no calls; a typed array wins over the legacy list; a failed legacy decoding returns its error |
| SymbolIds.StableSymbolID | internal/parser/symbol_id.go:11-20 | the ID is `file\|line\|kind\|name`, followed by `\|` and the eight-digit signature hash exactly when there is a signature |
| SymbolIds.StableSymbolIDFields | internal/parser/symbol_id.go:11-20 | when file and name hold no `\|`, splitting the ID at `\|` gives back its fields |
| SymbolIds.StableSymbolIDInjective | internal/parser/symbol_id.go:11-20 | for `\|`-free files and names, equal IDs mean equal file, line, kind name, name and presence of a signature |
| Parser.MapExtensions | internal/parser/parser.go:45-47 | every extension of the parser maps to its language; all other entries are unchanged |
| Parser.Lookup | internal/parser/parser.go:51-59 | a parser found for a file is a registered parser |
| Parser.LookupAfterRegister | internal/parser/parser.go:42-59 | after Register, a file with one of the parser's extensions, in any letter case, goes to that parser |
| Parser.LookupOtherAfterRegister | internal/parser/parser.go:42-59 | Register leaves the lookup of every other extension unchanged |
| Parser.ExtToLower | internal/parser/parser.go:52 | the extension of the lower-cased name is the lower-cased extension |
| Parser.LookupCaseInsensitive | internal/parser/parser.go:51-59 | names that differ only in ASCII letter case get the same parser |
| Parser.Registry.constructor | internal/parser/parser.go:34-39 | a new registry has no parsers and no extensions |
| Parser.Registry.Register | internal/parser/parser.go:42-48 | the parser serves its language, and its extensions map to that language; later registrations overwrite |
| Parser.Registry.GetParserForFile | internal/parser/parser.go:51-59 | lookup by lower-cased extension; an unknown extension finds nothing |
| Parser.Registry.SupportedExtensions | internal/parser/parser.go:62-68 | every registered extension exactly once |
| Parser.Registry.ParseFile | internal/parser/parser.go:71-112 | an unsupported file is skipped; read and parse errors are returned; otherwise imports, aliases and every symbol's call sites are normalised and the content hash is set |
| Parser.SortedDistinctImages | internal/parser/parser.go:183-200 | the sorted distinct non-blank images are strictly ascending and hold exactly the non-blank images |
| Parser.NormalizedStringsSpec | internal/parser/parser.go:183-200 | normalizeStrings is strictly ascending and holds exactly the trimmed non-blank inputs |
| Parser.NormalizedStringsIdempotent | internal/parser/parser.go:183-200 | normalising a normalised list changes nothing |
| Parser.NormalizeStrings | internal/parser/parser.go:183-200 | the seen-set loop followed by sort.Strings computes NormalizedStrings |
| Parser.TrimCallTrimmed | internal/parser/parser.go:210-213 | a trimmed call site has every text field trimmed |
| Parser.NormalizedCallSitesMembers | internal/parser/parser.go:202-249 | sorting keeps exactly the de-duplicated call sites |
| Parser.NormalizedCallSitesSorted | internal/parser/parser.go:232-246 | the result is ordered by (line, qualifier, name, receiver, raw) |
| Parser.NormalizedCallSitesTrimmed | internal/parser/parser.go:209-216 | every kept call site is named and has trimmed text fields |
| Parser.NormalizedCallSitesKeysDistinct | internal/parser/parser.go:218-229 | no two kept call sites share (name, qualifier, receiver, arity, line) |
| Parser.NormalizedCallSitesComplete | internal/parser/parser.go:209-230 | the key of every named input call site is present in the result |
| Parser.NormalizedCallSitesIdempotent | internal/parser/parser.go:202-249 | normalising normalised call sites changes nothing |
| Parser.NormalizeCallSitesStep | internal/parser/parser.go:209-230 | one loop step keeps the trimmed call site exactly when it is named and its key is new |
| Parser.NormalizeCallSites | internal/parser/parser.go:202-249 | the loop with its seen set, followed by the sort, computes NormalizedCallSites |
| Parser.AsWrittenAgreesWithoutBars | internal/parser/parser.go:218-224 | with no `\|` in name, qualifier or receiver, the joined-string key de-duplicates exactly like the field key |
| Parser.AsWrittenCallKeyAgrees | internal/parser/parser.go:218-224 | for `\|`-free fields, equal joined keys mean equal field keys, and conversely |
| Parser.AsWrittenKeyCollision | internal/parser/parser.go:218-224 | a qualifier ending in `\|` and a receiver starting with `\|` give distinct call sites the same joined key |
| Parser.AsWrittenMergesDistinctCalls | internal/parser/parser.go:225-229 | as written, the second of two such call sites is dropped; keyed by the fields, both are kept |
| Parser.NormalizeImportAliases | internal/parser/parser.go:251-269 | every kept alias and target is trimmed and non-blank and comes from one input entry; every input entry with non-blank trimmed alias and target has its alias kept |
| Parser.AliasesNormalizedTrimmed | internal/parser/parser.go:257-263 | the normalised aliases and targets are their own trimmed form |
| LanguagesCommon.SplitQualifiedName | internal/languages/common.go:8-19 | blank text gives two empty parts; text without '.' is all name; the name never holds a '.' |
| LanguagesCommon.SplitQualifiedNameJoin | internal/languages/common.go:8-19 | a trimmed qualifier and a trimmed dot-free name joined by '.' split back into the same two parts |
| LanguagesCommon.DefaultImportAlias | internal/languages/common.go:21-27 | the alias never holds a '/' |
| LanguagesCommon.DefaultImportAliasLastElement | internal/languages/common.go:21-27 | the alias of `dir/elem` is elem for a trimmed element other than "." |
| LanguagesCommon.MergeFoldSpec | internal/languages/common.go:29-45 | the merged map holds the aliases of dst plus the valid trimmed aliases of src; untouched aliases keep their dst target; every written alias holds one of its trimmed targets |
| LanguagesCommon.MergeFoldKeys | internal/languages/common.go:36-43 | the merged keys are the keys of dst plus the trimmed aliases whose alias and target are both non-blank |
| LanguagesCommon.MergeFoldUntouched | internal/languages/common.go:36-43 | an alias of dst that src does not write keeps its target |
| LanguagesCommon.MergeFoldTargets | internal/languages/common.go:36-43 | an alias that src writes holds a trimmed target written under it |
| LanguagesCommon.TargetsOfOrigin | internal/languages/common.go:37-42 | every target written under an alias comes from a src entry whose trimmed key is that alias |
| LanguagesCommon.ValidAliasesComplete | internal/languages/common.go:37-42 | every src entry with non-blank trimmed alias and target is written |
| LanguagesCommon.MergeFoldSnoc | internal/languages/common.go:36-43 | visiting one more key writes its trimmed alias and target exactly when both are non-blank |
| LanguagesCommon.MergeImportAliases | internal/languages/common.go:29-45 | an empty src returns dst; otherwise the loop over src in iteration order computes the fold |
| LanguagesCommon.MergeIntoEmptyNormalizes | internal/languages/common.go:29-45 | merging into an empty map normalises src the way normalizeImportAliases does |
| LanguagesCommon.MergeCleanPrefix | internal/languages/common.go:36-43 | for trimmed, non-blank src entries, visiting some keys adds exactly those entries to dst |
| LanguagesCommon.MergeNormalized | internal/languages/common.go:29-45 | merging a trimmed, non-blank alias map is the map union with src winning, whatever the iteration order |
| LanguagesCommon.SplitAliasByAsNone | internal/languages/common.go:47-59 | text without " as " is all base, with no alias |
| LanguagesCommon.SplitAliasByAsLast | internal/languages/common.go:47-59 | text with " as " splits at the last non-overlapping " as " that strings.Split finds: the alias is the trimmed text after it, holding no " as ", and the base the trimmed text before it |
| LanguagesCommon.DedupedCallSitesSpec | pkg/languages/common.go:12-55 | dedupeCallSites keeps the same call sites as normalizeCallSites, ordered by (line, qualifier, name, raw) |
| LanguagesCommon.DedupeKeep | pkg/languages/common.go:19-39 | a named call site with an unseen key is appended and its key recorded |
| LanguagesCommon.DedupeSkip | pkg/languages/common.go:24-37 | a nameless call site, or one with a seen key, changes nothing |
| LanguagesCommon.DedupeCallSites | pkg/languages/common.go:12-55 | the loop with its seen set, then the sort, computes the de-duplicated, ordered call sites |
| LanguagesCommon.AsWrittenDedupeKeyCollision | pkg/languages/common.go:28-34 | a qualifier ending in `\|` and a receiver starting with `\|` give distinct call sites the same joined key |
| LanguagesCommon.AsWrittenDedupeMerges | pkg/languages/common.go:28-39 | as written, the second of two such call sites is dropped; keyed by the fields, both are kept |
| GraphLookup.DedupedSortedSpec | internal/graph/graph.go:248-264 | dedupeAndSort returns each value once, in strictly ascending order, and keeps exactly the values of its input |
| GraphLookup.DedupedSortedSameMembers | internal/graph/graph.go:248-264 | two inputs with the same members give the same result |
| GraphLookup.DedupeAndSort | internal/graph/graph.go:248-264 | the loop with its seen set, then the sort, computes the de-duplicated, ascending list |
| GraphLookup.Rank | internal/graph/graph.go:511-520 | the rank is 0 exactly for labels other than ambiguous, heuristic and resolved |
| GraphLookup.MergeConfidence | internal/graph/graph.go:511-521 | the merge returns one of its two labels, ranked at least as high as both, and the new label whenever it ranks at least as high as the current one |
| GraphLookup.MergeConfidenceOrderFree | internal/graph/graph.go:511-521 | for the three known labels the merge is commutative and idempotent, so the label of an edge does not depend on the order of its calls |
| GraphLookup.ParseNodeIDOfStable | internal/graph/graph.go:308-314 | a stable symbol ID parses back into its file and symbol name when neither holds `\|` |
| GraphLookup.ParseNodeIDPlain | internal/graph/graph.go:308-314 | an ID without `\|` parses as the whole file with an empty symbol |
| GraphLookup.ModuleName | internal/graph/graph.go:502-509 | the module of a file is a single path element |
| GraphLookup.SymbolIDsMembers | internal/graph/graph.go:135-146 | the IDs a file contributes under a name and scope are the IDs of its symbols declared there |
| GraphLookup.ScopedIDsMembers | internal/graph/graph.go:126-146 | the IDs collected under a name and scope are the IDs of the symbols of any file declared there |
| GraphLookup.LookupMember | internal/graph/graph.go:117-173 | an ID is in a lookup list exactly when some file declares a symbol of that name and scope with that ID |
| GraphLookup.LookupSpec | internal/graph/graph.go:117-173 | each lookup list (global, by file, methods by file, by module) is strictly ascending and holds exactly the declared IDs |
| GraphLookup.LookupEmpty | internal/graph/graph.go:117-173 | a name nobody declares in a scope has an empty list there |
| GraphLookup.DeclaredAnywhere | internal/graph/graph.go:135-143 | every scoped declaration is also a global one |
| GraphLookup.ChooseUniqueSpec | internal/graph/graph.go:394-400 | chooseUnique succeeds exactly when the candidates are non-empty and all equal, and then returns that one ID with the given label |
| GraphLookup.FromFilesMembers | internal/graph/graph.go:402-412 | the IDs gathered from candidate files are those declared under the name in one of them |
| GraphLookup.CollectFromFilesSpec | internal/graph/graph.go:402-412 | collectFromFiles is strictly ascending and holds exactly the IDs declared under the name in a candidate file |
| GraphLookup.PrimaryQualifierFirstSegment | internal/graph/graph.go:381-392 | the primary qualifier is the trimmed first dot-separated segment of the trimmed qualifier, so it never holds a '.' |
| GraphLookup.LastSegment | internal/graph/graph.go:493-500 | the last segment of an import path holds no '/' |
| GraphLookup.DefaultAliasFromImport | internal/graph/graph.go:493-500 | a default alias holds no '/' |
| GraphLookup.MatchingFilesSpec | internal/graph/graph.go:455-468 | the matching files are the files of the project that importMatchesFile accepts, for a non-blank import |
| GraphLookup.MatchImportCandidatesSpec | internal/graph/graph.go:455-468 | a blank import (after removing quotes and spaces) matches nothing; otherwise a file is a candidate exactly when importMatchesFile accepts it |
| GraphLookup.AddDefaultAliasesKeeps | internal/graph/graph.go:424-431 | a default alias never overrides an explicit alias or an earlier default |
| GraphLookup.AddDefaultAliasesOrigin | internal/graph/graph.go:424-431 | every alias the imports add is non-blank, maps to one of the imports, and is that import's default alias |
| GraphLookup.Paths | internal/graph/graph.go:416-419 | the list of all files holds the path of each parsed file, in order |
| GraphLookup.SourceCandidatesOk | internal/graph/graph.go:436-446 | every alias kept for a source file names a non-empty, strictly ascending list of project files |
| GraphLookup.CandidatesOkUpdate | internal/graph/graph.go:447-449 | adding a source file's non-empty candidate map keeps every entry well formed |
| GraphLookup.CandidatesFoldOk | internal/graph/graph.go:421-450 | the fold over the source files keeps only project files with non-empty alias maps of well-formed candidate lists |
| GraphLookup.CandidateMapsOk | internal/graph/graph.go:436-446 | each source file's candidate map is well formed |
| GraphLookup.BuildImportAliasCandidatesOk | internal/graph/graph.go:414-453 | every source file with candidates is a project file with a non-empty alias map, and every alias lists a non-empty, ascending set of project files |
| GraphLookup.ChooseFromScope | internal/graph/graph.go:394-400 | a unique choice from a scope's lookup list is declared in that scope |
| GraphLookup.ResolveNearbySound | internal/graph/graph.go:353-364 | a module or global resolution is one heuristic target declared under the call's name |
| GraphLookup.ResolveElsewhereSound | internal/graph/graph.go:338-364 | a resolution after the file scope is one heuristic target declared under the call's name |
| GraphLookup.MethodsAreInFile | internal/graph/graph.go:147-151 | a method listed for a file is also listed for the file |
| GraphLookup.ResolveSound | internal/graph/graph.go:316-367 | a resolved call has a non-blank name and exactly one target declared under that name; a "resolved" label means the target is declared in the calling file, otherwise the label is "heuristic" |
| GraphLookup.LookupSingle | internal/graph/graph.go:117-173 | a name with a single declared ID in a scope has exactly that ID listed there |
| GraphLookup.OnlyDeclaration | internal/graph/graph.go:135-143 | a name declared once globally is declared at most once in any scope |
| GraphLookup.ResolveNearbyUnique | internal/graph/graph.go:353-364 | a name declared exactly once is resolved heuristically to that declaration by the module and global steps |
| GraphLookup.ResolveUniqueName | internal/graph/graph.go:316-367 | an unqualified, non-receiver call to a name declared exactly once resolves to it: "resolved" when it is in the calling file, "heuristic" otherwise |
| GraphLookup.ResolveUnknownQualifier | internal/graph/graph.go:327-351 | a call with a qualifier that no import alias of the file matches, and no same-file declaration, is left unresolved |
| GraphLookup.UnknownQualifierElsewhere | internal/graph/graph.go:338-351 | past the file scope, an unmatched qualifier stops resolution |
| GraphLookup.ResolveAmbiguousGlobal | internal/graph/graph.go:316-367 | a plain call to a name with two global declarations, none in the file or module, is left unresolved |
| GraphEdges.NodesOfSymbolsMember | internal/graph/graph.go:59-72 | every node the first pass adds for a file is a fresh node of one of its symbols, under that symbol's ID |
| GraphEdges.NodesOfSymbolsKeys | internal/graph/graph.go:59-72 | the first pass over a file's symbols adds exactly their IDs |
| GraphEdges.NodesOfFilesKeys | internal/graph/graph.go:58-74 | the first pass creates a node for exactly the IDs of the parsed symbols |
| GraphEdges.NodesOfFilesFresh | internal/graph/graph.go:58-74 | each node of the first pass carries its ID, the symbol and file it came from, and no edges |
| GraphEdges.FileNodesOfSymbolsMember | internal/graph/graph.go:71 | a file's symbols list their IDs under its path |
| GraphEdges.FileNodesOfFilesMember | internal/graph/graph.go:58-74 | a file has an entry exactly when it has symbols, and it lists exactly the IDs of its symbols |
| GraphEdges.WithEdgeOut | internal/graph/graph.go:91-93 | adding an edge adds exactly the target to the out-edges of the source |
| GraphEdges.WithEdgeIn | internal/graph/graph.go:97-99 | adding an edge to a known target adds exactly the source to its in-edges |
| GraphEdges.WithEdgeLabel | internal/graph/graph.go:94-97 | the edge's label becomes the merge of its old label and the new one; no other label changes |
| GraphEdges.WithEdgeMirrored | internal/graph/graph.go:91-99 | adding an edge keeps every out-edge mirrored by an in-edge and back |
| GraphEdges.WithEdgeAdded | internal/graph/graph.go:90-100 | adding an edge changes only the source's out-edges and label and the target's in-edges |
| GraphEdges.LabelsAt | internal/graph/graph.go:94-97 | after an edge is added, the labels of the source still match its out-edges and are known labels |
| GraphEdges.EdgeAddedAligned | internal/graph/graph.go:90-100 | adding an edge keeps keys equal to IDs, no self-edges, and labels matching out-edges |
| GraphEdges.WithEdgeLinked | internal/graph/graph.go:90-100 | adding a labelled edge to a known target keeps the graph linked |
| GraphEdges.WithEdgeOthers | internal/graph/graph.go:90-100 | adding an edge leaves the out-edges of every other node unchanged |
| GraphEdges.WithEdgesLinked | internal/graph/graph.go:89-101 | adding the edges of a resolution to known targets keeps the graph linked |
| GraphEdges.WithEdgesOthers | internal/graph/graph.go:89-101 | adding the edges of a resolution changes only the source's out-edges |
| GraphEdges.DeclaredNode | internal/graph/graph.go:58-74 | every declared ID has a node |
| GraphEdges.SoundResolutionOk | internal/graph/graph.go:88 | a sound resolution has known labels and targets that are nodes |
| GraphEdges.ResolverOfSound | internal/graph/graph.go:316-367 | resolve only returns known labels and targets that have nodes |
| GraphEdges.CallEdgesLinked | internal/graph/graph.go:86-103 | the calls of a symbol add edges that keep the graph linked |
| GraphEdges.CallEdgesOthers | internal/graph/graph.go:86-103 | the calls of a symbol change only that symbol's out-edges |
| GraphEdges.SymbolEdgesLinked | internal/graph/graph.go:82-104 | the symbols of a file add edges that keep the graph linked |
| GraphEdges.SymbolEdgesOthers | internal/graph/graph.go:82-104 | only nodes of the file's symbols gain out-edges |
| GraphEdges.FileEdgesLinked | internal/graph/graph.go:78-105 | the second pass keeps the graph linked: keys are IDs, no self-edges, labels match out-edges, and every out-edge is mirrored by an in-edge and back |
| GraphEdges.FileEdgesOthers | internal/graph/graph.go:78-105 | only nodes of the symbols of selected source files gain out-edges |
| GraphEdges.NormalizedNodeSpec | internal/graph/graph.go:234-246 | a normalised node keeps its identity, lists its edges once each in ascending order, and keeps labels exactly for its out-edges, with their old values |
| GraphEdges.NormalizedNodesSorted | internal/graph/graph.go:234-246 | normalising keeps the node IDs, sorts every edge list and aligns the labels with the out-edges |
| GraphEdges.DedupedSortedKeepsMembers | internal/graph/graph.go:248-264 | dedupeAndSort keeps exactly the members of its input |
| GraphEdges.NormalizedByLabel | internal/graph/graph.go:240-244 | a cleaned label map holds a known label for exactly the out-edges |
| GraphEdges.NormalizedByLabelled | internal/graph/graph.go:234-246 | normalising keeps keys equal to IDs, no self-edges and labels aligned |
| GraphEdges.NormalizedByOutMirrored | internal/graph/graph.go:234-246 | normalising keeps every out-edge mirrored by an in-edge |
| GraphEdges.NormalizedByInMirrored | internal/graph/graph.go:234-246 | normalising keeps every in-edge mirrored by an out-edge |
| GraphEdges.NormalizedNodesLinked | internal/graph/graph.go:234-246 | normalising a linked graph keeps it linked |
| GraphEdges.DedupedSortedAscending | internal/graph/graph.go:248-264 | dedupeAndSort leaves a strictly ascending list unchanged |
| GraphEdges.NormalizedNodeByIdempotent | internal/graph/graph.go:234-246 | normalising a node twice is normalising it once, for any idempotent de-duplication |
| GraphEdges.NormalizedNodeIdempotent | internal/graph/graph.go:234-246 | normalising a node twice is normalising it once |
| GraphEdges.NormalizedNodesIdempotent | internal/graph/graph.go:234-246 | normalizeEdges is idempotent |
| GraphEdges.FirstPassLinked | internal/graph/graph.go:58-74 | the graph after the first pass is linked |
| GraphEdges.FirstPassCovers | internal/graph/graph.go:58-74 | after the first pass every declared ID has a node |
| GraphEdges.BuildNodesLinked | internal/graph/graph.go:55-115 | the finished graph has a node for exactly the parsed symbols, is linked, and lists every edge once in ascending order |
| GraphEdges.BuildNodesSources | internal/graph/graph.go:78-105 | in the finished graph, only symbols of selected source files have out-edges |
| Graph.PresentNodesMember | internal/graph/graph.go:273-278 | the nodes gathered for a file are the nodes of its listed IDs that exist |
| Graph.NodesForFileSpec | internal/graph/graph.go:266-289 | NodesForFile returns exactly the existing nodes of a known file (none for an unknown file), ordered by line and then ID |
| Graph.Graph.constructor | internal/graph/graph.go:37-43 | a new graph has no nodes and no files |
| Graph.Graph.AddNodes | internal/graph/graph.go:58-74 | the first pass computes the node fold and the file-node fold |
| Graph.Graph.AddResolution | internal/graph/graph.go:89-101 | adding a resolution's targets computes the edge fold; the file lists are unchanged |
| Graph.Graph.AddSymbolEdges | internal/graph/graph.go:83-103 | a symbol's calls add the edges of the call fold |
| Graph.Graph.AddEdges | internal/graph/graph.go:78-105 | the second pass over the selected files adds the edges of the file fold |
| Graph.Graph.NormalizeEdges | internal/graph/graph.go:234-246 | every node is replaced by its normal form; the file lists are unchanged |
| Graph.Graph.NodesForFile | internal/graph/graph.go:266-289 | the method returns the sorted existing nodes of the file |
| Graph.Graph.Files | internal/graph/graph.go:290-297 | Files lists every file with nodes once, in strictly ascending order |
| Graph.NormalizeAll | internal/graph/graph.go:234-246 | visiting the nodes in any order, normalising each one gives the normalised graph |
| Graph.NormalizeNode | internal/graph/graph.go:235-245 | the node's edge lists are de-duplicated and sorted and its labels cleaned |
| Graph.CleanedConfidence | internal/graph/graph.go:240-244 | the cleaned label map holds, for each normalised out-edge, its old label (empty when it had none) |
| Graph.BuildFromParseResult | internal/graph/graph.go:45-115 | the built graph has a node for exactly the parsed symbols, is linked, and lists every edge once in ascending order |
| FileutilStrings.DedupeStrings | internal/fileutil/strings.go:5-16 | the seen-set loop returns the first occurrence of each string, in input order |
| FileutilStrings.DedupeStringsSpec | internal/fileutil/strings.go:5-16 | the result has no duplicates, the same members as the input, and keeps the order of first occurrences |
| FileutilStrings.DedupeStringsIdempotent | internal/fileutil/strings.go:5-16 | de-duplicating twice is de-duplicating once |
| FileutilStrings.MapKeysSorted | internal/fileutil/strings.go:18-25 | every key, whether mapped to true or false, appears once, in strictly ascending order |
| FileutilStrings.ToSet | internal/fileutil/strings.go:27-33 | the set maps exactly the given paths, each to true |
| FileutilStrings.PresentCount | internal/fileutil/strings.go:37-41 | the kept paths are those present in the map, each as often as in the input |
| FileutilStrings.ExistingFiles | internal/fileutil/strings.go:35-44 | the loop keeps the present paths in order, then sorts them |
| FileutilStrings.ExistingFilesSpec | internal/fileutil/strings.go:35-44 | the result is sorted, and a path occurs in it as often as in the input when present in the map, and never otherwise |
| FileutilWrite.FileStore.constructor | internal/fileutil/write.go:16-40 | the store starts with the given files and the paths whose read, stat or write fails |
| FileutilWrite.FileStore.WriteIfChangedTracked | internal/fileutil/write.go:16-28 | a file that already holds the bytes is not written and the result is false; a read error other than not-found is returned with nothing written; a failed write is returned; otherwise the file holds the bytes and the result is true |
| FileutilWrite.FileStore.WriteIfMissing | internal/fileutil/write.go:30-40 | a path whose stat fails with an error other than not-found gives the inspect error; a path that stats is left alone even when it cannot be read; otherwise the bytes are written unless the write fails |
| FileutilWrite.EnsureTrailingNewline | internal/fileutil/write.go:42-47 | the result ends in a newline, extends s by at most one character, and is s when s already ends in one |
| FileutilWrite.EnsureTrailingNewlineIdempotent | internal/fileutil/write.go:42-47 | ensuring the trailing newline twice is ensuring it once |
| CliFlags.AliasesCanonical | internal/cli/flags.go:31-41 | every alias names one of go, python, ruby, typescript, javascript, and each of those is its own alias |
| CliFlags.ParseLanguageFilter | internal/cli/flags.go:22-54 | an empty list gives the empty filter; the call fails, naming the first entry whose trimmed, lower-cased text is not a known alias, exactly when such an entry exists; otherwise the filter maps exactly the canonical languages of the entries to true |
| CliFlags.FilterStep | internal/cli/flags.go:44-51 | adding one supported entry adds its canonical language to the filter |
| CliFlags.FilterCanonical | internal/cli/flags.go:43-53 | every language in a parsed filter is canonical |
| CliFlags.OptionalStringFlag | internal/cli/flags.go:11-20 | an absent command or flag gives ""; otherwise the value is trimmed, and an already trimmed value is returned as is |
| CliUtil.LoadIgnoreRules | internal/cli/util.go:19-45 | a missing file gives no rules; otherwise the scanner loop keeps the trimmed lines that are neither blank nor comments, in file order |
| CliUtil.RulesSpec | internal/cli/util.go:31-38 | every rule is trimmed, non-blank and does not start with '#', comes from a line of the file, and every such line gives a rule |
| CliUtil.RulesIdempotent | internal/cli/util.go:31-38 | filtering the rules a second time returns them unchanged |
| State.State.constructor | internal/state/state.go:40-47 | a new state has the current state and parser versions and empty file and output-hash maps |
| State.State.GetFileHash | internal/state/state.go:117-124 | a hash is found exactly when the file is tracked, and it is the tracked hash |
| State.State.HasChanged | internal/state/state.go:126-133 | a file has changed exactly when it is untracked or its tracked hash differs from the current one |
| State.State.SetFileHash | internal/state/state.go:97-103 | the file's entry is replaced by one holding only the hash, nothing else changes, and the file no longer counts as changed for that hash |
| State.State.SetFileData | internal/state/state.go:105-115 | the entry for the file's path is replaced by its hash, language, symbols, imports and aliases with no dependencies, nothing else changes, and the file no longer counts as changed |
| State.State.RemoveFile | internal/state/state.go:135-138 | only that file's entry is removed, a nil map stays nil, and the file counts as changed afterwards |
| State.State.ChangedFiles | internal/state/state.go:140-152 | each file of the current hashes that is untracked or whose hash differs, once, and no other |
| State.State.DeletedFiles | internal/state/state.go:154-165 | each tracked file not marked present, once, and no other |
| State.ReverseDeps | internal/state/state.go:169-174 | the reverse map lists g under d exactly when tracked file g lists d among its dependencies |
| State.Propagate | internal/state/state.go:191-202 | from sound seeds, the queue loop ends with exactly the files reached from the seeds through reverse dependencies |
| State.MarkDependers | internal/state/state.go:192-201 | handling one dequeued file keeps the marked set sound and restores closure, and lowers the count of unmarked files plus queued ones by exactly the dequeued one |
| State.State.ImpactedFiles | internal/state/state.go:167-209 | the result is strictly ascending and holds exactly the changed and deleted files and every tracked file that depends on one of them, directly or through other files |
| State.ReachesStep | internal/state/state.go:193-200 | a file that depends on a reached file is reached |
| State.ReachesClosed | internal/state/state.go:191-202 | a set that holds the seeds and every depender of its members holds every reached file |
| State.State.GetOutputHash | internal/state/state.go:219-223 | a hash is found exactly when one is stored for the output, and it is the stored one |
| State.State.SetOutputHash | internal/state/state.go:211-217 | a nil map is created, the hash is stored for that output, and every other output's hash is unchanged |
| State.MigratedVersion | internal/state/state.go:236-243 | versions "" and "1" become the current version and every other version is kept |
| State.DefaultParserVersion | internal/state/state.go:232-234 | an empty parser version becomes the current one and any other is kept |
| State.SavedVersion | internal/state/state.go:73-75 | only an empty version is replaced when saving |
| State.MigrationIdempotent | internal/state/state.go:225-244 | migrating twice is migrating once, and saving a migrated state keeps its version |
| State.State.Migrate | internal/state/state.go:225-244 | nil maps become empty with tracked files and output hashes kept, and the versions become their migrated values |
| State.State.PrepareSave | internal/state/state.go:72-84 | before writing, empty versions get the current values and nil maps become empty, with contents kept |
| FileutilState.WithID | internal/fileutil/state_helpers.go:41-48 | a symbol keeps a non-empty ID and otherwise gets the stable ID of its file, so the result is the symbol under its graph node ID and never has an empty ID |
| FileutilState.EnsureSymbolIDs | internal/fileutil/state_helpers.go:41-48 | every symbol of the file is filled in as WithID says, in place and in order, and nothing else of the file changes |
| FileutilState.WithIDIdempotent | internal/fileutil/state_helpers.go:41-48 | filling in IDs a second time changes nothing, and the filled-in symbol keeps its node ID |
| FileutilState.CollectTracked | internal/fileutil/state_helpers.go:14-29 | the loop over the current hashes yields, once per path, the restored entry of every current path the state tracks, and no other |
| FileutilState.ParseResultFromState | internal/fileutil/state_helpers.go:11-39 | the result keeps the root path and holds, in strictly ascending path order, the restored entry (saved language, symbols with IDs filled in, imports and aliases, current hash) of exactly the current paths the state tracks |
| FileutilState.SortedByPath | internal/fileutil/state_helpers.go:31-33 | sorting entries with different paths by path is a permutation in strictly ascending path order |
| FileutilState.CollectedPermutation | internal/fileutil/state_helpers.go:31-33 | reordering the restored entries keeps each of them restored and keeps every path |
| FileutilState.AddEdgeTargets | internal/fileutil/state_helpers.go:77-83 | one node's edges add exactly the files their target IDs name, other than "" and the file itself |
| FileutilState.FileDependencies | internal/fileutil/state_helpers.go:67-86 | a file's dependencies are, once each and ascending, exactly the other files that an edge out of one of its nodes leads into |
| FileutilState.ApplyToFiles | internal/fileutil/state_helpers.go:63-88 | each tracked target gets its graph dependencies with its other data kept, untracked targets are skipped, and every other entry is unchanged |
| FileutilState.ApplyGraphDependencies | internal/fileutil/state_helpers.go:50-89 | the targets are the given set, or every tracked file when it is nil; each tracked target's dependencies are rewritten from the graph and the rest of the state is kept |
| FileutilImpact.AppendReason | internal/fileutil/state_helpers.go:181-188 | the list gains the reason at its end unless it already holds it, so a list without repeats stays without repeats |
| FileutilImpact.AddReason | internal/fileutil/state_helpers.go:109 | only the file's entry changes, and it gains exactly the new reason |
| FileutilImpact.ReachedSetMembers | internal/fileutil/state_helpers.go:119-132 | a file reached from the seeds is a seed or a tracked file |
| FileutilImpact.SeedQueue | internal/fileutil/state_helpers.go:102-117 | every changed and deleted file is seen and queued, with "changed" or "deleted" as its only reasons |
| FileutilImpact.SortReverse | internal/fileutil/state_helpers.go:98-100 | sorting each reverse-dependency list keeps exactly what it lists |
| FileutilImpact.AddDependsReasons | internal/fileutil/state_helpers.go:123-125 | each depender of the dequeued file gains "depends on" that file, and nothing else changes |
| FileutilImpact.MarkWithReasons | internal/fileutil/state_helpers.go:123-131 | every depender gets the reason, and those not yet seen are marked and queued, with the count of unmarked files plus queued ones unchanged |
| FileutilImpact.ReasonsStep | internal/fileutil/state_helpers.go:123-125 | dequeuing a file adds "depends on" it to exactly the files that depend on it |
| FileutilImpact.QueueStateStep | internal/fileutil/state_helpers.go:119-132 | one turn of the queue loop keeps its invariants with the dequeued file counted as done |
| FileutilImpact.ProcessOne | internal/fileutil/state_helpers.go:120-131 | one turn of the queue loop keeps the frontier and the reasons right and lowers the loop's measure |
| FileutilImpact.PropagateReasons | internal/fileutil/state_helpers.go:119-132 | the queue loop ends with exactly the reached files seen, each with its seed reasons and one "depends on" reason per reached file it depends on |
| FileutilImpact.QueueDone | internal/fileutil/state_helpers.go:119-132 | once the queue is empty, every seen file has been dequeued and the seen files are exactly those reached |
| FileutilImpact.SymbolNamesSpec | internal/fileutil/state_helpers.go:140-144 | a symbol name is gathered exactly when it is non-empty and some symbol has it |
| FileutilImpact.ChangedNamesSpec | internal/fileutil/state_helpers.go:134-145 | the changed names are exactly the gathered names of the tracked changed files |
| FileutilImpact.CollectChangedNames | internal/fileutil/state_helpers.go:134-145 | the loops gather exactly the changed names, and never the empty name |
| FileutilImpact.FirstCallSpec | internal/fileutil/state_helpers.go:154-159 | no call matches exactly when no call's name is a changed name; otherwise the match is the first call, in order, whose name is one |
| FileutilImpact.FirstMatchSpec | internal/fileutil/state_helpers.go:152-163 | a matched name is a non-empty changed name that some call has; with no empty changed name, no match means no call names a changed symbol |
| FileutilImpact.MatchedName | internal/fileutil/state_helpers.go:152-163 | the nested loops with their breaks return the first match, or "" when there is none |
| FileutilImpact.CallersStep | internal/fileutil/state_helpers.go:147-170 | visiting one more tracked file adds it, with its reason, exactly when it is unseen and has a match |
| FileutilImpact.VisitFile | internal/fileutil/state_helpers.go:148-169 | one turn of the loop over tracked files marks the file, with "calls changed symbol" and the matched name, exactly when it was not seen, there are changed names, and it has a match |
| FileutilImpact.AddCallers | internal/fileutil/state_helpers.go:147-170 | after the loop, the seen files are the reached ones plus every unseen tracked file with a match, each of those with exactly one new reason |
| FileutilImpact.Finish | internal/fileutil/state_helpers.go:172-178 | the impacted list is the seen files once each in ascending order, and each seen file's reason list is sorted |
| FileutilImpact.SeedsReady | internal/fileutil/state_helpers.go:102-117 | the seeded state meets the invariants of the queue loop |
| FileutilImpact.ResultSpec | internal/fileutil/state_helpers.go:91-170 | the files and reasons collected are exactly those the specification of impact and reasons describes |
| FileutilImpact.ImpactedWithReasons | internal/fileutil/state_helpers.go:91-179 | the impacted files are ascending and are exactly the reached files plus the unreached tracked files that call a changed symbol; the reasons map has exactly those files, each list ascending without repeats and holding exactly the reasons of the specification |
| FileutilImpact.ReachedHasReason | internal/fileutil/state_helpers.go:106-131 | a reached file is changed, deleted, or depends on a reached file |
| FileutilImpact.EveryImpactedHasReason | internal/fileutil/state_helpers.go:91-179 | no impacted file is left without a reason |
| CliHelpers.RequiredOutputFiles | internal/cli/helpers.go:142-151 | text requires index, graph, navigation and search files; jsonl requires symbols, edges, manifest, navigation and search files; both end with the navigation and search indexes, none repeats, and any other format requires nothing |
| CliHelpers.ModuleOf | internal/cli/helpers.go:159-167 | a file's module is "root" or a non-empty name without '/' |
| CliHelpers.TopLevelFileIsRoot | internal/cli/helpers.go:160-167 | a file with no directory belongs to the module "root" |
| CliHelpers.ModuleFileNamePlain | internal/cli/helpers.go:168 | replacing '/' by '_' never changes a module name, so the artifact is the module name plus ".txt" |
| CliHelpers.SameModuleSameArtifact | internal/cli/helpers.go:159-170 | files of one module expect one shared artifact |
| CliHelpers.ExpectedTextModuleArtifacts | internal/cli/helpers.go:153-178 | nothing for a nil state; otherwise the expected artifact of every tracked file, each once, strictly ascending |
| CliHelpers.HashesOfMembers | internal/cli/helpers.go:49-62 | a path is recorded exactly when it is an output path whose hash could be read, with that hash |
| CliHelpers.RequiredAreRecorded | internal/cli/helpers.go:24-47 | every required output of a format is among the paths RecordOutputHashes hashes |
| CliHelpers.HashOutputs | internal/cli/helpers.go:49-64 | succeeds exactly when no output path has a read error other than not-exist; then the map holds the hashes of the readable paths; otherwise the first such error is returned with the hashes recorded before it |
| CliHelpers.RecordOutputHashes | internal/cli/helpers.go:21-65 | the output hashes are reset first; an unknown format fails with them empty; otherwise they hold exactly the hashes of the format's output paths, or the first read error is reported; files and versions are unchanged |
| CliHelpers.CloneOutputHashes | internal/cli/helpers.go:84-90 | the clone equals the input; a nil input gives an empty map |
| CliHelpers.RewrittenProperties | internal/cli/helpers.go:92-107 | the rewritten set is symmetric, is empty exactly when every key reads the same in both maps (a missing key reads ""), and is empty for equal maps |
| CliHelpers.AddKeys | internal/cli/helpers.go:94-100 | the seen set gains exactly the keys of the map |
| CliHelpers.CountDiffering | internal/cli/helpers.go:101-105 | counts exactly the seen keys whose values differ |
| CliHelpers.CountRewrittenOutputs | internal/cli/helpers.go:92-107 | the count is the number of keys of either map whose hash reads differently in the other |
| CliHelpers.FindStale | internal/cli/helpers.go:119-126 | true exactly when some listed output has no recorded hash or is not on disk |
| CliHelpers.OutputsNeedRefresh | internal/cli/helpers.go:118-140 | true exactly when a required output, or for text an expected module artifact, has no recorded hash or is not on disk; an unknown format never needs a refresh |
| CliHelpers.RecordedOutputsFresh | internal/cli/helpers.go:21-65 | after recording, outputs that were hashed and are on disk are not stale, so no refresh follows |
| CliHelpers.CollectFilePaths | internal/cli/helpers.go:109-116 | the result is sorted and is a permutation of the files' paths |
| CliHelpers.MaxInt | internal/cli/helpers.go:180-185 | the result is one of the arguments and at least both |
| CliHelpers.FilteredProperties | internal/cli/helpers.go:192-198 | filtering keeps exactly the files whose language the filter maps to true, and filtering again changes nothing |
| CliHelpers.FilterFilesByLanguage | internal/cli/helpers.go:187-199 | an empty filter returns the input unchanged; otherwise the selected files in input order |
| CliHelpers.PathSetMembers | internal/cli/helpers.go:213-215 | a path is stored exactly when some parsed file has it |
| CliHelpers.StoreFiles | internal/cli/helpers.go:213-215 | the tracked files become Persisted of the old ones: each parsed file stored in turn, as SetFileData writes it; versions and output hashes are unchanged |
| CliHelpers.PersistedEntries | internal/cli/helpers.go:213-215 | storing the parsed files adds exactly their paths, keeps every other entry, and leaves under each path the hash, language, symbols, imports and aliases of the last parsed file with that path, with no dependencies |
| CliHelpers.PersistState | internal/cli/helpers.go:211-221 | a new state at the current versions tracks exactly the parsed paths; each holds the data of the last parsed file with that path, with its dependencies rewritten from the graph (ApplyGraphDependencies on every file); on success it holds the recorded output hashes; an unknown format fails |
| NavIndex.ConfidenceList | internal/nav/index.go:32-38 | the labels list pairs each out-edge, in order, with the label the graph recorded for it ("" when none) |
| NavIndex.ConfidencesSpec | internal/nav/index.go:32-38 | every label entry is for an out-edge and carries that edge's recorded label, and every out-edge has an entry |
| NavIndex.SortedByTarget | internal/nav/index.go:39-41 | sorting the label entries orders them by target ID and keeps the same entries (a permutation) |
| NavIndex.IndexNodeConfidence | internal/nav/index.go:32-52 | an index entry's labels are sorted by target, are a permutation of the per-edge labels, and give each out-edge its recorded label |
| NavIndex.IndexEntry | internal/nav/index.go:31-53 | the entry written for a graph node copies its symbol fields and edges and carries the sorted labels |
| NavIndex.IndexEntries | internal/nav/index.go:29-54 | the written entries are, position by position, the entries of the nodes in the given ID order |
| NavIndex.EntriesCover | internal/nav/index.go:23-54 | entries computed over every key of the node map hold each node's entry and nothing else |
| NavIndex.EntriesAscending | internal/nav/index.go:23-27 | entries taken over the sorted keys are in strictly ascending ID order when each node sits under its own ID |
| NavIndex.BuildIndex | internal/nav/index.go:18-59 | the index has version nav-index-v1, holds exactly the entries of the graph's nodes, and lists them in ascending ID order |
| NavIndex.LastByIDKeys | internal/nav/index.go:87-91 | an ID is in the ByID table exactly when some indexed node has it |
| NavIndex.LastByIDLast | internal/nav/index.go:87-91 | each ID maps to the last node in the index with that ID (later duplicates overwrite earlier ones) |
| NavIndex.LastByIDSpec | internal/nav/index.go:87-91 | ByID's keys are the nodes' IDs and each maps to the last node with it |
| NavIndex.IDsNamedSpec | internal/nav/index.go:90 | a name's ID list holds exactly the IDs of the nodes with that name, and is empty for a name no node has |
| NavIndex.LoadStep | internal/nav/index.go:87-91 | one pass of the loading loop extends both tables to cover one more node |
| NavIndex.SortNames | internal/nav/index.go:92-94 | the sorting loop keeps the names and replaces each ID list by its sorted form |
| NavIndex.LoadLookup | internal/nav/index.go:68-96 | a missing, unreadable or undecodable index gives the matching error; otherwise ByID holds the last node of each ID and ByName each name's IDs, sorted and a permutation of the nodes' IDs |
| NavIndex.LoadedLookupClosed | internal/nav/index.go:83-95 | a loaded lookup maps each ID to a node with that ID and lists under each name only IDs that have a node |
| NavIndex.NodesOfSpec | internal/nav/index.go:107-112 | the kept nodes are exactly the nodes of the listed IDs that exist, none dropped when every ID exists |
| NavIndex.ResolvedSpec | internal/nav/index.go:98-114 | a blank query resolves to nothing, an exact ID to its node alone, otherwise to the nodes of the name's IDs, all of them on a loaded lookup |
| NavIndex.Resolve | internal/nav/index.go:98-114 | the loop returns the resolution ResolvedSpec characterises |
| NavIndex.ResolveSingleSymbol | internal/nav/index.go:116-131 | no match is not-found, exactly one match is returned, several give an ambiguity listing their IDs sorted |
| NavIndex.SymbolRecordFromNode | internal/nav/index.go:133-145 | no node gives the zero record; a node gives its ID, name, kind, signature, file and line |
| NavIndex.FirstConfidenceNone | internal/nav/index.go:152-157 | with no entry for the target the label is "" |
| NavIndex.FirstConfidenceAt | internal/nav/index.go:152-156 | the first entry for the target gives the label |
| NavIndex.FirstConfidenceSpec | internal/nav/index.go:147-157 | the label is that of the first entry for the target, or "" when there is none |
| NavIndex.EdgeConfidenceValue | internal/nav/index.go:147-158 | an unknown source gives ""; otherwise the loop returns the first matching entry's label |
| NavGraphOps.NeighboursSpec | internal/nav/graph_ops.go:7-16 | a collected record is exactly the record of a listed edge ID that has a node in the lookup; IDs without a node are skipped |
| NavGraphOps.NeighbourList | internal/nav/graph_ops.go:6-16 | the collecting loop keeps, in edge order, the record of each edge ID that has a node |
| NavGraphOps.Collect | internal/nav/graph_ops.go:5-39 | the records are sorted by symbol ID, are a permutation of the collected records, and are exactly the records of edge IDs with a node |
| NavGraphOps.CollectCallers | internal/nav/graph_ops.go:5-21 | callers with a node, sorted by ID, each labelled with the confidence of the caller's edge to the node |
| NavGraphOps.CollectCallees | internal/nav/graph_ops.go:23-39 | callees with a node, sorted by ID, each labelled with the confidence of the node's edge to the callee |
| NavGraphOps.Reverse | internal/nav/graph_ops.go:83-85 | the swap loop leaves the chain reversed: position k holds the element from the other end |
| NavGraphOps.ReconstructPath | internal/nav/graph_ops.go:73-87 | nil exactly when the parent walk from the target reaches an ID with no parent; otherwise the walk reversed, running from the source to the target along parent links |
| NavGraphOps.ChainStaysVisited | internal/nav/graph_ops.go:75-82 | a walk along parent links that starts on a visited ID stays on visited IDs |
| NavGraphOps.SubsetCard | internal/nav/graph_ops.go:57-66 | a subset is no larger than its superset, which bounds the visited set by the reachable IDs |
| NavGraphOps.FirstOutside | internal/nav/graph_ops.go:57-66 | a path that starts visited and ends unvisited has a first edge leaving the visited set |
| NavGraphOps.NewOptimal | internal/nav/graph_ops.go:46-66 | since IDs are marked visited when queued in distance order, any path to an unvisited ID is at least two edges longer than the distance of the ID being expanded |
| NavGraphOps.OptimalExtend | internal/nav/graph_ops.go:61-62 | giving the new ID a distance no path beats keeps every recorded distance minimal |
| NavGraphOps.VisitTree | internal/nav/graph_ops.go:61-62 | visiting a successor with the current ID as parent extends the search tree consistently |
| NavGraphOps.Visit | internal/nav/graph_ops.go:57-66 | visiting a new successor keeps distances minimal, the tree consistent, and the queue ordered by distance within one layer |
| NavGraphOps.CoveredSnoc | internal/nav/graph_ops.go:61-66 | after queuing a new ID every visited ID is expanded, queued or being expanded |
| NavGraphOps.VisitStep | internal/nav/graph_ops.go:57-66 | one pass of the inner loop that queues a new ID keeps the expansion state |
| NavGraphOps.Finish | internal/nav/graph_ops.go:63-64 | once the target is visited, the reconstructed path exists, runs along out-edges from source to target, and is no longer than any other such path |
| NavGraphOps.Expand | internal/nav/graph_ops.go:51-67 | expanding one queued ID either finds the target and returns a shortest path, or marks the ID expanded, with all its successors visited and the new ones queued behind the rest |
| NavGraphOps.WalkStopsFromDist | internal/nav/graph_ops.go:75-82 | on the search's parent map the walk from a visited ID reaches the source within its distance, so reconstruction terminates |
| NavGraphOps.NoBrokenWalk | internal/nav/graph_ops.go:76-79 | on the search's parent map the walk from a visited ID never breaks, so reconstruction does not return nil |
| NavGraphOps.ChainDist | internal/nav/graph_ops.go:73-87 | position i of the reconstructed path is an ID at search distance i |
| NavGraphOps.FoundShortest | internal/nav/graph_ops.go:63-64 | the reconstructed path is a path along out-edges from source to target and has the fewest edges of any such path |
| NavGraphOps.PathStaysVisited | internal/nav/graph_ops.go:50-68 | a path from a visited ID stays visited when every visited ID is expanded |
| NavGraphOps.NoPath | internal/nav/graph_ops.go:68-70 | when the queue runs dry without visiting the target, no path leads from the source to it |
| NavGraphOps.ReachStep | internal/nav/graph_ops.go:57-61 | IDs visited while expanding an ID are among its out-edges, so the visited set stays within what the search can reach |
| NavGraphOps.Pop | internal/nav/graph_ops.go:51-52 | taking the head of the queue leaves the rest ordered by distance within one layer of the head |
| NavGraphOps.Requeue | internal/nav/graph_ops.go:50-68 | after an expansion the loop's invariant holds again and the visited set is no larger than the reachable set, so the loop terminates |
| NavGraphOps.ShortestPath | internal/nav/graph_ops.go:41-71 | equal ends give [from]; a non-empty result is a path along out-edges from source to target with the fewest edges; nil means no path exists |
| NavDefinition.ParseLocationQuery | internal/nav/definition.go:212-227 | a parsed location has a non-empty file and a line of at least 1 |
| NavDefinition.ParsedLocation | internal/nav/definition.go:212-227 | a parsed query contains a colon; the file is the trimmed text before the last colon (and so already trimmed) and the line is the integer after it |
| NavDefinition.NoColonNoLocation | internal/nav/definition.go:213-216 | a query without a colon never parses as a location |
| NavDefinition.LastColonAfterFile | internal/nav/definition.go:213 | in "file:" followed by colon-free text, the split point is the colon after the file, whatever colons the file contains |
| NavDefinition.ParseLocationRoundTrip | internal/nav/definition.go:212-227 | formatting "file:line" with a positive line and a file that is not blank and parsing it gives back the trimmed file and the same line |
| NavDefinition.FirstByID | internal/nav/definition.go:195-206 | sorting by ID and taking the first element gives a member of the list whose ID is less than or equal to every other's |
| NavDefinition.ScanLocation | internal/nav/definition.go:173-193 | after the loop, the exact list holds exactly the nodes of the file on the line; the best line is the greatest earlier line of the file (or -1), and nearest holds exactly the nodes on it |
| NavDefinition.ResolveNodeAtLocation | internal/nav/definition.go:172-210 | the result is the exact node with the smallest ID if there is one, else the node on the greatest earlier line with the smallest ID, else none |
| NavDefinition.ResolveSymbolOrLocation | internal/nav/definition.go:150-170 | a uniquely resolved symbol wins; otherwise a query that is not a location keeps the not-found or ambiguous error, and a location query gives the node at the location or not-found |
| NavDefinition.KeptSpec | internal/nav/definition.go:255-261 | a node is kept exactly when some reported location resolved to it and it is not the queried node |
| NavDefinition.UniqueCandidates | internal/nav/definition.go:254-261 | the map holds, per ID, the last kept candidate with that ID |
| NavDefinition.KeptIDs | internal/nav/definition.go:254-261 | every key of the unique map is the ID of its node, and the keys are the IDs of the resolved candidates other than the queried node |
| NavDefinition.UniqueRecords | internal/nav/definition.go:262-269 | one record per unique candidate, with no ID twice, each labelled with the confidence of the candidate's edge to the node and source "lsp" |
| NavDefinition.SortRecords | internal/nav/definition.go:270-272 | the records are permuted into non-decreasing ID order |
| NavDefinition.LspReferences | internal/nav/definition.go:246-274 | the references are in strictly ascending ID order, their IDs are exactly the resolved candidates' IDs other than the node's, and each is the record of the last candidate with its ID |
| NavCommands.SlotsShrink | internal/nav/commands.go:213-216 | recording a strictly smaller depth for an ID removes at least one free (ID, depth) pair, so the set of free pairs shrinks strictly |
| NavCommands.ExpandHops | internal/nav/commands.go:196-217 | every new hop follows an out-edge of the current node to an existing node, at the current depth plus one; earlier hops are kept; an enqueue happens only when the free pairs shrink |
| NavCommands.TraceWalk | internal/nav/commands.go:185-218 | the walk terminates (the free pairs shrink or the queue does), and every hop has a depth between 1 and the limit and follows an out-edge between two nodes of the lookup |
| NavCommands.HopKeyOrder | internal/nav/commands.go:220-228 | hops whose (depth, source ID, target ID) keys are in order are in trace order |
| NavCommands.SortHops | internal/nav/commands.go:220-228 | the sorted hops are a permutation of the walk's hops, ordered by depth, then source ID, then target ID |
| NavCommands.Trace | internal/nav/commands.go:160-228 | a depth below 1 is refused; a query that resolves to no symbol or to several keeps that error; otherwise the start node and sorted hops, every one a real edge within the depth limit |
| NavCommands.OptionalFlag | internal/nav/commands.go:318-338 | an absent command or flag gives the default; a flag that reads gives its value; a flag that does not read gives an error naming it |
| Search.RunLen | internal/search/index.go:23 | the longest leading run of `[a-z0-9_]` characters stops at the end or at the first other character |
| Search.Tokens | internal/search/index.go:233 | every token found is non-empty and made only of `[a-z0-9_]` characters |
| Search.RunLenStops | internal/search/index.go:233 | a run of token characters never crosses a non-token character |
| Search.TokensOfWord | internal/search/index.go:228-234 | a non-empty word of token characters is its own single token |
| Search.TokensSeparated | internal/search/index.go:228-234 | the tokens of text split at a non-token character are the tokens of each side, concatenated |
| Search.Occurrences | internal/search/index.go:223-225 | a token occurs a positive number of times exactly when it is in the token list |
| Search.WeightedGet | internal/search/index.go:219-226 | after weighting, a term's count grows by the weight times the number of its occurrences in the value |
| Search.WeightedKeys | internal/search/index.go:219-226 | after weighting, the terms are the old terms together with the value's tokens |
| Search.MapSumAt | internal/search/index.go:63-65 | the sum of a term map is one entry plus the sum of the rest |
| Search.MapSumAdd | internal/search/index.go:224 | adding a weight to one term adds that weight to the map's sum |
| Search.WeightedSum | internal/search/index.go:219-226 | weighting a value adds the weight times its token count to the map's sum |
| Search.AddWeighted | internal/search/index.go:219-226 | a non-positive weight leaves the terms unchanged; otherwise every token of the value adds the weight |
| Search.BuildTerms | internal/search/index.go:210-217 | the term map built is the name weighted 4, the signature and the file path 2 each, and the doc 1 |
| Search.TermsOfSpec | internal/search/index.go:210-217 | each term's count is 4, 2, 2 and 1 times its occurrences in name, signature, path and doc, and the terms are exactly their tokens |
| Search.TermsOfSum | internal/search/index.go:210-217 | the sum of a term map is the weighted count of all the tokens |
| Search.SumCounts | internal/search/index.go:62-65 | the document length is the sum of its term counts |
| Search.DocCount | internal/search/index.go:83-85 | a term's document frequency is at most the number of documents |
| Search.DocsOfSpec | internal/search/index.go:59-81 | the documents are the nodes with a positive length, each carrying its length and its terms |
| Search.SkippedIff | internal/search/index.go:66-68 | a node is skipped exactly when its name, signature, file and doc have no tokens |
| Search.DocCountSpec | internal/search/index.go:83-85 | a term has a positive document frequency exactly when some document holds it |
| Search.CountTerms | internal/search/index.go:83-85 | every term of the document gains 1 in the document frequency and no other count changes |
| Search.FreqStep | internal/search/index.go:83-85 | counting one more document's terms keeps the frequency equal to the number of documents holding each term |
| Search.CollectDocuments | internal/search/index.go:59-87 | the loop collects exactly the documents of the nodes with terms, in order, and the document frequency of each term |
| Search.BuildDocuments | internal/search/index.go:59-104 | the index holds a permutation of the collected documents sorted by ID, their count, the version and the document frequency |
| Search.Build | internal/search/index.go:50-105 | no graph gives an empty index; otherwise the documents of the nodes of every file in sorted file order, sorted by ID, with their document frequencies |
| SearchRank.EditDistanceSelf | internal/search/index.go:280-282 | a string is at distance 0 from itself |
| SearchRank.EditDistanceZero | internal/search/index.go:279-312 | distance 0 means the strings are equal |
| SearchRank.EditDistanceZeroIff | internal/search/index.go:279-312 | the distance is 0 exactly when the strings are equal |
| SearchRank.EditDistanceEmpty | internal/search/index.go:283-288 | the distance to or from the empty string is the other string's length |
| SearchRank.EditDistanceSymmetric | internal/search/index.go:279-312 | the distance is symmetric |
| SearchRank.EditDistanceBound | internal/search/index.go:279-312 | the distance is at most the longer length |
| SearchRank.TableStep | internal/search/index.go:298-307 | each table entry is the least of insertion, deletion and substitution from its neighbours |
| SearchRank.NextRow | internal/search/index.go:295-309 | the new row holds the distances from the next prefix of a to every prefix of b |
| SearchRank.LevenshteinDistance | internal/search/index.go:279-312 | the result is the edit distance of the two strings |
| SearchRank.RankLeTotalPreorder | internal/search/index.go:191-196 | the result order (higher score first, then ascending ID) is total and transitive |
| SearchRank.RankedSpec | internal/search/index.go:191-196 | ranking permutes the results into that order |
| SearchRank.Take | internal/search/index.go:198-200 | truncation keeps a prefix of at most the limit, and everything when there are fewer |
| SearchRank.JoinTokens | internal/search/index.go:276 | tokens joined with no separator hold only token characters and are non-empty when there is a token |
| SearchRank.NormalizeForFuzzySpec | internal/search/index.go:271-277 | the normalised form holds only token characters and is empty exactly when the value has no tokens |
| SearchRank.FuzzyScoreOrder | internal/search/index.go:256 | a fuzzy score is higher exactly when the distance is smaller, and equal exactly when the distances are equal |
| SearchRank.FuzzyScoreLess | internal/search/index.go:256 | a smaller distance gives a strictly higher score |
| SearchRank.ReciprocalLess | internal/search/index.go:256 | the reciprocal falls as a positive number grows |
| SearchRank.FuzzyMatchesSpec | internal/search/index.go:243-257 | a fuzzy match is a document whose normalised name is non-empty and within the threshold, scored 1 / (1 + distance) |
| SearchRank.CollectFuzzy | internal/search/index.go:243-257 | the loop collects exactly the fuzzy matches, in document order |
| SearchRank.FuzzyNameFallback | internal/search/index.go:236-269 | nothing for a query without tokens; otherwise the best-ranked fuzzy matches, at most the limit |
| SearchRank.ScoredSpec | internal/search/index.go:169-189 | a scored result is a document with a positive score, carrying that score |
| SearchRank.ScoreDocuments | internal/search/index.go:169-189 | the loop keeps exactly the documents with a positive score, in document order |
| SearchRank.TakeSorted | internal/search/index.go:198-200 | truncating ranked results keeps them ranked |
| SearchRank.SearchResultsSpec | internal/search/index.go:137-208 | the answer holds at most the limit (10 when none is given), is ranked, and each result is a scored document or a fuzzy match |
| SearchRank.RankOrFallback | internal/search/index.go:191-207 | the ranked, truncated scored results, or the fuzzy fallback when none scores and the fallback is non-empty |
| SearchRank.SearchIndex | internal/search/index.go:137-208 | nothing without an index, documents or query tokens; otherwise the ranked scored documents for the distinct query terms, or the fuzzy fallback |
| EnrichCache.CacheKey | internal/enrich/cache.go:17-27 | a key is "cache-v1-" followed by sixteen lower-case hex digits of the digest of the trimmed components joined by pipes |
| EnrichCache.CacheKeyTrimmed | internal/enrich/cache.go:18-24 | whitespace around any of the five components does not change the key |
| EnrichCache.Normalize | internal/enrich/cache.go:49-60 | a loaded record takes its profile from Agent when it has none, the legacy prompt version and model "unknown" when missing, and a non-empty key; present values are kept |
| EnrichCache.NormalizeComputesKey | internal/enrich/cache.go:58-60 | a missing key is computed from the record's own fields after the legacy defaults are applied |
| EnrichCache.Decoded | internal/enrich/cache.go:39-63 | blank and undecodable lines are skipped, and every record kept has a key |
| EnrichCache.MergeNewest | internal/enrich/cache.go:65-80 | after merging a record, no record seen so far is more recent than the entry of its key |
| EnrichCache.StoredLast | internal/enrich/cache.go:66-80 | a record that is stored is the newest from its own position on |
| EnrichCache.StoredKeep | internal/enrich/cache.go:78-80 | an entry survives a later record of another key or a strictly older one |
| EnrichCache.MergeStored | internal/enrich/cache.go:65-80 | after merging, each entry sits under its own key and every later record of that key is strictly older (ties go to the later line) |
| EnrichCache.LoadedLatest | internal/enrich/cache.go:39-81 | the loaded cache holds, for each key, the most recent record, the last one among equally recent records |
| EnrichCache.NormalizeRecord | internal/enrich/cache.go:49-60 | the defaults are filled in field by field, giving the normalised record |
| EnrichCache.MergeRecord | internal/enrich/cache.go:65-80 | a new key is added; an existing key is replaced when the record's timestamp (UpdatedAt, else GeneratedAt) is at least the stored one's |
| EnrichCache.MergeLines | internal/enrich/cache.go:39-81 | the loop merges the normalised records of the lines in file order |
| EnrichCache.LoadCache | internal/enrich/cache.go:29-86 | a missing file gives an empty cache, an unreadable one an error, and otherwise the latest record for each key |
| EnrichCache.CollectRecords | internal/enrich/cache.go:89-92 | the loop collects every entry once, in some order of the keys |
| EnrichCache.WriteOrder | internal/enrich/cache.go:88-101 | the written records are every entry once, sorted by symbol ID, then agent profile, then key |
| EnrichCache.PrunedSpec | internal/enrich/cache.go:113-130 | pruning keeps keepKey and every entry of another symbol or profile unchanged and removes every other entry of the symbol and profile |
| EnrichCache.PrunedIdempotent | internal/enrich/cache.go:113-130 | pruning a pruned cache again removes nothing |
| EnrichCache.PruneCacheForSymbol | internal/enrich/cache.go:113-130 | the loop leaves exactly the entries that are not stale, where the profile is AgentProfile or else Agent |
| EnrichWork.CloneSymbolsSortedSpec | internal/enrich/work.go:15-32 | the copy is a permutation of the symbols ordered by line, then by ID (the stable ID when the ID is empty) |
| EnrichWork.CloneSymbolsSortedByLine | internal/enrich/work.go:29 | a symbol on an earlier line comes first |
| EnrichWork.FileItemsSpec | internal/enrich/work.go:41-50 | a file's items are exactly its symbols, each with the file's state and the symbol's node or none |
| EnrichWork.WorkItemsSpec | internal/enrich/work.go:34-53 | the items are exactly the symbols of the target files that are tracked, with their file state and node |
| EnrichWork.AppendFileItems | internal/enrich/work.go:42-50 | the inner loop appends one item per sorted symbol, with the node looked up by ID |
| EnrichWork.CollectWorkItems | internal/enrich/work.go:34-53 | the items come file by file in target order, skipping untracked files, and in sorted symbol order within a file |
| EnrichWork.NormalizeSelectorSpec | internal/enrich/work.go:96-104 | a normalised selector is lower case, and empty exactly when the input is blank or a bare "./" |
| EnrichWork.NormalizeSelectorFixed | internal/enrich/work.go:96-104 | a trimmed, lower-case selector without a leading "./" is left as it is |
| EnrichWork.MatchesCandidate | internal/enrich/work.go:76-88 | the loop finds a candidate exactly when the selector equals the file, ID, name, file:name, file:line or file:line:name |
| EnrichWork.MatchesNamePart | internal/enrich/work.go:93 | a selector found inside the lower-cased name matches |
| EnrichWork.Matching | internal/enrich/work.go:61-66 | filtering never yields more items than it was given |
| EnrichWork.MatchingSpec | internal/enrich/work.go:55-68 | the filtered items are exactly the items that match the selector |
| EnrichWork.FilterWorkItems | internal/enrich/work.go:55-68 | a blank selector keeps every item; otherwise the matching items, in their order |
| EnrichWork.MatchNames | internal/enrich/work.go:113-116 | each item is shown as file:line:name, one entry per item |
| EnrichWork.SummaryNonEmpty | internal/enrich/work.go:117-121 | a summary of at least one name is never empty |
| EnrichWork.CollectNames | internal/enrich/work.go:113-116 | the loop lists each item as file:line:name |
| EnrichWork.SummarizeMatches | internal/enrich/work.go:106-122 | no items give ""; otherwise the sorted entries, all of them when they fit the limit (no limit when it is 0 or less), else the first limit followed by the count of the rest |
| EnrichRecord.SourceLineOfText | internal/enrich/record.go:79-85 | reading line n of a text made of lines gives that line, trimmed |
| EnrichRecord.SourceLinePastEnd | internal/enrich/record.go:82-84 | a line past the end reads as "" |
| EnrichRecord.LineCache.constructor | internal/enrich/record.go:20 | the line cache starts empty |
| EnrichRecord.LineCache.ReadSourceLine | internal/enrich/record.go:68-86 | a line of 0 or less gives "" and leaves the cache; a file is read only when not cached, a failed read is cached as no lines, and with a consistent cache the answer is the trimmed line of the file |
| EnrichRecord.PendingRecordSpec | internal/enrich/record.go:14-66 | a pending record carries the symbol's ID (its stable ID when empty), the agent as agent and profile, the symbol's line as its span, and sorted callees and callers, none without a node |
| EnrichRecord.StableIDNonEmpty | internal/enrich/record.go:24-26 | a stable ID is never empty |
| EnrichRecord.BuildRecord | internal/enrich/record.go:14-66 | ok is always set, and the record is the pending record quoting the symbol's source line |
| EnrichValidate.ValidateOutput | internal/enrich/validate.go:8-25 | the output is accepted exactly when summary, purpose and side effects are non-blank and the confidence is low, medium or high; the first failing check gives the message |
| EnrichValidate.ValidConfidenceNormalised | internal/enrich/validate.go:18 | case and surrounding space in the confidence do not matter |
| GoStrconv.UnquoteQuote | internal/cli/hook.go:93-101 | the `%q` quoting of the repository root reads back to exactly the root |
| GoStrconv.QuoteBodyChars | internal/cli/hook.go:93-101 | quoted text holds no raw control character (no newline in particular); a punctuation character other than `"` and `\` occurs in it exactly when it occurs in the input |
| LlmManaged.UpsertManagedBlock | internal/llm/managed.go:29-44 | the result always ends in a newline |
| LlmManaged.UpsertKeepsText | internal/llm/managed.go:29-44 | an empty text becomes the content and a newline; when the first start marker is found and the first end marker is at or after it, the text before the start marker and after the end marker is kept around the content, newline-terminated; otherwise the text, newline-terminated, then a blank line, the content and a newline |
| LlmManaged.ReplaceKeepsOutside | internal/llm/managed.go:34-40 | the replacement keeps the text before the first start marker, puts the content in the marked span, and keeps the text after the first end marker, adding at most a final newline |
| LlmManaged.ReplaceFindsContent | internal/llm/managed.go:34-40 | after a replacement by well-shaped content, the first start marker is where it was and the block found there is exactly the content |
| LlmManaged.AppendFindsContent | internal/llm/managed.go:42-43 | content appended after a blank line to a text without markers is the first block found in the result |
| LlmManaged.ReplaceOwnBlock | internal/llm/managed.go:34-40 | replacing a newline-terminated text's first block by that same block leaves the text unchanged |
| LlmManaged.UpsertInstallsContent | internal/llm/managed.go:29-44 | for well-shaped content and a text that is empty, holds a block, or holds no marker, the first block of the result is exactly the content |
| LlmManaged.UpsertIdempotent | internal/llm/managed.go:29-44 | under the same conditions, upserting the same content a second time changes nothing |
| LlmManaged.ManagedContentSpec | internal/llm/managed.go:24 | the managed text is the start marker and a newline, the trimmed body, then a newline and the end marker |
| LlmManaged.ManagedContentShape | internal/llm/managed.go:24 | when the trimmed body does not hold the end marker, the managed text is well-shaped: it opens with the start marker on its own line and holds the end marker only at its end |
| LlmManaged.StartHoldsNoEnd | internal/llm/managed.go:12-13 | the end marker does not occur inside the start marker |
| CliHook.HookBlockSpec | internal/cli/hook.go:93-101 | the block opens with the start marker line and `repo_root=`, followed by the quoted root, which reads back unchanged; it holds the `context_dir` line under the root and the script, and closes with the end marker on its own line |
| CliHook.ScriptSpec | internal/cli/hook.go:93-101 | the script tests for each of manifest.json, symbols.jsonl and edges.jsonl, and holds both the `skelly update --format jsonl` run and the plain `skelly update` run, each failing the hook when it fails |
| CliHook.HookBlockShape | internal/cli/hook.go:93-101 | with no `#` in the root or the context directory, the block is well-shaped: the end marker occurs in it only at its end |
| CliHook.UpsertHookBlock | internal/cli/hook.go:71-91 | the hook always ends in a newline |
| CliHook.HookNewScript | internal/cli/hook.go:74-76 | an empty hook becomes `#!/bin/sh`, a blank line, the block and a newline |
| CliHook.HookReplaceKeepsText | internal/cli/hook.go:78-84 | an existing block is replaced in place; the text before and after it is kept, adding at most a final newline |
| CliHook.HookAppendKeepsText | internal/cli/hook.go:86-90 | a hook without a block is kept whole, newline-terminated, behind `#!/bin/sh` when it lacks `#!`, then a blank line and the block; the result starts with `#!` |
| CliHook.AppendBaseSpec | internal/cli/hook.go:86-89 | the text the block is appended to starts with `#!`; it is the newline-terminated hook, with a shell line put first exactly when the hook does not start with `#!` |
| CliHook.HookInstallsBlock | internal/cli/hook.go:71-91 | for a well-shaped block and a hook that is empty, holds a block, or holds no marker, the first block of the result is exactly the new block |
| CliHook.HookUpsertIdempotent | internal/cli/hook.go:71-101 | installing the hook a second time with the same root and context directory changes nothing |
| LlmProviders.ParseLLMProviders | internal/llm/providers.go:14-64 | the result is the parse of the argument's values: the lower-cased, trimmed argument split on commas and then on white space, with a blank argument giving no values |
| LlmProviders.ParseChunks | internal/llm/providers.go:53-63 | the loop over the comma-separated chunks gives the parse of all their values |
| LlmProviders.AddValues | internal/llm/providers.go:54-58 | adding one chunk's values stops at the first one that is not accepted, which is the first in all the values seen so far; otherwise the output is the de-duplicated expansion of all the values so far |
| LlmProviders.AddProvider | internal/llm/providers.go:29-51 | a blank value changes nothing; "all" appends each provider not seen yet, in order; an accepted value is appended unless seen; any other value is the error, naming the trimmed value; the seen set stays the set of output providers |
| LlmProviders.ParseValuesSpec | internal/llm/providers.go:14-64 | the parse fails exactly when some value is not codex, claude, cursor or all, and it names the first such value; otherwise the result has no duplicates, holds only codex, claude and cursor, and holds exactly the named providers plus all three when "all" is named; no values give an empty (nil) result |
| LlmProviders.ParseValuesOrder | internal/llm/providers.go:46-49 | providers keep the order in which they were first asked for |
| LlmProviders.ParseAll | internal/llm/providers.go:34-42 | "all" alone gives codex, claude, cursor in that order |
| LlmProviders.ParseAllAfterOne | internal/llm/providers.go:34-42 | "claude,all" gives claude, codex, cursor: "all" skips the provider already named |
| LlmProviders.ValuesOfCommaList | internal/llm/providers.go:53-58 | a comma-separated list of lower-case words is read back word by word |
| LlmProviders.ValuesOfSpaceList | internal/llm/providers.go:53-58 | a space-separated list of lower-case words is read back word by word |
| LlmProviders.ValuesIgnoreCase | internal/llm/providers.go:15 | lower-casing the argument first changes nothing |
| LlmProviders.WordTrimmed | internal/llm/providers.go:30-33 | a value produced by the split is never blank and is its own trim, so the closure's trim and blank check leave it as it is |
| LlmProviders.DetectRequiredOutputs | internal/llm/providers.go:134-151 | a context directory holding every required output of the text format is detected as text or mixed, and likewise for JSONL; "none" means some required output of each format is missing |
| LlmProviders.DetectMonotone | internal/llm/providers.go:134-151 | adding files never loses a detected format: mixed stays mixed, and jsonl or text becomes that format or mixed |
| CliSummary.SummarizePathsSpec | internal/cli/summary.go:158-163 | every listed path (all of them when there are at most max, else the first max) occurs in the summary; the summary claims exactly the paths past the first max as hidden, their number read back from the text, and claims none when all are shown |
| CliSummary.HiddenCountOf | internal/cli/summary.go:162 | the count written after " ... (+" is read back, whatever the shown paths are |
| CliSummary.SummarizeAllShown | internal/cli/summary.go:159-161 | once max reaches the number of paths, raising it further changes nothing: the summary is every path joined by ", " |
| CliSummary.SummaryPartsSpec | internal/cli/summary.go:127-147 | the report line opens with "enrich (dry-run):" exactly for a dry run and with "enrich:" otherwise; a "target=" part appears exactly when the run has a target, right after the scope; the line has ten parts, or eleven with a target |
| CliSummary.SummaryLineWords | internal/cli/summary.go:131-148 | when agent, scope and target hold no white space, splitting the printed line on white space gives back its parts, the dry-run label as two words |
| CliSummary.EnrichSummaryTextSpec | internal/cli/summary.go:148-155 | the report line comes first; an output line follows exactly when an output file is set, and a targets line, ending in the targets summarised to eight, exactly when there are targets |
| LspQuery.MatchOf | internal/lsp/query.go:14 | a line `file:line:column`, optionally followed by '-' and text without ':', matches the location pattern with exactly that file, line and column as its groups (the file group is greedy) |
| LspQuery.ParseLineNoColon | internal/lsp/query.go:81-84 | a line without ':' (such as "garbage") never yields a location |
| LspQuery.ParseLine | internal/lsp/query.go:76-97 | every location read from a line has a line and a column between 1 and the largest int |
| LspQuery.ParseLineOf | internal/lsp/query.go:76-97 | a line `file:line:column[-extra]` with positive numbers reads back as that line and column, with the file path normalized |
| LspQuery.ParseLocationOutput | internal/lsp/query.go:73-100 | the loop over the output's lines yields, in order, the location of each line that holds one |
| LspQuery.ParseLinesSpec | internal/lsp/query.go:73-100 | a location is parsed exactly when some output line yields it, and every parsed location has a positive line and column |
| LspQuery.NormalizeSpec | internal/lsp/query.go:128-140 | the path comes back trimmed; a relative path is never rewritten; a rewritten absolute path is non-empty, relative and does not start with ".." |
| LspQuery.NormalizeInside | internal/lsp/query.go:128-140 | an absolute path below the root comes back as the part after the root |
| LspQuery.LocationKeyInjective | internal/lsp/query.go:109 | two locations with the same `file:line:column` key are the same location, so de-duplicating by key is de-duplicating by value |
| LspQuery.DeduplicateLocations | internal/lsp/query.go:102-126 | one location or none is returned as it is; otherwise the first location for each key is kept, then the kept ones are sorted by file, line and column |
| LspQuery.DeduplicatedSpec | internal/lsp/query.go:102-126 | the result holds every input location exactly once and nothing else, in strictly ascending (file, line, column) order, so any sorting algorithm gives the same result |
| LspQuery.DeduplicatedIdempotent | internal/lsp/query.go:102-126 | de-duplicating a de-duplicated list changes nothing |
| LspQuery.RunQuery | internal/lsp/query.go:40-71 | a missing runner, a blank server and a line below 1 are rejected in that order, whatever the runner would do; any server other than gopls is unsupported; gopls is asked at the computed position |
| LspQuery.QueryGopls | internal/lsp/query.go:61-67 | a runner failure is wrapped as a query failure naming the command; otherwise the result is the runner's output parsed and de-duplicated |
| LspQuery.QueryRoundTrip | internal/lsp/query.go:50-58 | the position written for a relative file below the root, read back by the output parser, gives the same file, line and column (a column below 1 becomes 1) |
| LspCapabilities.LanguageForPath | internal/lsp/capabilities.go:30-40 | the result is found exactly when some language lists the path's lower-cased extension; a found language lists it; otherwise the language is empty |
| LspCapabilities.ExtensionsDisjoint | internal/lsp/capabilities.go:23-28 | no extension belongs to two languages, so the map order of the lookup cannot change which language is returned |
| LspCapabilities.DetectLanguagePresence | internal/lsp/capabilities.go:42-61 | there is one entry per known language, and it is true exactly when some path has one of that language's extensions |
| LspCapabilities.ProbeLanguage | internal/lsp/capabilities.go:70-92 | an absent language reports its first server, not available, reason language_not_present; a present one reports the first preferred server the lookup finds, available and without a reason, or else its first server with reason server_not_found |
| LspCapabilities.ProbeCapabilities | internal/lsp/capabilities.go:67-95 | there is exactly one capability per known language, each being the probe of that language's preferred servers, and a missing presence entry counts as absent |
| LspCapabilities.ProbedUnique | internal/lsp/capabilities.go:67-95 | the probe's description determines the capability completely |
| LspCapabilities.PythonFallback | internal/lsp/capabilities_test.go:29-58 | when pyright-langserver is missing and pylsp is installed, present python is available through pylsp |
| AgentCommand.SanitizeCommand | cmd/skelly/main.go:2506-2519 | the loop keeps, in order, the trimmed form of every part that is not blank, and reports "empty command" when none is left |
| AgentCommand.SanitizedEmpty | cmd/skelly/main.go:2506-2519 | sanitizing fails exactly when every part is blank, and the failure is the empty-command error |
| AgentCommand.SanitizedMembers | cmd/skelly/main.go:2506-2519 | every kept part is non-empty, trimmed and the trimmed form of some input part, and every non-blank input part is kept |
| AgentCommand.SanitizedFixed | cmd/skelly/main.go:2506-2519 | a non-empty command of trimmed, non-empty parts is returned unchanged |
| AgentCommand.StripQuoted | cmd/skelly/main.go:2521-2530 | a value wrapped in a pair of equal quote characters loses the pair and the blanks just inside it |
| AgentCommand.StripUnquoted | cmd/skelly/main.go:2521-2530 | a trimmed value not wrapped in a pair of equal quotes is returned as it is |
| AgentCommand.SplitCommand | cmd/skelly/main.go:2532-2582 | the character loop (quote state, pending backslash, flush on unquoted space or tab) followed by the final checks computes Tokens of the input |
| AgentCommand.CommandLineTokens | cmd/skelly/main.go:2532-2573 | a command line made of non-empty words, each written as it is when plain or else in single quotes and joined by single spaces, splits back into exactly those words |
| AgentCommand.EscapedTokens | cmd/skelly/main.go:2546-2555 | a word with a backslash before every character is read literally as one part, whatever it contains: blanks, quotes or backslashes |
| AgentCommand.UnterminatedTokens | cmd/skelly/main.go:2574-2579 | a quote that is never closed is the "unterminated quote in command" error |
| AgentCommand.TrailingBackslashTokens | cmd/skelly/main.go:2574-2576 | a lone backslash at the end of the input is kept as the last character of the last part |
| AgentCommand.FlushPart | cmd/skelly/main.go:2454-2464 | the flush appends the trimmed part stripped of one pair of matching quotes, and nothing when that is empty |
| AgentCommand.ScanArray | cmd/skelly/main.go:2466-2495 | the character loop over the array interior computes the tokenizer state of the array mode, where quote characters stay in the part and commas separate parts outside quotes |
| AgentCommand.ReadArray | cmd/skelly/main.go:2466-2503 | from the character loop on: an open quote at the end is the unterminated-quote error, a pending backslash is kept, and the last part is flushed, as FinishArray of the machine run says |
| AgentCommand.ParseLooseCommandArray | cmd/skelly/main.go:2438-2504 | the method computes LooseArray: a missing bracket and an empty interior are errors, as are an open quote at the end, and a pending backslash is kept |
| AgentCommand.QuotedListArray | cmd/skelly/main.go:2438-2504 | round trip: a bracketed, comma-separated list of double-quoted words reads back as exactly those words, commas and blanks inside the quotes included |
| AgentCommand.ParseAgentCommand | cmd/skelly/main.go:2417-2436 | a blank spec is the empty-command error; a bracketed spec is decoded as JSON, then by the forgiving reader, and if both fail the JSON error is reported; anything else is split like a shell line |
| AgentCommand.AgentCommandSanitized | cmd/skelly/main.go:2417-2436 | whatever route it takes, a parsed command is non-empty and every part is trimmed and non-empty |
| AgentProfiles.LeadingSpaces | cmd/skelly/main.go:2584-2594 | the count is the number of ' ' characters the line starts with; a tab or any other character ends it |
| AgentProfiles.IndentUnique | cmd/skelly/main.go:2584-2594 | the indentation is the only n such that the first n characters are spaces and the next one is not |
| AgentProfiles.ReadBlock | cmd/skelly/main.go:2373-2390 | the inner loop computes Block: the body of a `prompt_template: |` entry and the last line it consumed |
| AgentProfiles.BlockSpec | cmd/skelly/main.go:2373-2390 | the body holds one line per line of the longest run of blank lines or lines indented by at least six spaces: "" for a blank line, the line without its first six characters otherwise; the run ends at the end of the file or at a non-blank line indented by fewer than six |
| AgentProfiles.ReadEntry | cmd/skelly/main.go:2356-2396 | the switch on the key: a command, timeout or prompt-template entry sets only its own field of the current profile, from the command parser, the duration parser or the template text or block; a failing parser is an error naming the profile and line, and any other key is the unsupported-key error |
| AgentProfiles.ScanLine | cmd/skelly/main.go:2330-2398 | one pass of the main loop: skipped lines and headers move on, an entry line moves past its entry, and the malformed cases stop with their errors |
| AgentProfiles.ScanLines | cmd/skelly/main.go:2329-2399 | the main loop over the lines computes Scan |
| AgentProfiles.Finalize | cmd/skelly/main.go:2401-2414 | a profile without a command is reported by name; otherwise no profile at all is an error, and else every blank template becomes the default one |
| AgentProfiles.ParseAgentProfilesYAML | cmd/skelly/main.go:2324-2414 | an error of the line scan is reported as it is; otherwise the final pass decides |
| AgentProfiles.ScanFromValid | cmd/skelly/main.go:2337-2398 | every profile the scan returns is filed under its own name, which is trimmed and non-blank, and has no command yet or one the command parser accepted |
| AgentProfiles.ParsedProfiles | cmd/skelly/main.go:2324-2414 | a successful parse has at least one profile, each under its own trimmed non-blank name, with an accepted non-empty command and a non-blank template, and with the command and timeout the scan read |
| AgentProfiles.DefaultedKeeps | cmd/skelly/main.go:2405-2407 | defaulting changes only a blank template, and leaves no template blank |
| AgentProfiles.ContentBeforeHeader | cmd/skelly/main.go:2329-2351 | a content line before any profile header is the invalid-format error at that line |
| AgentProfiles.NoProfilesFound | cmd/skelly/main.go:2329-2412 | a file of blank lines, comments and `profiles:` scans to no profiles, which the final pass reports as an error |
| AgentProfiles.ShallowEntry | cmd/skelly/main.go:2352-2354 | inside a profile, a content line indented by fewer than four spaces is the invalid-indentation error at that line |
| AgentProfiles.UnsupportedEntry | cmd/skelly/main.go:2394-2395 | inside a profile, a key other than command, timeout and prompt_template is an error naming the profile, the line and the text |
| AgentProfiles.HeaderLine | cmd/skelly/main.go:2336-2345 | `  name:` is a profile header for any trimmed, non-blank name, and reading it gives the name back |
| EnrichOptions.ParseEnrichScope | cmd/skelly/main.go:2223-2236 | the value is accepted exactly when, trimmed and lower-cased, it is "changed" or "all", and then it names the scope returned; anything else is the unsupported-scope error carrying the raw value |
| EnrichOptions.ScopeRoundTrip | cmd/skelly/main.go:2223-2236 | every scope's name parses back to that scope |
| EnrichOptions.ScopeNormalized | cmd/skelly/main.go:2223-2236 | the value parses the same way as its trimmed, lower-cased form |
| EnrichOptions.ParseEnrichOrder | cmd/skelly/main.go:2238-2251 | source order exactly for "source" or an empty value, pagerank exactly for "pagerank", both after trimming and lower-casing; anything else is the unsupported-order error carrying the raw value |
| EnrichOptions.OrderRoundTrip | cmd/skelly/main.go:2238-2251 | every order's name parses back to that order |
| EnrichOptions.BlankOrderIsSource | cmd/skelly/main.go:2238-2251 | a blank --order value selects source order |
| EnrichOptions.CheckMaxSymbols | cmd/skelly/main.go:2005-2011 | the bound is accepted exactly when it is positive; otherwise the error is "--max-symbols must be > 0" |
| EnrichOptions.CollectRecords | cmd/skelly/main.go:2100-2194 | the loop collects, in item order, the records of the items whose record can be built, and stops at maxSymbols of them |
| EnrichOptions.BuiltPrefix | cmd/skelly/main.go:2107-2194 | the records collected from a prefix of the work items are a prefix of those collected from all of them |
| EnrichOptions.CollectedBound | cmd/skelly/main.go:2111-2113 | a run never collects more than maxSymbols records, and collects every buildable item when they fit |
| EnrichOptions.Answer | cmd/skelly/main.go:676-687 | y or yes answers yes and n or no answers no, in any case and with blanks around; any other answer, blank included, keeps the default |
| EnrichOptions.PromptYesNo | cmd/skelly/main.go:666-688 | without an interactive terminal the default is the answer; a failed read is an error; otherwise the line read is mapped by Answer |
| EnrichOptions.BlankAnswer | cmd/skelly/main.go:677-679 | a blank answer keeps the default |
| EnrichOptions.AnswerNormalized | cmd/skelly/main.go:676-687 | the answer depends only on the trimmed, lower-cased spelling of the line |
| IgnoreMatcher.NormalizePath | internal/ignore/matcher.go:186-191 | the normalized path is a suffix of the input, and a path that starts with neither "./" nor "/" is unchanged |
| IgnoreMatcher.NormalizePathCases | internal/ignore/matcher.go:186-191 | exactly one of ".//", "./", "/" or nothing is removed from the front, whichever the path starts with, "./" taking precedence over "/" |
| IgnoreMatcher.ParseRule | internal/ignore/matcher.go:62-66 | a line that is blank or a comment after trimming yields no rule |
| IgnoreMatcher.StripMarks | internal/ignore/matcher.go:68-87 | a rule read from a trimmed line has a non-empty pattern and is negated exactly when the line starts with '!' |
| IgnoreMatcher.ParseFormat | internal/ignore/matcher.go:62-88 | every rule with a canonical pattern is read back from the line "!"/"/" + pattern + "/" it is written as, with its negated, anchored and directory-only flags |
| IgnoreMatcher.CommentIsNoRule | internal/ignore/matcher.go:63-66 | any line starting with '#', and the empty line, are no rule |
| IgnoreMatcher.DirLine | internal/ignore/matcher.go:62-88 | a line "name/" for a plain name is the unanchored, non-negated directory rule of name |
| IgnoreMatcher.Tokens | internal/ignore/matcher.go:158-184 | a pattern is read into at most one token per character |
| IgnoreMatcher.UnparseTokens | internal/ignore/matcher.go:158-184 | reading a pattern into "**", "*", "?" and literal characters loses nothing: the tokens spell the pattern again |
| IgnoreMatcher.GlobToRegex | internal/ignore/matcher.go:158-184 | the loop writes ".*" for "**", "[^/]*" for "*", "[^/]" for "?" and every other character literally, escaping the metacharacters, in pattern order |
| IgnoreMatcher.ReadRegexOfRegex | internal/ignore/matcher.go:158-184 | the expression built from a pattern is unambiguous: it reads back to exactly the tokens it was written from, so every metacharacter of the pattern is matched literally |
| IgnoreMatcher.LiteralPattern | internal/ignore/matcher.go:152-184 | a pattern without '*' or '?' matches a value exactly when the value is the pattern |
| IgnoreMatcher.StarPattern | internal/ignore/matcher.go:163-171 | "*" matches exactly the values without '/', and "**" matches every value without a line feed, '/' included |
| IgnoreMatcher.SlashFreeMatchesSegment | internal/ignore/matcher.go:163-176 | a pattern without '/' and without "**" only matches values without '/' |
| IgnoreMatcher.MatchDirectoryPattern | internal/ignore/matcher.go:133-150 | the result is DirMatch: the path is the pattern or under it, or, unanchored, a leading run of its segments equals the pattern |
| IgnoreMatcher.DirMatchUnderPattern | internal/ignore/matcher.go:133-150 | a directory pattern matches exactly the pattern itself and the paths under it: the segment loop never adds a match |
| IgnoreMatcher.MatchSuffix | internal/ignore/matcher.go:107-117 | true exactly when the pattern matches the segments from some index i >= 1 on, re-joined with '/' |
| IgnoreMatcher.MatchSegment | internal/ignore/matcher.go:125-130 | true exactly when the pattern matches one of the path's segments |
| IgnoreMatcher.RuleMatches | internal/ignore/matcher.go:90-131 | the result is RuleMatch on the normalized path: directory rules by directory pattern or base name, anchored rules on the whole path, patterns with '/' on the path or a trailing run of segments, others on the base name or a segment |
| IgnoreMatcher.DirRuleCoversTree | internal/ignore/matcher.go:93-101 | a directory rule matches its own directory and every path under it, whether a file or a directory |
| IgnoreMatcher.SlashFreeMatchesBaseName | internal/ignore/matcher.go:120-123 | a slash-free unanchored file pattern that matches a name matches dir/name at any depth |
| IgnoreMatcher.ShouldIgnore | internal/ignore/matcher.go:51-60 | the result is the verdict of the rules in order on the normalized path, each matching rule setting ignored to not negated |
| IgnoreMatcher.LastMatchDecides | internal/ignore/matcher.go:51-60 | a path is ignored exactly when some rule matches it, no later rule does, and that rule is not negated; no match means not ignored |
| IgnoreMatcher.LaterRulesOverride | internal/ignore/matcher.go:51-60 | appending rules that match a path replaces the earlier verdict by theirs; appending rules that do not match it keeps the earlier verdict |
| IgnoreMatcher.PositiveMatchIgnored | internal/ignore/matcher.go:53-58 | with no negated rule, any match ignores the path |
| IgnoreMatcher.NewMatcher | internal/ignore/matcher.go:23-48 | the rules are those of the default excludes followed by the user's lines, each line kept when it parses, in order |
| IgnoreMatcher.DefaultRulesParse | internal/ignore/matcher.go:24-34 | each default exclude is the directory rule of its name |
| IgnoreMatcher.DefaultRulesParsed | internal/ignore/matcher.go:24-45 | the default lines give exactly nine directory rules, in order |
| IgnoreMatcher.DefaultRuleMatches | internal/ignore/matcher.go:24-34 | each default rule matches every path under its directory, and such a path is already normalized |
| IgnoreMatcher.DefaultExcludes | internal/ignore/matcher.go:23-47 | everything under a default exclude is ignored unless a user rule matches it |
| IgnoreMatcher.UserRulesOverride | internal/ignore/matcher.go:21-47 | on any path a user rule matches, the verdict is that of the user's rules alone, so a user negation overrides a default exclude |
| LanguagesPython.ParseAliasedImport | pkg/languages/python.go:357-367 | a blank import text gives an empty module and an empty alias |
| LanguagesPython.AliasedImportAs | pkg/languages/python.go:357-367 | with " as ", the module is the trimmed text before the last non-overlapping " as " and the alias the trimmed text after it; a blank alias falls back to the module's default alias |
| LanguagesPython.PlainImport | pkg/languages/python.go:357-367 | without " as ", the trimmed text is the module and its default alias is the alias |
| LanguagesPython.FromImportAliasTarget | pkg/languages/python.go:369-379 | the target is empty exactly when the module is blank |
| LanguagesPython.FromImportTargetSplits | pkg/languages/python.go:369-379 | for a module without '#', a blank symbol gives the module alone with no '#'; otherwise the first '#' sits right after the module and the symbol follows it |
| LanguagesPython.FirstLine | pkg/languages/python.go:390-392 | the first line is a prefix without line feeds, and a line feed follows it unless it is the whole text |
| LanguagesPython.FirstLineOf | pkg/languages/python.go:390-392 | a line followed by text that starts with a line feed is the first line |
| LanguagesPython.UnquoteQuoted | pkg/languages/python.go:383-388 | a text between a pair of triple quotes is already trimmed and unquotes to what is between them |
| LanguagesPython.DocstringOneLine | pkg/languages/python.go:381-394 | a docstring holds no line feed and no white space at its ends |
| LanguagesPython.QuotedDocstring | pkg/languages/python.go:381-394 | a triple-quoted docstring gives its first line, trimmed, and drops the rest |
| LanguagesPython.FunctionKind | pkg/languages/python.go:102-105 | a definition is a method exactly when it lies in a class, and a function exactly when it does not |
| LanguagesPython.FunctionSignature | pkg/languages/python.go:237-254 | every signature starts with "def" |
| LanguagesPython.FunctionSignatureShape | pkg/languages/python.go:237-254 | the name follows "def "; the signature ends with " -> T" for a return type T, else with the parameters, and is "def name" without either |
| LanguagesGo.ReadImportSpec | internal/languages/go.go:339-361 | a spec without a path gives an empty path and an empty alias |
| LanguagesGo.QuotedImportPath | internal/languages/go.go:344-348 | a double-quoted path comes out without its quotes, whatever white space surrounds it |
| LanguagesGo.UnquotedImportPath | internal/languages/go.go:344-348 | a trimmed path that does not both open and close with a double quote is kept as it is |
| LanguagesGo.ImportAliasRule | internal/languages/go.go:350-359 | an explicit alias other than `_` and `.` is kept, trimmed; otherwise the spec reads as one without an alias, whose alias is the path's default alias and holds no '/' |
| LanguagesGo.DefaultAliasOfQuotedPath | internal/languages/go.go:339-361 | a quoted "dir/elem" without an alias gives the path dir/elem and the alias elem |
| LanguagesGo.TypeKind | internal/languages/go.go:143-152 | a type is an interface exactly when its type node is an interface_type, and a struct otherwise |
| LanguagesGo.TypeSignature | internal/languages/go.go:221-242 | the signature is empty exactly when there is no name, and otherwise starts with "type N" |
| LanguagesGo.TypeSignatureMatchesKind | internal/languages/go.go:221-242 | an interface is signed "type N interface", a struct type "type N struct", and any other type, which counts as a struct, "type N T" |
| LanguagesGo.FunctionSignature | internal/languages/go.go:202-219 | every signature starts with "func" |
| LanguagesGo.MethodSignature | internal/languages/go.go:117-123 | a method signature ends with the function signature |
| LanguagesGo.MethodSignatureShape | internal/languages/go.go:110-123 | the receiver comes first, then " func " and the name; a result closes the signature |
| LanguagesGo.MethodWithoutReceiver | internal/languages/go.go:110-123 | without a receiver the signature is a space followed by the function signature |
| LanguagesRuby.ExtractRubyString | internal/languages/ruby.go:246-254 | the result is never longer than the trimmed text |
| LanguagesRuby.QuotedRubyString | internal/languages/ruby.go:246-254 | a literal in matching `"` or `'` quotes gives back exactly what is between them |
| LanguagesRuby.UnquotedRubyString | internal/languages/ruby.go:246-254 | a trimmed text that does not open and close with the same quote comes back unchanged |
| LanguagesRuby.Nested | internal/languages/ruby.go:76-79 | a name at the top is itself; inside a module path it is the path, "::", then the name |
| LanguagesRuby.ClassContext | internal/languages/ruby.go:74-82 | a class body keeps the module path and names the class inside it; the enclosing class plays no part |
| LanguagesRuby.ModulePathJoins | internal/languages/ruby.go:92-99 | entering non-empty modules extends the module path by their names joined with "::" and clears the class |
| LanguagesRuby.TopLevelModulePath | internal/languages/ruby.go:92-99 | from the top of a file the module path is the module names joined with "::" |
| LanguagesRuby.MethodKind | internal/languages/ruby.go:145-148 | a `def` is a method exactly when there is a class name, and a function exactly when there is none |
| LanguagesRuby.KindInContext | internal/languages/ruby.go:70-100 | a `def` directly in a module body is a function; one in a named class body is a method |
| LanguagesRuby.MethodSignature | internal/languages/ruby.go:214-229 | the signature is empty exactly when there is no name, and otherwise starts with "def name" |
| LanguagesRuby.SingletonName | internal/languages/ruby.go:168-173 | a singleton method is named "self." followed by its name |
| LanguagesRuby.SingletonSignature | internal/languages/ruby.go:169-169 | a singleton signature starts with "def self." and the name |
| LanguagesRuby.SingletonSignatureIsMethodSignature | internal/languages/ruby.go:162-179 | a singleton method is signed as an ordinary method whose name is its "self." name |
| LanguagesRuby.ModuleSignature | internal/languages/ruby.go:197-211 | a module is signed "module " followed by its name |
| LanguagesTypeScript.FileLanguage | internal/languages/typescript.go:43-51 | a file is JavaScript exactly when its name ends in .js, .jsx, .mjs or .cjs, and TypeScript otherwise |
| LanguagesTypeScript.LanguageOfExtension | internal/languages/typescript.go:43-51 | each JavaScript extension selects JavaScript, and .ts and .tsx stay TypeScript |
| LanguagesTypeScript.FormatReturnType | internal/languages/typescript.go:504-514 | the result is empty, or ": " followed by a non-empty type without white space at its ends |
| LanguagesTypeScript.FormatColonSpace | internal/languages/typescript.go:504-514 | an annotation already written ": T" is kept |
| LanguagesTypeScript.FormatsType | internal/languages/typescript.go:504-514 | T, ":T" and ": T" all come out as ": T" |
| LanguagesTypeScript.FormatIdempotent | internal/languages/typescript.go:504-514 | formatting a formatted annotation changes nothing |
| LanguagesTypeScript.Depth | internal/languages/typescript.go:522-531 | the brace depth never drops below zero |
| LanguagesTypeScript.SplitTopLevel | internal/languages/typescript.go:516-541 | there are no parts exactly when the text is blank |
| LanguagesTypeScript.PiecesJoin | internal/languages/typescript.go:524-539 | the untrimmed pieces joined with "," give back the text |
| LanguagesTypeScript.PiecesCount | internal/languages/typescript.go:524-539 | there is one more piece than there are commas at depth zero |
| LanguagesTypeScript.NestedCommasKeepOnePiece | internal/languages/typescript.go:516-541 | a text whose commas all lie inside braces is one trimmed part |
| LanguagesTypeScript.PiecesStep | internal/languages/typescript.go:524-537 | one more character steps the depth, and a comma at depth zero closes the open piece while any other character extends it |
| LanguagesTypeScript.SplitTopLevelCSV | internal/languages/typescript.go:516-541 | the scan with its depth and start counters computes SplitTopLevel |
| LanguagesTypeScript.MemberName | internal/languages/typescript.go:477-482 | the bound name has no white space at its ends |
| LanguagesTypeScript.MemberAlias | internal/languages/typescript.go:471-486 | a member binds at most one name, and that name is non-empty and trimmed |
| LanguagesTypeScript.BracedAliases | internal/languages/typescript.go:469-488 | every name a braced list binds is non-empty and trimmed |
| LanguagesTypeScript.UnbracedAliases | internal/languages/typescript.go:490-499 | every name a part outside braces binds is non-empty and trimmed |
| LanguagesTypeScript.PartAliases | internal/languages/typescript.go:464-499 | every name a part binds is non-empty and trimmed |
| LanguagesTypeScript.ImportClause | internal/languages/typescript.go:448-460 | a clause, when there is one, is not empty |
| LanguagesTypeScript.JSImportAliases | internal/languages/typescript.go:447-461 | a text that is not an import with a non-blank clause before " from " binds nothing |
| LanguagesTypeScript.PartsAliasesWords | internal/languages/typescript.go:464-500 | every name the parts bind is non-empty and trimmed |
| LanguagesTypeScript.AliasesAreWords | internal/languages/typescript.go:447-502 | every name an import binds is non-empty and trimmed |
| LanguagesTypeScript.PartsAliasesSnoc | internal/languages/typescript.go:464-500 | the names come out in source order, part after part |
| LanguagesTypeScript.NamespaceImport | internal/languages/typescript.go:490-497 | `* as X` binds X |
| LanguagesTypeScript.PlainPart | internal/languages/typescript.go:490-499 | a part that is a plain name binds that name |
| LanguagesTypeScript.MemberOwnName | internal/languages/typescript.go:471-486 | a braced member without an alias binds its own name |
| LanguagesTypeScript.TypeMember | internal/languages/typescript.go:476-484 | a braced member `type X` binds X |
| LanguagesTypeScript.AliasAfterAs | internal/languages/typescript.go:477-479 | in `b as a` between two identifiers, the alias split off is a |
| LanguagesTypeScript.MemberAsAlias | internal/languages/typescript.go:471-486 | a braced member `b as a` binds its alias a |
| LanguagesTypeScript.AppendMemberAliases | internal/languages/typescript.go:470-486 | the inner loop appends, in order, the name each member binds |
| LanguagesTypeScript.ParseJSImportAliases | internal/languages/typescript.go:447-502 | the loops compute JSImportAliases |

## Left out

- Parser.NormalizeImportAliases: when two aliases trim to the same text, Go keeps whichever its map iteration visits last; the model leaves the choice open and does not prove the map is unique or idempotent.
- Normalisers and empty input: Go returns nil for an empty input and an empty slice for an input whose entries are all dropped. The model does not tell nil from empty.
- sort.Slice is not stable, and the model sorts stably. For normalizeCallSites two call sites can tie on (line, qualifier, name, receiver, raw) only if they differ in arity, so their relative order after Go's sort is not fixed; the model keeps input order.
- LanguagesCommon.MergeImportAliases: Go fills the caller's map in place and returns it; the model returns a new map and takes the map iteration order as a parameter.
- The pkg/languages copies of splitQualifiedName, defaultImportAlias and mergeImportAliases are the same code as the internal/languages ones and are modelled once.
- LanguagesCommon.DedupeCallSites: the pkg sort orders by (line, qualifier, name, raw) with sort.Slice, which is not stable; call sites that tie there keep input order in the model.
- strings.ToLower is modelled for ASCII letters only.
- Hash functions (SHA-1 of signatures, SHA-256 of file contents and cache keys) are parameters.
- JSON decoding is given: the decoded values are inputs.
- Reading files, walking directories and ParseDirectory are left out; ParseFile takes the file reader and the language parser as parameters.
- calculatePageRank and TopNodes compute floating-point scores; they are not modelled, so BuildFromParseResult models buildFromParseResult without its PageRank step.
- Graph nodes are pointers in Go and values here: normalizeEdges and the edge pass update nodes through the map, which the model writes as map updates.
- The edge pass reads `g.Nodes[srcID]` without a nil check; every symbol of a parsed file has a node from the first pass, so the model's WithEdge skips a missing source only as a case that cannot arise.
- Graph.Graph.NodesForFile: sort.Slice is not stable, but two nodes tie on (line, ID) only when they are the same node, so the order is fixed; the model sorts stably by the same key.
- BuildFromParseResult: the sourceFiles map of buildFromParseResultForSources is modelled as the set of paths mapped to true (None for a nil map).
- buildSymbolLookup's maps are computed on demand as Lookup lists; the model proves what each list holds rather than building the maps.
- BuildFromParseResult and GraphLookup.BuildImportAliasCandidates take the map iteration order over each file's import aliases as a parameter; the other maps are iterated where the order cannot matter.
- primaryQualifier's TrimPrefix of "self." and "this." never fires, because the text is cut at its first '.' before; GraphLookup.PrimaryQualifierFirstSegment proves the qualifier is the first segment.
- GraphLookup.Resolve keeps resolve's second receiver branch (method symbol, same-file lookup) and the file-scope branch after it, both as written in Go; the two return the same result whenever the first applies.
- CliFlags.ParseLanguageFilter: reading the --lang flag through cobra, and its error, are left out; the entries are the input. The error is modelled as the offending entry, not as the message text. A nil filter and an empty one are the same map here.
- CliFlags.OptionalStringFlag: the error cobra returns for a flag of another type is left out.
- CliUtil.LoadIgnoreRules: opening the file, scanner errors and the split into lines are left out; the file is given as its lines.
- State: Load and Save read and write .state.json, and every UpdatedAt timestamp comes from the clock; only the in-memory effects (migration, the defaults Save fills in) are modelled.
- State.State.SetFileHash and State.State.SetFileData require a non-nil file map, because the Go code panics when writing to a nil map; a state from NewState or migration always has one.
- State.State.ImpactedFiles: Go visits map entries in random order, so the order of each reverse-dependency list is left unconstrained (the loop picks any unvisited file); the sorted result does not depend on it.
- FileutilWrite.FileStore.WriteIfMissing: the failing os.MkdirAll of the parent directory is folded into the write failure of the path, and the file mode is not modelled.
- FileutilState.EnsureSymbolIDs: in Go the symbol slice of the restored entry shares its backing array with the state's entry, so filling in IDs also writes them into the state; the model returns new values and does not capture that aliasing.
- FileutilState.ApplyGraphDependencies: the loop over the target files is run on a copy of the tracked-file map that is stored back once; the effect on the state is the same.
- FileutilImpact.ImpactedWithReasons: Go visits map entries in random order; the model picks any unvisited key, so its contracts hold for every order.
- CliHelpers: the output package that names the generated files is not part of this model; the names index.txt, graph.txt, symbols.jsonl, edges.jsonl and manifest.json are the ones the command tests use, and the modules directory is a parameter.
- CliHelpers.RecordOutputHashes: hashing, globbing and filepath.Rel are parameters: reads come as a function, glob matches as relative paths, and the relative path of each output is taken to be its name; a glob error is not modelled. Error texts are not modelled.
- CliHelpers.OutputsNeedRefresh: os.Stat is given as the set of relative paths on disk.
- CliHelpers.PersistState: the final state save is I/O and is left out; ReportParseIssues (writes to stderr), IsCorruptStateError (Go error types) and LoadOutputHashesFromState (reads the state file) are left out.
- NavIndex: JSON encoding and decoding, MkdirAll and the file write of WriteIndex, and reading the index file are left out; LoadLookup takes the outcome of the read and decode as its input. Error texts are not modelled, and the Lookup's node pointers are values.
- NavIndex.IndexNodeConfidence: sort.Slice is not stable, but two label entries with the same target are equal (the label comes from one map lookup), so the sorted list is fixed; the model sorts stably by the same key.
- NavIndex: EdgeRecord in internal/nav/types.go has no Source field, yet internal/nav/definition.go sets and prints one; the model's EdgeRecord carries Source so that the definition and references commands can be stated.
- NavGraphOps.Collect: sort.Slice is not stable, so records with the same symbol ID (an edge listed twice) may come out in any order in Go; the model sorts stably and its contract states only the order by ID and the permutation.
- NavGraphOps.ShortestPath: the inner loop over the out-edges is written as the method Expand and the final reconstruction as Finish; the queue, visited set and parent map are the same. Go's visited map of booleans is a set.
- NavGraphOps.ReconstructPath requires that the parent walk stops, as it does on every parent map ShortestPath builds; on a map with a cycle that avoids the source the Go loop does not terminate, which is not modelled.
- NavDefinition.LspReferences: the language-server query (lsp.QueryReferences) and the availability check are I/O; the model takes as a parameter the node each reported location resolved to, in order, and starts at the de-duplication.
- ResolveDefinitionViaLSP (internal/nav/definition.go:229-244) is left out: apart from the language-server query it only resolves the first returned location, which ResolveNodeAtLocation models.
- RunDefinition and RunReferences (internal/nav/definition.go:15-148) are left out: command-line flags, file reading and output formatting.
- NavDefinition.ResolveNodeAtLocation: Go iterates the lookup map in random order and sort.Slice is not stable; with unique IDs the result does not depend on either, and the model picks keys in an arbitrary order.
- NavCommands.TraceWalk: the contract states that every hop is sound and that the walk terminates, not that every edge within the depth limit is reported.
- NavCommands.Trace: the hops are stated sound (each a real edge within the depth limit) and ordered, not complete: the contract does not promise that every edge within the depth limit is reported, as for TraceWalk. Reading the working directory, the index and the --depth flag, and printing the result (internal/nav/commands.go:155-175, 230-251) are I/O; the depth arrives as a parameter. RunPath, RunCallers, RunCallees and the other printing commands in the same file are output only.
- NavCommands.OptionalFlag: one generic function stands for OptionalBoolFlag and OptionalIntFlag; the flag set is a map from flag names to what reading them gives, and the zero value returned beside an error is left out.
- SearchRank.SearchIndex: the BM25 score of a document (logarithms and floating-point division, internal/search/index.go lines 160-186) is a parameter of the model, so only the filtering, ordering, truncation and fallback around it are proved.
- Search.Build: the average document length is a floating-point quotient and is not part of the modelled `Index`; an empty graph and a missing graph are told apart only by the null check.
- Search: writing the index to disk and loading it back (`Write`, `Load`) are file I/O and JSON encoding, not modelled.
- Search.Tokenize: `strings.ToLower` is modelled on ASCII letters only; the Unicode case mapping of other letters is not modelled.
- SearchRank.RankLe: `sort.Slice` is not stable; the model sorts stably, which agrees with it whenever document IDs are distinct.
- SearchRank.LevenshteinDistance: Go compares bytes and the model compares characters; the two agree on the fuzzy path, whose strings hold only ASCII token characters.
- EnrichCache.CacheKey: the SHA-256 digest is a parameter with sixteen hex digits of output; which seeds collide is not modelled.
- EnrichCache.LoadCache: reading the file, splitting it into lines and decoding each line's JSON are not modelled; a line arrives decoded, or as None when it is blank or not valid JSON. A scanner error on an over-long line is not modelled.
- EnrichCache.WriteOrder: encoding the records as JSON lines and writing them only when changed are not modelled; `sort.Slice` is not stable, and the model's order agrees with it because no two entries share a key.
- EnrichCache.PruneCacheForSymbol: Go deletes from the caller's map in place; the model returns the pruned map.
- EnrichWork.CloneSymbolsSortedSpec: `sort.Slice` is not stable; symbols with the same line and ID may come out in another order.
- EnrichRecord.LineCache.ReadSourceLine: the file system is a map from path to content; any path missing from it stands for a read error.
- UpsertManagedMarkdownFile and ContainsManagedBlock (internal/llm/managed.go:16-27, 46-53) read and write files. The managed text they build is `LlmManaged.ManagedContent`.
- LlmManaged.UpsertIdempotent: claimed only for texts that are empty, hold a block, or hold no marker at all. A stray start marker without an end marker after it makes the second upsert replace from the stray marker onwards.
- CliHook.HookUpsertIdempotent: assumes no `#` in the repository root or the context directory. Such a `#` could spell an end marker inside the block.
- CliHook.HookInstallsBlock: states that the first block found is the new block. It does not count markers in the text kept after the old block.
- RunInstallHook and ResolveGitPaths (internal/cli/hook.go:20-69) run git and write the hook file. `output.ContextDir` is the `contextDir` parameter, because internal/output is not part of this model.
- GoStrconv.Quote: non-ASCII characters are copied unchanged. Go's strconv.Quote escapes non-printable code points as `\u`/`\U` and invalid UTF-8 as `\x`.
- GenerateIntegrationFiles and DetectLLMIntegrations (internal/llm/providers.go:66-132, 153-161) write and probe files on disk. The managed blocks they write are modelled by `LlmManaged`. The templates of internal/llm/templates.go are not part of this model.
- DetectContextFormat (internal/llm/providers.go:134-151) takes the set of file names present in the context directory, standing for the os.Stat calls. The strings "jsonl" and "text" stand for output.FormatJSONL and output.FormatText.
- PrintRunSummary and the JSON forms of the summaries (internal/cli/summary.go:61-125) write to standard output. The enrich report is modelled as the lines it prints.
- CliSummary.SummarizePaths: requires max to be non-negative. With a negative max, Go's slice expression panics.
- QueryDefinition, QueryReferences and defaultRunner (internal/lsp/query.go): they start an external process; the runner is a parameter of LspQuery.RunQuery and the command name is a parameter.
- LspQuery.Match: the pattern's '.' does not match a newline; lines come from splitting the output at "\n", so they never hold one, and the model does not check for it.
- LspQuery.NormalizeInside: stated for a root and a path made of plain names, whose first name below the root does not start with ".."; the source leaves such a path absolute, because it rejects every relative form starting with "..".
- LspCapabilities.ProbeCapabilities: the lookup is a parameter; the default `exec.LookPath` searches the process's PATH and is not modelled.
- LspCapabilities.LanguageForPath: lower-casing is ASCII only, like Strs.ToLower.
- AgentCommand.ParseAgentCommand: the JSON decoder of a string array is a parameter (`encoding/json` is not part of this model); its error text is carried as it is.
- AgentProfiles.ParseAgentProfilesYAML: `time.ParseDuration` and the JSON decoder are parameters; durations are integers.
- AgentProfiles.ParseAgentProfilesYAML: the errors carry the line number but not the source path, which only appears in the Go message text.
- AgentProfiles: loadAgentProfiles (reading `.skelly/agents.yaml` and the fallback to the built-in profiles) is file I/O and is not modelled.
- AgentProfiles.Finalize: the Go loop writes back into the map it ranges over; the model builds the same map value and does not model aliasing.
- EnrichOptions.CollectRecords: the deadline checks and the record contents are not modelled. The deadline depends on the clock. The record contents come from the cache, from a dry run or from the agent process. Only which items yield a record, and how many records there are, is modelled.
- EnrichOptions.PromptYesNo: the terminal test (`stdinIsInteractive`) and the line read from standard input are parameters; an end of input counts as a successful read of what was read before it.
- EnrichOptions: reading the flag values (`cmd.Flags().GetString`, `GetInt`) is cobra's code and is not modelled; a failure to read a flag is left out.
- IgnoreMatcher.MatchPathPattern: the regular-expression engine is not modelled. GlobMatch gives the language of the expression that GlobToRegex builds, and ReadRegexOfRegex shows that expression is unambiguous. The compile-error branch cannot occur, because every metacharacter is escaped.
- IgnoreMatcher.NormalizePath: filepath.ToSlash is the identity on a Unix host, as in GoPath.ToSlash.
- IgnoreMatcher.ParseFormat: stated for canonical patterns only. A pattern such as "././x" keeps one "./" after normalisation, and lines like that are not read back from their rule.
- The language front ends: the tree-sitter parse and the walk over its syntax tree are not modelled. The text of each node the code reads is a parameter, None when the node is missing. Class signatures and call-site extraction are walks over that tree and are left out too.
- LanguagesPython.ExtractDocstring requires that a text opening and closing with a triple quote is at least six characters long. On a shorter one, such as five double quotes, Go's slice s[3:len(s)-3] panics.
- LanguagesRuby.ExtractRubyString requires that the trimmed text is not a single quote character, on which Go's slice s[1:0] panics.
- LanguagesTypeScript.SplitTopLevelCSV: Go ranges over runes and slices at byte offsets; the model scans characters. The cuts fall at the same commas.
- LanguagesTypeScript.MemberAsAlias: stated for members made of two identifiers. For arbitrary text it does not hold: `x as as y` binds "as y", and `type as y` loses "type " before the split and binds "as y", not y.
- LanguagesTypeScript.FileLanguage: only the language label is modelled; the choice between the two tree-sitter grammars is left out.

## Findings

| source | as written | input that shows it | evidently intended | confidence | as-written member | corrected member |
|---|---|---|---|---|---|---|
| internal/parser/parser.go:218-224 | the de-duplication key joins name, qualifier, receiver, arity and line with `\|` | qualifier `a\|` with receiver `b`, against qualifier `a` with receiver `\|b`, same name, arity and line | call sites are duplicates only when all five fields agree | not executed | Parser.AsWrittenMergesDistinctCalls | Parser.NormalizeCallSites |
| pkg/languages/common.go:28-34 | the de-duplication key joins name, qualifier, receiver, line and arity with `\|` | qualifier `a\|` with receiver `b`, against qualifier `a` with receiver `\|b`, same name, line and arity | call sites are duplicates only when all five fields agree | not executed | LanguagesCommon.AsWrittenDedupeMerges | LanguagesCommon.DedupeCallSites |
