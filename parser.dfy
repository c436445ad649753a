/**
 * The parser registry of internal/parser/parser.go and the normalisation
 * ParseFile applies to every parsed file: imports become a sorted set,
 * call sites are trimmed, de-duplicated and ordered, and import aliases lose
 * blank entries. Reading the file, the language parser itself and the
 * content hash are parameters of ParseFile.
 */
module Parser {
  import opened Strs
  import opened Seqs
  import opened Sorting
  import opened Wrappers
  import GoPath
  import GoStrconv
  import opened ParserTypes
  import SymbolIds

  /** A language parser as the registry sees it: its language name and extensions. */
  datatype LanguageParser = LanguageParser(Language: string, Extensions: seq<string>)

  // ---------------------------------------------------------------------
  // Registry

  /** extToLang after every extension in exts has been mapped to lang, in order. */
  function MapExtensions(m: map<string, string>, exts: seq<string>, lang: string): (r: map<string, string>)
    ensures forall e :: e in exts ==> e in r && r[e] == lang
    ensures forall e :: e !in exts ==> (e in r <==> e in m) && (e in m ==> r[e] == m[e])
  {
    if exts == [] then m
    else MapExtensions(m, exts[..|exts| - 1], lang)[exts[|exts| - 1] := lang]
  }

  /** The parser registered for the lower-cased extension of filename, if any. */
  function Lookup(parsers: map<string, LanguageParser>, extToLang: map<string, string>, filename: string): (r: Option<LanguageParser>)
    ensures r.Some? ==> r.value in parsers.Values
  {
    var ext := ToLower(GoPath.Ext(filename));
    if ext in extToLang && extToLang[ext] in parsers then Some(parsers[extToLang[ext]]) else None
  }

  /** After registering p, every file with one of p's extensions (in any letter case) goes to p. */
  lemma LookupAfterRegister(parsers: map<string, LanguageParser>, extToLang: map<string, string>,
                            p: LanguageParser, filename: string)
    requires ToLower(GoPath.Ext(filename)) in p.Extensions
    ensures Lookup(parsers[p.Language := p], MapExtensions(extToLang, p.Extensions, p.Language), filename) == Some(p)
  {
  }

  /** Registering p leaves every extension p does not claim where it was. */
  lemma LookupOtherAfterRegister(parsers: map<string, LanguageParser>, extToLang: map<string, string>,
                                 p: LanguageParser, filename: string)
    requires ToLower(GoPath.Ext(filename)) !in p.Extensions
    requires forall e :: e in extToLang ==> extToLang[e] != p.Language
    ensures Lookup(parsers[p.Language := p], MapExtensions(extToLang, p.Extensions, p.Language), filename)
            == Lookup(parsers, extToLang, filename)
  {
  }

  lemma {:induction false} ExtStartToLower(p: string, i: int)
    requires -1 <= i < |p|
    ensures GoPath.ExtStart(ToLower(p), i) == GoPath.ExtStart(p, i)
    decreases i + 1
  {
    if i >= 0 && p[i] != '/' && p[i] != '.' {
      ExtStartToLower(p, i - 1);
    }
  }

  /** The extension of a lower-cased name is the lower-cased extension. */
  lemma ExtToLower(p: string)
    ensures GoPath.Ext(ToLower(p)) == ToLower(GoPath.Ext(p))
  {
    ExtStartToLower(p, |p| - 1);
  }

  /** Two names that differ only in letter case get the same parser. */
  lemma LookupCaseInsensitive(parsers: map<string, LanguageParser>, extToLang: map<string, string>, a: string, b: string)
    requires ToLower(a) == ToLower(b)
    ensures Lookup(parsers, extToLang, a) == Lookup(parsers, extToLang, b)
  {
    ExtToLower(a);
    ExtToLower(b);
    ToLowerIdempotent(GoPath.Ext(a));
    ToLowerIdempotent(GoPath.Ext(b));
  }

  class Registry {
    var parsers: map<string, LanguageParser>
    var extToLang: map<string, string>

    /** NewRegistry */
    constructor ()
      ensures parsers == map[] && extToLang == map[]
    {
      parsers := map[];
      extToLang := map[];
    }

    /** Register: p serves its language, and each of its extensions now maps to that language. */
    method Register(p: LanguageParser)
      modifies this
      ensures parsers == old(parsers)[p.Language := p]
      ensures extToLang == MapExtensions(old(extToLang), p.Extensions, p.Language)
    {
      parsers := parsers[p.Language := p];
      var i := 0;
      while i < |p.Extensions|
        invariant 0 <= i <= |p.Extensions|
        invariant parsers == old(parsers)[p.Language := p]
        invariant extToLang == MapExtensions(old(extToLang), p.Extensions[..i], p.Language)
      {
        assert p.Extensions[..i + 1][..i] == p.Extensions[..i];
        extToLang := extToLang[p.Extensions[i] := p.Language];
        i := i + 1;
      }
      assert p.Extensions[..i] == p.Extensions;
    }

    /** GetParserForFile */
    function GetParserForFile(filename: string): (r: Option<LanguageParser>)
      reads this
      ensures r == Lookup(parsers, extToLang, filename)
      ensures ToLower(GoPath.Ext(filename)) !in extToLang ==> r.None?
    {
      Lookup(parsers, extToLang, filename)
    }

    /** SupportedExtensions: every registered extension once, in map order. */
    method SupportedExtensions() returns (exts: seq<string>)
      ensures NoDups(exts)
      ensures forall e :: e in exts <==> e in extToLang
    {
      exts := [];
      var rest := extToLang.Keys;
      while rest != {}
        invariant rest <= extToLang.Keys
        invariant NoDups(exts)
        invariant forall e :: e in exts <==> e in extToLang && e !in rest
        decreases |rest|
      {
        var e :| e in rest;
        exts := exts + [e];
        rest := rest - {e};
      }
    }

    /**
     * ParseFile: a file without a registered parser is skipped before it is
     * read; read and parse errors are passed on; a parsed file has its
     * imports, aliases and call sites normalised and its content hash set.
     */
    method ParseFile(path: string,
                     readFile: string -> GoPath.Result<string>,
                     parse: (LanguageParser, string, string) -> GoPath.Result<FileSymbols>,
                     contentHash: string -> Hex16)
      returns (out: ParseOutcome)
      ensures out.Skipped? <==> GetParserForFile(path).None?
      ensures out.Failed? <==>
                GetParserForFile(path).Some? &&
                (readFile(path).Err? || parse(GetParserForFile(path).value, path, readFile(path).value).Err?)
      ensures out.Parsed? ==>
                var content := readFile(path).value;
                var raw := parse(GetParserForFile(path).value, path, content).value;
                && out.file.Path == raw.Path && out.file.Language == raw.Language
                && out.file.Imports == NormalizedStrings(raw.Imports)
                && AliasesNormalized(raw.ImportAliases, out.file.ImportAliases)
                && SymbolsNormalized(raw.Symbols, out.file.Symbols)
                && out.file.Hash == contentHash(content)
    {
      var parser := GetParserForFile(path);
      if parser.None? {
        return Skipped;
      }
      var content := readFile(path);
      if content.Err? {
        return Failed(content.msg);
      }
      var parsed := parse(parser.value, path, content.value);
      if parsed.Err? {
        return Failed(parsed.msg);
      }
      var symbols := parsed.value;
      var imports := NormalizeStrings(symbols.Imports);
      var aliases := NormalizeImportAliases(symbols.ImportAliases);
      var syms := NormalizeSymbols(symbols.Symbols);
      out := Parsed(symbols.(Imports := imports, ImportAliases := aliases, Symbols := syms, Hash := contentHash(content.value)));
    }
  }

  /** A symbol with its call sites normalised. */
  function WithNormalizedCalls(sym: Symbol): Symbol {
    sym.(Calls := NormalizedCallSites(sym.Calls))
  }

  /** out is syms with every symbol's call sites normalised. */
  predicate SymbolsNormalized(syms: seq<Symbol>, out: seq<Symbol>) {
    |out| == |syms| && forall k :: 0 <= k < |syms| ==> out[k] == WithNormalizedCalls(syms[k])
  }

  /** The loop of ParseFile that normalises the call sites of each symbol in place. */
  method NormalizeSymbols(symbols: seq<Symbol>) returns (syms: seq<Symbol>)
    ensures SymbolsNormalized(symbols, syms)
  {
    syms := symbols;
    var i := 0;
    while i < |syms|
      invariant 0 <= i <= |syms| && |syms| == |symbols|
      invariant forall k :: 0 <= k < i ==> syms[k] == WithNormalizedCalls(symbols[k])
      invariant forall k :: i <= k < |syms| ==> syms[k] == symbols[k]
    {
      var calls := NormalizeCallSites(syms[i].Calls);
      syms := syms[i := syms[i].(Calls := calls)];
      i := i + 1;
    }
  }

  /** The three outcomes of ParseFile: (nil, nil), (nil, err) and (symbols, nil). */
  datatype ParseOutcome = Skipped | Failed(err: string) | Parsed(file: FileSymbols)

  /** hashContent: the first 16 hex digits of a SHA-256 digest, left uninterpreted. */
  type Hex16 = h: string | |h| == 16 && forall k :: 0 <= k < |h| ==> SymbolIds.IsHexDigit(h[k])
    witness "0000000000000000"

  // ---------------------------------------------------------------------
  // normalizeStrings

  predicate NonBlank(s: string) {
    s != ""
  }

  /** The trimmed values that are not blank, in input order. */
  function TrimmedNonBlank(values: seq<string>): seq<string> {
    MapFilter(values, TrimSpace, NonBlank)
  }

  /** What normalizeStrings returns. */
  function NormalizedStrings(values: seq<string>): seq<string> {
    SortStrings(Distinct(TrimmedNonBlank(values)))
  }

  /**
   * Sorting the distinct non-blank images of the values under any f gives,
   * strictly ascending, exactly those images.
   */
  lemma SortedDistinctImages(values: seq<string>, f: string -> string)
    ensures StrictlyAscending(SortStrings(Distinct(MapFilter(values, f, NonBlank))))
    ensures forall x :: x in SortStrings(Distinct(MapFilter(values, f, NonBlank))) <==>
              x != "" && exists k :: 0 <= k < |values| && f(values[k]) == x
  {
    var m := MapFilter(values, f, NonBlank);
    var d := Distinct(m);
    MapFilterMembers(values, f, NonBlank);
    SortStringsAscending(d);
    SortStringsSorted(d);
    MultisetMembers(SortStrings(d), d);
  }

  /** With an idempotent f, the sorted distinct images are their own normal form. */
  lemma SortedDistinctImagesIdempotent(values: seq<string>, f: string -> string)
    requires forall s :: f(f(s)) == f(s)
    ensures var r := SortStrings(Distinct(MapFilter(values, f, NonBlank)));
      SortStrings(Distinct(MapFilter(r, f, NonBlank))) == r
  {
    var r := SortStrings(Distinct(MapFilter(values, f, NonBlank)));
    SortedDistinctImages(values, f);
    forall j | 0 <= j < |r|
      ensures NonBlank(r[j]) && f(r[j]) == r[j]
    {
      assert r[j] in r;
      var k :| 0 <= k < |values| && f(values[k]) == r[j];
    }
    MapFilterFixed(r, f, NonBlank);
    AscendingSorted(r);
    DistinctNoDups(r);
    SortBySortedNoop(r, Strs.LessEq);
  }

  /** normalizeStrings yields, strictly ascending, exactly the trimmed non-blank inputs. */
  lemma NormalizedStringsSpec(values: seq<string>)
    ensures StrictlyAscending(NormalizedStrings(values))
    ensures forall x :: x in NormalizedStrings(values) <==>
              x != "" && exists k :: 0 <= k < |values| && TrimSpace(values[k]) == x
  {
    SortedDistinctImages(values, TrimSpace);
  }

  /** Normalising a normalised list changes nothing. */
  lemma NormalizedStringsIdempotent(values: seq<string>)
    ensures NormalizedStrings(NormalizedStrings(values)) == NormalizedStrings(values)
  {
    forall s
      ensures TrimSpace(TrimSpace(s)) == TrimSpace(s)
    {
      TrimSpaceIdempotent(s);
    }
    SortedDistinctImagesIdempotent(values, TrimSpace);
  }

  /** One step of the normalizeStrings loop: the trimmed value at i is kept exactly when it is non-blank and new. */
  lemma NormalizeStringsStep(values: seq<string>, i: nat)
    requires i < |values|
    ensures var d := Distinct(TrimmedNonBlank(values[..i]));
            var v := TrimSpace(values[i]);
            Distinct(TrimmedNonBlank(values[..i + 1])) == if v != "" && v !in d then d + [v] else d
  {
    var prefix := values[..i];
    var m := TrimmedNonBlank(prefix);
    var v := TrimSpace(values[i]);
    assert values[..i + 1] == prefix + [values[i]];
    MapFilterSnoc(prefix, values[i], TrimSpace, NonBlank);
    if v != "" {
      assert TrimmedNonBlank(values[..i + 1]) == m + [v];
      DistinctSnoc(m, v);
    } else {
      assert TrimmedNonBlank(values[..i + 1]) == m;
    }
  }

  /** normalizeStrings */
  method NormalizeStrings(values: seq<string>) returns (out: seq<string>)
    ensures out == NormalizedStrings(values)
  {
    if |values| == 0 {
      return [];
    }
    var seen: set<string> := {};
    var acc: seq<string> := [];
    var i := 0;
    while i < |values|
      invariant 0 <= i <= |values|
      invariant acc == Distinct(TrimmedNonBlank(values[..i]))
      invariant forall x :: x in seen <==> x in acc
    {
      var value := TrimSpace(values[i]);
      NormalizeStringsStep(values, i);
      if value != "" && value !in seen {
        seen := seen + {value};
        acc := acc + [value];
      }
      i := i + 1;
    }
    assert values[..i] == values;
    out := SortStrings(acc);
  }

  // ---------------------------------------------------------------------
  // normalizeCallSites

  function TrimCall(c: CallSite): CallSite {
    c.(Name := TrimSpace(c.Name), Qualifier := TrimSpace(c.Qualifier),
       Receiver := TrimSpace(c.Receiver), Raw := TrimSpace(c.Raw))
  }

  predicate IsTrimmedCall(c: CallSite) {
    TrimSpace(c.Name) == c.Name && TrimSpace(c.Qualifier) == c.Qualifier
    && TrimSpace(c.Receiver) == c.Receiver && TrimSpace(c.Raw) == c.Raw
  }

  lemma TrimCallTrimmed(c: CallSite)
    ensures IsTrimmedCall(TrimCall(c))
  {
    TrimSpaceIdempotent(c.Name);
    TrimSpaceIdempotent(c.Qualifier);
    TrimSpaceIdempotent(c.Receiver);
    TrimSpaceIdempotent(c.Raw);
  }

  predicate HasName(c: CallSite) {
    c.Name != ""
  }

  /** The trimmed call sites whose trimmed name is not blank, in input order. */
  function TrimmedCalls(values: seq<CallSite>): seq<CallSite> {
    MapFilter(values, TrimCall, HasName)
  }

  /** Call sites that agree on these five fields are duplicates. */
  function CallKey(c: CallSite): (string, string, string, int, int) {
    (c.Name, c.Qualifier, c.Receiver, c.Arity, c.Line)
  }

  /** Call sites are ordered by line, then qualifier, name, receiver and raw text. */
  function CallOrder(c: CallSite): seq<KeyPart> {
    [IntKey(c.Line), StrKey(c.Qualifier), StrKey(c.Name), StrKey(c.Receiver), StrKey(c.Raw)]
  }

  /** What normalizeCallSites returns. */
  function NormalizedCallSites(values: seq<CallSite>): seq<CallSite> {
    SortByKey(DistinctBy(TrimmedCalls(values), CallKey), CallOrder)
  }

  /** The normalised call sites are the de-duplicated ones, rearranged. */
  lemma NormalizedCallSitesMembers(values: seq<CallSite>)
    ensures var d := DistinctBy(TrimmedCalls(values), CallKey);
      forall x :: x in NormalizedCallSites(values) <==> x in d
  {
    var d := DistinctBy(TrimmedCalls(values), CallKey);
    var r := NormalizedCallSites(values);
    assert multiset(r) == multiset(d);
    forall x
      ensures x in r <==> x in d
    {
      assert x in r <==> x in multiset(r);
      assert x in d <==> x in multiset(d);
    }
  }

  /** normalizeCallSites orders its result by (line, qualifier, name, receiver, raw). */
  lemma NormalizedCallSitesSorted(values: seq<CallSite>)
    ensures var r := NormalizedCallSites(values);
      forall i, j :: 0 <= i < j < |r| ==> KeyLe(CallOrder(r[i]), CallOrder(r[j]))
  {
    SortByKeySorted(DistinctBy(TrimmedCalls(values), CallKey), CallOrder);
  }

  /** Every normalised call site is named and has all its text fields trimmed. */
  lemma NormalizedCallSitesTrimmed(values: seq<CallSite>)
    ensures var r := NormalizedCallSites(values);
      forall k :: 0 <= k < |r| ==> r[k].Name != "" && IsTrimmedCall(r[k])
  {
    var t := TrimmedCalls(values);
    var r := NormalizedCallSites(values);
    NormalizedCallSitesMembers(values);
    DistinctBySubset(t, CallKey);
    MapFilterMembers(values, TrimCall, HasName);
    forall k | 0 <= k < |r|
      ensures r[k].Name != "" && IsTrimmedCall(r[k])
    {
      assert r[k] in r;
      assert r[k] in DistinctBy(t, CallKey);
      assert r[k] in t;
      var j :| 0 <= j < |values| && TrimCall(values[j]) == r[k];
      TrimCallTrimmed(values[j]);
    }
  }

  /** No two normalised call sites share a key. */
  lemma NormalizedCallSitesKeysDistinct(values: seq<CallSite>)
    ensures NoDups(Keys(NormalizedCallSites(values), CallKey))
  {
    var d := DistinctBy(TrimmedCalls(values), CallKey);
    DistinctByKeysNoDups(TrimmedCalls(values), CallKey);
    NoDupKeysOfMultiset(d, NormalizedCallSites(values), CallKey);
  }

  /** Every named input call site is represented, by its key, in the result. */
  lemma NormalizedCallSitesComplete(values: seq<CallSite>, j: int)
    requires 0 <= j < |values| && TrimSpace(values[j].Name) != ""
    ensures CallKey(TrimCall(values[j])) in Keys(NormalizedCallSites(values), CallKey)
  {
    var t := TrimmedCalls(values);
    var d := DistinctBy(t, CallKey);
    var c := TrimCall(values[j]);
    assert c in t by {
      MapFilterMembers(values, TrimCall, HasName);
      assert HasName(c);
    }
    var m :| 0 <= m < |t| && t[m] == c;
    DistinctByCovers(t, CallKey, m);
    var a :| 0 <= a < |d| && Keys(d, CallKey)[a] == CallKey(c);
    var e := d[a];
    assert e in NormalizedCallSites(values) by {
      assert e in d;
      NormalizedCallSitesMembers(values);
    }
    KeysMember(NormalizedCallSites(values), e, CallKey);
  }

  /** Normalising normalised call sites changes nothing. */
  lemma NormalizedCallSitesIdempotent(values: seq<CallSite>)
    ensures NormalizedCallSites(NormalizedCallSites(values)) == NormalizedCallSites(values)
  {
    var r := NormalizedCallSites(values);
    NormalizedCallSitesTrimmed(values);
    NormalizedCallSitesKeysDistinct(values);
    NormalizedCallSitesSorted(values);
    forall k | 0 <= k < |r|
      ensures HasName(r[k]) && TrimCall(r[k]) == r[k]
    {
      assert IsTrimmedCall(r[k]);
    }
    MapFilterFixed(r, TrimCall, HasName);
    DistinctByNoDupKeys(r, CallKey);
    assert SortedBy(r, ByKey(CallOrder));
    SortBySortedNoop(r, ByKey(CallOrder));
  }

  /** The keys DistinctBy has kept are the keys seen so far. */
  lemma DistinctByKeysMembers<T, K(!new)>(s: seq<T>, key: T -> K, k: K)
    ensures k in Keys(DistinctBy(s, key), key) <==> k in Keys(s, key)
  {
    DistinctByKeys(s, key);
  }

  /** One step of the normalizeCallSites loop: the call site at i is kept exactly when it is named and its key is new. */
  lemma NormalizeCallSitesStep(values: seq<CallSite>, i: nat)
    requires i < |values|
    ensures var d := DistinctBy(TrimmedCalls(values[..i]), CallKey);
            var c := TrimCall(values[i]);
            DistinctBy(TrimmedCalls(values[..i + 1]), CallKey) ==
              if c.Name != "" && CallKey(c) !in Keys(d, CallKey) then d + [c] else d
  {
    var prefix := values[..i];
    var v := values[i];
    assert values[..i + 1] == prefix + [v];
    var c := TrimCall(v);
    var t := TrimmedCalls(prefix);
    MapFilterSnoc(prefix, v, TrimCall, HasName);
    DistinctByKeysMembers(t, CallKey, CallKey(c));
    if c.Name != "" {
      assert TrimmedCalls(prefix + [v]) == t + [c];
      DistinctBySnoc(t, c, CallKey);
    } else {
      assert TrimmedCalls(prefix + [v]) == t;
    }
  }

  /** normalizeCallSites */
  method NormalizeCallSites(values: seq<CallSite>) returns (out: seq<CallSite>)
    ensures out == NormalizedCallSites(values)
  {
    if |values| == 0 {
      return [];
    }
    var seen: set<(string, string, string, int, int)> := {};
    var acc: seq<CallSite> := [];
    var i := 0;
    while i < |values|
      invariant 0 <= i <= |values|
      invariant acc == DistinctBy(TrimmedCalls(values[..i]), CallKey)
      invariant forall k :: k in seen <==> k in Keys(acc, CallKey)
    {
      var value := TrimCall(values[i]);
      NormalizeCallSitesStep(values, i);
      if value.Name != "" && CallKey(value) !in seen {
        KeysSnoc(acc, value, CallKey);
        seen := seen + {CallKey(value)};
        acc := acc + [value];
      }
      i := i + 1;
    }
    assert values[..i] == values;
    out := SortByKey(acc, CallOrder);
  }

  // ---------------------------------------------------------------------
  // The de-duplication key as written

  /**
   * The key normalizeCallSites builds: the five fields joined with '|'.
   * A '|' inside a name, qualifier or receiver makes different call sites
   * share a key.
   */
  function AsWrittenCallKey(c: CallSite): string {
    Join([c.Name, c.Qualifier, c.Receiver, GoStrconv.Itoa(c.Arity), GoStrconv.Itoa(c.Line)], "|")
  }

  /** normalizeCallSites as written, de-duplicating by the joined string key. */
  function NormalizedCallSitesAsWritten(values: seq<CallSite>): seq<CallSite> {
    SortByKey(DistinctBy(TrimmedCalls(values), AsWrittenCallKey), CallOrder)
  }

  lemma ItoaNoBar(n: int)
    ensures '|' !in GoStrconv.Itoa(n)
  {
    var s := GoStrconv.Itoa(n);
    assert forall k :: 0 <= k < |s| ==> s[k] != '|';
  }

  /** Without '|' in the text fields, the string key identifies the same call sites as the field key. */
  lemma AsWrittenCallKeyAgrees(a: CallSite, b: CallSite)
    requires '|' !in a.Name && '|' !in a.Qualifier && '|' !in a.Receiver
    requires '|' !in b.Name && '|' !in b.Qualifier && '|' !in b.Receiver
    ensures AsWrittenCallKey(a) == AsWrittenCallKey(b) <==> CallKey(a) == CallKey(b)
  {
    if AsWrittenCallKey(a) == AsWrittenCallKey(b) {
      var pa := [a.Name, a.Qualifier, a.Receiver, GoStrconv.Itoa(a.Arity), GoStrconv.Itoa(a.Line)];
      var pb := [b.Name, b.Qualifier, b.Receiver, GoStrconv.Itoa(b.Arity), GoStrconv.Itoa(b.Line)];
      ItoaNoBar(a.Arity);
      ItoaNoBar(a.Line);
      ItoaNoBar(b.Arity);
      ItoaNoBar(b.Line);
      SplitJoin(pa, '|');
      SplitJoin(pb, '|');
      assert pa == pb;
      GoStrconv.ItoaInjective(a.Arity, b.Arity);
      GoStrconv.ItoaInjective(a.Line, b.Line);
    }
  }

  /** On call sites without '|' in their text fields, the code as written and the intended one agree. */
  lemma AsWrittenAgreesWithoutBars(values: seq<CallSite>)
    requires forall j :: 0 <= j < |values| ==>
               '|' !in values[j].Name && '|' !in values[j].Qualifier && '|' !in values[j].Receiver
    ensures NormalizedCallSitesAsWritten(values) == NormalizedCallSites(values)
  {
    var t := TrimmedCalls(values);
    MapFilterMembers(values, TrimCall, HasName);
    forall k | 0 <= k < |t|
      ensures '|' !in t[k].Name && '|' !in t[k].Qualifier && '|' !in t[k].Receiver
    {
      assert t[k] in t;
      var j :| 0 <= j < |values| && TrimCall(values[j]) == t[k];
      TrimSpaceSubstring(values[j].Name);
      TrimSpaceSubstring(values[j].Qualifier);
      TrimSpaceSubstring(values[j].Receiver);
    }
    forall i, j | 0 <= i < |t| && 0 <= j < |t|
      ensures AsWrittenCallKey(t[i]) == AsWrittenCallKey(t[j]) <==> CallKey(t[i]) == CallKey(t[j])
    {
      AsWrittenCallKeyAgrees(t[i], t[j]);
    }
    DistinctByCongruent(t, AsWrittenCallKey, CallKey);
  }

  /**
   * Two call sites whose qualifier and receiver differ only in where a '|'
   * falls share the joined key, although their fields differ.
   */
  lemma AsWrittenKeyCollision(name: string, q: string, r: string, arity: int, line: int)
    ensures var c1 := CallSite(name, q + "|", r, arity, line, "");
            var c2 := CallSite(name, q, "|" + r, arity, line, "");
      AsWrittenCallKey(c1) == AsWrittenCallKey(c2) && CallKey(c1) != CallKey(c2)
  {
    var c1 := CallSite(name, q + "|", r, arity, line, "");
    var c2 := CallSite(name, q, "|" + r, arity, line, "");
    var t := Join([GoStrconv.Itoa(arity), GoStrconv.Itoa(line)], "|");
    JoinOfFive(name, q + "|", r, GoStrconv.Itoa(arity), GoStrconv.Itoa(line));
    JoinOfFive(name, q, "|" + r, GoStrconv.Itoa(arity), GoStrconv.Itoa(line));
    assert AsWrittenCallKey(c1) == name + "|" + (q + "|" + "|" + (r + "|" + t));
    assert AsWrittenCallKey(c2) == name + "|" + (q + "|" + ("|" + r + "|" + t));
    assert c1.Qualifier != c2.Qualifier by {
      assert |c1.Qualifier| != |c2.Qualifier|;
    }
  }

  lemma JoinOfFive(a: string, b: string, c: string, d: string, e: string)
    ensures Join([a, b, c, d, e], "|") == a + "|" + (b + "|" + (c + "|" + Join([d, e], "|")))
  {
    assert [a, b, c, d, e] == [a] + [b, c, d, e];
    assert [b, c, d, e] == [b] + [c, d, e];
    assert [c, d, e] == [c] + [d, e];
    JoinCons(a, [b, c, d, e], "|");
    JoinCons(b, [c, d, e], "|");
    JoinCons(c, [d, e], "|");
  }

  /** As written, the second of two such call sites is dropped; keyed by fields, both are kept. */
  lemma AsWrittenMergesDistinctCalls(c1: CallSite, c2: CallSite)
    requires AsWrittenCallKey(c1) == AsWrittenCallKey(c2) && CallKey(c1) != CallKey(c2)
    ensures DistinctBy([c1, c2], AsWrittenCallKey) == [c1]
    ensures DistinctBy([c1, c2], CallKey) == [c1, c2]
  {
    DistinctByPair(c1, c2, AsWrittenCallKey);
    DistinctByPair(c1, c2, CallKey);
  }

  // ---------------------------------------------------------------------
  // normalizeImportAliases

  /**
   * out is a normalisation of values: every entry of out is a trimmed,
   * non-blank alias and target taken from one entry of values, and every
   * entry of values with a non-blank trimmed alias and target has its alias
   * in out. When several aliases trim to the same text, the one Go's map
   * iteration reaches last wins, so which target survives is not fixed.
   */
  predicate AliasesNormalized(values: map<string, string>, out: map<string, string>) {
    && (forall a :: a in out ==>
          a != "" && out[a] != "" && exists k :: k in values && TrimSpace(k) == a && TrimSpace(values[k]) == out[a])
    && (forall k :: k in values && TrimSpace(k) != "" && TrimSpace(values[k]) != "" ==> TrimSpace(k) in out)
  }

  /** normalizeImportAliases, visiting the entries in an arbitrary order. */
  method NormalizeImportAliases(values: map<string, string>) returns (out: map<string, string>)
    ensures AliasesNormalized(values, out)
  {
    out := map[];
    var rest := values.Keys;
    while rest != {}
      invariant rest <= values.Keys
      invariant forall a :: a in out ==>
                  a != "" && out[a] != "" && exists k :: k in values && TrimSpace(k) == a && TrimSpace(values[k]) == out[a]
      invariant forall k :: k in values && k !in rest && TrimSpace(k) != "" && TrimSpace(values[k]) != "" ==>
                  TrimSpace(k) in out
      decreases |rest|
    {
      var alias :| alias in rest;
      rest := rest - {alias};
      var a := TrimSpace(alias);
      var t := TrimSpace(values[alias]);
      if a != "" && t != "" {
        out := out[a := t];
      }
    }
  }

  /** A normalised alias map holds trimmed aliases and targets. */
  lemma AliasesNormalizedTrimmed(values: map<string, string>, out: map<string, string>)
    requires AliasesNormalized(values, out)
    ensures forall a :: a in out ==> TrimSpace(a) == a && TrimSpace(out[a]) == out[a]
  {
    forall a | a in out
      ensures TrimSpace(a) == a && TrimSpace(out[a]) == out[a]
    {
      var k :| k in values && TrimSpace(k) == a && TrimSpace(values[k]) == out[a];
      TrimSpaceIdempotent(k);
      TrimSpaceIdempotent(values[k]);
    }
  }
}
