/**
 * The text rules of the TypeScript front end
 * (internal/languages/typescript.go): which grammar a file is parsed with,
 * how a return type annotation is normalised, how a comma-separated list is
 * split at its top level, and which names an `import` statement binds.
 * The syntax tree is not modelled: the text the source reads from it is a
 * parameter.
 */
module LanguagesTypeScript {
  import opened Wrappers
  import opened Strs
  import opened Seqs
  import LanguagesCommon

  // ---------------------------------------------------------------------
  // The grammar of a file

  const JavaScript := "javascript"
  const TypeScript := "typescript"

  /** Whether the file name carries one of the JavaScript extensions. */
  predicate JavaScriptFile(filename: string) {
    HasSuffix(filename, ".js") || HasSuffix(filename, ".jsx") ||
    HasSuffix(filename, ".mjs") || HasSuffix(filename, ".cjs")
  }

  /** The language a file is labelled with: JavaScript for the JavaScript extensions, TypeScript for any other name. */
  function FileLanguage(filename: string): (lang: string)
    ensures lang == JavaScript <==> JavaScriptFile(filename)
    ensures lang == TypeScript <==> !JavaScriptFile(filename)
  {
    if JavaScriptFile(filename) then JavaScript else TypeScript
  }

  /** Every JavaScript extension selects JavaScript, and .ts and .tsx files stay TypeScript. */
  lemma LanguageOfExtension(base: string)
    ensures FileLanguage(base + ".js") == JavaScript
    ensures FileLanguage(base + ".jsx") == JavaScript
    ensures FileLanguage(base + ".mjs") == JavaScript
    ensures FileLanguage(base + ".cjs") == JavaScript
    ensures FileLanguage(base + ".ts") == TypeScript
    ensures FileLanguage(base + ".tsx") == TypeScript
  {
    SuffixOfAppend(base, ".js");
    SuffixOfAppend(base, ".jsx");
    SuffixOfAppend(base, ".mjs");
    SuffixOfAppend(base, ".cjs");
    var ts, tsx := base + ".ts", base + ".tsx";
    assert ts[|ts| - 3..] == ".ts" && tsx[|tsx| - 4..] == ".tsx";
    NotSuffixAt(ts, ".js", 1);
    NotSuffixAt(ts, ".jsx", 3);
    NotSuffixAt(ts, ".mjs", 1);
    NotSuffixAt(ts, ".cjs", 1);
    NotSuffixAt(tsx, ".js", 2);
    NotSuffixAt(tsx, ".jsx", 1);
    NotSuffixAt(tsx, ".mjs", 3);
    NotSuffixAt(tsx, ".cjs", 3);
  }

  // ---------------------------------------------------------------------
  // formatTypeScriptReturnType

  /** A non-empty text without white space at its ends. */
  predicate Word(s: string) {
    s != "" && NoEdgeSpace(s)
  }

  /** formatTypeScriptReturnType: "" for a blank annotation, else ": " and the type with one leading ':' removed, trimmed. */
  function FormatReturnType(raw: string): (r: string)
    ensures r == "" || (HasPrefix(r, ": ") && Word(r[2..]))
  {
    var value := TrimSpace(raw);
    if value == "" then ""
    else
      var t := TrimSpace(TrimPrefix(value, ":"));
      if t == "" then "" else
        assert (": " + t)[2..] == t;
        ": " + t
  }

  /** An annotation already in the form ": T" is kept as it is. */
  lemma FormatColonSpace(t: string)
    requires Word(t)
    ensures FormatReturnType(": " + t) == ": " + t
  {
    var s := ": " + t;
    assert s[0] == ':' && s[|s| - 1] == t[|t| - 1];
    TrimSpaceNoop(s);
    assert s[..1] == ":" && s[1..] == " " + t;
    assert AllSpace(" ");
    TrimSpaceSpacePrefix(" ", t);
    TrimSpaceNoop(t);
  }

  /** A type written without a colon, or after one, comes out as ": T". */
  lemma FormatsType(t: string)
    requires Word(t) && t[0] != ':'
    ensures FormatReturnType(t) == ": " + t
    ensures FormatReturnType(":" + t) == ": " + t
    ensures FormatReturnType(": " + t) == ": " + t
  {
    TrimSpaceNoop(t);
    assert !HasPrefix(t, ":");
    var c := ":" + t;
    assert c[0] == ':' && c[|c| - 1] == t[|t| - 1];
    TrimSpaceNoop(c);
    assert c[..1] == ":" && c[1..] == t;
    FormatColonSpace(t);
  }

  /** Formatting an already formatted annotation changes nothing. */
  lemma FormatIdempotent(raw: string)
    ensures FormatReturnType(FormatReturnType(raw)) == FormatReturnType(raw)
  {
    var r := FormatReturnType(raw);
    if r != "" {
      assert r == ": " + r[2..];
      FormatColonSpace(r[2..]);
    }
  }

  // ---------------------------------------------------------------------
  // splitTopLevelCSV

  /** The brace depth after one more character: '{' opens, '}' closes when something is open. */
  function Step(depth: int, c: char): int {
    if c == '{' then depth + 1
    else if c == '}' && depth > 0 then depth - 1
    else depth
  }

  /** The brace depth before raw[i]; it never drops below zero. */
  function Depth(raw: string, i: nat): (d: int)
    requires i <= |raw|
    ensures d >= 0
  {
    if i == 0 then 0 else Step(Depth(raw, i - 1), raw[i - 1])
  }

  /** Whether raw[i] is a comma outside every brace. */
  predicate TopComma(raw: string, i: nat)
    requires i < |raw|
  {
    raw[i] == ',' && Depth(raw, i) == 0
  }

  /** The pieces of raw[..n] between its top-level commas, untrimmed; the last one is still open. */
  function Pieces(raw: string, n: nat): (ps: seq<string>)
    requires n <= |raw|
    ensures |ps| >= 1
  {
    if n == 0 then [""]
    else
      var ps := Pieces(raw, n - 1);
      if TopComma(raw, n - 1) then ps + [""]
      else ps[..|ps| - 1] + [ps[|ps| - 1] + [raw[n - 1]]]
  }

  /** Every text of the list, trimmed. */
  function TrimAll(ps: seq<string>): (r: seq<string>)
    ensures |r| == |ps|
  {
    seq(|ps|, k requires 0 <= k < |ps| => TrimSpace(ps[k]))
  }

  lemma TrimAllSnoc(ps: seq<string>, x: string)
    ensures TrimAll(ps + [x]) == TrimAll(ps) + [TrimSpace(x)]
  {
    var l, r := TrimAll(ps + [x]), TrimAll(ps) + [TrimSpace(x)];
    assert forall k :: 0 <= k < |l| ==> l[k] == r[k] by {
      forall k | 0 <= k < |l|
        ensures l[k] == r[k]
      {
        if k < |ps| {
          assert (ps + [x])[k] == ps[k];
        }
      }
    }
  }

  /** splitTopLevelCSV as a value: nothing for a blank text, else its top-level pieces, trimmed. */
  function SplitTopLevel(raw: string): (parts: seq<string>)
    ensures parts == [] <==> TrimSpace(raw) == ""
  {
    if TrimSpace(raw) == "" then [] else TrimAll(Pieces(raw, |raw|))
  }

  /** Joining an extended last piece extends the joined text. */
  lemma JoinExtendLast(init: seq<string>, last: string, x: string, sep: string)
    ensures Join(init + [last + x], sep) == Join(init + [last], sep) + x
  {
    if init == [] {
      assert [] + [last + x] == [last + x] && [] + [last] == [last];
    } else {
      JoinSnoc(init, last + x, sep);
      JoinSnoc(init, last, sep);
    }
  }

  /** Splitting loses nothing but the separating commas: the pieces joined by "," give the text back. */
  lemma {:induction false} PiecesJoin(raw: string, n: nat)
    requires n <= |raw|
    ensures Join(Pieces(raw, n), ",") == raw[..n]
  {
    if n > 0 {
      var ps := Pieces(raw, n - 1);
      PiecesJoin(raw, n - 1);
      assert raw[..n] == raw[..n - 1] + [raw[n - 1]];
      if TopComma(raw, n - 1) {
        JoinSnoc(ps, "", ",");
      } else {
        var init, last := ps[..|ps| - 1], ps[|ps| - 1];
        assert init + [last] == ps;
        JoinExtendLast(init, last, [raw[n - 1]], ",");
      }
    }
  }

  /** The number of top-level commas in raw[..n]. */
  function TopCommas(raw: string, n: nat): nat
    requires n <= |raw|
  {
    if n == 0 then 0 else TopCommas(raw, n - 1) + (if TopComma(raw, n - 1) then 1 else 0)
  }

  /** Each top-level comma, and nothing else, starts a new piece. */
  lemma {:induction false} PiecesCount(raw: string, n: nat)
    requires n <= |raw|
    ensures |Pieces(raw, n)| == TopCommas(raw, n) + 1
  {
    if n > 0 {
      PiecesCount(raw, n - 1);
    }
  }

  /** A text whose commas all lie inside braces is one piece. */
  lemma {:induction false} NestedCommasKeepOnePiece(raw: string)
    requires TrimSpace(raw) != ""
    requires forall i :: 0 <= i < |raw| ==> !TopComma(raw, i)
    ensures SplitTopLevel(raw) == [TrimSpace(raw)]
  {
    NoTopCommas(raw, |raw|);
    PiecesCount(raw, |raw|);
    PiecesJoin(raw, |raw|);
    assert raw[..|raw|] == raw;
    var ps := Pieces(raw, |raw|);
    assert ps == [ps[0]];
    assert TrimAll(ps) == TrimAll([]) + [TrimSpace(ps[0])];
  }

  lemma {:induction false} NoTopCommas(raw: string, n: nat)
    requires n <= |raw|
    requires forall i :: 0 <= i < n ==> !TopComma(raw, i)
    ensures TopCommas(raw, n) == 0
  {
    if n > 0 {
      NoTopCommas(raw, n - 1);
    }
  }

  /**
   * One more character: the depth steps, and the open piece is either
   * closed, at a top-level comma, or extended.
   */
  lemma PiecesStep(raw: string, i: nat, done: seq<string>, start: nat, depth: int)
    requires start <= i < |raw| && depth == Depth(raw, i)
    requires Pieces(raw, i) == done + [raw[start..i]]
    ensures Depth(raw, i + 1) == Step(depth, raw[i])
    ensures TopComma(raw, i) <==> raw[i] == ',' && depth == 0
    ensures TopComma(raw, i) ==> Pieces(raw, i + 1) == (done + [raw[start..i]]) + [raw[i + 1..i + 1]]
    ensures !TopComma(raw, i) ==> Pieces(raw, i + 1) == done + [raw[start..i + 1]]
    ensures TrimAll(done + [raw[start..i]]) == TrimAll(done) + [TrimSpace(raw[start..i])]
  {
    var ps := Pieces(raw, i);
    assert ps[..|ps| - 1] == done && ps[|ps| - 1] == raw[start..i];
    assert raw[start..i + 1] == raw[start..i] + [raw[i]];
    assert raw[i + 1..i + 1] == "";
    TrimAllSnoc(done, raw[start..i]);
  }

  /**
   * The state of the scan of splitTopLevelCSV before raw[i]: the depth so
   * far, the trimmed pieces already cut, and the open piece from start.
   */
  ghost predicate Scanned(raw: string, i: nat, parts: seq<string>, done: seq<string>, start: nat, depth: int) {
    && start <= i <= |raw|
    && depth == Depth(raw, i)
    && parts == TrimAll(done)
    && Pieces(raw, i) == done + [raw[start..i]]
  }

  /** One character of the scan: a comma at depth zero cuts the open piece, any other character steps the depth. */
  lemma ScanStep(raw: string, i: nat, parts: seq<string>, done: seq<string>, start: nat, depth: int,
                 parts': seq<string>, done': seq<string>, start': nat, depth': int)
    requires i < |raw| && Scanned(raw, i, parts, done, start, depth)
    requires depth' == Step(depth, raw[i])
    requires raw[i] == ',' && depth == 0 ==>
               parts' == parts + [TrimSpace(raw[start..i])] && done' == done + [raw[start..i]] && start' == i + 1
    requires !(raw[i] == ',' && depth == 0) ==> parts' == parts && done' == done && start' == start
    ensures Scanned(raw, i + 1, parts', done', start', depth')
  {
    PiecesStep(raw, i, done, start, depth);
  }

  /** The end of the scan: the open piece, trimmed, is the last part. */
  lemma ScanDone(raw: string, parts: seq<string>, done: seq<string>, start: nat, depth: int)
    requires Scanned(raw, |raw|, parts, done, start, depth)
    ensures parts + [TrimSpace(raw[start..])] == TrimAll(Pieces(raw, |raw|))
  {
    assert raw[start..] == raw[start..|raw|];
    TrimAllSnoc(done, raw[start..]);
  }

  /**
   * splitTopLevelCSV: scans the text once, tracking the brace depth, and
   * cuts a trimmed piece at every comma met at depth zero; a blank text
   * gives no pieces.
   */
  method SplitTopLevelCSV(raw: string) returns (parts: seq<string>)
    ensures parts == SplitTopLevel(raw)
  {
    if TrimSpace(raw) == "" {
      return [];
    }
    parts := [];
    ghost var done: seq<string> := [];
    var depth := 0;
    var start := 0;
    for i := 0 to |raw|
      invariant Scanned(raw, i, parts, done, start, depth)
    {
      ghost var (parts0, done0, start0, depth0) := (parts, done, start, depth);
      var ch := raw[i];
      if ch == '{' {
        depth := depth + 1;
      } else if ch == '}' {
        if depth > 0 {
          depth := depth - 1;
        }
      } else if ch == ',' {
        if depth == 0 {
          parts := parts + [TrimSpace(raw[start..i])];
          done := done + [raw[start..i]];
          start := i + 1;
        }
      }
      ScanStep(raw, i, parts0, done0, start0, depth0, parts, done, start, depth);
    }
    ScanDone(raw, parts, done, start, depth);
    parts := parts + [TrimSpace(raw[start..])];
  }

  // ---------------------------------------------------------------------
  // parseJSImportAliases

  /** The name a member binds: its alias after the last non-overlapping " as ", or the member itself without one. */
  function MemberName(m: string): (name: string)
    ensures NoEdgeSpace(name)
  {
    var split := LanguagesCommon.SplitAliasByAs(m);
    if split.1 != "" then split.1 else split.0
  }

  /** The name a member of a braced import list binds, after a leading "type " is dropped; None for a blank one. */
  function MemberAlias(member: string): (r: Option<string>)
    ensures r.Some? ==> Word(r.value)
  {
    var m := TrimSpace(member);
    if m == "" then None
    else
      var name := MemberName(TrimSpace(TrimPrefix(m, "type ")));
      if name != "" then Some(name) else None
  }

  /** Whether every alias is a non-empty text without white space at its ends. */
  predicate AllWords(aliases: seq<string>) {
    forall k :: 0 <= k < |aliases| ==> Word(aliases[k])
  }

  /** A trimmed text that starts with a prefix followed by more than white space keeps a word after the prefix. */
  lemma WordAfterPrefix(p: string, pre: string)
    requires Word(p) && HasPrefix(p, pre) && |pre| > 0 && IsSpace(pre[|pre| - 1])
    ensures Word(TrimSpace(TrimPrefix(p, pre)))
  {
    var rest := p[|pre|..];
    assert |rest| > 0 && rest[|rest| - 1] == p[|p| - 1];
    TrimSpaceEmptyIff(rest);
  }

  /** Whether a trimmed part is a braced list of members. */
  predicate Braced(p: string) {
    HasPrefix(p, "{") && HasSuffix(p, "}")
  }

  /** The names a braced list binds: one for each member that names something, in order. */
  function BracedAliases(p: string): (r: seq<string>)
    ensures AllWords(r)
  {
    var members := SplitTopLevel(Trim(p, "{} "));
    CollectKeeps(members, MemberAlias, Word);
    Collect(members, MemberAlias)
  }

  /** The names a part outside braces binds: `* as X` binds X, any other part itself, a leading "type " dropped. */
  function UnbracedAliases(p: string): (r: seq<string>)
    requires Word(p)
    ensures AllWords(r)
  {
    var q := TrimSpace(TrimPrefix(p, "type "));
    if HasPrefix(q, "* as ") then
      var alias := TrimSpace(TrimPrefix(q, "* as "));
      if alias != "" then [alias] else []
    else
      assert Word(q) by {
        if HasPrefix(p, "type ") {
          WordAfterPrefix(p, "type ");
        } else {
          TrimSpaceNoop(p);
        }
      }
      [q]
  }

  /** The names one top-level part of an import binds. */
  function PartAliases(part: string): (r: seq<string>)
    ensures AllWords(r)
  {
    var p := TrimSpace(part);
    if p == "" then []
    else if Braced(p) then BracedAliases(p)
    else UnbracedAliases(p)
  }

  /** The names the parts bind, in order. */
  function PartsAliases(parts: seq<string>): seq<string> {
    if parts == [] then [] else PartsAliases(parts[..|parts| - 1]) + PartAliases(parts[|parts| - 1])
  }

  /** The text between "import " and " from ", trimmed; None when the statement is not such an import or binds nothing. */
  function ImportClause(raw: string): (r: Option<string>)
    ensures r.Some? ==> r.value != ""
  {
    var t := TrimSpace(raw);
    if !HasPrefix(t, "import ") then None
    else
      var fromIdx := Index(t, " from ");
      if fromIdx == -1 then None
      else
        var clause := TrimSpace(TrimPrefix(t[..fromIdx], "import "));
        if clause == "" then None else Some(clause)
  }

  /** parseJSImportAliases as a value: the names bound by the parts of the import clause, in order. */
  function JSImportAliases(raw: string): (aliases: seq<string>)
    ensures ImportClause(raw).None? ==> aliases == []
  {
    var clause := ImportClause(raw);
    if clause.None? then [] else PartsAliases(SplitTopLevel(clause.value))
  }

  /** Every name an import yields is a non-empty text without white space at its ends. */
  lemma {:induction false} PartsAliasesWords(parts: seq<string>)
    ensures AllWords(PartsAliases(parts))
  {
    if parts != [] {
      PartsAliasesWords(parts[..|parts| - 1]);
    }
  }

  lemma AliasesAreWords(raw: string)
    ensures AllWords(JSImportAliases(raw))
  {
    var clause := ImportClause(raw);
    if clause.Some? {
      PartsAliasesWords(SplitTopLevel(clause.value));
    }
  }

  lemma PartsAliasesSnoc(parts: seq<string>, part: string)
    ensures PartsAliases(parts + [part]) == PartsAliases(parts) + PartAliases(part)
  {
    assert (parts + [part])[..|parts|] == parts;
  }

  /** The names of the first i + 1 parts: those of the first i, then those of part i. */
  lemma PartsAliasesNext(parts: seq<string>, i: int)
    requires 0 <= i < |parts|
    ensures PartsAliases(parts[..i + 1]) == PartsAliases(parts[..i]) + PartAliases(parts[i])
  {
    assert parts[..i + 1] == parts[..i] + [parts[i]];
    PartsAliasesSnoc(parts[..i], parts[i]);
  }

  /** `* as X` binds X. */
  lemma NamespaceImport(x: string)
    requires Word(x) && x[0] != '{'
    ensures PartAliases("* as " + x) == [x]
  {
    var p := "* as " + x;
    assert p[0] == '*' && p[|p| - 1] == x[|x| - 1];
    TrimSpaceNoop(p);
    assert !HasPrefix(p, "{") && !HasPrefix(p, "type ");
    assert p[..5] == "* as " && p[5..] == x;
    TrimSpaceNoop(x);
  }

  /** A name of the import syntax: a word without spaces. */
  predicate Identifier(s: string) {
    Word(s) && ' ' !in s
  }

  /** A text without spaces holds no " as " and does not start with "type ". */
  lemma NoSpaceNoAs(s: string)
    requires ' ' !in s
    ensures !Contains(s, " as ") && !HasPrefix(s, "type ")
  {
    forall j | 0 <= j
      ensures !OccursAt(s, " as ", j)
    {
      if j + 4 <= |s| {
        assert s[j..j + 4][0] == s[j];
      }
    }
    if |s| >= 5 {
      assert s[..5][4] == s[4];
    }
  }

  /** A braced member written without an alias binds its own name. */
  lemma MemberOwnName(b: string)
    requires Identifier(b)
    ensures MemberAlias(b) == Some(b)
  {
    NoSpaceNoAs(b);
    TrimSpaceNoop(b);
    LanguagesCommon.SplitAliasByAsNone(b);
  }

  /** A braced member `type X` binds X: the leading "type " is dropped. */
  lemma TypeMember(b: string)
    requires Identifier(b)
    ensures MemberAlias("type " + b) == Some(b)
  {
    var m := "type " + b;
    assert m[0] == 't' && m[|m| - 1] == b[|b| - 1];
    TrimSpaceNoop(m);
    assert m[..5] == "type " && m[5..] == b;
    assert TrimPrefix(m, "type ") == b;
    NoSpaceNoAs(b);
    TrimSpaceNoop(b);
    LanguagesCommon.SplitAliasByAsNone(b);
    assert MemberName(TrimSpace(TrimPrefix(m, "type "))) == b;
    MemberAliasOf(m, m, b);
  }

  /** Between two identifiers, " as " occurs only where it was put. */
  lemma AsPositionUnique(b: string, a: string, p: int)
    requires ' ' !in b && ' ' !in a
    requires OccursAt(b + " as " + a, " as ", p)
    ensures p == |b|
  {
    var m := b + " as " + a;
    forall i | 0 <= i < |m| && i != |b| && i != |b| + 3
      ensures m[i] != ' '
    {
      if i < |b| {
        assert m[i] == b[i];
      } else if i >= |b| + 4 {
        assert m[i] == a[i - |b| - 4];
      } else {
        assert m[i] == " as "[i - |b|];
      }
    }
    assert m[p] == m[p..p + 4][0] && m[p + 3] == m[p..p + 4][3];
  }

  /** Between two identifiers, the " as " is the last one, so the alias is the second identifier. */
  lemma AliasAfterAs(b: string, a: string)
    requires Identifier(b) && Identifier(a)
    ensures LanguagesCommon.SplitAliasByAs(b + " as " + a).1 == a
  {
    var m := b + " as " + a;
    assert OccursAt(m, " as ", |b|);
    var pre, post := LanguagesCommon.SplitAliasByAsLast(m);
    assert OccursAt(m, " as ", |pre|) by {
      assert m[|pre|..|pre| + 4] == " as ";
    }
    AsPositionUnique(b, a, |pre|);
    assert post == m[|b| + 4..] == a;
    TrimSpaceNoop(a);
  }

  /** A member `b as a` does not start with "type " unless b is "type". */
  lemma NotTypePrefix(b: string, a: string)
    requires ' ' !in b && b != "type"
    ensures !HasPrefix(b + " as " + a, "type ")
  {
    var m := b + " as " + a;
    if |m| >= 5 {
      if |b| == 4 {
        assert m[..4] == b;
        assert m[..5][..4] == m[..4];
      } else if |b| < 4 {
        assert m[..5][|b| + 1] == m[|b| + 1] == 'a';
      } else {
        assert m[..5][4] == m[4] == b[4];
      }
    }
  }

  /** A braced member `b as a` binds its alias a. */
  lemma MemberAsAlias(b: string, a: string)
    requires Identifier(b) && Identifier(a) && b != "type"
    ensures MemberAlias(b + " as " + a) == Some(a)
  {
    var m := b + " as " + a;
    assert m[0] == b[0] && m[|m| - 1] == a[|a| - 1];
    TrimSpaceNoop(m);
    NotTypePrefix(b, a);
    assert TrimSpace(TrimPrefix(TrimSpace(m), "type ")) == m;
    AliasAfterAs(b, a);
    assert MemberName(m) == a;
  }

  /** A part that is a plain name binds that name. */
  lemma PlainPart(x: string)
    requires Identifier(x) && x[0] != '{'
    ensures PartAliases(x) == [x]
  {
    TrimSpaceNoop(x);
    NoSpaceNoAs(x);
    assert !HasPrefix(x, "{") by {
      assert x[..1][0] == x[0];
    }
    assert TrimPrefix(x, "type ") == x;
    assert !HasPrefix(x, "* as ") by {
      if |x| >= 5 {
        assert x[..5][1] == x[1];
      }
    }
  }


  /** MemberAlias step by step: a non-blank member binds the name found after "type " is dropped, if any. */
  lemma MemberAliasOf(member: string, trimmed: string, name: string)
    requires trimmed == TrimSpace(member) && trimmed != ""
    requires name == MemberName(TrimSpace(TrimPrefix(trimmed, "type ")))
    ensures MemberAlias(member) == if name != "" then Some(name) else None
  {
  }

  /** The inner loop of parseJSImportAliases: appends the name each member of a braced list binds. */
  method AppendMemberAliases(aliases: seq<string>, members: seq<string>) returns (out: seq<string>)
    ensures out == aliases + Collect(members, MemberAlias)
  {
    out := aliases;
    assert members[..0] == [];
    for j := 0 to |members|
      invariant out == aliases + Collect(members[..j], MemberAlias)
    {
      ghost var prev := out;
      var member := TrimSpace(members[j]);
      if member != "" {
        ghost var trimmed := member;
        member := TrimSpace(TrimPrefix(member, "type "));
        var split := LanguagesCommon.SplitAliasByAs(member);
        if split.1 != "" {
          member := split.1;
        } else {
          member := split.0;
        }
        MemberAliasOf(members[j], trimmed, member);
        if member != "" {
          out := out + [member];
        }
      }
      CollectNext(aliases, members, j, MemberAlias, prev, out);
    }
    assert members[..|members|] == members;
  }

  /**
   * parseJSImportAliases: the names an import statement binds, in source
   * order: for a braced part each member's alias or name, for `* as X` the
   * name X, for any other part the part itself; nothing for a text that is
   * not an import with a " from " clause.
   */
  method ParseJSImportAliases(raw: string) returns (aliases: seq<string>)
    ensures aliases == JSImportAliases(raw)
  {
    var t := TrimSpace(raw);
    if !HasPrefix(t, "import ") {
      return [];
    }
    var fromIdx := Index(t, " from ");
    if fromIdx == -1 {
      return [];
    }
    var clause := TrimSpace(TrimPrefix(t[..fromIdx], "import "));
    if clause == "" {
      return [];
    }
    assert ImportClause(raw) == Some(clause);
    aliases := [];
    var parts := SplitTopLevelCSV(clause);
    for i := 0 to |parts|
      invariant aliases == PartsAliases(parts[..i])
    {
      PartsAliasesNext(parts, i);
      ghost var prev := aliases;
      var part := TrimSpace(parts[i]);
      if part == "" {
        assert PartAliases(parts[i]) == [];
        continue;
      }
      if HasPrefix(part, "{") && HasSuffix(part, "}") {
        var members := SplitTopLevelCSV(Trim(part, "{} "));
        aliases := AppendMemberAliases(aliases, members);
        assert PartAliases(parts[i]) == BracedAliases(part);
        continue;
      }
      assert PartAliases(parts[i]) == UnbracedAliases(part);
      part := TrimSpace(TrimPrefix(part, "type "));
      if HasPrefix(part, "* as ") {
        var alias := TrimSpace(TrimPrefix(part, "* as "));
        if alias != "" {
          aliases := aliases + [alias];
        }
        assert aliases == prev + PartAliases(parts[i]);
        continue;
      }
      aliases := aliases + [part];
      assert aliases == prev + PartAliases(parts[i]);
    }
    assert parts[..|parts|] == parts;
  }
}
