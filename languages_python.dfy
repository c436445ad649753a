/**
 * The helpers of the Python front end (pkg/languages/python.go) that work
 * on text: aliased imports, the alias target of a from-import, docstring
 * extraction, the function/method kind rule and the function signature.
 * The syntax tree is not modelled: the text of each node the source reads
 * is a parameter, None when the node is missing.
 */
module LanguagesPython {
  import opened Wrappers
  import opened Strs
  import opened ParserTypes
  import LanguagesCommon

  // ---------------------------------------------------------------------
  // parsePythonAliasedImport

  /** parsePythonAliasedImport: the module and its alias, "m as a" or the default alias of m. */
  function ParseAliasedImport(raw: string): (r: (string, string))
    ensures TrimSpace(raw) == "" ==> r == ("", "")
  {
    var s := TrimSpace(raw);
    if s == "" then ("", "")
    else
      var split := LanguagesCommon.SplitAliasByAs(s);
      if split.1 == "" then (split.0, LanguagesCommon.DefaultImportAlias(split.0)) else split
  }

  /** With " as ", the module is the trimmed text before the last non-overlapping " as " and the alias the text after it, when there is any. */
  lemma AliasedImportAs(raw: string) returns (pre: string, post: string)
    requires Contains(TrimSpace(raw), " as ")
    ensures TrimSpace(raw) == pre + " as " + post && !Contains(post, " as ")
    ensures TrimSpace(post) != "" ==> ParseAliasedImport(raw) == (TrimSpace(pre), TrimSpace(post))
    ensures TrimSpace(post) == "" ==>
              ParseAliasedImport(raw) == (TrimSpace(pre), LanguagesCommon.DefaultImportAlias(TrimSpace(pre)))
  {
    var s := TrimSpace(raw);
    TrimSpaceIdempotent(raw);
    pre, post := LanguagesCommon.SplitAliasByAsLast(s);
    assert s != "" by {
      assert |s| >= 4;
    }
  }

  /** Without " as ", the whole trimmed text is the module and its alias is the module's default alias. */
  lemma PlainImport(raw: string)
    requires TrimSpace(raw) != "" && !Contains(TrimSpace(raw), " as ")
    ensures ParseAliasedImport(raw) == (TrimSpace(raw), LanguagesCommon.DefaultImportAlias(TrimSpace(raw)))
  {
    TrimSpaceIdempotent(raw);
    LanguagesCommon.SplitAliasByAsNone(TrimSpace(raw));
  }

  // ---------------------------------------------------------------------
  // fromImportAliasTarget

  /** fromImportAliasTarget: "module#symbol", or the module alone when there is no symbol, or "" without a module. */
  function FromImportAliasTarget(moduleName: string, symbolName: string): (r: string)
    ensures TrimSpace(moduleName) == "" <==> r == ""
  {
    var m := TrimSpace(moduleName);
    var s := TrimSpace(symbolName);
    if m == "" then ""
    else if s == "" then m
    else m + "#" + s
  }

  /**
   * The target takes apart again at its first '#' when the module holds
   * none: the module before it, the symbol after it, and no '#' at all
   * when there is no symbol.
   */
  lemma FromImportTargetSplits(moduleName: string, symbolName: string)
    requires TrimSpace(moduleName) != "" && '#' !in TrimSpace(moduleName)
    ensures var t := FromImportAliasTarget(moduleName, symbolName);
      var m := TrimSpace(moduleName);
      var s := TrimSpace(symbolName);
      && (s == "" ==> t == m && Index(t, "#") == -1)
      && (s != "" ==> Index(t, "#") == |m| && t[..|m|] == m && t[|m| + 1..] == s)
  {
    var m := TrimSpace(moduleName);
    var s := TrimSpace(symbolName);
    if s == "" {
      IndexFree(m, '#');
    } else {
      IndexAfterFree(m, '#', s);
      var t := m + "#" + s;
      assert t[..|m|] == m && t[|m| + 1..] == s;
    }
  }

  // ---------------------------------------------------------------------
  // extractDocstring

  const TripleDouble := "\"\"\""
  const TripleSingle := "'''"

  /** Whether t opens and closes with the same triple quote. */
  predicate TripleQuoted(t: string, q: string) {
    HasPrefix(t, q) && HasSuffix(t, q)
  }

  /**
   * The source slices the text between the quotes as s[3:len(s)-3]; a text
   * that opens and closes with a triple quote must therefore be at least
   * six characters long.
   */
  predicate QuotesFit(t: string) {
    && (TripleQuoted(t, TripleDouble) ==> |t| >= 6)
    && (TripleQuoted(t, TripleSingle) ==> |t| >= 6)
  }

  /** The text up to its first line feed. */
  function FirstLine(s: string): (r: string)
    ensures HasPrefix(s, r) && '\n' !in r
    ensures |r| < |s| ==> s[|r|] == '\n'
  {
    var idx := Index(s, "\n");
    if idx == -1 then
      assert forall j :: 0 <= j < |s| ==> !OccursAt(s, "\n", j);
      assert forall j :: 0 <= j < |s| ==> s[j] != '\n' by {
        forall j | 0 <= j < |s| ensures s[j] != '\n' {
          OccursAtCharIff(s, '\n', j);
        }
      }
      s
    else
      OccursAtChar(s, '\n', idx);
      assert forall j :: 0 <= j < idx ==> s[j] != '\n' by {
        forall j | 0 <= j < idx ensures s[j] != '\n' {
          OccursAtCharIff(s, '\n', j);
        }
      }
      s[..idx]
  }

  /** The text between one pair of matching triple quotes, or the text itself when it is not quoted. */
  function Unquote(t: string): string
    requires QuotesFit(t)
  {
    if TripleQuoted(t, TripleDouble) then t[3..|t| - 3]
    else if TripleQuoted(t, TripleSingle) then t[3..|t| - 3]
    else t
  }

  /** extractDocstring: one pair of matching triple quotes removed, then the first line, trimmed. */
  function ExtractDocstring(s: string): (r: string)
    requires QuotesFit(TrimSpace(s))
  {
    TrimSpace(FirstLine(Unquote(TrimSpace(s))))
  }

  /** A docstring is one line without white space at its ends. */
  lemma DocstringOneLine(s: string)
    requires QuotesFit(TrimSpace(s))
    ensures var r := ExtractDocstring(s); '\n' !in r && NoEdgeSpace(r)
  {
    TrimSpaceSubstring(FirstLine(Unquote(TrimSpace(s))));
  }

  /** The first line of a text is everything before its first line feed. */
  lemma FirstLineOf(line: string, rest: string)
    requires '\n' !in line && (rest == [] || rest[0] == '\n')
    ensures FirstLine(line + rest) == line
  {
    var body := line + rest;
    assert forall k :: 0 <= k < |line| ==> body[k] == line[k];
    assert |line| < |body| ==> body[|line|] == '\n';
  }

  /** A text between a pair of triple quotes is already trimmed, and unquoting gives back what is between them. */
  lemma UnquoteQuoted(q: string, b: string)
    requires q == TripleDouble || q == TripleSingle
    ensures TrimSpace(q + b + q) == q + b + q
    ensures QuotesFit(q + b + q) && Unquote(q + b + q) == b
  {
    var t := q + b + q;
    assert t[..3] == q && t[|t| - 3..] == q;
    assert t[0] == q[0] && t[|t| - 1] == q[2];
    TrimSpaceNoop(t);
    assert t[3..|t| - 3] == b;
  }

  /**
   * A docstring written between a pair of triple quotes gives its first
   * line, trimmed; what follows the first line feed is dropped.
   */
  lemma QuotedDocstring(q: string, line: string, rest: string)
    requires q == TripleDouble || q == TripleSingle
    requires '\n' !in line && (rest == [] || rest[0] == '\n')
    ensures QuotesFit(q + line + rest + q)
    ensures ExtractDocstring(q + line + rest + q) == TrimSpace(line)
  {
    UnquoteQuoted(q, line + rest);
    assert q + line + rest + q == q + (line + rest) + q;
    FirstLineOf(line, rest);
  }

  // ---------------------------------------------------------------------
  // Function symbols

  /** The kind of a function definition: a method inside a class, a function elsewhere. */
  function FunctionKind(className: string): (k: SymbolKind)
    ensures k == Method <==> className != ""
    ensures k == Function <==> className == ""
  {
    if className != "" then Method else Function
  }

  /** buildFunctionSignature: "def", then " name", the parameter text and " -> return type", each when its node exists. */
  function FunctionSignature(name: Option<string>, params: Option<string>, returnType: Option<string>): (sig: string)
    ensures HasPrefix(sig, "def")
  {
    var withName := "def" + (if name.Some? then " " + name.value else "");
    var withParams := withName + (if params.Some? then params.value else "");
    withParams + (if returnType.Some? then " -> " + returnType.value else "")
  }

  /**
   * The signature names the function right after "def ", and ends with
   * " -> T" exactly for a return type T; without one it ends with the
   * parameter text.
   */
  lemma FunctionSignatureShape(name: string, params: Option<string>, returnType: Option<string>)
    ensures var sig := FunctionSignature(Some(name), params, returnType);
      && HasPrefix(sig, "def " + name)
      && (returnType.Some? ==> HasSuffix(sig, " -> " + returnType.value))
      && (returnType.None? && params.Some? ==> HasSuffix(sig, params.value))
      && (returnType.None? && params.None? ==> sig == "def " + name)
  {
    var sig := FunctionSignature(Some(name), params, returnType);
    var head := "def " + name;
    var mid := head + (if params.Some? then params.value else "");
    assert sig == mid + (if returnType.Some? then " -> " + returnType.value else "");
    assert sig[..|head|] == head;
    if returnType.Some? {
      assert sig[|sig| - |" -> " + returnType.value|..] == " -> " + returnType.value;
    } else if params.Some? {
      assert sig[|sig| - |params.value|..] == params.value;
    }
  }
}
