/**
 * The text rules of the Go front end (internal/languages/go.go): how an
 * import spec yields its path and alias, how a type declaration gets its
 * kind and signature, and how function and method signatures are put
 * together. The syntax tree is not modelled: the text of each node the
 * source reads is a parameter, None when the node is missing.
 */
module LanguagesGo {
  import opened Wrappers
  import opened Strs
  import opened ParserTypes
  import LanguagesCommon

  // ---------------------------------------------------------------------
  // readImportSpec

  /** The text between a pair of double quotes, when the text has both (and at least two characters). */
  function StripQuotes(p: string): (r: string)
    ensures |r| <= |p|
  {
    if |p| >= 2 && HasPrefix(p, "\"") && HasSuffix(p, "\"") then p[1..|p| - 1] else p
  }

  /** Whether an alias text asks for the default alias: none at all, or the blank and dot imports. */
  predicate NoAlias(a: string) {
    a == "" || a == "_" || a == "."
  }

  /**
   * readImportSpec: the import path (trimmed, its quotes removed) and its
   * alias (trimmed; `_`, `.` and a missing one replaced by the default alias
   * of the path); ("", "") for a spec without a path.
   */
  function ReadImportSpec(pathText: Option<string>, aliasText: Option<string>): (r: (string, string))
    ensures pathText.None? ==> r == ("", "")
  {
    if pathText.None? then ("", "")
    else
      var path := StripQuotes(TrimSpace(pathText.value));
      var alias := if aliasText.Some? then TrimSpace(aliasText.value) else "";
      (path, if NoAlias(alias) then LanguagesCommon.DefaultImportAlias(path) else alias)
  }

  /** Quotes around a text come off. */
  lemma StripQuotesQuoted(p: string)
    ensures StripQuotes("\"" + p + "\"") == p
  {
    var q := "\"" + p + "\"";
    assert q[..1] == "\"" && q[|q| - 1..] == "\"";
    assert q[1..|q| - 1] == p;
  }

  /** A quoted path comes out without its quotes, whatever white space surrounds it. */
  lemma QuotedImportPath(p: string, aliasText: Option<string>)
    ensures ReadImportSpec(Some("\"" + p + "\""), aliasText).0 == p
  {
    var q := "\"" + p + "\"";
    assert q[0] == '"' && q[|q| - 1] == '"';
    TrimSpaceNoop(q);
    StripQuotesQuoted(p);
    assert ReadImportSpec(Some(q), aliasText).0 == StripQuotes(TrimSpace(q));
  }

  /** A trimmed path that does not both open and close with a double quote is kept as it is. */
  lemma UnquotedImportPath(p: string, aliasText: Option<string>)
    requires NoEdgeSpace(p) && (p == [] || p[0] != '"' || p[|p| - 1] != '"')
    ensures ReadImportSpec(Some(p), aliasText).0 == p
  {
    TrimSpaceNoop(p);
  }

  /**
   * The alias: an explicit one other than `_` and `.` is kept trimmed;
   * otherwise the spec reads as if it had no alias node, and the alias is
   * the path's default alias, which holds no '/'.
   */
  lemma ImportAliasRule(pathText: string, aliasText: Option<string>)
    ensures var r := ReadImportSpec(Some(pathText), aliasText);
      && (aliasText.Some? && !NoAlias(TrimSpace(aliasText.value)) ==> r.1 == TrimSpace(aliasText.value))
      && (aliasText.None? || NoAlias(TrimSpace(aliasText.value)) ==>
            && r == ReadImportSpec(Some(pathText), None)
            && r.1 == LanguagesCommon.DefaultImportAlias(r.0)
            && '/' !in r.1)
  {
  }

  /** An import of a quoted "dir/elem" without an alias is known by its last element. */
  lemma DefaultAliasOfQuotedPath(dir: string, elem: string)
    requires elem != "" && elem != "." && '/' !in elem && NoEdgeSpace(elem)
    requires dir == "" || !IsSpace(dir[0])
    ensures ReadImportSpec(Some("\"" + dir + "/" + elem + "\""), None) == (dir + "/" + elem, elem)
  {
    var p := dir + "/" + elem;
    var q := "\"" + dir + "/" + elem + "\"";
    assert q == "\"" + p + "\"";
    QuotedImportPath(p, None);
    ImportAliasRule(q, None);
    LanguagesCommon.DefaultImportAliasLastElement(dir, elem);
  }

  // ---------------------------------------------------------------------
  // Type declarations

  /** The type node of a type spec: its grammar type and its text. */
  datatype TypeNode = TypeNode(Type: string, Content: string)

  /** The kind of a declared type: an interface for an interface type, a struct for anything else or nothing. */
  function TypeKind(typeNode: Option<TypeNode>): (k: SymbolKind)
    ensures k == Interface <==> typeNode.Some? && typeNode.value.Type == "interface_type"
    ensures k == Interface || k == Struct
  {
    if typeNode.Some? && typeNode.value.Type == "interface_type" then Interface else Struct
  }

  /**
   * buildTypeSignature: "" without a name; otherwise "type N", followed by
   * " struct", " interface" or " " and the type's text, when there is a type.
   */
  function TypeSignature(name: Option<string>, typeNode: Option<TypeNode>): (sig: string)
    ensures sig == "" <==> name.None?
    ensures name.Some? ==> HasPrefix(sig, "type " + name.value)
  {
    if name.None? then ""
    else
      var head := "type " + name.value;
      assert (head + "")[..|head|] == head;
      if typeNode.None? then head
      else
        var tail :=
          if typeNode.value.Type == "struct_type" then " struct"
          else if typeNode.value.Type == "interface_type" then " interface"
          else " " + typeNode.value.Content;
        assert (head + tail)[..|head|] == head;
        head + tail
  }

  /**
   * The signature agrees with the kind: an interface is written
   * "type N interface", a struct type "type N struct", and any other type
   * (which counts as a struct) "type N T" with its text T.
   */
  lemma TypeSignatureMatchesKind(name: string, t: TypeNode)
    ensures var sig := TypeSignature(Some(name), Some(t));
      && (TypeKind(Some(t)) == Interface ==> sig == "type " + name + " interface")
      && (t.Type == "struct_type" ==> TypeKind(Some(t)) == Struct && sig == "type " + name + " struct")
      && (t.Type != "struct_type" && t.Type != "interface_type" ==>
            TypeKind(Some(t)) == Struct && sig == "type " + name + " " + t.Content)
  {
  }

  // ---------------------------------------------------------------------
  // Function and method signatures

  /** buildFunctionSignature: "func", then " name", the parameter text and " result", each when its node exists. */
  function FunctionSignature(name: Option<string>, params: Option<string>, result: Option<string>): (sig: string)
    ensures HasPrefix(sig, "func")
  {
    var withName := "func" + (if name.Some? then " " + name.value else "");
    var withParams := withName + (if params.Some? then params.value else "");
    withParams + (if result.Some? then " " + result.value else "")
  }

  /** The signature of a method: the receiver text (empty without one), a space, and the function signature. */
  function MethodSignature(receiver: Option<string>, name: Option<string>, params: Option<string>, result: Option<string>): (sig: string)
    ensures HasSuffix(sig, FunctionSignature(name, params, result))
  {
    var r := if receiver.Some? then receiver.value else "";
    var f := FunctionSignature(name, params, result);
    assert (r + " " + f)[|r| + 1..] == f;
    r + " " + f
  }

  /**
   * The method's receiver comes first and is followed by " func"; the
   * name comes right after "func ", and a result closes the signature.
   */
  lemma MethodSignatureShape(receiver: string, name: string, params: Option<string>, result: Option<string>)
    ensures var sig := MethodSignature(Some(receiver), Some(name), params, result);
      && HasPrefix(sig, receiver + " func " + name)
      && (result.Some? ==> HasSuffix(sig, " " + result.value))
      && (result.None? && params.None? ==> sig == receiver + " func " + name)
  {
    var sig := MethodSignature(Some(receiver), Some(name), params, result);
    var head := receiver + " func " + name;
    var mid := head + (if params.Some? then params.value else "");
    assert sig == mid + (if result.Some? then " " + result.value else "");
    assert sig[..|head|] == head;
    if result.Some? {
      assert sig[|sig| - |" " + result.value|..] == " " + result.value;
    }
  }

  /** Without a receiver node the method signature still opens with the space the source inserts. */
  lemma MethodWithoutReceiver(name: Option<string>, params: Option<string>, result: Option<string>)
    ensures MethodSignature(None, name, params, result) == " " + FunctionSignature(name, params, result)
  {
  }
}
