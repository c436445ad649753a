/**
 * The text rules of the Ruby front end (internal/languages/ruby.go): how a
 * string literal is unquoted, how the module path and the class name of the
 * walk's context are composed with "::", which definitions are methods, and
 * how singleton methods are named and signed. The syntax tree is not
 * modelled: the text of each node the source reads is a parameter, None
 * when the node is missing.
 */
module LanguagesRuby {
  import opened Wrappers
  import opened Strs
  import opened ParserTypes

  // ---------------------------------------------------------------------
  // extractRubyString

  /** Whether t opens and closes with the quote character q. */
  predicate QuotedBy(t: string, q: char) {
    |t| > 0 && t[0] == q && t[|t| - 1] == q
  }

  /**
   * A text that is a single quote character both opens and closes with it,
   * and the source would slice it as s[1:0]; such a text is excluded.
   */
  predicate NotLoneQuote(t: string) {
    t != "\"" && t != "'"
  }

  /** extractRubyString: the trimmed text without one pair of matching `"` or `'` quotes. */
  function ExtractRubyString(s: string): (r: string)
    requires NotLoneQuote(TrimSpace(s))
    ensures |r| <= |TrimSpace(s)|
  {
    var t := TrimSpace(s);
    if QuotedBy(t, '"') || QuotedBy(t, '\'') then t[1..|t| - 1] else t
  }

  /** A quoted literal gives back exactly what is between its quotes. */
  lemma QuotedRubyString(q: char, body: string)
    requires q == '"' || q == '\''
    ensures NotLoneQuote(TrimSpace([q] + body + [q]))
    ensures ExtractRubyString([q] + body + [q]) == body
  {
    var t := [q] + body + [q];
    assert t[0] == q && t[|t| - 1] == q;
    TrimSpaceNoop(t);
    assert t[1..|t| - 1] == body;
  }

  /** A trimmed text that does not open and close with the same quote comes back unchanged. */
  lemma UnquotedRubyString(t: string)
    requires NoEdgeSpace(t) && !QuotedBy(t, '"') && !QuotedBy(t, '\'')
    ensures NotLoneQuote(TrimSpace(t)) && ExtractRubyString(t) == t
  {
    TrimSpaceNoop(t);
  }

  // ---------------------------------------------------------------------
  // The context of the symbol walk

  /** The enclosing module path and class name while the walk descends. */
  datatype Context = Context(ModulePath: string, ClassName: string)

  /** The top of a file: no module, no class. */
  const TopLevel := Context("", "")

  /** A name inside the module path: "path::name", or the name alone at the top. */
  function Nested(modulePath: string, name: string): (r: string)
    ensures modulePath == "" ==> r == name
    ensures modulePath != "" ==> HasPrefix(r, modulePath + "::") && HasSuffix(r, name)
  {
    if modulePath == "" then name
    else
      var r := modulePath + "::" + name;
      assert r[..|modulePath| + 2] == modulePath + "::";
      assert r[|r| - |name|..] == name;
      r
  }

  /** The context of a class body: the module path stays, the class is named inside it. */
  function EnterClass(ctx: Context, name: string): Context {
    Context(ctx.ModulePath, Nested(ctx.ModulePath, name))
  }

  /** The context of a module body: the module joins the path and there is no class. */
  function EnterModule(ctx: Context, name: string): Context {
    Context(Nested(ctx.ModulePath, name), "")
  }

  /** The context after entering the given modules, outermost first. */
  function EnterModules(ctx: Context, names: seq<string>): Context
    decreases |names|
  {
    if names == [] then ctx else EnterModules(EnterModule(ctx, names[0]), names[1..])
  }

  /**
   * A class body's context: the module path is kept and the class is named
   * by its module path; the class name of the enclosing class (if any) plays
   * no part, so a class nested in a class is known by its own name only.
   */
  lemma ClassContext(ctx: Context, name: string)
    ensures EnterClass(ctx, name).ModulePath == ctx.ModulePath
    ensures EnterClass(ctx, name).ClassName == (if ctx.ModulePath == "" then name else ctx.ModulePath + "::" + name)
    ensures forall c :: EnterClass(Context(ctx.ModulePath, c), name) == EnterClass(ctx, name)
  {
  }

  /**
   * Entering the non-empty modules m1, ..., mk from a context gives the
   * module path "p::m1::...::mk" ("m1::...::mk" at the top) and no class.
   */
  lemma {:induction false} ModulePathJoins(ctx: Context, names: seq<string>)
    requires |names| > 0 && forall i :: 0 <= i < |names| ==> names[i] != ""
    ensures EnterModules(ctx, names).ClassName == ""
    ensures EnterModules(ctx, names).ModulePath ==
            (if ctx.ModulePath == "" then Join(names, "::") else ctx.ModulePath + "::" + Join(names, "::"))
    decreases |names|
  {
    var next := EnterModule(ctx, names[0]);
    var rest := names[1..];
    if rest == [] {
      assert EnterModules(next, rest) == next;
    } else {
      ModulePathJoins(next, rest);
      assert next.ModulePath != "";
      assert names == [names[0]] + rest;
      JoinCons(names[0], rest, "::");
    }
  }

  /** From the top of a file, the module path is the module names joined by "::". */
  lemma TopLevelModulePath(names: seq<string>)
    requires |names| > 0 && forall i :: 0 <= i < |names| ==> names[i] != ""
    ensures EnterModules(TopLevel, names) == Context(Join(names, "::"), "")
  {
    ModulePathJoins(TopLevel, names);
  }

  // ---------------------------------------------------------------------
  // Methods

  /** The kind of a `def`: a method inside a class, a function elsewhere. */
  function MethodKind(className: string): (k: SymbolKind)
    ensures k == Method <==> className != ""
    ensures k == Function <==> className == ""
  {
    if className != "" then Method else Function
  }

  /**
   * A `def` directly in a module body is a function; one in a class body is
   * a method, for any class with a name.
   */
  lemma KindInContext(ctx: Context, name: string)
    ensures MethodKind(EnterModule(ctx, name).ClassName) == Function
    ensures name != "" ==> MethodKind(EnterClass(ctx, name).ClassName) == Method
  {
  }

  /** buildMethodSignature: "def " + name + the parameter text, or "" without a name. */
  function MethodSignature(name: Option<string>, params: Option<string>): (sig: string)
    ensures sig == "" <==> name.None?
    ensures name.Some? ==> HasPrefix(sig, "def " + name.value)
  {
    if name.None? then ""
    else
      var head := "def " + name.value;
      var sig := head + (if params.Some? then params.value else "");
      assert sig[..|head|] == head;
      sig
  }

  /** The name of a singleton method: "self." before the method's name. */
  function SingletonName(name: string): (r: string)
    ensures HasPrefix(r, "self.") && r[5..] == name
  {
    "self." + name
  }

  /** The signature of a singleton method: "def self." + name + the parameter text. */
  function SingletonSignature(name: string, params: Option<string>): (sig: string)
    ensures HasPrefix(sig, "def self." + name)
  {
    var head := "def self." + name;
    var sig := head + (if params.Some? then params.value else "");
    assert sig[..|head|] == head;
    sig
  }

  /** A singleton method is signed as an ordinary method whose name is its "self." name. */
  lemma SingletonSignatureIsMethodSignature(name: string, params: Option<string>)
    ensures SingletonSignature(name, params) == MethodSignature(Some(SingletonName(name)), params)
  {
    assert "def self." + name == "def " + ("self." + name);
  }

  /** The signature of a module symbol. */
  function ModuleSignature(name: string): (sig: string)
    ensures HasPrefix(sig, "module ") && sig[7..] == name
  {
    "module " + name
  }
}
