/**
 * The symbol data model of internal/parser/types.go: symbol kinds, call
 * sites, symbols and per-file symbol tables, and the decoding of a symbol's
 * call list, which accepts both the current call-site records and the
 * legacy list of plain names.
 */
module ParserTypes {
  import opened Strs

  /** SymbolKind is a Go `int` enumeration; any int is a possible value. */
  type SymbolKind = int

  const Function: SymbolKind := 0
  const Method: SymbolKind := 1
  const Class: SymbolKind := 2
  const Struct: SymbolKind := 3
  const Interface: SymbolKind := 4
  const Module: SymbolKind := 5
  const Constant: SymbolKind := 6
  const Variable: SymbolKind := 7

  /** SymbolKind.String */
  function KindString(k: SymbolKind): (r: string)
    ensures r == "unknown" <==> !(Function <= k <= Variable)
    ensures '|' !in r
  {
    if k == Function then "func"
    else if k == Method then "method"
    else if k == Class then "class"
    else if k == Struct then "struct"
    else if k == Interface then "interface"
    else if k == Module then "module"
    else if k == Constant then "const"
    else if k == Variable then "var"
    else "unknown"
  }

  /** The eight kinds have eight different names. */
  lemma KindStringInjective(a: SymbolKind, b: SymbolKind)
    requires KindString(a) == KindString(b) && KindString(a) != "unknown"
    ensures a == b
  {
  }

  datatype CallSite = CallSite(
    Name: string,
    Qualifier: string,
    Receiver: string,
    Arity: int,
    Line: int,
    Raw: string)

  datatype Symbol = Symbol(
    ID: string,
    Name: string,
    Kind: SymbolKind,
    Signature: string,
    File: string,
    Line: int,
    Doc: string,
    Calls: seq<CallSite>,
    CalledBy: seq<string>)

  datatype FileSymbols = FileSymbols(
    Path: string,
    Language: string,
    Symbols: seq<Symbol>,
    Imports: seq<string>,
    ImportAliases: map<string, string>,
    Hash: string)

  datatype ParseResult = ParseResult(Files: seq<FileSymbols>, RootPath: string)

  // ---------------------------------------------------------------------
  // Decoding a symbol

  /** The outcome of decoding a JSON text into a Go value of type T. */
  datatype Decoded<T> = Decoded(value: T) | DecodeError(msg: string)

  /** A symbol as first decoded, with its "Calls" member still raw JSON text. */
  datatype WireSymbol = WireSymbol(
    ID: string,
    Name: string,
    Kind: SymbolKind,
    Signature: string,
    File: string,
    Line: int,
    Doc: string,
    Calls: string,
    CalledBy: seq<string>)

  /** The call site a legacy call name stands for. */
  function LegacyCallSite(name: string): CallSite {
    CallSite(name, "", "", 0, 0, name)
  }

  /** The call sites of a legacy `[]string` call list: blank names dropped, the rest trimmed, in order. */
  function LegacyCalls(names: seq<string>): (r: seq<CallSite>)
    ensures |r| <= |names|
    ensures forall k :: 0 <= k < |r| ==>
              r[k].Name != "" && r[k].Name == TrimSpace(r[k].Name) && r[k] == LegacyCallSite(r[k].Name)
  {
    if names == [] then []
    else
      var init := LegacyCalls(names[..|names| - 1]);
      var call := TrimSpace(names[|names| - 1]);
      if call == "" then init
      else
        TrimSpaceIdempotent(names[|names| - 1]);
        init + [LegacyCallSite(call)]
  }

  /** Converting a list is converting each part: the conversion works name by name, in order. */
  lemma {:induction false} LegacyCallsAppend(a: seq<string>, b: seq<string>)
    ensures LegacyCalls(a + b) == LegacyCalls(a) + LegacyCalls(b)
    decreases |b|
  {
    if b == [] {
      assert a + b == a;
    } else {
      var b0 := b[..|b| - 1];
      assert (a + b)[..|a + b| - 1] == a + b0;
      LegacyCallsAppend(a, b0);
    }
  }

  lemma LegacyCallsSingle(name: string)
    ensures LegacyCalls([name]) == if TrimSpace(name) == "" then [] else [LegacyCallSite(TrimSpace(name))]
  {
    assert [name][..0] == [];
  }

  /** The legacy conversion loop of Symbol.UnmarshalJSON. */
  method ConvertLegacyCalls(names: seq<string>) returns (calls: seq<CallSite>)
    ensures calls == LegacyCalls(names)
  {
    calls := [];
    var i := 0;
    while i < |names|
      invariant 0 <= i <= |names|
      invariant calls == LegacyCalls(names[..i])
    {
      var call := TrimSpace(names[i]);
      assert names[..i + 1][..i] == names[..i];
      if call != "" {
        calls := calls + [CallSite(call, "", "", 0, 0, call)];
      }
      i := i + 1;
    }
    assert names[..i] == names;
  }

  /**
   * Symbol.UnmarshalJSON. `wire` is the first decoding of the whole object;
   * `typed` and `legacy` are the results of decoding its raw "Calls" text as
   * a call-site array and as a string array. The receiver `s` is updated in
   * place, so on a failed legacy decoding it keeps its old calls but already
   * carries the other decoded fields.
   */
  method UnmarshalSymbol(s: Symbol, wire: Decoded<WireSymbol>,
                         typed: Decoded<seq<CallSite>>, legacy: Decoded<seq<string>>)
    returns (out: Symbol, err: string)
    ensures wire.DecodeError? ==> out == s && err == wire.msg
    ensures wire.Decoded? ==>
              var w := wire.value;
              out.ID == w.ID && out.Name == w.Name && out.Kind == w.Kind && out.Signature == w.Signature
              && out.File == w.File && out.Line == w.Line && out.Doc == w.Doc && out.CalledBy == w.CalledBy
    ensures wire.Decoded? && TrimSpace(wire.value.Calls) in {"", "null"} ==> out.Calls == [] && err == ""
    ensures wire.Decoded? && TrimSpace(wire.value.Calls) !in {"", "null"} ==>
              if typed.Decoded? then out.Calls == typed.value && err == ""
              else if legacy.DecodeError? then out.Calls == s.Calls && err == legacy.msg
              else out.Calls == LegacyCalls(legacy.value) && err == ""
  {
    if wire.DecodeError? {
      return s, wire.msg;
    }
    var w := wire.value;
    out := s.(ID := w.ID, Name := w.Name, Kind := w.Kind, Signature := w.Signature,
              File := w.File, Line := w.Line, Doc := w.Doc, CalledBy := w.CalledBy);
    var rawCalls := TrimSpace(w.Calls);
    if rawCalls == "" || rawCalls == "null" {
      out := out.(Calls := []);
      return out, "";
    }
    if typed.Decoded? {
      out := out.(Calls := typed.value);
      return out, "";
    }
    if legacy.DecodeError? {
      return out, legacy.msg;
    }
    var calls := ConvertLegacyCalls(legacy.value);
    out := out.(Calls := calls);
    err := "";
  }
}
