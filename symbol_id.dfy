/**
 * Stable symbol identifiers (internal/parser/symbol_id.go):
 * `file|line|kind|name`, followed by `|` and eight hex digits of the
 * signature's SHA-1 digest when the symbol has a signature.
 */
module SymbolIds {
  import opened Strs
  import GoStrconv
  import opened ParserTypes

  predicate IsHexDigit(c: char) {
    '0' <= c <= '9' || 'a' <= c <= 'f'
  }

  /** Eight lower-case hex digits. */
  type Hex8 = h: string | |h| == 8 && forall k :: 0 <= k < |h| ==> IsHexDigit(h[k])
    witness "00000000"

  /**
   * The first four bytes of the SHA-1 digest of a signature, hex-encoded.
   * The digest is not modelled: it is passed in as a function.
   */
  type SigHash = string -> Hex8

  /** The `|`-separated fields of a symbol's ID. */
  function IDFields(file: string, sym: Symbol, sigHash: SigHash): seq<string> {
    [file, GoStrconv.Itoa(sym.Line), KindString(sym.Kind), sym.Name]
    + (if sym.Signature == "" then [] else [sigHash(sym.Signature)])
  }

  /** StableSymbolID */
  function StableSymbolID(file: string, sym: Symbol, sigHash: SigHash): (id: string)
    ensures id == Join(IDFields(file, sym, sigHash), "|")
  {
    var line := GoStrconv.Itoa(sym.Line);
    var kind := KindString(sym.Kind);
    var base := file + "|" + (line + "|" + (kind + "|" + sym.Name));
    if sym.Signature == "" then
      JoinOfFields(file, line, kind, sym.Name);
      assert IDFields(file, sym, sigHash) == [file, line, kind, sym.Name];
      base
    else
      var h := sigHash(sym.Signature);
      JoinOfFieldsHash(file, line, kind, sym.Name, h);
      file + "|" + (line + "|" + (kind + "|" + (sym.Name + "|" + h)))
  }

  lemma JoinOfFields(a: string, b: string, c: string, d: string)
    ensures Join([a, b, c, d], "|") == a + "|" + (b + "|" + (c + "|" + d))
  {
    assert [a, b, c, d] == [a] + [b, c, d];
    assert [b, c, d] == [b] + [c, d];
    JoinCons(a, [b, c, d], "|");
    JoinCons(b, [c, d], "|");
  }

  lemma JoinOfFieldsHash(a: string, b: string, c: string, d: string, h: string)
    ensures Join([a, b, c, d] + [h], "|") == a + "|" + (b + "|" + (c + "|" + (d + "|" + h)))
  {
    assert [a, b, c, d] + [h] == [a] + [b, c, d, h];
    assert [b, c, d, h] == [b] + [c, d, h];
    assert [c, d, h] == [c] + [d, h];
    JoinCons(a, [b, c, d, h], "|");
    JoinCons(b, [c, d, h], "|");
    JoinCons(c, [d, h], "|");
  }

  /** The ID of a symbol whose file and name hold no `|` splits back into its fields. */
  lemma StableSymbolIDFields(file: string, sym: Symbol, sigHash: SigHash)
    requires '|' !in file && '|' !in sym.Name
    ensures Split(StableSymbolID(file, sym, sigHash), "|") == IDFields(file, sym, sigHash)
  {
    var fields := IDFields(file, sym, sigHash);
    var line := GoStrconv.Itoa(sym.Line);
    assert forall k :: 0 <= k < |line| ==> line[k] != '|';
    if sym.Signature != "" {
      var h := sigHash(sym.Signature);
      assert forall k :: 0 <= k < |h| ==> h[k] != '|';
    }
    SplitJoin(fields, '|');
  }

  /**
   * For `|`-free files and names the ID determines the file, line, kind name,
   * symbol name and whether there is a signature.
   */
  lemma StableSymbolIDInjective(f1: string, s1: Symbol, f2: string, s2: Symbol, sigHash: SigHash)
    requires '|' !in f1 && '|' !in s1.Name && '|' !in f2 && '|' !in s2.Name
    requires StableSymbolID(f1, s1, sigHash) == StableSymbolID(f2, s2, sigHash)
    ensures f1 == f2 && s1.Line == s2.Line && KindString(s1.Kind) == KindString(s2.Kind) && s1.Name == s2.Name
    ensures (s1.Signature == "") == (s2.Signature == "")
  {
    StableSymbolIDFields(f1, s1, sigHash);
    StableSymbolIDFields(f2, s2, sigHash);
    var a := IDFields(f1, s1, sigHash);
    var b := IDFields(f2, s2, sigHash);
    assert a == b;
    assert |a| == |b| && a[0] == b[0] && a[1] == b[1] && a[2] == b[2] && a[3] == b[3];
    assert |a| == (if s1.Signature == "" then 4 else 5);
    assert |b| == (if s2.Signature == "" then 4 else 5);
    GoStrconv.ItoaInjective(s1.Line, s2.Line);
  }
}
