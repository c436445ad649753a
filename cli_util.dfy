/**
 * The line filter of LoadIgnoreRules in internal/cli/util.go. The
 * .skellyignore file is given as its lines, or None when it does not exist;
 * opening and scanning the file are left out.
 */
module CliUtil {
  import opened Wrappers
  import opened Seqs
  import opened Strs

  /** A trimmed line survives when it is neither blank nor a comment. */
  predicate IsRule(line: string) {
    line != "" && !HasPrefix(line, "#")
  }

  /** The surviving rules of the lines, trimmed, in file order. */
  function Rules(lines: seq<string>): seq<string> {
    MapFilter(lines, TrimSpace, IsRule)
  }

  /** LoadIgnoreRules: no rules when the file is missing, else the filter of its lines. */
  method LoadIgnoreRules(file: Option<seq<string>>) returns (rules: seq<string>)
    ensures file.None? ==> rules == []
    ensures file.Some? ==> rules == Rules(file.value)
  {
    if file.None? {
      return [];
    }
    var lines := file.value;
    rules := [];
    var i := 0;
    while i < |lines|
      invariant 0 <= i <= |lines|
      invariant rules == Rules(lines[..i])
    {
      MapFilterSnoc(lines[..i], lines[i], TrimSpace, IsRule);
      assert lines[..i + 1] == lines[..i] + [lines[i]];
      var line := TrimSpace(lines[i]);
      if line != "" && !HasPrefix(line, "#") {
        rules := rules + [line];
      }
      i := i + 1;
    }
    assert lines[..i] == lines;
  }

  /**
   * Every rule is a trimmed, non-blank line that does not start with '#',
   * and every such trimmed line of the file is a rule.
   */
  lemma RulesSpec(lines: seq<string>)
    ensures forall r :: r in Rules(lines) ==> r != "" && !HasPrefix(r, "#") && NoEdgeSpace(r)
    ensures forall r :: r in Rules(lines) ==> exists k :: 0 <= k < |lines| && TrimSpace(lines[k]) == r
    ensures forall k :: 0 <= k < |lines| && IsRule(TrimSpace(lines[k])) ==> TrimSpace(lines[k]) in Rules(lines)
  {
    MapFilterMembers(lines, TrimSpace, IsRule);
  }

  /** Filtering the rules again changes nothing. */
  lemma RulesIdempotent(lines: seq<string>)
    ensures Rules(Rules(lines)) == Rules(lines)
  {
    var r := Rules(lines);
    RulesSpec(lines);
    forall k | 0 <= k < |r|
      ensures IsRule(r[k]) && TrimSpace(r[k]) == r[k]
    {
      assert r[k] in r;
      TrimSpaceNoop(r[k]);
    }
    MapFilterFixed(r, TrimSpace, IsRule);
  }
}
