/**
 * The managed block of internal/llm/managed.go: a text delimited by a start
 * and an end marker that skelly owns inside a file it shares with the user.
 * Upserting the block replaces the first marked span, or appends the block
 * when there is none, so that running it again changes nothing. Reading and
 * writing the file around the upsert is not part of this model.
 */
module LlmManaged {
  import opened Strs
  import opened FileutilWrite

  const ManagedBlockStart: string := "<!-- skelly:managed:start -->"
  const ManagedBlockEnd: string := "<!-- skelly:managed:end -->"

  /** The managed text of a body: the trimmed body between the two markers, each on a line of its own. */
  function ManagedContent(body: string): string {
    ManagedBlockStart + "\n" + TrimSpace(body) + "\n" + ManagedBlockEnd
  }

  /** The first start marker is found, and the first end marker is found at or after it. */
  predicate HasBlock(text: string, startMarker: string, endMarker: string) {
    Index(text, startMarker) >= 0 && Index(text, endMarker) >= Index(text, startMarker)
  }

  /** The span from the first start marker through the first end marker. */
  function BlockOf(text: string, startMarker: string, endMarker: string): string
    requires HasBlock(text, startMarker, endMarker)
  {
    text[Index(text, startMarker)..Index(text, endMarker) + |endMarker|]
  }

  /** The marked span replaced by content, the rest of the text kept, ending in a newline. */
  function ReplaceBlock(text: string, startMarker: string, endMarker: string, content: string): string
    requires HasBlock(text, startMarker, endMarker)
  {
    var s := Index(text, startMarker);
    var e := Index(text, endMarker) + |endMarker|;
    EnsureTrailingNewline(text[..s] + content + text[e..])
  }

  /**
   * UpsertManagedBlock: the content alone for an empty text; the marked span
   * replaced when there is one; otherwise the content appended after the
   * text, newline-terminated, and a blank line.
   */
  function UpsertManagedBlock(existing: string, startMarker: string, endMarker: string, managedContent: string): (r: string)
    ensures HasSuffix(r, "\n")
  {
    if existing == "" then managedContent + "\n"
    else if HasBlock(existing, startMarker, endMarker) then ReplaceBlock(existing, startMarker, endMarker, managedContent)
    else EnsureTrailingNewline(existing) + "\n" + managedContent + "\n"
  }

  // ---------------------------------------------------------------------
  // Where the markers are found

  /**
   * Markers that fit a block: neither is empty or spans a line break, and
   * the content opens with the start marker followed by a line break and
   * holds the end marker only at its very end.
   */
  predicate BlockShape(startMarker: string, endMarker: string, content: string) {
    0 < |startMarker| < |content| && 0 < |endMarker| <= |content| &&
    '\n' !in startMarker && '\n' !in endMarker &&
    content[..|startMarker|] == startMarker && content[|startMarker|] == '\n' &&
    Index(content, endMarker) == |content| - |endMarker|
  }

  /** No occurrence of sub starts before position q. */
  ghost predicate ClearBefore(t: string, sub: string, q: int) {
    forall i :: 0 <= i < q ==> !OccursAt(t, sub, i)
  }

  /**
   * An occurrence of a one-line sub that starts before a line break at p
   * either crosses the break or lies in the part shared with x.
   */
  lemma ClearUpToNewline(x: string, t: string, p: nat, q: nat, sub: string)
    requires 0 < |sub| && '\n' !in sub
    requires p < |t| && t[p] == '\n' && p <= |x| && t[..p] == x[..p] && q <= p + 1
    requires ClearBefore(x, sub, q)
    ensures ClearBefore(t, sub, q)
  {
    forall i | 0 <= i < q
      ensures !OccursAt(t, sub, i)
    {
      if i + |sub| > |t| {
      } else if i + |sub| <= p {
        assert t[i..i + |sub|] == t[..p][i..i + |sub|];
        assert x[i..i + |sub|] == x[..p][i..i + |sub|];
        assert !OccursAt(x, sub, i);
      } else {
        assert t[i..i + |sub|][p - i] == '\n';
      }
    }
  }

  /** A text with no marker has none once a newline is added. */
  lemma EnsureTrailingNewlineClear(x: string, sub: string)
    requires 0 < |sub| && '\n' !in sub && Index(x, sub) == -1
    ensures Index(EnsureTrailingNewline(x), sub) == -1
  {
    var t := EnsureTrailingNewline(x);
    if t != x {
      ClearUpToNewline(x, t, |x|, |x| + 1, sub);
      assert !OccursAt(t, sub, |t|);
    }
  }

  /** An occurrence inside a copy of content at k is an occurrence in content. */
  lemma OccursInside(t: string, k: nat, content: string, sub: string, j: int)
    requires k + |content| <= |t| && t[k..k + |content|] == content
    requires k <= j && j + |sub| <= k + |content|
    ensures OccursAt(t, sub, j) <==> OccursAt(content, sub, j - k)
  {
    var a, b := t[j..j + |sub|], content[j - k..j - k + |sub|];
    forall m | 0 <= m < |sub|
      ensures a[m] == b[m]
    {
      assert t[j + m] == t[k..k + |content|][j - k + m];
    }
    assert a == b;
  }

  /**
   * A copy of a well-shaped content at k, with no marker before it, is the
   * block found there.
   */
  lemma FirstBlockAt(t: string, k: nat, startMarker: string, endMarker: string, content: string)
    requires BlockShape(startMarker, endMarker, content)
    requires k + |content| <= |t| && t[k..k + |content|] == content
    requires ClearBefore(t, startMarker, k) && ClearBefore(t, endMarker, k)
    ensures Index(t, startMarker) == k && Index(t, endMarker) == k + |content| - |endMarker|
    ensures HasBlock(t, startMarker, endMarker) && BlockOf(t, startMarker, endMarker) == content
  {
    var e := k + |content| - |endMarker|;
    OccursInside(t, k, content, startMarker, k);
    OccursInside(t, k, content, endMarker, e);
    forall j | k <= j < e
      ensures !OccursAt(t, endMarker, j)
    {
      OccursInside(t, k, content, endMarker, j);
    }
  }

  /** A text and its replacement agree up to the line break that follows the start marker. */
  lemma SharedPrefix(x: string, t: string, s: nat, startMarker: string, content: string)
    requires OccursAt(x, startMarker, s) && |startMarker| < |content| && content[..|startMarker|] == startMarker
    requires |t| >= s + |content| && t[..s] == x[..s] && t[s..s + |content|] == content
    ensures t[..s + |startMarker|] == x[..s + |startMarker|] && t[s + |startMarker|] == content[|startMarker|]
  {
    var p := s + |startMarker|;
    assert t[s..p] == t[s..s + |content|][..|startMarker|];
    assert t[..p] == t[..s] + t[s..p];
    assert x[..p] == x[..s] + x[s..p];
    assert t[p] == t[s..s + |content|][|startMarker|];
  }

  /** The replaced span is the first block of the result. */
  lemma ReplaceFindsContent(x: string, startMarker: string, endMarker: string, content: string)
    requires BlockShape(startMarker, endMarker, content) && HasBlock(x, startMarker, endMarker)
    ensures var t := ReplaceBlock(x, startMarker, endMarker, content);
      HasBlock(t, startMarker, endMarker) && BlockOf(t, startMarker, endMarker) == content &&
      Index(t, startMarker) == Index(x, startMarker)
  {
    var s := Index(x, startMarker);
    var t := ReplaceBlock(x, startMarker, endMarker, content);
    var p := s + |startMarker|;
    ReplaceKeepsOutside(x, startMarker, endMarker, content);
    SharedPrefix(x, t, s, startMarker, content);
    ClearUpToNewline(x, t, p, s, startMarker);
    ClearUpToNewline(x, t, p, s, endMarker);
    FirstBlockAt(t, s, startMarker, endMarker, content);
  }

  /** Content appended after a marker-free line is the first block of the result. */
  lemma AppendFindsContent(pre: string, content: string, startMarker: string, endMarker: string)
    requires BlockShape(startMarker, endMarker, content)
    requires Index(pre, startMarker) == -1 && Index(pre, endMarker) == -1
    ensures var t := pre + "\n" + content + "\n";
      HasBlock(t, startMarker, endMarker) && BlockOf(t, startMarker, endMarker) == content &&
      Index(t, startMarker) == |pre| + 1
  {
    var t := pre + "\n" + content + "\n";
    assert t[..|pre|] == pre;
    ClearUpToNewline(pre, t, |pre|, |pre| + 1, startMarker);
    ClearUpToNewline(pre, t, |pre|, |pre| + 1, endMarker);
    assert t[|pre| + 1..|pre| + 1 + |content|] == content;
    FirstBlockAt(t, |pre| + 1, startMarker, endMarker, content);
  }

  /** A text whose first block is the content, ending in a newline, is its own replacement. */
  lemma ReplaceOwnBlock(t: string, startMarker: string, endMarker: string, content: string)
    requires HasBlock(t, startMarker, endMarker) && BlockOf(t, startMarker, endMarker) == content
    requires HasSuffix(t, "\n")
    ensures ReplaceBlock(t, startMarker, endMarker, content) == t
  {
    var s := Index(t, startMarker);
    var e := Index(t, endMarker) + |endMarker|;
    assert t[..s] + t[s..e] + t[e..] == t;
  }

  // ---------------------------------------------------------------------
  // What an upsert promises

  /** Texts the upsert leaves in a repeatable state: empty, with a block, or with no marker at all. */
  predicate Upsertable(existing: string, startMarker: string, endMarker: string) {
    existing == "" || HasBlock(existing, startMarker, endMarker) ||
    (Index(existing, startMarker) == -1 && Index(existing, endMarker) == -1)
  }

  /**
   * After an upsert the first block of the text is exactly the content, and
   * the text ends in a newline.
   */
  lemma UpsertInstallsContent(existing: string, startMarker: string, endMarker: string, content: string)
    requires BlockShape(startMarker, endMarker, content) && Upsertable(existing, startMarker, endMarker)
    ensures var r := UpsertManagedBlock(existing, startMarker, endMarker, content);
      HasBlock(r, startMarker, endMarker) && BlockOf(r, startMarker, endMarker) == content && HasSuffix(r, "\n")
  {
    if existing == "" {
      var r := content + "\n";
      assert r[0..|content|] == content;
      FirstBlockAt(r, 0, startMarker, endMarker, content);
    } else if HasBlock(existing, startMarker, endMarker) {
      ReplaceFindsContent(existing, startMarker, endMarker, content);
    } else {
      EnsureTrailingNewlineClear(existing, startMarker);
      EnsureTrailingNewlineClear(existing, endMarker);
      AppendFindsContent(EnsureTrailingNewline(existing), content, startMarker, endMarker);
    }
  }

  /** Upserting the same content twice gives what upserting it once gave. */
  lemma UpsertIdempotent(existing: string, startMarker: string, endMarker: string, content: string)
    requires BlockShape(startMarker, endMarker, content) && Upsertable(existing, startMarker, endMarker)
    ensures var r := UpsertManagedBlock(existing, startMarker, endMarker, content);
      UpsertManagedBlock(r, startMarker, endMarker, content) == r
  {
    var r := UpsertManagedBlock(existing, startMarker, endMarker, content);
    UpsertInstallsContent(existing, startMarker, endMarker, content);
    ReplaceOwnBlock(r, startMarker, endMarker, content);
  }

  /** A replacement keeps the text before the first start marker and after the first end marker. */
  lemma ReplaceKeepsOutside(x: string, startMarker: string, endMarker: string, content: string)
    requires HasBlock(x, startMarker, endMarker)
    ensures var t := ReplaceBlock(x, startMarker, endMarker, content);
      var s := Index(x, startMarker);
      var e := Index(x, endMarker) + |endMarker|;
      |t| >= s + |content| && t[..s] == x[..s] && t[s..s + |content|] == content &&
      (t[s + |content|..] == x[e..] || t[s + |content|..] == x[e..] + "\n")
  {
    var s := Index(x, startMarker);
    var e := Index(x, endMarker) + |endMarker|;
    var u := x[..s] + content + x[e..];
    var t := ReplaceBlock(x, startMarker, endMarker, content);
    assert t == u || t == u + "\n";
    assert t[..|u|] == u;
    assert t[..s] == u[..s] == x[..s];
    assert t[s..s + |content|] == u[s..s + |content|] == content;
    assert u[s + |content|..] == x[e..];
  }

  /**
   * What is kept: an empty text becomes the content and a newline; a marked
   * span is replaced with the text before the first start marker and after
   * the first end marker kept around it; a text without a block stays the
   * head of the result, followed by the content after a blank line.
   */
  lemma UpsertKeepsText(existing: string, startMarker: string, endMarker: string, content: string)
    ensures var r := UpsertManagedBlock(existing, startMarker, endMarker, content);
      (existing == "" ==> r == content + "\n") &&
      (existing != "" && HasBlock(existing, startMarker, endMarker) ==>
         var s := Index(existing, startMarker);
         var e := Index(existing, endMarker) + |endMarker|;
         |r| >= s + |content| && r[..s] == existing[..s] && r[s..s + |content|] == content &&
         (r[s + |content|..] == existing[e..] || r[s + |content|..] == existing[e..] + "\n")) &&
      (existing != "" && !HasBlock(existing, startMarker, endMarker) ==>
         (HasSuffix(existing, "\n") && r == existing + "\n" + content + "\n") ||
         (!HasSuffix(existing, "\n") && r == existing + "\n\n" + content + "\n"))
  {
    if existing != "" && HasBlock(existing, startMarker, endMarker) {
      ReplaceKeepsOutside(existing, startMarker, endMarker, content);
    }
  }

  /** The managed text opens with the start marker, closes with the end marker, and holds the trimmed body between. */
  lemma ManagedContentSpec(body: string)
    ensures var c := ManagedContent(body);
      HasPrefix(c, ManagedBlockStart + "\n") && HasSuffix(c, "\n" + ManagedBlockEnd) &&
      c[|ManagedBlockStart| + 1..|c| - |ManagedBlockEnd| - 1] == TrimSpace(body)
  {
    var head, tail := ManagedBlockStart + "\n", "\n" + ManagedBlockEnd;
    Framed(head, TrimSpace(body), tail);
    assert ManagedContent(body) == head + TrimSpace(body) + tail;
  }

  lemma MarkersOneLine()
    ensures '\n' !in ManagedBlockStart && '\n' !in ManagedBlockEnd
  {
  }

  /** The end marker does not occur in the start marker. */
  lemma StartHoldsNoEnd()
    ensures Index(ManagedBlockStart, ManagedBlockEnd) == -1
  {
    var s, e := ManagedBlockStart, ManagedBlockEnd;
    assert s[20] == 's' && e[20] == 'e' && s[1] == '!' && s[2] == '-' && e[0] == '<';
    forall j | 0 <= j <= |s|
      ensures !OccursAt(s, e, j)
    {
      if j + |e| <= |s| {
        assert s[j..j + |e|][0] == s[j];
        assert s[j..j + |e|][20] == s[j + 20];
      }
    }
  }

  /** A one-line sub absent from both sides of a line break is absent from the whole. */
  lemma ClearAcrossNewline(a: string, b: string, sub: string)
    requires 0 < |sub| && '\n' !in sub && Index(a, sub) == -1 && Index(b, sub) == -1
    ensures ClearBefore(a + "\n" + b, sub, |a| + 1 + |b| + 1)
  {
    var t := a + "\n" + b;
    ClearUpToNewline(a, t, |a|, |a| + 1, sub);
    forall j | |a| + 1 <= j <= |t|
      ensures !OccursAt(t, sub, j)
    {
      if j + |sub| <= |t| {
        assert t[|a| + 1..] == b;
        OccursInside(t, |a| + 1, b, sub, j);
      }
    }
  }

  /** A one-line marker put on a line of its own after a text without it is found there first. */
  lemma LastLineMarker(x: string, sub: string)
    requires 0 < |sub| && '\n' !in sub && Index(x, sub) == -1
    ensures Index(x + "\n" + sub, sub) == |x| + 1
  {
    var t := x + "\n" + sub;
    assert t[..|x|] == x;
    ClearUpToNewline(x, t, |x|, |x| + 1, sub);
    assert t[|x| + 1..] == sub;
    assert OccursAt(t, sub, |x| + 1);
  }

  /**
   * The managed text of a body that does not hold the end marker has the
   * shape of a block, so upserting it twice changes nothing the second time.
   */
  lemma ManagedContentShape(body: string)
    requires Index(TrimSpace(body), ManagedBlockEnd) == -1
    ensures BlockShape(ManagedBlockStart, ManagedBlockEnd, ManagedContent(body))
  {
    var c := ManagedContent(body);
    var st := ManagedBlockStart;
    var x := st + "\n" + TrimSpace(body);
    var e := ManagedBlockEnd;
    MarkersOneLine();
    StartHoldsNoEnd();
    ClearAcrossNewline(st, TrimSpace(body), e);
    assert c == x + "\n" + e;
    assert c[..|st|] == st && c[|st|] == '\n';
    LastLineMarker(x, e);
  }
}
