/**
 * The agent profile file (cmd/skelly/main.go, parseAgentProfilesYAML): a
 * small subset of YAML read line by line.
 *
 *   profiles:
 *     <name>:
 *       command: <shell-like command or [array]>
 *       timeout: <duration>
 *       prompt_template: <text> | "|" followed by lines indented by six spaces
 *
 * The duration parser and the JSON decoder are parameters.
 */
module AgentProfiles {
  import opened Wrappers
  import opened Strs
  import AgentCommand
  import Seqs

  datatype Profile = Profile(Name: string, Command: seq<string>, PromptTemplate: string, Timeout: int)

  datatype ProfileError =
    | InvalidName(line: nat)
    | InvalidFormat(line: nat)
    | InvalidIndent(line: nat)
    | InvalidCommand(profile: string, line: nat, cause: AgentCommand.CommandError)
    | InvalidTimeout(profile: string, line: nat, reason: string)
    | UnsupportedKey(profile: string, line: nat, text: string)
    | MissingCommand(profile: string)
    | NoProfiles

  /** The calls the parser makes into code outside this model: time.ParseDuration and json.Unmarshal. */
  datatype Env = Env(parseDuration: string -> Result<int, string>, decodeJson: string -> Result<seq<string>, string>)

  const ProfilesLine := "profiles:"
  const CommandKey := "command:"
  const TimeoutKey := "timeout:"
  const TemplateKey := "prompt_template:"
  const BlockMarker := "|"
  const BodyIndent := "      "

  const DefaultPromptTemplate := "Summarize " + "{{ .Symbol.Kind }} {{ .Symbol.Name }} in {{ .Symbol.Path }} (line {{ .Symbol.Line }}). Return JSON matching output_schema."

  // ---------------------------------------------------------------------
  // leadingSpaces

  /** The number of ' ' characters the line starts with; a tab ends the count like any other character. */
  function Indent(line: string): (n: nat)
    ensures n <= |line|
    ensures forall k :: 0 <= k < n ==> line[k] == ' '
    ensures n == |line| || line[n] != ' '
  {
    if line != [] && line[0] == ' ' then 1 + Indent(line[1..]) else 0
  }

  /** leadingSpaces */
  method LeadingSpaces(line: string) returns (count: nat)
    ensures count == Indent(line)
  {
    count := 0;
    while count < |line| && line[count] == ' '
      invariant count <= |line|
      invariant forall k :: 0 <= k < count ==> line[k] == ' '
    {
      count := count + 1;
    }
    IndentUnique(line, count);
  }

  /** The contract of Indent determines it. */
  lemma {:induction false} IndentUnique(line: string, n: nat)
    requires n <= |line|
    requires forall k :: 0 <= k < n ==> line[k] == ' '
    requires n == |line| || line[n] != ' '
    ensures n == Indent(line)
  {
    if n > 0 {
      IndentUnique(line[1..], n - 1);
    }
  }

  // ---------------------------------------------------------------------
  // The lines of the file

  /** Lines the parser passes over: blank, comments, and the `profiles:` line. */
  predicate Skipped(trimmed: string) {
    trimmed == [] || HasPrefix(trimmed, "#") || trimmed == ProfilesLine
  }

  /** A profile header: indented by exactly two spaces and ending in ':'. */
  predicate IsHeader(raw: string) {
    Indent(raw) == 2 && HasSuffix(TrimSpace(raw), ":")
  }

  function HeaderName(raw: string): string {
    TrimSpace(TrimSuffix(TrimSpace(raw), ":"))
  }

  /** A line that belongs to a `prompt_template: |` body: blank, or indented by six spaces or more. */
  predicate InBlock(raw: string) {
    TrimSpace(raw) == [] || Indent(raw) >= 6
  }

  /** One line of a `prompt_template: |` body: "" for a blank line, else the line without six spaces. */
  function BodyLine(raw: string): string {
    if TrimSpace(raw) == [] then [] else TrimPrefix(raw, BodyIndent)
  }

  /**
   * The body of a `prompt_template: |` starting at line j: the longest run
   * of block lines, each read by BodyLine, and the first line after the run.
   */
  function Block(lines: seq<string>, j: nat): (seq<string>, nat)
    requires j <= |lines|
  {
    Seqs.TakeWhile(lines, j, InBlock, BodyLine)
  }

  /** A non-blank body line is indented by six spaces, which BodyLine removes. */
  lemma BodyLineOf(raw: string)
    requires InBlock(raw)
    ensures BodyLine(raw) == if TrimSpace(raw) == [] then [] else raw[6..]
  {
    if TrimSpace(raw) != [] {
      assert forall k :: 0 <= k < 6 ==> raw[k] == ' ';
      assert raw[..6] == BodyIndent;
    }
  }

  /**
   * The body holds exactly the lines of the longest run of blank or
   * six-space-indented lines: "" for a blank line, else the line without its
   * first six characters; the run ends at the end of the file or at a
   * non-blank line indented by fewer than six spaces.
   */
  lemma BlockSpec(lines: seq<string>, j: nat)
    requires j <= |lines|
    ensures var r := Block(lines, j);
      && (forall k :: j <= k < r.1 ==>
            && InBlock(lines[k])
            && r.0[k - j] == if TrimSpace(lines[k]) == [] then [] else lines[k][6..])
      && (r.1 == |lines| || !InBlock(lines[r.1]))
  {
    Seqs.TakeWhileSpec(lines, j, InBlock, BodyLine);
    var r := Block(lines, j);
    forall k | j <= k < r.1
      ensures r.0[k - j] == if TrimSpace(lines[k]) == [] then [] else lines[k][6..]
    {
      BodyLineOf(lines[k]);
    }
  }

  /**
   * The inner loop that reads a `prompt_template: |` body after line i,
   * stopping at the first line InBlock rejects; last is the last line it
   * consumed.
   */
  method ReadBlock(lines: seq<string>, i: nat) returns (body: seq<string>, last: nat)
    requires i < |lines|
    ensures body == Block(lines, i + 1).0
    ensures last + 1 == Block(lines, i + 1).1
  {
    var end;
    body, end := Seqs.TakeWhileInto(lines, i + 1, InBlock, BodyLine);
    last := end - 1;
  }

  // ---------------------------------------------------------------------
  // The scan over the lines

  /**
   * One entry line of the current profile, with the index of the line after
   * it: a command, a timeout, or a prompt template; any other key is an
   * error.
   */
  function Entry(lines: seq<string>, i: nat, c: Profile, env: Env): (r: Result<(Profile, nat), ProfileError>)
    requires i < |lines|
    ensures r.Success? ==> i < r.value.1 <= |lines| && r.value.0.Name == c.Name
  {
    var trimmed := TrimSpace(lines[i]);
    if HasPrefix(trimmed, CommandKey) then CommandEntry(i, c, TrimSpace(TrimPrefix(trimmed, CommandKey)), env)
    else if HasPrefix(trimmed, TimeoutKey) then TimeoutEntry(i, c, TrimSpace(TrimPrefix(trimmed, TimeoutKey)), env)
    else if HasPrefix(trimmed, TemplateKey) then TemplateEntry(lines, i, c, TrimSpace(TrimPrefix(trimmed, TemplateKey)))
    else Failure(UnsupportedKey(c.Name, i + 1, trimmed))
  }

  function CommandEntry(i: nat, c: Profile, spec: string, env: Env): (r: Result<(Profile, nat), ProfileError>)
    ensures r.Success? ==> r.value == (c.(Command := r.value.0.Command), i + 1)
  {
    match AgentCommand.AgentCommandOf(spec, env.decodeJson)
    case Failure(e) => Failure(InvalidCommand(c.Name, i + 1, e))
    case Success(command) => Success((c.(Command := command), i + 1))
  }

  function TimeoutEntry(i: nat, c: Profile, spec: string, env: Env): (r: Result<(Profile, nat), ProfileError>)
    ensures r.Success? ==> r.value == (c.(Timeout := r.value.0.Timeout), i + 1)
  {
    match env.parseDuration(spec)
    case Failure(e) => Failure(InvalidTimeout(c.Name, i + 1, e))
    case Success(d) => Success((c.(Timeout := d), i + 1))
  }

  function TemplateEntry(lines: seq<string>, i: nat, c: Profile, spec: string): (r: Result<(Profile, nat), ProfileError>)
    requires i < |lines|
    ensures r.Success? && r.value.0 == c.(PromptTemplate := r.value.0.PromptTemplate) && i < r.value.1 <= |lines|
  {
    if spec == BlockMarker then
      var b := Block(lines, i + 1);
      Success((c.(PromptTemplate := Join(b.0, "\n")), b.1))
    else Success((c.(PromptTemplate := spec), i + 1))
  }

  /** What one line of the main loop leads to: the next line and state, or the error that ends the parse. */
  datatype LineOutcome =
    | Next(next: nat, profiles: map<string, Profile>, current: Option<Profile>)
    | Stop(error: ProfileError)

  /**
   * One pass of the main loop at line i: skipped lines and headers move to
   * the next line, an entry line moves past the entry, and a malformed
   * line stops the parse.
   */
  function LineStep(lines: seq<string>, i: nat, profiles: map<string, Profile>, current: Option<Profile>, env: Env): (r: LineOutcome)
    requires i < |lines|
    ensures r.Next? ==> i < r.next <= |lines|
  {
    var raw := lines[i];
    var trimmed := TrimSpace(raw);
    if Skipped(trimmed) then Next(i + 1, profiles, current)
    else if IsHeader(raw) then
      var name := HeaderName(raw);
      if name == [] then Stop(InvalidName(i + 1))
      else
        var p := Profile(name, [], [], 0);
        Next(i + 1, profiles[name := p], Some(p))
    else if current.None? then Stop(InvalidFormat(i + 1))
    else if Indent(raw) < 4 then Stop(InvalidIndent(i + 1))
    else
      match Entry(lines, i, current.value, env)
      case Failure(e) => Stop(e)
      case Success((p, next)) => Next(next, profiles[p.Name := p], Some(p))
  }

  /** The main loop from line i, with the profiles read so far and the current one. */
  function ScanFrom(lines: seq<string>, i: nat, profiles: map<string, Profile>, current: Option<Profile>, env: Env): Result<map<string, Profile>, ProfileError>
    requires i <= |lines|
    decreases |lines| - i
  {
    if i == |lines| then Success(profiles)
    else
      match LineStep(lines, i, profiles, current, env)
      case Stop(e) => Failure(e)
      case Next(next, p, c) => ScanFrom(lines, next, p, c, env)
  }

  /** The scan goes on from where one pass of the loop leads. */
  lemma ScanFromNext(lines: seq<string>, i: nat, profiles: map<string, Profile>, current: Option<Profile>, env: Env)
    requires i < |lines| && LineStep(lines, i, profiles, current, env).Next?
    ensures var o := LineStep(lines, i, profiles, current, env);
      ScanFrom(lines, i, profiles, current, env) == ScanFrom(lines, o.next, o.profiles, o.current, env)
  {
  }

  /** The scan ends with the error one pass of the loop stops at. */
  lemma ScanFromStop(lines: seq<string>, i: nat, profiles: map<string, Profile>, current: Option<Profile>, env: Env)
    requires i < |lines| && LineStep(lines, i, profiles, current, env).Stop?
    ensures ScanFrom(lines, i, profiles, current, env) == Failure(LineStep(lines, i, profiles, current, env).error)
  {
  }

  function Scan(lines: seq<string>, env: Env): Result<map<string, Profile>, ProfileError> {
    ScanFrom(lines, 0, map[], None, env)
  }

  // ---------------------------------------------------------------------
  // The final pass

  function Defaulted(p: Profile): Profile {
    if TrimSpace(p.PromptTemplate) == [] then p.(PromptTemplate := DefaultPromptTemplate) else p
  }

  function WithDefaults(profiles: map<string, Profile>): (r: map<string, Profile>)
    ensures r.Keys == profiles.Keys
    ensures forall n :: n in r ==> r[n] == Defaulted(profiles[n])
  {
    map n | n in profiles :: Defaulted(profiles[n])
  }

  /** Two maps with the same keys and the same value at each key are equal. */
  lemma MapEqual<K, V>(a: map<K, V>, b: map<K, V>)
    requires a.Keys == b.Keys
    requires forall k :: k in a ==> a[k] == b[k]
    ensures a == b
  {
  }

  /**
   * What the final pass reports: a profile without a command is an error
   * naming one such profile (the map is visited in no fixed order);
   * otherwise no profile at all is an error, and else every profile with a
   * blank template gets the default one.
   */
  ghost predicate Finalized(profiles: map<string, Profile>, r: Result<map<string, Profile>, ProfileError>) {
    && ((exists n :: n in profiles && profiles[n].Command == []) ==>
          r.Failure? && r.error.MissingCommand? && r.error.profile in profiles && profiles[r.error.profile].Command == [])
    && ((forall n :: n in profiles ==> profiles[n].Command != []) ==>
          r == if profiles == map[] then Failure(NoProfiles) else Success(WithDefaults(profiles)))
  }

  /** A profile without a command is reported by name. */
  lemma FinalizedMissing(profiles: map<string, Profile>, name: string)
    requires name in profiles && profiles[name].Command == []
    ensures Finalized(profiles, Failure(MissingCommand(name)))
  {
  }

  /** With every command present, the result is the defaulted map, or NoProfiles for none. */
  lemma FinalizedComplete(profiles: map<string, Profile>, out: map<string, Profile>)
    requires forall n :: n in profiles ==> profiles[n].Command != []
    requires out == WithDefaults(profiles)
    ensures Finalized(profiles, if |out| == 0 then Failure(NoProfiles) else Success(out))
  {
    if |out| == 0 {
      assert profiles.Keys == {};
    }
  }

  /**
   * The state of the final loop: the profiles not yet visited are as
   * scanned, and each visited one has a command and its template defaulted.
   */
  ghost predicate PartlyDefaulted(profiles: map<string, Profile>, out: map<string, Profile>, remaining: set<string>) {
    && remaining <= profiles.Keys
    && out.Keys == profiles.Keys
    && (forall n :: n in profiles && n !in remaining ==> profiles[n].Command != [] && out[n] == Defaulted(profiles[n]))
    && (forall n :: n in remaining ==> out[n] == profiles[n])
  }

  lemma PartlyDefaultedStart(profiles: map<string, Profile>)
    ensures PartlyDefaulted(profiles, profiles, profiles.Keys)
  {
  }

  lemma PartlyDefaultedNext(profiles: map<string, Profile>, out: map<string, Profile>, remaining: set<string>, name: string)
    requires PartlyDefaulted(profiles, out, remaining)
    requires name in remaining && out[name].Command != []
    ensures PartlyDefaulted(profiles, out[name := Defaulted(out[name])], remaining - {name})
  {
    var next := out[name := Defaulted(out[name])];
    assert out[name] == profiles[name];
    forall n | n in profiles && n !in remaining - {name}
      ensures profiles[n].Command != [] && next[n] == Defaulted(profiles[n])
    {
      if n != name {
        assert next[n] == out[n];
      }
    }
  }

  lemma PartlyDefaultedDone(profiles: map<string, Profile>, out: map<string, Profile>)
    requires PartlyDefaulted(profiles, out, {})
    ensures forall n :: n in profiles ==> profiles[n].Command != []
    ensures out == WithDefaults(profiles)
  {
    var w := WithDefaults(profiles);
    forall n | n in out
      ensures out[n] == w[n]
    {
      assert n !in {};
    }
    MapEqual(out, w);
  }

  /** A blank prompt template is replaced by the default one. */
  method DefaultTemplate(p: Profile) returns (q: Profile)
    ensures q == Defaulted(p)
  {
    q := p;
    if TrimSpace(p.PromptTemplate) == [] {
      q := q.(PromptTemplate := DefaultPromptTemplate);
    }
  }

  /** The loop over the profiles after the scan, and the check that there is one. */
  method Finalize(profiles: map<string, Profile>) returns (r: Result<map<string, Profile>, ProfileError>)
    ensures Finalized(profiles, r)
  {
    PartlyDefaultedStart(profiles);
    var out := profiles;
    var remaining := profiles.Keys;
    while remaining != {}
      invariant PartlyDefaulted(profiles, out, remaining)
      decreases remaining
    {
      var name :| name in remaining;
      var profile := out[name];
      if |profile.Command| == 0 {
        FinalizedMissing(profiles, name);
        return Failure(MissingCommand(name));
      }
      profile := DefaultTemplate(profile);
      PartlyDefaultedNext(profiles, out, remaining, name);
      out := out[name := profile];
      remaining := remaining - {name};
    }
    PartlyDefaultedDone(profiles, out);
    FinalizedComplete(profiles, out);
    if |out| == 0 {
      return Failure(NoProfiles);
    }
    return Success(out);
  }

  // ---------------------------------------------------------------------
  // parseAgentProfilesYAML

  /**
   * parseAgentProfilesYAML: an error of the scan is reported as it is;
   * otherwise the final pass decides.
   */
  method ParseAgentProfilesYAML(content: string, env: Env) returns (r: Result<map<string, Profile>, ProfileError>)
    ensures var s := Scan(Split(content, "\n"), env);
      && (s.Failure? ==> r == Failure(s.error))
      && (s.Success? ==> Finalized(s.value, r))
  {
    var lines := Split(content, "\n");
    var s := ScanLines(lines, env);
    if s.Failure? {
      return Failure(s.error);
    }
    r := Finalize(s.value);
  }

  /** The loop over the lines of parseAgentProfilesYAML, up to the final pass. */
  method ScanLines(lines: seq<string>, env: Env) returns (r: Result<map<string, Profile>, ProfileError>)
    ensures r == Scan(lines, env)
  {
    var profiles: map<string, Profile> := map[];
    var current: Option<Profile> := None;
    var i := 0;
    while i < |lines|
      invariant i <= |lines|
      invariant ScanFrom(lines, i, profiles, current, env) == Scan(lines, env)
      decreases |lines| - i
    {
      var o := ScanLine(lines, i, profiles, current, env);
      if o.Stop? {
        return Failure(o.error);
      }
      i, profiles, current := o.next, o.profiles, o.current;
    }
    return Success(profiles);
  }

  /** The body of the main loop for line i: `continue` and `return` become the two kinds of outcome. */
  method ScanLine(lines: seq<string>, i: nat, profiles: map<string, Profile>, current: Option<Profile>, env: Env) returns (o: LineOutcome)
    requires i < |lines|
    ensures o == LineStep(lines, i, profiles, current, env)
  {
    var raw := lines[i];
    var trimmed := TrimSpace(raw);
    if trimmed == [] || HasPrefix(trimmed, "#") || trimmed == ProfilesLine {
      return Next(i + 1, profiles, current);
    }
    var indent := LeadingSpaces(raw);
    if indent == 2 && HasSuffix(trimmed, ":") {
      var name := TrimSpace(TrimSuffix(trimmed, ":"));
      if name == [] {
        return Stop(InvalidName(i + 1));
      }
      var profile := Profile(name, [], [], 0);
      return Next(i + 1, profiles[name := profile], Some(profile));
    }
    if current.None? {
      return Stop(InvalidFormat(i + 1));
    }
    if indent < 4 {
      return Stop(InvalidIndent(i + 1));
    }
    var next, c := ReadEntry(lines, i, current.value, env);
    if c.Failure? {
      return Stop(c.error);
    }
    return Next(next, profiles[c.value.Name := c.value], Some(c.value));
  }

  /** The switch on the key of an entry line; next is the line after the entry. */
  method ReadEntry(lines: seq<string>, i: nat, current: Profile, env: Env) returns (next: nat, r: Result<Profile, ProfileError>)
    requires i < |lines|
    ensures var e := Entry(lines, i, current, env);
      && (e.Failure? ==> r == Failure(e.error))
      && (e.Success? ==> r == Success(e.value.0) && next == e.value.1)
  {
    var trimmed := TrimSpace(lines[i]);
    var c := current;
    next := i + 1;
    if HasPrefix(trimmed, CommandKey) {
      assert Entry(lines, i, current, env) == CommandEntry(i, current, TrimSpace(TrimPrefix(trimmed, CommandKey)), env);
      var command := AgentCommand.ParseAgentCommand(TrimSpace(TrimPrefix(trimmed, CommandKey)), env.decodeJson);
      if command.Failure? {
        return next, Failure(InvalidCommand(c.Name, i + 1, command.error));
      }
      c := c.(Command := command.value);
    } else if HasPrefix(trimmed, TimeoutKey) {
      assert Entry(lines, i, current, env) == TimeoutEntry(i, current, TrimSpace(TrimPrefix(trimmed, TimeoutKey)), env);
      var timeout := env.parseDuration(TrimSpace(TrimPrefix(trimmed, TimeoutKey)));
      if timeout.Failure? {
        return next, Failure(InvalidTimeout(c.Name, i + 1, timeout.error));
      }
      c := c.(Timeout := timeout.value);
    } else if HasPrefix(trimmed, TemplateKey) {
      var spec := TrimSpace(TrimPrefix(trimmed, TemplateKey));
      assert Entry(lines, i, current, env) == TemplateEntry(lines, i, current, spec);
      if spec == BlockMarker {
        var body, last := ReadBlock(lines, i);
        c := c.(PromptTemplate := Join(body, "\n"));
        next := last + 1;
      } else {
        c := c.(PromptTemplate := spec);
      }
    } else {
      return next, Failure(UnsupportedKey(c.Name, i + 1, trimmed));
    }
    r := Success(c);
  }

  // ---------------------------------------------------------------------
  // Properties of the parse

  /** A command as the parser accepts it: at least one part, each non-blank and trimmed. */
  predicate SanitizedCommand(command: seq<string>) {
    command != [] && forall p :: p in command ==> p != [] && NoEdgeSpace(p)
  }

  /** A profile as the scan keeps it: a trimmed, non-blank name and no command yet or an accepted one. */
  predicate WellFormed(p: Profile) {
    p.Name != [] && NoEdgeSpace(p.Name) && (p.Command == [] || SanitizedCommand(p.Command))
  }

  /** The state of the main loop: each profile filed under its own name, the current one filed as it is. */
  ghost predicate ValidState(profiles: map<string, Profile>, current: Option<Profile>) {
    && (forall n :: n in profiles ==> profiles[n].Name == n && WellFormed(profiles[n]))
    && (current.Some? ==> current.value.Name in profiles && profiles[current.value.Name] == current.value)
  }

  /** An entry line keeps a profile well formed: a command it sets is one the command parser accepted. */
  lemma EntryWellFormed(lines: seq<string>, i: nat, c: Profile, env: Env)
    requires i < |lines| && WellFormed(c)
    ensures Entry(lines, i, c, env).Success? ==> WellFormed(Entry(lines, i, c, env).value.0)
  {
    var trimmed := TrimSpace(lines[i]);
    if HasPrefix(trimmed, CommandKey) {
      var spec := TrimSpace(TrimPrefix(trimmed, CommandKey));
      assert Entry(lines, i, c, env) == CommandEntry(i, c, spec, env);
      AgentCommand.AgentCommandSanitized(spec, env.decodeJson);
    } else if HasPrefix(trimmed, TimeoutKey) {
      assert Entry(lines, i, c, env) == TimeoutEntry(i, c, TrimSpace(TrimPrefix(trimmed, TimeoutKey)), env);
    } else if HasPrefix(trimmed, TemplateKey) {
      assert Entry(lines, i, c, env) == TemplateEntry(lines, i, c, TrimSpace(TrimPrefix(trimmed, TemplateKey)));
    }
  }

  /** Filing a well-formed profile under its name, as the current one, keeps ValidState. */
  lemma ValidStateFile(profiles: map<string, Profile>, p: Profile)
    requires forall n :: n in profiles ==> profiles[n].Name == n && WellFormed(profiles[n])
    requires WellFormed(p)
    ensures ValidState(profiles[p.Name := p], Some(p))
  {
    var m := profiles[p.Name := p];
    forall n | n in m
      ensures m[n].Name == n && WellFormed(m[n])
    {
      if n != p.Name {
        assert m[n] == profiles[n];
      }
    }
  }

  /** One pass of the main loop preserves ValidState. */
  lemma LineStepValid(lines: seq<string>, i: nat, profiles: map<string, Profile>, current: Option<Profile>, env: Env)
    requires i < |lines| && ValidState(profiles, current)
    ensures var o := LineStep(lines, i, profiles, current, env);
      o.Next? ==> ValidState(o.profiles, o.current)
  {
    var raw := lines[i];
    var o := LineStep(lines, i, profiles, current, env);
    if Skipped(TrimSpace(raw)) {
      assert o == Next(i + 1, profiles, current);
    } else if IsHeader(raw) {
      if HeaderName(raw) != [] {
        var p := Profile(HeaderName(raw), [], [], 0);
        assert o == Next(i + 1, profiles[p.Name := p], Some(p));
        assert WellFormed(p);
        ValidStateFile(profiles, p);
      }
    } else if current.Some? && Indent(raw) >= 4 {
      EntryWellFormed(lines, i, current.value, env);
      var e := Entry(lines, i, current.value, env);
      if e.Success? {
        assert o == Next(e.value.1, profiles[e.value.0.Name := e.value.0], Some(e.value.0));
        ValidStateFile(profiles, e.value.0);
      }
    }
  }

  /** Every profile the scan returns is filed under its own name and well formed. */
  lemma {:induction false} ScanFromValid(lines: seq<string>, i: nat, profiles: map<string, Profile>, current: Option<Profile>, env: Env)
    requires i <= |lines| && ValidState(profiles, current)
    ensures var r := ScanFrom(lines, i, profiles, current, env);
      r.Success? ==> forall n :: n in r.value ==> r.value[n].Name == n && WellFormed(r.value[n])
    decreases |lines| - i
  {
    if i < |lines| {
      LineStepValid(lines, i, profiles, current, env);
      var o := LineStep(lines, i, profiles, current, env);
      if o.Next? {
        ScanFromNext(lines, i, profiles, current, env);
        ScanFromValid(lines, o.next, o.profiles, o.current, env);
      }
    }
  }

  /** The default template is not blank, so a defaulted profile always has a template. */
  lemma DefaultTemplateNotBlank()
    ensures TrimSpace(DefaultPromptTemplate) != []
  {
    assert DefaultPromptTemplate[0] == 'S';
    NotBlank(DefaultPromptTemplate);
  }

  /** A string that starts with a non-space character is not blank. */
  lemma NotBlank(s: string)
    requires |s| > 0 && !IsSpace(s[0])
    ensures TrimSpace(s) != []
  {
    TrimSpaceEmptyIff(s);
  }

  /**
   * A parse that succeeds yields at least one profile, each filed under its
   * own trimmed, non-blank name, each with an accepted command and a
   * non-blank prompt template, and with the command and timeout the scan read.
   */
  lemma ParsedProfiles(lines: seq<string>, env: Env, r: Result<map<string, Profile>, ProfileError>)
    requires Scan(lines, env).Success? && Finalized(Scan(lines, env).value, r)
    requires r.Success?
    ensures r.value != map[] && r.value.Keys == Scan(lines, env).value.Keys
    ensures forall n :: n in r.value ==>
      && r.value[n].Name == n && n != [] && NoEdgeSpace(n)
      && SanitizedCommand(r.value[n].Command)
      && TrimSpace(r.value[n].PromptTemplate) != []
      && r.value[n].Command == Scan(lines, env).value[n].Command
      && r.value[n].Timeout == Scan(lines, env).value[n].Timeout
  {
    var m := Scan(lines, env).value;
    ScanFromValid(lines, 0, map[], None, env);
    assert r == Success(WithDefaults(m));
    forall n | n in r.value
      ensures && r.value[n].Name == n && n != [] && NoEdgeSpace(n)
              && SanitizedCommand(r.value[n].Command)
              && TrimSpace(r.value[n].PromptTemplate) != []
              && r.value[n].Command == m[n].Command
              && r.value[n].Timeout == m[n].Timeout
    {
      DefaultedKeeps(m[n]);
    }
  }

  /** Defaulting changes only a blank template, and leaves none blank. */
  lemma DefaultedKeeps(p: Profile)
    ensures Defaulted(p) == p.(PromptTemplate := Defaulted(p).PromptTemplate)
    ensures TrimSpace(Defaulted(p).PromptTemplate) != []
    ensures TrimSpace(p.PromptTemplate) != [] ==> Defaulted(p) == p
  {
    DefaultTemplateNotBlank();
  }

  /** Line j is blank, a comment or the `profiles:` line. */
  predicate SkippedAt(lines: seq<string>, j: nat)
    requires j < |lines|
  {
    Skipped(TrimSpace(lines[j]))
  }

  lemma SkipLine(lines: seq<string>, i: nat, profiles: map<string, Profile>, current: Option<Profile>, env: Env)
    requires i < |lines| && SkippedAt(lines, i)
    ensures ScanFrom(lines, i, profiles, current, env) == ScanFrom(lines, i + 1, profiles, current, env)
  {
    assert LineStep(lines, i, profiles, current, env) == Next(i + 1, profiles, current);
    ScanFromNext(lines, i, profiles, current, env);
  }

  /** Each skipped line leaves the scan where it was. */
  lemma SkipLines(lines: seq<string>, i: nat, k: nat, profiles: map<string, Profile>, current: Option<Profile>, env: Env)
    requires i <= k <= |lines|
    requires forall j :: i <= j < k ==> SkippedAt(lines, j)
    ensures forall j :: i <= j < k ==> ScanFrom(lines, j, profiles, current, env) == ScanFrom(lines, j + 1, profiles, current, env)
  {
    forall j | i <= j < k
      ensures ScanFrom(lines, j, profiles, current, env) == ScanFrom(lines, j + 1, profiles, current, env)
    {
      SkipLine(lines, j, profiles, current, env);
    }
  }

  /** Skipped lines leave the scan where it was. */
  lemma SkipTo(lines: seq<string>, i: nat, k: nat, profiles: map<string, Profile>, current: Option<Profile>, env: Env)
    requires i <= k <= |lines|
    requires forall j :: i <= j < k ==> SkippedAt(lines, j)
    ensures ScanFrom(lines, i, profiles, current, env) == ScanFrom(lines, k, profiles, current, env)
  {
    var scan := (j: nat) => if j <= |lines| then ScanFrom(lines, j, profiles, current, env) else Success(profiles);
    SkipLines(lines, i, k, profiles, current, env);
    assert forall j :: i <= j < k ==> scan(j) == scan(j + 1);
    Seqs.ChainEqual(scan, i, k);
  }

  /** A content line before any profile header is an error at that line. */
  lemma ContentBeforeHeader(lines: seq<string>, k: nat, env: Env)
    requires k < |lines| && forall j :: 0 <= j < k ==> SkippedAt(lines, j)
    requires !Skipped(TrimSpace(lines[k])) && !IsHeader(lines[k])
    ensures Scan(lines, env) == Failure(InvalidFormat(k + 1))
  {
    SkipTo(lines, 0, k, map[], None, env);
  }

  /** A file of blank lines, comments and `profiles:` has no profiles, which the final pass reports. */
  lemma NoProfilesFound(lines: seq<string>, env: Env, r: Result<map<string, Profile>, ProfileError>)
    requires forall j :: 0 <= j < |lines| ==> SkippedAt(lines, j)
    ensures Scan(lines, env) == Success(map[])
    ensures Finalized(map[], r) ==> r == Failure(NoProfiles)
  {
    SkipTo(lines, 0, |lines|, map[], None, env);
  }

  /** Inside a profile, a content line indented by fewer than four spaces is an error at that line. */
  lemma ShallowEntry(lines: seq<string>, i: nat, profiles: map<string, Profile>, c: Profile, env: Env)
    requires i < |lines| && !Skipped(TrimSpace(lines[i])) && !IsHeader(lines[i]) && Indent(lines[i]) < 4
    ensures ScanFrom(lines, i, profiles, Some(c), env) == Failure(InvalidIndent(i + 1))
  {
    assert LineStep(lines, i, profiles, Some(c), env) == Stop(InvalidIndent(i + 1));
    ScanFromStop(lines, i, profiles, Some(c), env);
  }

  /** Inside a profile, an entry whose key is not command, timeout or prompt_template is an error naming the profile. */
  lemma UnsupportedEntry(lines: seq<string>, i: nat, profiles: map<string, Profile>, c: Profile, env: Env)
    requires i < |lines| && !Skipped(TrimSpace(lines[i])) && !IsHeader(lines[i]) && Indent(lines[i]) >= 4
    requires var t := TrimSpace(lines[i]); !HasPrefix(t, CommandKey) && !HasPrefix(t, TimeoutKey) && !HasPrefix(t, TemplateKey)
    ensures ScanFrom(lines, i, profiles, Some(c), env) == Failure(UnsupportedKey(c.Name, i + 1, TrimSpace(lines[i])))
  {
    assert LineStep(lines, i, profiles, Some(c), env) == Stop(UnsupportedKey(c.Name, i + 1, TrimSpace(lines[i])));
    ScanFromStop(lines, i, profiles, Some(c), env);
  }

  /** `  name:` is a profile header for any trimmed, non-blank name, and reading it gives the name back. */
  lemma HeaderLine(name: string)
    requires name != [] && NoEdgeSpace(name)
    ensures IsHeader("  " + name + ":") && HeaderName("  " + name + ":") == name
  {
    var named := name + ":";
    assert "  " + name + ":" == "  " + named;
    assert named[0] == name[0];
    TwoSpaces(named);
    NamedTrim(name);
    TrimSpaceNoop(name);
  }

  lemma TwoSpaces(s: string)
    requires s != [] && !IsSpace(s[0])
    ensures Indent("  " + s) == 2 && TrimSpace("  " + s) == TrimSpace(s)
  {
    TwoSpacesIndent(s);
    assert AllSpace("  ");
    TrimSpaceSpacePrefix("  ", s);
  }

  lemma TwoSpacesIndent(s: string)
    requires s != [] && s[0] != ' '
    ensures Indent("  " + s) == 2
  {
    IndentSpace(s);
    IndentSpace([' '] + s);
    assert "  " + s == [' '] + ([' '] + s);
  }

  /** One more leading space adds one to the indentation. */
  lemma IndentSpace(s: string)
    ensures Indent([' '] + s) == 1 + Indent(s)
  {
    assert ([' '] + s)[1..] == s;
  }

  lemma NamedTrim(name: string)
    requires name != [] && NoEdgeSpace(name)
    ensures TrimSpace(name + ":") == name + ":" && TrimSuffix(name + ":", ":") == name
  {
    var named := name + ":";
    assert named[0] == name[0];
    TrimSpaceNoop(named);
    assert named[|named| - 1..] == ":";
    assert named[..|named| - 1] == name;
  }
}
