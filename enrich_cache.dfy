/**
 * The enrichment cache of internal/enrich/cache.go: records keyed by a
 * digest of what produced them, loaded from JSON lines with legacy
 * defaults and "latest timestamp wins" merging, written in a fixed order,
 * and pruned of stale entries for a symbol. The SHA-256 digest is a
 * parameter; reading, decoding and writing the file are left out (a line
 * arrives decoded, or as None when it is blank or not valid JSON).
 */
module EnrichCache {
  import opened Wrappers
  import opened Strs
  import opened Sorting
  import opened EnrichTypes

  const KeyPrefix: string := "cache-v1-"
  const LegacyPromptVersion: string := "prompt-v1-legacy"
  const UnknownModel: string := "unknown"

  predicate IsHexDigit(c: char) {
    '0' <= c <= '9' || 'a' <= c <= 'f'
  }

  /** Sixteen lower-case hex digits: the first eight bytes of a digest. */
  type Hex16 = h: string | |h| == 16 && forall k :: 0 <= k < |h| ==> IsHexDigit(h[k])
    witness "0000000000000000"

  /** The SHA-256 digest of the key seed, hex-encoded and cut to eight bytes; not modelled. */
  type KeyHash = string -> Hex16

  // ---------------------------------------------------------------------
  // CacheKey

  /** The text that is hashed: the five trimmed components, joined by '|'. */
  function KeySeed(symbolID: string, fileHash: string, promptVersion: string, agentProfile: string, model: string): string {
    Join([TrimSpace(symbolID), TrimSpace(fileHash), TrimSpace(promptVersion), TrimSpace(agentProfile), TrimSpace(model)], "|")
  }

  /** CacheKey: the prefix and sixteen hex digits of the seed's digest. */
  function CacheKey(symbolID: string, fileHash: string, promptVersion: string, agentProfile: string, model: string, hash: KeyHash): (r: string)
    ensures |r| == |KeyPrefix| + 16 && HasPrefix(r, KeyPrefix)
    ensures forall k :: |KeyPrefix| <= k < |r| ==> IsHexDigit(r[k])
  {
    KeyPrefix + hash(KeySeed(symbolID, fileHash, promptVersion, agentProfile, model))
  }

  /** Whitespace around any component does not change the key. */
  lemma CacheKeyTrimmed(symbolID: string, fileHash: string, promptVersion: string, agentProfile: string, model: string, hash: KeyHash)
    ensures CacheKey(TrimSpace(symbolID), TrimSpace(fileHash), TrimSpace(promptVersion), TrimSpace(agentProfile), TrimSpace(model), hash)
         == CacheKey(symbolID, fileHash, promptVersion, agentProfile, model, hash)
  {
    TrimSpaceIdempotent(symbolID);
    TrimSpaceIdempotent(fileHash);
    TrimSpaceIdempotent(promptVersion);
    TrimSpaceIdempotent(agentProfile);
    TrimSpaceIdempotent(model);
  }

  // ---------------------------------------------------------------------
  // LoadCache

  /** The cache file as read: absent, unreadable, or its lines, each decoded or None. */
  datatype CacheFile = Missing | Unreadable(err: string) | Lines(lines: seq<Option<Record>>)

  /** A record as loaded: legacy defaults filled in, and the key computed when it is missing. */
  function Normalize(r: Record, hash: KeyHash): (n: Record)
    ensures n.AgentProfile == (if r.AgentProfile == "" then r.Agent else r.AgentProfile)
    ensures n.PromptVersion != "" && n.Model != "" && n.CacheKey != ""
    ensures r.PromptVersion != "" ==> n.PromptVersion == r.PromptVersion
    ensures r.Model != "" ==> n.Model == r.Model
    ensures r.CacheKey != "" ==> n.CacheKey == r.CacheKey
    ensures n.SymbolID == r.SymbolID && n.FileHash == r.FileHash && n.Agent == r.Agent
    ensures n.GeneratedAt == r.GeneratedAt && n.UpdatedAt == r.UpdatedAt && n.Output == r.Output
  {
    var profile := if r.AgentProfile == "" then r.Agent else r.AgentProfile;
    var prompt := if r.PromptVersion == "" then LegacyPromptVersion else r.PromptVersion;
    var model := if r.Model == "" then UnknownModel else r.Model;
    var key := if r.CacheKey == "" then CacheKey(r.SymbolID, r.FileHash, prompt, profile, model, hash) else r.CacheKey;
    r.(AgentProfile := profile, PromptVersion := prompt, Model := model, CacheKey := key)
  }

  /** A missing key is the key of the record's own (defaulted) fields. */
  lemma NormalizeComputesKey(r: Record, hash: KeyHash)
    requires r.CacheKey == ""
    ensures var n := Normalize(r, hash);
      n.CacheKey == CacheKey(n.SymbolID, n.FileHash, n.PromptVersion, n.AgentProfile, n.Model, hash)
  {
  }

  /** The time a record was last written: UpdatedAt, else GeneratedAt. */
  function Timestamp(r: Record): string {
    if r.UpdatedAt == "" then r.GeneratedAt else r.UpdatedAt
  }

  /** One record merged in: a new key is added; an existing one is replaced when the record is at least as recent. */
  function Merge(cache: map<string, Record>, r: Record): map<string, Record> {
    if r.CacheKey == "" then cache
    else if r.CacheKey !in cache then cache[r.CacheKey := r]
    else if LessEq(Timestamp(cache[r.CacheKey]), Timestamp(r)) then cache[r.CacheKey := r]
    else cache
  }

  /** The records of the decoded lines, normalised, in file order. */
  function Decoded(lines: seq<Option<Record>>, hash: KeyHash): (recs: seq<Record>)
    ensures |recs| <= |lines|
    ensures forall r :: r in recs ==> r.CacheKey != ""
  {
    if lines == [] then []
    else
      var prev := Decoded(lines[..|lines| - 1], hash);
      match lines[|lines| - 1]
      case None => prev
      case Some(r) => prev + [Normalize(r, hash)]
  }

  /** The cache after merging the records in order. */
  function Loaded(recs: seq<Record>): map<string, Record> {
    if recs == [] then map[] else Merge(Loaded(recs[..|recs| - 1]), recs[|recs| - 1])
  }

  /**
   * What a loaded cache holds: its keys are exactly the records' keys, each
   * entry is a record stored under its own key, no record of that key is
   * more recent, and every record after it with that key is strictly older.
   */
  ghost predicate Latest(recs: seq<Record>, cache: map<string, Record>) {
    (forall r :: r in recs ==> r.CacheKey in cache && LessEq(Timestamp(r), Timestamp(cache[r.CacheKey]))) &&
    (forall k :: k in cache ==> cache[k].CacheKey == k && StoredFrom(recs, k, cache[k]))
  }

  /** v is a record of key k whose later records of that key are all strictly older. */
  ghost predicate StoredFrom(recs: seq<Record>, k: string, v: Record) {
    exists i :: 0 <= i < |recs| && recs[i] == v && NewestAfter(recs, i, k)
  }

  ghost predicate NewestAfter(recs: seq<Record>, i: int, k: string)
    requires 0 <= i < |recs|
  {
    forall j :: i < j < |recs| && recs[j].CacheKey == k ==> Less(Timestamp(recs[j]), Timestamp(recs[i]))
  }

  /** After a merge, no record of the extended sequence is more recent than the entry of its key. */
  lemma MergeNewest(recs: seq<Record>, cache: map<string, Record>, r: Record)
    requires Latest(recs, cache) && r.CacheKey != ""
    ensures forall x :: x in recs + [r] ==> x.CacheKey in Merge(cache, r) && LessEq(Timestamp(x), Timestamp(Merge(cache, r)[x.CacheKey]))
  {
    var m := Merge(cache, r);
    forall x | x in recs + [r]
      ensures x.CacheKey in m && LessEq(Timestamp(x), Timestamp(m[x.CacheKey]))
    {
      if x == r {
        if r.CacheKey in cache && !LessEq(Timestamp(cache[r.CacheKey]), Timestamp(r)) {
          LessEqTotal(Timestamp(cache[r.CacheKey]), Timestamp(r));
        }
      } else {
        assert x in recs;
        if x.CacheKey == r.CacheKey && r.CacheKey in cache && LessEq(Timestamp(cache[r.CacheKey]), Timestamp(r)) {
          LessEqTransitive(Timestamp(x), Timestamp(cache[r.CacheKey]), Timestamp(r));
        }
      }
    }
  }

  /** The last record is stored from its own position. */
  lemma StoredLast(recs: seq<Record>, r: Record)
    ensures StoredFrom(recs + [r], r.CacheKey, r)
  {
    assert (recs + [r])[|recs|] == r && NewestAfter(recs + [r], |recs|, r.CacheKey);
  }

  /** A stored record stays stored past a record of another key or a strictly older one. */
  lemma StoredKeep(recs: seq<Record>, r: Record, k: string, v: Record)
    requires StoredFrom(recs, k, v)
    requires r.CacheKey != k || Less(Timestamp(r), Timestamp(v))
    ensures StoredFrom(recs + [r], k, v)
  {
    var i :| 0 <= i < |recs| && recs[i] == v && NewestAfter(recs, i, k);
    assert (recs + [r])[i] == v && NewestAfter(recs + [r], i, k);
  }

  /** After a merge, every entry is stored under its key and is newer than every later record of that key. */
  lemma MergeStored(recs: seq<Record>, cache: map<string, Record>, r: Record)
    requires Latest(recs, cache) && r.CacheKey != ""
    ensures forall k :: k in Merge(cache, r) ==> Merge(cache, r)[k].CacheKey == k && StoredFrom(recs + [r], k, Merge(cache, r)[k])
  {
    var m := Merge(cache, r);
    forall k | k in m
      ensures m[k].CacheKey == k && StoredFrom(recs + [r], k, m[k])
    {
      if k == r.CacheKey && m[k] == r {
        StoredLast(recs, r);
      } else {
        if k == r.CacheKey {
          LessEqTotal(Timestamp(cache[k]), Timestamp(r));
        }
        StoredKeep(recs, r, k, cache[k]);
      }
    }
  }

  /** The cache loaded from any records is the latest of them. */
  lemma {:induction false} LoadedLatest(recs: seq<Record>)
    requires forall r :: r in recs ==> r.CacheKey != ""
    ensures Latest(recs, Loaded(recs))
  {
    if recs != [] {
      var init, last := recs[..|recs| - 1], recs[|recs| - 1];
      assert recs == init + [last];
      LoadedLatest(init);
      MergeNewest(init, Loaded(init), last);
      MergeStored(init, Loaded(init), last);
    }
  }

  /** The legacy defaults of one decoded line, field by field. */
  method NormalizeRecord(decoded: Record, hash: KeyHash) returns (record: Record)
    ensures record == Normalize(decoded, hash)
  {
    record := decoded;
    if record.AgentProfile == "" {
      record := record.(AgentProfile := record.Agent);
    }
    if record.PromptVersion == "" {
      record := record.(PromptVersion := LegacyPromptVersion);
    }
    if record.Model == "" {
      record := record.(Model := UnknownModel);
    }
    if record.CacheKey == "" {
      record := record.(CacheKey := CacheKey(record.SymbolID, record.FileHash, record.PromptVersion, record.AgentProfile, record.Model, hash));
    }
  }

  /** One record merged into the cache, comparing timestamps as strings. */
  method MergeRecord(cache: map<string, Record>, record: Record) returns (r: map<string, Record>)
    requires record.CacheKey != ""
    ensures r == Merge(cache, record)
  {
    r := cache;
    if record.CacheKey !in cache {
      r := cache[record.CacheKey := record];
      return;
    }
    var existing := cache[record.CacheKey];
    var existingTS := existing.UpdatedAt;
    if existingTS == "" {
      existingTS := existing.GeneratedAt;
    }
    var recordTS := record.UpdatedAt;
    if recordTS == "" {
      recordTS := record.GeneratedAt;
    }
    if LessEq(existingTS, recordTS) {
      r := cache[record.CacheKey := record];
    }
  }

  /** The loop of LoadCache over the lines. */
  method MergeLines(lines: seq<Option<Record>>, hash: KeyHash) returns (cache: map<string, Record>)
    ensures cache == Loaded(Decoded(lines, hash))
  {
    cache := map[];
    ghost var recs: seq<Record> := [];
    for i := 0 to |lines|
      invariant recs == Decoded(lines[..i], hash) && cache == Loaded(recs)
    {
      assert lines[..i + 1][..i] == lines[..i];
      if lines[i].Some? {
        var record := NormalizeRecord(lines[i].value, hash);
        assert (recs + [record])[..|recs|] == recs;
        recs := recs + [record];
        cache := MergeRecord(cache, record);
      }
    }
    assert lines[..|lines|] == lines;
  }

  /**
   * LoadCache: an empty cache for a missing file, an error for an
   * unreadable one, and otherwise the latest record for each key.
   */
  method LoadCache(file: CacheFile, hash: KeyHash) returns (r: Result<map<string, Record>, string>)
    ensures file.Missing? ==> r == Success(map[])
    ensures file.Unreadable? ==> r.Failure?
    ensures file.Lines? ==> r.Success? && Latest(Decoded(file.lines, hash), r.value)
  {
    match file {
      case Missing =>
        return Success(map[]);
      case Unreadable(err) =>
        return Failure("failed to read enrich cache: " + err);
      case Lines(lines) =>
        var cache := MergeLines(lines, hash);
        LoadedLatest(Decoded(lines, hash));
        return Success(cache);
    }
  }

  // ---------------------------------------------------------------------
  // WriteCache

  /** The order of written records: by symbol ID, then agent profile, then key. */
  function RecordKey(r: Record): seq<KeyPart> {
    [StrKey(r.SymbolID), StrKey(r.AgentProfile), StrKey(r.CacheKey)]
  }

  /** The entries of the cache at the given keys, in that order. */
  function ValuesAt(cache: map<string, Record>, keys: seq<string>): seq<Record>
    requires forall k :: k in keys ==> k in cache
  {
    seq(|keys|, i requires 0 <= i < |keys| => cache[keys[i]])
  }

  /** The loop of WriteCache over the map, in the map's (unspecified) iteration order. */
  method CollectRecords(cache: map<string, Record>) returns (records: seq<Record>, ghost order: seq<string>)
    ensures forall k :: k in order <==> k in cache
    ensures Seqs.NoDups(order) && records == ValuesAt(cache, order)
  {
    records := [];
    order := [];
    var rest := cache.Keys;
    while rest != {}
      invariant rest <= cache.Keys
      invariant forall k :: k in order <==> k in cache && k !in rest
      invariant Seqs.NoDups(order) && records == ValuesAt(cache, order)
      decreases |rest|
    {
      var k :| k in rest;
      records := records + [cache[k]];
      order := order + [k];
      rest := rest - {k};
    }
  }

  /**
   * WriteCache's records: every entry once, in the map's order of keys
   * permuted into (SymbolID, AgentProfile, CacheKey) order. Encoding and
   * writing them are left out.
   */
  method WriteOrder(cache: map<string, Record>) returns (records: seq<Record>, ghost order: seq<string>)
    ensures forall k :: k in order <==> k in cache
    ensures Seqs.NoDups(order)
    ensures multiset(records) == multiset(ValuesAt(cache, order))
    ensures forall i, j :: 0 <= i < j < |records| ==> KeyLe(RecordKey(records[i]), RecordKey(records[j]))
  {
    var collected;
    collected, order := CollectRecords(cache);
    records := SortByKey(collected, RecordKey);
    SortByKeySorted(collected, RecordKey);
  }

  // ---------------------------------------------------------------------
  // PruneCacheForSymbol

  /** The profile an entry belongs to: AgentProfile, else the legacy Agent. */
  function EffectiveProfile(r: Record): string {
    if r.AgentProfile == "" then r.Agent else r.AgentProfile
  }

  /** An entry that pruning removes: another entry of the same symbol and profile. */
  predicate Stale(key: string, r: Record, keepKey: string, symbolID: string, agentProfile: string) {
    key != keepKey && r.SymbolID == symbolID && EffectiveProfile(r) == agentProfile
  }

  /** The cache without the stale entries. */
  function Pruned(cache: map<string, Record>, keepKey: string, symbolID: string, agentProfile: string): (r: map<string, Record>)
  {
    map k | k in cache && !Stale(k, cache[k], keepKey, symbolID, agentProfile) :: cache[k]
  }

  /**
   * Pruning keeps keepKey and every entry of another symbol or profile,
   * unchanged, and removes every other entry of the symbol and profile.
   */
  lemma PrunedSpec(cache: map<string, Record>, keepKey: string, symbolID: string, agentProfile: string)
    ensures var r := Pruned(cache, keepKey, symbolID, agentProfile);
      (forall k :: k in r ==> k in cache && r[k] == cache[k]) &&
      (keepKey in cache ==> keepKey in r) &&
      (forall k :: k in cache && (cache[k].SymbolID != symbolID || EffectiveProfile(cache[k]) != agentProfile) ==> k in r) &&
      (forall k :: k in r && k != keepKey ==> r[k].SymbolID != symbolID || EffectiveProfile(r[k]) != agentProfile)
  {
  }

  /** Pruning twice prunes nothing more. */
  lemma PrunedIdempotent(cache: map<string, Record>, keepKey: string, symbolID: string, agentProfile: string)
    ensures var r := Pruned(cache, keepKey, symbolID, agentProfile);
      Pruned(r, keepKey, symbolID, agentProfile) == r
  {
  }

  /** PruneCacheForSymbol: deletes, entry by entry, the stale entries. */
  method PruneCacheForSymbol(cache: map<string, Record>, keepKey: string, symbolID: string, agentProfile: string)
    returns (r: map<string, Record>)
    ensures r == Pruned(cache, keepKey, symbolID, agentProfile)
  {
    r := cache;
    var rest := cache.Keys;
    while rest != {}
      invariant rest <= cache.Keys
      invariant forall k :: k in r <==> k in cache && (k in rest || !Stale(k, cache[k], keepKey, symbolID, agentProfile))
      invariant forall k :: k in r ==> r[k] == cache[k]
      decreases |rest|
    {
      var key :| key in rest;
      rest := rest - {key};
      var record := cache[key];
      if key == keepKey {
        continue;
      }
      if record.SymbolID != symbolID {
        continue;
      }
      var profile := record.AgentProfile;
      if profile == "" {
        profile := record.Agent;
      }
      if profile != agentProfile {
        continue;
      }
      r := r - {key};
    }
  }
}
