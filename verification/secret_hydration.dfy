/** The decision logic of `hydrateSecret` and `hydrateRawSecret` in
    dist/helper.js. The Secrets Manager calls are abstracted: the outcome of the
    read is an input, and the write the function would issue is the output. */
module SecretHydration {
  import opened Wrappers
  import opened Js

  /** A thrown JavaScript value, as far as `isResourceNotFoundError` can tell
      them apart. `name` is `Undefined` when the object has no such property. */
  datatype Thrown =
    | NullishThrown                  // `throw null` / `throw undefined`
    | PrimitiveThrown(truthy: bool)  // a thrown string, number or boolean
    | ObjectThrown(name: JsValue)    // an Error or other object

  const ResourceNotFound: string := "ResourceNotFoundException"

  /** What `JSON.parse` throws on malformed text. */
  const SyntaxErrorThrown: Thrown := ObjectThrown(Str("SyntaxError"))

  /** `!!error`, `typeof error === 'object'`, `'name' in error`. */
  predicate ThrownTruthy(e: Thrown) {
    match e
    case NullishThrown => false
    case PrimitiveThrown(t) => t
    case ObjectThrown(_) => true
  }

  predicate TypeofObject(e: Thrown) {
    e.ObjectThrown?
  }

  predicate HasName(e: Thrown) {
    e.ObjectThrown? && !e.name.Undefined?
  }

  /** `isResourceNotFoundError(error)`. */
  function IsResourceNotFoundError(e: Thrown): (r: bool)
    ensures r <==> e == ObjectThrown(Str(ResourceNotFound))
  {
    ThrownTruthy(e) && TypeofObject(e) && HasName(e) && e.name == Str(ResourceNotFound)
  }

  /** What the read (`GetSecretValueCommand`) returned. */
  datatype ReadOutcome =
    | Found(arn: string, secretString: Option<string>)
    | ReadFailed(error: Thrown)

  /** The single write the hydration issues, or its absence. */
  datatype Command<V> =
    | Create(name: string, value: V)
    | Update(secretId: string, value: V)
    | LeaveInPlace
    | Rethrow(error: Thrown)

  /** The `catch` block shared by both functions. */
  function OnError<V>(e: Thrown, secretName: string, value: V): (cmd: Command<V>)
    ensures cmd.Create? <==> IsResourceNotFoundError(e)
    ensures cmd.Create? ==> cmd == Create(secretName, value)
    ensures !cmd.Create? ==> cmd == Rethrow(e)
  {
    if IsResourceNotFoundError(e) then Create(secretName, value) else Rethrow(e)
  }

  /** Keys of an `Object.entries` list. */
  function EntryKeys(entries: seq<(string, string)>): set<string> {
    set i | 0 <= i < |entries| :: entries[i].0
  }

  /** `Object.entries` never lists a key twice. */
  predicate DistinctKeys(entries: seq<(string, string)>) {
    forall i, j :: 0 <= i < j < |entries| ==> entries[i].0 != entries[j].0
  }

  /** The object the entries came from. */
  function EntriesMap(entries: seq<(string, string)>): (m: map<string, string>)
    requires DistinctKeys(entries)
    ensures m.Keys == EntryKeys(entries)
    ensures forall i :: 0 <= i < |entries| ==> m[entries[i].0] == entries[i].1
  {
    map i | 0 <= i < |entries| :: entries[i].0 := entries[i].1
  }

  /** The merge loop exactly as written: `if (!(name in existingValue))`, where
      `in` also sees the members in `PrototypeKeys`. Returns the merged object and `anyChanged`. */
  function MergeAsWritten(existing: map<string, string>, defaults: seq<(string, string)>): (map<string, string>, bool)
    decreases |defaults|
  {
    if |defaults| == 0 then (existing, false)
    else
      var (name, value) := defaults[0];
      if name in existing || name in PrototypeKeys then MergeAsWritten(existing, defaults[1..])
      else
        var (merged, _) := MergeAsWritten(existing[name := value], defaults[1..]);
        (merged, true)
  }

  /** A default named after an inherited member is never written, although the
      stored secret lacks it. */
  lemma PrototypeNamedDefaultIsDropped()
    ensures MergeAsWritten(map[], [("toString", "x")]) == (map[], false)
  {
  }

  /** The merge as its comment intends: add every default key the stored secret
      does not itself hold, keep every stored value. */
  function Merge(existing: map<string, string>, defaults: seq<(string, string)>): (res: (map<string, string>, bool))
    requires DistinctKeys(defaults)
    ensures res.0.Keys == existing.Keys + EntryKeys(defaults)
    ensures forall k :: k in existing ==> res.0[k] == existing[k]
    ensures forall i :: 0 <= i < |defaults| && defaults[i].0 !in existing ==> res.0[defaults[i].0] == defaults[i].1
    ensures res.1 <==> exists i :: 0 <= i < |defaults| && defaults[i].0 !in existing
    decreases |defaults|
  {
    if |defaults| == 0 then (existing, false)
    else
      var (name, value) := defaults[0];
      var rest := defaults[1..];
      assert DistinctKeys(rest);
      assert forall i :: 1 <= i < |defaults| ==> defaults[i] == rest[i - 1];
      assert EntryKeys(defaults) == {name} + EntryKeys(rest) by {
        forall k | k in EntryKeys(defaults) ensures k in {name} + EntryKeys(rest) {
          var i :| 0 <= i < |defaults| && defaults[i].0 == k;
          if i > 0 { assert rest[i - 1].0 == k; }
        }
      }
      assert name !in EntryKeys(rest);
      if name in existing then Merge(existing, rest)
      else
        var (merged, _) := Merge(existing[name := value], rest);
        (merged, true)
  }

  /** One key of the corrected merge agrees with the right-biased union. */
  lemma MergeAgreesAt(existing: map<string, string>, defaults: seq<(string, string)>, k: string)
    requires DistinctKeys(defaults)
    ensures k in Merge(existing, defaults).0 <==> k in EntriesMap(defaults) + existing
    ensures k in existing ==> Merge(existing, defaults).0[k] == existing[k]
    ensures k !in existing && k in EntriesMap(defaults) ==> Merge(existing, defaults).0[k] == EntriesMap(defaults)[k]
  {
    if k !in existing && k in EntriesMap(defaults) {
      var i :| 0 <= i < |defaults| && defaults[i].0 == k;
    }
  }

  /** The corrected merge is the right-biased union: stored values win over
      defaults. */
  lemma MergeIsUnion(existing: map<string, string>, defaults: seq<(string, string)>)
    requires DistinctKeys(defaults)
    ensures Merge(existing, defaults).0 == EntriesMap(defaults) + existing
  {
    var m := Merge(existing, defaults).0;
    var u := EntriesMap(defaults) + existing;
    forall k ensures (k in m <==> k in u) && (k in m ==> m[k] == u[k]) {
      MergeAgreesAt(existing, defaults, k);
    }
  }

  /** The merge reports a change exactly when some default key is not stored. */
  lemma MergeChangesIffKeyMissing(existing: map<string, string>, defaults: seq<(string, string)>)
    requires DistinctKeys(defaults)
    ensures Merge(existing, defaults).1 <==> !(EntryKeys(defaults) <= existing.Keys)
  {
    if Merge(existing, defaults).1 {
      var i :| 0 <= i < |defaults| && defaults[i].0 !in existing;
      assert defaults[i].0 in EntryKeys(defaults);
    }
    if !(EntryKeys(defaults) <= existing.Keys) {
      var k :| k in EntryKeys(defaults) && k !in existing;
      var i :| 0 <= i < |defaults| && defaults[i].0 == k;
    }
  }

  /** Both merges agree unless a default is named after an inherited member. */
  lemma MergeAgreesOffPrototype(existing: map<string, string>, defaults: seq<(string, string)>)
    requires DistinctKeys(defaults)
    requires forall i :: 0 <= i < |defaults| ==> defaults[i].0 !in PrototypeKeys
    ensures MergeAsWritten(existing, defaults) == Merge(existing, defaults)
    decreases |defaults|
  {
    if |defaults| > 0 {
      var (name, value) := defaults[0];
      var rest := defaults[1..];
      assert DistinctKeys(rest);
      assert forall i :: 1 <= i < |defaults| ==> defaults[i] == rest[i - 1];
      if name in existing {
        MergeAgreesOffPrototype(existing, rest);
      } else {
        MergeAgreesOffPrototype(existing[name := value], rest);
      }
    }
  }

  /** `hydrateSecret(client, secretName, defaultValue)`. `parse` stands for
      `JSON.parse`; `None` means it threw. */
  function HydrateSecret(secretName: string, defaults: seq<(string, string)>, read: ReadOutcome,
                         parse: string -> Option<map<string, string>>): (cmd: Command<map<string, string>>)
    requires DistinctKeys(defaults)
    ensures read.ReadFailed? ==> cmd == OnError(read.error, secretName, EntriesMap(defaults))
    ensures cmd.Update? ==> read.Found? && cmd.secretId == read.arn
    ensures cmd.Create? ==> cmd == Create(secretName, EntriesMap(defaults))
    ensures read.Found? ==> cmd.Update? || cmd.LeaveInPlace? || cmd == Rethrow(SyntaxErrorThrown)
  {
    match read
    case ReadFailed(e) => OnError(e, secretName, EntriesMap(defaults))
    case Found(arn, text) =>
      var parsed := if text.Some? && text.value != "" then parse(text.value) else Some(map[]);
      match parsed
      case None => OnError(SyntaxErrorThrown, secretName, EntriesMap(defaults))
      case Some(existing) =>
        var (merged, anyChanged) := Merge(existing, defaults);
        if anyChanged then Update(arn, merged) else LeaveInPlace
  }

  /** On a stored JSON secret: an update is issued exactly when some default key
      is missing, it keeps every stored value, and adds exactly the missing keys. */
  lemma HydrateSecretUpdatesOnlyMissingKeys(secretName: string, defaults: seq<(string, string)>, arn: string,
                                            text: string, existing: map<string, string>,
                                            parse: string -> Option<map<string, string>>)
    requires DistinctKeys(defaults)
    requires text != "" && parse(text) == Some(existing)
    ensures var cmd := HydrateSecret(secretName, defaults, Found(arn, Some(text)), parse);
            && (cmd.Update? <==> !(EntryKeys(defaults) <= existing.Keys))
            && (!cmd.Update? ==> cmd.LeaveInPlace?)
            && (cmd.Update? ==> cmd == Update(arn, EntriesMap(defaults) + existing))
  {
    MergeIsUnion(existing, defaults);
    MergeChangesIffKeyMissing(existing, defaults);
  }

  /** A secret with no `SecretString`, or an empty one, is treated as `{}`: it is
      updated to exactly the defaults, unless there are none. */
  lemma HydrateSecretFillsEmptySecret(secretName: string, defaults: seq<(string, string)>, arn: string,
                                      text: Option<string>, parse: string -> Option<map<string, string>>)
    requires DistinctKeys(defaults)
    requires text.None? || text.value == ""
    ensures HydrateSecret(secretName, defaults, Found(arn, text), parse)
              == if |defaults| == 0 then LeaveInPlace else Update(arn, EntriesMap(defaults))
  {
    MergeIsUnion(map[], defaults);
    MergeChangesIffKeyMissing(map[], defaults);
    assert EntriesMap(defaults) + map[] == EntriesMap(defaults);
    if |defaults| > 0 {
      assert defaults[0].0 in EntryKeys(defaults);
    }
  }

  /** `hydrateRawSecret(client, secretName, secretValue)`. */
  function HydrateRawSecret(secretName: string, secretValue: string, read: ReadOutcome): (cmd: Command<string>)
    ensures read.ReadFailed? ==> cmd == OnError(read.error, secretName, secretValue)
    ensures read.Found? ==>
              (cmd == Update(read.arn, secretValue) <==> read.secretString.None? || read.secretString.value == "")
    ensures read.Found? ==> cmd.Update? || cmd.LeaveInPlace?
  {
    match read
    case ReadFailed(e) => OnError(e, secretName, secretValue)
    case Found(arn, existing) =>
      if existing.None? || existing.value == "" then Update(arn, secretValue) else LeaveInPlace
  }

  /** `hydrateSecret` with the merge loop as written, which sees inherited
      members; otherwise abstracted as `HydrateSecret` is. */
  function HydrateSecretAsWritten(secretName: string, defaults: seq<(string, string)>, read: ReadOutcome,
                                  parse: string -> Option<map<string, string>>): (cmd: Command<map<string, string>>)
    requires DistinctKeys(defaults)
    ensures read.ReadFailed? ==> cmd == OnError(read.error, secretName, EntriesMap(defaults))
    ensures cmd.Update? ==> read.Found? && cmd.secretId == read.arn
    ensures read.Found? ==> cmd.Update? || cmd.LeaveInPlace? || cmd == Rethrow(SyntaxErrorThrown)
  {
    match read
    case ReadFailed(e) => OnError(e, secretName, EntriesMap(defaults))
    case Found(arn, text) =>
      var parsed := if text.Some? && text.value != "" then parse(text.value) else Some(map[]);
      match parsed
      case None => OnError(SyntaxErrorThrown, secretName, EntriesMap(defaults))
      case Some(existing) =>
        var (merged, anyChanged) := MergeAsWritten(existing, defaults);
        if anyChanged then Update(arn, merged) else LeaveInPlace
  }

  /** The hydration as written and as corrected issue the same command whenever
      no default is named after an inherited member. */
  lemma HydrateSecretAsWrittenAgrees(secretName: string, defaults: seq<(string, string)>, read: ReadOutcome,
                                     parse: string -> Option<map<string, string>>)
    requires DistinctKeys(defaults)
    requires forall i :: 0 <= i < |defaults| ==> defaults[i].0 !in PrototypeKeys
    ensures HydrateSecretAsWritten(secretName, defaults, read, parse) == HydrateSecret(secretName, defaults, read, parse)
  {
    if read.Found? {
      var text := read.secretString;
      var parsed := if text.Some? && text.value != "" then parse(text.value) else Some(map[]);
      if parsed.Some? {
        MergeAgreesOffPrototype(parsed.value, defaults);
      }
    }
  }

  /** A secret with no value and a default named `toString`: as written the
      secret is left empty, as corrected it receives the default. */
  lemma HydrateSecretAsWrittenSkipsToString(parse: string -> Option<map<string, string>>)
    ensures HydrateSecretAsWritten("app", [("toString", "x")], Found("arn", None), parse) == LeaveInPlace
    ensures HydrateSecret("app", [("toString", "x")], Found("arn", None), parse) == Update("arn", map["toString" := "x"])
  {
    PrototypeNamedDefaultIsDropped();
    HydrateSecretFillsEmptySecret("app", [("toString", "x")], "arn", None, parse);
  }

  /** Hydration settles: once the secret holds what the previous run wrote
      (created or updated), the next run leaves it in place. */
  lemma HydrateSecretSettles(secretName: string, defaults: seq<(string, string)>, first: ReadOutcome,
                             arn: string, text: string, parse: string -> Option<map<string, string>>)
    requires DistinctKeys(defaults)
    requires var cmd := HydrateSecret(secretName, defaults, first, parse);
             (cmd.Create? || cmd.Update?) && text != "" && parse(text) == Some(cmd.value)
    ensures HydrateSecret(secretName, defaults, Found(arn, Some(text)), parse) == LeaveInPlace
  {
    var written := HydrateSecret(secretName, defaults, first, parse).value;
    assert EntryKeys(defaults) <= written.Keys by {
      if first.Found? {
        var t := first.secretString;
        var parsed := if t.Some? && t.value != "" then parse(t.value) else Some(map[]);
        assert written == Merge(parsed.value, defaults).0;
      }
    }
    MergeChangesIffKeyMissing(written, defaults);
  }

  /** The raw hydration settles too, except on an empty value, which reads back
      as missing and is written again on every run. */
  lemma HydrateRawSecretSettles(secretName: string, secretValue: string, first: ReadOutcome, arn: string)
    requires HydrateRawSecret(secretName, secretValue, first).Create? || HydrateRawSecret(secretName, secretValue, first).Update?
    ensures HydrateRawSecret(secretName, secretValue, Found(arn, Some(HydrateRawSecret(secretName, secretValue, first).value)))
              == if secretValue == "" then Update(arn, secretValue) else LeaveInPlace
  {
  }
}
