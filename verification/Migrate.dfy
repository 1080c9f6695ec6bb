/**
 Importing an app's snapshot from another device: keys whose schema cannot be handled
 are dropped, the two snapshots are resolved by their clocks and per-key policies, and
 conflicts on keys registered for merging are handed to the app. Hash maps are walked
 in an arbitrary order, so the results are stated independently of it. The second half
 follows the SDK's clock over whole runs and two devices that import each other's exports.
 */
module Migrate {
  import opened Basics
  import opened Octets
  import opened Clocks
  import opened KeyOrder

  datatype ConflictPolicy = LastWriteWins | AppMerge | KeepBoth

  datatype StateEntry = StateEntry(value: Bytes, policy: ConflictPolicy, schemaVersion: nat)

  type Keys = map<string, StateEntry>

  datatype Snapshot = Snapshot(device: string, clock: Clock, keys: Keys)

  datatype ConflictEntry = ConflictEntry(key: string, localValue: Bytes, remoteValue: Bytes, schemaVersion: nat)

  datatype Registration = Registration(policy: ConflictPolicy, schemaVersion: nat)

  type Registrations = map<string, Registration>

  /** Migrates a value of a key from an older schema; the app may refuse. */
  type Migrator = (string, nat, Bytes) -> Option<Bytes>

  /** Merges the local and the remote value of a key; the app may refuse. */
  type Merger = (string, Bytes, Bytes) -> Option<Bytes>

  // ---------------------------------------------------------------------
  // Schema versions
  // ---------------------------------------------------------------------

  datatype SchemaAction = Current | Migrate(fromVersion: nat) | TooNew(incoming: nat, local: nat)

  datatype Result<T, E> = Ok(value: T) | Err(error: E)

  datatype SchemaMismatch = SchemaMismatch(incoming: nat, local: nat)

  /** A newer value is an error, never the `TooNew` action. */
  function CheckSchemaVersion(incoming: nat, local: nat): (r: Result<SchemaAction, SchemaMismatch>)
    ensures r.Err? <==> local < incoming
    ensures r.Ok? ==> !r.value.TooNew? && (r.value.Current? <==> incoming == local)
    ensures r.Ok? && r.value.Migrate? ==> r.value.fromVersion == incoming < local
    ensures r.Err? ==> r.error == SchemaMismatch(incoming, local)
  {
    if incoming == local then Ok(Current)
    else if incoming > local then Err(SchemaMismatch(incoming, local))
    else Ok(Migrate(incoming))
  }

  /** What becomes of one remote entry: kept, migrated to the registered version, or dropped. */
  function Admitted(key: string, entry: StateEntry, registrations: Registrations,
        migrate: Migrator): Option<StateEntry> {
    if key !in registrations || registrations[key].schemaVersion == entry.schemaVersion then Some(entry)
    else if entry.schemaVersion > registrations[key].schemaVersion then None
    else
      match migrate(key, entry.schemaVersion, entry.value)
      case Some(value) => Some(StateEntry(value, entry.policy, registrations[key].schemaVersion))
      case None => None
  }

  function Filtered(keys: Keys, registrations: Registrations, migrate: Migrator): Keys {
    map k | k in keys && Admitted(k, keys[k], registrations, migrate).Some?
      :: Admitted(k, keys[k], registrations, migrate).value
  }

  function Refused(keys: Keys, among: set<string>, registrations: Registrations, migrate: Migrator): set<string>
    requires among <= keys.Keys
  {
    set k | k in among && Admitted(k, keys[k], registrations, migrate).None?
  }

  /** The body of the walk for one entry. */
  method AdmitEntry(key: string, entry: StateEntry, registrations: Registrations, migrate: Migrator)
      returns (admitted: Option<StateEntry>)
    ensures admitted == Admitted(key, entry, registrations, migrate)
  {
    if key !in registrations {
      return Some(entry);
    }
    var version := registrations[key].schemaVersion;
    match CheckSchemaVersion(entry.schemaVersion, version)
    case Ok(Current) => return Some(entry);
    case Ok(Migrate(fromVersion)) =>
      var migrated := migrate(key, fromVersion, entry.value);
      return if migrated.Some? then Some(entry.(value := migrated.value, schemaVersion := version)) else None;
    case Err(_) => return None;
  }

  lemma AppendFresh(keys: seq<string>, seen: set<string>, key: string)
    requires Distinct(keys) && SetOf(keys) == seen && key !in seen
    ensures Distinct(keys + [key]) && SetOf(keys + [key]) == seen + {key}
  {
    forall i | 0 <= i < |keys| ensures keys[i] != key {
      assert keys[i] in SetOf(keys);
    }
  }

  /** The walk over the remote keys: entries are changed in place, dropped keys are removed at the end. */
  method FilterSchemaKeys(remote: Keys, registrations: Registrations, migrate: Migrator)
      returns (kept: Keys, dropped: seq<string>)
    ensures kept == Filtered(remote, registrations, migrate)
    ensures Distinct(dropped) && SetOf(dropped) == remote.Keys - kept.Keys
  {
    kept, dropped := remote, [];
    var rest := remote.Keys;
    while rest != {}
      invariant rest <= remote.Keys && kept.Keys == remote.Keys
      invariant Distinct(dropped)
      invariant SetOf(dropped) == Refused(remote, remote.Keys - rest, registrations, migrate)
      invariant forall k | k in rest :: kept[k] == remote[k]
      invariant forall k | k in remote.Keys - rest && Admitted(k, remote[k], registrations, migrate).Some? ::
          kept[k] == Admitted(k, remote[k], registrations, migrate).value
      decreases rest
    {
      var key :| key in rest;
      ghost var seen := remote.Keys - rest;
      rest := rest - {key};
      assert remote.Keys - rest == seen + {key};
      var admitted := AdmitEntry(key, kept[key], registrations, migrate);
      match admitted
      case Some(entry) => kept := kept[key := entry];
      case None =>
        AppendFresh(dropped, SetOf(dropped), key);
        dropped := dropped + [key];
    }
    kept := RemoveKeys(kept, dropped);
  }

  method RemoveKeys(keys: Keys, dropped: seq<string>) returns (kept: Keys)
    ensures kept == keys - SetOf(dropped)
  {
    kept := keys;
    var i := 0;
    while i < |dropped|
      invariant 0 <= i <= |dropped|
      invariant kept == keys - SetOf(dropped[..i])
    {
      assert SetOf(dropped[..i + 1]) == SetOf(dropped[..i]) + {dropped[i]};
      kept := kept - {dropped[i]};
      i := i + 1;
    }
    assert dropped[..i] == dropped;
  }

  /**
   What becomes of one key: an unregistered one and one at the registered version stay as they are, an older one is
   stored as the app migrates it from its own version, and one the app refuses or that is newer is dropped.
   */
  lemma FilteredExactly(keys: Keys, registrations: Registrations, migrate: Migrator, key: string)
    requires key in keys
    ensures var kept, entry := Filtered(keys, registrations, migrate), keys[key];
            if key !in registrations || entry.schemaVersion == registrations[key].schemaVersion then
              key in kept && kept[key] == entry
            else if entry.schemaVersion < registrations[key].schemaVersion then
              var migrated := migrate(key, entry.schemaVersion, entry.value);
              if migrated.None? then key !in kept
              else key in kept
                   && kept[key] == StateEntry(migrated.value, entry.policy, registrations[key].schemaVersion)
            else key !in kept
  {
  }

  /** What passes the filter is at the registered version, and a second pass drops and changes nothing. */
  lemma FilteredIsCurrent(keys: Keys, registrations: Registrations, migrate: Migrator)
    ensures var kept := Filtered(keys, registrations, migrate);
            && (forall k | k in kept && k in registrations :: kept[k].schemaVersion == registrations[k].schemaVersion)
            && (forall k | k in kept :: kept[k].policy == keys[k].policy)
            && Filtered(kept, registrations, migrate) == kept
  {
  }

  /** A snapshot passes the filter as it is exactly when its registered keys are at the registered versions. */
  lemma CurrentPasses(keys: Keys, registrations: Registrations, migrate: Migrator)
    ensures Filtered(keys, registrations, migrate) == keys
       <==> forall k | k in keys && k in registrations :: keys[k].schemaVersion == registrations[k].schemaVersion
  {
    var kept := Filtered(keys, registrations, migrate);
    if kept == keys {
      forall k | k in keys && k in registrations ensures keys[k].schemaVersion == registrations[k].schemaVersion {
        assert k in kept && kept[k] == keys[k];
      }
    }
  }

  // ---------------------------------------------------------------------
  // Resolving two snapshots
  // ---------------------------------------------------------------------

  function Resolved(local: Snapshot, remote: Snapshot): Keys {
    match Compare(local.clock, remote.clock)
    case Dominates => remote.keys + local.keys
    case Equal => remote.keys + local.keys
    case DominatedBy => remote.keys
    case Concurrent => ResolvedByKey(local.keys, remote.keys)
  }

  function ResolvedByKey(local: Keys, remote: Keys): Keys {
    map k | k in local.Keys + remote.Keys ::
      if k !in local || (k in remote && remote[k].policy.LastWriteWins?) then remote[k] else local[k]
  }

  function Conflicts(local: Snapshot, remote: Snapshot): map<string, ConflictEntry> {
    if Compare(local.clock, remote.clock).Concurrent? then ConflictsByKey(local.keys, remote.keys) else map[]
  }

  /** The conflicts by key: held by both sides and not left to the last write. */
  function ConflictsByKey(local: Keys, remote: Keys): map<string, ConflictEntry> {
    map k | k in local && k in remote && !remote[k].policy.LastWriteWins?
      :: ConflictEntry(k, local[k].value, remote[k].value, remote[k].schemaVersion)
  }

  /** The list holds every entry of the map once and nothing else. */
  ghost predicate Lists(list: seq<ConflictEntry>, entries: map<string, ConflictEntry>) {
    && (forall c | c in list :: c.key in entries && entries[c.key] == c)
    && (forall k | k in entries :: entries[k].key == k && entries[k] in list)
    && (forall i, j | 0 <= i < j < |list| :: list[i].key != list[j].key)
  }

  /** One loop per case of the clock comparison; the local entry is looked up in the map being built. */
  method ResolveConflicts(local: Snapshot, remote: Snapshot) returns (resolved: Keys, conflicts: seq<ConflictEntry>)
    ensures resolved == Resolved(local, remote)
    ensures Lists(conflicts, Conflicts(local, remote))
  {
    var order := CompareClocks(local.clock, remote.clock);
    conflicts := [];
    if order.DominatedBy? {
      return remote.keys, [];
    }
    if order.Dominates? || order.Equal? {
      resolved := AddMissing(local.keys, remote.keys);
      return resolved, [];
    }
    resolved, conflicts := ResolveByKey(local.keys, remote.keys);
  }

  /** The walk of the concurrent case. */
  method ResolveByKey(local: Keys, remote: Keys) returns (resolved: Keys, conflicts: seq<ConflictEntry>)
    ensures resolved == ResolvedByKey(local, remote)
    ensures Lists(conflicts, ConflictsByKey(local, remote))
  {
    resolved, conflicts := local, [];
    var rest := remote.Keys;
    assert ConflictsByKey(local, remote) - rest == map[];
    while rest != {}
      invariant rest <= remote.Keys
      invariant resolved == ResolvedByKey(local, remote - rest)
      invariant Lists(conflicts, ConflictsByKey(local, remote) - rest)
      decreases rest
    {
      var key :| key in rest;
      var entry := remote[key];
      ResolveOne(local, remote, rest, key);
      if key !in resolved || entry.policy.LastWriteWins? {
        resolved := resolved[key := entry];
      } else {
        var conflict := ConflictEntry(key, resolved[key].value, entry.value, entry.schemaVersion);
        ListsAppend(conflicts, ConflictsByKey(local, remote) - rest, conflict);
        conflicts := conflicts + [conflict];
      }
      rest := rest - {key};
    }
    assert remote - rest == remote;
    assert ConflictsByKey(local, remote) - rest == ConflictsByKey(local, remote);
  }

  /** One more remote key: either it is written, or it stays local and becomes a conflict. */
  lemma ResolveOne(local: Keys, remote: Keys, rest: set<string>, key: string)
    requires key in rest && rest <= remote.Keys
    ensures var written := key !in local || remote[key].policy.LastWriteWins?;
            var resolved, conflicts := ResolvedByKey(local, remote - rest), ConflictsByKey(local, remote) - rest;
            && (key in resolved <==> key in local) && (key in local ==> resolved[key] == local[key])
            && ResolvedByKey(local, remote - (rest - {key}))
               == (if written then resolved[key := remote[key]] else resolved)
            && ConflictsByKey(local, remote) - (rest - {key})
               == (if written then conflicts
                   else
                     var mine, theirs := local[key], remote[key];
                     conflicts[key := ConflictEntry(key, mine.value, theirs.value, theirs.schemaVersion)])
  {
    assert (remote - (rest - {key})) == (remote - rest)[key := remote[key]];
  }

  method AddMissing(local: Keys, remote: Keys) returns (resolved: Keys)
    ensures resolved == remote + local
  {
    resolved := local;
    var rest := remote.Keys;
    while rest != {}
      invariant rest <= remote.Keys
      invariant resolved == (remote - rest) + local
      decreases rest
    {
      var key :| key in rest;
      rest := rest - {key};
      if key !in resolved {
        resolved := resolved[key := remote[key]];
      }
    }
  }

  lemma ListsAppend(list: seq<ConflictEntry>, entries: map<string, ConflictEntry>, c: ConflictEntry)
    requires Lists(list, entries) && c.key !in entries
    ensures Lists(list + [c], entries[c.key := c])
  {
    var longer := list + [c];
    var more := entries[c.key := c];
    assert longer[|list|] == c;
    forall k | k in more ensures more[k].key == k && more[k] in longer {
      if k != c.key { assert entries[k] in list; }
    }
  }

  // ---------------------------------------------------------------------
  // Merging the conflicts of registered keys
  // ---------------------------------------------------------------------

  predicate Mergeable(key: string, registrations: Registrations) {
    key in registrations && registrations[key].policy.AppMerge?
  }

  function ToMerge(conflicts: map<string, ConflictEntry>, registrations: Registrations): set<string> {
    set k | k in conflicts && Mergeable(k, registrations)
  }

  function Merged(c: ConflictEntry, merge: Merger): Option<Bytes> {
    merge(c.key, c.localValue, c.remoteValue)
  }

  predicate AllMerge(conflicts: map<string, ConflictEntry>, keys: set<string>, merge: Merger) {
    forall k | k in conflicts && k in keys :: Merged(conflicts[k], merge).Some?
  }

  /** The resolved keys with the merged values of `keys` written over them. */
  function Overlaid(resolved: Keys, conflicts: map<string, ConflictEntry>, keys: set<string>, merge: Merger): Keys
    requires keys <= conflicts.Keys && AllMerge(conflicts, keys, merge)
  {
    map k | k in resolved.Keys + keys ::
      if k in keys then StateEntry(Merged(conflicts[k], merge).value, AppMerge, conflicts[k].schemaVersion)
      else resolved[k]
  }

  /** Removing by swapping with the last element. */
  function SwapRemove<T>(list: seq<T>, i: nat): (r: seq<T>)
    requires i < |list|
    ensures |r| == |list| - 1
  {
    list[i := list[|list| - 1]][..|list| - 1]
  }

  lemma SwapRemoveAt<T>(list: seq<T>, i: nat, j: nat)
    requires i < |list| && j < |list| - 1
    ensures SwapRemove(list, i)[j] == if j == i then list[|list| - 1] else list[j]
  {
  }

  /** Everything but the removed element is still there. */
  lemma SwapRemoveKeeps<T>(list: seq<T>, i: nat, j: nat)
    requires i < |list| && j < |list| && j != i
    ensures list[j] in SwapRemove(list, i)
  {
    var at := if j == |list| - 1 then i else j;
    SwapRemoveAt(list, i, at);
    assert SwapRemove(list, i)[at] == list[j];
  }

  lemma SwapRemoveLists(list: seq<ConflictEntry>, entries: map<string, ConflictEntry>, i: nat)
    requires Lists(list, entries) && i < |list|
    ensures Lists(SwapRemove(list, i), entries - {list[i].key})
  {
    var r, last := SwapRemove(list, i), |list| - 1;
    forall j | 0 <= j < last ensures r[j] == list[if j == i then last else j] {
      SwapRemoveAt(list, i, j);
    }
    assert forall j | 0 <= j < last :: r[j] in list && r[j].key != list[i].key;
    forall k | k in entries - {list[i].key} ensures entries[k] in r {
      var j :| 0 <= j < |list| && list[j] == entries[k];
      SwapRemoveKeeps(list, i, j);
    }
  }

  lemma OverlaidOne(resolved: Keys, entries: map<string, ConflictEntry>, done: set<string>, c: ConflictEntry,
        merge: Merger)
    requires done <= entries.Keys && AllMerge(entries, done, merge)
    requires c.key in entries && entries[c.key] == c && Merged(c, merge).Some?
    ensures AllMerge(entries, done + {c.key}, merge)
    ensures Overlaid(resolved, entries, done + {c.key}, merge)
            == Overlaid(resolved, entries, done, merge)
               [c.key := StateEntry(Merged(c, merge).value, AppMerge, c.schemaVersion)]
  {
  }

  /** The merge loop. It stops at the first merge the app refuses. */
  method MergeRegistered(found: seq<ConflictEntry>, resolved: Keys, registrations: Registrations, merge: Merger,
                         ghost entries: map<string, ConflictEntry>)
      returns (ok: bool, keys: Keys, conflicts: seq<ConflictEntry>, ghost calls: seq<string>)
    requires Lists(found, entries)
    ensures Distinct(calls) && SetOf(calls) <= ToMerge(entries, registrations)
    ensures ok <==> AllMerge(entries, ToMerge(entries, registrations), merge)
    ensures ok ==> SetOf(calls) == ToMerge(entries, registrations)
    ensures ok ==> keys == Overlaid(resolved, entries, ToMerge(entries, registrations), merge)
    ensures ok ==> Lists(conflicts, entries - ToMerge(entries, registrations))
  {
    keys, conflicts, calls := resolved, found, [];
    ghost var done: set<string> := {};
    var i := 0;
    assert entries - done == entries;
    while i < |conflicts|
      invariant 0 <= i <= |conflicts|
      invariant Distinct(calls) && SetOf(calls) == done <= ToMerge(entries, registrations)
      invariant AllMerge(entries, done, merge) && keys == Overlaid(resolved, entries, done, merge)
      invariant Lists(conflicts, entries - done)
      invariant forall j | 0 <= j < i :: !Mergeable(conflicts[j].key, registrations)
      decreases |conflicts| - i
    {
      var c := conflicts[i];
      assert c in conflicts;
      if Mergeable(c.key, registrations) {
        AppendFresh(calls, done, c.key);
        calls := calls + [c.key];
        var merged := merge(c.key, c.localValue, c.remoteValue);
        if merged.None? {
          assert Merged(entries[c.key], merge).None?;
          return false, keys, conflicts, calls;
        }
        OverlaidOne(resolved, entries, done, c, merge);
        keys := keys[c.key := StateEntry(merged.value, AppMerge, c.schemaVersion)];
        SwapRemoveLists(conflicts, entries - done, i);
        assert entries - done - {c.key} == entries - (done + {c.key});
        conflicts, done := SwapRemove(conflicts, i), done + {c.key};
      } else {
        i := i + 1;
      }
    }
    NoneLeftToMerge(conflicts, entries, done, registrations);
    ok := true;
  }

  lemma NoneLeftToMerge(conflicts: seq<ConflictEntry>, entries: map<string, ConflictEntry>, done: set<string>,
                        registrations: Registrations)
    requires Lists(conflicts, entries - done) && done <= ToMerge(entries, registrations)
    requires forall j | 0 <= j < |conflicts| :: !Mergeable(conflicts[j].key, registrations)
    ensures done == ToMerge(entries, registrations)
  {
    forall k | k in entries - done ensures k !in ToMerge(entries, registrations) {
      assert (entries - done)[k] in conflicts;
    }
  }

  // ---------------------------------------------------------------------
  // What an import does to the values of both sides
  // ---------------------------------------------------------------------

  /** The keys handed to the app for the remote snapshot that passed the schema filter. */
  function ImportedKeys(local: Snapshot, remote: Snapshot, registrations: Registrations, merge: Merger): Keys
    requires var all := Conflicts(local, remote); AllMerge(all, ToMerge(all, registrations), merge)
  {
    var all := Conflicts(local, remote);
    Overlaid(Resolved(local, remote), all, ToMerge(all, registrations), merge)
  }

  /** The entry of a key after the app merged both sides' values. */
  ghost predicate MergedEntry(entry: StateEntry, local: StateEntry, remote: StateEntry, key: string, merge: Merger) {
    merge(key, local.value, remote.value) == Some(entry.value)
  }

  /**
   A local value leaves the app only when the remote snapshot is strictly newer, when a concurrent remote
   entry is marked last-write-wins, or when the app merged it.
   */
  lemma LocalValuesSurvive(local: Snapshot, remote: Snapshot, registrations: Registrations, merge: Merger, key: string)
    requires key in local.keys
    requires var all := Conflicts(local, remote); AllMerge(all, ToMerge(all, registrations), merge)
    ensures var final, order := ImportedKeys(local, remote, registrations, merge), Compare(local.clock, remote.clock);
            || (key in final && final[key] == local.keys[key])
            || order.DominatedBy?
            || (&& order.Concurrent? && key in remote.keys && key in final
                && (if remote.keys[key].policy.LastWriteWins? then final[key] == remote.keys[key]
                    else && Mergeable(key, registrations)
                         && MergedEntry(final[key], local.keys[key], remote.keys[key], key, merge)))
  {
  }

  /**
   An admitted remote value is stored, unless the local snapshot is at least as new and has the key, or the
   value is reported as an open conflict, or the app merged it.
   */
  lemma RemoteValuesAreAccountedFor(local: Snapshot, remote: Snapshot, registrations: Registrations, merge: Merger,
        key: string)
    requires key in remote.keys
    requires var all := Conflicts(local, remote); AllMerge(all, ToMerge(all, registrations), merge)
    ensures var final, all := ImportedKeys(local, remote, registrations, merge), Conflicts(local, remote);
            var open := all - ToMerge(all, registrations);
            && key in final
            && (|| final[key] == remote.keys[key]
                || (&& Compare(local.clock, remote.clock) in {Dominates, Equal}
                    && key in local.keys && final[key] == local.keys[key])
                || (key in open && open[key].remoteValue == remote.keys[key].value && final[key] == local.keys[key])
                || (key in all && MergedEntry(final[key], local.keys[key], remote.keys[key], key, merge)))
  {
  }

  // ---------------------------------------------------------------------
  // The SDK
  // ---------------------------------------------------------------------

  type Handler = (Bytes, Bytes) -> Option<Bytes>

  /** A handler registered for the key is preferred to the app's own merge. */
  function Preferring(handlers: map<string, Handler>, app: Merger): Merger {
    (key: string, local: Bytes, remote: Bytes) =>
      if key in handlers then handlers[key](local, remote) else app(key, local, remote)
  }

  datatype Sdk = Sdk(device: string, registrations: Registrations, handlers: map<string, Handler>, clock: Clock)

  function NewSdk(device: string): Sdk { Sdk(device, map[], map[], map[]) }

  datatype Call =
    | Register(key: string, registration: Registration)
    | Handle(key: string, handler: Handler)
    | Export(exported: Snapshot)
    | Import(local: Snapshot, remote: Snapshot, migrate: Migrator, appMerge: Merger)

  /** What a call leaves; an import throws the merged clock away. */
  function Called(s: Sdk, call: Call): Sdk {
    match call
    case Register(key, registration) =>
      s.(registrations := s.registrations[key := registration], clock := Increment(s.clock, s.device))
    case Handle(key, handler) => s.(handlers := s.handlers[key := handler])
    case Export(_) => s.(clock := Increment(s.clock, s.device))
    case Import(_, _, _, _) => s
  }

  /** The app's own export, stamped with the SDK's device and its next clock. */
  function Stamped(s: Sdk, exported: Snapshot): Snapshot {
    Snapshot(s.device, Increment(s.clock, s.device), exported.keys)
  }

  function Run(s: Sdk, calls: seq<Call>): Sdk
    decreases |calls|
  {
    if calls == [] then s else Run(Called(s, calls[0]), calls[1..])
  }

  /** The snapshots a run hands out, in order. */
  function Exports(s: Sdk, calls: seq<Call>): seq<Snapshot>
    decreases |calls|
  {
    if calls == [] then []
    else
      var rest := Exports(Called(s, calls[0]), calls[1..]);
      if calls[0].Export? then [Stamped(s, calls[0].exported)] + rest else rest
  }

  /** The calls that move the clock. */
  function Ticks(calls: seq<Call>): nat {
    if calls == [] then 0 else (if calls[0].Register? || calls[0].Export? then 1 else 0) + Ticks(calls[1..])
  }

  /** A device that imports another's snapshot: its SDK, and its app's own state under the app's own clock. */
  datatype Device = Device(sdk: Sdk, own: Snapshot, migrate: Migrator, appMerge: Merger)

  function MergerOf(d: Device): Merger { Preferring(d.sdk.handlers, d.appMerge) }

  /** What passes the device's schema filter. */
  function Passing(d: Device, remote: Snapshot): Snapshot {
    remote.(keys := Filtered(remote.keys, d.sdk.registrations, d.migrate))
  }

  /** The merges the device needs succeed. */
  predicate CanImport(d: Device, remote: Snapshot) {
    var all := Conflicts(d.own, Passing(d, remote));
    AllMerge(all, ToMerge(all, d.sdk.registrations), MergerOf(d))
  }

  /** The app's keys after the import; one that fails leaves them alone. */
  function After(d: Device, remote: Snapshot): Keys {
    if CanImport(d, remote) then ImportedKeys(d.own, Passing(d, remote), d.sdk.registrations, MergerOf(d))
    else d.own.keys
  }

  datatype ImportResult =
    | Imported(state: Snapshot, conflicts: seq<ConflictEntry>, dropped: seq<string>)
    | MergeFailed

  class MigrateSdk {
    const device: string
    var registrations: Registrations
    var handlers: map<string, Handler>
    var clock: Clock

    constructor (device: string)
      ensures Now() == NewSdk(device)
    {
      this.device, registrations, handlers, clock := device, map[], map[], map[];
    }

    function Now(): Sdk
      reads this
    {
      Sdk(device, registrations, handlers, clock)
    }

    method RegisterKey(key: string, policy: ConflictPolicy, schemaVersion: nat)
      modifies `registrations, `clock
      ensures Now() == Called(old(Now()), Register(key, Registration(policy, schemaVersion)))
    {
      registrations := registrations[key := Registration(policy, schemaVersion)];
      clock := Increment(clock, device);
    }

    method SetMergeHandler(key: string, handler: Handler)
      modifies `handlers
      ensures Now() == Called(old(Now()), Handle(key, handler))
    {
      handlers := handlers[key := handler];
    }

    /** `exported` is what the app hands out; the SDK stamps it with its own device and clock. */
    method ExportSnapshot(exported: Snapshot) returns (snapshot: Snapshot)
      modifies `clock
      ensures Now() == Called(old(Now()), Export(exported))
      ensures snapshot == Stamped(old(Now()), exported)
      ensures snapshot.clock == clock && Compare(snapshot.clock, old(clock)).Dominates?
    {
      IncrementIsFresh(clock, device, clock);
      LeqIsPointwise(clock, clock);
      clock := Increment(clock, device);
      snapshot := exported.(device := device, clock := clock);
    }

    /** `local` is the app's own export; on success `state` is what the app is given. The SDK does not change. */
    method ImportSnapshot(local: Snapshot, remote: Snapshot, migrate: Migrator, appMerge: Merger)
        returns (r: ImportResult)
      ensures Called(Now(), Import(local, remote, migrate, appMerge)) == Now()
      ensures var d := Device(Now(), local, migrate, appMerge);
              var kept := Passing(d, remote);
              var all := Conflicts(local, kept);
              && (r.Imported? <==> CanImport(d, remote))
              && (r.Imported? ==>
                    && r.state == Snapshot(device, clock, After(d, remote))
                    && Lists(r.conflicts, all - ToMerge(all, registrations))
                    && Distinct(r.dropped) && SetOf(r.dropped) == remote.keys.Keys - kept.keys.Keys)
    {
      var filtered, dropped := FilterSchemaKeys(remote.keys, registrations, migrate);
      var kept := remote.(keys := filtered);
      var resolved, found := ResolveConflicts(local, kept);
      var ok, keys, conflicts, calls :=
        MergeRegistered(found, resolved, registrations, Preferring(handlers, appMerge), Conflicts(local, kept));
      if !ok {
        return MergeFailed;
      }
      var _ := MergeClocks(clock, kept.clock); // the result is not kept
      r := Imported(Snapshot(device, clock, keys), conflicts, dropped);
    }
  }

  // ---------------------------------------------------------------------
  // Which merges an import calls
  // ---------------------------------------------------------------------

  /** The two sides conflict on the key, and the device registered it for merging. */
  predicate NeedsMerge(d: Device, remote: Snapshot, key: string) {
    && Compare(d.own.clock, remote.clock).Concurrent? && key in d.own.keys && key in Passing(d, remote).keys
    && !remote.keys[key].policy.LastWriteWins?
    && key in d.sdk.registrations && d.sdk.registrations[key].policy.AppMerge?
  }

  /** The handler registered for the key, if there is one, and the app's own merge otherwise. */
  function MergeCall(d: Device, remote: Snapshot, key: string): Option<Bytes>
    requires NeedsMerge(d, remote, key)
  {
    var mine, theirs := d.own.keys[key].value, Passing(d, remote).keys[key].value;
    if key in d.sdk.handlers then d.sdk.handlers[key](mine, theirs) else d.appMerge(key, mine, theirs)
  }

  lemma ToMergeExactly(d: Device, remote: Snapshot, key: string)
    ensures var all := Conflicts(d.own, Passing(d, remote));
            && (key in ToMerge(all, d.sdk.registrations) <==> NeedsMerge(d, remote, key))
            && (NeedsMerge(d, remote, key) ==> Merged(all[key], MergerOf(d)) == MergeCall(d, remote, key))
  {
  }

  /** An import succeeds exactly when none of these calls refuses, and then stores what each of them returned. */
  lemma ImportMergesExactly(d: Device, remote: Snapshot)
    ensures CanImport(d, remote)
       <==> forall k | k in d.own.keys && NeedsMerge(d, remote, k) :: MergeCall(d, remote, k).Some?
    ensures CanImport(d, remote) ==> forall k | k in d.own.keys && NeedsMerge(d, remote, k) ::
              && k in After(d, remote) && MergeCall(d, remote, k).Some?
              && After(d, remote)[k]
                 == StateEntry(MergeCall(d, remote, k).value, AppMerge, Passing(d, remote).keys[k].schemaVersion)
  {
    var all := Conflicts(d.own, Passing(d, remote));
    forall k ensures k in ToMerge(all, d.sdk.registrations) <==> NeedsMerge(d, remote, k) {
      ToMergeExactly(d, remote, k);
    }
    forall k | NeedsMerge(d, remote, k) ensures Merged(all[k], MergerOf(d)) == MergeCall(d, remote, k) {
      ToMergeExactly(d, remote, k);
    }
  }

  /** The conflicts it reports are the others: both values, and the version of the one that came. */
  lemma ReportedExactly(d: Device, remote: Snapshot, key: string)
    ensures var all := Conflicts(d.own, Passing(d, remote));
            var reported := all - ToMerge(all, d.sdk.registrations);
            && (key in reported
                <==> && Compare(d.own.clock, remote.clock).Concurrent? && key in d.own.keys
                     && key in Passing(d, remote).keys && !remote.keys[key].policy.LastWriteWins?
                     && !NeedsMerge(d, remote, key))
            && (key in reported ==>
                  && reported[key].key == key && reported[key].localValue == d.own.keys[key].value
                  && reported[key].remoteValue == Passing(d, remote).keys[key].value
                  && reported[key].schemaVersion == Passing(d, remote).keys[key].schemaVersion)
  {
    ToMergeExactly(d, remote, key);
  }

  /** Over every run the handler in force for a key is the one set last, and so is the registration. */
  lemma {:induction false} LastOneCounts(s: Sdk, first: Call, later: seq<Call>)
    requires first.Handle? || first.Register?
    requires forall call | call in later ::
               if first.Handle? then !(call.Handle? && call.key == first.key)
               else !(call.Register? && call.key == first.key)
    ensures var after := Run(Called(s, first), later);
            if first.Handle? then first.key in after.handlers && after.handlers[first.key] == first.handler
            else first.key in after.registrations && after.registrations[first.key] == first.registration
    decreases |later|
  {
    KeepsUntilReplaced(Called(s, first), first.key, later);
  }

  lemma {:induction false} KeepsUntilReplaced(s: Sdk, key: string, calls: seq<Call>)
    ensures key in s.handlers && (forall call | call in calls :: !(call.Handle? && call.key == key)) ==>
              key in Run(s, calls).handlers && Run(s, calls).handlers[key] == s.handlers[key]
    ensures key in s.registrations && (forall call | call in calls :: !(call.Register? && call.key == key)) ==>
              key in Run(s, calls).registrations && Run(s, calls).registrations[key] == s.registrations[key]
    decreases |calls|
  {
    if calls != [] {
      assert calls[0] in calls && forall call | call in calls[1..] :: call in calls;
      KeepsUntilReplaced(Called(s, calls[0]), key, calls[1..]);
    }
  }

  // ---------------------------------------------------------------------
  // The stamps of a run
  // ---------------------------------------------------------------------

  /** A clock with no counter but the device's own. */
  function OwnCounter(device: string, n: nat): Clock { if n == 0 then map[] else map[device := n] }

  lemma {:induction false} RunTicks(s: Sdk, calls: seq<Call>, n: nat)
    requires s.clock == OwnCounter(s.device, n)
    ensures Run(s, calls).device == s.device && Run(s, calls).clock == OwnCounter(s.device, n + Ticks(calls))
    decreases |calls|
  {
    if calls != [] {
      RunTicks(Called(s, calls[0]), calls[1..], n + Ticks(calls) - Ticks(calls[1..]));
    }
  }

  /** Whatever was imported, an SDK's clock counts its own registrations and exports and nothing else. */
  lemma ClockIsOwnCounter(device: string, calls: seq<Call>)
    ensures Run(NewSdk(device), calls).clock == OwnCounter(device, Ticks(calls))
  {
    RunTicks(NewSdk(device), calls, 0);
  }

  lemma {:induction false} ExportTicks(s: Sdk, calls: seq<Call>, n: nat)
    requires s.clock == OwnCounter(s.device, n)
    ensures forall e | e in Exports(s, calls) ::
              e.device == s.device && Get(e.clock, s.device) > n
              && e.clock == OwnCounter(s.device, Get(e.clock, s.device))
    decreases |calls|
  {
    if calls != [] {
      ExportTicks(Called(s, calls[0]), calls[1..], if calls[0].Register? || calls[0].Export? then n + 1 else n);
    }
  }

  lemma {:induction false} ExportTicksGrow(s: Sdk, calls: seq<Call>, n: nat, i: nat, j: nat)
    requires s.clock == OwnCounter(s.device, n) && i < j < |Exports(s, calls)|
    ensures Get(Exports(s, calls)[i].clock, s.device) < Get(Exports(s, calls)[j].clock, s.device)
    decreases |calls|
  {
    var next, m := Called(s, calls[0]), if calls[0].Register? || calls[0].Export? then n + 1 else n;
    if !calls[0].Export? {
      ExportTicksGrow(next, calls[1..], m, i, j);
    } else if i > 0 {
      ExportTicksGrow(next, calls[1..], m, i - 1, j - 1);
    } else {
      ExportTicks(next, calls[1..], m);
      assert Exports(s, calls)[j] in Exports(next, calls[1..]);
    }
  }

  /** How any clock compares with the stamp of an export, by the counters it holds. */
  lemma OrderAgainstStamp(own: Clock, device: string, n: nat)
    requires n > 0
    ensures Leq(OwnCounter(device, n), own) <==> n <= Get(own, device)
    ensures Leq(own, OwnCounter(device, n))
       <==> Get(own, device) <= n && forall d | d in own && d != device :: own[d] == 0
  {
    var stamp := OwnCounter(device, n);
    assert device in stamp && stamp[device] == n;
    if Leq(own, stamp) {
      LeqAt(own, stamp, device);
      forall d | d in own && d != device ensures own[d] == 0 {
        LeqAt(own, stamp, d);
      }
    }
  }

  /** Exports of two devices never know of each other, whatever the devices imported before. */
  lemma ExportsOfTwoDevicesAreConcurrent(a: string, b: string, first: seq<Call>, second: seq<Call>, i: nat, j: nat)
    requires a != b && i < |Exports(NewSdk(a), first)| && j < |Exports(NewSdk(b), second)|
    ensures Compare(Exports(NewSdk(a), first)[i].clock, Exports(NewSdk(b), second)[j].clock).Concurrent?
  {
    ExportTicks(NewSdk(a), first, 0);
    ExportTicks(NewSdk(b), second, 0);
    var e, f := Exports(NewSdk(a), first)[i].clock, Exports(NewSdk(b), second)[j].clock;
    assert Exports(NewSdk(a), first)[i] in Exports(NewSdk(a), first);
    assert Exports(NewSdk(b), second)[j] in Exports(NewSdk(b), second);
    OrderAgainstStamp(e, b, Get(f, b));
    OrderAgainstStamp(f, a, Get(e, a));
  }

  /** And a later export of the same SDK dominates an earlier one. */
  lemma LaterExportDominates(device: string, calls: seq<Call>, i: nat, j: nat)
    requires i < j < |Exports(NewSdk(device), calls)|
    ensures Compare(Exports(NewSdk(device), calls)[j].clock, Exports(NewSdk(device), calls)[i].clock).Dominates?
  {
    var exports := Exports(NewSdk(device), calls);
    ExportTicks(NewSdk(device), calls, 0);
    ExportTicksGrow(NewSdk(device), calls, 0, i, j);
    assert exports[i] in exports && exports[j] in exports;
    OrderAgainstStamp(exports[j].clock, device, Get(exports[i].clock, device));
  }

  // ---------------------------------------------------------------------
  // Two devices import each other's exports
  // ---------------------------------------------------------------------

  function Exported(d: Device): Snapshot { Stamped(d.sdk, d.own) }

  /** The comparison that decides an import: the app's own clock against the stamp of the other SDK. */
  function OrderOf(d: Device, other: Device): ClockOrder { Compare(d.own.clock, Exported(other).clock) }

  /** The import replaces the device's keys as a whole. */
  predicate Takes(d: Device, other: Device) { OrderOf(d, other).DominatedBy? }

  /**
   That order, for an SDK after any run: the app keeps its own entries exactly when its clock holds the other's
   tick, and gives them all up exactly when it holds nothing but older ticks of the other.
   */
  lemma OrderAfterRun(d: Device, other: Device, device: string, calls: seq<Call>)
    requires other.sdk == Run(NewSdk(device), calls)
    ensures var n, reported := Ticks(calls) + 1, d.own.clock;
            && Exported(other).clock == OwnCounter(device, n)
            && (OrderOf(d, other) in {Dominates, Equal} <==> n <= Get(reported, device))
            && (Takes(d, other) <==>
                  Get(reported, device) < n && forall e | e in reported && e != device :: reported[e] == 0)
  {
    RunTicks(NewSdk(device), calls, 0);
    OrderAgainstStamp(d.own.clock, device, Ticks(calls) + 1);
  }

  /** What is left of an entry of the other device after the schema filter. */
  function Received(d: Device, other: Device, key: string): Option<StateEntry>
    requires key in other.own.keys
  {
    Admitted(key, other.own.keys[key], d.sdk.registrations, d.migrate)
  }

  datatype Choice = Own | Other | Both | Neither

  /** Which of two entries of one key a device ends with. */
  function ChoiceOf(d: Device, other: Device, key: string): (choice: Choice)
    requires key in d.own.keys && key in other.own.keys
    ensures choice.Other? || choice.Both? ==> Received(d, other, key).Some?
  {
    var received := Received(d, other, key);
    if Takes(d, other) then if received.Some? then Other else Neither
    else if !OrderOf(d, other).Concurrent? || !CanImport(d, Exported(other)) || received.None? then Own
    else if received.value.policy.LastWriteWins? then Other
    else if Mergeable(key, d.sdk.registrations) then Both
    else Own
  }

  /** The device's merge of both entries gives that entry. */
  predicate MergesTo(d: Device, key: string, own: StateEntry, other: StateEntry, result: StateEntry) {
    && result == StateEntry(result.value, AppMerge, other.schemaVersion)
    && MergerOf(d)(key, own.value, other.value) == Some(result.value)
  }

  /** When a key both devices hold ends up the same on both, by what each of them chooses. */
  predicate Settles(a: Device, b: Device, key: string)
    requires key in a.own.keys && key in b.own.keys
  {
    var x, y := a.own.keys[key], b.own.keys[key];
    var toA, toB := Received(a, b, key), Received(b, a, key);
    match (ChoiceOf(a, b, key), ChoiceOf(b, a, key))
    case (Own, Own) => x == y
    case (Own, Other) => toB == Some(x)
    case (Other, Own) => toA == Some(y)
    case (Other, Other) => toA == toB
    case (Both, Own) => MergesTo(a, key, x, toA.value, y)
    case (Own, Both) => MergesTo(b, key, y, toB.value, x)
    case (Both, Other) => MergesTo(a, key, x, toA.value, toB.value)
    case (Other, Both) => MergesTo(b, key, y, toB.value, toA.value)
    case (Both, Both) =>
      && MergerOf(a)(key, x.value, toA.value.value) == MergerOf(b)(key, y.value, toB.value.value)
      && toA.value.schemaVersion == toB.value.schemaVersion
    case (Neither, Neither) => true
    case (Neither, _) => false
    case (_, Neither) => false
  }

  /** When a key only one device holds ends up the same on both: it stays and arrives unchanged, or neither. */
  predicate Spreads(d: Device, other: Device, key: string)
    requires key in d.own.keys
  {
    var arrives := if CanImport(other, Exported(d)) then Received(other, d, key) else None;
    if Takes(d, other) then arrives.None? else arrives == Some(d.own.keys[key])
  }

  predicate SameOnBoth(a: Device, b: Device, key: string)
    requires key in a.own.keys || key in b.own.keys
  {
    if key !in b.own.keys then Spreads(a, b, key)
    else if key !in a.own.keys then Spreads(b, a, key)
    else Settles(a, b, key)
  }

  /** Only concurrent clocks leave anything to merge. */
  lemma NothingToMerge(d: Device, other: Device)
    ensures !OrderOf(d, other).Concurrent? ==> CanImport(d, Exported(other))
  {
  }

  lemma AfterShared(d: Device, other: Device, key: string)
    requires key in d.own.keys && key in other.own.keys
    ensures var x, received, after := d.own.keys[key], Received(d, other, key), After(d, Exported(other));
            match ChoiceOf(d, other, key)
            case Own => key in after && after[key] == x
            case Other => key in after && after[key] == received.value
            case Both => key in after && MergesTo(d, key, x, received.value, after[key])
            case Neither => key !in after
  {
    NothingToMerge(d, other);
  }

  lemma AfterOwn(d: Device, other: Device, key: string)
    requires key in d.own.keys && key !in other.own.keys
    ensures var after := After(d, Exported(other));
            if Takes(d, other) then key !in after else key in after && after[key] == d.own.keys[key]
  {
    NothingToMerge(d, other);
  }

  lemma AfterOther(d: Device, other: Device, key: string)
    requires key !in d.own.keys && key in other.own.keys
    ensures var after := After(d, Exported(other));
            var arrives := if CanImport(d, Exported(other)) then Received(d, other, key) else None;
            if arrives.None? then key !in after else key in after && after[key] == arrives.value
  {
  }

  lemma AfterNeither(d: Device, other: Device, key: string)
    requires key !in d.own.keys && key !in other.own.keys
    ensures key !in After(d, Exported(other))
  {
  }

  ghost predicate AgreeOn(x: Keys, y: Keys, key: string) {
    (key in x <==> key in y) && (key in x && key in y ==> x[key] == y[key])
  }

  lemma AgreeExactly(a: Device, b: Device, key: string)
    requires key in a.own.keys || key in b.own.keys
    ensures AgreeOn(After(a, Exported(b)), After(b, Exported(a)), key) <==> SameOnBoth(a, b, key)
  {
    if key !in b.own.keys {
      AfterOwn(a, b, key);
      AfterOther(b, a, key);
    } else if key !in a.own.keys {
      AfterOwn(b, a, key);
      AfterOther(a, b, key);
    } else {
      AfterShared(a, b, key);
      AfterShared(b, a, key);
    }
  }

  lemma MapsAgree(x: Keys, y: Keys)
    requires forall k :: AgreeOn(x, y, k)
    ensures x == y
  {
    assert forall k :: (k in x <==> k in y) by {
      forall k ensures k in x <==> k in y { assert AgreeOn(x, y, k); }
    }
    forall k | k in x ensures x[k] == y[k] { assert AgreeOn(x, y, k); }
  }

  lemma AgreeEverywhere(a: Device, b: Device)
    requires forall k | k in a.own.keys.Keys + b.own.keys.Keys :: SameOnBoth(a, b, k)
    ensures After(a, Exported(b)) == After(b, Exported(a))
  {
    var x, y := After(a, Exported(b)), After(b, Exported(a));
    forall k ensures AgreeOn(x, y, k) {
      if k in a.own.keys.Keys + b.own.keys.Keys {
        AgreeExactly(a, b, k);
      } else {
        AfterNeither(a, b, k);
        AfterNeither(b, a, k);
      }
    }
    MapsAgree(x, y);
  }

  /**
   Two devices that import each other's exports end with the same keys exactly when every key that both hold
   settles, and every key that one holds stays there and arrives unchanged, or is gone from both.
   */
  lemma ExchangeConvergesExactly(a: Device, b: Device)
    ensures After(a, Exported(b)) == After(b, Exported(a))
       <==> forall k | k in a.own.keys.Keys + b.own.keys.Keys :: SameOnBoth(a, b, k)
  {
    if forall k | k in a.own.keys.Keys + b.own.keys.Keys :: SameOnBoth(a, b, k) {
      AgreeEverywhere(a, b);
    } else {
      var k :| k in a.own.keys.Keys + b.own.keys.Keys && !SameOnBoth(a, b, k);
      AgreeExactly(a, b, k);
    }
  }

  // ---------------------------------------------------------------------
  // Exchanges that do not converge
  // ---------------------------------------------------------------------

  /** A device whose SDK has registered one key for the last write, and whose app reports that clock. */
  function WithOneKey(name: string, key: string, reported: Clock, keys: Keys, migrate: Migrator,
        appMerge: Merger): Device {
    Device(Run(NewSdk(name), [Register(key, Registration(LastWriteWins, 1))]), Snapshot("test", reported, keys),
           migrate, appMerge)
  }

  lemma OneKeyStamp(d: Device, other: Device, name: string, key: string)
    requires other.sdk == Run(NewSdk(name), [Register(key, Registration(LastWriteWins, 1))])
    ensures Exported(other).clock == map[name := 2]
    ensures OrderOf(d, other) in {Dominates, Equal} <==> 2 <= Get(d.own.clock, name)
    ensures d.own.clock == map[] ==> Takes(d, other)
    ensures other.sdk.registrations == map[key := Registration(LastWriteWins, 1)]
  {
    var calls := [Register(key, Registration(LastWriteWins, 1))];
    assert calls[1..] == [] && Ticks(calls) == 1;
    OrderAfterRun(d, other, name, calls);
  }

  /** What a device with an empty clock or no newer one makes of the other's last-write-wins entry. */
  lemma TakesTheOther(d: Device, other: Device, name: string, key: string, v: Bytes, w: Bytes)
    requires other.sdk == Run(NewSdk(name), [Register(key, Registration(LastWriteWins, 1))])
    requires d.sdk.registrations == map[key := Registration(LastWriteWins, 1)]
    requires d.own.keys == map[key := StateEntry(v, LastWriteWins, 1)] && Get(d.own.clock, name) < 2
    requires other.own.keys == map[key := StateEntry(w, LastWriteWins, 1)]
    ensures After(d, Exported(other)) == other.own.keys
  {
    OneKeyStamp(d, other, name, key);
    assert Conflicts(d.own, Passing(d, Exported(other))) == map[];
    assert CanImport(d, Exported(other));
    AfterShared(d, other, key);
    forall k | k != key ensures k !in After(d, Exported(other)) {
      AfterNeither(d, other, k);
    }
  }

  /**
   The plainest conflict: two last-write-wins values change places, whatever clocks the apps report, as long as
   neither holds the other's stamp.
   */
  lemma ExchangeSwaps(key: string, v: Bytes, w: Bytes, mine: Clock, theirs: Clock, migrate: Migrator, appMerge: Merger)
    requires v != w && Get(mine, "b") < 2 && Get(theirs, "a") < 2
    ensures var a := WithOneKey("a", key, mine, map[key := StateEntry(v, LastWriteWins, 1)], migrate, appMerge);
            var b := WithOneKey("b", key, theirs, map[key := StateEntry(w, LastWriteWins, 1)], migrate, appMerge);
            && After(a, Exported(b)) == b.own.keys && After(b, Exported(a)) == a.own.keys
            && After(a, Exported(b)) != After(b, Exported(a))
  {
    var x, y := StateEntry(v, LastWriteWins, 1), StateEntry(w, LastWriteWins, 1);
    var a := WithOneKey("a", key, mine, map[key := x], migrate, appMerge);
    var b := WithOneKey("b", key, theirs, map[key := y], migrate, appMerge);
    OneKeyStamp(a, b, "b", key);
    OneKeyStamp(b, a, "a", key);
    TakesTheOther(a, b, "b", key, v, w);
    TakesTheOther(b, a, "a", key, w, v);
    assert map[key := x][key] != map[key := y][key];
  }

  /**
   The exports are concurrent and share no key, and still the devices end apart: apps that report an empty
   clock take what they are given as a whole, so a key that only one device has is gone from it.
   */
  lemma ExchangeLosesUnsharedKey(key: string, v: Bytes, migrate: Migrator, appMerge: Merger)
    ensures var x := StateEntry(v, LastWriteWins, 1);
            var a := WithOneKey("a", key, map[], map[key := x], migrate, appMerge);
            var b := WithOneKey("b", key, map[], map[], migrate, appMerge);
            && Exported(a).clock == map["a" := 2] && Exported(b).clock == map["b" := 2]
            && Compare(Exported(a).clock, Exported(b).clock).Concurrent?
            && After(a, Exported(b)) == map[] && After(b, Exported(a)) == map[key := x]
  {
    var x := StateEntry(v, LastWriteWins, 1);
    var a := WithOneKey("a", key, map[], map[key := x], migrate, appMerge);
    var b := WithOneKey("b", key, map[], map[], migrate, appMerge);
    OneKeyStamp(a, b, "b", key);
    OneKeyStamp(b, a, "a", key);
    OrderAgainstStamp(Exported(a).clock, "b", 2);
    OrderAgainstStamp(Exported(b).clock, "a", 2);
    AfterOwn(a, b, key);
    AfterOther(b, a, key);
    forall k | k != key ensures k !in After(a, Exported(b)) && k !in After(b, Exported(a)) {
      AfterNeither(a, b, k);
      AfterNeither(b, a, k);
    }
  }
}
