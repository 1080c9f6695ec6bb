/**
 The host side of the conflict protocol. `HostWrite`, `HostDelete` and
 `HostRename` say, on values, what one request does to the disk, the live clocks
 and the tombstones; the class below performs the same requests step by step.
 One key stands for one file.
 */
module Host {
  import opened Octets
  import opened Clocks

  datatype ClockEntry = ClockEntry(clock: Clock, lastUpdatedAt: nat)

  datatype TombstoneEntry = TombstoneEntry(clock: Clock, createdAt: nat)

  datatype HostState = HostState(
    disk: map<string, Bytes>,
    clocks: map<string, ClockEntry>,
    tombstones: map<string, TombstoneEntry>)

  datatype Verdict = Applied | Deleted | Renamed | Stale | Conflict | NotFound

  datatype Answer = Answer(verdict: Verdict, clock: Clock, conflictPath: string)

  datatype Status = InvalidArgument | TransportBroken

  datatype Reply = Ok(answer: Answer) | Err(status: Status)

  // ---------------------------------------------------------------------
  // Reading the stores
  // ---------------------------------------------------------------------

  function LiveClock(h: HostState, key: string): Clock {
    if key in h.clocks then h.clocks[key].clock else map[]
  }

  function TombstoneClock(h: HostState, key: string): Clock {
    if key in h.tombstones then h.tombstones[key].clock else map[]
  }

  /** The handlers treat a tombstone whose clock has no counters as absent. */
  predicate Tombstoned(h: HostState, key: string) {
    TombstoneClock(h, key) != map[]
  }

  /** The clock a request is compared with. */
  function Effective(h: HostState, key: string): Clock {
    if Tombstoned(h, key) then TombstoneClock(h, key) else LiveClock(h, key)
  }

  /** Re-deleting keeps the time of the first delete. */
  function CreatedAt(h: HostState, key: string, now: nat): nat {
    if key in h.tombstones then h.tombstones[key].createdAt else now
  }

  // ---------------------------------------------------------------------
  // Names
  // ---------------------------------------------------------------------

  function ClockKey(path: string): string {
    if path != "" && path[0] == '/' then ClockKey(path[1..]) else path
  }

  /** Which characters beyond ASCII Unicode counts as letters or numbers; no result depends on the choice. */
  const ALPHANUMERIC_BEYOND_ASCII: char -> bool

  predicate FileSafe(c: char) {
    || 'a' <= c <= 'z' || 'A' <= c <= 'Z' || '0' <= c <= '9' || c == '-' || c == '_'
    || (c as int >= 0x80 && ALPHANUMERIC_BEYOND_ASCII(c))
  }

  function Sanitize(raw: string): string {
    seq(|raw|, i requires 0 <= i < |raw| => if FileSafe(raw[i]) then raw[i] else '_')
  }

  function UnaryWriter(id: string): string {
    if id == "" then "unknown" else id
  }

  function StreamWriter(id: string): string {
    if id == "" then "unknown" else Sanitize(id)
  }

  /** `stamp` is the decimal text of the host's clock reading. */
  function ConflictName(key: string, writer: string, stamp: string): string {
    key + ".conflict-" + writer + "-" + stamp
  }

  // ---------------------------------------------------------------------
  // What one request does
  // ---------------------------------------------------------------------

  /**
   A write is refused when it is older than what the host knows, saved beside a
   live file it is concurrent with, and otherwise becomes the file.
   */
  function HostWrite(h: HostState, key: string, data: Bytes, incoming: Clock,
                     writer: string, now: nat, stamp: string): (HostState, Answer)
  {
    var known := Effective(h, key);
    var order := Compare(incoming, known);
    if order == DominatedBy then
      (h, Answer(Stale, known, ""))
    else if order == Concurrent && !Tombstoned(h, key) then
      var sibling := ConflictName(key, writer, stamp);
      (h.(disk := h.disk[sibling := data], clocks := h.clocks[sibling := ClockEntry(incoming, now)]),
       Answer(Conflict, known, sibling))
    else
      var merged := Merge(known, incoming);
      (HostState(
         h.disk[key := data],
         h.clocks[key := ClockEntry(merged, now)],
         if Tombstoned(h, key) then h.tombstones - {key} else h.tombstones),
       Answer(if order == Concurrent then Conflict else Applied, merged, ""))
  }

  function HostDelete(h: HostState, key: string, incoming: Clock, now: nat): (HostState, Answer) {
    var known := Effective(h, key);
    var merged := Merge(known, incoming);
    if Tombstoned(h, key) then
      (h.(tombstones := h.tombstones[key := TombstoneEntry(merged, CreatedAt(h, key, now))]),
       Answer(Deleted, merged, ""))
    else if key !in h.disk then
      (h, Answer(NotFound, known, ""))
    else match Compare(incoming, known)
      case DominatedBy => (h, Answer(Stale, known, ""))
      case Concurrent => (h, Answer(Conflict, known, ""))
      case _ =>
        (HostState(
           h.disk - {key},
           h.clocks - {key},
           h.tombstones[key := TombstoneEntry(merged, CreatedAt(h, key, now))]),
         Answer(Deleted, merged, ""))
  }

  /** Renaming a deleted file creates an empty file under the new name. */
  function HostRename(h: HostState, source: string, target: string, incoming: Clock, now: nat): (HostState, Answer) {
    var known := Effective(h, source);
    var order := Compare(incoming, known);
    var merged := Merge(known, incoming);
    if Tombstoned(h, source) then
      if order == DominatedBy then
        (h, Answer(Stale, known, ""))
      else
        (HostState(
           h.disk[target := []],
           h.clocks[target := ClockEntry(merged, now)],
           h.tombstones - {source, target}),
         Answer(if order == Concurrent then Conflict else Renamed, merged, ""))
    else if source !in h.disk then
      (h, Answer(NotFound, known, ""))
    else if order == DominatedBy then
      (h, Answer(Stale, known, ""))
    else
      (HostState(
         (h.disk - {source})[target := h.disk[source]],
         (h.clocks - {source})[target := ClockEntry(merged, now)],
         h.tombstones - {target}),
       Answer(Renamed, merged, ""))
  }

  // ---------------------------------------------------------------------
  // The service
  // ---------------------------------------------------------------------

  /** One message of a streaming write: the first chunk carries the metadata. */
  datatype Message =
    | Chunk(path: string, clock: Clock, writerId: string, data: Bytes)
    | Broken

  predicate AllChunks(messages: seq<Message>) {
    forall m | m in messages :: m.Chunk?
  }

  function Payload(messages: seq<Message>): Bytes
    requires AllChunks(messages)
  {
    if messages == [] then [] else messages[0].data + Payload(messages[1..])
  }

  lemma {:induction false} PayloadSnoc(messages: seq<Message>, last: Message)
    requires AllChunks(messages) && last.Chunk?
    ensures AllChunks(messages + [last])
    ensures Payload(messages + [last]) == Payload(messages) + last.data
  {
    if messages == [] {
      assert messages + [last] == [last];
      assert Payload([last]) == last.data + Payload([]);
    } else {
      assert (messages + [last])[1..] == messages[1..] + [last];
      PayloadSnoc(messages[1..], last);
    }
  }

  /** Removes its file when dropped, unless the file was moved into place first. */
  class TempFile {
    const path: string
    var committed: bool

    constructor (path: string)
      ensures this.path == path && !committed
    {
      this.path := path;
      committed := false;
    }

    method MarkCommitted()
      modifies this
      ensures committed
    {
      committed := true;
    }
  }

  class FileService {
    var disk: map<string, Bytes>
    var clocks: map<string, ClockEntry>
    var tombstones: map<string, TombstoneEntry>

    constructor (h: HostState)
      ensures State() == h
    {
      disk, clocks, tombstones := h.disk, h.clocks, h.tombstones;
    }

    function State(): HostState
      reads this
    {
      HostState(disk, clocks, tombstones)
    }

    method PutClock(key: string, clock: Clock, now: nat)
      modifies `clocks
      ensures clocks == old(clocks)[key := ClockEntry(clock, now)]
    {
      clocks := clocks[key := ClockEntry(clock, now)];
    }

    method PutTombstone(key: string, clock: Clock, now: nat)
      modifies `tombstones
      ensures tombstones == old(tombstones)[key := TombstoneEntry(clock, old(CreatedAt(State(), key, now)))]
    {
      var createdAt := now;
      if key in tombstones {
        createdAt := tombstones[key].createdAt;
      }
      tombstones := tombstones[key := TombstoneEntry(clock, createdAt)];
    }

    /** Unary write: nothing happens outside what `HostWrite` says. */
    method WriteFile(path: string, data: Bytes, incoming: Clock, writerId: string, now: nat, stamp: string)
      returns (reply: Reply)
      modifies this
      ensures ClockKey(path) == "" ==> reply == Err(InvalidArgument) && State() == old(State())
      ensures ClockKey(path) != "" ==>
                var (after, answer) :=
                  HostWrite(old(State()), ClockKey(path), data, incoming, UnaryWriter(writerId), now, stamp);
                reply == Ok(answer) && State() == after
    {
      var key := ClockKey(path);
      if key == "" {
        return Err(InvalidArgument);
      }
      var writer := if writerId == "" then "unknown" else writerId;
      var tombstone := TombstoneClock(State(), key);
      if tombstone != map[] {
        var order := CompareClocks(incoming, tombstone);
        var isConflict := order == Concurrent;
        if order == DominatedBy {
          return Ok(Answer(Stale, tombstone, ""));
        }
        disk := disk[key := data];
        var merged := MergeClocks(tombstone, incoming);
        tombstones := tombstones - {key};
        PutClock(key, merged, now);
        return Ok(Answer(if isConflict then Conflict else Applied, merged, ""));
      }
      var stored := LiveClock(State(), key);
      var order := CompareClocks(incoming, stored);
      match order {
        case Dominates | Equal =>
          disk := disk[key := data];
          var merged := MergeClocks(stored, incoming);
          PutClock(key, merged, now);
          return Ok(Answer(Applied, merged, ""));
        case DominatedBy =>
          return Ok(Answer(Stale, stored, ""));
        case Concurrent =>
          var sibling := ConflictName(key, writer, stamp);
          disk := disk[sibling := data];
          PutClock(sibling, incoming, now);
          return Ok(Answer(Conflict, stored, sibling));
      }
    }

    /** Move a finished temporary file over `dest`. */
    method CommitTemp(tmp: TempFile, dest: string, ghost before: map<string, Bytes>, ghost data: Bytes)
      requires tmp.path !in before && disk == before[tmp.path := data] && dest != tmp.path
      modifies `disk, tmp
      ensures tmp.committed
      ensures disk == before[dest := data]
    {
      disk := (disk - {tmp.path})[dest := disk[tmp.path]];
      tmp.MarkCommitted();
    }

    method DropTemp(tmp: TempFile)
      modifies `disk
      ensures disk == if tmp.committed then old(disk) else old(disk) - {tmp.path}
    {
      if !tmp.committed {
        disk := disk - {tmp.path};
      }
    }

    /** Receive the remaining chunks into the temporary file; false when the stream breaks. */
    method ReceiveChunks(tmp: TempFile, messages: seq<Message>) returns (complete: bool)
      requires |messages| > 0 && messages[0].Chunk? && tmp.path !in disk
      modifies `disk
      ensures complete == AllChunks(messages)
      ensures complete ==> disk == old(disk)[tmp.path := Payload(messages)]
      ensures !complete ==> disk - {tmp.path} == old(disk)
    {
      disk := disk[tmp.path := messages[0].data];
      var n := 1;
      assert messages[..1] == [messages[0]] && [messages[0]][1..] == [];
      assert Payload([messages[0]]) == messages[0].data + [] == messages[0].data;
      while n < |messages|
        invariant 1 <= n <= |messages|
        invariant AllChunks(messages[..n])
        invariant disk == old(disk)[tmp.path := Payload(messages[..n])]
      {
        match messages[n] {
          case Broken =>
            assert messages[n] in messages;
            return false;
          case Chunk(_, _, _, data) =>
            PayloadSnoc(messages[..n], messages[n]);
            assert messages[..n] + [messages[n]] == messages[..n + 1];
            disk := disk[tmp.path := disk[tmp.path] + data];
        }
        n := n + 1;
      }
      assert messages[..n] == messages;
      return true;
    }

    /** The compare-and-rename step on a deleted path. */
    method CommitOverTombstone(tmp: TempFile, key: string, tombstone: Clock, incoming: Clock, writer: string, now: nat,
                               stamp: string, ghost before: HostState, ghost data: Bytes)
      returns (answer: Answer)
      requires tmp.path !in before.disk && !tmp.committed && tmp.path != key
      requires State() == before.(disk := before.disk[tmp.path := data])
      requires tombstone == TombstoneClock(before, key) != map[]
      modifies this, tmp
      ensures answer == HostWrite(before, key, data, incoming, writer, now, stamp).1
      ensures tmp.committed == !answer.verdict.Stale?
      ensures tmp.committed ==> State() == HostWrite(before, key, data, incoming, writer, now, stamp).0
      ensures !tmp.committed ==> State() == old(State())
    {
      var order := CompareClocks(incoming, tombstone);
      if order == DominatedBy {
        return Answer(Stale, tombstone, "");
      }
      CommitTemp(tmp, key, before.disk, data);
      var merged := MergeClocks(tombstone, incoming);
      tombstones := tombstones - {key};
      PutClock(key, merged, now);
      return Answer(if order == Concurrent then Conflict else Applied, merged, "");
    }

    /** The compare-and-rename step of a streaming write, on a complete temporary file. */
    method CommitStream(tmp: TempFile, key: string, incoming: Clock, writer: string, now: nat, stamp: string,
                        ghost before: HostState, ghost data: Bytes)
      returns (answer: Answer)
      requires tmp.path !in before.disk && !tmp.committed
      requires State() == before.(disk := before.disk[tmp.path := data])
      requires tmp.path != key && tmp.path != ConflictName(key, writer, stamp)
      modifies this, tmp
      ensures answer == HostWrite(before, key, data, incoming, writer, now, stamp).1
      ensures tmp.committed == !answer.verdict.Stale?
      ensures tmp.committed ==> State() == HostWrite(before, key, data, incoming, writer, now, stamp).0
      ensures !tmp.committed ==> State() == old(State())
    {
      var tombstone := TombstoneClock(State(), key);
      if tombstone != map[] {
        answer := CommitOverTombstone(tmp, key, tombstone, incoming, writer, now, stamp, before, data);
        return;
      }
      answer := CommitOverLive(tmp, key, incoming, writer, now, stamp, before, data);
    }

    /** The compare-and-rename step on a path that is not deleted. */
    method CommitOverLive(tmp: TempFile, key: string, incoming: Clock, writer: string, now: nat, stamp: string,
                          ghost before: HostState, ghost data: Bytes)
      returns (answer: Answer)
      requires tmp.path !in before.disk && !tmp.committed && !Tombstoned(before, key)
      requires State() == before.(disk := before.disk[tmp.path := data])
      requires tmp.path != key && tmp.path != ConflictName(key, writer, stamp)
      modifies this, tmp
      ensures answer == HostWrite(before, key, data, incoming, writer, now, stamp).1
      ensures tmp.committed == !answer.verdict.Stale?
      ensures tmp.committed ==> State() == HostWrite(before, key, data, incoming, writer, now, stamp).0
      ensures !tmp.committed ==> State() == old(State())
    {
      var stored := LiveClock(State(), key);
      var order := CompareClocks(incoming, stored);
      match order {
        case Dominates | Equal =>
          CommitTemp(tmp, key, before.disk, data);
          var merged := MergeClocks(stored, incoming);
          PutClock(key, merged, now);
          return Answer(Applied, merged, "");
        case DominatedBy =>
          return Answer(Stale, stored, "");
        case Concurrent =>
          var sibling := ConflictName(key, writer, stamp);
          CommitTemp(tmp, sibling, before.disk, data);
          PutClock(sibling, incoming, now);
          return Answer(Conflict, stored, sibling);
      }
    }

    /** Other requests are served while the chunks arrive; they leave `meanwhile`, and the temporary file alone. */
    method ServeOthers(tmp: TempFile, meanwhile: HostState)
      modifies `disk, `clocks, `tombstones
      ensures State() == meanwhile.(disk := if tmp.path !in old(disk) then meanwhile.disk
                                            else meanwhile.disk[tmp.path := old(disk[tmp.path])])
    {
      disk := if tmp.path in disk then meanwhile.disk[tmp.path := disk[tmp.path]] else meanwhile.disk;
      clocks, tombstones := meanwhile.clocks, meanwhile.tombstones;
    }

    /**
     Streaming write. `tmpName` is the random temporary name: it is not in use and is neither the target nor
     the conflict sibling. The chunks arrive outside the lock: `meanwhile` is the host as other requests leave
     it by the time this one is decided. A broken stream adds nothing to that; a complete one then does what
     a unary write does.
     */
    method WriteFileStream(messages: seq<Message>, tmpName: string, meanwhile: HostState, now: nat, stamp: string)
      returns (reply: Reply)
      requires tmpName !in disk && tmpName !in meanwhile.disk
      requires |messages| > 0 && messages[0].Chunk? ==>
                 && tmpName != ClockKey(messages[0].path)
                 && tmpName != ConflictName(ClockKey(messages[0].path), StreamWriter(messages[0].writerId), stamp)
      modifies this
      ensures messages == [] || (messages[0].Chunk? && ClockKey(messages[0].path) == "") ==>
                reply == Err(InvalidArgument) && State() == old(State())
      ensures messages != [] && messages[0].Broken? ==> reply == Err(TransportBroken) && State() == old(State())
      ensures messages != [] && messages[0].Chunk? && ClockKey(messages[0].path) != "" && !AllChunks(messages) ==>
                reply == Err(TransportBroken) && State() == meanwhile
      ensures messages != [] && AllChunks(messages) && messages[0].Chunk? && ClockKey(messages[0].path) != "" ==>
                var (after, answer) :=
                  HostWrite(meanwhile, ClockKey(messages[0].path), Payload(messages), messages[0].clock,
                            StreamWriter(messages[0].writerId), now, stamp);
                reply == Ok(answer) && State() == after
    {
      if messages == [] {
        return Err(InvalidArgument);
      }
      if messages[0].Broken? {
        return Err(TransportBroken);
      }
      var init := messages[0];
      if init.path == "" {
        return Err(InvalidArgument);
      }
      var writer := if init.writerId == "" then "unknown" else Sanitize(init.writerId);
      var key := ClockKey(init.path);
      if key == "" {
        return Err(InvalidArgument);
      }
      reply := StreamToFile(messages, key, writer, tmpName, meanwhile, now, stamp);
    }

    /** From the first chunk on: receive into the temporary file, then decide under the lock. */
    method StreamToFile(messages: seq<Message>, key: string, writer: string, tmpName: string, meanwhile: HostState,
                        now: nat, stamp: string)
      returns (reply: Reply)
      requires |messages| > 0 && messages[0].Chunk? && tmpName !in disk && tmpName !in meanwhile.disk
      requires tmpName != key && tmpName != ConflictName(key, writer, stamp)
      modifies this
      ensures !AllChunks(messages) ==> reply == Err(TransportBroken) && State() == meanwhile
      ensures AllChunks(messages) ==>
                var (after, answer) :=
                  HostWrite(meanwhile, key, Payload(messages), messages[0].clock, writer, now, stamp);
                reply == Ok(answer) && State() == after
    {
      var tmp := new TempFile(tmpName);
      var complete := ReceiveChunks(tmp, messages);
      ServeOthers(tmp, meanwhile);
      assert disk - {tmpName} == meanwhile.disk;
      if !complete {
        DropTemp(tmp);
        return Err(TransportBroken);
      }
      var answer := CommitStream(tmp, key, messages[0].clock, writer, now, stamp, meanwhile, Payload(messages));
      DropTemp(tmp);
      return Ok(answer);
    }

    method DeleteFile(path: string, incoming: Clock, now: nat) returns (reply: Reply)
      modifies this
      ensures ClockKey(path) == "" ==> reply == Err(InvalidArgument) && State() == old(State())
      ensures ClockKey(path) != "" ==>
                var (after, answer) := HostDelete(old(State()), ClockKey(path), incoming, now);
                reply == Ok(answer) && State() == after
    {
      var key := ClockKey(path);
      if key == "" {
        return Err(InvalidArgument);
      }
      var tombstone := TombstoneClock(State(), key);
      if tombstone != map[] {
        var merged := MergeClocks(tombstone, incoming);
        PutTombstone(key, merged, now);
        return Ok(Answer(Deleted, merged, ""));
      }
      var stored := LiveClock(State(), key);
      if key !in disk {
        return Ok(Answer(NotFound, stored, ""));
      }
      var order := CompareClocks(incoming, stored);
      match order {
        case Dominates | Equal =>
          disk := disk - {key};
          var merged := MergeClocks(stored, incoming);
          PutTombstone(key, merged, now);
          clocks := clocks - {key};
          return Ok(Answer(Deleted, merged, ""));
        case DominatedBy =>
          return Ok(Answer(Stale, stored, ""));
        case Concurrent =>
          return Ok(Answer(Conflict, stored, ""));
      }
    }

    method RenameFile(oldPath: string, newPath: string, incoming: Clock, now: nat) returns (reply: Reply)
      modifies this
      ensures ClockKey(oldPath) == "" || ClockKey(newPath) == "" ==>
                reply == Err(InvalidArgument) && State() == old(State())
      ensures ClockKey(oldPath) != "" && ClockKey(newPath) != "" ==>
                var (after, answer) := HostRename(old(State()), ClockKey(oldPath), ClockKey(newPath), incoming, now);
                reply == Ok(answer) && State() == after
    {
      var oldKey, newKey := ClockKey(oldPath), ClockKey(newPath);
      if oldKey == "" || newKey == "" {
        return Err(InvalidArgument);
      }
      var tombstone := TombstoneClock(State(), oldKey);
      if tombstone != map[] {
        var order := CompareClocks(incoming, tombstone);
        if order == DominatedBy {
          return Ok(Answer(Stale, tombstone, ""));
        }
        disk := disk[newKey := []];
        var merged := MergeClocks(tombstone, incoming);
        tombstones := tombstones - {oldKey};
        tombstones := tombstones - {newKey};
        PutClock(newKey, merged, now);
        assert tombstones == old(tombstones) - {oldKey, newKey};
        return Ok(Answer(if order == Concurrent then Conflict else Renamed, merged, ""));
      }
      var stored := LiveClock(State(), oldKey);
      if oldKey !in disk {
        return Ok(Answer(NotFound, stored, ""));
      }
      var order := CompareClocks(incoming, stored);
      if order == DominatedBy {
        return Ok(Answer(Stale, stored, ""));
      }
      disk := (disk - {oldKey})[newKey := disk[oldKey]];
      var merged := MergeClocks(stored, incoming);
      clocks := clocks - {oldKey};
      tombstones := tombstones - {newKey};
      PutClock(newKey, merged, now);
      return Ok(Answer(Renamed, merged, ""));
    }

    /** What a read-intent open learns: the live clock of an existing file. */
    method Stat(path: string) returns (found: bool, clock: Clock)
      ensures found == (ClockKey(path) in disk)
      ensures clock == if found then LiveClock(State(), ClockKey(path)) else map[]
    {
      var key := ClockKey(path);
      found := key in disk;
      clock := if found then LiveClock(State(), key) else map[];
    }
  }
}
