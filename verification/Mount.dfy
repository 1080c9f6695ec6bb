/**
 The mount's callbacks: partial writes and truncations gather in a per-inode buffer
 that is loaded from the host at most once, and a flush sends the whole buffer under
 a freshly stamped clock. What a callback does to the clock store and to the host is
 one send, serve and receive of `Protocol`.
 */
module Mount {
  import opened Basics
  import opened Octets
  import opened Clocks
  import opened Host
  import HostAnswers
  import Transfer
  import Protocol

  /** `dirty`: not flushed yet; `loaded`: seeded with the host's content, or created empty. */
  datatype FileBuf = FileBuf(data: Bytes, dirty: bool, loaded: bool)

  // ---------------------------------------------------------------------
  // Edits
  // ---------------------------------------------------------------------

  function Zeros(n: nat): (z: Bytes)
    ensures |z| == n && forall i | 0 <= i < n :: z[i] == 0
  {
    seq(n, _ => 0)
  }

  /** Cut off at `size`, or fill up with zeros. */
  function Resized(data: Bytes, size: nat): (r: Bytes)
    ensures |r| == size
  {
    if size <= |data| then data[..size] else data + Zeros(size - |data|)
  }

  datatype Edit = WriteAt(offset: nat, bytes: Bytes) | SetSize(size: nat)

  function Edited(data: Bytes, e: Edit): Bytes {
    match e
    case SetSize(size) => Resized(data, size)
    case WriteAt(offset, bytes) =>
      var end := offset + |bytes|;
      var grown := if |data| < end then Resized(data, end) else data;
      grown[..offset] + bytes + grown[end..]
  }

  function EditedBy(data: Bytes, edits: seq<Edit>): Bytes
    decreases |edits|
  {
    if edits == [] then data else EditedBy(Edited(data, edits[0]), edits[1..])
  }

  /** Where a file ends after the edits: writes only extend it, the last resize decides the rest. */
  function EndAfter(size: nat, edits: seq<Edit>): nat {
    if edits == [] then size
    else
      var before, last := EndAfter(size, edits[..|edits| - 1]), edits[|edits| - 1];
      if last.SetSize? then last.size
      else if before < last.offset + |last.bytes| then last.offset + |last.bytes|
      else before
  }

  /** The byte at a position, read off the edits from the last one back: zero where nothing was written. */
  function ByteAfter(data: Bytes, edits: seq<Edit>, i: nat): byte {
    if edits == [] then if i < |data| then data[i] else 0
    else
      var front, last := edits[..|edits| - 1], edits[|edits| - 1];
      if last.SetSize? then if i < last.size then ByteAfter(data, front, i) else 0
      else if last.offset <= i < last.offset + |last.bytes| then last.bytes[i - last.offset]
      else ByteAfter(data, front, i)
  }

  lemma EditedAt(data: Bytes, e: Edit, i: nat)
    requires i < |Edited(data, e)|
    ensures Edited(data, e)[i]
            == if e.WriteAt? && e.offset <= i < e.offset + |e.bytes| then e.bytes[i - e.offset]
               else if i < |data| then data[i] else 0
  {
  }

  lemma {:induction false} EditedBySnoc(data: Bytes, edits: seq<Edit>, last: Edit)
    ensures EditedBy(data, edits + [last]) == Edited(EditedBy(data, edits), last)
    decreases |edits|
  {
    if edits == [] {
      assert edits + [last] == [last];
    } else {
      assert (edits + [last])[1..] == edits[1..] + [last];
      EditedBySnoc(Edited(data, edits[0]), edits[1..], last);
    }
  }

  /** The bytes of `data` are those read off the edits so far, and zero beyond. */
  ghost predicate Matches(start: Bytes, edits: seq<Edit>, data: Bytes) {
    && |data| == EndAfter(|start|, edits)
    && (forall i: nat | i < |data| :: data[i] == ByteAfter(start, edits, i))
    && (forall i: nat | i >= |data| :: ByteAfter(start, edits, i) == 0)
  }

  lemma MatchesOneMore(start: Bytes, front: seq<Edit>, data: Bytes, last: Edit)
    requires Matches(start, front, data)
    ensures Matches(start, front + [last], Edited(data, last))
  {
    var edits, after := front + [last], Edited(data, last);
    assert edits[..|edits| - 1] == front;
    forall i: nat | i < |after| ensures after[i] == ByteAfter(start, edits, i) {
      EditedAt(data, last, i);
    }
  }

  /** Any sequence of edits leaves, byte for byte, what was written there last and survived later truncation. */
  lemma {:induction false} LastEditWins(data: Bytes, edits: seq<Edit>)
    ensures Matches(data, edits, EditedBy(data, edits))
    decreases |edits|
  {
    if edits != [] {
      var front, last := edits[..|edits| - 1], edits[|edits| - 1];
      LastEditWins(data, front);
      assert edits == front + [last];
      EditedBySnoc(data, front, last);
      MatchesOneMore(data, front, EditedBy(data, front), last);
    }
  }

  // ---------------------------------------------------------------------
  // The mount
  // ---------------------------------------------------------------------

  /** The host's content of a path; empty when there is no file. */
  function Content(h: HostState, path: string): Bytes {
    if ClockKey(path) in h.disk then h.disk[ClockKey(path)] else []
  }

  /** The buffer an edit starts from. */
  function Loaded(buffers: map<nat, FileBuf>, ino: nat, content: Bytes): FileBuf {
    if ino !in buffers then FileBuf(content, false, true)
    else if buffers[ino].loaded then buffers[ino]
    else FileBuf(content, buffers[ino].dirty, true)
  }

  /** One edit of an open file, given the host's content at that moment. */
  function EditBuffer(buffers: map<nat, FileBuf>, ino: nat, content: Bytes, e: Edit): map<nat, FileBuf> {
    buffers[ino := FileBuf(Edited(Loaded(buffers, ino, content).data, e), true, true)]
  }

  /** The edits between open and close; the host's content may change between them. */
  function Session(buffers: map<nat, FileBuf>, ino: nat, contents: seq<Bytes>, edits: seq<Edit>): map<nat, FileBuf>
    requires |contents| == |edits|
    decreases |edits|
  {
    if edits == [] then buffers
    else Session(EditBuffer(buffers, ino, contents[0], edits[0]), ino, contents[1..], edits[1..])
  }

  lemma {:induction false} SessionFromLoaded(buffers: map<nat, FileBuf>, ino: nat, contents: seq<Bytes>,
        edits: seq<Edit>)
    requires |contents| == |edits| > 0
    ensures Session(buffers, ino, contents, edits)
            == buffers[ino := FileBuf(EditedBy(Loaded(buffers, ino, contents[0]).data, edits), true, true)]
    decreases |edits|
  {
    var first := EditBuffer(buffers, ino, contents[0], edits[0]);
    if |edits| == 1 {
      assert edits[1..] == [];
      assert EditedBy(first[ino].data, []) == first[ino].data;
    } else {
      SessionFromLoaded(first, ino, contents[1..], edits[1..]);
    }
  }

  /**
   All edits of a session apply, in order, to one version of the file: the buffer's if it is loaded, and otherwise
   the host's at the first edit, whatever the host holds later.
   */
  lemma SessionReadsOnce(buffers: map<nat, FileBuf>, ino: nat, contents: seq<Bytes>, edits: seq<Edit>)
    requires |contents| == |edits| > 0
    ensures var start := if ino in buffers && buffers[ino].loaded then buffers[ino].data else contents[0];
            Session(buffers, ino, contents, edits) == buffers[ino := FileBuf(EditedBy(start, edits), true, true)]
  {
    SessionFromLoaded(buffers, ino, contents, edits);
  }

  /** Open, edit, close: an applied flush leaves the edited file at the host, byte for byte the edits of its own. */
  lemma SessionReachesHost(h: HostState, path: string, ino: nat, contents: seq<Bytes>, edits: seq<Edit>,
        device: string, clock: Clock, now: nat, stamp: string)
    requires |contents| == |edits| > 0 && contents[0] == Content(h, path) && ClockKey(path) in h.disk
    ensures var key, buffers := ClockKey(path), Session(map[], ino, contents, edits);
            && ino in buffers && buffers[ino].dirty
            && var (after, answer) :=
                 Protocol.Decide(h, device, Protocol.WriteOp(key, buffers[ino].data), clock, now, stamp);
               answer.verdict == Applied ==> key in after.disk && Matches(h.disk[key], edits, after.disk[key])
  {
    SessionReadsOnce(map[], ino, contents, edits);
    LastEditWins(h.disk[ClockKey(path)], edits);
    var data := EditedBy(contents[0], edits);
    HostAnswers.WriteVerdictExactly(h, ClockKey(path), data, clock, StreamWriter(device), now, stamp);
    HostAnswers.WriteStores(h, ClockKey(path), data, clock, StreamWriter(device), now, stamp);
  }

  /** How a request ends: answered, never served, or served without the answer arriving. */
  datatype Rpc = Answers | Unreachable | ReplyLost

  datatype Outcome = NothingToFlush | Flushed(conflict: bool) | Failed

  class MountClient {
    const device: string
    var buffers: map<nat, FileBuf>
    var known: map<string, Clock>

    constructor (device: string, known: map<string, Clock>)
      ensures this.device == device && this.known == known && buffers == map[]
    {
      this.device, this.known, buffers := device, known, map[];
    }

    /** The clock the next request on the path carries. */
    function Stamp(path: string): Clock
      reads this
    {
      Increment(Protocol.At(known, path), device)
    }

    /** It is the known clock with one more tick of the mount. */
    lemma StampTicks(path: string)
      ensures Get(Stamp(path), device) == Get(Protocol.At(known, path), device) + 1
      ensures forall d | d != device :: Get(Stamp(path), d) == Get(Protocol.At(known, path), d)
    {
    }

    predicate HasLoaded(ino: nat)
      reads this
    {
      ino in buffers && buffers[ino].loaded
    }

    predicate IsDirty(ino: nat)
      reads this
    {
      ino in buffers && buffers[ino].dirty
    }

    /** A buffer that is loaded needs no request. */
    method EnsureLoaded(ino: nat, path: string, host: FileService, reachable: bool) returns (ok: bool)
      modifies `buffers
      ensures ok == (reachable || old(HasLoaded(ino)))
      ensures !ok ==> buffers == old(buffers)
      ensures ok ==> buffers == old(buffers)[ino := Loaded(old(buffers), ino, Content(host.State(), path))]
    {
      if ino in buffers && buffers[ino].loaded {
        assert buffers == buffers[ino := buffers[ino]];
        return true;
      }
      if !reachable {
        return false;
      }
      var content: Bytes := [];
      if ClockKey(path) in host.disk {
        var file := host.disk[ClockKey(path)];
        if |file| > 0 {
          content := Transfer.ReadRange(file, 0, |file|);
        }
        assert content == file;
      }
      var b := if ino in buffers then buffers[ino] else FileBuf([], false, false);
      buffers := buffers[ino := b.(data := content, loaded := true)];
      ok := true;
    }

    method Create(ino: nat)
      modifies `buffers
      ensures buffers == old(buffers)[ino := FileBuf([], true, true)]
    {
      buffers := buffers[ino := FileBuf([], true, true)];
    }

    method Write(ino: nat, path: string, offset: nat, bytes: Bytes, host: FileService, reachable: bool)
      returns (ok: bool, written: nat)
      modifies `buffers
      ensures ok == (reachable || old(HasLoaded(ino)))
      ensures !ok ==> buffers == old(buffers)
      ensures ok ==> written == |bytes|
      ensures ok ==> buffers == EditBuffer(old(buffers), ino, Content(host.State(), path), WriteAt(offset, bytes))
    {
      written := 0;
      ok := EnsureLoaded(ino, path, host, reachable);
      if !ok {
        return;
      }
      var data := buffers[ino].data;
      var end := offset + |bytes|;
      if |data| < end {
        data := Resized(data, end);
      }
      data := data[..offset] + bytes + data[end..];
      buffers := buffers[ino := FileBuf(data, true, true)];
      written := |bytes|;
    }

    /** Truncating to nothing does not read the file first. */
    method SetSize(ino: nat, path: string, size: nat, host: FileService, reachable: bool) returns (ok: bool)
      modifies `buffers
      ensures ok == (size == 0 || reachable || old(HasLoaded(ino)))
      ensures !ok ==> buffers == old(buffers)
      ensures ok ==> buffers == EditBuffer(old(buffers), ino, Content(host.State(), path), Edit.SetSize(size))
    {
      if size == 0 {
        buffers := buffers[ino := FileBuf([], true, true)];
        return true;
      }
      ok := EnsureLoaded(ino, path, host, reachable);
      if ok {
        buffers := buffers[ino := FileBuf(Resized(buffers[ino].data, size), true, true)];
      }
    }

    /**
     Send a dirty buffer; `during` is the host when the write is decided. With an answer, the host and the clock
     store move as one send, serve and receive, and the buffer counts as clean whatever the verdict was. Without
     one the mount stays as it was, even if the host has served the write.
     */
    method FlushBuffer(ino: nat, path: string, host: FileService, during: HostState, rpc: Rpc, tmpName: string,
                       now: nat, stamp: string)
      returns (outcome: Outcome, ghost answer: Answer)
      requires tmpName !in host.disk && tmpName !in during.disk && tmpName != ClockKey(path)
      requires tmpName != ConflictName(ClockKey(path), StreamWriter(device), stamp)
      modifies `buffers, `known, host
      ensures outcome.NothingToFlush? <==> !old(IsDirty(ino))
      ensures outcome.Failed? <==> old(IsDirty(ino)) && (rpc != Answers || ClockKey(path) == "")
      ensures outcome.NothingToFlush? || rpc == Unreachable || ClockKey(path) == "" ==>
                host.State() == old(host.State())
      ensures old(IsDirty(ino)) && rpc != Unreachable && ClockKey(path) != "" ==>
                (host.State(), answer)
                == Protocol.Decide(during, device, Protocol.WriteOp(ClockKey(path), old(buffers)[ino].data),
                                   old(Stamp(path)), now, stamp)
      ensures known == if outcome.Flushed?
                       then Protocol.Adopt(old(known), Protocol.WriteOp(path, old(buffers)[ino].data),
                                           old(Stamp(path)), answer)
                       else old(known)
      ensures buffers == if outcome.Flushed? then old(buffers)[ino := old(buffers)[ino].(dirty := false)]
                         else old(buffers)
      ensures outcome.Flushed? ==> outcome.conflict == (answer.verdict == Conflict)
    {
      answer := Answer(NotFound, map[], "");
      if ino !in buffers || !buffers[ino].dirty {
        return NothingToFlush, answer;
      }
      if rpc == Unreachable {
        return Failed, answer;
      }
      var data := buffers[ino].data;
      var clock := Stamp(path);
      var reply := Transfer.StreamedWrite(host, path, data, clock, device, tmpName, during, now, stamp);
      if reply.Err? {
        return Failed, answer;
      }
      answer := reply.answer;
      if rpc == ReplyLost {
        return Failed, answer;
      }
      var merged := MergeClocks(clock, reply.answer.clock);
      known := known[path := merged];
      buffers := buffers[ino := buffers[ino].(dirty := false)];
      outcome := Flushed(reply.answer.verdict == Conflict);
    }

    /** The last close: flush, then drop the buffer, also after a flush that failed. */
    method Release(ino: nat, path: string, host: FileService, during: HostState, rpc: Rpc, tmpName: string, now: nat,
                   stamp: string)
      returns (ghost outcome: Outcome, ghost answer: Answer)
      requires tmpName !in host.disk && tmpName !in during.disk && tmpName != ClockKey(path)
      requires tmpName != ConflictName(ClockKey(path), StreamWriter(device), stamp)
      modifies `buffers, `known, host
      ensures buffers == old(buffers) - {ino}
      ensures outcome.NothingToFlush? <==> !old(IsDirty(ino))
      ensures outcome.Failed? <==> old(IsDirty(ino)) && (rpc != Answers || ClockKey(path) == "")
      ensures outcome.NothingToFlush? || rpc == Unreachable || ClockKey(path) == "" ==>
                host.State() == old(host.State())
      ensures old(IsDirty(ino)) && rpc != Unreachable && ClockKey(path) != "" ==>
                (host.State(), answer)
                == Protocol.Decide(during, device, Protocol.WriteOp(ClockKey(path), old(buffers)[ino].data),
                                   old(Stamp(path)), now, stamp)
      ensures known == if outcome.Flushed?
                       then Protocol.Adopt(old(known), Protocol.WriteOp(path, old(buffers)[ino].data),
                                           old(Stamp(path)), answer)
                       else old(known)
    {
      outcome, answer := FlushBuffer(ino, path, host, during, rpc, tmpName, now, stamp);
      ghost var after := host.State();
      buffers := buffers - {ino};
      assert host.State() == after;
    }

    /** Only an open that reads learns the host's clock; one that cannot reach the host succeeds without it. */
    method Open(path: string, forReading: bool, host: FileService, reachable: bool)
      modifies `known
      ensures var answer := Protocol.Decide(host.State(), device, Protocol.OpenOp(ClockKey(path)), map[], 0, "").1;
              known == if forReading && reachable then Protocol.Adopt(old(known), Protocol.OpenOp(path), map[], answer)
                       else old(known)
    {
      if forReading && reachable {
        var found, clock := host.Stat(path);
        if found {
          var merged := MergeClocks(Protocol.At(known, path), clock);
          known := known[path := merged];
        }
      }
    }

    /** `ino` is the path's inode, if it has one. */
    method Unlink(path: string, ino: Option<nat>, host: FileService, rpc: Rpc, now: nat)
      returns (ok: bool, ghost answer: Answer)
      modifies `buffers, `known, host
      ensures ok == (rpc == Answers && ClockKey(path) != "")
      ensures !ok ==> buffers == old(buffers) && known == old(known)
      ensures rpc == Unreachable || ClockKey(path) == "" ==> host.State() == old(host.State())
      ensures rpc != Unreachable && ClockKey(path) != "" ==>
                (host.State(), answer)
                == Protocol.Decide(old(host.State()), device, Protocol.DeleteOp(ClockKey(path)), old(Stamp(path)),
                                   now, "")
      ensures ok ==>
                && known == Protocol.Adopt(old(known), Protocol.DeleteOp(path), old(Stamp(path)), answer)
                && buffers == if ino.Some? then old(buffers) - {ino.value} else old(buffers)
    {
      answer := Answer(NotFound, map[], "");
      if rpc == Unreachable {
        return false, answer;
      }
      var clock := Stamp(path);
      var reply := host.DeleteFile(path, clock, now);
      if reply.Err? {
        return false, answer;
      }
      answer := reply.answer;
      if rpc == ReplyLost {
        return false, answer;
      }
      var merged := MergeClocks(clock, reply.answer.clock);
      known := known[path := merged];
      if ino.Some? {
        buffers := buffers - {ino.value};
      }
      ok := true;
    }

    /** The clock store's part of a rename; buffers stay with the inode. */
    method Rename(source: string, target: string, host: FileService, rpc: Rpc, now: nat)
      returns (renamed: bool, ghost answer: Answer)
      modifies `known, host
      ensures rpc == Unreachable || ClockKey(source) == "" || ClockKey(target) == "" ==>
                !renamed && known == old(known) && host.State() == old(host.State())
      ensures rpc != Unreachable && ClockKey(source) != "" && ClockKey(target) != "" ==>
                (host.State(), answer)
                == Protocol.Decide(old(host.State()), device, Protocol.RenameOp(ClockKey(source), ClockKey(target)),
                                   old(Stamp(source)), now, "")
      ensures rpc == ReplyLost ==> !renamed && known == old(known)
      ensures rpc == Answers && ClockKey(source) != "" && ClockKey(target) != "" ==>
                && known == Protocol.Adopt(old(known), Protocol.RenameOp(source, target), old(Stamp(source)), answer)
                && renamed == (answer.verdict in {Renamed, Conflict})
    {
      answer := Answer(NotFound, map[], "");
      if rpc == Unreachable {
        return false, answer;
      }
      var clock := Stamp(source);
      var reply := host.RenameFile(source, target, clock, now);
      if reply.Err? {
        return false, answer;
      }
      answer := reply.answer;
      if rpc == ReplyLost {
        return false, answer;
      }
      var merged := MergeClocks(clock, reply.answer.clock);
      var verdict := reply.answer.verdict;
      renamed := verdict == Renamed || verdict == Conflict;
      if renamed {
        known := (known - {source})[target := merged];
      } else if verdict == Stale {
        known := known[source := merged];
      }
    }
  }
}
