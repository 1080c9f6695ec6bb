/**
 Moving file contents over the wire: the client cuts a write into chunks and the
 host puts them together again; the host cuts a read into chunks and the client
 puts them together again. A streamed write then does what a unary one does.
 */
module Transfer {
  import opened Basics
  import opened Octets
  import opened Clocks
  import opened Host

  const CHUNK_SIZE := 64 * 1024

  // ---------------------------------------------------------------------
  // Writing
  // ---------------------------------------------------------------------

  /** The first message alone carries the metadata. */
  predicate MetadataFirst(messages: seq<Message>, path: string, clock: Clock, writerId: string)
    requires AllChunks(messages)
  {
    && |messages| > 0
    && messages[0].path == path && messages[0].clock == clock && messages[0].writerId == writerId
    && forall i | 0 < i < |messages| ::
         messages[i].path == "" && messages[i].clock == map[] && messages[i].writerId == ""
  }

  /** Every message but the last is full, with 64 KiB; the last is empty only when there is nothing to send. */
  predicate WellCut(messages: seq<Message>)
    requires AllChunks(messages)
  {
    && (forall i | 0 <= i < |messages| - 1 :: |messages[i].data| == 65_536)
    && (|messages| > 1 ==> 0 < |messages[|messages| - 1].data| <= 65_536)
    && (|messages| == 1 ==> |messages[0].data| <= 65_536)
  }

  /** The client's chunk loop; the metadata options are taken by the first message. */
  method SendChunks(path: string, data: Bytes, clock: Clock, writerId: string) returns (messages: seq<Message>)
    ensures AllChunks(messages) && Payload(messages) == data
    ensures MetadataFirst(messages, path, clock, writerId)
    ensures WellCut(messages)
  {
    messages := [];
    var offset := 0;
    var pathLeft, clockLeft, writerLeft := path, clock, writerId;
    while true
      invariant 0 <= offset <= |data| && (offset == |data| ==> |data| == 0)
      invariant AllChunks(messages) && Payload(messages) == data[..offset]
      invariant messages == [] ==> offset == 0 && pathLeft == path && clockLeft == clock && writerLeft == writerId
      invariant messages != [] ==>
          offset > 0 && pathLeft == "" && clockLeft == map[] && writerLeft == ""
          && MetadataFirst(messages, path, clock, writerId)
      invariant forall i | 0 <= i < |messages| :: |messages[i].data| == CHUNK_SIZE
      decreases |data| - offset
    {
      var end := Min(offset + CHUNK_SIZE, |data|);
      var chunk := Chunk(pathLeft, clockLeft, writerLeft, data[offset..end]);
      pathLeft, clockLeft, writerLeft := "", map[], "";
      PayloadSnoc(messages, chunk);
      assert data[..offset] + data[offset..end] == data[..end];
      messages := messages + [chunk];
      if end >= |data| {
        assert data[..end] == data;
        return;
      }
      offset := end;
    }
  }

  /** A whole streamed write, client and host together; `meanwhile` is the host when the write is decided. */
  method StreamedWrite(service: FileService, path: string, data: Bytes, clock: Clock, writerId: string,
                       tmpName: string, meanwhile: HostState, now: nat, stamp: string) returns (reply: Reply)
    requires tmpName !in service.disk && tmpName !in meanwhile.disk
    requires tmpName != ClockKey(path) && tmpName != ConflictName(ClockKey(path), StreamWriter(writerId), stamp)
    modifies service
    ensures ClockKey(path) == "" ==> reply == Err(InvalidArgument) && service.State() == old(service.State())
    ensures ClockKey(path) != "" ==>
              var (after, answer) :=
                HostWrite(meanwhile, ClockKey(path), data, clock, StreamWriter(writerId), now, stamp);
              reply == Ok(answer) && service.State() == after
  {
    var messages := SendChunks(path, data, clock, writerId);
    assert messages[0].path == path;
    reply := service.WriteFileStream(messages, tmpName, meanwhile, now, stamp);
  }

  lemma SanitizeKeepsExactlySafeNames(id: string)
    ensures Sanitize(id) == id <==> forall i | 0 <= i < |id| :: FileSafe(id[i])
  {
    assert |Sanitize(id)| == |id|;
    forall i | 0 <= i < |id| ensures Sanitize(id)[i] == id[i] <==> FileSafe(id[i]) {
      assert FileSafe('_');
    }
    if forall i | 0 <= i < |id| :: FileSafe(id[i]) {
      assert Sanitize(id) == id;
    } else {
      var i :| 0 <= i < |id| && !FileSafe(id[i]);
      assert Sanitize(id)[i] != id[i];
    }
  }

  lemma ConflictNameSeparatesWriters(key: string, v: string, w: string, stamp: string)
    requires |v| == |w| && v != w
    ensures ConflictName(key, v, stamp) != ConflictName(key, w, stamp)
  {
    var i :| 0 <= i < |v| && v[i] != w[i];
    var prefix := key + ".conflict-";
    assert ConflictName(key, v, stamp)[|prefix| + i] == v[i];
    assert ConflictName(key, w, stamp)[|prefix| + i] == w[i];
  }

  /**
   The two write requests have the same effect and the same answer exactly when
   the writer's name is safe in a file name or no conflict copy has to be named.
   */
  lemma StreamingMatchesUnaryExactly(h: HostState, key: string, data: Bytes, clock: Clock, id: string, now: nat,
        stamp: string)
    ensures HostWrite(h, key, data, clock, StreamWriter(id), now, stamp)
            == HostWrite(h, key, data, clock, UnaryWriter(id), now, stamp)
       <==> || (forall i | 0 <= i < |id| :: FileSafe(id[i]))
            || Tombstoned(h, key)
            || Compare(clock, LiveClock(h, key)) != Concurrent
  {
    SanitizeKeepsExactlySafeNames(id);
    if Sanitize(id) != id && !Tombstoned(h, key) && Compare(clock, LiveClock(h, key)) == Concurrent {
      ConflictNameSeparatesWriters(key, Sanitize(id), id, stamp);
      assert HostWrite(h, key, data, clock, StreamWriter(id), now, stamp).1.conflictPath
          != HostWrite(h, key, data, clock, UnaryWriter(id), now, stamp).1.conflictPath;
    }
  }

  // ---------------------------------------------------------------------
  // Reading
  // ---------------------------------------------------------------------

  function Concat(chunks: seq<Bytes>): Bytes {
    if chunks == [] then [] else chunks[0] + Concat(chunks[1..])
  }

  lemma {:induction false} ConcatSnoc(chunks: seq<Bytes>, last: Bytes)
    ensures Concat(chunks + [last]) == Concat(chunks) + last
  {
    if chunks == [] {
      assert chunks + [last] == [last];
    } else {
      assert (chunks + [last])[1..] == chunks[1..] + [last];
      ConcatSnoc(chunks[1..], last);
    }
  }

  /** The part of `file` a read of `length` bytes at `offset` covers. */
  function Slice(file: Bytes, offset: nat, length: nat): Bytes {
    file[Min(offset, |file|)..Min(offset + length, |file|)]
  }

  /** One read call: any number of bytes up to `want`, and none exactly at the end of the file. */
  method ReadSome(file: Bytes, pos: nat, want: nat) returns (bytes: Bytes)
    requires want > 0
    ensures |bytes| <= want && (bytes == [] <==> pos >= |file|)
    ensures bytes != [] ==> pos + |bytes| <= |file| && bytes == file[pos..pos + |bytes|]
  {
    if pos >= |file| {
      return [];
    }
    var n: nat :| 1 <= n <= want && pos + n <= |file|;
    return file[pos..pos + n];
  }

  lemma SliceGrows(file: Bytes, offset: nat, done: nat, bytes: Bytes)
    requires offset + done + |bytes| <= |file| && bytes == file[offset + done..offset + done + |bytes|]
    ensures Slice(file, offset, done) + bytes == Slice(file, offset, done + |bytes|)
  {
  }

  /** The host's read stream. */
  method ReadFile(file: Bytes, offset: nat, length: nat) returns (chunks: seq<Bytes>)
    ensures Concat(chunks) == Slice(file, offset, length)
    ensures forall c | c in chunks :: 0 < |c| <= 65_536
  {
    chunks := [];
    var left := length;
    var pos := offset;
    ghost var done := 0;
    while left > 0
      invariant 0 <= left && done == length - left && pos == offset + done
      invariant Concat(chunks) == Slice(file, offset, done)
      invariant forall c | c in chunks :: 0 < |c| <= CHUNK_SIZE
    {
      var want := Min(left, CHUNK_SIZE);
      var bytes := ReadSome(file, pos, want);
      if |bytes| == 0 {
        SliceEnds(file, offset, done, length);
        return;
      }
      ConcatSnoc(chunks, bytes);
      SliceGrows(file, offset, done, bytes);
      chunks := chunks + [bytes];
      left := left - |bytes|;
      pos := pos + |bytes|;
      done := done + |bytes|;
    }
  }

  lemma SliceEnds(file: Bytes, offset: nat, done: nat, length: nat)
    requires offset + done >= |file| && done <= length
    ensures Slice(file, offset, done) == Slice(file, offset, length)
  {
  }

  /** The client's ranged read: whatever the chunking, the bytes are the slice of the file. */
  method ReadRange(file: Bytes, offset: nat, length: nat) returns (buf: Bytes)
    ensures buf == Slice(file, offset, length)
  {
    var chunks := ReadFile(file, offset, length);
    buf := [];
    for i := 0 to |chunks|
      invariant buf == Concat(chunks[..i])
    {
      ConcatSnoc(chunks[..i], chunks[i]);
      assert chunks[..i] + [chunks[i]] == chunks[..i + 1];
      buf := buf + chunks[i];
    }
    assert chunks[..|chunks|] == chunks;
  }
}
