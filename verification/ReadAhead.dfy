/**
 The read-ahead buffer: one aligned block of a file kept in memory. `Buffer` is its
 shape as a value, together with the number of fetches made so far; the class below
 adds the bytes.
 */
module ReadAhead {
  import opened Basics
  import opened Octets

  /** `start` is negative until the first successful fetch. */
  datatype Buffer = Buffer(start: int, length: nat, fetches: nat)

  const FRESH := Buffer(-1, 0, 0)

  /** The bytes the n-th fetch returns for an offset and a length. */
  type Fetch = (nat, nat, nat) -> Bytes

  /** A fetch returns a prefix of what was asked for: short reads and empty ones are possible. */
  ghost predicate Honest(file: Bytes, fetch: Fetch) {
    forall n: nat, offset: nat, length: nat {:trigger Prefix(file, offset, length, fetch(n, offset, length))}
      | offset + length <= |file| :: Prefix(file, offset, length, fetch(n, offset, length))
  }

  ghost predicate Prefix(file: Bytes, offset: nat, length: nat, bytes: Bytes)
    requires offset + length <= |file|
  {
    |bytes| <= length && forall i | 0 <= i < |bytes| :: bytes[i] == file[offset + i]
  }

  ghost predicate Full(file: Bytes, fetch: Fetch) {
    forall n: nat, offset: nat, length: nat | offset + length <= |file| :: |fetch(n, offset, length)| == length
  }

  // ---------------------------------------------------------------------
  // Filling the buffer
  // ---------------------------------------------------------------------

  predicate Covers(b: Buffer, pos: int) {
    b.start >= 0 && b.start <= pos < b.start + b.length
  }

  /** The start of the block that holds the position. */
  function BlockStart(pos: nat, blockSize: nat): (start: nat)
    requires blockSize > 0
    ensures start <= pos < start + blockSize
  {
    if pos < blockSize then 0 else blockSize + BlockStart(pos - blockSize, blockSize)
  }

  /** The buffer after the block of a position was fetched; an empty answer changes nothing. */
  function Refill(b: Buffer, pos: nat, fileSize: nat, blockSize: nat, fetch: Fetch): Buffer
    requires blockSize > 0
  {
    if pos >= fileSize then b
    else
      var start := BlockStart(pos, blockSize);
      var length := |fetch(b.fetches, start, Min(blockSize, fileSize - start))|;
      if length == 0 then b.(fetches := b.fetches + 1) else Buffer(start, length, b.fetches + 1)
  }

  /** How a buffer is refilled for a position. */
  type Filler = (Buffer, nat) -> Buffer

  function Filling(fileSize: nat, blockSize: nat, fetch: Fetch): (fill: Filler)
    requires blockSize > 0
    ensures Refills(fill, fileSize, blockSize, fetch)
  {
    (b: Buffer, pos: nat) => Refill(b, pos, fileSize, blockSize, fetch)
  }

  ghost predicate Refills(fill: Filler, fileSize: nat, blockSize: nat, fetch: Fetch)
    requires blockSize > 0
  {
    forall b: Buffer, pos: nat {:trigger Refill(b, pos, fileSize, blockSize, fetch)} ::
      fill(b, pos) == Refill(b, pos, fileSize, blockSize, fetch)
  }

  // ---------------------------------------------------------------------
  // Reading
  // ---------------------------------------------------------------------

  /** The buffer before the next copy: refilled unless it covers the position. */
  function Ready(b: Buffer, pos: nat, fill: Filler): Buffer {
    if Covers(b, pos) then b else fill(b, pos)
  }

  /** How much one pass copies from a buffer that covers the position. */
  function Span(r: Buffer, pos: nat, want: nat): (n: nat)
    requires Covers(r, pos)
    ensures want > 0 ==> 0 < n <= want
  {
    Min(want, r.length - (pos - r.start))
  }

  /** The buffer one read leaves, pass by pass, and how many bytes it copies. */
  function Copy(b: Buffer, pos: nat, want: nat, fill: Filler): (result: (Buffer, nat))
    ensures result.1 <= want
    decreases want
  {
    if want == 0 then (b, 0)
    else
      var r := Ready(b, pos, fill);
      if !Covers(r, pos) then (r, 0)
      else
        var n := Span(r, pos, want);
        var (after, more) := Copy(r, pos + n, want - n, fill);
        (after, n + more)
  }

  /** One pass of a copy: what is left to do after it, and when it is the last. */
  lemma CopyPassed(b: Buffer, r: Buffer, pos: nat, want: nat, n: nat, fill: Filler, all: (Buffer, nat), before: nat)
    requires want > 0 && r == Ready(b, pos, fill) && n == (if Covers(r, pos) then Span(r, pos, want) else 0)
    requires Continues(b, pos, want, fill, all, before)
    ensures n == 0 ==> all == (r, before)
    ensures n > 0 ==> n <= want && Continues(r, pos + n, want - n, fill, all, before + n)
  {
  }

  /** `all` is the outcome of a copy that has done `before` bytes and goes on from here. */
  ghost predicate Continues(b: Buffer, pos: nat, want: nat, fill: Filler, all: (Buffer, nat), before: nat) {
    all == (Copy(b, pos, want, fill).0, before + Copy(b, pos, want, fill).1)
  }

  /** The length a read is clamped to. */
  function Wanted(offset: int, size: int, room: nat, fileSize: nat): (want: nat)
    ensures !(0 <= offset < fileSize && size > 0) ==> want == 0
    ensures 0 <= offset < fileSize && size > 0 ==>
              && want <= size && want <= room && offset + want <= fileSize
              && (want == size || want == room || offset + want == fileSize)
  {
    if offset < 0 || offset >= fileSize || size <= 0 then 0 else Min(size, Min(fileSize - offset, room))
  }

  // ---------------------------------------------------------------------
  // Full fetches
  // ---------------------------------------------------------------------

  /** The buffer is empty or holds one whole aligned block. */
  ghost predicate WholeBlock(b: Buffer, fileSize: nat, blockSize: nat) {
    b.start >= 0 ==> b.start < fileSize && b.length == Min(blockSize, fileSize - b.start)
  }

  /** Each refill costs one fetch and brings the whole block of the position. */
  ghost predicate WholeFiller(fileSize: nat, blockSize: nat, fill: Filler)
    requires blockSize > 0
  {
    forall b, pos: nat | pos < fileSize ::
      var r := fill(b, pos);
      WholeBlock(r, fileSize, blockSize) && r.start == BlockStart(pos, blockSize) && r.fetches == b.fetches + 1
  }

  lemma FullFills(file: Bytes, blockSize: nat, fetch: Fetch)
    requires blockSize > 0 && Full(file, fetch)
    ensures WholeFiller(|file|, blockSize, Filling(|file|, blockSize, fetch))
  {
    forall b, pos: nat | pos < |file|
      ensures var r := Filling(|file|, blockSize, fetch)(b, pos);
              WholeBlock(r, |file|, blockSize) && r.start == BlockStart(pos, blockSize) && r.fetches == b.fetches + 1
    {
      var start := BlockStart(pos, blockSize);
      var length := Min(blockSize, |file| - start);
      assert |fetch(b.fetches, start, length)| == length > 0;
    }
  }

  lemma FilledCovers(b: Buffer, fileSize: nat, pos: nat, blockSize: nat, fill: Filler)
    requires blockSize > 0 && pos < fileSize
    requires WholeFiller(fileSize, blockSize, fill) && WholeBlock(b, fileSize, blockSize)
    ensures Covers(Ready(b, pos, fill), pos) && WholeBlock(Ready(b, pos, fill), fileSize, blockSize)
  {
  }

  /** With full fetches a read returns everything it was clamped to. */
  lemma {:induction false} FullCopy(b: Buffer, fileSize: nat, pos: nat, want: nat, blockSize: nat, fill: Filler)
    requires blockSize > 0 && pos + want <= fileSize
    requires WholeFiller(fileSize, blockSize, fill) && WholeBlock(b, fileSize, blockSize)
    ensures Copy(b, pos, want, fill).1 == want
    decreases want
  {
    if want > 0 {
      FilledCovers(b, fileSize, pos, blockSize, fill);
      var r := Ready(b, pos, fill);
      var n := Span(r, pos, want);
      FullCopy(r, fileSize, pos + n, want - n, blockSize, fill);
    }
  }

  /**
   With full fetches a read within one block costs no fetch when the block is in the buffer, and one otherwise, which
   leaves the block in the buffer.
   */
  lemma ReadInBlockCost(b: Buffer, fileSize: nat, pos: nat, want: nat, blockSize: nat, fill: Filler)
    requires blockSize > 0 && WholeFiller(fileSize, blockSize, fill) && WholeBlock(b, fileSize, blockSize)
    requires 0 < want && pos + want <= fileSize && pos + want <= BlockStart(pos, blockSize) + blockSize
    requires b.start >= 0 ==> BlockStart(b.start, blockSize) == b.start
    ensures var (after, copied) := Copy(b, pos, want, fill);
            && copied == want && after.start == BlockStart(pos, blockSize)
            && after.fetches == b.fetches + (if b.start == BlockStart(pos, blockSize) then 0 else 1)
  {
    var start := BlockStart(pos, blockSize);
    FilledCovers(b, fileSize, pos, blockSize, fill);
    BlocksDoNotOverlap(b.start, pos, blockSize);
    var r := Ready(b, pos, fill);
    assert r.start == start && Span(r, pos, want) == want;
    assert Copy(r, pos + want, 0, fill) == (r, 0);
  }

  /** A position lies in one block only. */
  lemma {:induction false} BlocksDoNotOverlap(start: int, pos: nat, blockSize: nat)
    requires blockSize > 0 && (start >= 0 ==> BlockStart(start, blockSize) == start)
    ensures start >= 0 && start <= pos < start + blockSize ==> BlockStart(pos, blockSize) == start
    decreases pos
  {
    if start >= 0 && start <= pos && pos >= blockSize {
      if start >= blockSize { BlocksDoNotOverlap(start - blockSize, pos - blockSize, blockSize); }
    }
  }

  /** A fetch that brings nothing costs a fetch and leaves the block as it was. */
  lemma FailedFetchKeepsBlock(b: Buffer, pos: nat, fileSize: nat, blockSize: nat, fetch: Fetch)
    requires blockSize > 0 && pos < fileSize
    requires forall n: nat, offset: nat, length: nat :: fetch(n, offset, length) == []
    ensures var after := Copy(b, pos, 1, Filling(fileSize, blockSize, fetch)).0;
            && after.start == b.start && after.length == b.length
            && after.fetches == b.fetches + (if Covers(b, pos) then 0 else 1)
  {
  }

  // ---------------------------------------------------------------------
  // Sequential reading
  // ---------------------------------------------------------------------

  /** The first position after `k` blocks. */
  function Edge(k: nat, blockSize: nat): nat {
    if k == 0 then 0 else Edge(k - 1, blockSize) + blockSize
  }

  lemma {:induction false} EdgeStartsBlock(k: nat, blockSize: nat)
    requires blockSize > 0
    ensures BlockStart(Edge(k, blockSize), blockSize) == Edge(k, blockSize)
  {
    if k > 0 {
      EdgeStartsBlock(k - 1, blockSize);
    }
  }

  /** Everything before `pos` was read in order, one fetch a block; the last block is in the buffer. */
  ghost predicate ReadUpTo(b: Buffer, fileSize: nat, pos: nat, blockSize: nat) {
    && pos <= fileSize && WholeBlock(b, fileSize, blockSize)
    && (if pos == 0 then b.start < 0 && b.fetches == 0
        else b.fetches > 0 && b.start == Edge(b.fetches - 1, blockSize) && b.start < pos <= b.start + blockSize)
  }

  /** One pass of a sequential read that fetches the next block. */
  lemma FetchStep(b: Buffer, r: Buffer, fileSize: nat, pos: nat, n: nat, blockSize: nat)
    requires blockSize > 0 && pos < fileSize && ReadUpTo(b, fileSize, pos, blockSize) && !Covers(b, pos)
    requires WholeBlock(r, fileSize, blockSize) && r.start == BlockStart(pos, blockSize) && r.fetches == b.fetches + 1
    requires 0 < n <= r.length - (pos - r.start)
    ensures ReadUpTo(r, fileSize, pos + n, blockSize)
  {
    assert pos == Edge(b.fetches, blockSize);
    EdgeStartsBlock(b.fetches, blockSize);
  }

  /** One pass of a sequential read leaves a buffer that reaches the end of what it copied. */
  lemma PassReadsUpTo(b: Buffer, fileSize: nat, pos: nat, want: nat, blockSize: nat, fill: Filler)
    requires blockSize > 0 && want > 0 && pos + want <= fileSize && WholeFiller(fileSize, blockSize, fill)
    requires ReadUpTo(b, fileSize, pos, blockSize)
    ensures var r := Ready(b, pos, fill);
            Covers(r, pos) && ReadUpTo(r, fileSize, pos + Span(r, pos, want), blockSize)
  {
    FilledCovers(b, fileSize, pos, blockSize, fill);
    if !Covers(b, pos) {
      var r := fill(b, pos);
      FetchStep(b, r, fileSize, pos, Span(r, pos, want), blockSize);
    }
  }

  lemma {:induction false} SequentialCopy(b: Buffer, fileSize: nat, pos: nat, want: nat, end: nat, blockSize: nat,
        fill: Filler)
    requires blockSize > 0 && pos + want == end <= fileSize && WholeFiller(fileSize, blockSize, fill)
    requires ReadUpTo(b, fileSize, pos, blockSize)
    ensures ReadUpTo(Copy(b, pos, want, fill).0, fileSize, end, blockSize)
    decreases want
  {
    if want > 0 {
      PassReadsUpTo(b, fileSize, pos, want, blockSize, fill);
      var r := Ready(b, pos, fill);
      var n := Span(r, pos, want);
      SequentialCopy(r, fileSize, pos + n, want - n, end, blockSize, fill);
    }
  }

  /** Reads of the given sizes one after the other, each starting where the last one ended. */
  function ReadInOrder(b: Buffer, pos: nat, sizes: seq<nat>, fileSize: nat, fill: Filler): (Buffer, nat)
    decreases |sizes|
  {
    if sizes == [] then (b, pos)
    else
      var want := Wanted(pos, sizes[0], sizes[0], fileSize);
      ReadInOrder(Copy(b, pos, want, fill).0, pos + want, sizes[1..], fileSize, fill)
  }

  lemma {:induction false} SequentialReads(b: Buffer, fileSize: nat, pos: nat, sizes: seq<nat>, blockSize: nat,
        fill: Filler)
    requires blockSize > 0 && WholeFiller(fileSize, blockSize, fill) && ReadUpTo(b, fileSize, pos, blockSize)
    ensures var (after, end) := ReadInOrder(b, pos, sizes, fileSize, fill);
            ReadUpTo(after, fileSize, end, blockSize)
    decreases |sizes|
  {
    if sizes != [] {
      var want := Wanted(pos, sizes[0], sizes[0], fileSize);
      SequentialCopy(b, fileSize, pos, want, pos + want, blockSize, fill);
      SequentialReads(Copy(b, pos, want, fill).0, fileSize, pos + want, sizes[1..], blockSize, fill);
    }
  }

  /** Reading a whole file in order, in any chunk sizes, costs as many fetches as the file has blocks. */
  lemma CompleteReadCost(file: Bytes, sizes: seq<nat>, blockSize: nat, fetch: Fetch)
    requires blockSize > 0 && Full(file, fetch)
    requires ReadInOrder(FRESH, 0, sizes, |file|, Filling(|file|, blockSize, fetch)).1 == |file|
    ensures ReadInOrder(FRESH, 0, sizes, |file|, Filling(|file|, blockSize, fetch)).0.fetches
            == (|file| + blockSize - 1) / blockSize
  {
    var fill := Filling(|file|, blockSize, fetch);
    FullFills(file, blockSize, fetch);
    SequentialReads(FRESH, |file|, 0, sizes, blockSize, fill);
    FetchesAreCeiling(ReadInOrder(FRESH, 0, sizes, |file|, fill).0, |file|, blockSize);
  }

  lemma FetchesAreCeiling(b: Buffer, fileSize: nat, blockSize: nat)
    requires blockSize > 0 && ReadUpTo(b, fileSize, fileSize, blockSize)
    ensures b.fetches == (fileSize + blockSize - 1) / blockSize
  {
    if fileSize == 0 {
      DivUnique(blockSize - 1, blockSize, 0, blockSize - 1);
    } else {
      EdgeIsProduct(b.fetches - 1, blockSize);
      var k := b.fetches;
      assert k * blockSize == (k - 1) * blockSize + blockSize;
      DivUnique(fileSize + blockSize - 1, blockSize, k, fileSize - 1 - b.start);
    }
  }

  lemma {:induction false} EdgeIsProduct(k: nat, blockSize: nat)
    ensures Edge(k, blockSize) == k * blockSize
  {
    if k > 0 {
      EdgeIsProduct(k - 1, blockSize);
      assert k * blockSize == (k - 1) * blockSize + blockSize;
    }
  }

  // ---------------------------------------------------------------------
  // Division
  // ---------------------------------------------------------------------

  /** The division in the code finds the same block. */
  lemma {:induction false} BlockStartDivides(pos: nat, blockSize: nat)
    requires blockSize > 0
    ensures BlockStart(pos, blockSize) == pos / blockSize * blockSize
  {
    if pos < blockSize {
      DivUnique(pos, blockSize, 0, pos);
    } else {
      BlockStartDivides(pos - blockSize, blockSize);
      DivPlusOne(pos - blockSize, blockSize);
      var q := (pos - blockSize) / blockSize;
      assert (q + 1) * blockSize == q * blockSize + blockSize;
    }
  }

  lemma DivPlusOne(a: nat, blockSize: nat)
    requires blockSize > 0
    ensures (a + blockSize) / blockSize == a / blockSize + 1
  {
    var q, r := a / blockSize, a % blockSize;
    assert a == q * blockSize + r;
    assert a + blockSize == (q + 1) * blockSize + r;
    DivUnique(a + blockSize, blockSize, q + 1, r);
  }

  lemma DivUnique(a: nat, blockSize: nat, q: nat, r: nat)
    requires blockSize > 0 && a == q * blockSize + r && r < blockSize
    ensures a / blockSize == q
  {
    var q', r' := a / blockSize, a % blockSize;
    assert a == q' * blockSize + r';
    assert (q - q') * blockSize == r' - r;
    if q > q' { MulAtLeast(q - q', blockSize); }
    if q < q' { MulAtLeast(q' - q, blockSize); }
  }

  lemma MulAtLeast(k: nat, blockSize: nat)
    requires k > 0
    ensures k * blockSize >= blockSize
  {
  }

  // ---------------------------------------------------------------------
  // The destination of a read
  // ---------------------------------------------------------------------

  /** `n` bytes of `source` from `from` on were copied to `at`; the others are as they were. */
  ghost predicate Placed(now: Bytes, was: Bytes, at: nat, source: Bytes, from: nat, n: nat) {
    && |now| == |was| && at + n <= |now| && from + n <= |source|
    && forall i | 0 <= i < |now| :: now[i] == if at <= i < at + n then source[from + (i - at)] else was[i]
  }

  /** Two copies one after the other, of neighbouring pieces. */
  lemma PlacedMore(was: Bytes, now: Bytes, later: Bytes, source: Bytes, from: nat, done: nat, n: nat)
    requires Placed(now, was, 0, source, from, done) && Placed(later, now, done, source, from + done, n)
    ensures Placed(later, was, 0, source, from, done + n)
  {
  }

  /** A copy out of a block is a copy out of the file the block was read from. */
  lemma PlacedFromBlock(now: Bytes, was: Bytes, at: nat, data: Bytes, file: Bytes, start: nat, within: nat, n: nat)
    requires start + |data| <= |file| && forall i | 0 <= i < |data| :: data[i] == file[start + i]
    requires Placed(now, was, at, data, within, n)
    ensures Placed(now, was, at, file, start + within, n)
  {
  }

  // ---------------------------------------------------------------------
  // The buffer
  // ---------------------------------------------------------------------

  class ReadAheadBuffer {
    const fileSize: nat
    const blockSize: nat
    const fetch: Fetch
    ghost const file: Bytes
    ghost const fill: Filler
    var start: int
    var data: Bytes
    var fetches: nat

    constructor (fileSize: nat, blockSize: nat, fetch: Fetch, ghost file: Bytes)
      requires blockSize > 0 && |file| == fileSize && Honest(file, fetch)
      ensures Valid() && this.blockSize == blockSize && this.fetch == fetch && this.file == file
      ensures Now() == FRESH && fill == Filling(fileSize, blockSize, fetch)
    {
      this.fileSize, this.blockSize, this.fetch, this.file := fileSize, blockSize, fetch, file;
      fill := Filling(fileSize, blockSize, fetch);
      start, data, fetches := -1, [], 0;
    }

    function Now(): Buffer
      reads this
    {
      Buffer(start, |data|, fetches)
    }

    /** Fetches are honest about the file, and the buffer holds bytes of it. */
    ghost predicate Valid()
      reads this
    {
      && blockSize > 0 && |file| == fileSize && Honest(file, fetch) && Refills(fill, fileSize, blockSize, fetch)
      && (start >= 0 ==> start + |data| <= |file| && forall i | 0 <= i < |data| :: data[i] == file[start + i])
    }

    method FillBlock(pos: nat)
      requires Valid() && pos < fileSize
      modifies `start, `data, `fetches
      ensures Valid() && Now() == fill(old(Now()), pos)
    {
      assert fill(Now(), pos) == Refill(Now(), pos, fileSize, blockSize, fetch);
      var blockStart := pos / blockSize * blockSize;
      BlockStartDivides(pos, blockSize);
      var length := Min(blockSize, fileSize - blockStart);
      var bytes := fetch(fetches, blockStart, length);
      assert Prefix(file, blockStart, length, bytes);
      fetches := fetches + 1;
      if |bytes| != 0 {
        start := blockStart;
        data := bytes;
      }
    }

    /** Refill unless the block covers the position; false when it still does not. */
    method EnsureCovered(pos: nat) returns (covered: bool)
      requires Valid() && pos < fileSize
      modifies `start, `data, `fetches
      ensures Valid() && Now() == Ready(old(Now()), pos, fill)
      ensures covered == Covers(Now(), pos)
    {
      if !(start >= 0 && start <= pos < start + |data|) {
        FillBlock(pos);
      }
      covered := start >= 0 && start <= pos < start + |data|;
    }

    /** Copies into `dest` from its beginning; the rest of `dest` is left alone. */
    method Read(offset: int, size: int, dest: array<byte>) returns (copied: nat)
      requires Valid()
      modifies `start, `data, `fetches, dest
      ensures Valid()
      ensures copied <= Wanted(offset, size, dest.Length, fileSize)
      ensures copied > 0 ==> dest[..copied] == file[offset..offset + copied]
      ensures dest[copied..] == old(dest[..])[copied..]
      ensures var want := Wanted(offset, size, dest.Length, fileSize);
              (Now(), copied) == if want == 0 then (old(Now()), 0) else Copy(old(Now()), offset, want, fill)
    {
      if offset < 0 || offset >= fileSize || size <= 0 {
        return 0;
      }
      var want := Min(size, Min(fileSize - offset, dest.Length));
      copied := ReadClamped(offset, want, dest);
    }

    method ReadClamped(offset: nat, want: nat, dest: array<byte>) returns (copied: nat)
      requires Valid() && offset + want <= fileSize && want <= dest.Length
      modifies `start, `data, `fetches, dest
      ensures Valid() && copied <= want
      ensures Placed(dest[..], old(dest[..]), 0, file, offset, copied)
      ensures (Now(), copied) == Copy(old(Now()), offset, want, fill)
    {
      ghost var all, was := Copy(Now(), offset, want, fill), dest[..];
      copied := 0;
      while copied < want
        invariant Valid() && copied <= want
        invariant Continues(Now(), offset + copied, want - copied, fill, all, copied)
        invariant Placed(dest[..], was, 0, file, offset, copied)
      {
        var n := CopyPass(offset, want, copied, dest, was, all);
        copied := copied + n;
        if n == 0 {
          return;
        }
      }
    }

    /** One pass of the loop: nothing is copied exactly when the refilled block does not reach the position. */
    method CopyPass(offset: nat, want: nat, copied: nat, dest: array<byte>, ghost was: Bytes, ghost all: (Buffer, nat))
      returns (n: nat)
      requires Valid() && copied < want <= dest.Length && offset + want <= fileSize
      requires Continues(Now(), offset + copied, want - copied, fill, all, copied)
      requires Placed(dest[..], was, 0, file, offset, copied)
      modifies `start, `data, `fetches, dest
      ensures Valid() && copied + n <= want
      ensures if n == 0 then all == (Now(), copied)
              else Continues(Now(), offset + (copied + n), want - (copied + n), fill, all, copied + n)
      ensures Placed(dest[..], was, 0, file, offset, copied + n)
    {
      ghost var before, now := Now(), dest[..];
      var pos := offset + copied;
      var covered := EnsureCovered(pos);
      if !covered {
        CopyPassed(before, Now(), pos, want - copied, 0, fill, all, copied);
        assert dest[..] == now;
        return 0;
      }
      var within := pos - start;
      n := Min(want - copied, |data| - within);
      CopyInto(dest, copied, within, n);
      PlacedFromBlock(dest[..], now, copied, data, file, start, within, n);
      PlacedMore(was, now, dest[..], file, offset, copied, n);
      CopyPassed(before, Now(), pos, want - copied, n, fill, all, copied);
      assert pos + n == offset + (copied + n) && want - copied - n == want - (copied + n);
    }

    /** The array copy out of the block. */
    method CopyInto(dest: array<byte>, at: nat, within: nat, n: nat)
      requires at + n <= dest.Length && within + n <= |data|
      modifies dest
      ensures Placed(dest[..], old(dest[..]), at, data, within, n)
    {
      forall i | 0 <= i < n {
        dest[at + i] := data[within + i];
      }
    }
  }
}
