/**
 Whole runs of the host: any sequence of writes (unary or streaming), deletes,
 renames and garbage-collection sweeps. A streaming write is the same event as a
 unary one, because `Host.FileService.WriteFileStream` ends in `HostWrite`.
 */
module HostRuns {
  import opened Octets
  import opened Clocks
  import opened Host

  datatype Event =
    | Write(key: string, data: Bytes, clock: Clock, writer: string, now: nat, stamp: string)
    | Delete(key: string, clock: Clock, now: nat)
    | Rename(source: string, target: string, clock: Clock, now: nat)
    | Sweep(after: HostState)

  function Perform(h: HostState, e: Event): (HostState, Answer) {
    match e
    case Write(key, data, clock, writer, now, stamp) => HostWrite(h, key, data, clock, writer, now, stamp)
    case Delete(key, clock, now) => HostDelete(h, key, clock, now)
    case Rename(source, target, clock, now) => HostRename(h, source, target, clock, now)
    case Sweep(after) => (after, Answer(Applied, map[], ""))
  }

  function Next(h: HostState, e: Event): HostState { Perform(h, e).0 }

  function VerdictOf(h: HostState, e: Event): Verdict { Perform(h, e).1.verdict }

  /** This write saves its data beside the live file. */
  predicate SavesBeside(h: HostState, e: Event) {
    e.Write? && !Tombstoned(h, e.key) && Compare(e.clock, Effective(h, e.key)) == Concurrent
  }

  function Sibling(e: Event): string
    requires e.Write?
  {
    ConflictName(e.key, e.writer, e.stamp)
  }

  predicate Unused(h: HostState, key: string) {
    key !in h.disk && key !in h.clocks && key !in h.tombstones
  }

  /** A sweep only forgets: files stay, and so does the clock of every path that has one. */
  predicate SafeSweep(h: HostState, after: HostState) {
    && after.disk == h.disk
    && (forall k | k in after.clocks :: k in h.clocks && after.clocks[k] == h.clocks[k])
    && (forall k | k in after.tombstones :: k in h.tombstones && after.tombstones[k] == h.tombstones[k])
    && (forall k | k in h.clocks && k in h.disk :: k in after.clocks)
  }

  /** A conflict copy does not reuse the name of a deleted path, and sweeps are safe. */
  predicate Allowed(h: HostState, e: Event) {
    && (SavesBeside(h, e) ==> !Tombstoned(h, Sibling(e)))
    && (e.Sweep? ==> SafeSweep(h, e.after))
  }

  ghost predicate Run(states: seq<HostState>, events: seq<Event>) {
    && |states| == |events| + 1
    && forall i {:trigger events[i]} | 0 <= i < |events| ::
         Allowed(states[i], events[i]) && states[i + 1] == Next(states[i], events[i])
  }

  lemma SiblingDiffers(e: Event)
    requires e.Write?
    ensures Sibling(e) != e.key
  {
    assert |Sibling(e)| > |e.key|;
  }

  // ---------------------------------------------------------------------
  // A deleted path has neither a live clock nor a file
  // ---------------------------------------------------------------------

  ghost predicate Exclusive(h: HostState) {
    forall k | Tombstoned(h, k) :: k !in h.disk && k !in h.clocks
  }

  lemma ExclusiveStep(h: HostState, e: Event)
    requires Exclusive(h) && Allowed(h, e)
    ensures Exclusive(Next(h, e))
  {
    var h' := Next(h, e);
    forall k | Tombstoned(h', k) ensures k !in h'.disk && k !in h'.clocks {
      match e
      case Write(_, _, _, _, _, _) =>
        assert Tombstoned(h, k);
      case Delete(key, _, _) =>
        if k != key { assert Tombstoned(h, k); }
      case Rename(_, _, _, _) =>
        assert Tombstoned(h, k);
      case Sweep(_) =>
        assert Tombstoned(h, k);
    }
  }

  lemma {:induction false} ExclusiveRun(states: seq<HostState>, events: seq<Event>, n: nat)
    requires Run(states, events) && Exclusive(states[0]) && n <= |events|
    ensures Exclusive(states[n])
  {
    if n > 0 {
      ExclusiveRun(states, events, n - 1);
      ExclusiveStep(states[n - 1], events[n - 1]);
    }
  }

  /** A write keeps the two stores exclusive exactly when its conflict name is not itself a deleted path. */
  lemma ExclusiveNeedsFreshName(h: HostState, e: Event)
    requires Exclusive(h) && e.Write?
    ensures Exclusive(Next(h, e)) <==> (SavesBeside(h, e) ==> !Tombstoned(h, Sibling(e)))
  {
    var h' := Next(h, e);
    if SavesBeside(h, e) {
      assert Sibling(e) in h'.disk;
      forall k ensures Tombstoned(h', k) == Tombstoned(h, k) {
      }
      if !Tombstoned(h, Sibling(e)) {
        assert Exclusive(h');
      } else {
        assert Tombstoned(h', Sibling(e));
      }
    } else {
      ExclusiveStep(h, e);
    }
  }

  // ---------------------------------------------------------------------
  // The effective clock of a path
  // ---------------------------------------------------------------------

  /** Sweeps, renames of the path, and a conflict copy that takes the path's name and does not cover its clock. */
  predicate Touches(h: HostState, e: Event, key: string) {
    || e.Sweep?
    || (e.Rename? && (key == e.source || key == e.target))
    || (SavesBeside(h, e) && key == Sibling(e) && !Leq(Effective(h, key), e.clock))
  }

  lemma WriteNeverLowers(h: HostState, e: Event, key: string)
    requires e.Write? && Allowed(h, e) && !Touches(h, e, key)
    ensures Leq(Effective(h, key), Effective(Next(h, e), key))
  {
    if key == e.key {
      MergeIsLeastUpperBound(Effective(h, key), e.clock, map[]);
      SiblingDiffers(e);
    }
  }

  lemma DeleteNeverLowers(h: HostState, e: Event, key: string)
    requires e.Delete?
    ensures Leq(Effective(h, key), Effective(Next(h, e), key))
  {
    if key == e.key {
      MergeIsLeastUpperBound(Effective(h, key), e.clock, map[]);
    }
  }

  lemma RenameElsewhereKeeps(h: HostState, e: Event, key: string)
    requires e.Rename? && key != e.source && key != e.target
    ensures Effective(Next(h, e), key) == Effective(h, key)
  {
  }

  /** Nothing else lowers what the host knows about a path. */
  lemma EffectiveNeverDrops(h: HostState, e: Event, key: string)
    requires Allowed(h, e) && !Touches(h, e, key)
    ensures Leq(Effective(h, key), Effective(Next(h, e), key))
  {
    match e
    case Write(_, _, _, _, _, _) => WriteNeverLowers(h, e, key);
    case Delete(_, _, _) => DeleteNeverLowers(h, e, key);
    case Rename(_, _, _, _) => RenameElsewhereKeeps(h, e, key);
  }

  lemma EffectiveNeverDropsAt(states: seq<HostState>, events: seq<Event>, key: string, i: nat)
    requires Run(states, events) && i < |events| && !Touches(states[i], events[i], key)
    ensures Leq(Effective(states[i], key), Effective(states[i + 1], key))
  {
    EffectiveNeverDrops(states[i], events[i], key);
  }

  ghost predicate Untouched(states: seq<HostState>, events: seq<Event>, key: string, i: nat, n: nat)
    requires |states| > |events| >= n
  {
    forall j {:trigger events[j]} | i <= j < n :: !Touches(states[j], events[j], key)
  }

  lemma {:induction false} EffectiveNeverDropsOverRuns(states: seq<HostState>, events: seq<Event>, key: string,
        i: nat, n: nat)
    requires Run(states, events) && i <= n <= |events| && Untouched(states, events, key, i, n)
    ensures Leq(Effective(states[i], key), Effective(states[n], key))
    decreases n - i
  {
    if i < n {
      EffectiveNeverDropsAt(states, events, key, i);
      EffectiveNeverDropsOverRuns(states, events, key, i + 1, n);
      LeqTransitive(Effective(states[i], key), Effective(states[i + 1], key), Effective(states[n], key));
    }
  }

  /** A sweep keeps the effective clock of a path or forgets it altogether, and never forgets that of a file. */
  lemma SweepKeepsOrForgets(h: HostState, after: HostState, key: string)
    requires Exclusive(h) && SafeSweep(h, after)
    ensures Effective(after, key) == Effective(h, key) || Effective(after, key) == map[]
    ensures key in h.disk ==> Effective(after, key) == Effective(h, key)
  {
    if Tombstoned(h, key) {
      assert key !in h.clocks;
    } else {
      assert !Tombstoned(after, key);
    }
  }

  // ---------------------------------------------------------------------
  // No silent loss
  // ---------------------------------------------------------------------

  /** The host answered that it stored `data`, as the file or as a conflict copy. */
  predicate Accepted(h: HostState, e: Event, data: Bytes, clock: Clock) {
    e.Write? && e.data == data && e.clock == clock && VerdictOf(h, e) in {Applied, Conflict}
  }

  /** `data` is stored at `q`, under a clock that includes the one it was written with. */
  predicate HeldAt(h: HostState, q: string, data: Bytes, clock: Clock) {
    q in h.disk && h.disk[q] == data && Leq(clock, LiveClock(h, q))
  }

  // A rename that goes through: its guard, what arrives and under which clock.

  predicate GoesThrough(h: HostState, e: Event)
    requires e.Rename?
  {
    (Tombstoned(h, e.source) || e.source in h.disk) && Compare(e.clock, Effective(h, e.source)) != DominatedBy
  }

  function MovedContent(h: HostState, e: Event): Bytes
    requires e.Rename? && GoesThrough(h, e)
  {
    if Tombstoned(h, e.source) then [] else h.disk[e.source]
  }

  function MovedClock(h: HostState, e: Event): Clock
    requires e.Rename?
  {
    Merge(Effective(h, e.source), e.clock)
  }

  /** The event overwrites or deletes the file at `q`. */
  predicate Replaces(h: HostState, e: Event, q: string) {
    match e
    case Write(key, _, _, _, _, _) =>
      if SavesBeside(h, e) then q == Sibling(e) else q == key && VerdictOf(h, e) == Applied
    case Delete(key, _, _) => q == key && VerdictOf(h, e) == Deleted
    case Rename(source, target, _, _) => q == target && target != source && GoesThrough(h, e)
    case Sweep(_) => false
  }

  /** Some file outside `names` holds the content of `key` under a clock that includes the one of `key`. */
  ghost predicate CopiedElsewhere(h: HostState, key: string, names: set<string>)
    requires key in h.disk
  {
    exists q :: q !in names && HeldAt(h, q, h.disk[key], LiveClock(h, key))
  }

  /** What has to be true of a rename before it is served for nothing to be lost by it. */
  ghost predicate SparingRename(h: HostState, e: Event)
    requires e.Rename?
  {
    || !GoesThrough(h, e)
    || e.target == e.source
    || e.target !in h.disk
    || (MovedContent(h, e) == h.disk[e.target] && Leq(LiveClock(h, e.target), MovedClock(h, e)))
    || CopiedElsewhere(h, e.target, {e.source, e.target})
  }

  /** The same for a write that may be saved beside its file. */
  ghost predicate SparingCopy(h: HostState, e: Event)
    requires e.Write?
  {
    || !SavesBeside(h, e)
    || Sibling(e) !in h.disk
    || (e.data == h.disk[Sibling(e)] && Leq(LiveClock(h, Sibling(e)), e.clock))
    || CopiedElsewhere(h, Sibling(e), {Sibling(e)})
  }

  /** Nothing is lost, or only what the operation's own clock covers. */
  ghost predicate Sparing(h: HostState, e: Event) {
    match e
    case Write(_, _, _, _, _, _) => SparingCopy(h, e) || Leq(LiveClock(h, Sibling(e)), e.clock)
    case Rename(_, target, _, _) => SparingRename(h, e) || Leq(LiveClock(h, target), e.clock)
    case _ => true
  }

  lemma AcceptedIsHeld(h: HostState, e: Event, data: Bytes, clock: Clock)
    requires Accepted(h, e, data, clock)
    ensures exists q :: HeldAt(Next(h, e), q, data, clock)
  {
    MergeIsLeastUpperBound(Effective(h, e.key), clock, map[]);
    if SavesBeside(h, e) {
      assert HeldAt(Next(h, e), Sibling(e), data, clock);
    } else {
      assert HeldAt(Next(h, e), e.key, data, clock);
    }
  }

  /** The content is stored somewhere, under a clock that includes its own. */
  ghost predicate Held(h: HostState, data: Bytes, clock: Clock) {
    exists q :: HeldAt(h, q, data, clock)
  }

  /** The event overwrites or deletes the content where it is held, with a clock at or above the content's. */
  ghost predicate Supersedes(h: HostState, e: Event, data: Bytes, clock: Clock) {
    exists q :: HeldAt(h, q, data, clock) && Replaces(h, e, q) && Leq(clock, e.clock)
  }

  lemma HeldByWriteOrDelete(h: HostState, e: Event, q: string, data: Bytes, clock: Clock)
    requires Exclusive(h) && Allowed(h, e) && (e.Write? || e.Delete?)
    requires HeldAt(h, q, data, clock) && !(SavesBeside(h, e) && q == Sibling(e))
    ensures Held(Next(h, e), data, clock) || Supersedes(h, e, data, clock)
  {
    assert !Tombstoned(h, q);
    if e.key == q && Compare(e.clock, Effective(h, q)) in {Dominates, Equal} {
      LeqTransitive(clock, LiveClock(h, q), e.clock);
      assert HeldAt(h, q, data, clock) && Replaces(h, e, q);
    } else {
      assert HeldAt(Next(h, e), q, data, clock);
    }
  }

  lemma CopyAfter(h: HostState, e: Event)
    requires SavesBeside(h, e)
    ensures Next(h, e).disk == h.disk[Sibling(e) := e.data]
    ensures LiveClock(Next(h, e), Sibling(e)) == e.clock
    ensures forall q | q != Sibling(e) :: LiveClock(Next(h, e), q) == LiveClock(h, q)
  {
  }

  lemma SparedByCopy(h: HostState, e: Event, data: Bytes, clock: Clock)
    requires e.Write? && SavesBeside(h, e) && SparingCopy(h, e) && Held(h, data, clock)
    ensures Held(Next(h, e), data, clock)
  {
    var q :| HeldAt(h, q, data, clock);
    var key := Sibling(e);
    CopyAfter(h, e);
    if q != key {
      assert HeldAt(Next(h, e), q, data, clock);
    } else if e.data == h.disk[key] && Leq(LiveClock(h, key), e.clock) {
      LeqTransitive(clock, LiveClock(h, key), e.clock);
      assert HeldAt(Next(h, e), key, data, clock);
    } else {
      var q' :| q' !in {key} && HeldAt(h, q', h.disk[key], LiveClock(h, key));
      LeqTransitive(clock, LiveClock(h, key), LiveClock(h, q'));
      assert HeldAt(Next(h, e), q', data, clock);
    }
  }

  /**
   A conflict copy keeps every content held anywhere exactly when its name is free, or it covers what is
   already stored under that name, or a third file does.
   */
  lemma CopyKeepsContentExactly(h: HostState, e: Event)
    requires e.Write? && SavesBeside(h, e)
    ensures (forall data, clock :: Held(h, data, clock) ==> Held(Next(h, e), data, clock)) <==> SparingCopy(h, e)
  {
    if SparingCopy(h, e) {
      forall data, clock | Held(h, data, clock) ensures Held(Next(h, e), data, clock) {
        SparedByCopy(h, e, data, clock);
      }
    } else {
      OverwrittenCopyIsLost(h, e);
    }
  }

  lemma OverwrittenCopyIsLost(h: HostState, e: Event)
    requires e.Write? && SavesBeside(h, e) && !SparingCopy(h, e)
    ensures var data, clock := h.disk[Sibling(e)], LiveClock(h, Sibling(e));
            Held(h, data, clock) && !Held(Next(h, e), data, clock)
  {
    var data, clock := h.disk[Sibling(e)], LiveClock(h, Sibling(e));
    assert HeldAt(h, Sibling(e), data, clock);
    CopyAfter(h, e);
    forall q ensures !HeldAt(Next(h, e), q, data, clock) {
      if q != Sibling(e) { assert !HeldAt(h, q, data, clock); }
    }
  }

  lemma RenameAfter(h: HostState, e: Event)
    requires e.Rename? && Exclusive(h)
    ensures !GoesThrough(h, e) ==> Next(h, e) == h
    ensures GoesThrough(h, e) ==>
              && Next(h, e).disk == (h.disk - {e.source})[e.target := MovedContent(h, e)]
              && LiveClock(Next(h, e), e.target) == MovedClock(h, e)
              && forall q | q != e.source && q != e.target :: LiveClock(Next(h, e), q) == LiveClock(h, q)
  {
    assert Tombstoned(h, e.source) ==> h.disk - {e.source} == h.disk;
  }

  /** Content under any name but the destination survives a rename. */
  lemma HeldByRename(h: HostState, e: Event, q: string, data: Bytes, clock: Clock)
    requires Exclusive(h) && e.Rename? && HeldAt(h, q, data, clock)
    requires q != e.target || e.target == e.source || !GoesThrough(h, e)
    ensures Held(Next(h, e), data, clock)
  {
    RenameAfter(h, e);
    if GoesThrough(h, e) && q == e.source {
      assert !Tombstoned(h, q);
      MergeIsLeastUpperBound(LiveClock(h, q), e.clock, map[]);
      LeqTransitive(clock, LiveClock(h, q), MovedClock(h, e));
      assert HeldAt(Next(h, e), e.target, data, clock);
    } else {
      assert HeldAt(Next(h, e), q, data, clock);
    }
  }

  lemma SparedByRename(h: HostState, e: Event, data: Bytes, clock: Clock)
    requires Exclusive(h) && e.Rename? && SparingRename(h, e) && HeldAt(h, e.target, data, clock)
    ensures Held(Next(h, e), data, clock)
  {
    RenameAfter(h, e);
    if !GoesThrough(h, e) || e.target == e.source {
      HeldByRename(h, e, e.target, data, clock);
    } else if MovedContent(h, e) == h.disk[e.target] && Leq(LiveClock(h, e.target), MovedClock(h, e)) {
      LeqTransitive(clock, LiveClock(h, e.target), MovedClock(h, e));
      assert HeldAt(Next(h, e), e.target, data, clock);
    } else {
      var q :| q !in {e.source, e.target} && HeldAt(h, q, h.disk[e.target], LiveClock(h, e.target));
      LeqTransitive(clock, LiveClock(h, e.target), LiveClock(h, q));
      HeldByRename(h, e, q, data, clock);
    }
  }

  /**
   A rename does not look at its destination. It keeps every content held anywhere exactly when it does not
   pass its guard, or its destination is its source or free, or the moved file covers the destination's
   content and clock, or a third file does.
   */
  lemma RenameKeepsContentExactly(h: HostState, e: Event)
    requires e.Rename? && Exclusive(h)
    ensures (forall data, clock :: Held(h, data, clock) ==> Held(Next(h, e), data, clock)) <==> SparingRename(h, e)
  {
    if SparingRename(h, e) {
      forall data, clock | Held(h, data, clock) ensures Held(Next(h, e), data, clock) {
        var q :| HeldAt(h, q, data, clock);
        if q == e.target { SparedByRename(h, e, data, clock); } else { HeldByRename(h, e, q, data, clock); }
      }
    } else {
      UnsparedIsLost(h, e);
    }
  }

  lemma UnsparedIsLost(h: HostState, e: Event)
    requires e.Rename? && Exclusive(h) && !SparingRename(h, e)
    ensures Held(h, h.disk[e.target], LiveClock(h, e.target))
    ensures !Held(Next(h, e), h.disk[e.target], LiveClock(h, e.target))
  {
    var data, clock := h.disk[e.target], LiveClock(h, e.target);
    assert HeldAt(h, e.target, data, clock);
    RenameAfter(h, e);
    forall q ensures !HeldAt(Next(h, e), q, data, clock) {
      if q != e.target && q != e.source { assert !HeldAt(h, q, data, clock); }
    }
  }

  /** One step: held content stays, or is replaced by an operation that knew it. */
  lemma HeldOrSuperseded(h: HostState, e: Event, data: Bytes, clock: Clock)
    requires Exclusive(h) && Allowed(h, e) && Sparing(h, e) && Held(h, data, clock)
    ensures Held(Next(h, e), data, clock) || Supersedes(h, e, data, clock)
  {
    var q :| HeldAt(h, q, data, clock);
    match e {
      case Write(_, _, _, _, _, _) =>
        if SavesBeside(h, e) {
          HeldOrCopiedOver(h, e, q, data, clock);
        } else {
          HeldByWriteOrDelete(h, e, q, data, clock);
        }
      case Delete(_, _, _) => HeldByWriteOrDelete(h, e, q, data, clock);
      case Rename(_, _, _, _) => HeldOrRenamedOver(h, e, q, data, clock);
      case Sweep(after) =>
        assert q in h.clocks ==> q in after.clocks;
        assert q !in h.clocks ==> q !in after.clocks;
        assert HeldAt(after, q, data, clock);
    }
  }

  lemma HeldOrCopiedOver(h: HostState, e: Event, q: string, data: Bytes, clock: Clock)
    requires e.Write? && SavesBeside(h, e) && Sparing(h, e) && HeldAt(h, q, data, clock)
    ensures Held(Next(h, e), data, clock) || Supersedes(h, e, data, clock)
  {
    if SparingCopy(h, e) {
      SparedByCopy(h, e, data, clock);
    } else if q == Sibling(e) {
      LeqTransitive(clock, LiveClock(h, q), e.clock);
      assert HeldAt(h, q, data, clock) && Replaces(h, e, q);
    } else {
      CopyAfter(h, e);
      assert HeldAt(Next(h, e), q, data, clock);
    }
  }

  lemma HeldOrRenamedOver(h: HostState, e: Event, q: string, data: Bytes, clock: Clock)
    requires e.Rename? && Exclusive(h) && Sparing(h, e) && HeldAt(h, q, data, clock)
    ensures Held(Next(h, e), data, clock) || Supersedes(h, e, data, clock)
  {
    if SparingRename(h, e) {
      RenameKeepsContentExactly(h, e);
      assert Held(h, data, clock);
    } else if q == e.target {
      LeqTransitive(clock, LiveClock(h, q), e.clock);
      assert HeldAt(h, q, data, clock) && Replaces(h, e, q);
    } else {
      HeldByRename(h, e, q, data, clock);
    }
  }

  /** No conflict copy and no rename of the run overwrites the only copy of something its clock does not cover. */
  ghost predicate SparingRun(states: seq<HostState>, events: seq<Event>)
    requires |states| > |events|
  {
    forall i {:trigger events[i]} | 0 <= i < |events| :: Sparing(states[i], events[i])
  }

  lemma HeldOrSupersededAt(states: seq<HostState>, events: seq<Event>, i: nat, data: Bytes, clock: Clock)
    requires Run(states, events) && Exclusive(states[0]) && SparingRun(states, events)
    requires i < |events| && Held(states[i], data, clock)
    ensures Held(states[i + 1], data, clock) || Supersedes(states[i], events[i], data, clock)
  {
    ExclusiveRun(states, events, i);
    HeldOrSuperseded(states[i], events[i], data, clock);
  }

  lemma {:induction false} HeldOverRuns(states: seq<HostState>, events: seq<Event>, i: nat, n: nat, data: Bytes,
        clock: Clock)
    requires Run(states, events) && Exclusive(states[0]) && SparingRun(states, events)
    requires i <= n <= |events| && Held(states[i], data, clock)
    ensures Held(states[n], data, clock) || exists j :: i <= j < n && Supersedes(states[j], events[j], data, clock)
    decreases n - i
  {
    if i < n {
      HeldOrSupersededAt(states, events, i, data, clock);
      if Held(states[i + 1], data, clock) {
        HeldOverRuns(states, events, i + 1, n, data, clock);
      }
    }
  }

  /**
   Whatever the host once accepted is, at every later point of the run, still
   stored under a clock that includes its own, or some operation on the path that
   held it carried a clock at or above the content's clock.
   */
  lemma NoSilentLoss(states: seq<HostState>, events: seq<Event>, i: nat, n: nat, data: Bytes, clock: Clock)
    requires Run(states, events) && Exclusive(states[0]) && SparingRun(states, events)
    requires i < n <= |events| && Accepted(states[i], events[i], data, clock)
    ensures Held(states[n], data, clock) || exists j :: i < j < n && Supersedes(states[j], events[j], data, clock)
  {
    AcceptedIsHeld(states[i], events[i], data, clock);
    assert Held(states[i + 1], data, clock);
    HeldOverRuns(states, events, i + 1, n, data, clock);
  }

  lemma UnsparingStepLoses(h: HostState, e: Event) returns (data: Bytes, clock: Clock)
    requires Exclusive(h) && !Sparing(h, e)
    ensures Held(h, data, clock) && !Held(Next(h, e), data, clock) && !Supersedes(h, e, data, clock)
  {
    if e.Rename? {
      UnsparedIsLost(h, e);
      data, clock := h.disk[e.target], LiveClock(h, e.target);
    } else {
      OverwrittenCopyIsLost(h, e);
      data, clock := h.disk[Sibling(e)], LiveClock(h, Sibling(e));
    }
  }

  /** That condition is exact: every step of a run keeps or supersedes all content if and only if it holds. */
  lemma RunLosesNothingExactly(states: seq<HostState>, events: seq<Event>)
    requires Run(states, events) && Exclusive(states[0])
    ensures SparingRun(states, events)
       <==> forall i, data, clock | 0 <= i < |events| && Held(states[i], data, clock) ::
              Held(states[i + 1], data, clock) || Supersedes(states[i], events[i], data, clock)
  {
    if SparingRun(states, events) {
      forall i, data, clock | 0 <= i < |events| && Held(states[i], data, clock)
        ensures Held(states[i + 1], data, clock) || Supersedes(states[i], events[i], data, clock)
      {
        HeldOrSupersededAt(states, events, i, data, clock);
      }
    } else {
      var i :| 0 <= i < |events| && !Sparing(states[i], events[i]);
      ExclusiveRun(states, events, i);
      var data, clock := UnsparingStepLoses(states[i], events[i]);
      assert Held(states[i], data, clock) && !Held(states[i + 1], data, clock);
    }
  }

  // ---------------------------------------------------------------------
  // Inputs that go wrong
  // ---------------------------------------------------------------------

  /** Without a free destination, content can vanish under a clock that never saw it. */
  lemma RenameOntoLiveFileLosesContent(data: Bytes)
    requires data != []
    ensures
      var mine := map["a" := 1];
      var theirs := map["b" := 1];
      var clocks := map["f" := ClockEntry(mine, 0), "g" := ClockEntry(theirs, 0)];
      var h := HostState(map["f" := [], "g" := data], clocks, map[]);
      var e := Rename("f", "g", Increment(mine, "a"), 0);
      && Exclusive(h) && Allowed(h, e) && HeldAt(h, "g", data, theirs)
      && (forall q :: !HeldAt(Next(h, e), q, data, theirs)) && !Leq(theirs, e.clock)
  {
    var mine: Clock := map["a" := 1];
    var theirs: Clock := map["b" := 1];
    var clocks := map["f" := ClockEntry(mine, 0), "g" := ClockEntry(theirs, 0)];
    var h := HostState(map["f" := [], "g" := data], clocks, map[]);
    var e := Rename("f", "g", Increment(mine, "a"), 0);
    assert "b" in theirs && "b" !in e.clock;
    assert Get(e.clock, "a") == 2;
    assert Leq(mine, e.clock);
    assert Next(h, e).disk == map["g" := []];
  }

  /** Equal bytes at the destination are no excuse: the clock of the other writer is lost with its copy. */
  lemma RenameOntoEqualFileLosesClock(data: Bytes)
    ensures
      var mine := map["a" := 1];
      var theirs := map["b" := 1];
      var clocks := map["f" := ClockEntry(mine, 0), "g" := ClockEntry(theirs, 0)];
      var h := HostState(map["f" := data, "g" := data], clocks, map[]);
      var e := Rename("f", "g", Increment(mine, "a"), 0);
      Exclusive(h) && Allowed(h, e) && Held(h, data, theirs) && !Held(Next(h, e), data, theirs)
  {
    var mine: Clock := map["a" := 1];
    var theirs: Clock := map["b" := 1];
    var clocks := map["f" := ClockEntry(mine, 0), "g" := ClockEntry(theirs, 0)];
    var h := HostState(map["f" := data, "g" := data], clocks, map[]);
    var e := Rename("f", "g", Increment(mine, "a"), 0);
    assert "b" in theirs && "b" !in e.clock && Get(e.clock, "a") == 2;
    assert Leq(mine, e.clock);
    assert HeldAt(h, "g", data, theirs);
    RenameAfter(h, e);
    assert "b" !in MovedClock(h, e);
  }

  /** Two writers without an id share a conflict name within one second, and the second copy drops the first. */
  lemma SharedConflictNameLosesCopy()
    ensures
      var h := HostState(map["f" := [0]], map["f" := ClockEntry(map["a" := 1], 0)], map[]);
      var first := Write("f", [1], map["b" := 1], UnaryWriter(""), 0, "0");
      var second := Write("f", [2], map["c" := 1], UnaryWriter(""), 0, "0");
      && Accepted(h, first, [1], first.clock) && Held(Next(h, first), [1], first.clock)
      && !Held(Next(Next(h, first), second), [1], first.clock) && !Sparing(Next(h, first), second)
  {
    var a, b, c: Clock := map["a" := 1], map["b" := 1], map["c" := 1];
    assert "a" in a && "b" !in a && "c" !in a && "b" in b && "a" !in b && "c" !in b;
    assert "c" in c && "a" !in c && "b" !in c;
    var h := HostState(map["f" := [0]], map["f" := ClockEntry(a, 0)], map[]);
    var first, second := Write("f", [1], b, UnaryWriter(""), 0, "0"), Write("f", [2], c, UnaryWriter(""), 0, "0");
    SiblingDiffers(first);
    assert SavesBeside(h, first);
    AcceptedIsHeld(h, first, [1], b);
    CopyAfter(h, first);
    var h' := Next(h, first);
    assert h'.disk == map["f" := [0], Sibling(first) := [1]] && Sibling(second) == Sibling(first);
    assert LiveClock(h', "f") == a && h'.tombstones == map[];
    assert SavesBeside(h', second);
    assert second.data[0] != first.data[0] && h'.disk["f"][0] != first.data[0];
    OverwrittenCopyIsLost(h', second);
  }

  const EMPTY := HostState(map[], map[], map[])

  lemma MergeSame(c: Clock)
    ensures Merge(c, c) == c && Merge(map[], c) == c && Compare(c, c).Equal?
  {
  }

  /** Deleting an unchanged copy leaves a tombstone with its clock. */
  lemma CopyThenDelete(h: HostState, copied: Event, now: nat)
    requires SavesBeside(h, copied) && Unused(h, Sibling(copied)) && copied.clock != map[]
    ensures var key := Sibling(copied);
            var after := Next(Next(h, copied), Delete(key, copied.clock, now));
            && after.clocks == h.clocks && after.disk == h.disk
            && after.tombstones == h.tombstones[key := TombstoneEntry(copied.clock, now)]
  {
    var key := Sibling(copied);
    var h' := Next(h, copied);
    assert !Tombstoned(h', key) && LiveClock(h', key) == copied.clock;
    MergeSame(copied.clock);
    assert h'.clocks - {key} == h.clocks && h'.disk - {key} == h.disk;
  }

  lemma FirstWrite(key: string, data: Bytes, clock: Clock, writer: string)
    requires clock != map[] && Compare(clock, map[]).Dominates?
    ensures Next(EMPTY, Write(key, data, clock, writer, 0, "0"))
            == HostState(map[key := data], map[key := ClockEntry(clock, 0)], map[])
  {
    MergeSame(clock);
  }

  /** Two devices' first ticks, and a later one. */
  lemma Ticks(a: Clock, b: Clock, b2: Clock)
    requires a == map["a" := 1] && b == map["b" := 1] && b2 == map["b" := 2]
    ensures Compare(a, map[]).Dominates? && Compare(b, a).Concurrent? && Compare(b2, a).Concurrent?
  {
    assert "a" in a && "b" in b && "b" in b2 && "b" !in a && "a" !in b && "a" !in b2;
  }

  /** Made, deleted and made again under one stamp: the copy's path is then both deleted and live. */
  lemma ReusedNameBreaks(h: HostState, copied: Event, last: Event)
    requires SavesBeside(h, copied) && Unused(h, Sibling(copied)) && copied.clock != map[] && Exclusive(h)
    requires SavesBeside(h, last) && last.key == copied.key && Sibling(last) == Sibling(copied)
    ensures var after := Next(Next(h, copied), Delete(Sibling(copied), copied.clock, 0));
            Exclusive(after) && !Exclusive(Next(after, last))
  {
    var deleted := Delete(Sibling(copied), copied.clock, 0);
    var after := Next(Next(h, copied), deleted);
    CopyThenDelete(h, copied, 0);
    SiblingDiffers(copied);
    ExclusiveStep(h, copied);
    ExclusiveStep(Next(h, copied), deleted);
    assert Effective(after, last.key) == Effective(h, last.key) && Tombstoned(after, Sibling(last));
    ExclusiveNeedsFreshName(after, last);
  }

  /** And that is reached from empty stores, with every name fresh until the last write. */
  lemma ReusedConflictNameBreaks() returns (states: seq<HostState>, events: seq<Event>, last: Event)
    ensures Run(states, events) && states[0] == EMPTY && |events| == 3 && last.Write?
    ensures Exclusive(states[3]) && !Exclusive(Next(states[3], last))
  {
    var a, b, b2: Clock := map["a" := 1], map["b" := 1], map["b" := 2];
    Ticks(a, b, b2);
    var first, copied := Write("f", [0], a, "a", 0, "0"), Write("f", [1], b, "b", 0, "0");
    var deleted := Delete(Sibling(copied), b, 0);
    last := Write("f", [2], b2, "b", 0, "0");
    FirstWrite("f", [0], a, "a");
    SiblingDiffers(copied);
    var s1 := Next(EMPTY, first);
    assert Effective(s1, "f") == a && Exclusive(s1);
    ReusedNameBreaks(s1, copied, last);
    states, events := [EMPTY], [];
    states, events := GoOn(states, events, first);
    states, events := GoOn(states, events, copied);
    states, events := GoOn(states, events, deleted);
  }

  lemma GoOn(states: seq<HostState>, events: seq<Event>, e: Event)
    returns (states': seq<HostState>, events': seq<Event>)
    requires Run(states, events) && Allowed(states[|events|], e)
    ensures Run(states', events') && |events'| == |events| + 1 && states'[0] == states[0]
    ensures states'[|events'|] == Next(states[|events|], e)
  {
    var after := Next(states[|events|], e);
    states', events' := states + [after], events + [e];
    forall i | 0 <= i < |events'|
      ensures Allowed(states'[i], events'[i]) && states'[i + 1] == Next(states'[i], events'[i])
    {
      if i < |events| {
        assert events'[i] == events[i];
      }
    }
  }
}
