/**
 What each request of the host means to its caller: when it gets which verdict, what the answer's clock stands
 for, and what is stored afterwards, read off the answer.
 */
module HostAnswers {
  import opened Octets
  import opened Clocks
  import opened Host
  import opened HostRuns

  /** `clock` is the least one above both. */
  ghost predicate JoinOf(clock: Clock, a: Clock, b: Clock) {
    Leq(a, clock) && Leq(b, clock) && forall c | Leq(a, c) && Leq(b, c) :: Leq(clock, c)
  }

  lemma MergeIsJoin(a: Clock, b: Clock)
    ensures JoinOf(Merge(a, b), a, b)
  {
    MergeIsLeastUpperBound(a, b, map[]);
    forall c | Leq(a, c) && Leq(b, c) ensures Leq(Merge(a, b), c) {
      MergeIsLeastUpperBound(a, b, c);
    }
  }

  /** Nothing the host holds for the path has changed. */
  ghost predicate SameAt(h: HostState, after: HostState, q: string) {
    && (q in after.disk <==> q in h.disk) && (q in h.disk ==> after.disk[q] == h.disk[q])
    && (q in after.clocks <==> q in h.clocks) && (q in h.clocks ==> after.clocks[q] == h.clocks[q])
    && (q in after.tombstones <==> q in h.tombstones) && (q in h.tombstones ==> after.tombstones[q] == h.tombstones[q])
  }

  ghost predicate OnlyAt(h: HostState, after: HostState, places: set<string>) {
    forall q | q !in places :: SameAt(h, after, q)
  }

  // ---------------------------------------------------------------------
  // Writes
  // ---------------------------------------------------------------------

  /** The verdict by the order of what the host knows and what the writer knew. */
  lemma WriteVerdictExactly(h: HostState, key: string, data: Bytes, incoming: Clock, writer: string, now: nat,
        stamp: string)
    ensures var known, answer := Effective(h, key), HostWrite(h, key, data, incoming, writer, now, stamp).1;
            && answer.verdict in {Applied, Stale, Conflict}
            && (answer.verdict == Applied <==> Leq(known, incoming))
            && (answer.verdict == Stale <==> Leq(incoming, known) && !Leq(known, incoming))
            && (answer.conflictPath != "" <==> answer.verdict == Conflict && !Tombstoned(h, key))
  {
    assert ConflictName(key, writer, stamp) != "";
  }

  /**
   Whatever the verdict, the answer's clock is what the host knows of the path afterwards: all it knew before, and
   also the writer's clock when the data became the file.
   */
  lemma WriteTeaches(h: HostState, key: string, data: Bytes, incoming: Clock, writer: string, now: nat, stamp: string)
    ensures var (after, answer) := HostWrite(h, key, data, incoming, writer, now, stamp);
            && answer.clock == Effective(after, key)
            && Leq(Effective(h, key), answer.clock)
            && (if answer.verdict == Stale || answer.conflictPath != "" then answer.clock == Effective(h, key)
                else JoinOf(answer.clock, Effective(h, key), incoming))
  {
    MergeIsJoin(Effective(h, key), incoming);
    assert |ConflictName(key, writer, stamp)| > |key|;
  }

  /** Where the data is, by the answer: nowhere, at the conflict path under the writer's clock, or at the path. */
  lemma WriteStores(h: HostState, key: string, data: Bytes, incoming: Clock, writer: string, now: nat, stamp: string)
    ensures var (after, answer) := HostWrite(h, key, data, incoming, writer, now, stamp);
            var place := if answer.conflictPath == "" then key else answer.conflictPath;
            if answer.verdict == Stale then after == h
            else
              && OnlyAt(h, after, {place})
              && place in after.disk && after.disk[place] == data && place in after.clocks
              && after.clocks[place] == ClockEntry(if place == key then answer.clock else incoming, now)
              && (place == key ==> !Tombstoned(after, key))
              && (place != key ==> after.tombstones == h.tombstones)
  {
    assert ConflictName(key, writer, stamp) != "" && |ConflictName(key, writer, stamp)| > |key|;
  }

  // ---------------------------------------------------------------------
  // Deletes
  // ---------------------------------------------------------------------

  lemma DeleteVerdictExactly(h: HostState, key: string, incoming: Clock, now: nat)
    ensures var known, verdict := Effective(h, key), HostDelete(h, key, incoming, now).1.verdict;
            && (verdict == Deleted <==> Tombstoned(h, key) || (key in h.disk && Leq(known, incoming)))
            && (verdict == NotFound <==> !Tombstoned(h, key) && key !in h.disk)
            && (verdict == Stale <==>
                  !Tombstoned(h, key) && key in h.disk && Leq(incoming, known) && !Leq(known, incoming))
            && (verdict == Conflict <==>
                  !Tombstoned(h, key) && key in h.disk && !Leq(incoming, known) && !Leq(known, incoming))
  {
  }

  /** The answer's clock is what the host knows of the path afterwards. */
  lemma DeleteTeaches(h: HostState, key: string, incoming: Clock, now: nat)
    ensures var (after, answer) := HostDelete(h, key, incoming, now);
            && answer.clock == Effective(after, key) && Leq(Effective(h, key), answer.clock)
            && (answer.verdict == Deleted ==> JoinOf(answer.clock, Effective(h, key), incoming))
  {
    MergeIsJoin(Effective(h, key), incoming);
  }

  /**
   A delete that goes through leaves no file and no clock, and a tombstone with what host and deleter knew, dated by
   the first delete of the path; any other one changes nothing.
   */
  lemma DeleteLeaves(h: HostState, key: string, incoming: Clock, now: nat)
    requires Exclusive(h)
    ensures var (after, answer) := HostDelete(h, key, incoming, now);
            if answer.verdict != Deleted then after == h
            else
              && OnlyAt(h, after, {key}) && key !in after.disk && key !in after.clocks && key in after.tombstones
              && after.tombstones[key].clock == answer.clock
              && after.tombstones[key].createdAt == if key in h.tombstones then h.tombstones[key].createdAt else now
  {
  }

  // ---------------------------------------------------------------------
  // Renames
  // ---------------------------------------------------------------------

  lemma RenameVerdictExactly(h: HostState, source: string, target: string, incoming: Clock, now: nat)
    ensures var known, verdict := Effective(h, source), HostRename(h, source, target, incoming, now).1.verdict;
            var there := Tombstoned(h, source) || source in h.disk;
            && (verdict == NotFound <==> !there)
            && (verdict == Stale <==> there && Leq(incoming, known) && !Leq(known, incoming))
            && (verdict == Conflict <==> Tombstoned(h, source) && !Leq(incoming, known) && !Leq(known, incoming))
            && verdict in {NotFound, Stale, Conflict, Renamed}
  {
  }

  lemma RenameClock(h: HostState, source: string, target: string, incoming: Clock, now: nat)
    ensures var (after, answer) := HostRename(h, source, target, incoming, now);
            if answer.verdict in {Renamed, Conflict} then
              answer.clock == Merge(Effective(h, source), incoming) && Effective(after, target) == answer.clock
            else after == h && answer.clock == Effective(h, source)
  {
  }

  /** The answer's clock is what the host knows of the new name after an applied rename, else of the old one. */
  lemma RenameTeaches(h: HostState, source: string, target: string, incoming: Clock, now: nat)
    ensures var (after, answer) := HostRename(h, source, target, incoming, now);
            if answer.verdict !in {Renamed, Conflict} then after == h && answer.clock == Effective(h, source)
            else JoinOf(answer.clock, Effective(h, source), incoming) && answer.clock == Effective(after, target)
  {
    RenameClock(h, source, target, incoming, now);
    MergeIsJoin(Effective(h, source), incoming);
  }

  /**
   A rename that takes effect leaves nothing under the old name, neither file nor clock nor tombstone, and under
   the new one the file, or an empty one for a deleted path, with what host and renamer knew.
   */
  lemma RenameLeaves(h: HostState, source: string, target: string, incoming: Clock, now: nat)
    requires Exclusive(h)
    ensures var (after, answer) := HostRename(h, source, target, incoming, now);
            answer.verdict in {Renamed, Conflict} ==>
              && OnlyAt(h, after, {source, target})
              && target in after.disk && after.disk[target] == (if Tombstoned(h, source) then [] else h.disk[source])
              && target in after.clocks && after.clocks[target] == ClockEntry(answer.clock, now)
              && !Tombstoned(after, target)
              && (source != target ==>
                    source !in after.disk && source !in after.clocks && !Tombstoned(after, source))
  {
  }

  // ---------------------------------------------------------------------
  // The age of a tombstone
  // ---------------------------------------------------------------------

  lemma AgeStays(h: HostState, e: Event, key: string)
    requires Allowed(h, e) && key in h.tombstones && key in Next(h, e).tombstones
    ensures Next(h, e).tombstones[key].createdAt == h.tombstones[key].createdAt
  {
  }

  /** Deleting again does not make a tombstone younger: it keeps its first date for as long as it is there. */
  lemma {:induction false} TombstoneKeepsItsAge(states: seq<HostState>, events: seq<Event>, key: string, i: nat, n: nat)
    requires Run(states, events) && i <= n <= |events|
    requires forall j | i <= j <= n :: key in states[j].tombstones
    ensures states[n].tombstones[key].createdAt == states[i].tombstones[key].createdAt
    decreases n - i
  {
    if i < n {
      TombstoneKeepsItsAge(states, events, key, i, n - 1);
      assert Allowed(states[n - 1], events[n - 1]);
      AgeStays(states[n - 1], events[n - 1], key);
    }
  }

  // ---------------------------------------------------------------------
  // Names
  // ---------------------------------------------------------------------

  function Slashes(n: nat): string { seq(n, _ => '/') }

  /** The key of a path is the path without its leading slashes, and no less. */
  lemma {:induction false} ClockKeyTrims(path: string) returns (n: nat)
    ensures path == Slashes(n) + ClockKey(path)
    ensures ClockKey(path) != "" ==> ClockKey(path)[0] != '/'
  {
    if path != "" && path[0] == '/' {
      var m := ClockKeyTrims(path[1..]);
      n := m + 1;
      assert Slashes(n) == "/" + Slashes(m) && path == "/" + path[1..];
    } else {
      n := 0;
      assert path == Slashes(0) + path;
    }
  }

  /** For one file, a conflict name tells its writer and its time stamp, which has no hyphen. */
  lemma ConflictNamesDiffer(key: string, v: string, s: string, w: string, t: string)
    requires '-' !in s && '-' !in t && ConflictName(key, v, s) == ConflictName(key, w, t)
    ensures v == w && s == t
  {
    var front := key + ".conflict-";
    assert ConflictName(key, v, s)[|front|..] == v + "-" + s && ConflictName(key, w, t)[|front|..] == w + "-" + t;
    LastHyphen(v, s, w, t);
  }

  lemma LastHyphen(v: string, s: string, w: string, t: string)
    requires '-' !in s && '-' !in t && v + "-" + s == w + "-" + t
    ensures v == w && s == t
  {
    HyphenIsLast(v, s, w, t);
    HyphenIsLast(w, t, v, s);
    var text := v + "-" + s;
    assert v == text[..|v|] && w == (w + "-" + t)[..|w|];
    assert s == text[|v| + 1..] && t == (w + "-" + t)[|w| + 1..];
  }

  lemma HyphenIsLast(v: string, s: string, w: string, t: string)
    requires '-' !in s && v + "-" + s == w + "-" + t
    ensures |w| <= |v|
  {
    assert (w + "-" + t)[|w|] == '-';
  }

  /** A writer id in a conflict name keeps its length and its safe characters, and has no others. */
  lemma SanitizedIsSafe(raw: string, i: nat)
    requires i < |raw|
    ensures |Sanitize(raw)| == |raw| && FileSafe(Sanitize(raw)[i])
    ensures FileSafe(raw[i]) ==> Sanitize(raw)[i] == raw[i]
    ensures Sanitize(raw)[i] != '/' && Sanitize(raw)[i] != '.'
  {
  }
}
