/**
 Any number of mounts against one host. A mount stamps its own counter, sends one
 request, waits, and merges the reply into what it knows, unless the request is never
 served or the reply is lost; the host serves requests one at a time and may sweep its
 stores in between. `issued` and `reached` record history: the largest tick a device
 stamped for a path, and how many of its ticks the host has answered for. `tainted`
 are the paths of renames that took effect and of conflict copies, `lost` those of
 requests whose reply was lost.
 Paths here are the keys both sides use after trimming the leading slash.
 */
module Protocol {
  import opened Octets
  import opened Clocks
  import opened Host
  import HostRuns
  import HostAnswers

  datatype Op =
    | WriteOp(path: string, data: Bytes)
    | DeleteOp(path: string)
    | OpenOp(path: string)
    | RenameOp(path: string, target: string)

  datatype Phase =
    | Idle
    | Sent(op: Op, clock: Clock)
    | Answered(op: Op, clock: Clock, answer: Answer)

  datatype Mount = Mount(known: map<string, Clock>, phase: Phase)

  datatype System = System(
    host: HostState,
    mounts: map<string, Mount>,
    issued: map<string, Clock>,
    reached: map<string, Clock>,
    tainted: set<string>,
    lost: set<string>)

  datatype Action =
    | Send(device: string, op: Op)
    | Serve(device: string, now: nat, stamp: string)
    | Receive(device: string)
    | GiveUp(device: string)
    | Lose(device: string)
    | Sweep(after: HostState)

  function At(clocks: map<string, Clock>, path: string): Clock {
    if path in clocks then clocks[path] else map[]
  }

  function Known(s: System, device: string, path: string): Clock
    requires device in s.mounts
  {
    At(s.mounts[device].known, path)
  }

  /** Opening for reading changes nothing and carries no tick. */
  predicate Stamped(op: Op) { !op.OpenOp? }

  // ---------------------------------------------------------------------
  // Steps
  // ---------------------------------------------------------------------

  ghost predicate Init(s: System) {
    && s.host.clocks == map[] && s.host.tombstones == map[]
    && (forall d | d in s.mounts :: s.mounts[d] == Mount(map[], Idle))
    && s.issued == map[] && s.reached == map[] && s.tainted == {} && s.lost == {}
  }

  predicate Enabled(s: System, a: Action) {
    match a
    case Send(d, _) => d in s.mounts && s.mounts[d].phase.Idle?
    case Serve(d, _, _) => d in s.mounts && s.mounts[d].phase.Sent?
    case Receive(d) => d in s.mounts && s.mounts[d].phase.Answered?
    case GiveUp(d) => d in s.mounts && s.mounts[d].phase.Sent?
    case Lose(d) => d in s.mounts && s.mounts[d].phase.Answered?
    case Sweep(after) => HostRuns.SafeSweep(s.host, after)
  }

  function Decide(h: HostState, device: string, op: Op, clock: Clock, now: nat, stamp: string): (HostState, Answer) {
    match op
    case WriteOp(path, data) => HostWrite(h, path, data, clock, StreamWriter(device), now, stamp)
    case DeleteOp(path) => HostDelete(h, path, clock, now)
    case RenameOp(path, target) => HostRename(h, path, target, clock, now)
    case OpenOp(path) =>
      (h, if path in h.disk then Answer(Applied, LiveClock(h, path), "") else Answer(NotFound, map[], ""))
  }

  /** What a mount keeps of a reply. */
  function Adopt(known: map<string, Clock>, op: Op, clock: Clock, answer: Answer): map<string, Clock> {
    match op
    case WriteOp(path, _) => known[path := Merge(clock, answer.clock)]
    case DeleteOp(path) => known[path := Merge(clock, answer.clock)]
    case OpenOp(path) =>
      if answer.verdict == NotFound then known else known[path := Merge(At(known, path), answer.clock)]
    case RenameOp(path, target) =>
      if answer.verdict in {Renamed, Conflict} then (known - {path})[target := Merge(clock, answer.clock)]
      else if answer.verdict == Stale then known[path := Merge(clock, answer.clock)]
      else known
  }

  function Raised(c: Clock, device: string, tick: nat): Clock {
    c[device := if Get(c, device) < tick then tick else Get(c, device)]
  }

  /** The rename took effect at the host. */
  predicate Moved(op: Op, answer: Answer) {
    op.RenameOp? && answer.verdict in {Renamed, Conflict}
  }

  /** The path of the conflict copy, if one was made. */
  function Copied(answer: Answer): set<string> {
    if answer.conflictPath == "" then {} else {answer.conflictPath}
  }

  /** The request's tick is in the host's answer, or adopted by the mount; a rename of nothing leaves none. */
  predicate Counts(op: Op, answer: Answer) {
    Stamped(op) && !(op.RenameOp? && answer.verdict == NotFound)
  }

  function Next(s: System, a: Action): System
    requires Enabled(s, a)
  {
    match a
    case Send(d, op) =>
      var clock := if Stamped(op) then Increment(Known(s, d, op.path), d) else map[];
      s.(mounts := s.mounts[d := s.mounts[d].(phase := Sent(op, clock))],
         issued := if !Stamped(op) then s.issued
                   else s.issued[op.path := Raised(At(s.issued, op.path), d, Get(clock, d))])
    case Serve(d, now, stamp) =>
      var Sent(op, clock) := s.mounts[d].phase;
      var (host, answer) := Decide(s.host, d, op, clock, now, stamp);
      s.(host := host,
         mounts := s.mounts[d := s.mounts[d].(phase := Answered(op, clock, answer))],
         reached := if !Counts(op, answer) then s.reached
                    else s.reached[op.path := Increment(At(s.reached, op.path), d)],
         tainted := s.tainted + Copied(answer) + if Moved(op, answer) then {op.path, op.target} else {})
    case Receive(d) =>
      var Answered(op, clock, answer) := s.mounts[d].phase;
      s.(mounts := s.mounts[d := Mount(Adopt(s.mounts[d].known, op, clock, answer), Idle)])
    case GiveUp(d) =>
      s.(mounts := s.mounts[d := s.mounts[d].(phase := Idle)])
    case Lose(d) =>
      var Answered(op, clock, answer) := s.mounts[d].phase;
      s.(mounts := s.mounts[d := s.mounts[d].(phase := Idle)],
         lost := s.lost + if Counts(op, answer) then {op.path} else {})
    case Sweep(after) =>
      s.(host := after)
  }

  /** The actions are enabled one after the other and lead from `s` to `t`. */
  predicate Leads(s: System, actions: seq<Action>, t: System)
    decreases |actions|
  {
    if actions == [] then s == t
    else Enabled(s, actions[0]) && Leads(Next(s, actions[0]), actions[1..], t)
  }

  ghost predicate Reached(start: System, actions: seq<Action>, s: System) {
    Init(start) && Leads(start, actions, s)
  }

  // ---------------------------------------------------------------------
  // The invariant
  // ---------------------------------------------------------------------

  /** Everything the host stores for the path is within the bound. */
  ghost predicate HostBounded(h: HostState, path: string, bound: Clock) {
    Leq(LiveClock(h, path), bound) && Leq(TombstoneClock(h, path), bound)
  }

  /** So is every copy a mount has: what it knows, sends and is sent. */
  ghost predicate MountWithin(m: Mount, path: string, bound: Clock) {
    && Leq(At(m.known, path), bound)
    && (!m.phase.Idle? && m.phase.op.path == path ==> Leq(m.phase.clock, bound))
    && (m.phase.Answered? && m.phase.op.path == path ==> Leq(m.phase.answer.clock, bound))
  }

  /** All copies of the path's clock come from issued ticks. */
  ghost predicate Within(s: System, path: string) {
    && HostBounded(s.host, path, At(s.issued, path))
    && forall d | d in s.mounts :: MountWithin(s.mounts[d], path, At(s.issued, path))
  }

  /** The clock of the path with the mount's own ticks that the host has answered for. */
  function Latest(m: Mount, path: string): Clock {
    if m.phase.Answered? && m.phase.op.path == path && Counts(m.phase.op, m.phase.answer) then m.phase.clock
    else At(m.known, path)
  }

  /** What a mount knows comes from answered ticks, and all of its own are included once it has the reply. */
  ghost predicate MountBounded(m: Mount, device: string, path: string, reached: Clock) {
    && Leq(At(m.known, path), reached) && Get(Latest(m, path), device) == Get(reached, device)
    && (m.phase.Sent? && m.phase.op.path == path ==>
          m.phase.clock == if Stamped(m.phase.op) then Increment(At(m.known, path), device) else map[])
    && (m.phase.Answered? && m.phase.op.path == path && !m.phase.op.RenameOp? ==>
          Leq(m.phase.clock, reached) && Leq(m.phase.answer.clock, reached))
    && (m.phase.Answered? && m.phase.op.path == path && m.phase.op.RenameOp? ==> m.phase.answer.verdict == NotFound)
  }

  ghost predicate PathOk(s: System, path: string) {
    && HostBounded(s.host, path, At(s.reached, path))
    && forall d | d in s.mounts :: MountBounded(s.mounts[d], d, path, At(s.reached, path))
  }

  /** No rename, conflict copy or lost reply has touched the path. */
  predicate Clean(s: System, path: string) { path !in s.tainted && path !in s.lost }

  /** The one thing that touches a path: see `Clean`. */
  ghost predicate TouchesPath(s: System, a: Action, path: string)
    requires Enabled(s, a)
  {
    match a
    case Serve(d, now, stamp) =>
      var op := s.mounts[d].phase.op;
      var answer := Decide(s.host, d, op, s.mounts[d].phase.clock, now, stamp).1;
      || (path != "" && answer.conflictPath == path)
      || (op.RenameOp? && answer.verdict in {Renamed, Conflict} && path in {op.path, op.target})
    case Lose(d) =>
      var op := s.mounts[d].phase.op;
      op.path == path && !op.OpenOp? && !(op.RenameOp? && s.mounts[d].phase.answer.verdict == NotFound)
    case _ => false
  }

  /** Nothing else does. */
  lemma CleanExactly(s: System, a: Action, path: string)
    requires Enabled(s, a)
    ensures Clean(Next(s, a), path) <==> Clean(s, path) && !TouchesPath(s, a, path)
  {
  }

  ghost predicate Inv(s: System) {
    && (forall p | p !in s.tainted :: Within(s, p))
    && (forall p | Clean(s, p) :: PathOk(s, p))
    && (forall d | d in s.mounts && s.mounts[d].phase.Answered? ::
          Moved(s.mounts[d].phase.op, s.mounts[d].phase.answer) ==>
            s.mounts[d].phase.op.path in s.tainted && s.mounts[d].phase.op.target in s.tainted)
  }

  lemma InitOk(s: System)
    requires Init(s)
    ensures Inv(s)
  {
  }

  // ---------------------------------------------------------------------
  // The host
  // ---------------------------------------------------------------------

  lemma WriteBounded(h: HostState, key: string, data: Bytes, clock: Clock, writer: string, now: nat, stamp: string,
        bound: Clock)
    requires HostBounded(h, key, bound) && Leq(clock, bound)
    ensures var (after, answer) := HostWrite(h, key, data, clock, writer, now, stamp);
            HostBounded(after, key, bound) && Leq(answer.clock, bound)
  {
    MergeIsLeastUpperBound(Effective(h, key), clock, bound);
    assert |ConflictName(key, writer, stamp)| > |key|;
  }

  lemma DeleteBounded(h: HostState, key: string, clock: Clock, now: nat, bound: Clock)
    requires HostBounded(h, key, bound) && Leq(clock, bound)
    ensures var (after, answer) := HostDelete(h, key, clock, now);
            HostBounded(after, key, bound) && Leq(answer.clock, bound)
  {
    MergeIsLeastUpperBound(Effective(h, key), clock, bound);
  }

  /** A rename that did not go through answers with a clock of its path, and changes nothing. */
  lemma UnmovedBounded(h: HostState, source: string, target: string, clock: Clock, now: nat, bound: Clock)
    requires HostBounded(h, source, bound)
    requires HostRename(h, source, target, clock, now).1.verdict !in {Renamed, Conflict}
    ensures var (after, answer) := HostRename(h, source, target, clock, now);
            after == h && Leq(answer.clock, bound)
  {
  }

  /** What serving a request leaves on its path and sends back is within any bound of what went in. */
  lemma DecideBounded(h: HostState, d: string, op: Op, clock: Clock, now: nat, stamp: string, bound: Clock)
    requires HostBounded(h, op.path, bound) && Leq(clock, bound)
    requires !Moved(op, Decide(h, d, op, clock, now, stamp).1)
    ensures var (after, answer) := Decide(h, d, op, clock, now, stamp);
            HostBounded(after, op.path, bound) && Leq(answer.clock, bound)
  {
    match op
    case WriteOp(key, data) => WriteBounded(h, key, data, clock, StreamWriter(d), now, stamp, bound);
    case DeleteOp(key) => DeleteBounded(h, key, clock, now, bound);
    case RenameOp(source, target) => UnmovedBounded(h, source, target, clock, now, bound);
    case OpenOp(_) =>
  }

  ghost predicate SameClocks(h: HostState, after: HostState, path: string) {
    LiveClock(after, path) == LiveClock(h, path) && TombstoneClock(after, path) == TombstoneClock(h, path)
  }

  lemma WriteElsewhere(h: HostState, key: string, data: Bytes, clock: Clock, writer: string, now: nat,
        stamp: string, path: string)
    requires path != key && path !in Copied(HostWrite(h, key, data, clock, writer, now, stamp).1)
    ensures SameClocks(h, HostWrite(h, key, data, clock, writer, now, stamp).0, path)
  {
  }

  lemma DeleteElsewhere(h: HostState, key: string, clock: Clock, now: nat, path: string)
    requires path != key
    ensures SameClocks(h, HostDelete(h, key, clock, now).0, path)
  {
  }

  lemma RenameElsewhere(h: HostState, source: string, target: string, clock: Clock, now: nat, path: string)
    requires path != source
    requires HostRename(h, source, target, clock, now).1.verdict in {Renamed, Conflict} ==> path != target
    ensures SameClocks(h, HostRename(h, source, target, clock, now).0, path)
  {
  }

  /** Requests on other paths leave this one alone, unless it is the conflict sibling. */
  lemma DecideElsewhere(h: HostState, d: string, op: Op, clock: Clock, now: nat, stamp: string, path: string)
    requires path != op.path && (Moved(op, Decide(h, d, op, clock, now, stamp).1) ==> path != op.target)
    requires path !in Copied(Decide(h, d, op, clock, now, stamp).1)
    ensures SameClocks(h, Decide(h, d, op, clock, now, stamp).0, path)
  {
    match op
    case WriteOp(key, data) => WriteElsewhere(h, key, data, clock, StreamWriter(d), now, stamp, path);
    case DeleteOp(key) => DeleteElsewhere(h, key, clock, now, path);
    case RenameOp(source, target) => RenameElsewhere(h, source, target, clock, now, path);
    case OpenOp(_) =>
  }

  lemma FreshIsNotStale(h: HostState, d: string, op: Op, clock: Clock, now: nat, stamp: string)
    requires Stamped(op) && !Leq(clock, Effective(h, op.path))
    ensures Decide(h, d, op, clock, now, stamp).1.verdict != Stale
  {
  }

  // ---------------------------------------------------------------------
  // Issued ticks
  // ---------------------------------------------------------------------

  lemma RaisedCovers(issued: Clock, known: Clock, d: string)
    requires Leq(known, issued)
    ensures var later := Raised(issued, d, Get(Increment(known, d), d));
            Leq(issued, later) && Leq(Increment(known, d), later)
  {
    var later := Raised(issued, d, Get(Increment(known, d), d));
    forall e | e in Increment(known, d) ensures Increment(known, d)[e] <= Get(later, e) {
      LeqAt(known, issued, e);
    }
  }

  lemma StaysWithin(m: Mount, path: string, bound: Clock, later: Clock)
    requires MountWithin(m, path, bound) && Leq(bound, later)
    ensures MountWithin(m, path, later)
  {
    LeqTransitive(At(m.known, path), bound, later);
    if !m.phase.Idle? && m.phase.op.path == path {
      LeqTransitive(m.phase.clock, bound, later);
      if m.phase.Answered? { LeqTransitive(m.phase.answer.clock, bound, later); }
    }
  }

  lemma SendWithin(s: System, d: string, op: Op, path: string)
    requires Enabled(s, Send(d, op)) && Within(s, path)
    ensures Within(Next(s, Send(d, op)), path)
  {
    var s' := Next(s, Send(d, op));
    var bound, later := At(s.issued, path), At(s'.issued, path);
    if Stamped(op) && op.path == path { RaisedCovers(bound, Known(s, d, path), d); }
    assert Leq(bound, later);
    LeqTransitive(LiveClock(s.host, path), bound, later);
    LeqTransitive(TombstoneClock(s.host, path), bound, later);
    forall e | e in s'.mounts ensures MountWithin(s'.mounts[e], path, later) {
      StaysWithin(s.mounts[e], path, bound, later);
    }
  }

  lemma ServeWithin(s: System, d: string, now: nat, stamp: string, path: string)
    requires Enabled(s, Serve(d, now, stamp)) && Within(s, path) && path !in Next(s, Serve(d, now, stamp)).tainted
    ensures Within(Next(s, Serve(d, now, stamp)), path)
  {
    var s' := Next(s, Serve(d, now, stamp));
    var Sent(op, clock) := s.mounts[d].phase;
    var bound := At(s.issued, path);
    assert MountWithin(s.mounts[d], path, bound);
    if path == op.path {
      DecideBounded(s.host, d, op, clock, now, stamp, bound);
    } else {
      DecideElsewhere(s.host, d, op, clock, now, stamp, path);
    }
    forall e | e in s'.mounts ensures MountWithin(s'.mounts[e], path, bound) {
      assert MountWithin(s.mounts[e], path, bound);
    }
  }

  lemma AdoptElsewhere(known: map<string, Clock>, op: Op, clock: Clock, answer: Answer, path: string)
    requires path != op.path && (Moved(op, answer) ==> path != op.target)
    ensures At(Adopt(known, op, clock, answer), path) == At(known, path)
  {
  }

  lemma AdoptWithin(m: Mount, path: string, bound: Clock)
    requires m.phase.Answered? && MountWithin(m, path, bound)
    requires Moved(m.phase.op, m.phase.answer) ==> path != m.phase.op.path && path != m.phase.op.target
    ensures Leq(At(Adopt(m.known, m.phase.op, m.phase.clock, m.phase.answer), path), bound)
  {
    var Answered(op, clock, answer) := m.phase;
    if op.path != path {
      AdoptElsewhere(m.known, op, clock, answer, path);
    } else {
      MergeIsLeastUpperBound(clock, answer.clock, bound);
      MergeIsLeastUpperBound(At(m.known, path), answer.clock, bound);
    }
  }

  lemma WithinStep(s: System, a: Action, path: string)
    requires Inv(s) && Enabled(s, a) && path !in Next(s, a).tainted
    ensures Within(Next(s, a), path)
  {
    assert Within(s, path);
    match a
    case Send(d, op) => SendWithin(s, d, op, path);
    case Serve(d, now, stamp) => ServeWithin(s, d, now, stamp, path);
    case Receive(d) =>
      assert MountWithin(s.mounts[d], path, At(s.issued, path));
      AdoptWithin(s.mounts[d], path, At(s.issued, path));
    case GiveUp(_) =>
    case Lose(_) =>
    case Sweep(_) =>
  }

  // ---------------------------------------------------------------------
  // Answered ticks: one mount
  // ---------------------------------------------------------------------

  lemma LeqIncrement(a: Clock, b: Clock, device: string)
    requires Leq(a, b)
    ensures Leq(a, Increment(b, device))
    ensures Leq(Increment(a, device), Increment(b, device))
  {
    forall d | d in a ensures a[d] <= Get(Increment(b, device), d) {
      LeqAt(a, b, d);
    }
    LeqAt(a, b, device);
  }

  lemma MergeWithin(a: Clock, b: Clock, bound: Clock, d: string)
    requires Leq(a, bound) && Leq(b, bound) && Get(a, d) == Get(bound, d)
    ensures Leq(Merge(a, b), bound) && Get(Merge(a, b), d) == Get(bound, d)
  {
    MergeIsLeastUpperBound(a, b, bound);
    LeqAt(b, bound, d);
  }

  /** What a mount keeps of a reply stays within the answered ticks and has all of its own. */
  lemma AdoptBounded(m: Mount, d: string, path: string, reached: Clock)
    requires m.phase.Answered? && MountBounded(m, d, path, reached)
    requires Moved(m.phase.op, m.phase.answer) ==> path != m.phase.op.path && path != m.phase.op.target
    ensures MountBounded(Mount(Adopt(m.known, m.phase.op, m.phase.clock, m.phase.answer), Idle), d, path, reached)
  {
    var Answered(op, clock, answer) := m.phase;
    if op.path != path {
      AdoptElsewhere(m.known, op, clock, answer, path);
    } else if !op.RenameOp? {
      MergeWithin(Latest(m, path), answer.clock, reached, d);
    }
  }

  lemma DropBounded(m: Mount, d: string, path: string, reached: Clock)
    requires MountBounded(m, d, path, reached) && Latest(m, path) == At(m.known, path)
    ensures MountBounded(m.(phase := Idle), d, path, reached)
  {
  }

  /** Another mount's tick is answered. */
  lemma OtherBounded(m: Mount, e: string, d: string, path: string, reached: Clock)
    requires MountBounded(m, e, path, reached) && e != d
    ensures MountBounded(m, e, path, Increment(reached, d))
  {
    LeqIncrement(At(m.known, path), reached, d);
    if m.phase.Answered? && m.phase.op.path == path && !m.phase.op.RenameOp? {
      LeqIncrement(m.phase.clock, reached, d);
      LeqIncrement(m.phase.answer.clock, reached, d);
    }
  }

  /** A waiting stamped request is newer, in its own counter, than anything the host holds. */
  lemma WaitingIsFresh(h: HostState, m: Mount, d: string, path: string, reached: Clock)
    requires HostBounded(h, path, reached) && MountBounded(m, d, path, reached)
    requires m.phase.Sent? && m.phase.op.path == path && Stamped(m.phase.op)
    ensures var incoming, known, held := m.phase.clock, At(m.known, path), Effective(h, path);
            !Leq(incoming, held) && (Leq(held, incoming) <==> Leq(held, known))
  {
    LeqAt(Effective(h, path), reached, d);
    IncrementIsFresh(At(m.known, path), d, Effective(h, path));
  }

  /** A mount after its request was answered. */
  function ServedMount(h: HostState, m: Mount, d: string, now: nat, stamp: string): Mount
    requires m.phase.Sent?
  {
    m.(phase := Answered(m.phase.op, m.phase.clock, Decide(h, d, m.phase.op, m.phase.clock, now, stamp).1))
  }

  /** Once a tick is answered, host and mount are within the longer history. */
  lemma StampedServed(h: HostState, m: Mount, d: string, path: string, now: nat, stamp: string, reached: Clock)
    requires HostBounded(h, path, reached) && MountBounded(m, d, path, reached)
    requires m.phase.Sent? && m.phase.op.path == path && Stamped(m.phase.op) && !m.phase.op.RenameOp?
    ensures var later := Increment(reached, d);
            && HostBounded(Decide(h, d, m.phase.op, m.phase.clock, now, stamp).0, path, later)
            && MountBounded(ServedMount(h, m, d, now, stamp), d, path, later)
  {
    LeqIncrement(LiveClock(h, path), reached, d);
    LeqIncrement(TombstoneClock(h, path), reached, d);
    LeqIncrement(At(m.known, path), reached, d);
    DecideBounded(h, d, m.phase.op, m.phase.clock, now, stamp, Increment(reached, d));
  }

  /** An open, or a rename of nothing, leaves no tick. */
  lemma TicklessServed(h: HostState, m: Mount, d: string, path: string, now: nat, stamp: string, reached: Clock)
    requires HostBounded(h, path, reached) && MountBounded(m, d, path, reached)
    requires m.phase.Sent? && m.phase.op.path == path && (m.phase.op.OpenOp? || m.phase.op.RenameOp?)
    requires !Moved(m.phase.op, Decide(h, d, m.phase.op, m.phase.clock, now, stamp).1)
    ensures Decide(h, d, m.phase.op, m.phase.clock, now, stamp).0 == h
    ensures MountBounded(ServedMount(h, m, d, now, stamp), d, path, reached)
    ensures !Counts(m.phase.op, Decide(h, d, m.phase.op, m.phase.clock, now, stamp).1)
  {
    if m.phase.op.RenameOp? {
      WaitingIsFresh(h, m, d, path, reached);
      FreshIsNotStale(h, d, m.phase.op, m.phase.clock, now, stamp);
    }
  }

  // ---------------------------------------------------------------------
  // Answered ticks: the system
  // ---------------------------------------------------------------------

  lemma ServeHere(s: System, d: string, now: nat, stamp: string, path: string)
    requires PathOk(s, path) && Enabled(s, Serve(d, now, stamp)) && path == s.mounts[d].phase.op.path
    requires path !in Next(s, Serve(d, now, stamp)).tainted
    ensures PathOk(Next(s, Serve(d, now, stamp)), path)
  {
    var s' := Next(s, Serve(d, now, stamp));
    var op, reached := s.mounts[d].phase.op, At(s.reached, path);
    assert s'.mounts[d] == ServedMount(s.host, s.mounts[d], d, now, stamp);
    if op.OpenOp? || op.RenameOp? {
      TicklessServed(s.host, s.mounts[d], d, path, now, stamp, reached);
      assert At(s'.reached, path) == reached;
    } else {
      StampedServed(s.host, s.mounts[d], d, path, now, stamp, reached);
      forall e | e in s'.mounts && e != d ensures MountBounded(s'.mounts[e], e, path, At(s'.reached, path)) {
        OtherBounded(s.mounts[e], e, d, path, reached);
      }
    }
  }

  lemma ServeElsewhere(s: System, d: string, now: nat, stamp: string, path: string)
    requires PathOk(s, path) && Enabled(s, Serve(d, now, stamp)) && path != s.mounts[d].phase.op.path
    requires path !in Next(s, Serve(d, now, stamp)).tainted
    ensures PathOk(Next(s, Serve(d, now, stamp)), path)
  {
    var Sent(op, clock) := s.mounts[d].phase;
    DecideElsewhere(s.host, d, op, clock, now, stamp, path);
    assert MountBounded(s.mounts[d], d, path, At(s.reached, path));
    assert MountBounded(ServedMount(s.host, s.mounts[d], d, now, stamp), d, path, At(s.reached, path));
  }

  lemma PathStep(s: System, a: Action, path: string)
    requires Inv(s) && Enabled(s, a) && Clean(Next(s, a), path)
    ensures PathOk(Next(s, a), path)
  {
    assert PathOk(s, path);
    match a
    case Send(d, op) =>
      assert MountBounded(s.mounts[d], d, path, At(s.reached, path));
    case Serve(d, now, stamp) =>
      if path == s.mounts[d].phase.op.path {
        ServeHere(s, d, now, stamp, path);
      } else {
        ServeElsewhere(s, d, now, stamp, path);
      }
    case Receive(d) => AdoptBounded(s.mounts[d], d, path, At(s.reached, path));
    case GiveUp(d) => DropBounded(s.mounts[d], d, path, At(s.reached, path));
    case Lose(d) => DropBounded(s.mounts[d], d, path, At(s.reached, path));
    case Sweep(_) =>
  }

  lemma StepOk(s: System, a: Action)
    requires Inv(s) && Enabled(s, a)
    ensures Inv(Next(s, a))
  {
    forall p | p !in Next(s, a).tainted ensures Within(Next(s, a), p) {
      WithinStep(s, a, p);
    }
    forall p | Clean(Next(s, a), p) ensures PathOk(Next(s, a), p) {
      PathStep(s, a, p);
    }
  }

  lemma {:induction false} LeadsOk(s: System, actions: seq<Action>, t: System)
    requires Inv(s) && Leads(s, actions, t)
    ensures Inv(t)
    decreases |actions|
  {
    if actions != [] {
      StepOk(s, actions[0]);
      LeadsOk(Next(s, actions[0]), actions[1..], t);
    }
  }

  lemma ReachedOk(start: System, actions: seq<Action>, s: System)
    requires Reached(start, actions, s)
    ensures Inv(s)
  {
    InitOk(start);
    LeadsOk(start, actions, s);
  }

  // ---------------------------------------------------------------------
  // Results
  // ---------------------------------------------------------------------

  /**
   In every reachable state, on a path no applied rename or conflict copy has touched, no
   copy of a clock (at the host, at a mount, in a request or in a reply) holds
   more for a device than that device has issued.
   */
  lemma NoCopyExceedsIssued(start: System, actions: seq<Action>, s: System, path: string, device: string)
    requires Reached(start, actions, s) && path !in s.tainted
    ensures var issued := Get(At(s.issued, path), device);
            && Get(LiveClock(s.host, path), device) <= issued
            && Get(TombstoneClock(s.host, path), device) <= issued
            && forall e | e in s.mounts ::
                 && Get(Known(s, e, path), device) <= issued
                 && (var phase := s.mounts[e].phase;
                     && (!phase.Idle? && phase.op.path == path ==> Get(phase.clock, device) <= issued)
                     && (phase.Answered? && phase.op.path == path ==> Get(phase.answer.clock, device) <= issued))
  {
    ReachedOk(start, actions, s);
    var bound := At(s.issued, path);
    assert Within(s, path);
    LeqAt(LiveClock(s.host, path), bound, device);
    LeqAt(TombstoneClock(s.host, path), bound, device);
    forall e | e in s.mounts
      ensures && Get(Known(s, e, path), device) <= Get(bound, device)
              && (var phase := s.mounts[e].phase;
                  && (!phase.Idle? && phase.op.path == path ==> Get(phase.clock, device) <= Get(bound, device))
                  && (phase.Answered? && phase.op.path == path ==>
                        Get(phase.answer.clock, device) <= Get(bound, device)))
    {
      MountCopies(s.mounts[e], path, bound, device);
    }
  }

  lemma MountCopies(m: Mount, path: string, bound: Clock, device: string)
    requires MountWithin(m, path, bound)
    ensures Get(At(m.known, path), device) <= Get(bound, device)
    ensures !m.phase.Idle? && m.phase.op.path == path ==> Get(m.phase.clock, device) <= Get(bound, device)
    ensures m.phase.Answered? && m.phase.op.path == path ==> Get(m.phase.answer.clock, device) <= Get(bound, device)
  {
    LeqAt(At(m.known, path), bound, device);
    if !m.phase.Idle? && m.phase.op.path == path {
      LeqAt(m.phase.clock, bound, device);
      if m.phase.Answered? { LeqAt(m.phase.answer.clock, bound, device); }
    }
  }

  /**
   A flush is never answered STALE, and is a conflict exactly when the clock the
   host holds is not below the clock the mount knew when it stamped the request.
   */
  lemma FlushOutcome(start: System, actions: seq<Action>, s: System, device: string, now: nat, stamp: string)
    requires Reached(start, actions, s)
    requires Enabled(s, Serve(device, now, stamp))
    requires s.mounts[device].phase.op.WriteOp?
    requires Clean(s, s.mounts[device].phase.op.path)
    ensures var path := s.mounts[device].phase.op.path;
            var verdict := Next(s, Serve(device, now, stamp)).mounts[device].phase.answer.verdict;
            && verdict in {Applied, Conflict}
            && (verdict == Conflict <==> !Leq(Effective(s.host, path), Known(s, device, path)))
  {
    ReachedOk(start, actions, s);
    var path := s.mounts[device].phase.op.path;
    WaitingIsFresh(s.host, s.mounts[device], device, path, At(s.reached, path));
  }

  /** So the data of a flush is stored once it is served, under a clock that includes its own. */
  lemma FlushIsStored(start: System, actions: seq<Action>, s: System, device: string, now: nat, stamp: string)
    requires Reached(start, actions, s)
    requires Enabled(s, Serve(device, now, stamp))
    requires s.mounts[device].phase.op.WriteOp?
    requires Clean(s, s.mounts[device].phase.op.path)
    ensures var Sent(op, clock) := s.mounts[device].phase;
            HostRuns.Held(Next(s, Serve(device, now, stamp)).host, op.data, clock)
  {
    FlushOutcome(start, actions, s, device, now, stamp);
    var Sent(op, clock) := s.mounts[device].phase;
    var flush := HostRuns.Write(op.path, op.data, clock, StreamWriter(device), now, stamp);
    HostRuns.AcceptedIsHeld(s.host, flush, op.data, clock);
  }

  lemma FreshDelete(h: HostState, path: string, clock: Clock, now: nat)
    requires !Leq(clock, Effective(h, path))
    ensures var verdict := HostDelete(h, path, clock, now).1.verdict;
            && verdict != Stale
            && (!Tombstoned(h, path) && path in h.disk ==> (verdict == Deleted <==> Leq(Effective(h, path), clock)))
  {
  }

  /** A delete of an existing file goes through exactly when the mount knew the host's clock. */
  lemma UnlinkOutcome(start: System, actions: seq<Action>, s: System, device: string, now: nat, stamp: string)
    requires Reached(start, actions, s)
    requires Enabled(s, Serve(device, now, stamp))
    requires s.mounts[device].phase.op.DeleteOp?
    requires Clean(s, s.mounts[device].phase.op.path)
    ensures var path := s.mounts[device].phase.op.path;
            var verdict := Next(s, Serve(device, now, stamp)).mounts[device].phase.answer.verdict;
            && verdict != Stale
            && (!Tombstoned(s.host, path) && path in s.host.disk ==>
                  (verdict == Deleted <==> Leq(Effective(s.host, path), Known(s, device, path))))
  {
    ReachedOk(start, actions, s);
    var path := s.mounts[device].phase.op.path;
    WaitingIsFresh(s.host, s.mounts[device], device, path, At(s.reached, path));
    FreshDelete(s.host, path, s.mounts[device].phase.clock, now);
    assert Next(s, Serve(device, now, stamp)).mounts[device]
        == ServedMount(s.host, s.mounts[device], device, now, stamp);
  }

  // ---------------------------------------------------------------------
  // What a reply teaches
  // ---------------------------------------------------------------------

  /** The path whose clock a reply is about: after a rename that took effect, the new name. */
  function Subject(op: Op, answer: Answer): string {
    if Moved(op, answer) then op.target else op.path
  }

  /** A rename or an open of nothing teaches nothing. */
  predicate Teaches(op: Op, answer: Answer) {
    op.WriteOp? || op.DeleteOp? || answer.verdict != NotFound
  }

  lemma DecideTeaches(h: HostState, d: string, op: Op, clock: Clock, now: nat, stamp: string)
    requires op.OpenOp? ==> HostRuns.Exclusive(h)
    ensures var (after, answer) := Decide(h, d, op, clock, now, stamp);
            Teaches(op, answer) ==> Leq(Effective(after, Subject(op, answer)), answer.clock)
  {
    match op
    case WriteOp(path, data) => HostAnswers.WriteTeaches(h, path, data, clock, StreamWriter(d), now, stamp);
    case DeleteOp(path) => HostAnswers.DeleteTeaches(h, path, clock, now);
    case RenameOp(path, target) => HostAnswers.RenameTeaches(h, path, target, clock, now);
    case OpenOp(path) => assert path in h.disk ==> !Tombstoned(h, path);
  }

  predicate Answerable(op: Op, answer: Answer) {
    op.RenameOp? ==> answer.verdict in {Renamed, Conflict, Stale, NotFound}
  }

  /**
   What a mount keeps of a reply, for the path the reply is about: no less than it sent, or knew, and than the answer
   says, and no more than these together.
   */
  lemma AdoptLearns(known: map<string, Clock>, op: Op, clock: Clock, answer: Answer)
    requires Answerable(op, answer) && Teaches(op, answer)
    ensures var adopted, path := Adopt(known, op, clock, answer), Subject(op, answer);
            && path in adopted
            && HostAnswers.JoinOf(adopted[path], if Stamped(op) then clock else At(known, path), answer.clock)
  {
    HostAnswers.MergeIsJoin(clock, answer.clock);
    HostAnswers.MergeIsJoin(At(known, op.path), answer.clock);
  }

  /** For every other path it keeps what it knew, but forgets the old name after a rename that took effect. */
  lemma AdoptKeeps(known: map<string, Clock>, op: Op, clock: Clock, answer: Answer, path: string)
    requires Answerable(op, answer) && (Teaches(op, answer) ==> path != Subject(op, answer))
    ensures var adopted := Adopt(known, op, clock, answer);
            if Moved(op, answer) && path == op.path then path !in adopted
            else (path in adopted <==> path in known) && At(adopted, path) == At(known, path)
  {
  }

  /** The mount's request is served and its reply arrives, with nothing else in between. */
  function Heard(s: System, d: string, now: nat, stamp: string): System
    requires Enabled(s, Serve(d, now, stamp))
  {
    Next(Next(s, Serve(d, now, stamp)), Receive(d))
  }

  /**
   A mount that has heard the answer to a request knows all that the host then knows of the path, whatever the verdict
   was and whatever it knew before.
   */
  lemma HeardIsKnown(s: System, d: string, now: nat, stamp: string)
    requires Enabled(s, Serve(d, now, stamp))
    requires s.mounts[d].phase.op.WriteOp? || s.mounts[d].phase.op.DeleteOp?
    ensures var path := s.mounts[d].phase.op.path;
            Leq(Effective(Heard(s, d, now, stamp).host, path), Known(Heard(s, d, now, stamp), d, path))
  {
    var Sent(op, clock) := s.mounts[d].phase;
    var (after, answer) := Decide(s.host, d, op, clock, now, stamp);
    DecideTeaches(s.host, d, op, clock, now, stamp);
    AdoptLearns(s.mounts[d].known, op, clock, answer);
    assert Heard(s, d, now, stamp).host == after;
    assert Heard(s, d, now, stamp).mounts[d].known == Adopt(s.mounts[d].known, op, clock, answer);
    LeqTransitive(Effective(after, op.path), answer.clock, Adopt(s.mounts[d].known, op, clock, answer)[op.path]);
  }

  /** So the next flush of that path, if nobody else gets in between, is applied: no conflict is reported twice. */
  lemma NextFlushIsApplied(s: System, d: string, now: nat, stamp: string, data: Bytes, later: nat, stamp': string)
    requires Enabled(s, Serve(d, now, stamp))
    requires s.mounts[d].phase.op.WriteOp? || s.mounts[d].phase.op.DeleteOp?
    ensures var path := s.mounts[d].phase.op.path;
            var sent := Next(Heard(s, d, now, stamp), Send(d, WriteOp(path, data)));
            var served := Next(sent, Serve(d, later, stamp'));
            && served.mounts[d].phase.answer.verdict == Applied
            && path in served.host.disk && served.host.disk[path] == data
  {
    var path := s.mounts[d].phase.op.path;
    var heard := Heard(s, d, now, stamp);
    HeardIsKnown(s, d, now, stamp);
    var clock := Increment(Known(heard, d, path), d);
    LeqIncrement(Effective(heard.host, path), Known(heard, d, path), d);
    HostAnswers.WriteVerdictExactly(heard.host, path, data, clock, StreamWriter(d), later, stamp');
    HostAnswers.WriteStores(heard.host, path, data, clock, StreamWriter(d), later, stamp');
  }

  // ---------------------------------------------------------------------
  // Renamed paths
  // ---------------------------------------------------------------------

  lemma IncrementLeq(known: Clock, d: string, held: Clock)
    ensures Leq(Increment(known, d), held) <==> Leq(known, held) && Get(known, d) < Get(held, d)
  {
    LeqIsPointwise(Increment(known, d), held);
    LeqIsPointwise(known, held);
    assert forall e :: Get(Increment(known, d), e) == Get(known, e) + if e == d then 1 else 0;
  }

  /**
   On any path, renamed or not, a freshly stamped write is refused as STALE exactly when the host includes
   all that the mount knew, holds a tick of this very mount that the mount does not know, and more than that tick.
   */
  lemma StaleExactly(h: HostState, path: string, data: Bytes, known: Clock, d: string, now: nat, stamp: string)
    ensures var held, incoming := Effective(h, path), Increment(known, d);
            Decide(h, d, WriteOp(path, data), incoming, now, stamp).1.verdict == Stale
            <==> Leq(known, held) && Get(known, d) < Get(held, d) && exists e :: Get(incoming, e) < Get(held, e)
  {
    IncrementLeq(known, d, Effective(h, path));
    LeqIsPointwise(Effective(h, path), Increment(known, d));
  }

  /** Send, serve, receive. */
  function RoundTrip(d: string, op: Op): seq<Action> {
    [Send(d, op), Serve(d, 0, "0"), Receive(d)]
  }

  function AfterRoundTrip(s: System, d: string, op: Op): System
    requires Enabled(s, Send(d, op))
  {
    Next(Next(Next(s, Send(d, op)), Serve(d, 0, "0")), Receive(d))
  }

  lemma RoundTripLeads(t: System, d: string, op: Op)
    requires Enabled(t, Send(d, op))
    ensures Leads(t, RoundTrip(d, op), AfterRoundTrip(t, d, op))
  {
    var actions := RoundTrip(d, op);
    var t1 := Next(t, actions[0]);
    var t2 := Next(t1, actions[1]);
    assert actions[1..] == [actions[1], actions[2]] && actions[1..][1..] == [actions[2]] && [actions[2]][1..] == [];
    assert Leads(Next(t2, actions[2]), [], AfterRoundTrip(t, d, op));
    assert Leads(t2, [actions[2]], AfterRoundTrip(t, d, op));
  }

  lemma {:induction false} LeadsJoin(s: System, first: seq<Action>, t: System, second: seq<Action>, u: System)
    requires Leads(s, first, t) && Leads(t, second, u)
    ensures Leads(s, first + second, u)
    decreases |first|
  {
    if first == [] {
      assert first + second == second;
    } else {
      LeadsJoin(Next(s, first[0]), first[1..], t, second, u);
      assert (first + second)[1..] == first[1..] + second;
    }
  }

  /** Nothing in flight and nothing deleted; what `a`, `b` and the host hold for a path. */
  ghost predicate View(s: System, p: string, a: Clock, b: Clock, host: Clock, present: bool) {
    && s.mounts.Keys == {"a", "b"}
    && s.mounts["a"].phase.Idle? && s.mounts["b"].phase.Idle?
    && s.host.tombstones == map[]
    && Known(s, "a", p) == a && Known(s, "b", p) == b
    && LiveClock(s.host, p) == host && (p in s.host.disk) == present
  }

  lemma WriteApplies(h: HostState, p: string, d: string, stamped: Clock)
    requires h.tombstones == map[] && Leq(LiveClock(h, p), stamped) && !Leq(stamped, LiveClock(h, p))
    requires Merge(LiveClock(h, p), stamped) == stamped
    ensures var (after, answer) := Decide(h, d, WriteOp(p, []), stamped, 0, "0");
            && after.tombstones == map[] && LiveClock(after, p) == stamped && p in after.disk
            && answer == Answer(Applied, stamped, "")
  {
  }

  /** A write on top of the host's clock. */
  lemma WriteSeen(s: System, p: string, d: string, a: Clock, b: Clock, host: Clock, present: bool, stamped: Clock)
    requires View(s, p, a, b, host, present) && d in {"a", "b"}
    requires stamped == Increment(Known(s, d, p), d) && Leq(host, stamped) && !Leq(stamped, host)
    requires Merge(host, stamped) == stamped && Merge(stamped, stamped) == stamped
    ensures Enabled(s, Send(d, WriteOp(p, [])))
    ensures View(AfterRoundTrip(s, d, WriteOp(p, [])), p,
                 if d == "a" then stamped else a, if d == "b" then stamped else b, stamped, true)
  {
    var s1 := Next(s, Send(d, WriteOp(p, [])));
    assert s1.mounts[d].phase == Sent(WriteOp(p, []), stamped);
    WriteApplies(s.host, p, d, stamped);
    var s2 := Next(s1, Serve(d, 0, "0"));
    assert s2.mounts[d].phase == Answered(WriteOp(p, []), stamped, Answer(Applied, stamped, ""));
  }

  lemma OpenSeen(s: System, p: string, a: Clock, host: Clock)
    requires View(s, p, a, map[], host, true) && Merge(map[], host) == host
    ensures Enabled(s, Send("b", OpenOp(p)))
    ensures View(AfterRoundTrip(s, "b", OpenOp(p)), p, a, host, host, true)
  {
    var s1 := Next(s, Send("b", OpenOp(p)));
    var s2 := Next(s1, Serve("b", 0, "0"));
    assert s2.mounts["b"].phase == Answered(OpenOp(p), map[], Answer(Applied, host, ""));
  }

  lemma RenameMoves(h: HostState, stamped: Clock)
    requires h.tombstones == map[] && "f" in h.disk
    requires Leq(LiveClock(h, "f"), stamped) && !Leq(stamped, LiveClock(h, "f"))
    ensures var (after, answer) := Decide(h, "a", RenameOp("f", "g"), stamped, 0, "0");
            && after.tombstones == map[] && LiveClock(after, "f") == map[] && "f" !in after.disk
            && answer.verdict == Renamed
  {
  }

  lemma RenameSeen(s: System, b: Clock, host: Clock, stamped: Clock)
    requires View(s, "f", host, b, host, true)
    requires stamped == Increment(host, "a") && Leq(host, stamped) && !Leq(stamped, host)
    ensures Enabled(s, Send("a", RenameOp("f", "g")))
    ensures View(AfterRoundTrip(s, "a", RenameOp("f", "g")), "f", map[], b, map[], false)
  {
    var s1 := Next(s, Send("a", RenameOp("f", "g")));
    assert s1.mounts["a"].phase == Sent(RenameOp("f", "g"), stamped);
    RenameMoves(s.host, stamped);
    var s2 := Next(s1, Serve("a", 0, "0"));
    assert s2.mounts["a"].phase.answer.verdict == Renamed;
  }

  lemma StaleSeen(s: System, p: string, b: Clock, host: Clock, stamped: Clock)
    requires View(s, p, map[], b, host, true)
    requires stamped == Increment(map[], "a") && Leq(stamped, host) && !Leq(host, stamped)
    ensures Enabled(s, Send("a", WriteOp(p, [])))
    ensures Next(Next(s, Send("a", WriteOp(p, []))), Serve("a", 0, "0")).mounts["a"].phase.answer.verdict == Stale
  {
    var s1 := Next(s, Send("a", WriteOp(p, [])));
    assert s1.mounts["a"].phase == Sent(WriteOp(p, []), stamped);
  }

  /** Reached without ever renaming onto `f`. */
  ghost predicate NeverOntoF(start: System, actions: seq<Action>, s: System) {
    Reached(start, actions, s) && forall x | x in actions && x.Send? && x.op.RenameOp? :: x.op.target != "f"
  }

  predicate Renameless(actions: seq<Action>) {
    forall x | x in actions && x.Send? :: !x.op.RenameOp?
  }

  predicate Lossless(actions: seq<Action>) {
    forall x | x in actions :: !x.Lose?
  }

  lemma GoOn(start: System, actions: seq<Action>, s: System, d: string, op: Op)
    returns (more: seq<Action>, after: System)
    requires NeverOntoF(start, actions, s) && Enabled(s, Send(d, op)) && (op.RenameOp? ==> op.target != "f")
    ensures NeverOntoF(start, more, after) && after == AfterRoundTrip(s, d, op)
    ensures Renameless(actions) && !op.RenameOp? ==> Renameless(more)
    ensures Lossless(actions) ==> Lossless(more)
    ensures s.tainted <= after.tainted
  {
    RoundTripLeads(s, d, op);
    LeadsJoin(start, actions, s, RoundTrip(d, op), AfterRoundTrip(s, d, op));
    more, after := actions + RoundTrip(d, op), AfterRoundTrip(s, d, op);
  }

  lemma TickFacts(one: Clock, two: Clock, both: Clock)
    requires one == map["a" := 1] && two == map["a" := 2] && both == map["a" := 1, "b" := 1]
    ensures Increment(map[], "a") == one && Increment(one, "a") == two && Increment(one, "b") == both
    ensures Merge(map[], one) == one && Merge(one, one) == one
    ensures Merge(map[], both) == both && Merge(both, both) == both
    ensures Leq(map[], one) && Leq(one, two) && Leq(map[], both) && Leq(one, both)
    ensures !Leq(both, one) && !Leq(one, map[]) && !Leq(two, one) && !Leq(both, map[])
  {
    assert "b" in both && "b" !in one && "a" in one && "a" in two && two["a"] > one["a"];
    assert forall d | d in Merge(map[], both) :: Merge(map[], both)[d] == both[d];
    assert forall d | d in Merge(both, both) :: Merge(both, both)[d] == both[d];
  }

  /** `a` writes the file and `b` opens it. */
  lemma WrittenAndOpened(one: Clock, two: Clock, both: Clock) returns (start: System, actions: seq<Action>, s: System)
    requires one == map["a" := 1] && two == map["a" := 2] && both == map["a" := 1, "b" := 1]
    ensures NeverOntoF(start, actions, s) && Lossless(actions) && View(s, "f", one, one, one, true)
  {
    TickFacts(one, two, both);
    start := System(HostState(map[], map[], map[]),
                    map["a" := Mount(map[], Idle), "b" := Mount(map[], Idle)], map[], map[], {}, {});
    WriteSeen(start, "f", "a", map[], map[], map[], false, one);
    var t1, s1 := GoOn(start, [], start, "a", WriteOp("f", []));
    OpenSeen(s1, "f", one, one);
    actions, s := GoOn(start, t1, s1, "b", OpenOp("f"));
  }

  /**
   A path that was only ever the source of a rename is enough for a flush to be
   answered STALE: the renaming mount restarts its counter there, while another
   mount still carries the old one.
   */
  lemma RenamedAwayFlushIsStale() returns (start: System, actions: seq<Action>, s: System)
    ensures NeverOntoF(start, actions, s) && Lossless(actions)
    ensures Enabled(s, Send("a", WriteOp("f", [])))
    ensures Next(Next(s, Send("a", WriteOp("f", []))), Serve("a", 0, "0")).mounts["a"].phase.answer.verdict == Stale
  {
    var one: Clock, two: Clock, both: Clock := map["a" := 1], map["a" := 2], map["a" := 1, "b" := 1];
    TickFacts(one, two, both);
    var t2, s2;
    start, t2, s2 := WrittenAndOpened(one, two, both);
    RenameSeen(s2, one, one, two);
    var t3, s3 := GoOn(start, t2, s2, "a", RenameOp("f", "g"));
    WriteSeen(s3, "f", "b", map[], one, map[], false, both);
    actions, s := GoOn(start, t3, s3, "b", WriteOp("f", []));
    StaleSeen(s, "f", both, both, one);
  }

  /** A request is served and its reply lost: the host has the tick, the mount does not know it. */
  lemma LostSeen(s: System, b: Clock, stamped: Clock)
    requires View(s, "f", map[], b, map[], false) && stamped == Increment(map[], "a")
    requires Leq(map[], stamped) && !Leq(stamped, map[]) && Merge(map[], stamped) == stamped
    ensures Enabled(s, Send("a", WriteOp("f", [])))
    ensures View(AfterLoss(s, "a", WriteOp("f", [])), "f", map[], b, stamped, true)
  {
    var s1 := Next(s, Send("a", WriteOp("f", [])));
    assert s1.mounts["a"].phase == Sent(WriteOp("f", []), stamped);
    WriteApplies(s.host, "f", "a", stamped);
    var s2 := Next(s1, Serve("a", 0, "0"));
    assert s2.mounts["a"].phase == Answered(WriteOp("f", []), stamped, Answer(Applied, stamped, ""));
  }

  function AfterLoss(s: System, d: string, op: Op): System
    requires Enabled(s, Send(d, op))
  {
    Next(Next(Next(s, Send(d, op)), Serve(d, 0, "0")), Lose(d))
  }

  lemma LossLeads(t: System, d: string, op: Op)
    requires Enabled(t, Send(d, op))
    ensures Leads(t, [Send(d, op), Serve(d, 0, "0"), Lose(d)], AfterLoss(t, d, op))
  {
    var actions := [Send(d, op), Serve(d, 0, "0"), Lose(d)];
    var t1 := Next(t, actions[0]);
    var t2 := Next(t1, actions[1]);
    assert actions[1..] == [actions[1], actions[2]] && actions[1..][1..] == [actions[2]] && [actions[2]][1..] == [];
    assert Leads(Next(t2, actions[2]), [], AfterLoss(t, d, op));
    assert Leads(t2, [actions[2]], AfterLoss(t, d, op));
  }

  /** From the start, `a` writes the file without hearing back. */
  lemma WrittenUnheard(one: Clock) returns (start: System, actions: seq<Action>, s: System)
    requires one == Increment(map[], "a") && Leq(map[], one) && !Leq(one, map[]) && Merge(map[], one) == one
    ensures NeverOntoF(start, actions, s) && Renameless(actions) && View(s, "f", map[], map[], one, true)
  {
    start := System(HostState(map[], map[], map[]),
                    map["a" := Mount(map[], Idle), "b" := Mount(map[], Idle)], map[], map[], {}, {});
    LostSeen(start, map[], one);
    LossLeads(start, "a", WriteOp("f", []));
    actions, s := [Send("a", WriteOp("f", [])), Serve("a", 0, "0"), Lose("a")], AfterLoss(start, "a", WriteOp("f", []));
  }

  /**
   No rename is needed: one lost reply is enough. The mount stamps the next flush with the tick the host already
   has, and once another mount has written on top of that the flush is STALE.
   */
  lemma LostReplyFlushIsStale() returns (start: System, actions: seq<Action>, s: System)
    ensures Reached(start, actions, s) && Renameless(actions)
    ensures Enabled(s, Send("a", WriteOp("f", [])))
    ensures Next(Next(s, Send("a", WriteOp("f", []))), Serve("a", 0, "0")).mounts["a"].phase.answer.verdict == Stale
  {
    var one: Clock, two: Clock, both: Clock := map["a" := 1], map["a" := 2], map["a" := 1, "b" := 1];
    TickFacts(one, two, both);
    var t1, s1;
    start, t1, s1 := WrittenUnheard(one);
    OpenSeen(s1, "f", map[], one);
    var t2, s2 := GoOn(start, t1, s1, "b", OpenOp("f"));
    WriteSeen(s2, "f", "b", map[], one, one, true, both);
    actions, s := GoOn(start, t2, s2, "b", WriteOp("f", []));
    StaleSeen(s, "f", both, both, one);
  }

  /** The first write of a file: all that the system then holds. */
  function AfterFirstWrite(b: Clock): System {
    System(HostState(map["f" := []], map["f" := ClockEntry(b, 0)], map[]),
           map["a" := Mount(map[], Idle), "b" := Mount(map["f" := b], Idle)],
           map["f" := b], map["f" := b], {}, {})
  }

  /** From the start, `b` writes the file. */
  lemma WrittenByB(b: Clock) returns (start: System, actions: seq<Action>, s: System)
    requires b == map["b" := 1]
    ensures NeverOntoF(start, actions, s) && Renameless(actions) && Lossless(actions) && s == AfterFirstWrite(b)
  {
    start := System(HostState(map[], map[], map[]),
                    map["a" := Mount(map[], Idle), "b" := Mount(map[], Idle)], map[], map[], {}, {});
    assert "b" in b && Increment(map[], "b") == b && Merge(map[], b) == b && Merge(b, b) == b && !Leq(b, map[]);
    var op := WriteOp("f", []);
    var s1 := Next(start, Send("b", op));
    assert s1.mounts["b"].phase == Sent(op, b);
    WriteApplies(start.host, "f", "b", b);
    var s2 := Next(s1, Serve("b", 0, "0"));
    assert s2.mounts["b"].phase == Answered(op, b, Answer(Applied, b, ""));
    actions, s := GoOn(start, [], start, "b", op);
  }

  const SIBLING := ConflictName("f", StreamWriter("a"), "0")

  /** A concurrent write leaves its data, and its clock, under a name that no mount knows. */
  lemma ConflictSeen(s: System, a: Clock, b: Clock)
    requires a == map["a" := 1] && b == map["b" := 1] && s == AfterFirstWrite(b)
    ensures Enabled(s, Send("a", WriteOp("f", [])))
    ensures View(AfterRoundTrip(s, "a", WriteOp("f", [])), SIBLING, map[], map[], a, true)
    ensures SIBLING in AfterRoundTrip(s, "a", WriteOp("f", [])).tainted
  {
    assert "a" in a && "b" in b && "a" !in b && "b" !in a && Increment(map[], "a") == a && |SIBLING| > |"f"|;
    var op := WriteOp("f", []);
    var s1 := Next(s, Send("a", op));
    assert s1.mounts["a"].phase == Sent(op, a);
    assert !Leq(a, b) && !Leq(b, a);
    var s2 := Next(s1, Serve("a", 0, "0"));
    assert s2.mounts["a"].phase == Answered(op, a, Answer(Conflict, b, SIBLING));
    assert s2.host.clocks == map["f" := ClockEntry(b, 0), SIBLING := ClockEntry(a, 0)];
  }

  /** The copy is made, and `b` opens it. */
  lemma CopiedAndOpened(one: Clock) returns (start: System, actions: seq<Action>, s: System)
    requires one == map["a" := 1] && Merge(map[], one) == one
    ensures NeverOntoF(start, actions, s) && Renameless(actions) && Lossless(actions) && SIBLING in s.tainted
    ensures View(s, SIBLING, map[], one, one, true)
  {
    var t1, s1;
    start, t1, s1 := WrittenByB(map["b" := 1]);
    ConflictSeen(s1, one, map["b" := 1]);
    var t2, s2 := GoOn(start, t1, s1, "a", WriteOp("f", []));
    OpenSeen(s2, SIBLING, map[], one);
    actions, s := GoOn(start, t2, s2, "b", OpenOp(SIBLING));
  }

  /**
   Nor a lost reply: a conflict copy is enough. It carries the writer's tick for the file under a name where the
   writer has none, and once another mount has written on top of it a flush of the writer there is STALE.
   */
  lemma ConflictCopyFlushIsStale() returns (start: System, actions: seq<Action>, s: System)
    ensures Reached(start, actions, s) && Renameless(actions) && Lossless(actions) && SIBLING in s.tainted
    ensures Enabled(s, Send("a", WriteOp(SIBLING, [])))
    ensures Next(Next(s, Send("a", WriteOp(SIBLING, []))), Serve("a", 0, "0")).mounts["a"].phase.answer.verdict == Stale
  {
    var one: Clock, two: Clock, both: Clock := map["a" := 1], map["a" := 2], map["a" := 1, "b" := 1];
    TickFacts(one, two, both);
    var t3, s3;
    start, t3, s3 := CopiedAndOpened(one);
    WriteSeen(s3, SIBLING, "b", map[], one, one, true, both);
    actions, s := GoOn(start, t3, s3, "b", WriteOp(SIBLING, []));
    StaleSeen(s, SIBLING, both, both, one);
  }
}
