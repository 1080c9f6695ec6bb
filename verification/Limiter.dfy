/**
 The rate limiter for pairing attempts: fixed windows per address, expired entries
 purged by a sweep that runs at most once a window. It gives the answers of a limiter
 that sweeps on every call, and it bounds what any stretch of one window lets through.
 */
module Limiter {
  import opened Basics

  /** Attempts so far in the window that began at `first`. */
  datatype Entry = Entry(count: nat, first: nat)

  type Attempts = map<string, Entry>

  datatype State = State(attempts: Attempts, lastSweep: Option<nat>)

  datatype Config = Config(maxAttempts: nat, window: nat)

  datatype Answer = Allowed | Refused(retryAfter: nat)

  datatype Event = Attempt(ip: string, now: nat) | Success(ip: string)

  const MAX_TRACKED_IPS: nat := 10_000

  const FRESH := State(map[], None)

  // ---------------------------------------------------------------------
  // One call
  // ---------------------------------------------------------------------

  /** Durations between instants never go below zero. */
  function Since(now: nat, earlier: nat): nat {
    if now < earlier then 0 else now - earlier
  }

  predicate Open(entry: Entry, now: nat, window: nat) {
    Since(now, entry.first) < window
  }

  /** The entries whose window is still open. */
  function Live(attempts: Attempts, now: nat, window: nat): Attempts {
    map ip | ip in attempts && Open(attempts[ip], now, window) :: attempts[ip]
  }

  function Swept(s: State, now: nat, c: Config): State {
    State(Live(s.attempts, now, c.window), Some(now))
  }

  predicate SweepDue(s: State, now: nat, c: Config) {
    s.lastSweep.None? || Since(now, s.lastSweep.value) >= c.window
  }

  /** The part of a check that looks at the address, after the lazy sweep. */
  function Counted(s: State, ip: string, now: nat, c: Config): (State, Answer) {
    if ip in s.attempts then
      var entry := s.attempts[ip];
      if !Open(entry, now, c.window) then (s.(attempts := s.attempts[ip := Entry(1, now)]), Allowed)
      else if entry.count >= c.maxAttempts then (s, Refused(c.window - Since(now, entry.first)))
      else (s.(attempts := s.attempts[ip := entry.(count := entry.count + 1)]), Allowed)
    else
      var s' := if |s.attempts| >= MAX_TRACKED_IPS then Swept(s, now, c) else s;
      if |s'.attempts| >= MAX_TRACKED_IPS then (s', Refused(c.window))
      else (s'.(attempts := s'.attempts[ip := Entry(1, now)]), Allowed)
  }

  function Checked(s: State, ip: string, now: nat, c: Config): (State, Answer) {
    Counted(if SweepDue(s, now, c) then Swept(s, now, c) else s, ip, now, c)
  }

  function Next(s: State, e: Event, c: Config): State {
    match e
    case Attempt(ip, now) => Checked(s, ip, now, c).0
    case Success(ip) => s.(attempts := s.attempts - {ip})
  }

  /** The answers of a run; a recorded success has none. */
  function Answers(s: State, events: seq<Event>, c: Config): seq<Answer>
    decreases |events|
  {
    if events == [] then []
    else
      var rest := Answers(Next(s, events[0], c), events[1..], c);
      if events[0].Attempt? then [Checked(s, events[0].ip, events[0].now, c).1] + rest else rest
  }

  /** The clock does not run backwards. */
  predicate Monotone(events: seq<Event>, now: nat) {
    events == [] ||
    (if events[0].Attempt? then now <= events[0].now && Monotone(events[1..], events[0].now)
     else Monotone(events[1..], now))
  }

  // ---------------------------------------------------------------------
  // The cap
  // ---------------------------------------------------------------------

  predicate Capped(attempts: Attempts) {
    |attempts| <= MAX_TRACKED_IPS
  }

  lemma LiveIsSmaller(attempts: Attempts, now: nat, window: nat)
    ensures |Live(attempts, now, window)| <= |attempts|
    ensures forall ip | ip in attempts && ip !in Live(attempts, now, window) ::
              |Live(attempts, now, window)| < |attempts|
  {
    var live := Live(attempts, now, window);
    assert |live| == |live.Keys| && |attempts| == |attempts.Keys|;
    SubsetSize(live.Keys, attempts.Keys);
  }

  lemma {:induction false} SubsetSize(small: set<string>, big: set<string>)
    requires small <= big
    ensures |small| <= |big|
    ensures small != big ==> |small| < |big|
    decreases big
  {
    if big != {} {
      var x :| x in big;
      if x in small {
        SubsetSize(small - {x}, big - {x});
        assert small != big ==> small - {x} != big - {x} by {
          assert small == small - {x} + {x} && big == big - {x} + {x};
        }
      } else {
        SubsetSize(small, big - {x});
      }
    }
  }

  lemma InsertSize(attempts: Attempts, ip: string, entry: Entry)
    ensures |attempts[ip := entry]| == if ip in attempts then |attempts| else |attempts| + 1
  {
    assert attempts[ip := entry].Keys == attempts.Keys + {ip};
    assert |attempts| == |attempts.Keys| && |attempts[ip := entry]| == |attempts[ip := entry].Keys|;
  }

  lemma RemoveSize(attempts: Attempts, ip: string)
    ensures |attempts - {ip}| <= |attempts|
  {
    assert (attempts - {ip}).Keys == attempts.Keys - {ip};
    assert |attempts| == |attempts.Keys| && |attempts - {ip}| == |(attempts - {ip}).Keys|;
    SubsetSize((attempts - {ip}).Keys, attempts.Keys);
  }

  lemma CappedCounted(s: State, ip: string, now: nat, c: Config)
    requires Capped(s.attempts)
    ensures Capped(Counted(s, ip, now, c).0.attempts)
  {
    LiveIsSmaller(s.attempts, now, c.window);
    if ip in s.attempts {
      InsertSize(s.attempts, ip, Entry(1, now));
      InsertSize(s.attempts, ip, s.attempts[ip].(count := s.attempts[ip].count + 1));
    } else {
      var s' := if |s.attempts| >= MAX_TRACKED_IPS then Swept(s, now, c) else s;
      InsertSize(s'.attempts, ip, Entry(1, now));
    }
  }

  lemma CappedStep(s: State, e: Event, c: Config)
    requires Capped(s.attempts)
    ensures Capped(Next(s, e, c).attempts)
  {
    match e
    case Attempt(ip, now) =>
      LiveIsSmaller(s.attempts, now, c.window);
      CappedCounted(if SweepDue(s, now, c) then Swept(s, now, c) else s, ip, now, c);
    case Success(ip) =>
      RemoveSize(s.attempts, ip);
  }

  function Run(s: State, events: seq<Event>, c: Config): State
    decreases |events|
  {
    if events == [] then s else Run(Next(s, events[0], c), events[1..], c)
  }

  lemma {:induction false} CappedFrom(s: State, events: seq<Event>, c: Config)
    requires Capped(s.attempts)
    ensures Capped(Run(s, events, c).attempts)
    decreases |events|
  {
    if events != [] {
      CappedStep(s, events[0], c);
      CappedFrom(Next(s, events[0], c), events[1..], c);
    }
  }

  /** Whatever happens, and whatever the clock does, the number of tracked addresses never passes the cap. */
  lemma NeverOverTheCap(events: seq<Event>, c: Config)
    ensures |Run(FRESH, events, c).attempts| <= 10_000
  {
    CappedFrom(FRESH, events, c);
  }

  // ---------------------------------------------------------------------
  // The lazy sweep cannot be observed
  // ---------------------------------------------------------------------

  /** The simple limiter: purge every expired entry on every call, then count. */
  function EagerChecked(attempts: Attempts, ip: string, now: nat, c: Config): (Attempts, Answer) {
    var live := Live(attempts, now, c.window);
    if ip in live then
      if live[ip].count >= c.maxAttempts then (live, Refused(c.window - Since(now, live[ip].first)))
      else (live[ip := Entry(live[ip].count + 1, live[ip].first)], Allowed)
    else if |live| >= MAX_TRACKED_IPS then (live, Refused(c.window))
    else (live[ip := Entry(1, now)], Allowed)
  }

  function EagerNext(attempts: Attempts, e: Event, c: Config): Attempts {
    match e
    case Attempt(ip, now) => EagerChecked(attempts, ip, now, c).0
    case Success(ip) => attempts - {ip}
  }

  function EagerAnswers(attempts: Attempts, events: seq<Event>, c: Config): seq<Answer>
    decreases |events|
  {
    if events == [] then []
    else
      var rest := EagerAnswers(EagerNext(attempts, events[0], c), events[1..], c);
      if events[0].Attempt? then [EagerChecked(attempts, events[0].ip, events[0].now, c).1] + rest else rest
  }

  /** Both limiters hold the same open windows. */
  predicate SameLive(a: Attempts, b: Attempts, now: nat, window: nat) {
    Live(a, now, window) == Live(b, now, window)
  }

  lemma LiveLater(attempts: Attempts, now: nat, later: nat, window: nat)
    requires now <= later
    ensures Live(Live(attempts, now, window), later, window) == Live(attempts, later, window)
  {
  }

  lemma LiveAfterInsert(a: Attempts, b: Attempts, ip: string, entry: Entry, now: nat, window: nat)
    requires SameLive(a, b, now, window)
    ensures SameLive(a[ip := entry], b[ip := entry], now, window)
  {
    var x, y := Live(a[ip := entry], now, window), Live(b[ip := entry], now, window);
    forall k ensures k in x <==> k in y {
      assert k in Live(a, now, window) <==> k in Live(b, now, window);
    }
    forall k | k in x ensures x[k] == y[k] {
      if k != ip {
        assert Live(a, now, window)[k] == Live(b, now, window)[k];
      }
    }
  }

  lemma CountedIsEager(s: State, ip: string, now: nat, c: Config)
    requires Capped(s.attempts)
    ensures var (s', answer) := Counted(s, ip, now, c);
            var (eager, expected) := EagerChecked(s.attempts, ip, now, c);
            answer == expected && SameLive(s'.attempts, eager, now, c.window)
  {
    var live := Live(s.attempts, now, c.window);
    LiveIsSmaller(s.attempts, now, c.window);
    LiveLater(s.attempts, now, now, c.window);
    LiveAfterInsert(s.attempts, live, ip, Entry(1, now), now, c.window);
    if ip in live {
      LiveAfterInsert(s.attempts, live, ip, Entry(live[ip].count + 1, live[ip].first), now, c.window);
    }
  }

  lemma EagerStepAgrees(s: State, eager: Attempts, before: nat, ip: string, now: nat, c: Config)
    requires before <= now && Capped(s.attempts) && SameLive(s.attempts, eager, before, c.window)
    ensures var (s', answer) := Checked(s, ip, now, c);
            var (eager', expected) := EagerChecked(eager, ip, now, c);
            answer == expected && SameLive(s'.attempts, eager', now, c.window)
  {
    LiveLater(s.attempts, before, now, c.window);
    LiveLater(eager, before, now, c.window);
    LiveLater(s.attempts, now, now, c.window);
    var swept := if SweepDue(s, now, c) then Swept(s, now, c) else s;
    LiveIsSmaller(s.attempts, now, c.window);
    CountedIsEager(swept, ip, now, c);
  }

  lemma SuccessAgrees(a: Attempts, b: Attempts, ip: string, now: nat, window: nat)
    requires SameLive(a, b, now, window)
    ensures SameLive(a - {ip}, b - {ip}, now, window)
  {
    assert Live(a - {ip}, now, window) == Live(a, now, window) - {ip};
    assert Live(b - {ip}, now, window) == Live(b, now, window) - {ip};
  }

  lemma {:induction false} LazyAgrees(s: State, eager: Attempts, now: nat, events: seq<Event>, c: Config)
    requires Capped(s.attempts) && SameLive(s.attempts, eager, now, c.window) && Monotone(events, now)
    ensures Answers(s, events, c) == EagerAnswers(eager, events, c)
    decreases |events|
  {
    if events != [] {
      CappedStep(s, events[0], c);
      match events[0]
      case Attempt(ip, later) =>
        EagerStepAgrees(s, eager, now, ip, later, c);
        LazyAgrees(Next(s, events[0], c), EagerNext(eager, events[0], c), later, events[1..], c);
      case Success(ip) =>
        SuccessAgrees(s.attempts, eager, ip, now, c.window);
        LazyAgrees(Next(s, events[0], c), EagerNext(eager, events[0], c), now, events[1..], c);
    }
  }

  /** Sweeping once a window gives the same answers as sweeping on every call, also at the cap. */
  lemma LazySweepIsUnobservable(events: seq<Event>, c: Config)
    requires Monotone(events, 0)
    ensures Answers(FRESH, events, c) == EagerAnswers(map[], events, c)
  {
    LazyAgrees(FRESH, map[], 0, events, c);
  }

  // ---------------------------------------------------------------------
  // One answer, by the numbers
  // ---------------------------------------------------------------------

  /** The entry's window has not ended. */
  predicate Running(entry: Entry, now: nat, window: nat) {
    window > 0 && now < entry.first + window
  }

  function RunningOnes(attempts: Attempts, now: nat, window: nat): set<string> {
    set ip | ip in attempts && Running(attempts[ip], now, window)
  }

  lemma RunningIsLive(attempts: Attempts, now: nat, window: nat)
    ensures Live(attempts, now, window).Keys == RunningOnes(attempts, now, window)
    ensures |Live(attempts, now, window)| == |RunningOnes(attempts, now, window)|
  {
    assert forall e: Entry :: Open(e, now, window) <==> Running(e, now, window);
    assert |Live(attempts, now, window)| == |Live(attempts, now, window).Keys|;
  }

  /**
   An address in its window is refused, for the rest of it, exactly when it has used its allowance; any other address
   is refused, for one window, exactly when ten thousand are in theirs.
   */
  lemma AnswerExactly(s: State, ip: string, now: nat, c: Config)
    requires Capped(s.attempts)
    ensures var running := RunningOnes(s.attempts, now, c.window);
            Checked(s, ip, now, c).1
            == if ip in running then
                 var entry := s.attempts[ip];
                 if entry.count < c.maxAttempts then Allowed
                 else Refused(if now < entry.first then c.window else entry.first + c.window - now)
               else if |running| < 10_000 then Allowed
               else Refused(c.window)
  {
    EagerStepAgrees(s, s.attempts, now, ip, now, c);
    RunningIsLive(s.attempts, now, c.window);
  }

  /** What a check leaves of the running windows: its address's own counted up or begun, the others as they were. */
  lemma CheckKeepsCount(s: State, ip: string, now: nat, c: Config, other: string)
    requires Capped(s.attempts)
    ensures var (after, answer) := Checked(s, ip, now, c);
            var running, later := RunningOnes(s.attempts, now, c.window), RunningOnes(after.attempts, now, c.window);
            && (other != ip ==> (other in later <==> other in running)
                                && (other in running ==> after.attempts[other] == s.attempts[other]))
            && (if answer.Allowed? then
                  ip in after.attempts
                  && after.attempts[ip] == if ip in running then Entry(s.attempts[ip].count + 1, s.attempts[ip].first)
                                           else Entry(1, now)
                else (ip in later <==> ip in running)
                     && (ip in running ==> after.attempts[ip] == s.attempts[ip]))
  {
    var swept := if SweepDue(s, now, c) then Swept(s, now, c) else s;
    assert forall e: Entry :: Open(e, now, c.window) <==> Running(e, now, c.window);
    assert forall k :: k in RunningOnes(swept.attempts, now, c.window) <==> k in RunningOnes(s.attempts, now, c.window);
  }

  /** A success forgets the address, and nothing else. */
  lemma SuccessForgets(s: State, ip: string, other: string, c: Config)
    ensures var after := Next(s, Success(ip), c);
            && ip !in after.attempts && after.lastSweep == s.lastSweep
            && (other != ip ==> (other in after.attempts <==> other in s.attempts)
                                && (other in s.attempts ==> after.attempts[other] == s.attempts[other]))
  {
  }

  // ---------------------------------------------------------------------
  // How many attempts get through
  // ---------------------------------------------------------------------

  predicate NeverCleared(events: seq<Event>, ip: string) {
    Success(ip) !in events
  }

  /** How often the address was let through at a time in [from, to). */
  function Hits(s: State, events: seq<Event>, ip: string, from: nat, to: nat, c: Config): nat
    decreases |events|
  {
    if events == [] then 0
    else
      (if events[0].Attempt? && events[0].ip == ip && from <= events[0].now < to
          && Checked(s, ip, events[0].now, c).1.Allowed? then 1 else 0)
      + Hits(Next(s, events[0], c), events[1..], ip, from, to, c)
  }

  /** Hits still possible in one window's length from `from`, by windows that begin at `start` or later. */
  function ByNewWindows(start: nat, from: nat, c: Config): int {
    if start >= from + c.window then 0
    else if start >= from then c.maxAttempts
    else 2 * c.maxAttempts - 1
  }

  /** Hits still possible for the address from `now` on. */
  function Budget(attempts: Attempts, ip: string, now: nat, from: nat, c: Config): int {
    if now >= from + c.window then 0
    else if ip in attempts && Open(attempts[ip], now, c.window) then
      var end := attempts[ip].first + c.window;
      (if end <= from then 0 else c.maxAttempts - attempts[ip].count) + ByNewWindows(end, from, c)
    else ByNewWindows(now, from, c)
  }

  /** Counts stay between one and the maximum, and windows began in the past. */
  predicate Sound(attempts: Attempts, now: nat, c: Config) {
    forall ip | ip in attempts :: 1 <= attempts[ip].count <= c.maxAttempts && attempts[ip].first <= now
  }

  lemma SoundStep(s: State, ip: string, before: nat, now: nat, c: Config)
    requires c.maxAttempts >= 1 && before <= now && Sound(s.attempts, before, c)
    ensures Sound(Checked(s, ip, now, c).0.attempts, now, c)
  {
  }

  lemma BudgetStep(s: State, ip: string, asker: string, before: nat, now: nat, from: nat, c: Config)
    requires c.maxAttempts >= 1 && before <= now && Sound(s.attempts, before, c)
    ensures var (s', answer) := Checked(s, asker, now, c);
            Budget(s'.attempts, ip, now, from, c)
            + (if asker == ip && answer.Allowed? && from <= now < from + c.window then 1 else 0)
            <= Budget(s.attempts, ip, before, from, c)
  {
    var swept := if SweepDue(s, now, c) then Swept(s, now, c) else s;
    assert Budget(swept.attempts, ip, now, from, c) == Budget(s.attempts, ip, now, from, c);
    assert Budget(s.attempts, ip, now, from, c) <= Budget(s.attempts, ip, before, from, c);
    if asker != ip {
      OthersKeepBudget(swept, ip, asker, now, from, c);
    } else {
      CountedBudget(swept, ip, now, from, c);
    }
  }

  lemma OthersKeepBudget(s: State, ip: string, asker: string, now: nat, from: nat, c: Config)
    requires asker != ip
    ensures Budget(Counted(s, asker, now, c).0.attempts, ip, now, from, c) == Budget(s.attempts, ip, now, from, c)
  {
  }

  lemma CountedBudget(s: State, ip: string, now: nat, from: nat, c: Config)
    requires c.maxAttempts >= 1 && Sound(s.attempts, now, c)
    ensures var (s', answer) := Counted(s, ip, now, c);
            Budget(s'.attempts, ip, now, from, c)
            + (if answer.Allowed? && from <= now < from + c.window then 1 else 0)
            <= Budget(s.attempts, ip, now, from, c)
  {
  }

  lemma {:induction false} HitsWithinBudget(s: State, events: seq<Event>, ip: string, now: nat, from: nat, c: Config)
    requires c.maxAttempts >= 1 && Sound(s.attempts, now, c)
    requires Monotone(events, now) && NeverCleared(events, ip)
    ensures Hits(s, events, ip, from, from + c.window, c) <= Budget(s.attempts, ip, now, from, c)
    decreases |events|
  {
    if events != [] {
      assert NeverCleared(events[1..], ip);
      match events[0]
      case Attempt(asker, later) =>
        SoundStep(s, asker, now, later, c);
        BudgetStep(s, ip, asker, now, later, from, c);
        HitsWithinBudget(Next(s, events[0], c), events[1..], ip, later, from, c);
      case Success(other) =>
        HitsWithinBudget(Next(s, events[0], c), events[1..], ip, now, from, c);
    } else {
      assert Budget(s.attempts, ip, now, from, c) >= 0;
    }
  }

  /** No stretch of one window's length lets an address through twice its allowance. */
  lemma AtMostTwoWindowsLessOne(events: seq<Event>, ip: string, from: nat, c: Config)
    requires c.maxAttempts >= 1 && Monotone(events, 0) && NeverCleared(events, ip)
    ensures Hits(FRESH, events, ip, from, from + c.window, c) <= 2 * c.maxAttempts - 1
  {
    HitsWithinBudget(FRESH, events, ip, 0, from, c);
  }

  /** The same attempt, `n` times over. */
  function Burst(ip: string, now: nat, n: nat): seq<Event> {
    seq(n, _ => Attempt(ip, now))
  }

  lemma BurstHead(s: State, next: State, ip: string, now: nat, n: nat, tail: seq<Event>, from: nat, c: Config)
    requires n > 0 && Checked(s, ip, now, c) == (next, Allowed) && from <= now < from + c.window
    ensures Hits(s, Burst(ip, now, n) + tail, ip, from, from + c.window, c)
            == 1 + Hits(next, Burst(ip, now, n - 1) + tail, ip, from, from + c.window, c)
  {
    var events := Burst(ip, now, n) + tail;
    assert events[0] == Attempt(ip, now) && events[1..] == Burst(ip, now, n - 1) + tail;
  }

  /** The address's entry after `n` more counted attempts. */
  function Counting(s: State, ip: string, n: nat): State
    requires ip in s.attempts
  {
    s.(attempts := s.attempts[ip := s.attempts[ip].(count := s.attempts[ip].count + n)])
  }

  lemma CountingMore(s: State, ip: string, n: nat)
    requires ip in s.attempts
    ensures Counting(s, ip, 0) == s && Counting(Counting(s, ip, 1), ip, n) == Counting(s, ip, n + 1)
  {
    var entry := s.attempts[ip];
    assert s.attempts[ip := entry] == s.attempts;
    assert Counting(s, ip, 1).attempts[ip := entry.(count := entry.count + n + 1)]
           == s.attempts[ip := entry.(count := entry.count + n + 1)];
  }

  lemma OneMore(s: State, ip: string, now: nat, c: Config)
    requires ip in s.attempts && Open(s.attempts[ip], now, c.window) && s.attempts[ip].count < c.maxAttempts
    requires !SweepDue(s, now, c)
    ensures Checked(s, ip, now, c) == (Counting(s, ip, 1), Allowed)
  {
  }

  lemma {:induction false} BurstGetsThrough(s: State, ip: string, now: nat, n: nat, tail: seq<Event>, from: nat,
        c: Config)
    requires ip in s.attempts && Open(s.attempts[ip], now, c.window) && s.attempts[ip].count + n <= c.maxAttempts
    requires !SweepDue(s, now, c) && from <= now < from + c.window
    ensures Hits(s, Burst(ip, now, n) + tail, ip, from, from + c.window, c)
            == n + Hits(Counting(s, ip, n), tail, ip, from, from + c.window, c)
    decreases n
  {
    if n == 0 {
      assert Burst(ip, now, 0) + tail == tail;
      CountingMore(s, ip, 0);
    } else {
      var next := Counting(s, ip, 1);
      OneMore(s, ip, now, c);
      BurstHead(s, next, ip, now, n, tail, from, c);
      BurstGetsThrough(next, ip, now, n - 1, tail, from, c);
      CountingMore(s, ip, n - 1);
    }
  }

  /** An attempt, a burst just before its window closes, and a full burst in the next window. */
  function Straddle(ip: string, c: Config): seq<Event>
    requires c.maxAttempts >= 1 && c.window >= 2
  {
    [Attempt(ip, 0)] + (Burst(ip, c.window - 1, c.maxAttempts - 1) + NextWindow(ip, c))
  }

  function NextWindow(ip: string, c: Config): (events: seq<Event>)
    requires c.maxAttempts >= 1 && c.window >= 2
    ensures events != []
  {
    [Attempt(ip, c.window)] + (Burst(ip, c.window, c.maxAttempts - 1) + [])
  }

  lemma {:induction false} BurstIsMonotone(ip: string, now: nat, n: nat, tail: seq<Event>)
    requires Monotone(tail, now)
    ensures Monotone(Burst(ip, now, n) + tail, now)
    decreases n
  {
    if n == 0 {
      assert Burst(ip, now, 0) + tail == tail;
    } else {
      assert (Burst(ip, now, n) + tail)[1..] == Burst(ip, now, n - 1) + tail;
      BurstIsMonotone(ip, now, n - 1, tail);
    }
  }

  lemma StraddleIsMonotone(ip: string, c: Config)
    requires c.maxAttempts >= 1 && c.window >= 2
    ensures Monotone(Straddle(ip, c), 0) && NeverCleared(Straddle(ip, c), ip)
  {
    BurstIsMonotone(ip, c.window, c.maxAttempts - 1, []);
    assert NextWindow(ip, c)[1..] == Burst(ip, c.window, c.maxAttempts - 1) + [];
    assert Monotone(NextWindow(ip, c), c.window - 1);
    BurstIsMonotone(ip, c.window - 1, c.maxAttempts - 1, NextWindow(ip, c));
    var rest := Burst(ip, c.window - 1, c.maxAttempts - 1) + NextWindow(ip, c);
    assert Straddle(ip, c)[1..] == rest;
    MonotoneEarlier(rest, c.window - 1, 0);
  }

  lemma {:induction false} MonotoneEarlier(events: seq<Event>, now: nat, before: nat)
    requires Monotone(events, now) && before <= now
    ensures Monotone(events, before)
    decreases |events|
  {
    if events != [] && events[0].Success? {
      MonotoneEarlier(events[1..], now, before);
    }
  }

  lemma NextWindowGetsThrough(s: State, ip: string, c: Config)
    requires c.maxAttempts >= 1 && c.window >= 2
    requires s == State(map[ip := Entry(c.maxAttempts, 0)], Some(0))
    ensures Hits(s, NextWindow(ip, c), ip, 1, 1 + c.window, c) == c.maxAttempts
  {
    var events := NextWindow(ip, c);
    var started := State(map[ip := Entry(1, c.window)], Some(c.window));
    assert Live(s.attempts, c.window, c.window) == map[];
    assert Checked(s, ip, c.window, c) == (started, Allowed);
    assert events[1..] == Burst(ip, c.window, c.maxAttempts - 1) + [];
    BurstGetsThrough(started, ip, c.window, c.maxAttempts - 1, [], 1, c);
  }

  /** The bound is reached, by every configuration whose window is longer than one tick. */
  lemma BoundIsReached(ip: string, c: Config)
    requires c.maxAttempts >= 1 && c.window >= 2
    ensures Monotone(Straddle(ip, c), 0) && NeverCleared(Straddle(ip, c), ip)
    ensures Hits(FRESH, Straddle(ip, c), ip, 1, 1 + c.window, c) == 2 * c.maxAttempts - 1
  {
    StraddleIsMonotone(ip, c);
    var events := Straddle(ip, c);
    var started := State(map[ip := Entry(1, 0)], Some(0));
    assert Live(FRESH.attempts, 0, c.window) == map[];
    assert Checked(FRESH, ip, 0, c) == (started, Allowed);
    assert events[1..] == Burst(ip, c.window - 1, c.maxAttempts - 1) + NextWindow(ip, c);
    BurstGetsThrough(started, ip, c.window - 1, c.maxAttempts - 1, NextWindow(ip, c), 1, c);
    var spent := State(map[ip := Entry(c.maxAttempts, 0)], Some(0));
    assert started.attempts[ip := Entry(c.maxAttempts, 0)] == spent.attempts;
    NextWindowGetsThrough(spent, ip, c);
  }

  // ---------------------------------------------------------------------
  // The advertised wait
  // ---------------------------------------------------------------------

  predicate Spent(attempts: Attempts, ip: string, now: nat, c: Config) {
    ip in attempts && Open(attempts[ip], now, c.window) && attempts[ip].count >= c.maxAttempts
  }

  predicate AllBefore(events: seq<Event>, end: nat) {
    forall i | 0 <= i < |events| && events[i].Attempt? :: events[i].now < end
  }

  /** An address over its allowance is refused until the wait it was told is over. */
  lemma {:induction false} RefusedUntilTheWaitIsOver(s: State, events: seq<Event>, ip: string, now: nat, c: Config)
    requires Spent(s.attempts, ip, now, c) && s.attempts[ip].first <= now
    requires Monotone(events, now) && NeverCleared(events, ip)
    requires AllBefore(events, now + Counted(s, ip, now, c).1.retryAfter)
    ensures forall from, to :: Hits(s, events, ip, from, to, c) == 0
    decreases |events|
  {
    if events != [] {
      assert NeverCleared(events[1..], ip);
      var next := Next(s, events[0], c);
      var later := if events[0].Attempt? then events[0].now else now;
      assert Spent(next.attempts, ip, later, c) && next.attempts[ip] == s.attempts[ip];
      RefusedUntilTheWaitIsOver(next, events[1..], ip, later, c);
    }
  }

  /** If the next call comes when the wait is over, it gets through, even with the map at its cap. */
  lemma AllowedAfterTheWait(s: State, ip: string, now: nat, c: Config)
    requires Capped(s.attempts) && Spent(s.attempts, ip, now, c) && s.attempts[ip].first <= now
    ensures Checked(s, ip, now + Counted(s, ip, now, c).1.retryAfter, c).1 == Allowed
  {
    var later := now + Counted(s, ip, now, c).1.retryAfter;
    EagerStepAgrees(s, s.attempts, now, ip, later, c);
    LiveIsSmaller(s.attempts, later, c.window);
  }

  // ---------------------------------------------------------------------
  // The limiter
  // ---------------------------------------------------------------------

  class PairingRateLimiter {
    const config: Config
    var attempts: Attempts
    var lastSweep: Option<nat>

    constructor (maxAttempts: nat, window: nat)
      ensures Valid() && Now() == FRESH && config == Config(maxAttempts, window)
    {
      config := Config(maxAttempts, window);
      attempts, lastSweep := map[], None;
    }

    function Now(): State
      reads this
    {
      State(attempts, lastSweep)
    }

    predicate Valid()
      reads this
    {
      Capped(attempts)
    }

    method Sweep(now: nat)
      modifies this
      ensures Now() == Swept(old(Now()), now, config)
    {
      attempts := map ip | ip in attempts && Since(now, attempts[ip].first) < config.window :: attempts[ip];
      lastSweep := Some(now);
    }

    method Check(ip: string, now: nat) returns (answer: Answer)
      requires Valid()
      modifies this
      ensures Valid()
      ensures (Now(), answer) == Checked(old(Now()), ip, now, config)
      ensures answer == EagerChecked(old(attempts), ip, now, config).1
    {
      EagerStepAgrees(Now(), attempts, now, ip, now, config);
      CappedStep(Now(), Attempt(ip, now), config);
      var sweepDue := lastSweep.None? || Since(now, lastSweep.value) >= config.window;
      if sweepDue {
        Sweep(now);
      }
      if ip in attempts {
        var entry := attempts[ip];
        if Since(now, entry.first) >= config.window {
          attempts := attempts[ip := Entry(1, now)];
          return Allowed;
        }
        if entry.count >= config.maxAttempts {
          return Refused(config.window - Since(now, entry.first));
        }
        attempts := attempts[ip := Entry(entry.count + 1, entry.first)];
        return Allowed;
      }
      if |attempts| >= MAX_TRACKED_IPS {
        Sweep(now);
        if |attempts| >= MAX_TRACKED_IPS {
          return Refused(config.window);
        }
      }
      attempts := attempts[ip := Entry(1, now)];
      return Allowed;
    }

    method RecordSuccess(ip: string)
      requires Valid()
      modifies this
      ensures Valid() && Now() == Next(old(Now()), Success(ip), config)
    {
      RemoveSize(attempts, ip);
      attempts := attempts - {ip};
    }
  }
}
