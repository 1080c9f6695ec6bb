/**
 The periodic sweep over the host's clock and tombstone stores: expiry of old
 tombstones, removal of orphaned clocks, then a hard cap on both stores. Keys are
 removed in batches, and a batch whose lock is contested is skipped.
 */
module Gc {
  import opened Octets
  import opened Clocks
  import opened Host
  import opened HostRuns
  import opened KeyOrder

  const GC_BATCH := 256

  datatype GcConfig = GcConfig(ttlSecs: nat, maxEntries: nat)

  function SaturatingSub(a: nat, b: nat): nat { if a < b then 0 else a - b }

  predicate OldestFirst(list: seq<string>, ages: map<string, nat>)
    requires SetOf(list) <= ages.Keys
  {
    forall i, j | 0 <= i < j < |list| :: ages[list[i]] <= ages[list[j]]
  }

  lemma SetOfSnoc(list: seq<string>, k: string)
    ensures SetOf(list + [k]) == SetOf(list) + {k}
    ensures Distinct(list) && k !in list ==> Distinct(list + [k])
  {
  }

  // ---------------------------------------------------------------------
  // What the phases choose
  // ---------------------------------------------------------------------

  /** Age known, old enough, and no file. */
  predicate Expired(h: HostState, cfg: GcConfig, now: nat, key: string) {
    && key in h.tombstones
    && h.tombstones[key].createdAt > 0
    && SaturatingSub(now, h.tombstones[key].createdAt) >= cfg.ttlSecs
    && key !in h.disk
  }

  /** No file and no tombstone. */
  predicate Orphaned(h: HostState, key: string) {
    key in h.clocks && key !in h.disk && key !in h.tombstones
  }

  function DropExpired(h: HostState, cfg: GcConfig, now: nat): HostState {
    h.(tombstones := h.tombstones - set k | k in h.tombstones && Expired(h, cfg, now, k))
  }

  function DropOrphans(h: HostState): HostState {
    h.(clocks := h.clocks - set k | k in h.clocks && Orphaned(h, k))
  }

  ghost predicate Within<V>(m: map<string, V>, whole: map<string, V>) {
    forall k | k in m :: k in whole && m[k] == whole[k]
  }

  /** The oldest tombstones go first, and no more of them than the cap asks for. */
  ghost predicate TombstonesCapped(before: HostState, after: HostState, cap: nat) {
    && Within(after.tombstones, before.tombstones)
    && |after.tombstones| == (if |before.tombstones| <= cap then |before.tombstones| else cap)
    && forall victim, survivor |
         victim in before.tombstones && victim !in after.tombstones && survivor in after.tombstones ::
         before.tombstones[victim].createdAt <= after.tombstones[survivor].createdAt
  }

  /** Only clocks without a file and without a tombstone are given up for the cap. */
  ghost predicate ClocksCapped(before: HostState, after: HostState, cap: nat) {
    && Within(after.clocks, before.clocks)
    && (forall k | k in before.clocks && k !in after.clocks :: k !in after.disk && k !in after.tombstones)
    && (|before.clocks| <= cap ==> after.clocks == before.clocks)
    && (|before.clocks| > cap ==> |after.clocks| >= cap)
    && (|after.clocks| > cap ==> forall k | k in after.clocks :: k in after.disk || k in after.tombstones)
    && forall victim, survivor |
         victim in before.clocks && victim !in after.clocks && survivor in after.clocks
         && survivor !in after.disk && survivor !in after.tombstones ::
         before.clocks[victim].lastUpdatedAt <= after.clocks[survivor].lastUpdatedAt
  }

  // ---------------------------------------------------------------------
  // Batched removal
  // ---------------------------------------------------------------------

  /** The first `n` keys without those in a contested batch of 256. */
  function Reached(keys: seq<string>, contested: nat -> bool, n: nat): set<string>
    requires n <= |keys|
  {
    set i | 0 <= i < n && !contested(i / 256) :: keys[i]
  }

  lemma ReachedIsListed(keys: seq<string>, contested: nat -> bool)
    ensures Reached(keys, contested, |keys|) <= SetOf(keys)
    ensures (forall b :: !contested(b)) ==> Reached(keys, contested, |keys|) == SetOf(keys)
  {
    if forall b :: !contested(b) {
      forall k | k in SetOf(keys) ensures k in Reached(keys, contested, |keys|) {
        var i :| 0 <= i < |keys| && keys[i] == k;
        assert !contested(i / 256);
      }
    }
  }

  /** Batch number `b` is skipped when `contested(b)`; otherwise one store operation removes it. */
  method RemoveInBatches<V>(store: map<string, V>, keys: seq<string>, contested: nat -> bool)
      returns (left: map<string, V>)
    ensures left == store - Reached(keys, contested, |keys|)
  {
    left := store;
    var start, batch := 0, 0;
    while start < |keys|
      invariant 0 <= start <= |keys| && (start < |keys| ==> start == batch * GC_BATCH)
      invariant left == store - Reached(keys, contested, start)
    {
      var end := if start + GC_BATCH < |keys| then start + GC_BATCH else |keys|;
      var chunk := keys[start..end];
      BatchReached(keys, contested, start, end, batch);
      if !contested(batch) {
        left := left - SetOf(chunk);
      }
      start, batch := end, batch + 1;
    }
  }

  lemma BatchReached(keys: seq<string>, contested: nat -> bool, start: nat, end: nat, batch: nat)
    requires start == batch * GC_BATCH && start < end <= |keys| && end <= start + GC_BATCH
    ensures Reached(keys, contested, end)
            == Reached(keys, contested, start) + if contested(batch) then {} else SetOf(keys[start..end])
  {
    assert forall i | start <= i < end :: i / 256 == batch;
    if !contested(batch) {
      forall k | k in SetOf(keys[start..end]) ensures k in Reached(keys, contested, end) {
        var i :| 0 <= i < end - start && keys[start..end][i] == k;
        assert keys[start + i] == k && (start + i) / 256 == batch;
      }
      forall k | k in Reached(keys, contested, end) && k !in Reached(keys, contested, start)
        ensures k in SetOf(keys[start..end])
      {
        var i :| 0 <= i < end && !contested(i / 256) && keys[i] == k;
        assert keys[start..end][i - start] == k;
      }
    }
  }

  /** The keys of a set, each once. */
  method Listing(keys: set<string>) returns (list: seq<string>)
    ensures SetOf(list) == keys && |list| == |keys|
    ensures Distinct(list)
  {
    list := [];
    var rest := keys;
    while rest != {}
      invariant rest <= keys && SetOf(list) == keys - rest && |list| + |rest| == |keys|
      invariant Distinct(list)
      decreases rest
    {
      var k :| k in rest;
      assert k !in SetOf(list);
      SetOfSnoc(list, k);
      list := list + [k];
      rest := rest - {k};
    }
  }

  /** The keys of `ages` from oldest to newest. */
  method SortedByAge(ages: map<string, nat>) returns (order: seq<string>)
    ensures SetOf(order) == ages.Keys && |order| == |ages| && Distinct(order)
    ensures OldestFirst(order, ages)
  {
    order := [];
    var rest := ages.Keys;
    while rest != {}
      invariant rest <= ages.Keys && SetOf(order) == ages.Keys - rest && |order| + |rest| == |ages|
      invariant Distinct(order) && OldestFirst(order, ages)
      invariant forall k, l | k in SetOf(order) && l in rest :: ages[k] <= ages[l]
      decreases rest
    {
      var k := Oldest(ages, rest);
      AppendOldest(order, ages, k);
      order := order + [k];
      rest := rest - {k};
    }
  }

  lemma AppendOldest(order: seq<string>, ages: map<string, nat>, k: string)
    requires SetOf(order) <= ages.Keys && k in ages && k !in SetOf(order)
    requires Distinct(order) && OldestFirst(order, ages)
    requires forall l | l in SetOf(order) :: ages[l] <= ages[k]
    ensures SetOf(order + [k]) == SetOf(order) + {k} && Distinct(order + [k])
    ensures OldestFirst(order + [k], ages)
  {
    SetOfSnoc(order, k);
    assert forall i | 0 <= i < |order| :: order[i] in SetOf(order);
  }

  method Oldest(ages: map<string, nat>, keys: set<string>) returns (oldest: string)
    requires keys != {} && keys <= ages.Keys
    ensures oldest in keys && forall k | k in keys :: ages[oldest] <= ages[k]
  {
    oldest :| oldest in keys;
    var rest := keys - {oldest};
    while rest != {}
      invariant rest <= keys && oldest in keys
      invariant forall k | k in keys - rest :: ages[oldest] <= ages[k]
      decreases rest
    {
      var k :| k in rest;
      if ages[k] < ages[oldest] {
        oldest := k;
      }
      rest := rest - {k};
    }
  }

  /** The first `excess` keys in order of age. */
  method Victims(ages: map<string, nat>, excess: nat) returns (victims: seq<string>)
    ensures SetOf(victims) <= ages.Keys
    ensures |SetOf(victims)| == if excess < |ages| then excess else |ages|
    ensures forall v, s | v in SetOf(victims) && s in ages && s !in SetOf(victims) :: ages[v] <= ages[s]
  {
    var order := SortedByAge(ages);
    var n := if excess < |order| then excess else |order|;
    victims := order[..n];
    TakenAreOldest(order, ages, n);
    DistinctSize(victims);
  }

  lemma TakenAreOldest(order: seq<string>, ages: map<string, nat>, n: nat)
    requires SetOf(order) == ages.Keys && Distinct(order) && OldestFirst(order, ages)
    requires n <= |order|
    ensures SetOf(order[..n]) <= ages.Keys && Distinct(order[..n])
    ensures forall v, s | v in SetOf(order[..n]) && s in ages && s !in SetOf(order[..n]) :: ages[v] <= ages[s]
  {
    forall k | 0 <= k < n ensures order[k] in SetOf(order[..n]) {
      assert order[..n][k] == order[k];
    }
    forall v, s | v in SetOf(order[..n]) && s in ages && s !in SetOf(order[..n]) ensures ages[v] <= ages[s] {
      var i :| 0 <= i < n && order[i] == v;
      assert s in SetOf(order);
      var j :| 0 <= j < |order| && order[j] == s;
    }
  }

  // ---------------------------------------------------------------------
  // The sweep
  // ---------------------------------------------------------------------

  /** What a sweep without contested batches does, phase by phase. */
  ghost predicate Uncontested(before: HostState, after: HostState, cfg: GcConfig, now: nat) {
    && SafeSweep(before, after)
    && TombstonesCapped(DropExpired(before, cfg, now), after, cfg.maxEntries)
    && ClocksCapped(DropOrphans(DropExpired(before, cfg, now)), after, cfg.maxEntries)
  }

  lemma MinusCount(keys: set<string>, gone: set<string>)
    ensures |keys - gone| >= |keys| - |gone|
    ensures gone <= keys ==> |keys - gone| == |keys| - |gone|
  {
    assert keys == (keys - gone) + (keys * gone);
    assert gone == (keys * gone) + (gone - keys);
    if gone <= keys {
      assert keys * gone == gone;
    }
  }

  lemma WithinMinus<V>(m: map<string, V>, gone: set<string>)
    ensures Within(m - gone, m)
    ensures |m - gone| >= |m| - |gone|
    ensures gone <= m.Keys ==> |m - gone| == |m| - |gone|
  {
    MinusCount(m.Keys, gone);
    assert (m - gone).Keys == m.Keys - gone;
    assert |m - gone| == |(m - gone).Keys|;
  }

  method CapTombstones(service: FileService, cap: nat, contested: nat -> bool)
    modifies service`tombstones
    ensures SafeSweep(old(service.State()), service.State())
    ensures (forall b :: !contested(b)) ==> TombstonesCapped(old(service.State()), service.State(), cap)
  {
    var count := |service.tombstones|;
    if count > cap {
      var ages := map k | k in service.tombstones :: service.tombstones[k].createdAt;
      assert ages.Keys == service.tombstones.Keys;
      assert |ages| == count;
      var victims := Victims(ages, count - cap);
      var left := RemoveInBatches(service.tombstones, victims, contested);
      ReachedIsListed(victims, contested);
      ghost var gone := Reached(victims, contested, |victims|);
      WithinMinus(service.tombstones, gone);
      service.tombstones := left;
    }
  }

  lemma OrphansGoSafely(before: HostState, gone: set<string>)
    requires forall k | k in gone :: Orphaned(before, k)
    ensures SafeSweep(before, before.(clocks := before.clocks - gone))
  {
    WithinMinus(before.clocks, gone);
  }

  method CapClocks(service: FileService, cap: nat, clockCount: nat, contested: nat -> bool)
    requires clockCount == |service.clocks|
    modifies service`clocks
    ensures SafeSweep(old(service.State()), service.State())
    ensures (forall b :: !contested(b)) ==> ClocksCapped(old(service.State()), service.State(), cap)
  {
    if clockCount > cap {
      var ages := map k | k in service.clocks && Orphaned(service.State(), k) :: service.clocks[k].lastUpdatedAt;
      if |ages| == 0 {
        forall k | k in service.clocks ensures k in service.disk || k in service.tombstones {
          assert k !in ages;
        }
        return;
      }
      ghost var before := service.State();
      ghost var gone := DropOldest(service, ages, SaturatingSub(clockCount, cap), contested);
      if forall b :: !contested(b) {
        CapClocksDone(before, service.State(), ages, gone, cap);
      }
    }
  }

  /** Remove the oldest of the orphans in `ages`, as many as asked for. */
  method DropOldest(service: FileService, ages: map<string, nat>, excess: nat, contested: nat -> bool)
    returns (ghost gone: set<string>)
    requires forall k :: k in ages <==> Orphaned(service.State(), k)
    modifies service`clocks
    ensures SafeSweep(old(service.State()), service.State())
    ensures gone <= ages.Keys && service.clocks == old(service.clocks) - gone
    ensures (forall b :: !contested(b)) ==>
              && |gone| == (if excess < |ages| then excess else |ages|)
              && forall v, s | v in gone && s in ages && s !in gone :: ages[v] <= ages[s]
  {
    var victims := Victims(ages, excess);
    var left := RemoveInBatches(service.clocks, victims, contested);
    ReachedIsListed(victims, contested);
    gone := Reached(victims, contested, |victims|);
    OrphansGoSafely(service.State(), gone);
    service.clocks := left;
  }

  lemma CapClocksDone(before: HostState, after: HostState, ages: map<string, nat>, gone: set<string>, cap: nat)
    requires |before.clocks| > cap
    requires forall k :: k in ages <==> Orphaned(before, k)
    requires ages.Keys <= before.clocks.Keys
    requires forall k | k in ages :: ages[k] == before.clocks[k].lastUpdatedAt
    requires gone <= ages.Keys && gone <= before.clocks.Keys
    requires |gone| == if |before.clocks| - cap < |ages| then |before.clocks| - cap else |ages|
    requires forall v, s | v in gone && s in ages && s !in gone :: ages[v] <= ages[s]
    requires after == before.(clocks := before.clocks - gone)
    ensures ClocksCapped(before, after, cap)
  {
    WithinMinus(before.clocks, gone);
    if |after.clocks| > cap {
      assert |gone| == |ages|;
      SubsetFull(gone, ages.Keys);
      forall k | k in after.clocks ensures k in after.disk || k in after.tombstones {
        assert k !in gone;
        assert k !in ages;
      }
    }
    forall victim, survivor |
      victim in before.clocks && victim !in after.clocks && survivor in after.clocks
      && survivor !in after.disk && survivor !in after.tombstones
      ensures before.clocks[victim].lastUpdatedAt <= after.clocks[survivor].lastUpdatedAt
    {
      assert victim in gone;
      assert Orphaned(before, survivor) && survivor in ages && survivor !in gone;
    }
  }

  lemma SubsetFull(a: set<string>, b: set<string>)
    requires a <= b && |a| == |b|
    ensures a == b
  {
    assert b == a + (b - a);
    assert |b| == |a| + |b - a|;
  }

  method ExpireTombstones(service: FileService, cfg: GcConfig, now: nat, contested: nat -> bool)
    modifies service`tombstones
    ensures SafeSweep(old(service.State()), service.State())
    ensures (forall b :: !contested(b)) ==> service.State() == DropExpired(old(service.State()), cfg, now)
  {
    var chosen := set k | k in service.tombstones && Expired(service.State(), cfg, now, k);
    var expired := Listing(chosen);
    var left := RemoveInBatches(service.tombstones, expired, contested);
    ReachedIsListed(expired, contested);
    ghost var gone := Reached(expired, contested, |expired|);
    WithinMinus(service.tombstones, gone);
    service.tombstones := left;
  }

  method RemoveOrphans(service: FileService, contested: nat -> bool)
    modifies service`clocks
    ensures SafeSweep(old(service.State()), service.State())
    ensures (forall b :: !contested(b)) ==> service.State() == DropOrphans(old(service.State()))
  {
    var chosen := set k | k in service.clocks && Orphaned(service.State(), k);
    var orphaned := Listing(chosen);
    var left := RemoveInBatches(service.clocks, orphaned, contested);
    ReachedIsListed(orphaned, contested);
    ghost var gone := Reached(orphaned, contested, |orphaned|);
    WithinMinus(service.clocks, gone);
    assert forall k | k in gone :: k in chosen;
    service.clocks := left;
  }

  /**
   One sweep, seen as one step; `contested(p, b)` says that batch `b` of phase `p`
   found the write lock taken. Whatever batches are skipped, no file and no clock
   of a file is lost; when none is skipped, each phase removes exactly its choice.
   */
  method GcSweep(service: FileService, cfg: GcConfig, now: nat, contested: (nat, nat) -> bool)
    modifies service
    ensures SafeSweep(old(service.State()), service.State())
    ensures (forall p, b :: !contested(p, b)) ==> Uncontested(old(service.State()), service.State(), cfg, now)
  {
    ghost var start := service.State();
    ExpireTombstones(service, cfg, now, (b: nat) => contested(1, b));
    ghost var expired := service.State();
    RemoveOrphans(service, (b: nat) => contested(2, b));
    ghost var live := service.State();
    SafeSweepTransitive(start, expired, live);
    var clockCount := |service.clocks|;
    CapTombstones(service, cfg.maxEntries, (b: nat) => contested(3, b));
    ghost var capped := service.State();
    SafeSweepTransitive(start, live, capped);
    CapClocks(service, cfg.maxEntries, clockCount, (b: nat) => contested(4, b));
    SafeSweepTransitive(start, capped, service.State());
    if forall p, b :: !contested(p, b) {
      assert live.tombstones == DropExpired(start, cfg, now).tombstones;
      assert TombstonesCapped(live, capped, cfg.maxEntries);
      assert ClocksCapped(capped, service.State(), cfg.maxEntries);
    }
  }

  lemma SafeSweepTransitive(a: HostState, b: HostState, c: HostState)
    requires SafeSweep(a, b) && SafeSweep(b, c)
    ensures SafeSweep(a, c)
  {
    forall k | k in a.clocks && k in a.disk ensures k in c.clocks {
      assert k in b.clocks;
    }
    forall k | k in c.clocks ensures k in a.clocks && c.clocks[k] == a.clocks[k] {
      assert k in b.clocks;
    }
    forall k | k in c.tombstones ensures k in a.tombstones && c.tombstones[k] == a.tombstones[k] {
      assert k in b.tombstones;
    }
  }

  // ---------------------------------------------------------------------
  // What a sweep leaves
  // ---------------------------------------------------------------------

  /** The tombstone's age is known, its time to live is over, and the path has no file. */
  predicate Outlived(h: HostState, cfg: GcConfig, now: nat, key: string)
    requires key in h.tombstones
  {
    var createdAt := h.tombstones[key].createdAt;
    0 < createdAt && (createdAt + cfg.ttlSecs <= now || cfg.ttlSecs == 0) && key !in h.disk
  }

  lemma ExpiredExactly(h: HostState, cfg: GcConfig, now: nat, key: string)
    requires key in h.tombstones
    ensures Expired(h, cfg, now, key) <==> Outlived(h, cfg, now, key)
  {
  }

  /**
   The fate of a tombstone: with its time to live over and no file it is gone; otherwise it is still there as it
   was, unless the cap took it, and then the cap is full of tombstones at least as young.
   */
  lemma TombstoneFate(before: HostState, after: HostState, cfg: GcConfig, now: nat, key: string)
    requires key in before.tombstones
    ensures Uncontested(before, after, cfg, now) ==>
              if Outlived(before, cfg, now, key) then key !in after.tombstones
              else if key in after.tombstones then after.tombstones[key] == before.tombstones[key]
              else && |after.tombstones| == cfg.maxEntries
                   && forall k | k in after.tombstones ::
                        before.tombstones[key].createdAt <= after.tombstones[k].createdAt
  {
    var live := DropExpired(before, cfg, now);
    ExpiredExactly(before, cfg, now, key);
    if Uncontested(before, after, cfg, now) && !Outlived(before, cfg, now, key) && key !in after.tombstones {
      assert key in live.tombstones;
      if |live.tombstones| <= cfg.maxEntries {
        SubsetFull(after.tombstones.Keys, live.tombstones.Keys);
        assert false;
      }
    }
  }

  /** The path has a tombstone whose time to live is not over. */
  predicate Remembered(h: HostState, cfg: GcConfig, now: nat, key: string) {
    key in h.tombstones && !Outlived(h, cfg, now, key)
  }

  lemma AfterExpiry(before: HostState, cfg: GcConfig, now: nat, key: string)
    ensures key in DropExpired(before, cfg, now).tombstones <==> Remembered(before, cfg, now, key)
    ensures key in DropOrphans(DropExpired(before, cfg, now)).clocks
            <==> key in before.clocks && (key in before.disk || Remembered(before, cfg, now, key))
  {
    if key in before.tombstones { ExpiredExactly(before, cfg, now, key); }
  }

  /**
   The fate of a clock: with a file it stays; without a file and without a tombstone that is still wanted it goes;
   with such a tombstone it stays unless the caps took first the tombstone and then, among the oldest, the clock.
   */
  lemma ClockFate(before: HostState, after: HostState, cfg: GcConfig, now: nat, key: string)
    requires key in before.clocks
    ensures Uncontested(before, after, cfg, now) ==>
              && (key in after.clocks ==> after.clocks[key] == before.clocks[key])
              && (key in before.disk ==> key in after.clocks)
              && (key !in before.disk && !Remembered(before, cfg, now, key) ==> key !in after.clocks)
              && (key !in before.disk && Remembered(before, cfg, now, key) && key !in after.clocks ==>
                    && key !in after.tombstones && |after.clocks| >= cfg.maxEntries
                    && forall k | k in after.clocks && k !in after.disk && k !in after.tombstones ::
                         k in before.clocks && before.clocks[key].lastUpdatedAt <= after.clocks[k].lastUpdatedAt)
  {
    AfterExpiry(before, cfg, now, key);
  }

  lemma KeptUnderTheCap(before: HostState, after: HostState, cfg: GcConfig, now: nat, key: string)
    requires key in before.tombstones && !Outlived(before, cfg, now, key) && |before.tombstones| <= cfg.maxEntries
    ensures Uncontested(before, after, cfg, now) ==>
              key in after.tombstones && after.tombstones[key] == before.tombstones[key]
  {
    TombstoneFate(before, after, cfg, now, key);
    if Uncontested(before, after, cfg, now) && |after.tombstones| == cfg.maxEntries {
      assert after.tombstones.Keys <= before.tombstones.Keys;
      KeysFit(after.tombstones.Keys, before.tombstones.Keys);
      SubsetFull(after.tombstones.Keys, before.tombstones.Keys);
    }
  }

  lemma SameTombstoneSameAnswer(h: HostState, after: HostState, key: string, data: Bytes, incoming: Clock,
        writer: string, now: nat, stamp: string)
    requires Tombstoned(h, key) && TombstoneClock(after, key) == TombstoneClock(h, key)
    ensures HostWrite(after, key, data, incoming, writer, now, stamp).1
            == HostWrite(h, key, data, incoming, writer, now, stamp).1
  {
  }

  /** So while the time to live runs, a sweep below the cap changes no answer to an edit of a deleted path. */
  lemma DeletedStaysDeleted(before: HostState, after: HostState, cfg: GcConfig, now: nat, key: string, data: Bytes,
        incoming: Clock, writer: string, later: nat, stamp: string)
    requires Tombstoned(before, key) && !Outlived(before, cfg, now, key) && |before.tombstones| <= cfg.maxEntries
    ensures Uncontested(before, after, cfg, now) ==>
              HostWrite(after, key, data, incoming, writer, later, stamp).1
              == HostWrite(before, key, data, incoming, writer, later, stamp).1
  {
    KeptUnderTheCap(before, after, cfg, now, key);
    if Uncontested(before, after, cfg, now) {
      SameTombstoneSameAnswer(before, after, key, data, incoming, writer, later, stamp);
    }
  }

  lemma KeysFit(small: set<string>, big: set<string>)
    requires small <= big
    ensures |small| <= |big|
  {
    assert big == small + (big - small);
  }

  /** Over both stores: nothing outlived is left, nothing of a file is lost, and the caps hold. */
  lemma SweepLeaves(before: HostState, after: HostState, cfg: GcConfig, now: nat)
    requires Uncontested(before, after, cfg, now)
    ensures forall k | k in before.tombstones && Outlived(before, cfg, now, k) :: k !in after.tombstones
    ensures |after.tombstones| <= cfg.maxEntries
    ensures |after.clocks| <= cfg.maxEntries || forall k | k in after.clocks :: k in after.disk || k in after.tombstones
    ensures after.disk == before.disk
    ensures forall k | k in before.clocks && k in before.disk ::
              k in after.clocks && after.clocks[k] == before.clocks[k]
    ensures forall k | k in before.tombstones && before.tombstones[k].createdAt == 0 && k !in after.tombstones ::
              |after.tombstones| == cfg.maxEntries
  {
    forall k | k in before.tombstones
      ensures Outlived(before, cfg, now, k) ==> k !in after.tombstones
      ensures before.tombstones[k].createdAt == 0 && k !in after.tombstones ==> |after.tombstones| == cfg.maxEntries
    {
      TombstoneFate(before, after, cfg, now, k);
    }
  }
}
