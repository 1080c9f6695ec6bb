/**
 The journaled map itself, performed step by step on its fields. Every method moves
 the ghost `machine` along with the two files, one event per sub-step, so the
 crash results of `Journal` hold at every point inside every call.
 */
module Store {
  import opened Basics
  import opened KeyOrder
  import opened Journal
  import opened TextEncoding
  import opened Rekey

  /** Some run of the machine leads from `s` to `t`. */
  ghost predicate Follows<V(!new)>(s: System<V>, t: System<V>) {
    exists events :: Leads(s, events, t)
  }

  lemma FollowsNow<V(!new)>(s: System<V>)
    ensures Follows(s, s)
  {
    assert Leads(s, [], s);
  }

  lemma FollowsStep<V(!new)>(s: System<V>, t: System<V>, e: Event<V>)
    requires Follows(s, t) && Enabled(t, e)
    ensures Follows(s, Next(t, e))
  {
    var events :| Leads(s, events, t);
    LeadsOneMore(s, events, t, e, Next(t, e));
  }

  lemma WrittenFollows<V(!new)>(s: System<V>, lines: seq<Line<V>>, n: nat)
    requires Inv(s) && s.phase.Up? && Whole(lines) && lines != [] && n <= |lines|
    ensures Inv(Written(s, lines, n)) && Follows(s, Written(s, lines, n))
  {
    var events := WrittenIsReached(s, lines, n);
  }

  lemma MinusOneMore<V>(m: map<string, V>, keys: seq<string>, i: nat)
    requires i < |keys|
    ensures m - SetOf(keys[..i + 1]) == m - SetOf(keys[..i]) - {keys[i]}
  {
    assert keys[..i + 1] == keys[..i] + [keys[i]];
    assert SetOf(keys[..i + 1]) == SetOf(keys[..i]) + {keys[i]};
  }

  /** The keys asked for that were there, in the order they were met. */
  ghost predicate Taken<V>(live: map<string, V>, keys: seq<string>, present: seq<string>) {
    Distinct(present) && SetOf(present) == SetOf(keys) * live.Keys
  }

  lemma TakeStep<V>(live: map<string, V>, keys: seq<string>, i: nat, present: seq<string>)
    requires i < |keys| && Taken(live, keys[..i], present)
    ensures var now, k := live - SetOf(keys[..i]), keys[i];
            && now - {k} == live - SetOf(keys[..i + 1])
            && (k !in now ==> now == now - {k} && Taken(live, keys[..i + 1], present))
            && (k in now ==>
                  && Taken(live, keys[..i + 1], present + [k])
                  && Removals<V>(present + [k]) == Removals<V>(present) + [Rm(k)])
  {
    var now, k := live - SetOf(keys[..i]), keys[i];
    MinusOneMore(live, keys, i);
    assert keys[..i + 1] == keys[..i] + [k];
    assert SetOf(keys[..i + 1]) == SetOf(keys[..i]) + {k};
    if k in now {
      assert k !in SetOf(present);
      assert SetOf(present + [k]) == SetOf(present) + {k};
    }
  }

  lemma TakenCount<V>(live: map<string, V>, keys: set<string>, taken: set<string>)
    requires taken == keys * live.Keys
    ensures live - keys == live - taken && |taken| == |live| - |live - keys|
  {
    assert (live - keys).Keys == live.Keys - taken;
    assert |live - keys| == |(live - keys).Keys| && |live| == |live.Keys|;
  }

  lemma TakenReplays<V>(live: map<string, V>, keys: seq<string>, present: seq<string>)
    requires Taken(live, keys, present)
    ensures Whole(Removals<V>(present)) && Replay(live, Removals<V>(present)) == live - SetOf(keys)
    ensures |present| == |live| - |live - SetOf(keys)|
  {
    ReplayRemovals(live, present);
    DistinctSize(present);
    TakenCount(live, SetOf(keys), SetOf(present));
  }

  lemma RekeyLines<V>(m: map<string, V>, from: string, to: string, keys: seq<string>)
    requires Distinct(keys) && SetOf(keys) == set k | k in m && Under(from, k)
    requires forall k | k in keys :: k in m && Under(from, k)
    ensures Whole(Removals<V>(keys) + Insertions(m, from, to, keys))
    ensures Replay(m, Removals<V>(keys) + Insertions(m, from, to, keys)) == Rekeyed(m, from, to)
    ensures Replay(m - SetOf(keys), Insertions(m, from, to, keys)) == Rekeyed(m, from, to)
  {
    RemoveThenInsert(m, from, to, keys);
    ReplayRemovals(m, keys);
    ReplayConcat(m, Removals<V>(keys), Insertions(m, from, to, keys));
  }

  class JournaledMap<V(!new)> {
    var entries: map<string, V>
    var pendingOps: nat
    var snapshot: map<string, V>
    var journal: seq<Line<V>>
    ghost var machine: System<V>

    constructor (snapshot: map<string, V>, journal: seq<Line<V>>, entries: map<string, V>, ghost machine: System<V>)
      ensures this.snapshot == snapshot && this.journal == journal && this.entries == entries
      ensures pendingOps == 0 && this.machine == machine
    {
      this.snapshot, this.journal, this.entries := snapshot, journal, entries;
      pendingOps := 0;
      this.machine := machine;
    }

    /** The files are where the machine says they are. */
    ghost predicate OnDisk()
      reads this
    {
      Inv(machine) && machine.disk == Disk(snapshot, journal)
    }

    ghost predicate Valid()
      reads this
    {
      OnDisk() && machine.phase == Up(entries, pendingOps)
    }

    /** The machine catches up with the files, one event after each change of one of them. */
    ghost method Do(e: Event<V>, before: System<V>)
      requires Inv(machine) && Enabled(machine, e) && Follows(before, machine)
      requires Next(machine, e).disk == Disk(snapshot, journal)
      modifies `machine
      ensures OnDisk() && machine == Next(old(machine), e) && Follows(before, machine)
    {
      StepOk(machine, e);
      FollowsStep(before, machine, e);
      machine := Next(machine, e);
    }

    /** Replace the snapshot, then truncate the journal. */
    method Compact(ghost before: System<V>)
      requires OnDisk() && machine.phase == Compacting(entries) && Follows(before, machine)
      modifies this
      ensures Valid() && Follows(before, machine)
      ensures entries == old(entries) == snapshot && journal == [] && pendingOps == 0
      ensures machine.log == old(machine).log
    {
      snapshot := entries;
      Do(ReplaceSnapshot, before);
      journal := [];
      Do(Truncate, before);
      pendingOps := 0;
    }

    /** Append the lines of one call; `live` is the map before the call changed it in memory. */
    method Append(lines: seq<Line<V>>, ghost live: map<string, V>)
      requires OnDisk() && machine.phase == Up(live, pendingOps)
      requires Whole(lines) && entries == Replay(live, lines)
      modifies this
      ensures Valid() && entries == old(entries)
      ensures Follows(old(machine), machine) && machine.log == old(machine).log + lines
    {
      if |lines| == 0 {
        FollowsNow(machine);
        assert machine.log + lines == machine.log;
        return;
      }
      ghost var before := machine;
      WriteLines(lines);
      FinishWrite(before, lines);
    }

    /** The lines reach the file one after the other, and the machine with them. */
    method WriteLines(lines: seq<Line<V>>)
      requires machine.disk == Disk(snapshot, journal) && machine.phase.Up?
      modifies `journal, `machine
      ensures machine == Written(old(machine), lines, |lines|) && machine.disk == Disk(snapshot, journal)
    {
      ghost var before := machine;
      var n := 0;
      machine := Written(before, lines, 0);
      assert before.disk.journal + lines[..0] == before.disk.journal;
      while n < |lines|
        invariant 0 <= n <= |lines|
        invariant journal == before.disk.journal + lines[..n]
        invariant machine == Written(before, lines, n)
      {
        journal := journal + [lines[n]];
        n := n + 1;
        assert lines[..n] == lines[..n - 1] + [lines[n - 1]];
        machine := Written(before, lines, n);
      }
    }

    /** All lines are in the file: count them, and compact when there are enough. */
    method FinishWrite(ghost before: System<V>, lines: seq<Line<V>>)
      requires Inv(before) && before.phase.Up? && before.phase.pending == pendingOps
      requires Whole(lines) && lines != [] && entries == Replay(before.phase.live, lines)
      requires machine == Written(before, lines, |lines|) && machine.disk == Disk(snapshot, journal)
      modifies this
      ensures Valid() && entries == old(entries)
      ensures Follows(before, machine) && machine.log == before.log + lines
    {
      CountLines(before, lines);
      if pendingOps >= Threshold(entries) {
        Compact(before);
      }
    }

    method CountLines(ghost before: System<V>, lines: seq<Line<V>>)
      requires Inv(before) && before.phase.Up? && before.phase.pending == pendingOps
      requires Whole(lines) && lines != [] && entries == Replay(before.phase.live, lines)
      requires machine == Written(before, lines, |lines|) && machine.disk == Disk(snapshot, journal)
      modifies `pendingOps, `machine
      ensures OnDisk() && Follows(before, machine) && machine.log == before.log + lines
      ensures machine.phase == if pendingOps >= Threshold(entries) then Compacting(entries) else Up(entries, pendingOps)
    {
      WrittenFollows(before, lines, |lines|);
      WrittenEnds(before, lines);
      pendingOps := pendingOps + |lines|;
      Do(EndWrite, before);
    }

    /** Read the two files back, and compact unless the journal was empty. */
    static method Open(disk: Disk<V>, ghost s: System<V>) returns (store: Option<JournaledMap<V>>)
      requires Inv(s) && s.phase.Down? && s.disk == disk
      ensures store.Some? <==> Readable(disk.journal)
      ensures store.Some? ==>
                && fresh(store.value) && store.value.Valid() && Follows(s, store.value.machine)
                && store.value.entries == Contents(disk)
                && store.value.journal == [] && store.value.pendingOps == 0
    {
      var i := 0;
      while i < |disk.journal|
        invariant 0 <= i <= |disk.journal| && Readable(disk.journal[..i])
      {
        if disk.journal[i].Torn? && !IsText(disk.journal[i].bytes) {
          assert disk.journal[i] in disk.journal;
          return None;
        }
        i := i + 1;
      }
      assert disk.journal[..i] == disk.journal;
      var entries := ReplayLines(disk);
      OpensWhenReadable(s);
      FollowsNow(s);
      FollowsStep(s, s, Event<V>.Open);
      StepOk(s, Event<V>.Open);
      var result := new JournaledMap(disk.snapshot, disk.journal, entries, Next(s, Event<V>.Open));
      if |disk.journal| != 0 {
        result.Compact(s);
      }
      return Some(result);
    }

    /** The replay loop: stop at the first torn line. */
    static method ReplayLines(disk: Disk<V>) returns (entries: map<string, V>)
      ensures entries == Contents(disk)
    {
      entries := disk.snapshot;
      var i := 0;
      while i < |disk.journal|
        invariant 0 <= i <= |disk.journal|
        invariant Replay(entries, disk.journal[i..]) == Contents(disk)
      {
        match disk.journal[i] {
          case Put(k, v) => entries := entries[k := v];
          case Rm(k) => entries := entries - {k};
          case Torn(_) => return;
        }
        assert disk.journal[i..][1..] == disk.journal[i + 1..];
        i := i + 1;
      }
    }

    method Put(key: string, value: V)
      requires Valid()
      modifies this
      ensures Valid() && Follows(old(machine), machine)
      ensures entries == old(entries)[key := value]
      ensures machine.log == old(machine).log + [Line.Put(key, value)]
    {
      ghost var live := entries;
      var lines := [Line.Put(key, value)];
      assert lines[1..] == [];
      assert Replay(Apply(live, lines[0]), []) == live[key := value];
      entries := entries[key := value];
      Append(lines, live);
    }

    method RemoveMany(keys: seq<string>) returns (removed: nat)
      requires Valid()
      modifies this
      ensures Valid() && Follows(old(machine), machine)
      ensures entries == old(entries) - SetOf(keys)
      ensures removed == |old(entries)| - |entries|
      ensures exists present | Distinct(present) && SetOf(present) == SetOf(keys) * old(entries).Keys ::
                machine.log == old(machine).log + Removals(present)
    {
      ghost var live, present := entries, [];
      var lines;
      lines, removed, present := TakeOut(keys);
      Append(lines, live);
    }

    /** Remove the keys in memory and note a line for each one that was there. */
    method TakeOut(keys: seq<string>) returns (lines: seq<Line<V>>, removed: nat, ghost present: seq<string>)
      modifies `entries
      ensures entries == old(entries) - SetOf(keys) && removed == |old(entries)| - |entries|
      ensures Distinct(present) && SetOf(present) == SetOf(keys) * old(entries).Keys && lines == Removals<V>(present)
      ensures Whole(lines) && entries == Replay(old(entries), lines)
    {
      ghost var live := entries;
      lines, removed, present := [], 0, [];
      var i := 0;
      while i < |keys|
        invariant 0 <= i <= |keys|
        invariant entries == live - SetOf(keys[..i])
        invariant Taken(live, keys[..i], present) && lines == Removals<V>(present)
        invariant removed == |present|
      {
        var k := keys[i];
        TakeStep(live, keys, i, present);
        if k in entries {
          entries := entries - {k};
          lines := lines + [Rm(k)];
          removed := removed + 1;
          present := present + [k];
        }
        i := i + 1;
      }
      assert keys[..i] == keys;
      TakenReplays(live, keys, present);
    }

    /** The keys with the prefix, in order. */
    method WithPrefix(prefix: string) returns (keys: seq<string>)
      ensures Increasing(keys)
      ensures SetOf(keys) == set k | k in entries.Keys && StartsWith(k, prefix)
    {
      keys := ScanPrefix(entries.Keys, prefix);
    }

    /** The keys to move: `from` itself, then everything under it. */
    method SubtreeKeys(from: string) returns (keys: seq<string>)
      ensures Distinct(keys) && SetOf(keys) == set k | k in entries.Keys && Under(from, k)
      ensures forall k | k in keys :: k in entries && Under(from, k)
    {
      var below := WithPrefix(from + "/");
      forall i, j | 0 <= i < j < |below| ensures below[i] != below[j] {
        LessIrreflexive(below[i]);
      }
      forall k | k in below ensures k in entries && StartsWith(k, from + "/") && k != from {
        assert k in SetOf(below);
      }
      keys := if from in entries then [from] + below else below;
      forall k ensures k in SetOf(keys) <==> k in entries && Under(from, k) {
        assert k in below <==> k in SetOf(below);
      }
      forall k | k in keys ensures k in entries && Under(from, k) {
        assert k in SetOf(keys);
      }
    }

    /** Take the keys out and note where each value goes. */
    method Detach(keys: seq<string>, from: string, to: string)
      returns (moved: seq<(string, V)>, lines: seq<Line<V>>)
      requires Distinct(keys) && forall k | k in keys :: k in entries && Under(from, k)
      modifies `entries
      ensures entries == old(entries) - SetOf(keys)
      ensures lines == Removals<V>(keys)
      ensures |moved| == |keys|
      ensures forall j | 0 <= j < |keys| :: moved[j] == (Move(from, to, keys[j]), old(entries)[keys[j]])
    {
      moved, lines := [], [];
      var i := 0;
      while i < |keys|
        invariant 0 <= i <= |keys|
        invariant entries == old(entries) - SetOf(keys[..i])
        invariant |moved| == i && lines == Removals<V>(keys[..i])
        invariant forall j | 0 <= j < i :: moved[j] == (Move(from, to, keys[j]), old(entries)[keys[j]])
      {
        var k := keys[i];
        assert k in keys && k !in keys[..i];
        MinusOneMore(old(entries), keys, i);
        assert keys[..i + 1] == keys[..i] + [k];
        moved := moved + [(to + k[|from|..], entries[k])];
        entries := entries - {k};
        lines := lines + [Rm(k)];
        i := i + 1;
      }
      assert keys[..i] == keys;
    }

    /** Put every value under its new key, one line each. */
    method Attach(moved: seq<(string, V)>) returns (lines: seq<Line<V>>)
      modifies `entries
      ensures |lines| == |moved| && forall j | 0 <= j < |moved| :: lines[j] == Line.Put(moved[j].0, moved[j].1)
      ensures entries == Replay(old(entries), lines)
    {
      lines := [];
      var i := 0;
      while i < |moved|
        invariant 0 <= i == |lines| <= |moved|
        invariant forall j | 0 <= j < i :: lines[j] == Line.Put(moved[j].0, moved[j].1)
        invariant entries == Replay(old(entries), lines)
      {
        ReplaySnoc(old(entries), lines, Line.Put(moved[i].0, moved[i].1));
        lines := lines + [Line.Put(moved[i].0, moved[i].1)];
        entries := entries[moved[i].0 := moved[i].1];
        i := i + 1;
      }
    }

    /** The move in memory, and the lines that repeat it. */
    method MoveKeys(from: string, to: string) returns (lines: seq<Line<V>>, count: nat, ghost keys: seq<string>)
      modifies `entries
      ensures Subtree(old(entries), from, keys) && lines == MoveLines(old(entries), from, to, keys)
      ensures entries == Rekeyed(old(entries), from, to)
      ensures Whole(lines) && Replay(old(entries), lines) == entries
      ensures count == |set k | k in old(entries).Keys && Under(from, k)|
    {
      ghost var live := entries;
      var oldKeys := SubtreeKeys(from);
      var moved, removals := Detach(oldKeys, from, to);
      count := |moved|;
      var insertions := Attach(moved);
      assert insertions == Insertions(live, from, to, oldKeys);
      RekeyLines(live, from, to, oldKeys);
      DistinctSize(oldKeys);
      lines, keys := removals + insertions, oldKeys;
    }

    method RekeySubtree(from: string, to: string) returns (count: nat)
      requires Valid()
      modifies this
      ensures Valid() && Follows(old(machine), machine)
      ensures entries == Rekeyed(old(entries), from, to)
      ensures count == |set k | k in old(entries).Keys && Under(from, k)|
      ensures exists keys | Subtree(old(entries), from, keys) ::
                machine.log == old(machine).log + MoveLines(old(entries), from, to, keys)
    {
      ghost var live, keys := entries, [];
      var lines;
      lines, count, keys := MoveKeys(from, to);
      Append(lines, live);
    }
  }
}
