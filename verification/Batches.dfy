/**
 Calls of more than one line when a crash cuts them: which states in between an open can find, and when none of
 them differs from the states before and after the call.
 */
module Batches {
  import opened KeyOrder
  import opened Journal
  import opened Rekey

  /** Whatever number of the lines survives, they do nothing or all of it. */
  ghost predicate Atomic<V>(m: map<string, V>, ops: seq<Line<V>>) {
    forall n | 0 <= n <= |ops| :: Replay(m, ops[..n]) == m || Replay(m, ops[..n]) == Replay(m, ops)
  }

  ghost predicate FindsBeforeOrAfter<V>(s: System<V>, ops: seq<Line<V>>)
    requires s.phase.Up? && Whole(ops)
  {
    forall n: nat, cut: nat | CutAt(s, ops, n, cut) ::
      var found := Contents(CrashedIn(s, ops, n, cut).disk);
      found == s.phase.live || found == Replay(s.phase.live, ops)
  }

  /** After every crash in a call the files stand for the map before or after it exactly when its lines are atomic. */
  lemma CallIsAtomicExactly<V>(s: System<V>, ops: seq<Line<V>>)
    requires Inv(s) && s.phase.Up? && Whole(ops) && ops != []
    ensures FindsBeforeOrAfter(s, ops) <==> Atomic(s.phase.live, ops)
  {
    if Atomic(s.phase.live, ops) {
      forall n: nat, cut: nat | CutAt(s, ops, n, cut)
        ensures var found := Contents(CrashedIn(s, ops, n, cut).disk);
                found == s.phase.live || found == Replay(s.phase.live, ops)
      {
        CutCallRecovers(s, ops, n, cut);
      }
    }
    if FindsBeforeOrAfter(s, ops) {
      forall n: nat | n <= |ops|
        ensures var found := Replay(s.phase.live, ops[..n]);
                found == s.phase.live || found == Replay(s.phase.live, ops)
      {
        CutCallRecovers(s, ops, n, 0);
        assert CutAt(s, ops, n, 0);
      }
    }
  }

  /** A call of one line, such as a `put`, is atomic. */
  lemma OneLineIsAtomic<V>(m: map<string, V>, ops: seq<Line<V>>)
    requires |ops| <= 1
    ensures Atomic(m, ops)
  {
    forall n | 0 <= n <= |ops| ensures Replay(m, ops[..n]) == m || Replay(m, ops[..n]) == Replay(m, ops) {
      assert n == |ops| ==> ops[..n] == ops;
    }
  }

  lemma RemovalsPart<V>(keys: seq<string>, n: nat)
    requires n <= |keys|
    ensures Removals<V>(keys)[..n] == Removals<V>(keys[..n])
  {
  }

  /** Removing several keys is atomic exactly when at most one of them is there to be removed. */
  lemma RemovalsAtomicExactly<V>(m: map<string, V>, keys: seq<string>)
    requires Distinct(keys) && forall k | k in keys :: k in m
    ensures Atomic(m, Removals<V>(keys)) <==> |keys| <= 1
  {
    if |keys| <= 1 {
      OneLineIsAtomic(m, Removals<V>(keys));
    } else {
      RemovalsPart<V>(keys, 1);
      ReplayRemovals(m, keys[..1]);
      ReplayRemovals(m, keys);
      assert keys[0] in SetOf(keys[..1]) && keys[1] in SetOf(keys) && keys[0] in m && keys[1] in m;
      assert keys[1] !in SetOf(keys[..1]);
      assert keys[0] in m && keys[0] !in m - SetOf(keys[..1]);
      assert keys[1] in m - SetOf(keys[..1]) && keys[1] !in m - SetOf(keys);
      assert Replay(m, Removals<V>(keys)[..1]) == m - SetOf(keys[..1]);
    }
  }

  // ---------------------------------------------------------------------
  // A subtree move
  // ---------------------------------------------------------------------

  lemma MoveLinesPart<V>(m: map<string, V>, from: string, to: string, keys: seq<string>, n: nat)
    requires (forall k | k in keys :: k in m && Under(from, k)) && n <= 2 * |keys|
    ensures MoveLines(m, from, to, keys)[..n]
            == if n <= |keys| then Removals<V>(keys[..n])
               else Removals<V>(keys) + Insertions(m, from, to, keys[..n - |keys|])
  {
    assert forall i | 0 <= i < |keys| :: keys[i] in keys;
  }

  /** What an open finds after `n` lines of a move: some keys gone, then some of them under their new names. */
  lemma MovePart<V>(m: map<string, V>, from: string, to: string, keys: seq<string>, n: nat)
    requires (forall k | k in keys :: k in m && Under(from, k)) && Distinct(keys) && n <= 2 * |keys|
    ensures var r := Replay(m, MoveLines(m, from, to, keys)[..n]);
            if n <= |keys| then r == m - SetOf(keys[..n])
            else Inserted(m, from, to, SetOf(keys[..n - |keys|]), m - SetOf(keys), r)
  {
    MoveLinesPart(m, from, to, keys, n);
    if n <= |keys| {
      ReplayRemovals(m, keys[..n]);
    } else {
      var some := keys[..n - |keys|];
      ReplayRemovals(m, keys);
      ReplayInsertions(m, from, to, some, m - SetOf(keys));
      ReplayConcat(m, Removals<V>(keys), Insertions(m, from, to, some));
    }
  }

  /**
   A key of the move, cut after `n` lines: it is under its old name while its removal is not written, under its
   new name once its insertion is, and in between its new name is what it was before.
   */
  lemma MovedKeyAfter<V>(m: map<string, V>, from: string, to: string, keys: seq<string>, n: nat, i: nat)
    requires (forall k | k in keys :: k in m && Under(from, k)) && Distinct(keys) && n <= 2 * |keys| && i < |keys|
    requires forall k | k in keys :: Move(from, to, k) !in keys
    ensures var r, target := Replay(m, MoveLines(m, from, to, keys)[..n]), Move(from, to, keys[i]);
            && (keys[i] in r <==> n <= i)
            && (if n > |keys| + i then target in r && r[target] == m[keys[i]] else AgreeAt(r, m, target))
  {
    var key, target := keys[i], Move(from, to, keys[i]);
    assert key in keys;
    MoveBack(from, to, key);
    MovePart(m, from, to, keys, n);
    if n <= |keys| {
      assert key in SetOf(keys[..n]) <==> i < n by {
        if key in SetOf(keys[..n]) { var j :| 0 <= j < n && keys[..n][j] == key; }
        if i < n { assert keys[..n][i] == key; }
      }
      assert target !in SetOf(keys[..n]);
    } else {
      var some := keys[..n - |keys|];
      assert key in SetOf(some) <==> i < n - |keys| by {
        if key in SetOf(some) { var j :| 0 <= j < |some| && some[j] == key; }
        if i < n - |keys| { assert some[i] == key; }
      }
      assert key in SetOf(keys) && target !in SetOf(keys);
      NotATarget(from, to, keys, key);
      assert forall k | k in SetOf(some) :: k in keys;
    }
  }

  lemma NotATarget(from: string, to: string, keys: seq<string>, key: string)
    requires (forall k | k in keys :: Under(from, k) && Move(from, to, k) !in keys) && key in keys
    ensures !(Under(to, key) && Move(to, from, key) in keys)
  {
    if Under(to, key) { MoveBack(to, from, key); }
  }

  /** A value is under neither name exactly while its removal is written and its insertion is not. */
  lemma ValueLostExactly<V>(m: map<string, V>, from: string, to: string, keys: seq<string>, n: nat, i: nat)
    requires (forall k | k in keys :: k in m && Under(from, k)) && Distinct(keys) && n <= 2 * |keys| && i < |keys|
    requires forall k | k in keys :: Move(from, to, k) !in m
    ensures var r := Replay(m, MoveLines(m, from, to, keys)[..n]);
            keys[i] !in r && Move(from, to, keys[i]) !in r <==> i < n <= |keys| + i
  {
    assert keys[i] in keys;
    assert forall k | k in keys :: Move(from, to, k) !in keys;
    MovedKeyAfter(m, from, to, keys, n, i);
  }

  /** A single key that moves onto an equal value: the removal alone is then the whole move. */
  ghost predicate MovesOntoItsEqual<V>(m: map<string, V>, from: string, to: string, keys: seq<string>)
    requires forall k | k in keys :: k in m && Under(from, k)
  {
    |keys| == 1 && keys[0] in keys
    && var target := Move(from, to, keys[0]); target != keys[0] && target in m && m[target] == m[keys[0]]
  }

  /** A subtree move is atomic exactly when there is nothing to move, or one key that moves onto its equal. */
  lemma MoveAtomicExactly<V>(m: map<string, V>, from: string, to: string, keys: seq<string>)
    requires Subtree(m, from, keys)
    ensures Atomic(m, MoveLines(m, from, to, keys)) <==> keys == [] || MovesOntoItsEqual(m, from, to, keys)
  {
    var lines := MoveLines(m, from, to, keys);
    assert lines[..|lines|] == lines;
    RemoveThenInsert(m, from, to, keys);
    if keys != [] {
      assert keys[0] in keys;
      MovePart(m, from, to, keys, 1);
      assert keys[0] in SetOf(keys[..1]);
      if |keys| == 1 {
        SingleMoveAtomicExactly(m, from, to, keys);
      } else {
        MovePart(m, from, to, keys, 2);
        assert keys[1] in keys && keys[1] in SetOf(keys[..2]) && keys[0] in SetOf(keys[..2]);
        assert keys[1] !in SetOf(keys[..1]);
        assert keys[1] in Replay(m, lines[..1]) && keys[1] !in Replay(m, lines[..2]);
        assert keys[0] in m && keys[0] !in Replay(m, lines[..1]) && keys[0] !in Replay(m, lines[..2]);
      }
    } else {
      OneLineIsAtomic(m, lines);
    }
  }

  lemma SingleMoveAtomicExactly<V>(m: map<string, V>, from: string, to: string, keys: seq<string>)
    requires Subtree(m, from, keys) && |keys| == 1
    ensures Atomic(m, MoveLines(m, from, to, keys)) <==> MovesOntoItsEqual(m, from, to, keys)
  {
    var lines := MoveLines(m, from, to, keys);
    var key, target := keys[0], Move(from, to, keys[0]);
    assert keys[..1] == keys && SetOf(keys) == {key} && key in keys;
    assert lines[..2] == lines && lines[..0] == [];
    MovePart(m, from, to, keys, 1);
    MovePart(m, from, to, keys, 2);
    MoveBack(from, to, key);
    var half, all := Replay(m, lines[..1]), Replay(m, lines);
    assert half == m - {key} && key in m && key !in half;
    assert target in all && all[target] == m[key];
    if MovesOntoItsEqual(m, from, to, keys) {
      forall k ensures AgreeAt(all, half, k) {
        if Under(to, k) { MoveBack(to, from, k); }
      }
      assert forall k | k in all :: AgreeAt(all, half, k);
      assert forall k | k in half :: AgreeAt(all, half, k);
      assert all == half;
      forall n | 0 <= n <= |lines| ensures Replay(m, lines[..n]) == m || Replay(m, lines[..n]) == all {
        assert n == 0 || n == 1 || n == 2;
      }
    }
    if half == all {
      assert target in half && half[target] == m[key];
    }
  }

  /**
   The smallest case: one file is moved, the crash comes between the two lines, and the next open finds its
   value under neither name.
   */
  lemma CutMoveLosesValue<V>(value: V, text: V -> string) returns (events: seq<Event<V>>, s: System<V>)
    ensures Leads(Fresh(map["f" := value], text), events, s) && Enabled(s, Open)
    ensures s.log == MoveLines(map["f" := value], "f", "g", ["f"])
    ensures Next(s, Open).phase.live == map[]
  {
    var m: map<string, V> := map["f" := value];
    var up, keys := Opened(m, text), ["f"];
    var ops := MoveLines(m, "f", "g", keys);
    assert Whole(ops);
    OpenedFirst(m, text);
    events := CrashInFirstCall(m, text, ops, 1, 0);
    s := CrashedIn(up, ops, 1, 0);
    CrashedInIs(up, ops, 1, 0);
    CutCallReads(up, ops, 1, 0);
    CutCallRecovers(up, ops, 1, 0);
    MovePart(m, "f", "g", keys, 1);
    assert SetOf(keys[..1]) == {"f"};
  }
}
