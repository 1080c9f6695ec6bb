/**
 Moving a path and everything under it, as a simultaneous rename of map keys, and
 the removals and insertions that carry it out one after the other.
 */
module Rekey {
  import opened KeyOrder
  import opened Journal

  predicate Under(root: string, key: string) {
    key == root || StartsWith(key, root + "/")
  }

  /** The new name of a key under `from`. */
  function Move(from: string, to: string, key: string): string
    requires Under(from, key)
  {
    to + key[|from|..]
  }

  lemma MoveBack(from: string, to: string, key: string)
    requires Under(from, key)
    ensures Under(to, Move(from, to, key))
    ensures Move(to, from, Move(from, to, key)) == key
  {
    var moved := Move(from, to, key);
    assert moved[|to|..] == key[|from|..];
    assert from + key[|from|..] == key;
    if key != from {
      assert key[|from|] == (from + "/")[|from|] == '/';
      assert moved[|to|] == '/';
      assert moved[..|to| + 1] == to + "/";
    }
  }

  predicate Moved<V>(m: map<string, V>, from: string, to: string, key: string) {
    Under(to, key) && Move(to, from, key) in m
  }

  /** Every key under `from` takes its new name at once; a kept key of that name is overwritten. */
  function Rekeyed<V>(m: map<string, V>, from: string, to: string): map<string, V> {
    var targets := set k | k in m.Keys && Under(from, k) :: Move(from, to, k);
    map k | k in targets + m.Keys && (Moved(m, from, to, k) || (k in m && !Under(from, k))) ::
      if Moved(m, from, to, k) then m[Move(to, from, k)] else m[k]
  }

  lemma RekeyedKeys<V>(m: map<string, V>, from: string, to: string, key: string)
    ensures key in Rekeyed(m, from, to) <==> Moved(m, from, to, key) || (key in m && !Under(from, key))
  {
    if Moved(m, from, to, key) {
      MoveBack(to, from, key);
      var source := Move(to, from, key);
      assert source in m.Keys && Under(from, source) && Move(from, to, source) == key;
    }
    forall k | k in m.Keys && Under(from, k) && Move(from, to, k) == key ensures Moved(m, from, to, key) {
      MoveBack(from, to, k);
    }
  }

  /** What a rename promises: moved values arrive, everything else stays unless overwritten. */
  lemma RekeyedMeaning<V>(m: map<string, V>, from: string, to: string, key: string)
    ensures key in m && Under(from, key) ==>
              var target := Move(from, to, key);
              target in Rekeyed(m, from, to) && Rekeyed(m, from, to)[target] == m[key]
    ensures key in m && !Under(from, key) && !Moved(m, from, to, key) ==>
              key in Rekeyed(m, from, to) && Rekeyed(m, from, to)[key] == m[key]
    ensures Under(from, key) && !Under(to, key) ==> key !in Rekeyed(m, from, to)
  {
    RekeyedKeys(m, from, to, key);
    if key in m && Under(from, key) {
      MoveBack(from, to, key);
      RekeyedKeys(m, from, to, Move(from, to, key));
    }
  }

  lemma UnderExactly(root: string, key: string)
    ensures Under(root, key) <==> key == root || exists rest :: key == root + "/" + rest
  {
    if StartsWith(key, root + "/") {
      assert key == root + "/" + key[|root| + 1..];
    }
  }

  /** In terms of names: the path itself and everything below it move, and nothing that only begins like it. */
  lemma SubtreeMoves<V>(m: map<string, V>, from: string, to: string, rest: string, other: string)
    ensures var moved := Rekeyed(m, from, to);
            && (from in m ==> to in moved && moved[to] == m[from])
            && (from + "/" + rest in m ==>
                  to + "/" + rest in moved && moved[to + "/" + rest] == m[from + "/" + rest])
            && (other in m && other != from && !(from + "/" <= other) && other != to && !(to + "/" <= other) ==>
                  other in moved && moved[other] == m[other])
            && (from != to && !(to + "/" <= from) ==> from !in moved)
            && (from != to && !(to + "/" <= from + "/" + rest) && to != from + "/" + rest ==>
                  from + "/" + rest !in moved)
  {
    RekeyedMeaning(m, from, to, from);
    RekeyedMeaning(m, from, to, from + "/" + rest);
    RekeyedMeaning(m, from, to, other);
    assert Move(from, to, from) == to;
    assert Move(from, to, from + "/" + rest) == to + "/" + rest by {
      assert (from + "/" + rest)[|from|..] == "/" + rest;
    }
  }

  /** Moving back undoes the move exactly when nothing else was under the new name. */
  lemma RekeyBackExactly<V>(m: map<string, V>, from: string, to: string)
    ensures Rekeyed(Rekeyed(m, from, to), to, from) == m
       <==> forall k | k in m && Under(to, k) :: Under(from, k)
  {
    var there := Rekeyed(m, from, to);
    var back := Rekeyed(there, to, from);
    if k :| k in m && Under(to, k) && !Under(from, k) {
      RekeyedKeys(there, to, from, k);
      assert k !in back;
    } else {
      forall k ensures AgreeAt(back, m, k) {
        BackAt(m, from, to, k);
      }
      assert forall k | k in m :: AgreeAt(back, m, k);
      assert forall k | k in back :: AgreeAt(back, m, k);
      assert back == m;
    }
  }

  lemma BackAt<V>(m: map<string, V>, from: string, to: string, key: string)
    requires forall k | k in m && Under(to, k) :: Under(from, k)
    ensures AgreeAt(Rekeyed(Rekeyed(m, from, to), to, from), m, key)
  {
    var there := Rekeyed(m, from, to);
    RekeyedKeys(there, to, from, key);
    RekeyedKeys(m, from, to, key);
    if Under(from, key) {
      MoveBack(from, to, key);
      RekeyedKeys(m, from, to, Move(from, to, key));
    }
  }

  // ---------------------------------------------------------------------
  // One line at a time
  // ---------------------------------------------------------------------

  function Removals<V>(keys: seq<string>): (lines: seq<Line<V>>)
    ensures |lines| == |keys|
  {
    seq(|keys|, i requires 0 <= i < |keys| => Rm(keys[i]))
  }

  lemma {:induction false} ReplayRemovals<V>(m: map<string, V>, keys: seq<string>)
    ensures Whole(Removals<V>(keys))
    ensures Replay(m, Removals<V>(keys)) == m - SetOf(keys)
  {
    var lines := Removals<V>(keys);
    if keys != [] {
      ReplayRemovals(m - {keys[0]}, keys[1..]);
      assert lines[1..] == Removals<V>(keys[1..]);
      assert SetOf(keys) == {keys[0]} + SetOf(keys[1..]);
      assert m - {keys[0]} - SetOf(keys[1..]) == m - SetOf(keys);
    }
  }

  /** The insertions of the moved keys, in the order they were removed. */
  function Insertions<V>(m: map<string, V>, from: string, to: string, keys: seq<string>): (lines: seq<Line<V>>)
    requires forall k | k in keys :: k in m && Under(from, k)
    ensures |lines| == |keys|
  {
    seq(|keys|, i requires 0 <= i < |keys| => Put(Move(from, to, keys[i]), m[keys[i]]))
  }

  /** The lines of a move, all removals before all insertions. */
  ghost function MoveLines<V>(m: map<string, V>, from: string, to: string, keys: seq<string>): (lines: seq<Line<V>>)
    requires forall k | k in keys :: k in m && Under(from, k)
    ensures |lines| == 2 * |keys|
  {
    Removals<V>(keys) + Insertions(m, from, to, keys)
  }

  ghost predicate Subtree<V>(m: map<string, V>, from: string, keys: seq<string>) {
    && Distinct(keys) && SetOf(keys) == (set k | k in m && Under(from, k))
    && forall k | k in keys :: k in m && Under(from, k)
  }

  ghost predicate Inserted<V>(m: map<string, V>, from: string, to: string, done: set<string>, kept: map<string, V>,
        result: map<string, V>) {
    forall k :: if Under(to, k) && Move(to, from, k) in done && Move(to, from, k) in m
                then k in result && result[k] == m[Move(to, from, k)]
                else AgreeAt(result, kept, k)
  }

  lemma {:induction false} ReplayInsertions<V>(m: map<string, V>, from: string, to: string, keys: seq<string>,
        kept: map<string, V>)
    requires forall k | k in keys :: k in m && Under(from, k)
    requires Distinct(keys)
    ensures Whole(Insertions(m, from, to, keys))
    ensures Inserted(m, from, to, SetOf(keys), kept, Replay(kept, Insertions(m, from, to, keys)))
  {
    var lines := Insertions(m, from, to, keys);
    if keys != [] {
      var front, last := keys[..|keys| - 1], keys[|keys| - 1];
      assert keys == front + [last];
      ReplayInsertions(m, from, to, front, kept);
      assert lines == Insertions(m, from, to, front) + [Put(Move(from, to, last), m[last])];
      ReplaySnoc(kept, Insertions(m, from, to, front), Put(Move(from, to, last), m[last]));
      assert SetOf(keys) == SetOf(front) + {last};
      var before, after := Replay(kept, Insertions(m, from, to, front)), Replay(kept, lines);
      assert after == before[Move(from, to, last) := m[last]];
      InsertOne(m, from, to, SetOf(front), last, kept, before);
    }
  }

  lemma InsertOne<V>(m: map<string, V>, from: string, to: string, done: set<string>, last: string,
        kept: map<string, V>, before: map<string, V>)
    requires last in m && Under(from, last)
    requires Inserted(m, from, to, done, kept, before)
    ensures Inserted(m, from, to, done + {last}, kept, before[Move(from, to, last) := m[last]])
  {
    MoveBack(from, to, last);
    forall k | Under(to, k) ensures Move(to, from, k) == last <==> k == Move(from, to, last) {
      MoveBack(to, from, k);
    }
  }

  /** All removals first, then all insertions, is the simultaneous rename, however the subtrees overlap. */
  lemma RemoveThenInsert<V>(m: map<string, V>, from: string, to: string, keys: seq<string>)
    requires Distinct(keys) && SetOf(keys) == set k | k in m && Under(from, k)
    requires forall k | k in keys :: k in m && Under(from, k)
    ensures Whole(Removals<V>(keys) + Insertions(m, from, to, keys))
    ensures Replay(m, Removals<V>(keys) + Insertions(m, from, to, keys)) == Rekeyed(m, from, to)
  {
    var kept := m - SetOf(keys);
    ReplayRemovals(m, keys);
    ReplayInsertions(m, from, to, keys, kept);
    ReplayConcat(m, Removals<V>(keys), Insertions(m, from, to, keys));
    var result := Replay(kept, Insertions(m, from, to, keys));
    forall k ensures AgreeAt(result, Rekeyed(m, from, to), k) {
      RekeyedKeys(m, from, to, k);
      if Under(to, k) { MoveBack(to, from, k); }
    }
    assert forall k | k in result :: AgreeAt(result, Rekeyed(m, from, to), k);
    assert forall k | k in Rekeyed(m, from, to) :: AgreeAt(result, Rekeyed(m, from, to), k);
    assert result == Rekeyed(m, from, to);
  }
}
