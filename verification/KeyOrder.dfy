/**
 The order of keys in the ordered map, and why a scan that starts at a prefix and
 stops at the first key without it has seen every key with it.
 */
module KeyOrder {
  import opened Basics

  /** Lexicographic order by character. */
  predicate Less(a: string, b: string) {
    if b == "" then false
    else if a == "" then true
    else if a[0] != b[0] then a[0] < b[0]
    else Less(a[1..], b[1..])
  }

  /** The texts agree up to `n`, where the first one ends or has the smaller character. */
  ghost predicate SmallerAt(a: string, b: string, n: nat) {
    n <= |a| && n < |b| && a[..n] == b[..n] && (n == |a| || a[n] < b[n])
  }

  lemma {:induction false} LessExactly(a: string, b: string)
    ensures Less(a, b) <==> exists n: nat :: SmallerAt(a, b, n)
  {
    if b == "" {
    } else if a == "" {
      assert SmallerAt(a, b, 0);
    } else if a[0] != b[0] {
      if a[0] < b[0] { assert SmallerAt(a, b, 0); }
      forall n: nat | 0 < n ensures !SmallerAt(a, b, n) {
        if n <= |a| && n < |b| { assert a[..n][0] != b[..n][0]; }
      }
    } else {
      LessExactly(a[1..], b[1..]);
      forall n: nat ensures SmallerAt(a[1..], b[1..], n) <==> SmallerAt(a, b, n + 1) {
        OneShorter(a, b, n);
      }
      assert !SmallerAt(a, b, 0);
      if n: nat :| SmallerAt(a, b, n) {
        assert SmallerAt(a[1..], b[1..], n - 1);
      }
    }
  }

  lemma OneShorter(a: string, b: string, n: nat)
    requires a != "" && b != "" && a[0] == b[0]
    ensures SmallerAt(a[1..], b[1..], n) <==> SmallerAt(a, b, n + 1)
  {
    if n < |a| && n < |b| {
      assert a[..n + 1] == [a[0]] + a[1..][..n] && b[..n + 1] == [b[0]] + b[1..][..n];
      assert a[..n + 1][1..] == a[1..][..n] && b[..n + 1][1..] == b[1..][..n];
    }
  }

  predicate StartsWith(key: string, prefix: string) {
    prefix <= key
  }

  predicate Increasing(keys: seq<string>) {
    forall i, j | 0 <= i < j < |keys| :: Less(keys[i], keys[j])
  }

  function SetOf(keys: seq<string>): set<string> { set k | k in keys }

  predicate Distinct(keys: seq<string>) {
    forall i, j | 0 <= i < j < |keys| :: keys[i] != keys[j]
  }

  lemma {:induction false} DistinctSize(keys: seq<string>)
    requires Distinct(keys)
    ensures |SetOf(keys)| == |keys|
  {
    if keys != [] {
      var front, last := keys[..|keys| - 1], keys[|keys| - 1];
      DistinctSize(front);
      assert keys == front + [last];
      assert SetOf(keys) == SetOf(front) + {last};
    }
  }

  lemma {:induction false} LessIrreflexive(a: string)
    ensures !Less(a, a)
  {
    if a != "" { LessIrreflexive(a[1..]); }
  }

  lemma {:induction false} LessTransitive(a: string, b: string, c: string)
    requires Less(a, b) && Less(b, c)
    ensures Less(a, c)
  {
    if a != "" && a[0] == b[0] && b[0] == c[0] { LessTransitive(a[1..], b[1..], c[1..]); }
  }

  lemma {:induction false} LessAsymmetric(a: string, b: string)
    requires Less(a, b)
    ensures !Less(b, a)
  {
    if a != "" && a[0] == b[0] { LessAsymmetric(a[1..], b[1..]); }
  }

  lemma {:induction false} LessTotal(a: string, b: string)
    ensures a == b || Less(a, b) || Less(b, a)
  {
    if a != "" && b != "" && a[0] == b[0] {
      LessTotal(a[1..], b[1..]);
      assert a[1..] == b[1..] ==> a == b by {
        assert a == [a[0]] + a[1..] && b == [b[0]] + b[1..];
      }
    }
  }

  /** A key with the prefix is not below it. */
  lemma {:induction false} PrefixIsLowest(key: string, prefix: string)
    requires StartsWith(key, prefix)
    ensures !Less(key, prefix)
  {
    if prefix != "" { PrefixIsLowest(key[1..], prefix[1..]); }
  }

  /** Keys with one prefix are contiguous: whatever lies between the prefix and such a key has it too. */
  lemma {:induction false} PrefixedAreContiguous(key: string, later: string, prefix: string)
    requires !Less(key, prefix) && Less(key, later) && StartsWith(later, prefix)
    ensures StartsWith(key, prefix)
  {
    if prefix != "" {
      assert later[0] == prefix[0];
      assert key != "" && key[0] == prefix[0];
      PrefixedAreContiguous(key[1..], later[1..], prefix[1..]);
      assert key == [key[0]] + key[1..] && prefix == [prefix[0]] + prefix[1..];
    }
  }

  /** The least key at or above `bound`, or strictly above it. */
  method NextKey(keys: set<string>, bound: string, inclusive: bool) returns (next: Option<string>)
    ensures next.None? ==> forall k | k in keys :: Less(k, bound) || (!inclusive && k == bound)
    ensures next.Some? ==>
              && next.value in keys
              && (Less(bound, next.value) || (inclusive && next.value == bound))
              && forall k | k in keys && Less(k, next.value) :: Less(k, bound) || (!inclusive && k == bound)
  {
    next := None;
    var rest := keys;
    while rest != {}
      invariant rest <= keys
      invariant next.None? ==> forall k | k in keys - rest :: Less(k, bound) || (!inclusive && k == bound)
      invariant next.Some? ==>
          && next.value in keys
          && (Less(bound, next.value) || (inclusive && next.value == bound))
          && forall k | k in keys - rest && Less(k, next.value) :: Less(k, bound) || (!inclusive && k == bound)
      decreases rest
    {
      var k :| k in rest;
      rest := rest - {k};
      LessTotal(bound, k);
      LessIrreflexive(k);
      if Less(bound, k) || (inclusive && k == bound) {
        if next.None? {
          NoneBelow(keys - rest - {k}, k, bound, inclusive);
          next := Some(k);
        } else if Less(k, next.value) {
          BelowBoth(keys - rest - {k}, k, next.value, bound, inclusive);
          next := Some(k);
        }
      }
    }
  }

  lemma NoneBelow(seen: set<string>, k: string, bound: string, inclusive: bool)
    requires forall x | x in seen :: Less(x, bound) || (!inclusive && x == bound)
    ensures forall x | x in seen + {k} && Less(x, k) :: Less(x, bound) || (!inclusive && x == bound)
  {
    LessIrreflexive(k);
  }

  lemma BelowBoth(seen: set<string>, k: string, best: string, bound: string, inclusive: bool)
    requires Less(k, best)
    requires forall x | x in seen && Less(x, best) :: Less(x, bound) || (!inclusive && x == bound)
    ensures forall x | x in seen + {k} && Less(x, k) :: Less(x, bound) || (!inclusive && x == bound)
  {
    LessIrreflexive(k);
    forall x | x in seen && Less(x, k) ensures Less(x, best) {
      LessTransitive(x, k, best);
    }
  }

  function From(keys: set<string>, bound: string): set<string> {
    set k | k in keys && !Less(k, bound)
  }

  lemma FromShrinks(keys: set<string>, bound: string, next: string)
    requires bound in keys && Less(bound, next)
    ensures From(keys, next) < From(keys, bound)
  {
    LessIrreflexive(bound);
    forall k | k in keys && !Less(k, next) ensures !Less(k, bound) {
      if Less(k, bound) { LessTransitive(k, bound, next); }
    }
    assert bound in From(keys, bound) && bound !in From(keys, next);
  }

  /** The prefix scan: exactly the keys with the prefix, in order. */
  method ScanPrefix(keys: set<string>, prefix: string) returns (found: seq<string>)
    ensures Increasing(found)
    ensures SetOf(found) == set k | k in keys && StartsWith(k, prefix)
  {
    found := [];
    var cursor := NextKey(keys, prefix, true);
    LessIrreflexive(prefix);
    if cursor.Some? && Less(prefix, cursor.value) { LessAsymmetric(prefix, cursor.value); }
    while cursor.Some? && StartsWith(cursor.value, prefix)
      invariant Increasing(found)
      invariant cursor.Some? ==> cursor.value in keys
      invariant forall k | k in found :: k in keys && StartsWith(k, prefix)
      invariant forall k | k in found && cursor.Some? :: Less(k, cursor.value)
      invariant forall k | k in keys && !Less(k, prefix) :: k in found || (cursor.Some? && !Less(k, cursor.value))
      invariant cursor.Some? ==> !Less(cursor.value, prefix)
      decreases if cursor.Some? then From(keys, cursor.value) else {}
    {
      var key := cursor.value;
      LessIrreflexive(key);
      cursor := NextKey(keys, key, false);
      if cursor.Some? {
        FromShrinks(keys, key, cursor.value);
        forall k | k in found ensures Less(k, cursor.value) { LessTransitive(k, key, cursor.value); }
        if Less(cursor.value, prefix) { LessTransitive(key, cursor.value, prefix); }
      }
      forall k | k in keys && !Less(k, prefix)
        ensures k in found + [key] || (cursor.Some? && !Less(k, cursor.value))
      {
        LessTotal(k, key);
      }
      found := found + [key];
    }
    forall k | k in keys && StartsWith(k, prefix) ensures k in found {
      PrefixIsLowest(k, prefix);
      if k !in found {
        LessTotal(k, cursor.value);
        PrefixedAreContiguous(cursor.value, k, prefix);
      }
    }
  }
}
