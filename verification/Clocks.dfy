/**
 Vector clocks: one counter per device, a missing counter counting as zero.
 The executable order test only looks at counters that are present; the lemmas
 show that it is the pointwise order over every device, and that `Merge` is the
 least upper bound of that order.
 */
module Clocks {

  type Clock = map<string, nat>

  datatype ClockOrder = Equal | Dominates | DominatedBy | Concurrent

  function Get(c: Clock, device: string): nat {
    if device in c then c[device] else 0
  }

  function Increment(c: Clock, device: string): Clock {
    c[device := Get(c, device) + 1]
  }

  predicate Leq(a: Clock, b: Clock) {
    forall d | d in a :: a[d] <= Get(b, d)
  }

  function Compare(a: Clock, b: Clock): ClockOrder {
    if Leq(a, b) then if Leq(b, a) then Equal else DominatedBy
    else if Leq(b, a) then Dominates
    else Concurrent
  }

  function Merge(a: Clock, b: Clock): Clock {
    map d | d in a.Keys + b.Keys :: if Get(a, d) < Get(b, d) then Get(b, d) else Get(a, d)
  }

  lemma LeqAt(a: Clock, b: Clock, d: string)
    requires Leq(a, b)
    ensures Get(a, d) <= Get(b, d)
  {
  }

  lemma LeqTransitive(a: Clock, b: Clock, c: Clock)
    requires Leq(a, b) && Leq(b, c)
    ensures Leq(a, c)
  {
    forall d | d in a ensures a[d] <= Get(c, d) {
      LeqAt(a, b, d);
      LeqAt(b, c, d);
    }
  }

  /** The four answers are the four cases of the pointwise order over all devices. */
  lemma CompareIsPointwise(a: Clock, b: Clock)
    ensures Compare(a, b).Equal? <==> forall d :: Get(a, d) == Get(b, d)
    ensures Compare(a, b).Dominates? <==> (forall d :: Get(b, d) <= Get(a, d)) && (exists d :: Get(b, d) < Get(a, d))
    ensures Compare(a, b).DominatedBy? <==> (forall d :: Get(a, d) <= Get(b, d)) && (exists d :: Get(a, d) < Get(b, d))
    ensures Compare(a, b).Concurrent? <==> (exists d :: Get(a, d) < Get(b, d)) && (exists d :: Get(b, d) < Get(a, d))
  {
    LeqIsPointwise(a, b);
    LeqIsPointwise(b, a);
  }

  lemma LeqIsPointwise(a: Clock, b: Clock)
    ensures Leq(a, b) <==> forall d :: Get(a, d) <= Get(b, d)
    ensures !Leq(a, b) <==> exists d :: Get(b, d) < Get(a, d)
  {
    if forall d :: Get(a, d) <= Get(b, d) {
      forall d | d in a ensures a[d] <= Get(b, d) {
        assert Get(a, d) <= Get(b, d);
      }
    }
    if !Leq(a, b) {
      var d :| d in a && !(a[d] <= Get(b, d));
      assert Get(b, d) < Get(a, d);
    }
  }

  /** `Merge` is the least clock above both arguments. */
  lemma MergeIsLeastUpperBound(a: Clock, b: Clock, c: Clock)
    ensures Leq(a, Merge(a, b)) && Leq(b, Merge(a, b))
    ensures Leq(Merge(a, b), c) <==> Leq(a, c) && Leq(b, c)
  {
    var m := Merge(a, b);
    if Leq(m, c) {
      LeqTransitive(a, m, c);
      LeqTransitive(b, m, c);
    }
  }

  /** A clock that just gained its own tick never compares below or equal to one without that tick. */
  lemma IncrementIsFresh(known: Clock, device: string, other: Clock)
    requires Get(other, device) <= Get(known, device)
    ensures !Leq(Increment(known, device), other)
    ensures Leq(other, Increment(known, device)) <==> Leq(other, known)
  {
    var next := Increment(known, device);
    assert next[device] > Get(other, device);
    if Leq(other, next) {
      forall d | d in other ensures other[d] <= Get(known, d) {
        assert other[d] <= Get(next, d);
      }
    }
  }

  /** The comparison loop: two flags over the keys of both clocks. */
  method CompareClocks(a: Clock, b: Clock) returns (order: ClockOrder)
    ensures order == Compare(a, b)
  {
    var selfGreater, otherGreater := false, false;
    var devices := a.Keys + b.Keys;
    while devices != {}
      invariant devices <= a.Keys + b.Keys
      invariant selfGreater <==> exists d :: d in (a.Keys + b.Keys) - devices && Get(b, d) < Get(a, d)
      invariant otherGreater <==> exists d :: d in (a.Keys + b.Keys) - devices && Get(a, d) < Get(b, d)
      decreases devices
    {
      var device :| device in devices;
      var x, y := Get(a, device), Get(b, device);
      if x > y {
        selfGreater := true;
      } else if y > x {
        otherGreater := true;
      }
      devices := devices - {device};
    }
    LeqIsPointwise(a, b);
    LeqIsPointwise(b, a);
    if selfGreater {
      order := if otherGreater then Concurrent else Dominates;
    } else {
      order := if otherGreater then DominatedBy else Equal;
    }
  }

  /** The merge loop: start from a copy of `a`, raise each slot to the counter in `b`. */
  method MergeClocks(a: Clock, b: Clock) returns (out: Clock)
    ensures out == Merge(a, b)
  {
    out := a;
    var devices := b.Keys;
    while devices != {}
      invariant devices <= b.Keys
      invariant out.Keys == a.Keys + (b.Keys - devices)
      invariant forall d | d in out ::
          out[d] == if d in b.Keys - devices then Get(Merge(a, b), d) else Get(a, d)
      decreases devices
    {
      var device :| device in devices;
      var slot := Get(out, device);
      out := out[device := if slot < b[device] then b[device] else slot];
      devices := devices - {device};
    }
    assert forall d | d in out :: out[d] == Merge(a, b)[d];
  }
}
