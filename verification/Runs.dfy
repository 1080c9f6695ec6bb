/** Runs of any machine whose steps may be refused. */
module Runs {
  import opened Basics

  /** The events are possible one after the other and lead from `s` to `t`. */
  ghost predicate Leads<S, E>(step: (S, E) -> Option<S>, s: S, events: seq<E>, t: S)
    decreases |events|
  {
    if events == [] then s == t
    else step(s, events[0]).Some? && Leads(step, step(s, events[0]).value, events[1..], t)
  }

  lemma {:induction false} Join<S, E>(step: (S, E) -> Option<S>, s: S, first: seq<E>, t: S, second: seq<E>, u: S)
    requires Leads(step, s, first, t) && Leads(step, t, second, u)
    ensures Leads(step, s, first + second, u)
    decreases |first|
  {
    if first == [] {
      assert first + second == second;
    } else {
      Join(step, step(s, first[0]).value, first[1..], t, second, u);
      assert (first + second)[1..] == first[1..] + second;
    }
  }

  lemma One<S, E>(step: (S, E) -> Option<S>, s: S, e: E)
    requires step(s, e).Some?
    ensures Leads(step, s, [e], step(s, e).value)
  {
    assert [e][1..] == [];
    assert Leads(step, step(s, e).value, [], step(s, e).value);
  }
}
