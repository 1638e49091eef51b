/**
 Memory as the C code uses it: `malloc` gives a block nobody else holds, or fails; `free`
 may only be given a block that is held.
 */
module Heap {
  import opened Basics

  class Memory {
    /** The blocks that have been given out and not given back. */
    var live: multiset<nat>
    var calls: nat
    /** Which of the calls to `malloc` succeed. */
    const succeeds: nat -> bool

    ghost predicate Valid()
      reads this
    {
      forall p: nat :: live[p] <= (if p < calls then 1 else 0)
    }

    constructor (succeeds: nat -> bool)
      ensures Valid() && live == multiset{} && this.succeeds == succeeds
    {
      live, calls := multiset{}, 0;
      this.succeeds := succeeds;
    }

    method Malloc() returns (p: Option<nat>)
      requires Valid()
      modifies this
      ensures Valid()
      ensures p.Some? == succeeds(old(calls))
      ensures p.Some? ==> p.value !in old(live) && live == old(live) + multiset{p.value}
      ensures p.None? ==> live == old(live)
    {
      p := None;
      if succeeds(calls) {
        p := Some(calls);
        assert live[calls] == 0;
        live := live + multiset{calls};
      }
      calls := calls + 1;
    }

    /** Freeing a block twice breaks the precondition of the second call. */
    method Free(p: nat)
      requires Valid() && p in live
      modifies this`live
      ensures Valid()
      ensures live == old(live) - multiset{p} && p !in live
    {
      live := live - multiset{p};
    }
  }
}
