/** Numbered resources: created, and freed exactly once or still live. Freeing demands a live one, so a
    double free or a use after free would be a violated precondition. */
module Ledgers {
  import opened Bytes

  type Object = nat

  class Ledger {
    /** How many were created, which are not yet freed, and how often each was freed. */
    var made: nat
    var live: set<Object>
    var freed: multiset<Object>

    constructor ()
      ensures made == 0 && live == {} && Balanced()
    {
      made, live, freed := 0, {}, multiset{};
    }

    /** Live ones are created ones, and every created one is live or was freed exactly once. */
    predicate Balanced()
      reads this
    {
      && (forall x | x in live :: x < made)
      && (forall x | 0 <= x < made :: freed[x] == if x in live then 0 else 1)
      && (forall x | x in freed :: x < made)
    }

    method New(ok: bool) returns (x: Option<Object>)
      requires Balanced()
      modifies this
      ensures Balanced() && made == old(made) + (if ok then 1 else 0)
      ensures x == if ok then Some(old(made)) else None
      ensures live == old(live) + (if ok then {old(made)} else {})
      ensures if ok then x.value !in old(live) else live == old(live)
    {
      if !ok {
        return None;
      }
      x := Some(made);
      live := live + {made};
      made := made + 1;
    }

    method Free(x: Object)
      requires Balanced() && x in live
      modifies this
      ensures Balanced() && made == old(made) && live == old(live) - {x}
    {
      live := live - {x};
      freed := freed + multiset{x};
    }
  }
}
