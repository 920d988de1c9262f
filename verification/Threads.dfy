/** Counting the threads of a protocol that are in a given phase. */
module Threads {
  function Count<Pc>(threads: seq<Pc>, p: Pc -> bool): (n: nat)
    ensures n <= |threads|
  {
    if threads == [] then 0
    else Count(threads[..|threads| - 1], p) + (if p(threads[|threads| - 1]) then 1 else 0)
  }

  function Unit(b: bool): nat { if b then 1 else 0 }

  /** One thread moves, the others stay. */
  lemma {:induction false} CountUpdate<Pc>(threads: seq<Pc>, p: Pc -> bool, t: nat, pc: Pc)
    requires t < |threads|
    ensures Count(threads[t := pc], p) + Unit(p(threads[t])) == Count(threads, p) + Unit(p(pc))
  {
    var last := |threads| - 1;
    if t < last {
      assert threads[t := pc][..last] == threads[..last][t := pc];
      CountUpdate(threads[..last], p, t, pc);
    } else {
      assert threads[t := pc][..last] == threads[..last];
    }
  }

  lemma {:induction false} CountPositive<Pc>(threads: seq<Pc>, p: Pc -> bool, t: nat)
    requires t < |threads| && p(threads[t])
    ensures Count(threads, p) >= 1
  {
    if t < |threads| - 1 { CountPositive(threads[..|threads| - 1], p, t); }
  }

  lemma {:induction false} CountTwo<Pc>(threads: seq<Pc>, p: Pc -> bool, t: nat, u: nat)
    requires t < u < |threads| && p(threads[t]) && p(threads[u])
    ensures Count(threads, p) >= 2
  {
    if u < |threads| - 1 {
      CountTwo(threads[..|threads| - 1], p, t, u);
    } else {
      CountPositive(threads[..u], p, t);
    }
  }

  lemma {:induction false} CountNone<Pc>(threads: seq<Pc>, p: Pc -> bool)
    requires forall t: nat | t < |threads| :: !p(threads[t])
    ensures Count(threads, p) == 0
  {
    if threads != [] { CountNone(threads[..|threads| - 1], p); }
  }

  /** A positive count has a witness. */
  lemma {:induction false} CountWitness<Pc>(threads: seq<Pc>, p: Pc -> bool) returns (t: nat)
    requires Count(threads, p) >= 1
    ensures t < |threads| && p(threads[t])
  {
    if p(threads[|threads| - 1]) {
      t := |threads| - 1;
    } else {
      t := CountWitness(threads[..|threads| - 1], p);
    }
  }

  /** Phases that exclude each other never add up to more than all threads. */
  lemma {:induction false} CountDisjoint<Pc>(threads: seq<Pc>, p: Pc -> bool, q: Pc -> bool)
    requires forall t: nat | t < |threads| :: !(p(threads[t]) && q(threads[t]))
    ensures Count(threads, p) + Count(threads, q) <= |threads|
  {
    if threads != [] { CountDisjoint(threads[..|threads| - 1], p, q); }
  }

  lemma {:induction false} CountImplies<Pc>(threads: seq<Pc>, p: Pc -> bool, q: Pc -> bool)
    requires forall t: nat | t < |threads| :: p(threads[t]) ==> q(threads[t])
    ensures Count(threads, p) <= Count(threads, q)
  {
    if threads != [] { CountImplies(threads[..|threads| - 1], p, q); }
  }
}
