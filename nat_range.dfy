/** Counting facts about finite sets of natural numbers, shared by the identity
    registry (ids in use are exactly 0 .. n-1) and the entity manager (the live
    count is the frontier minus the free-stack size). */
module NatRange {

  /** The indices 0 .. n-1. */
  function Range(n: nat): (s: set<nat>)
    ensures forall i: nat :: i in s <==> i < n
  {
    if n == 0 then {} else Range(n - 1) + {n - 1}
  }

  /** No element occurs twice. */
  ghost predicate Distinct(s: seq<nat>) {
    forall i, j | 0 <= i < j < |s| :: s[i] != s[j]
  }

  /** The elements of a sequence, as a set. */
  function Elements(s: seq<nat>): (e: set<nat>)
    ensures forall x :: x in e <==> x in s
  {
    set x | x in s
  }

  lemma {:induction false} RangeCard(n: nat)
    ensures |Range(n)| == n
  {
    if n > 0 {
      RangeCard(n - 1);
    }
  }

  /** A sequence without repetitions has as many elements as its length. */
  lemma {:induction false} DistinctCard(s: seq<nat>)
    requires Distinct(s)
    ensures |Elements(s)| == |s|
  {
    if s != [] {
      var init := s[..|s| - 1];
      assert Distinct(init);
      DistinctCard(init);
      assert Elements(s) == Elements(init) + {s[|s| - 1]};
    }
  }

  /** A strictly increasing sequence has no repetitions. */
  lemma IncreasingDistinct(s: seq<nat>)
    requires forall i, j | 0 <= i < j < |s| :: s[i] < s[j]
    ensures Distinct(s)
  {
  }

  /** Removing a duplicate-free pool of indices below n from 0 .. n-1 leaves
      n minus the size of the pool. */
  lemma LiveCount(n: nat, pool: seq<nat>)
    requires Distinct(pool)
    requires forall i | 0 <= i < |pool| :: pool[i] < n
    ensures |Range(n) - Elements(pool)| == n - |pool|
  {
    var p := Elements(pool);
    DistinctCard(pool);
    RangeCard(n);
    assert p <= Range(n);
    assert Range(n) == (Range(n) - p) + p;
    assert (Range(n) - p) * p == {};
  }

  /** Popping the top of a pool of free indices makes that index live. */
  lemma LivePop(n: nat, pool: seq<nat>)
    requires pool != [] && Distinct(pool) && pool[|pool| - 1] < n
    ensures var e := pool[|pool| - 1];
      && e !in Range(n) - Elements(pool)
      && Range(n) - Elements(pool[..|pool| - 1]) == (Range(n) - Elements(pool)) + {e}
  {
    var e := pool[|pool| - 1];
    assert pool == pool[..|pool| - 1] + [e];
    assert e !in pool[..|pool| - 1];
    assert Elements(pool) == Elements(pool[..|pool| - 1]) + {e};
  }

  /** Advancing the frontier past n makes n live. */
  lemma LiveGrow(n: nat, pool: seq<nat>)
    requires forall i | 0 <= i < |pool| :: pool[i] < n
    ensures n !in Range(n) - Elements(pool)
    ensures Range(n + 1) - Elements(pool) == (Range(n) - Elements(pool)) + {n}
  {
    assert n !in Elements(pool);
  }

  /** Pushing a live index on the pool makes it free. */
  lemma LivePush(n: nat, pool: seq<nat>, e: nat)
    ensures Range(n) - Elements(pool + [e]) == (Range(n) - Elements(pool)) - {e}
  {
    assert Elements(pool + [e]) == Elements(pool) + {e};
  }

  /** The even numbers below 2n. */
  function EvensBelow(n: nat): (s: set<nat>)
    ensures forall i | i in s :: i < 2 * n
  {
    if n == 0 then {} else EvensBelow(n - 1) + {2 * n - 2}
  }

  lemma {:induction false} EvensBelowMembers(n: nat)
    ensures forall i: nat :: i in EvensBelow(n) <==> i < 2 * n && i % 2 == 0
  {
    if n > 0 {
      EvensBelowMembers(n - 1);
    }
  }

  lemma {:induction false} EvensCard(n: nat)
    ensures |EvensBelow(n)| == n
  {
    if n > 0 {
      EvensCard(n - 1);
    }
  }
}
