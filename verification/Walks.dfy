/**
 Walks along a relation that gives each element at most one successor, and the cycles such
 walks end in. The relation is "old identifier -> new identifier" for a list of renumberings,
 whose order of application has to follow the walks backwards; it is "page -> parent" in the
 page tree.
 */
module Walks {
  import opened Lists

  /** Follows the relation `k` times from `x`; None once there is no successor. */
  ghost function Walk<T>(m: map<T, T>, x: T, k: nat): Option<T> {
    if k == 0 then Some(x)
    else
      var y := Walk(m, x, k - 1);
      if y.Some? && y.value in m then Some(m[y.value]) else None
  }

  ghost predicate OnCycle<T>(m: map<T, T>, x: T) {
    exists k: nat :: k >= 1 && Walk(m, x, k) == Some(x)
  }

  ghost predicate ReachesCycle<T(!new)>(m: map<T, T>, x: T) {
    exists k: nat, y :: Walk(m, x, k) == Some(y) && OnCycle(m, y)
  }

  ghost predicate Acyclic<T(!new)>(m: map<T, T>) {
    forall x :: x in m ==> !OnCycle(m, x)
  }

  /** Every element of `held` has a successor, which `held` holds too. */
  ghost predicate Stuck<T>(m: map<T, T>, held: set<T>) {
    forall x :: x in held ==> x in m && m[x] in held
  }

  lemma {:induction false} WalkAdds<T>(m: map<T, T>, x: T, i: nat, j: nat)
    requires Walk(m, x, i).Some?
    ensures Walk(m, x, i + j) == Walk(m, Walk(m, x, i).value, j)
  {
    if j != 0 {
      WalkAdds(m, x, i, j - 1);
    }
  }

  lemma {:induction false} WalkStaysHeld<T>(m: map<T, T>, held: set<T>, x: T, k: nat)
    requires Stuck(m, held) && x in held
    ensures Walk(m, x, k).Some? && Walk(m, x, k).value in held
  {
    if k != 0 {
      WalkStaysHeld(m, held, x, k - 1);
    }
  }

  /** A walk that never leaves a finite set runs into a cycle. */
  lemma StuckReachesCycle<T(!new)>(m: map<T, T>, held: set<T>, x: T) returns (i: nat, j: nat)
    requires Stuck(m, held) && x in held
    ensures i < j && Walk(m, x, i).Some? && Walk(m, x, i) == Walk(m, x, j)
    ensures OnCycle(m, Walk(m, x, i).value) && Walk(m, x, i).value in held
    ensures ReachesCycle(m, x)
  {
    forall k: nat ensures Walk(m, x, k).Some? && Walk(m, x, k).value in held {
      WalkStaysHeld(m, held, x, k);
    }
    var trail := seq(|held| + 1, k requires 0 <= k => Walk(m, x, k).value);
    i, j := Pigeonhole(trail, held);
    assert trail[i] == Walk(m, x, i).value && trail[j] == Walk(m, x, j).value;
    WalkAdds(m, x, i, j - i);
  }

  lemma {:induction false} WalkBack<T>(m: map<T, T>, x: T, i: nat, j: nat)
    requires Injective(m)
    requires i <= j && Walk(m, x, i).Some? && Walk(m, x, i) == Walk(m, x, j)
    ensures Walk(m, x, j - i) == Some(x)
  {
    if i != 0 {
      WalkBack(m, x, i - 1, j - 1);
    }
  }

  /** With distinct successors a trail cannot join a cycle from outside. */
  lemma StuckIsOnCycle<T(!new)>(m: map<T, T>, held: set<T>, x: T)
    requires Injective(m)
    requires Stuck(m, held) && x in held
    ensures OnCycle(m, x)
  {
    var i, j := StuckReachesCycle(m, held, x);
    WalkBack(m, x, i, j);
  }

  /** Whoever reaches a cycle has a successor, which reaches the cycle too. */
  lemma ReachesCycleStep<T(!new)>(m: map<T, T>, x: T)
    requires ReachesCycle(m, x)
    ensures x in m && ReachesCycle(m, m[x])
  {
    var k: nat, y :| Walk(m, x, k) == Some(y) && OnCycle(m, y);
    var c: nat :| c >= 1 && Walk(m, y, c) == Some(y);
    WalkAdds(m, x, k, c);
    assert Walk(m, x, k + c) == Some(y);
    WalkDefined(m, x, k + c);
    WalkAdds(m, x, 1, k + c - 1);
    assert Walk(m, x, 1) == Some(m[x]);
    assert Walk(m, m[x], k + c - 1) == Some(y);
  }

  lemma {:induction false} WalkDefined<T>(m: map<T, T>, x: T, k: nat)
    requires k >= 1 && Walk(m, x, k).Some?
    ensures x in m && Walk(m, x, 1) == Some(m[x])
  {
    if k > 1 {
      WalkDefined(m, x, k - 1);
    }
    assert Walk(m, x, 0) == Some(x);
  }

  lemma CycleReachesItself<T(!new)>(m: map<T, T>, x: T)
    requires OnCycle(m, x)
    ensures ReachesCycle(m, x) && x in m
  {
    assert Walk(m, x, 0) == Some(x);
    ReachesCycleStep(m, x);
  }
}
