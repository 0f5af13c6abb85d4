/** Walks with no bound: repeating a partial step from a starting place. */
module Walks {
  import opened Basics
  import opened TableBytes

  /** The place after `k` steps, if that many can be taken. */
  ghost function Visit<S(!new)>(step: S -> Option<S>, start: S, k: nat): Option<S> {
    if k == 0 then Some(start)
    else match Visit(step, start, k - 1)
      case None => None
      case Some(p) => step(p)
  }

  /** The walk takes exactly `k` steps. */
  ghost predicate StopsAfter<S(!new)>(step: S -> Option<S>, start: S, k: nat) {
    var p := Visit(step, start, k);
    p.Some? && step(p.value).None?
  }

  lemma {:induction false} VisitedBefore<S(!new)>(step: S -> Option<S>, start: S, k: nat, j: nat)
    requires k <= j && Visit(step, start, j).Some?
    ensures Visit(step, start, k).Some?
    decreases j
  {
    if k < j {
      VisitedBefore(step, start, k, j - 1);
    }
  }

  /** After the walk has stopped there is no later place. */
  lemma {:induction false} NothingAfter<S(!new)>(step: S -> Option<S>, start: S, k: nat, j: nat)
    requires StopsAfter(step, start, k) && j > k
    ensures Visit(step, start, j) == None
    decreases j
  {
    if j > k + 1 {
      NothingAfter(step, start, k, j - 1);
    }
  }

  lemma StopsOnce<S(!new)>(step: S -> Option<S>, start: S, k: nat, j: nat)
    requires StopsAfter(step, start, k) && StopsAfter(step, start, j)
    ensures j == k
  {
    if j < k {
      NothingAfter(step, start, j, k);
    } else if k < j {
      NothingAfter(step, start, k, j);
    }
  }

  lemma {:induction false} SameFuture<S(!new)>(step: S -> Option<S>, start: S, i: nat, j: nat, d: nat)
    requires Visit(step, start, i) == Visit(step, start, j)
    ensures Visit(step, start, i + d) == Visit(step, start, j + d)
    decreases d
  {
    if d > 0 {
      SameFuture(step, start, i, j, d - 1);
    }
  }

  /** A walk that returns to one of its places goes on for ever. */
  lemma {:induction false} ClosedWalkNeverStops<S(!new)>(step: S -> Option<S>, start: S, i: nat, j: nat, k: nat)
    requires i < j && Visit(step, start, j).Some? && Visit(step, start, i) == Visit(step, start, j)
    ensures Visit(step, start, k).Some?
    decreases k
  {
    if k <= j {
      VisitedBefore(step, start, k, j);
    } else {
      ClosedWalkNeverStops(step, start, i, j, k - (j - i));
      SameFuture(step, start, i, j, k - j);
    }
  }

  // How long a walk can be without meeting one key twice.

  ghost predicate SameKey<S(!new), K>(step: S -> Option<S>, start: S, key: S -> K, i: nat, j: nat) {
    var p, q := Visit(step, start, i), Visit(step, start, j);
    p.Some? && q.Some? && key(p.value) == key(q.value)
  }

  /** Two of the first `n` places have one key. */
  ghost predicate Revisits<S(!new), K>(step: S -> Option<S>, start: S, key: S -> K, n: nat) {
    exists i, j :: 0 <= i < j < n && SameKey(step, start, key, i, j)
  }

  ghost predicate KeysIn<S(!new), K>(step: S -> Option<S>, start: S, key: S -> K, n: nat, all: set<K>) {
    forall i :: 0 <= i < n ==> Visit(step, start, i).Some? && key(Visit(step, start, i).value) in all
  }

  /** Pigeonhole: places with pairwise different keys out of `all` number at most `|all|`. */
  lemma {:induction false} Pigeonhole<S(!new), K>(step: S -> Option<S>, start: S, key: S -> K, n: nat, all: set<K>)
    requires KeysIn(step, start, key, n, all) && !Revisits(step, start, key, n)
    ensures n <= |all|
    decreases n
  {
    if n > 0 {
      var last := key(Visit(step, start, n - 1).value);
      var others := all - {last};
      assert forall i, j :: 0 <= i < j < n ==> !SameKey(step, start, key, i, j);
      assert KeysIn(step, start, key, n - 1, others) by {
        forall i | 0 <= i < n - 1
          ensures key(Visit(step, start, i).value) in others
        {
          assert !SameKey(step, start, key, i, n - 1);
        }
      }
      Pigeonhole(step, start, key, n - 1, others);
      assert last in all;
    }
  }
}
