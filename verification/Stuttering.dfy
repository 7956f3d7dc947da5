/**
  Stuttering simulation: a concrete machine whose silent steps lower a rank and keep the abstract
  state, and whose other steps take one abstract step, runs through exactly the abstract run.
*/
module Stuttering {
  function Iterate<T>(f: T -> T, x: T, n: nat): T {
    if n == 0 then x else f(Iterate(f, x, n - 1))
  }

  ghost predicate SimulatesAt<C(!new), A(!new)>(step: C -> C, inv: C -> bool, rank: C -> nat, abs: C -> A, absStep: A -> A, c: C) {
    inv(c) ==>
      && inv(step(c))
      && if rank(c) > 0 then rank(step(c)) < rank(c) && abs(step(c)) == abs(c)
         else abs(step(c)) == absStep(abs(c))
  }

  ghost predicate Simulates<C(!new), A(!new)>(step: C -> C, inv: C -> bool, rank: C -> nat, abs: C -> A, absStep: A -> A) {
    forall c: C :: SimulatesAt(step, inv, rank, abs, absStep, c)
  }

  /** Safety: every concrete state stands for a state of the abstract run, no further along. */
  lemma {:induction false} Safety<C(!new), A(!new)>(step: C -> C, inv: C -> bool, rank: C -> nat, abs: C -> A, absStep: A -> A, c: C, k: nat)
    returns (n: nat)
    requires Simulates(step, inv, rank, abs, absStep) && inv(c)
    ensures n <= k && inv(Iterate(step, c, k))
    ensures abs(Iterate(step, c, k)) == Iterate(absStep, abs(c), n)
  {
    if k == 0 {
      n := 0;
    } else {
      n := Safety(step, inv, rank, abs, absStep, c, k - 1);
      assert SimulatesAt(step, inv, rank, abs, absStep, Iterate(step, c, k - 1));
      if rank(Iterate(step, c, k - 1)) == 0 {
        n := n + 1;
      }
    }
  }

  /** The silent steps before the next abstract step run out. */
  lemma {:induction false} Drain<C(!new), A(!new)>(step: C -> C, inv: C -> bool, rank: C -> nat, abs: C -> A, absStep: A -> A, c: C, k: nat)
    returns (j: nat)
    requires Simulates(step, inv, rank, abs, absStep) && inv(Iterate(step, c, k))
    ensures k <= j <= k + rank(Iterate(step, c, k))
    ensures inv(Iterate(step, c, j)) && rank(Iterate(step, c, j)) == 0
    ensures abs(Iterate(step, c, j)) == abs(Iterate(step, c, k))
    decreases rank(Iterate(step, c, k))
  {
    if rank(Iterate(step, c, k)) == 0 {
      j := k;
    } else {
      assert SimulatesAt(step, inv, rank, abs, absStep, Iterate(step, c, k));
      assert Iterate(step, c, k + 1) == step(Iterate(step, c, k));
      j := Drain(step, inv, rank, abs, absStep, c, k + 1);
    }
  }

  /** Progress: every abstract state is reached, within `bound` silent steps for each abstract one. */
  lemma {:induction false} Progress<C(!new), A(!new)>(step: C -> C, inv: C -> bool, rank: C -> nat, abs: C -> A, absStep: A -> A, c: C, n: nat, bound: nat)
    returns (k: nat)
    requires Simulates(step, inv, rank, abs, absStep) && inv(c)
    requires forall d: C :: rank(d) <= bound
    ensures k <= (bound + 1) * n && inv(Iterate(step, c, k))
    ensures abs(Iterate(step, c, k)) == Iterate(absStep, abs(c), n)
  {
    if n == 0 {
      k := 0;
    } else {
      var i := Progress(step, inv, rank, abs, absStep, c, n - 1, bound);
      var j := Drain(step, inv, rank, abs, absStep, c, i);
      assert SimulatesAt(step, inv, rank, abs, absStep, Iterate(step, c, j));
      k := j + 1;
      assert (bound + 1) * n == (bound + 1) * (n - 1) + bound + 1;
    }
  }
}
