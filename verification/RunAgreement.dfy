/**
  Two runs of bodies side by side: one whose states carry more than a position, and one over
  positions. They log the same bodies for as long as every step of the first goes where the
  second goes, and part for good at its first step that does not.
*/
module RunAgreement {
  import opened Options
  import opened ParagraphLabels
  import opened ParagraphFlow
  import opened Stuttering

  /** Steps of both runs, the position a state stands for, which states occur, and which step right. */
  datatype Pair<!A> = Pair(
    stepA: Run<A> -> Run<A>, stepB: Run<nat> -> Run<nat>, position: A -> nat, idOf: nat -> Id,
    validA: Run<A> -> bool, validB: Run<nat> -> bool, right: Run<A> -> bool)

  ghost function View<A>(m: Pair<A>, r: Run<A>): Run<nat> {
    Run(if r.next.Some? then Some(m.position(r.next.value)) else None, r.trace)
  }

  ghost predicate StepsA<A(!new)>(m: Pair<A>, r: Run<A>) {
    m.validA(r) ==>
      && m.validA(m.stepA(r))
      && m.validB(View(m, r))
      && (if r.next.None? then m.stepA(r) == r
          else m.stepA(r).trace == r.trace + [m.idOf(m.position(r.next.value))])
      && (View(m, m.stepA(r)) == m.stepB(View(m, r)) <==> m.right(r))
      && (!m.right(r) ==> r.next.Some? && m.stepA(r).next.Some?)
  }

  ghost predicate StepsB<A>(m: Pair<A>, s: Run<nat>) {
    m.validB(s) ==>
      && m.validB(m.stepB(s))
      && (if s.next.None? then m.stepB(s) == s
          else m.stepB(s).trace == s.trace + [m.idOf(s.next.value)])
  }

  ghost predicate SameId<A>(m: Pair<A>, s: Run<nat>, s': Run<nat>) {
    m.validB(s) && m.validB(s') && s.next.Some? && s'.next.Some? ==>
      (m.idOf(s.next.value) == m.idOf(s'.next.value) ==> s.next == s'.next)
  }

  ghost predicate Comparable<A(!new)>(m: Pair<A>) {
    && (forall r :: StepsA(m, r))
    && (forall s :: StepsB(m, s))
    && (forall s, s' :: SameId(m, s, s'))
  }

  ghost function RunA<A>(m: Pair<A>, r: Run<A>, n: nat): Run<A> { Iterate(m.stepA, r, n) }

  ghost function RunB<A>(m: Pair<A>, s: Run<nat>, n: nat): Run<nat> { Iterate(m.stepB, s, n) }

  lemma {:induction false} StaysValidA<A(!new)>(m: Pair<A>, r: Run<A>, n: nat)
    requires Comparable(m) && m.validA(r)
    ensures m.validA(RunA(m, r, n))
  {
    if n > 0 {
      StaysValidA(m, r, n - 1);
      assert StepsA(m, RunA(m, r, n - 1));
    }
  }

  /** A later state of the second run has a longer trace, unless the run is over. */
  lemma {:induction false} ExtendsB<A(!new)>(m: Pair<A>, s: Run<nat>, n: nat, k: nat)
    requires Comparable(m) && m.validB(s) && s.trace == [] && n <= k
    ensures var a, b := RunB(m, s, n), RunB(m, s, k);
      && m.validB(a) && m.validB(b)
      && |a.trace| <= n
      && (a.next.Some? ==> |a.trace| == n)
      && a.trace <= b.trace
      && (a.next.None? ==> b == a)
    decreases k
  {
    if k > 0 {
      ExtendsB(m, s, if n == k then n - 1 else n, k - 1);
      var last := RunB(m, s, k - 1);
      assert StepsB(m, last);
      assert last.trace <= m.stepB(last).trace;
    }
  }

  /** As long as every step is right the two runs go through the same positions. */
  lemma {:induction false} SameWhileRight<A(!new)>(m: Pair<A>, r: Run<A>, n: nat)
    requires Comparable(m) && m.validA(r)
    requires forall j :: 0 <= j < n ==> m.right(RunA(m, r, j))
    ensures View(m, RunA(m, r, n)) == RunB(m, View(m, r), n)
  {
    if n > 0 {
      SameWhileRight(m, r, n - 1);
      StaysValidA(m, r, n - 1);
      assert StepsA(m, RunA(m, r, n - 1));
    }
  }

  /** The runs have logged the same, and the first is about to run a body that is not the second's next. */
  ghost predicate Parted<A(!new)>(m: Pair<A>, r: Run<A>, n: nat) {
    var a, b := RunA(m, r, n), RunB(m, View(m, r), n);
    m.validA(a) && a.next.Some? && a.trace == b.trace && b.next != Some(m.position(a.next.value))
  }

  lemma {:induction false} FirstWrongStepParts<A(!new)>(m: Pair<A>, r: Run<A>, j: nat)
    requires Comparable(m) && m.validA(r)
    requires forall i :: 0 <= i < j ==> m.right(RunA(m, r, i))
    requires !m.right(RunA(m, r, j))
    ensures Parted(m, r, j + 1)
  {
    SameWhileRight(m, r, j);
    StaysValidA(m, r, j);
    StaysValidA(m, r, j + 1);
    var a := RunA(m, r, j);
    assert StepsA(m, a) && StepsB(m, View(m, a));
    assert RunA(m, r, j + 1) == m.stepA(a) && RunB(m, View(m, r), j + 1) == m.stepB(View(m, a));
  }

  lemma {:induction false} FirstWrongStep<A(!new)>(m: Pair<A>, r: Run<A>, n: nat) returns (j: nat)
    requires !m.right(RunA(m, r, n))
    ensures !m.right(RunA(m, r, j)) && forall i :: 0 <= i < j ==> m.right(RunA(m, r, i))
  {
    if i: nat :| i < n && !m.right(RunA(m, r, i)) {
      j := FirstWrongStep(m, r, i);
    } else {
      j := n;
    }
  }

  /** Once parted, the first run has logged something the second never logs. */
  lemma {:induction false} PartedForGood<A(!new)>(m: Pair<A>, r: Run<A>, n: nat, k: nat)
    requires Comparable(m) && m.validA(r) && r.trace == [] && Parted(m, r, n)
    ensures RunB(m, View(m, r), k).trace != RunA(m, r, n + 1).trace
  {
    var s := View(m, r);
    var a, b := RunA(m, r, n), RunB(m, s, n);
    assert StepsA(m, r);
    ExtendsB(m, s, n, n);
    ExtendsB(m, s, n + 1, n + 1);
    assert StepsA(m, a) && StepsB(m, b) && SameId(m, b, View(m, a));
    assert RunA(m, r, n + 1) == m.stepA(a) && RunB(m, s, n + 1) == m.stepB(b);
    var wrong := RunA(m, r, n + 1).trace;
    assert wrong[|a.trace|] == m.idOf(m.position(a.next.value));
    if b.next.Some? {
      assert RunB(m, s, n + 1).trace[|a.trace|] == m.idOf(b.next.value);
    }
    if k <= n {
      ExtendsB(m, s, k, n);
    } else {
      ExtendsB(m, s, n + 1, k);
    }
  }

  /** A wrong step shows: the first run comes to have logged something the second never logs. */
  lemma {:induction false} WrongStepShows<A(!new)>(m: Pair<A>, r: Run<A>, n: nat) returns (j: nat)
    requires Comparable(m) && m.validA(r) && r.trace == []
    requires !m.right(RunA(m, r, n))
    ensures forall k: nat :: RunB(m, View(m, r), k).trace != RunA(m, r, j).trace
  {
    var i := FirstWrongStep(m, r, n);
    FirstWrongStepParts(m, r, i);
    forall k: nat ensures RunB(m, View(m, r), k).trace != RunA(m, r, i + 2).trace {
      PartedForGood(m, r, i + 1, k);
    }
    j := i + 2;
  }
}
