/** Runs of a state machine: what every step keeps, every reachable state has. */
module Runs {

  ghost predicate IsRun<S(!new), A(!new)>(init: S, next: (S, A, S) -> bool, actions: seq<A>, trace: seq<S>) {
    && |trace| == |actions| + 1 && trace[0] == init
    && forall k | 0 <= k < |actions| :: next(trace[k], actions[k], trace[k + 1])
  }

  /** An inductive invariant holds in every state of every run. */
  lemma {:induction false} Invariant<S(!new), A(!new)>(init: S, next: (S, A, S) -> bool,
      inv: S -> bool, actions: seq<A>, trace: seq<S>, k: nat)
    requires IsRun(init, next, actions, trace) && k < |trace|
    requires inv(init) && forall p, a, q :: inv(p) && next(p, a, q) ==> inv(q)
    ensures inv(trace[k])
  {
    if k > 0 {
      Invariant(init, next, inv, actions, trace, k - 1);
      assert next(trace[k - 1], actions[k - 1], trace[k]);
    }
  }

  /** A preorder that every step respects relates every two states of a run, in order. */
  lemma {:induction false} Monotone<S(!new), A(!new)>(init: S, next: (S, A, S) -> bool,
      leq: (S, S) -> bool, actions: seq<A>, trace: seq<S>, j: nat, k: nat)
    requires IsRun(init, next, actions, trace) && j <= k < |trace|
    requires (forall p :: leq(p, p)) && (forall p, q, r :: leq(p, q) && leq(q, r) ==> leq(p, r))
    requires forall p, a, q :: next(p, a, q) ==> leq(p, q)
    ensures leq(trace[j], trace[k])
  {
    if j < k {
      Monotone(init, next, leq, actions, trace, j, k - 1);
      assert next(trace[k - 1], actions[k - 1], trace[k]);
    }
  }

  /** A measure that every marked step lowers bounds the length of a stretch of marked steps. */
  lemma {:induction false} Bounded<S(!new), A(!new)>(init: S, next: (S, A, S) -> bool,
      inv: S -> bool, effort: S -> int, marked: A -> bool,
      actions: seq<A>, trace: seq<S>, j: nat, k: nat)
    requires IsRun(init, next, actions, trace) && j <= k < |trace|
    requires inv(init) && forall p, a, q :: inv(p) && next(p, a, q) ==> inv(q)
    requires forall p, a, q :: inv(p) && next(p, a, q) && marked(a) ==> effort(q) < effort(p)
    requires forall i | j <= i < k :: marked(actions[i])
    ensures k - j <= effort(trace[j]) - effort(trace[k])
  {
    if j < k {
      Bounded(init, next, inv, effort, marked, actions, trace, j, k - 1);
      Invariant(init, next, inv, actions, trace, k - 1);
      assert next(trace[k - 1], actions[k - 1], trace[k]);
    }
  }

  /** A preorder that every step from a reachable state respects relates every two states of a run, in order. */
  lemma {:induction false} Related<S(!new), A(!new)>(init: S, next: (S, A, S) -> bool,
      inv: S -> bool, leq: (S, S) -> bool, actions: seq<A>, trace: seq<S>, j: nat, k: nat)
    requires IsRun(init, next, actions, trace) && j <= k < |trace|
    requires inv(init) && forall p, a, q :: inv(p) && next(p, a, q) ==> inv(q)
    requires (forall p :: leq(p, p)) && (forall p, q, r :: leq(p, q) && leq(q, r) ==> leq(p, r))
    requires forall p, a, q :: inv(p) && next(p, a, q) ==> leq(p, q)
    ensures leq(trace[j], trace[k])
  {
    if j < k {
      Related(init, next, inv, leq, actions, trace, j, k - 1);
      Invariant(init, next, inv, actions, trace, k - 1);
      assert next(trace[k - 1], actions[k - 1], trace[k]);
    }
  }

  /** What steps j to k - 1 of a run record, each adding to the record before it. */
  ghost function Fold<S(!new), A(!new), H>(record: (S, A, S, H) -> H, start: H, actions: seq<A>, trace: seq<S>,
      j: nat, k: nat): H
    requires j <= k < |trace| && |trace| == |actions| + 1
  {
    if j == k then start
    else record(trace[k - 1], actions[k - 1], trace[k], Fold(record, start, actions, trace, j, k - 1))
  }

  /** What every step keeps between the state and the record holds at the end of every stretch of a run. */
  lemma {:induction false} History<S(!new), A(!new), H(!new)>(init: S, next: (S, A, S) -> bool,
      inv: S -> bool, record: (S, A, S, H) -> H, start: H, fits: (S, H) -> bool,
      actions: seq<A>, trace: seq<S>, j: nat, k: nat)
    requires IsRun(init, next, actions, trace) && j <= k < |trace|
    requires inv(init) && forall p, a, q :: inv(p) && next(p, a, q) ==> inv(q)
    requires fits(trace[j], start)
    requires forall p, a, q, h :: inv(p) && next(p, a, q) && fits(p, h) ==> fits(q, record(p, a, q, h))
    ensures fits(trace[k], Fold(record, start, actions, trace, j, k))
  {
    if j < k {
      History(init, next, inv, record, start, fits, actions, trace, j, k - 1);
      Invariant(init, next, inv, actions, trace, k - 1);
      assert next(trace[k - 1], actions[k - 1], trace[k]);
    }
  }
}
