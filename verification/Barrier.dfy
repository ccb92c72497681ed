/** The hand-written uv_barrier_wait of src/thread-common.c, for any number of threads.

    A step is what one thread does while it holds the mutex: from the call, or from waking up, to
    the next wait or to the return.  Sleepers may wake at any time without a reason. */
module Barrier {
  import opened Runs

  /** In the first wait loop, or in the second; awake ones are waiting for the mutex. */
  datatype Thread = Away | Gate(asleep: bool) | Inner(asleep: bool)

  /** `incoming` and `outgoing` are the counters `in` and `out`.  `gens` says into which generation
      each thread was last counted.  `entered`, `left` and `ones` count, for each generation so far,
      the threads counted into it, their returns, and their returns of 1. */
  datatype State = State(threshold: nat, incoming: nat, outgoing: nat, threads: seq<Thread>,
                         gens: seq<nat>, entered: seq<nat>, left: seq<nat>, ones: seq<nat>)

  datatype Step = Call(i: nat) | Resume(i: nat) | SpuriousWake(i: nat)

  // ---------- Steps ----------

  function Awake(t: Thread): Thread {
    match t case Away => Away case Gate(_) => Gate(false) case Inner(_) => Inner(false)
  }

  /** uv_cond_broadcast */
  function WakeAll(ts: seq<Thread>): (r: seq<Thread>)
    ensures |r| == |ts| && forall k | 0 <= k < |ts| :: r[k] == Awake(ts[k])
  {
    seq(|ts|, k requires 0 <= k < |ts| => Awake(ts[k]))
  }

  function Bump(counts: seq<nat>, g: nat): seq<nat>
    requires g < |counts|
  {
    counts[g := counts[g] + 1]
  }

  predicate HasHistory(s: State) {
    && |s.gens| == |s.threads| && s.entered != [] && |s.left| == |s.entered| && |s.ones| == |s.entered|
    && forall k | 0 <= k < |s.gens| :: s.gens[k] < |s.entered|
  }

  /** Lines 114-119: the thread returns in the generation it was counted into. */
  function Leave(s: State, i: nat): State
    requires i < |s.threads| && s.outgoing > 0 && HasHistory(s)
  {
    var g := s.gens[i];
    var q := s.(outgoing := s.outgoing - 1, threads := s.threads[i := Away], left := Bump(s.left, g));
    if q.outgoing > 0 then q
    else q.(threads := WakeAll(q.threads), entered := q.entered + [0], left := q.left + [0],
        ones := Bump(q.ones, g) + [0])
  }

  /** The thread is counted into the current generation. */
  function CountedIn(s: State, i: nat): State
    requires i < |s.threads| && HasHistory(s)
  {
    var g := |s.entered| - 1;
    s.(incoming := s.incoming + 1, gens := s.gens[i := g], entered := Bump(s.entered, g))
  }

  /** Lines 101-112, up to the second wait or the return. */
  function PassGate(s: State, i: nat): State
    requires i < |s.threads| && HasHistory(s) && s.threshold > 0
  {
    if s.outgoing != 0 then s.(threads := s.threads[i := Gate(true)])
    else
      var q := CountedIn(s, i);
      if q.incoming != q.threshold then q.(threads := q.threads[i := Inner(true)])
      else Leave(q.(incoming := 0, outgoing := q.threshold, threads := WakeAll(q.threads)), i)
  }

  /** What a thread can do next; `CanResume` shows that a woken thread always can. */
  predicate Enabled(s: State, a: Step) {
    && HasHistory(s) && s.threshold > 0
    && match a
      case Call(i) => i < |s.threads| && s.threads[i] == Away
      case Resume(i) =>
          i < |s.threads| && (s.threads[i] == Gate(false)
          || (s.threads[i] == Inner(false) && s.incoming + s.outgoing > 0))
      case SpuriousWake(i) => i < |s.threads|
  }

  function Apply(s: State, a: Step): State
    requires Enabled(s, a)
  {
    match a
    case Call(i) => PassGate(s, i)
    case Resume(i) =>
      if s.threads[i].Gate? then PassGate(s, i)
      else if s.incoming != 0 then s.(threads := s.threads[i := Inner(true)])
      else Leave(s, i)
    case SpuriousWake(i) => s.(threads := s.threads[i := Awake(s.threads[i])])
  }

  // ---------- The invariant ----------

  function InnerCount(ts: seq<Thread>): nat {
    if ts == [] then 0 else InnerCount(ts[..|ts| - 1]) + if ts[|ts| - 1].Inner? then 1 else 0
  }

  function PresentCount(ts: seq<Thread>): nat {
    if ts == [] then 0 else PresentCount(ts[..|ts| - 1]) + if ts[|ts| - 1].Away? then 0 else 1
  }

  /** Threads in the second loop belong to the current generation. */
  predicate Together(s: State) {
    match HasHistory(s)
    case true => forall k | 0 <= k < |s.threads| && s.threads[k].Inner? :: s.gens[k] == |s.entered| - 1
    case false => false
  }

  predicate HistoryOk(s: State) {
    var g := |s.entered| - 1;
    && g >= 0 && |s.left| == g + 1 && |s.ones| == g + 1
    && (forall h | 0 <= h < g :: s.entered[h] == s.threshold && s.left[h] == s.threshold && s.ones[h] == 1)
    && s.ones[g] == 0
    && if s.outgoing == 0 then s.entered[g] == s.incoming && s.left[g] == 0
       else s.entered[g] == s.threshold && s.left[g] == s.threshold - s.outgoing
  }

  predicate Inv(s: State) {
    && s.threshold > 0 && s.incoming < s.threshold && s.outgoing < s.threshold && (s.outgoing > 0 ==> s.incoming == 0)
    && InnerCount(s.threads) == s.incoming + s.outgoing
    && (forall i | 0 <= i < |s.threads| && s.threads[i] == Gate(true) :: s.outgoing > 0)
    && (forall i | 0 <= i < |s.threads| && s.threads[i] == Inner(true) :: s.incoming > 0)
    && HistoryOk(s) && Together(s)
  }

  lemma {:induction false} CountSet(ts: seq<Thread>, i: nat, t: Thread)
    requires i < |ts|
    ensures InnerCount(ts[i := t]) == InnerCount(ts) - (if ts[i].Inner? then 1 else 0) + (if t.Inner? then 1 else 0)
  {
    var last := |ts| - 1;
    if i < last {
      CountSet(ts[..last], i, t);
      assert ts[i := t][..last] == ts[..last][i := t];
    } else {
      assert ts[i := t][..last] == ts[..last];
    }
  }

  lemma {:induction false} CountWake(ts: seq<Thread>)
    ensures InnerCount(WakeAll(ts)) == InnerCount(ts)
  {
    if ts != [] {
      var last := |ts| - 1;
      CountWake(ts[..last]);
      assert WakeAll(ts)[..last] == WakeAll(ts[..last]);
    }
  }

  lemma {:induction false} InnerMembers(ts: seq<Thread>)
    ensures InnerCount(ts) > 0 <==> Inner(true) in ts || Inner(false) in ts
  {
    if ts != [] {
      var last := |ts| - 1;
      InnerMembers(ts[..last]);
      assert ts == ts[..last] + [ts[last]];
    }
  }

  /** One of the threads of a complete generation may go. */
  predicate Leaving(s: State, i: nat) {
    && i < |s.threads| && 0 < s.outgoing <= s.threshold && s.incoming == 0 && HistoryOk(s)
    && Together(s) && s.gens[i] == |s.entered| - 1
    && InnerCount(s.threads[i := Away]) == s.outgoing - 1
    && (forall k | 0 <= k < |s.threads| && k != i ::
        s.threads[k] != Inner(true) && (s.outgoing == s.threshold ==> s.threads[k] != Gate(true)))
  }

  lemma {:induction false} LeaveInv(s: State, i: nat)
    requires Leaving(s, i)
    ensures Inv(Leave(s, i))
  {
    if s.outgoing > 1 { LeaveEarlier(s, i); } else { LeaveLast(s, i); }
  }

  lemma {:induction false} LeaveEarlier(s: State, i: nat)
    requires Leaving(s, i) && s.outgoing > 1
    ensures Inv(Leave(s, i))
  {
  }

  lemma {:induction false} LeaveLast(s: State, i: nat)
    requires Leaving(s, i) && s.outgoing == 1
    ensures Inv(Leave(s, i))
  {
    var q := Leave(s, i);
    CountWake(s.threads[i := Away]);
    InnerMembers(q.threads);
    assert HistoryOk(q);
    forall k | 0 <= k < |q.threads| ensures !q.threads[k].Inner? { assert q.threads[k] in q.threads; }
  }

  lemma {:induction false} PassInv(s: State, i: nat)
    requires Inv(s) && i < |s.threads| && !s.threads[i].Inner?
    ensures Inv(PassGate(s, i))
  {
    CountSet(s.threads, i, Gate(true));
    CountSet(s.threads, i, Inner(true));
    if s.outgoing == 0 && s.incoming + 1 == s.threshold { TripInv(s, i); }
  }

  /** The last thread of a generation arrives. */
  lemma {:induction false} TripInv(s: State, i: nat)
    requires Inv(s) && i < |s.threads| && !s.threads[i].Inner? && s.outgoing == 0 && s.incoming + 1 == s.threshold
    ensures Inv(PassGate(s, i))
  {
    var q := CountedIn(s, i).(incoming := 0, outgoing := s.threshold, threads := WakeAll(s.threads));
    TripLeaves(s, i, q);
    LeaveInv(q, i);
  }

  lemma {:induction false} TripLeaves(s: State, i: nat, q: State)
    requires Inv(s) && i < |s.threads| && !s.threads[i].Inner? && s.outgoing == 0 && s.incoming + 1 == s.threshold
    requires q == CountedIn(s, i).(incoming := 0, outgoing := s.threshold, threads := WakeAll(s.threads))
    ensures Leaving(q, i) && PassGate(s, i) == Leave(q, i)
  {
    CountWake(s.threads);
    CountSet(q.threads, i, Away);
    TripHistory(s, q);
  }

  lemma {:induction false} TripHistory(s: State, q: State)
    requires HistoryOk(s) && s.outgoing == 0 && s.incoming + 1 == s.threshold
    requires q.entered == Bump(s.entered, |s.entered| - 1) && q.left == s.left && q.ones == s.ones
        && q.threshold == s.threshold && q.outgoing == s.threshold
    ensures HistoryOk(q)
  {
  }

  lemma {:induction false} StepInv(s: State, a: Step)
    requires Inv(s) && Enabled(s, a)
    ensures Inv(Apply(s, a))
  {
    match a
    case Call(i) => PassInv(s, i);
    case Resume(i) =>
      CountSet(s.threads, i, Inner(true));
      CountSet(s.threads, i, Away);
      if s.threads[i].Gate? { PassInv(s, i); } else if s.incoming == 0 { LeaveInv(s, i); }
    case SpuriousWake(i) => CountSet(s.threads, i, Awake(s.threads[i]));
  }

  lemma {:induction false} CanResume(s: State, i: nat)
    requires Inv(s) && i < |s.threads| && s.threads[i] in {Gate(false), Inner(false)}
    ensures Enabled(s, Resume(i))
  {
    InnerMembers(s.threads);
    assert s.threads[i] in s.threads;
  }

  // ---------- What holds in every run ----------

  function Start(threshold: nat, n: nat): State {
    State(threshold, 0, 0, seq(n, i => Away), seq(n, i => 0), [0], [0], [0])
  }

  lemma {:induction false} StartInv(threshold: nat, n: nat)
    requires threshold > 0
    ensures Inv(Start(threshold, n))
  {
    NobodyInside(n);
  }

  lemma {:induction false} NobodyInside(n: nat)
    ensures InnerCount(seq(n, i => Away)) == 0
  {
    if n > 0 {
      NobodyInside(n - 1);
      assert seq(n, i => Away)[..n - 1] == seq(n - 1, i => Away);
    }
  }

  ghost predicate Next(p: State, a: Step, q: State) { Enabled(p, a) && q == Apply(p, a) }

  ghost predicate Run(threshold: nat, n: nat, steps: seq<Step>, trace: seq<State>) {
    IsRun(Start(threshold, n), Next, steps, trace)
  }

  lemma {:induction false} RunInv(threshold: nat, n: nat, steps: seq<Step>, trace: seq<State>, k: nat)
    requires threshold > 0 && Run(threshold, n, steps, trace) && k < |trace|
    ensures Inv(trace[k]) && trace[k].threshold == threshold
  {
    var inv := (p: State) => Inv(p) && p.threshold == threshold;
    StartInv(threshold, n);
    forall p: State, a: Step, q: State | inv(p) && Next(p, a, q) ensures inv(q) { StepInv(p, a); }
    Invariant(Start(threshold, n), Next, inv, steps, trace, k);
    assert inv(trace[k]);
  }

  /** In every run: a thread leaves a generation only after `threshold` threads were counted into
      it; no thread is counted into the next one before all of them have left; and exactly one of
      them returned 1, which is known as soon as all have left. */
  lemma {:induction false} Generations(threshold: nat, n: nat, steps: seq<Step>, trace: seq<State>, k: nat, g: nat)
    requires threshold > 0 && Run(threshold, n, steps, trace) && k < |trace| && g < |trace[k].entered|
    ensures var s := trace[k];
      && |s.left| == |s.entered| == |s.ones|
      && s.entered[g] <= threshold
      && (s.left[g] > 0 ==> s.entered[g] == threshold)
      && (g + 1 < |s.entered| ==> s.left[g] == threshold)
      && s.ones[g] == (if s.left[g] == threshold then 1 else 0)
  {
    RunInv(threshold, n, steps, trace, k);
  }

  /** In every run: a thread that returns was counted into a complete generation, and its return is
      counted there and nowhere else. */
  lemma {:induction false} ReturnsInOwn(threshold: nat, n: nat, steps: seq<Step>, trace: seq<State>, k: nat, i: nat)
    requires threshold > 0 && Run(threshold, n, steps, trace) && k < |steps| && i < |trace[k].threads|
    requires trace[k].threads[i].Inner? && i < |trace[k + 1].threads| && trace[k + 1].threads[i] == Away
    ensures var s, t := trace[k], trace[k + 1];
      && |s.gens| == |s.threads| && s.gens[i] < |s.entered| == |s.left| <= |t.left| == |t.ones|
      && s.entered[s.gens[i]] == threshold
      && t.left[..|s.left|] == s.left[s.gens[i] := s.left[s.gens[i]] + 1]
      && (t.ones[s.gens[i]] == 1 <==> t.left[s.gens[i]] == threshold)
  {
    RunInv(threshold, n, steps, trace, k);
    RunInv(threshold, n, steps, trace, k + 1);
    assert Next(trace[k], steps[k], trace[k + 1]);
    ReturnStep(trace[k], steps[k], i);
  }

  lemma {:induction false} ReturnStep(s: State, a: Step, i: nat)
    requires Inv(s) && Enabled(s, a) && i < |s.threads| && s.threads[i].Inner?
    requires i < |Apply(s, a).threads| && Apply(s, a).threads[i] == Away
    ensures a == Resume(i) && Apply(s, a) == Leave(s, i) && s.outgoing > 0
  {
  }

  /** No wake-up is lost: whenever at least `threshold` threads are in uv_barrier_wait, one of them
      is awake; and nobody sleeps whose condition holds. */
  lemma {:induction false} NeverStuck(threshold: nat, n: nat, steps: seq<Step>, trace: seq<State>, k: nat)
    requires threshold > 0 && Run(threshold, n, steps, trace) && k < |trace|
    ensures var s := trace[k];
      && (Gate(true) in s.threads ==> s.outgoing != 0)
      && (Inner(true) in s.threads ==> s.incoming != 0)
      && (PresentCount(s.threads) >= threshold ==> Gate(false) in s.threads || Inner(false) in s.threads)
  {
    RunInv(threshold, n, steps, trace, k);
    var s := trace[k];
    InnerMembers(s.threads);
    if Gate(false) !in s.threads && Gate(true) !in s.threads { OnlyInner(s.threads); }
  }

  lemma {:induction false} OnlyInner(ts: seq<Thread>)
    requires Gate(false) !in ts && Gate(true) !in ts
    ensures PresentCount(ts) == InnerCount(ts)
  {
    if ts != [] {
      var t := ts[|ts| - 1];
      assert t in ts;
      OnlyInner(ts[..|ts| - 1]);
    }
  }

  // ---------- The program ----------

  class Barrier {
    const threshold: nat
    var incoming: nat
    var outgoing: nat
    var threads: seq<Thread>
    ghost var gens: seq<nat>
    ghost var entered: seq<nat>
    ghost var left: seq<nat>
    ghost var ones: seq<nat>

    ghost function View(): State
      reads this
    {
      State(threshold, incoming, outgoing, threads, gens, entered, left, ones)
    }

    /** uv_barrier_init */
    constructor (count: nat, n: nat)
      ensures View() == Start(count, n)
    {
      threshold, incoming, outgoing, threads := count, 0, 0, seq(n, i => Away);
      gens, entered, left, ones := seq(n, i => 0), [0], [0], [0];
    }

    /** uv_barrier_wait from the first loop to the next wait or to the return. */
    method FromGate(i: nat) returns (returned: bool, last: bool)
      requires i < |threads| && HasHistory(View()) && threshold > 0
      modifies this
      ensures View() == PassGate(old(View()), i)
      ensures returned <==> old(outgoing) == 0 && old(incoming) + 1 == threshold
      ensures returned ==> (last <==> threshold == 1)
    {
      returned, last := false, false;
      if outgoing != 0 {
        threads := threads[i := Gate(true)];
        return;
      }
      incoming := incoming + 1;
      gens := gens[i := |entered| - 1];
      entered := Bump(entered, |entered| - 1);
      if incoming == threshold {
        incoming := 0;
        outgoing := threshold;
        threads := WakeAll(threads);
      } else {
        threads := threads[i := Inner(true)];
        return;
      }
      last := Return(i);
      returned := true;
    }

    /** uv_barrier_wait from waking up in the second loop. */
    method FromInner(i: nat) returns (returned: bool, last: bool)
      requires Enabled(View(), Resume(i)) && threads[i].Inner?
      modifies this
      ensures View() == Apply(old(View()), Resume(i))
      ensures returned <==> old(incoming) == 0
      ensures returned ==> (last <==> old(outgoing) == 1)
    {
      returned, last := false, false;
      if incoming != 0 {
        threads := threads[i := Inner(true)];
        return;
      }
      last := Return(i);
      returned := true;
    }

    /** Lines 114-119 */
    method Return(i: nat) returns (last: bool)
      requires i < |threads| && outgoing > 0 && HasHistory(View())
      modifies this
      ensures View() == Leave(old(View()), i) && (last <==> old(outgoing) == 1)
    {
      outgoing := outgoing - 1;
      last := outgoing == 0;
      threads := threads[i := Away];
      left := Bump(left, gens[i]);
      if last {
        threads := WakeAll(threads);
        entered, left, ones := entered + [0], left + [0], Bump(ones, gens[i]) + [0];
      }
    }
  }
}
