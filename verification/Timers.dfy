/** src/timer.c: timers in a heap, and the pass that runs those that are due.

    `Loop` is the state as a value, with timers known by number; `TimerLoop` is the program, with
    handles and the linked heap.  Callbacks are arbitrary: a script says what each callback made in
    a pass does to any timers. */
module Timers {
  import opened Heap

  const U64_MAX := 0xFFFF_FFFF_FFFF_FFFF
  const INT_MAX := 0x7FFF_FFFF
  const UV_EINVAL := -22

  datatype Timer = Timer(timeout: nat, repeat: nat, startId: nat, hasCb: bool, active: bool, closing: bool)

  /** `ready` is the queue of the pass in progress; it is empty between passes. */
  datatype Loop = Loop(time: nat, counter: nat, timers: seq<Timer>, ready: seq<nat>)

  datatype Act = Start(hasCb: bool, timeout: nat, repeat: nat) | Stop | Again | SetRepeat(interval: nat) | Close

  /** What a callback can do: call one of the timer functions on any timer, initialise a new timer, or
      update the clock. */
  datatype Op = Call(id: nat, act: Act) | Create | SetTime(time: nat)

  function Rank(t: Timer): Key { Key(t.timeout, t.startId) }

  // ---------- Single operations on values ----------

  /** What is left of a queue when the members of `s` are unlinked. */
  function Drop(q: seq<nat>, s: set<nat>): seq<nat> {
    if q == [] then [] else (if q[0] in s then [] else [q[0]]) + Drop(q[1..], s)
  }

  function Min(a: nat, b: nat): nat { if a <= b then a else b }

  predicate Known(s: Loop, id: nat) { id < |s.timers| }

  function Stopped(s: Loop, id: nat): Loop
    requires Known(s, id)
  {
    if s.timers[id].active then s.(timers := s.timers[id := s.timers[id].(active := false)])
        else s.(ready := Drop(s.ready, {id}))
  }

  /** The time saturates instead of wrapping. */
  function Armed(s: Loop, id: nat, timeout: nat, repeat: nat): Loop
    requires Known(s, id)
  {
    s.(counter := s.counter + 1, timers := s.timers[id := Timer(Min(s.time + timeout, U64_MAX), repeat, s.counter,
        true, true, false)])
  }

  function Started(s: Loop, id: nat, hasCb: bool, timeout: nat, repeat: nat): Loop
    requires Known(s, id)
  {
    var t := s.timers[id];
    if t.closing || !hasCb then s
    else Armed(Stopped(s, id), id, timeout, repeat)
  }

  function Restarted(s: Loop, id: nat): Loop
    requires Known(s, id)
  {
    var t := s.timers[id];
    if t.hasCb && t.repeat != 0 then Started(Stopped(s, id), id, t.hasCb, t.repeat, t.repeat) else s
  }

  function Closed(s: Loop, id: nat): Loop
    requires Known(s, id)
  {
    Stopped(s.(timers := s.timers[id := s.timers[id].(closing := true)]), id)
  }

  function Acted(s: Loop, id: nat, act: Act): Loop
    requires Known(s, id)
  {
    match act
    case Start(hasCb, timeout, repeat) => Started(s, id, hasCb, timeout, repeat)
    case Stop => Stopped(s, id)
    case Again => Restarted(s, id)
    case SetRepeat(interval) => s.(timers := s.timers[id := s.timers[id].(repeat := interval)])
    case Close => Closed(s, id)
  }

  /** uv_timer_init */
  const NEW_TIMER := Timer(0, 0, 0, false, false, false)

  function Perform(s: Loop, op: Op): Loop {
    match op
    case Create => s.(timers := s.timers + [NEW_TIMER])
    case SetTime(time) => s.(time := time)
    case Call(id, act) => if Known(s, id) then Acted(s, id, act) else s
  }

  function PerformAll(s: Loop, ops: seq<Op>): Loop
    decreases |ops|
  {
    if ops == [] then s else PerformAll(Perform(s, ops[0]), ops[1..])
  }

  /** Whether a call stops, restarts or closes the timer. */
  predicate Unlinks(t: Timer, act: Act) {
    match act
    case Start(hasCb, _, _) => !t.closing && hasCb
    case Again => t.hasCb && t.repeat != 0
    case SetRepeat(_) => false
    case _ => true
  }

  function Touched(s: Loop, op: Op): set<nat> {
    match op
    case SetTime(_) => {}
    case Create => {}
    case Call(id, act) => if Known(s, id) && Unlinks(s.timers[id], act) then {id} else {}
  }

  /** The timers that operations stop, restart or close. */
  function TouchedAll(s: Loop, ops: seq<Op>): set<nat>
    decreases |ops|
  {
    if ops == [] then {} else Touched(s, ops[0]) + TouchedAll(Perform(s, ops[0]), ops[1..])
  }

  /** How many timers operations create. */
  function Created(ops: seq<Op>): nat
    decreases |ops|
  {
    if ops == [] then 0 else (if ops[0].Create? then 1 else 0) + Created(ops[1..])
  }

  function CreatedIn(script: seq<seq<Op>>): nat {
    if script == [] then 0 else Created(script[0]) + CreatedIn(script[1..])
  }

  // ---------- The pass on values ----------

  predicate IsFirst(s: Loop, id: nat) {
    Known(s, id) && s.timers[id].active && forall j | 0 <= j < |s.timers| && s.timers[j].active
        && j != id :: Less(Rank(s.timers[id]), Rank(s.timers[j]))
  }

  /** The active timer that comes first among 0..n-1, if any. */
  function Earliest(s: Loop, n: nat): (r: int)
    requires n <= |s.timers|
    ensures -1 <= r < n && (r >= 0 ==> s.timers[r].active)
  {
    if n == 0 then -1
    else
      var r, t := Earliest(s, n - 1), s.timers[n - 1];
      if t.active && (r < 0 || Less(Rank(t), Rank(s.timers[r]))) then n - 1 else r
  }

  function ActiveCount(ts: seq<Timer>): nat {
    if ts == [] then 0 else ActiveCount(ts[..|ts| - 1]) + if ts[|ts| - 1].active then 1 else 0
  }

  lemma {:induction false} OneLess(ts: seq<Timer>, id: nat, t: Timer)
    requires id < |ts| && ts[id].active && !t.active
    ensures ActiveCount(ts[id := t]) == ActiveCount(ts) - 1
  {
    var last := |ts| - 1;
    if id < last {
      OneLess(ts[..last], id, t);
      assert ts[id := t][..last] == ts[..last][id := t];
    } else {
      assert ts[id := t][..last] == ts[..last];
    }
  }

  /** One turn of the first loop. */
  function ToQueue(s: Loop, id: nat): Loop
    requires Known(s, id)
  {
    var q := Stopped(s, id);
    q.(ready := q.ready + [id])
  }

  /** First loop of uv__run_timers. */
  function Collect(s: Loop): Loop
    decreases ActiveCount(s.timers)
  {
    var id := Earliest(s, |s.timers|);
    if id < 0 || s.timers[id].timeout > s.time then s
    else
      OneLess(s.timers, id, Stopped(s, id).timers[id]);
      Collect(ToQueue(s, id))
  }

  function Head<T>(script: seq<seq<T>>): seq<T> { if script == [] then [] else script[0] }

  function Tail<T>(script: seq<seq<T>>): seq<seq<T>> { if script == [] then [] else script[1..] }

  predicate Distinct(q: seq<nat>) { forall j, k | 0 <= j < k < |q| :: q[j] != q[k] }

  lemma {:induction false} DropSome(q: seq<nat>, s: set<nat>)
    ensures |Drop(q, s)| <= |q| && forall x :: x in Drop(q, s) <==> x in q && x !in s
    ensures Distinct(q) ==> Distinct(Drop(q, s))
  {
    if q != [] {
      DropSome(q[1..], s);
      assert q == [q[0]] + q[1..];
    }
  }

  lemma {:induction false} DropTwice(q: seq<nat>, s: set<nat>, t: set<nat>)
    ensures Drop(Drop(q, s), t) == Drop(q, s + t)
  {
    if q != [] {
      DropTwice(q[1..], s, t);
      if q[0] in s {
        assert Drop(q, s) == Drop(q[1..], s);
      } else {
        assert ([q[0]] + Drop(q[1..], s))[1..] == Drop(q[1..], s);
      }
    }
  }

  lemma {:induction false} DropNone(q: seq<nat>, s: set<nat>)
    requires forall x | x in q :: x !in s
    ensures Drop(q, s) == q
  {
    if q != [] {
      assert q[0] in q;
      forall x | x in q[1..] ensures x !in s { assert x in q; }
      DropNone(q[1..], s);
    }
  }

  /** Queued timers are inactive, so an operation unlinks exactly what it touches. */
  predicate Idle(s: Loop) { forall x | x in s.ready :: Known(s, x) && !s.timers[x].active }

  lemma {:induction false} StoppedQueue(s: Loop, id: nat)
    requires Idle(s) && Known(s, id)
    ensures Stopped(s, id).ready == Drop(s.ready, {id}) && Idle(Stopped(s, id)) && !Stopped(s, id).timers[id].active
    ensures id !in Stopped(s, id).ready
  {
    DropSome(s.ready, {id});
    if s.timers[id].active { DropNone(s.ready, {id}); }
  }

  lemma {:induction false} ActedQueue(s: Loop, id: nat, act: Act)
    requires Idle(s) && Known(s, id)
    ensures var q := Acted(s, id, act);
        q.ready == Drop(s.ready, if Unlinks(s.timers[id], act) then {id} else {}) && |q.timers| == |s.timers| && Idle(q)
  {
    DropNone(s.ready, {});
    StoppedQueue(s, id);
    match act
    case Again =>
      var q := Stopped(s, id);
      StoppedQueue(q, id);
      DropTwice(s.ready, {id}, {id});
      assert {id} + {id} == {id};
    case Close => StoppedQueue(s.(timers := s.timers[id := s.timers[id].(closing := true)]), id);
    case _ =>
  }

  lemma {:induction false} PerformQueue(s: Loop, ops: seq<Op>)
    requires Idle(s)
    ensures var q := PerformAll(s, ops);
        q.ready == Drop(s.ready, TouchedAll(s, ops)) && |q.timers| == |s.timers| + Created(ops) && Idle(q)
    decreases |ops|
  {
    DropNone(s.ready, {});
    if ops != [] {
      var q := Perform(s, ops[0]);
      if ops[0].Call? && Known(s, ops[0].id) { ActedQueue(s, ops[0].id, ops[0].act); }
      PerformQueue(q, ops[1..]);
      DropTwice(s.ready, Touched(s, ops[0]), TouchedAll(q, ops[1..]));
    }
  }

  /** A finished pass: the callbacks made, in order, and the timers each of them stopped, restarted or closed. */
  datatype Pass = Pass(end: Loop, ran: seq<nat>, hits: seq<set<nat>>)

  /** The timer at the head of the queue is unlinked and, if it repeats, restarted. */
  function Popped(s: Loop): Loop
    requires s.ready != [] && Known(s, s.ready[0])
  {
    Restarted(s.(ready := s.ready[1..]), s.ready[0])
  }

  lemma {:induction false} PoppedQueue(s: Loop)
    requires s.ready != [] && Idle(s) && Distinct(s.ready)
    ensures var q := Popped(s); q.ready == s.ready[1..] && Idle(q) && Distinct(q.ready) && |q.timers| == |s.timers|
  {
    var id, q := s.ready[0], s.(ready := s.ready[1..]);
    forall x | x in q.ready ensures x != id && x in s.ready {
      var k :| 0 <= k < |q.ready| && q.ready[k] == x;
      assert s.ready[k + 1] == x;
    }
    DropNone(q.ready, {id});
    DropNone(q.ready, {});
    assert id in s.ready;
    ActedQueue(q, id, Again);
  }

  lemma {:induction false} TurnQueue(s: Loop, ops: seq<Op>)
    requires s.ready != [] && Idle(s) && Distinct(s.ready)
    ensures var q := PerformAll(Popped(s), ops);
      && q.ready == Drop(s.ready[1..], TouchedAll(Popped(s), ops)) && Idle(q) && Distinct(q.ready)
          && |q.ready| < |s.ready|
      && |q.timers| == |s.timers| + Created(ops)
  {
    PoppedQueue(s);
    PerformQueue(Popped(s), ops);
    DropSome(s.ready[1..], TouchedAll(Popped(s), ops));
  }

  /** Second loop of uv__run_timers; the k-th callback does what the script says. */
  function Fire(s: Loop, script: seq<seq<Op>>): Pass
    requires Idle(s) && Distinct(s.ready)
    decreases |s.ready|
  {
    if s.ready == [] then Pass(s, [], [])
    else
      var q := Popped(s);
      TurnQueue(s, Head(script));
      var rest := Fire(PerformAll(q, Head(script)), Tail(script));
      Pass(rest.end, [s.ready[0]] + rest.ran, [TouchedAll(q, Head(script))] + rest.hits)
  }

  function Pos(q: seq<nat>, x: nat): (p: nat)
    requires x in q
    ensures p < |q| && q[p] == x
  {
    if q[0] == x then 0 else 1 + Pos(q[1..], x)
  }

  /** Unlinking keeps the order of the others. */
  lemma {:induction false} DropOrder(q: seq<nat>, s: set<nat>, a: nat, b: nat)
    requires a in Drop(q, s) && b in Drop(q, s)
    ensures a in q && b in q && (Pos(Drop(q, s), a) < Pos(Drop(q, s), b) <==> Pos(q, a) < Pos(q, b))
  {
    DropSome(q, s);
    var t := Drop(q[1..], s);
    if q[0] in s {
      assert Drop(q, s) == t;
      DropOrder(q[1..], s, a, b);
    } else {
      assert ([q[0]] + t)[1..] == t;
      if a != q[0] && b != q[0] { DropOrder(q[1..], s, a, b); }
    }
  }

  /** The callbacks made, each by its place in the queue at the start. */
  ghost predicate RunsInOrder(ready: seq<nat>, ran: seq<nat>) {
    && (forall k | 0 <= k < |ran| :: ran[k] in ready)
    && (forall j, k | 0 <= j < k < |ran| :: Pos(ready, ran[j]) < Pos(ready, ran[k]))
  }

  /** No callback made before the turn of `x` touched it. */
  ghost predicate Spared(ready: seq<nat>, ran: seq<nat>, hits: seq<set<nat>>, x: nat)
    requires x in ready && |hits| == |ran|
  {
    forall k | 0 <= k < |ran| && ran[k] in ready && Pos(ready, ran[k]) < Pos(ready, x) :: x !in hits[k]
  }

  lemma {:induction false} InTail(q: seq<nat>, x: nat)
    requires Distinct(q) && q != [] && x in q[1..]
    ensures x in q && x != q[0] && Pos(q, x) == 1 + Pos(q[1..], x)
  {
    var k :| 0 <= k < |q[1..]| && q[1..][k] == x;
    assert q[k + 1] == x;
  }

  /** Places in what is left of the queue after the first callback compare as in the whole queue. */
  lemma {:induction false} Places(ready: seq<nat>, hit: set<nat>, a: nat, b: nat)
    requires Distinct(ready) && ready != [] && a in Drop(ready[1..], hit) && b in Drop(ready[1..], hit)
    ensures a in ready && b in ready && 0 < Pos(ready, b)
    ensures Pos(Drop(ready[1..], hit), a) < Pos(Drop(ready[1..], hit), b) <==> Pos(ready, a) < Pos(ready, b)
  {
    DropSome(ready[1..], hit);
    InTail(ready, a);
    InTail(ready, b);
    DropOrder(ready[1..], hit, a, b);
  }

  lemma {:induction false} OrderStep(ready: seq<nat>, hit: set<nat>, rest: seq<nat>)
    requires Distinct(ready) && ready != [] && RunsInOrder(Drop(ready[1..], hit), rest)
    ensures RunsInOrder(ready, [ready[0]] + rest)
  {
    var ran := [ready[0]] + rest;
    forall k | 0 <= k < |ran| ensures ran[k] in ready {
      if k > 0 { OrderedPair(ready, hit, rest, k - 1, k - 1); }
    }
    forall j, k | 0 <= j < k < |ran| ensures Pos(ready, ran[j]) < Pos(ready, ran[k]) {
      OrderedPair(ready, hit, rest, if j > 0 then j - 1 else k - 1, k - 1);
    }
  }

  lemma {:induction false} OrderedPair(ready: seq<nat>, hit: set<nat>, rest: seq<nat>, j: nat, k: nat)
    requires Distinct(ready) && ready != [] && RunsInOrder(Drop(ready[1..], hit), rest) && j <= k < |rest|
    ensures rest[j] in ready && rest[k] in ready && 0 < Pos(ready, rest[k])
        && (j < k ==> Pos(ready, rest[j]) < Pos(ready, rest[k]))
  {
    assert rest[j] in Drop(ready[1..], hit) && rest[k] in Drop(ready[1..], hit);
    Places(ready, hit, rest[j], rest[k]);
  }

  lemma {:induction false} SparedLater(ready: seq<nat>, hit: set<nat>, ran: seq<nat>, hits: seq<set<nat>>, x: nat,
      k: nat)
    requires Distinct(ready) && ready != [] && |ran| == |hits| && RunsInOrder(Drop(ready[1..], hit), ran)
        && x in Drop(ready[1..], hit)
    requires k < |ran|
    ensures x in ready && ran[k] in ready && ran[k] in Drop(ready[1..], hit)
    ensures Pos(ready, ran[k]) < Pos(ready, x) <==> Pos(Drop(ready[1..], hit), ran[k]) < Pos(Drop(ready[1..], hit), x)
  {
    assert ran[k] in Drop(ready[1..], hit);
    Places(ready, hit, ran[k], x);
  }

  lemma {:induction false} SparedNext(ready: seq<nat>, hit: set<nat>, ran: seq<nat>, hits: seq<set<nat>>, x: nat,
      k: nat)
    requires Distinct(ready) && ready != [] && |ran| == |hits| && RunsInOrder(Drop(ready[1..], hit), ran)
    requires x in Drop(ready[1..], hit) && Spared(Drop(ready[1..], hit), ran, hits, x) && x in ready
    requires k < |ran| && ran[k] in ready && Pos(ready, ran[k]) < Pos(ready, x)
    ensures x !in hits[k]
  {
    SparedLater(ready, hit, ran, hits, x, k);
  }

  lemma {:induction false} SparedFromRest(ready: seq<nat>, hit: set<nat>, ran: seq<nat>, hits: seq<set<nat>>, x: nat)
    requires Distinct(ready) && ready != [] && |ran| == |hits| && RunsInOrder(Drop(ready[1..], hit), ran)
    requires x in Drop(ready[1..], hit) && Spared(Drop(ready[1..], hit), ran, hits, x)
    ensures x in ready && Spared(ready, [ready[0]] + ran, [hit] + hits, x)
  {
    var ran', hits' := [ready[0]] + ran, [hit] + hits;
    NotHit(ready, hit, x);
    forall k | 0 <= k < |ran'| && ran'[k] in ready && Pos(ready, ran'[k]) < Pos(ready, x) ensures x !in hits'[k] {
      if k > 0 {
        assert ran'[k] == ran[k - 1] && hits'[k] == hits[k - 1];
        SparedNext(ready, hit, ran, hits, x, k - 1);
      }
    }
  }

  lemma {:induction false} NotHit(ready: seq<nat>, hit: set<nat>, x: nat)
    requires Distinct(ready) && ready != [] && x in Drop(ready[1..], hit)
    ensures x in ready && x !in hit
  {
    DropSome(ready[1..], hit);
    InTail(ready, x);
  }

  lemma {:induction false} SparedInRest(ready: seq<nat>, hit: set<nat>, ran: seq<nat>, hits: seq<set<nat>>, x: nat)
    requires Distinct(ready) && ready != [] && |ran| == |hits| && RunsInOrder(Drop(ready[1..], hit), ran)
        && x in Drop(ready[1..], hit)
    requires x in ready && Spared(ready, [ready[0]] + ran, [hit] + hits, x)
    ensures Spared(Drop(ready[1..], hit), ran, hits, x)
  {
    var left, ran', hits' := Drop(ready[1..], hit), [ready[0]] + ran, [hit] + hits;
    forall k | 0 <= k < |ran| && ran[k] in left && Pos(left, ran[k]) < Pos(left, x) ensures x !in hits[k] {
      SparedLater(ready, hit, ran, hits, x, k);
      assert ran'[k + 1] == ran[k] && hits'[k + 1] == hits[k];
    }
  }

  lemma {:induction false} SparedStep(ready: seq<nat>, hit: set<nat>, ran: seq<nat>, hits: seq<set<nat>>, x: nat)
    requires Distinct(ready) && ready != [] && |ran| == |hits| && RunsInOrder(Drop(ready[1..], hit), ran)
        && x in Drop(ready[1..], hit)
    ensures x in ready && (Spared(ready, [ready[0]] + ran, [hit] + hits, x)
        <==> Spared(Drop(ready[1..], hit), ran, hits, x))
  {
    Places(ready, hit, x, x);
    if Spared(Drop(ready[1..], hit), ran, hits, x) {
      SparedFromRest(ready, hit, ran, hits, x);
    } else if Spared(ready, [ready[0]] + ran, [hit] + hits, x) {
      SparedInRest(ready, hit, ran, hits, x);
    }
  }

  lemma {:induction false} FireRuns(s: Loop, script: seq<seq<Op>>)
    requires Idle(s) && Distinct(s.ready)
    ensures var p := Fire(s, script); |p.hits| == |p.ran| && p.end.ready == [] && RunsInOrder(s.ready, p.ran)
    decreases |s.ready|
  {
    if s.ready != [] {
      TurnQueue(s, Head(script));
      var q := PerformAll(Popped(s), Head(script));
      FireRuns(q, Tail(script));
      OrderStep(s.ready, TouchedAll(Popped(s), Head(script)), Fire(q, Tail(script)).ran);
    }
  }

  lemma {:induction false} InRest(p: Pass, rest: Pass, q: seq<nat>)
    requires p.ran != [] && p.ran[1..] == rest.ran && RunsInOrder(q, rest.ran)
    ensures forall k | 0 < k < |p.ran| :: p.ran[k] in q
  {
    forall k | 0 < k < |p.ran| ensures p.ran[k] in q { assert p.ran[k] == rest.ran[k - 1]; }
  }

  /** Exactly which queued timers get their callback. */
  lemma {:induction false} FiresExactly(s: Loop, script: seq<seq<Op>>, x: nat)
    requires Idle(s) && Distinct(s.ready) && x in s.ready
    ensures var p := Fire(s, script); |p.hits| == |p.ran| && (x in p.ran <==> Spared(s.ready, p.ran, p.hits, x))
    decreases |s.ready|
  {
    FireRuns(s, script);
    var hit, q := TouchedAll(Popped(s), Head(script)), PerformAll(Popped(s), Head(script));
    TurnQueue(s, Head(script));
    var p, rest := Fire(s, script), Fire(q, Tail(script));
    FireRuns(q, Tail(script));
    DropSome(s.ready[1..], hit);
    if x == s.ready[0] {
      assert p.ran[0] == x;
    } else {
      assert x in s.ready[1..];
      InTail(s.ready, x);
      if x in hit {
        assert p.ran[0] in s.ready && x in p.hits[0];
        InRest(p, rest, q.ready);
      } else {
        FiresExactly(q, Tail(script), x);
        SparedStep(s.ready, hit, rest.ran, rest.hits, x);
      }
    }
  }

  // ---------- What is due ----------

  /** Start numbers tell the active timers apart. */
  predicate Fresh(s: Loop) {
    && (forall i | 0 <= i < |s.timers| && s.timers[i].active :: s.timers[i].startId < s.counter)
    && (forall i, j | 0 <= i < j < |s.timers| && s.timers[i].active
        && s.timers[j].active :: s.timers[i].startId != s.timers[j].startId)
  }

  lemma {:induction false} EarliestIsFirst(s: Loop, n: nat)
    requires Fresh(s) && n <= |s.timers|
    ensures var r := Earliest(s, n);
      forall j | 0 <= j < n && s.timers[j].active :: r >= 0 && (j == r || Less(Rank(s.timers[r]), Rank(s.timers[j])))
  {
    if n > 0 { EarliestIsFirst(s, n - 1); }
  }

  /** A timer that is first is the earliest. */
  lemma {:induction false} FirstIsEarliest(s: Loop, id: nat)
    requires Fresh(s) && IsFirst(s, id)
    ensures Earliest(s, |s.timers|) == id
  {
    EarliestIsFirst(s, |s.timers|);
  }

  predicate Due(s: Loop, id: nat) { Known(s, id) && s.timers[id].active && s.timers[id].timeout <= s.time }

  /** The queue is sorted and comes before every active timer. */
  predicate Sorted(s: Loop) {
    && (forall k | 0 <= k < |s.ready| :: Known(s, s.ready[k]) && !s.timers[s.ready[k]].active)
    && (forall j, k | 0 <= j < k < |s.ready| :: Less(Rank(s.timers[s.ready[j]]), Rank(s.timers[s.ready[k]])))
    && (forall k, i | 0 <= k < |s.ready| && 0 <= i < |s.timers|
        && s.timers[i].active :: Less(Rank(s.timers[s.ready[k]]), Rank(s.timers[i])))
  }

  lemma {:induction false} CollectStep(s: Loop)
    ensures var id := Earliest(s, |s.timers|);
      if id < 0 || s.timers[id].timeout > s.time then Collect(s) == s
      else Collect(s) == Collect(ToQueue(s, id)) && ActiveCount(ToQueue(s, id).timers) < ActiveCount(s.timers)
  {
    var id := Earliest(s, |s.timers|);
    if id >= 0 { OneLess(s.timers, id, Stopped(s, id).timers[id]); }
  }

  lemma {:induction false} MoveSorted(s: Loop, id: nat)
    requires Fresh(s) && Sorted(s) && IsFirst(s, id)
    ensures Fresh(ToQueue(s, id)) && Sorted(ToQueue(s, id))
  {
  }

  /** The first loop moves due timers to the queue in order. */
  lemma {:induction false} CollectsInOrder(s: Loop)
    requires Fresh(s) && Sorted(s)
    ensures var q := Collect(s);
        Sorted(q) && Fresh(q) && q.time == s.time && q.counter == s.counter && |q.timers| == |s.timers|
        && s.ready <= q.ready
    decreases ActiveCount(s.timers)
  {
    EarliestIsFirst(s, |s.timers|);
    var id := Earliest(s, |s.timers|);
    if id >= 0 && s.timers[id].timeout <= s.time {
      MoveSorted(s, id);
      OneLess(s.timers, id, Stopped(s, id).timers[id]);
      CollectsInOrder(ToQueue(s, id));
    }
  }

  /** The first loop moves exactly the due timers, and changes nothing else. */
  lemma {:induction false} CollectsDue(s: Loop, i: nat)
    requires Fresh(s) && Sorted(s) && i < |s.timers|
    ensures var q := Collect(s);
      && |q.timers| == |s.timers| && q.timers[i] == (if Due(s, i) then s.timers[i].(active := false) else s.timers[i])
      && (i in q.ready <==> i in s.ready || Due(s, i))
    decreases ActiveCount(s.timers)
  {
    EarliestIsFirst(s, |s.timers|);
    var id := Earliest(s, |s.timers|);
    if id >= 0 && s.timers[id].timeout <= s.time {
      MoveSorted(s, id);
      OneLess(s.timers, id, Stopped(s, id).timers[id]);
      CollectsDue(ToQueue(s, id), i);
    }
  }

  /** uv__run_timers on values. */
  function Run(s: Loop, script: seq<seq<Op>>): Pass
    requires Fresh(s) && s.ready == []
  {
    CollectsInOrder(s);
    SortedQueue(Collect(s));
    Fire(Collect(s), script)
  }

  lemma {:induction false} SortedQueue(s: Loop)
    requires Sorted(s)
    ensures Idle(s) && Distinct(s.ready)
  {
    forall x | x in s.ready ensures Known(s, x) && !s.timers[x].active {
      var k :| 0 <= k < |s.ready| && s.ready[k] == x;
    }
  }

  /** One pass, whatever the callbacks do: it ends; callbacks run in increasing order of (timeout,
      start_id), so at most once per timer, and only for timers due at entry. */
  lemma {:induction false} PassRunsDue(s: Loop, script: seq<seq<Op>>)
    requires Fresh(s) && s.ready == []
    ensures var p := Run(s, script);
      && |p.hits| == |p.ran| && p.end.ready == []
      && (forall k | 0 <= k < |p.ran| ::
          p.ran[k] < |s.timers| && s.timers[p.ran[k]].active && s.timers[p.ran[k]].timeout <= s.time)
      && (forall j, k | 0 <= j < k < |p.ran| :: var t, u := s.timers[p.ran[j]], s.timers[p.ran[k]];
          t.timeout < u.timeout || (t.timeout == u.timeout && t.startId < u.startId))
  {
    var q, p := Collect(s), Run(s, script);
    CollectsInOrder(s);
    SortedQueue(q);
    FireRuns(q, script);
    forall k | 0 <= k < |p.ran| ensures Due(s, p.ran[k]) { RanDue(s, p.ran[k]); }
    forall j, k | 0 <= j < k < |p.ran|
      ensures Known(s, p.ran[j]) && Known(s, p.ran[k]) && Less(Rank(s.timers[p.ran[j]]), Rank(s.timers[p.ran[k]]))
    {
      RanDue(s, p.ran[j]);
      RanDue(s, p.ran[k]);
      RankPos(q, p.ran[j], p.ran[k]);
    }
  }

  lemma {:induction false} RanDue(s: Loop, x: nat)
    requires Fresh(s) && s.ready == [] && x in Collect(s).ready
    ensures Due(s, x) && Known(Collect(s), x) && Collect(s).timers[x] == s.timers[x].(active := false)
  {
    CollectsInOrder(s);
    SortedQueue(Collect(s));
    CollectsDue(s, x);
  }

  /** And for which of them: exactly for those that no callback of an earlier one stopped, restarted or closed. */
  lemma {:induction false} PassRunsExactly(s: Loop, script: seq<seq<Op>>, x: nat)
    requires Fresh(s) && s.ready == [] && x < |s.timers| && s.timers[x].active && s.timers[x].timeout <= s.time
    ensures var p := Run(s, script);
      |p.hits| == |p.ran| &&
      (x in p.ran <==>
          forall k | 0 <= k < |p.ran| && Known(s, p.ran[k])
          && Less(Rank(s.timers[p.ran[k]]), Rank(s.timers[x])) :: x !in p.hits[k])
  {
    var q, p := Collect(s), Run(s, script);
    CollectsInOrder(s);
    CollectsDue(s, x);
    SortedQueue(q);
    FireRuns(q, script);
    FiresExactly(q, script, x);
    forall k | 0 <= k < |p.ran|
      ensures p.ran[k] in q.ready && Known(s, p.ran[k])
          && (Pos(q.ready, p.ran[k]) < Pos(q.ready, x) <==> Less(Rank(s.timers[p.ran[k]]), Rank(s.timers[x])))
    {
      assert p.ran[k] in q.ready;
      CollectsDue(s, p.ran[k]);
      RankPos(q, p.ran[k], x);
    }
  }

  lemma {:induction false} RankPos(s: Loop, a: nat, b: nat)
    requires Sorted(s) && a in s.ready && b in s.ready
    ensures Known(s, a) && Known(s, b)
        && (Pos(s.ready, a) < Pos(s.ready, b) <==> Less(Rank(s.timers[a]), Rank(s.timers[b])))
  {
    var i, j := Pos(s.ready, a), Pos(s.ready, b);
    assert s.ready[i] == a && s.ready[j] == b;
  }

  // ---------- When a timer is due ----------

  /** Between the states the timer has been started: it is active and due `timeout` from now, or when the clock ends,
      it has the next start number, and nothing else has changed. */
  predicate DueIn(s: Loop, q: Loop, id: nat, timeout: nat, repeat: nat) {
    match id < |s.timers| == |q.timers|
    case false => false
    case true =>
      && q.timers[id].active && q.timers[id].hasCb && !q.timers[id].closing
      && q.timers[id].timeout == (if s.time + timeout <= U64_MAX then s.time + timeout else U64_MAX)
      && q.timers[id].repeat == repeat && q.timers[id].startId == s.counter
      && q.counter == s.counter + 1 && q.time == s.time
      && forall j | 0 <= j < |s.timers| && j != id :: q.timers[j] == s.timers[j]
  }

  lemma {:induction false} StartedDue(s: Loop, id: nat, timeout: nat, repeat: nat)
    requires id < |s.timers| && !s.timers[id].closing
    ensures DueIn(s, Started(s, id, true, timeout, repeat), id, timeout, repeat)
  {
  }

  /** So it is due at exactly the clock values from then on. */
  lemma {:induction false} DueFrom(s: Loop, q: Loop, id: nat, timeout: nat, repeat: nat, now: nat)
    requires DueIn(s, q, id, timeout, repeat) && now < U64_MAX
    ensures Due(q.(time := now), id) <==> s.time + timeout <= now
  {
  }

  /** Of two timers due at the same time the one started first runs first, whatever happens in the pass. */
  lemma {:induction false} EarlierStartFirst(s: Loop, a: nat, b: nat, timeout: nat, ra: nat, rb: nat, now: nat,
      script: seq<seq<Op>>)
    requires Fresh(s) && s.ready == [] && a < |s.timers| && b < |s.timers| && a != b
    requires !s.timers[a].closing && !s.timers[b].closing
    ensures var q := Started(Started(s, a, true, timeout, ra), b, true, timeout, rb).(time := now);
      && Fresh(q) && q.ready == []
      && var ran := Run(q, script).ran;
      forall j, k | 0 <= j < |ran| && 0 <= k < |ran| && ran[j] == a && ran[k] == b :: j < k
  {
    StartedDue(s, a, timeout, ra);
    var s1 := Started(s, a, true, timeout, ra);
    StartedDue(s1, b, timeout, rb);
    StartedFresh(s, a, timeout, ra);
    StartedFresh(s1, b, timeout, rb);
    var q := Started(s1, b, true, timeout, rb).(time := now);
    PassRunsDue(q, script);
  }

  lemma {:induction false} StartedFresh(s: Loop, id: nat, timeout: nat, repeat: nat)
    requires Fresh(s) && s.ready == [] && id < |s.timers|
    ensures Fresh(Started(s, id, true, timeout, repeat)) && Started(s, id, true, timeout, repeat).ready == []
  {
  }

  // ---------- What a pass leaves of a timer that its callbacks leave alone ----------

  predicate LeavesAlone(ops: seq<Op>, x: nat) { forall k | 0 <= k < |ops| && ops[k].Call? :: ops[k].id != x }

  predicate LeftAlone(script: seq<seq<Op>>, x: nat) { forall k | 0 <= k < |script| :: LeavesAlone(script[k], x) }

  function ClockAfter(time: nat, ops: seq<Op>): nat
    decreases |ops|
  {
    if ops == [] then time else ClockAfter(if ops[0].SetTime? then ops[0].time else time, ops[1..])
  }

  /** The clock when the k-th callback of the pass is about to be made. */
  function ClockAt(time: nat, script: seq<seq<Op>>, k: nat): nat
    decreases k
  {
    if k == 0 || script == [] then time else ClockAt(ClockAfter(time, script[0]), script[1..], k - 1)
  }

  lemma {:induction false} ActLeaves(s: Loop, id: nat, act: Act, x: nat)
    requires id < |s.timers| && x < |s.timers| && x != id
    ensures var q := Acted(s, id, act);
        |q.timers| == |s.timers| && q.timers[x] == s.timers[x] && q.time == s.time && q.counter >= s.counter
  {
  }

  lemma {:induction false} PerformLeaves(s: Loop, ops: seq<Op>, x: nat)
    requires x < |s.timers| && LeavesAlone(ops, x)
    ensures var q := PerformAll(s, ops);
        x < |q.timers| && q.timers[x] == s.timers[x] && q.time == ClockAfter(s.time, ops) && q.counter >= s.counter
    ensures x !in TouchedAll(s, ops)
    decreases |ops|
  {
    if ops != [] {
      var op, rest := ops[0], ops[1..];
      forall k | 0 <= k < |rest| && rest[k].Call? ensures rest[k].id != x { assert ops[k + 1] == rest[k]; }
      if op.Call? && Known(s, op.id) { ActLeaves(s, op.id, op.act, x); }
      PerformLeaves(Perform(s, op), rest, x);
    }
  }

  lemma {:induction false} HeadTail(script: seq<seq<Op>>, x: nat, time: nat, k: nat)
    requires LeftAlone(script, x)
    ensures LeavesAlone(Head(script), x) && LeftAlone(Tail(script), x)
    ensures ClockAt(time, script, k + 1) == ClockAt(ClockAfter(time, Head(script)), Tail(script), k)
  {
    forall j | 0 <= j < |Tail(script)| ensures LeavesAlone(Tail(script)[j], x) {
      assert Tail(script)[j] == script[j + 1];
    }
    if script == [] { assert ClockAt(time, [], k) == time; }
  }

  /** One callback of another timer. */
  lemma {:induction false} OtherTurn(s: Loop, ops: seq<Op>, x: nat)
    requires s.ready != [] && Idle(s) && Distinct(s.ready) && x < |s.timers| && x != s.ready[0] && LeavesAlone(ops, x)
    ensures Known(s, s.ready[0])
    ensures var q := PerformAll(Popped(s), ops);
      && Idle(q) && Distinct(q.ready) && |q.ready| < |s.ready| && x < |q.timers| && q.timers[x] == s.timers[x]
      && q.time == ClockAfter(s.time, ops) && q.counter >= s.counter && (x in q.ready <==> x in s.ready)
  {
    var id := s.ready[0];
    assert id in s.ready;
    TurnQueue(s, ops);
    ActLeaves(s.(ready := s.ready[1..]), id, Again, x);
    PerformLeaves(Popped(s), ops, x);
    DropSome(s.ready[1..], TouchedAll(Popped(s), ops));
    assert s.ready == [id] + s.ready[1..];
  }

  /** A timer outside the queue is not called and not changed. */
  lemma {:induction false} FireLeaves(s: Loop, script: seq<seq<Op>>, x: nat)
    requires Idle(s) && Distinct(s.ready) && x < |s.timers| && x !in s.ready && LeftAlone(script, x)
    ensures var p := Fire(s, script); x < |p.end.timers| && p.end.timers[x] == s.timers[x] && x !in p.ran
    decreases |s.ready|
  {
    if s.ready != [] {
      HeadTail(script, x, 0, 0);
      OtherTurn(s, Head(script), x);
      FireLeaves(PerformAll(Popped(s), Head(script)), Tail(script), x);
      FireStep(s, script);
    }
  }

  /** What becomes of a timer that is called when the clock says `clock`. */
  predicate CalledAt(t: Timer, u: Timer, clock: nat, counter: nat) {
    if t.repeat == 0 then u == t
    else
      && u.active && u.hasCb && u.repeat == t.repeat && u.startId >= counter
      && u.timeout == if clock + t.repeat <= U64_MAX then clock + t.repeat else U64_MAX
  }

  /** Its own turn. */
  lemma {:induction false} OwnTurn(s: Loop, ops: seq<Op>, x: nat)
    requires s.ready != [] && s.ready[0] == x && Idle(s) && Distinct(s.ready) && LeavesAlone(ops, x)
    requires x < |s.timers| && s.timers[x].hasCb && !s.timers[x].closing
    ensures var q := PerformAll(Popped(s), ops);
      && Idle(q) && Distinct(q.ready) && x !in q.ready && x < |q.timers|
      && CalledAt(s.timers[x], q.timers[x], s.time, s.counter)
  {
    assert !s.timers[x].active;
    TurnQueue(s, ops);
    PoppedQueue(s);
    PerformLeaves(Popped(s), ops, x);
    DropSome(s.ready[1..], TouchedAll(Popped(s), ops));
    if x in s.ready[1..] { InTail(s.ready, x); }
  }

  lemma {:induction false} FireRearms(s: Loop, script: seq<seq<Op>>, x: nat) returns (k: nat)
    requires Idle(s) && Distinct(s.ready) && x in s.ready && LeftAlone(script, x)
    requires x < |s.timers| && s.timers[x].hasCb && !s.timers[x].closing
    ensures var p := Fire(s, script);
      && k < |p.ran| && p.ran[k] == x && x < |p.end.timers|
      && CalledAt(s.timers[x], p.end.timers[x], ClockAt(s.time, script, k), s.counter)
    decreases |s.ready|
  {
    if s.ready[0] == x {
      RearmsNow(s, script, x);
      k := 0;
    } else {
      RearmsLater(s, script, x);
      var j := FireRearms(PerformAll(Popped(s), Head(script)), Tail(script), x);
      k := j + 1;
    }
  }

  lemma {:induction false} RearmsNow(s: Loop, script: seq<seq<Op>>, x: nat)
    requires Idle(s) && Distinct(s.ready) && s.ready != [] && s.ready[0] == x && LeftAlone(script, x)
    requires x < |s.timers| && s.timers[x].hasCb && !s.timers[x].closing
    ensures var p := Fire(s, script);
        p.ran != [] && p.ran[0] == x && x < |p.end.timers| && CalledAt(s.timers[x], p.end.timers[x], s.time, s.counter)
  {
    HeadTail(script, x, 0, 0);
    FireStep(s, script);
    OwnTurn(s, Head(script), x);
    FireLeaves(PerformAll(Popped(s), Head(script)), Tail(script), x);
  }

  /** The turn of another timer comes first. */
  lemma {:induction false} RearmsLater(s: Loop, script: seq<seq<Op>>, x: nat)
    requires Idle(s) && Distinct(s.ready) && x in s.ready && s.ready[0] != x && LeftAlone(script, x) && x < |s.timers|
    ensures Known(s, s.ready[0])
    ensures var q := PerformAll(Popped(s), Head(script));
      && Idle(q) && Distinct(q.ready) && |q.ready| < |s.ready| && x in q.ready && LeftAlone(Tail(script), x)
      && x < |q.timers| && q.timers[x] == s.timers[x] && q.counter >= s.counter
      && (forall j: nat :: ClockAt(s.time, script, j + 1) == ClockAt(q.time, Tail(script), j))
      && Fire(s, script).ran == [s.ready[0]] + Fire(q, Tail(script)).ran
      && Fire(s, script).end == Fire(q, Tail(script)).end
  {
    HeadTail(script, x, 0, 0);
    FireStep(s, script);
    OtherTurn(s, Head(script), x);
    forall j: nat ensures ClockAt(s.time, script, j + 1) == ClockAt(ClockAfter(s.time, Head(script)), Tail(script), j) {
      HeadTail(script, x, s.time, j);
    }
  }

  /** A timer that is due, and that no callback of the pass touches, is called.  A repeating one is then due again
      one interval after the time of its call; any other is stopped. */
  lemma {:induction false} PassRearms(s: Loop, script: seq<seq<Op>>, x: nat) returns (k: nat)
    requires Fresh(s) && s.ready == [] && x < |s.timers| && s.timers[x].active && s.timers[x].timeout <= s.time
    requires s.timers[x].hasCb && !s.timers[x].closing && LeftAlone(script, x)
    ensures var p := Run(s, script);
      && k < |p.ran| && p.ran[k] == x && x < |p.end.timers|
      && var t, u, clock := s.timers[x], p.end.timers[x], ClockAt(s.time, script, k);
      if t.repeat == 0 then u == t.(active := false)
      else
        && u.active && u.repeat == t.repeat && u.startId >= s.counter
        && u.timeout == if clock + t.repeat <= U64_MAX then clock + t.repeat else U64_MAX
  {
    CollectsInOrder(s);
    CollectsDue(s, x);
    SortedQueue(Collect(s));
    k := FireRearms(Collect(s), script, x);
  }

  /** A timer that is not due, and that no callback touches, is not called and stays as it is. */
  lemma {:induction false} PassLeaves(s: Loop, script: seq<seq<Op>>, x: nat)
    requires Fresh(s) && s.ready == [] && x < |s.timers| && LeftAlone(script, x)
    requires !s.timers[x].active || s.time < s.timers[x].timeout
    ensures var p := Run(s, script); x !in p.ran && x < |p.end.timers| && p.end.timers[x] == s.timers[x]
  {
    CollectsInOrder(s);
    CollectsDue(s, x);
    SortedQueue(Collect(s));
    FireLeaves(Collect(s), script, x);
  }

  // ---------- What every operation keeps ----------

  predicate InRange(s: Loop) {
    s.time <= U64_MAX && forall i | 0 <= i < |s.timers| ::
        s.timers[i].timeout <= U64_MAX && s.timers[i].repeat <= U64_MAX
  }

  predicate ActInRange(act: Act) {
    match act
    case Start(_, timeout, repeat) => timeout <= U64_MAX && repeat <= U64_MAX
    case SetRepeat(interval) => interval <= U64_MAX
    case _ => true
  }

  predicate OpInRange(op: Op) {
    match op case Call(_, act) => ActInRange(act) case Create => true case SetTime(time) => time <= U64_MAX
  }

  predicate OpsInRange(ops: seq<Op>)
    decreases |ops|
  {
    ops == [] || (OpInRange(ops[0]) && OpsInRange(ops[1..]))
  }

  predicate ScriptInRange(script: seq<seq<Op>>)
    decreases |script|
  {
    script == [] || (OpsInRange(script[0]) && ScriptInRange(script[1..]))
  }

  predicate Sound(s: Loop) { Fresh(s) && InRange(s) }

  lemma {:induction false} ActSound(s: Loop, id: nat, act: Act)
    requires Sound(s) && Known(s, id) && ActInRange(act)
    ensures Sound(Acted(s, id, act)) && |Acted(s, id, act).timers| == |s.timers|
  {
  }

  lemma {:induction false} ActedSize(s: Loop, id: nat, act: Act)
    requires Known(s, id)
    ensures |Acted(s, id, act).timers| == |s.timers|
  {
  }

  lemma {:induction false} PerformSize(s: Loop, ops: seq<Op>)
    requires ops != []
    ensures |Perform(s, ops[0]).timers| + Created(ops[1..]) == |s.timers| + Created(ops)
  {
    match ops[0]
    case Call(id, act) => if Known(s, id) { ActedSize(s, id, act); }
    case _ =>
  }

  lemma {:induction false} InitSound(s: Loop, t: Timer)
    requires Sound(s) && t == NEW_TIMER
    ensures Sound(s.(timers := s.timers + [t])) && ActiveCount(s.timers + [t]) == ActiveCount(s.timers)
  {
    assert (s.timers + [t])[..|s.timers|] == s.timers;
  }

  lemma {:induction false} MarkSound(s: Loop, id: nat)
    requires Sound(s) && Known(s, id)
    ensures Sound(s.(timers := s.timers[id := s.timers[id].(closing := true)]))
  {
  }

  lemma {:induction false} StoppedFields(s: Loop, id: nat)
    requires Known(s, id)
    ensures Stopped(s, id).timers == s.timers[id := s.timers[id].(active := false)]
    ensures !s.timers[id].active || id !in s.ready ==> id !in Stopped(s, id).ready
  {
    DropSome(s.ready, {id});
  }

  lemma {:induction false} RestartedDue(s: Loop, id: nat)
    requires Known(s, id) && s.timers[id].hasCb && s.timers[id].repeat != 0 && !s.timers[id].closing
    ensures DueIn(s, Restarted(s, id), id, s.timers[id].repeat, s.timers[id].repeat)
  {
    var repeat := s.timers[id].repeat;
    StoppedFields(s, id);
    StartedDue(Stopped(s, id), id, repeat, repeat);
  }

  lemma {:induction false} ClosedFields(s: Loop, id: nat)
    requires Known(s, id)
    ensures Closed(s, id).timers == s.timers[id := s.timers[id].(closing := true, active := false)]
    ensures !s.timers[id].active || id !in s.ready ==> id !in Closed(s, id).ready
  {
    var q := s.(timers := s.timers[id := s.timers[id].(closing := true)]);
    StoppedFields(q, id);
  }

  lemma {:induction false} StoppedThen(s: Loop, id: nat)
    requires Known(s, id)
    ensures !Stopped(s, id).timers[id].active && |Stopped(s, id).timers| == |s.timers|
  {
  }

  lemma {:induction false} OneMore(ts: seq<Timer>, id: nat, t: Timer)
    requires id < |ts| && !ts[id].active && t.active
    ensures ActiveCount(ts[id := t]) == ActiveCount(ts) + 1
  {
    OneLess(ts[id := t], id, ts[id]);
    assert ts[id := t][id := ts[id]] == ts;
  }

  lemma {:induction false} SameCount(ts: seq<Timer>, id: nat, t: Timer)
    requires id < |ts| && ts[id].active == t.active
    ensures ActiveCount(ts[id := t]) == ActiveCount(ts)
  {
    var last := |ts| - 1;
    if id < last {
      SameCount(ts[..last], id, t);
      assert ts[id := t][..last] == ts[..last][id := t];
    } else {
      assert ts[id := t][..last] == ts[..last];
    }
  }

  lemma {:induction false} CountBound(ts: seq<Timer>)
    ensures ActiveCount(ts) <= |ts| && ((exists i | 0 <= i < |ts| :: !ts[i].active) ==> ActiveCount(ts) < |ts|)
  {
    if ts != [] { CountBound(ts[..|ts| - 1]); }
  }

  // ---------- The program ----------

  lemma {:induction false} Joined(a: seq<nat>, x: nat, b: seq<nat>)
    ensures a + ([x] + b) == a + [x] + b
  {
  }

  lemma {:induction false} FireStep(s: Loop, script: seq<seq<Op>>)
    requires s.ready != [] && Idle(s) && Distinct(s.ready)
    ensures Known(s, s.ready[0])
    ensures var q := PerformAll(Popped(s), Head(script));
      && Idle(q) && Distinct(q.ready) && Fire(s, script).end == Fire(q, Tail(script)).end
      && Fire(s, script).ran == [s.ready[0]] + Fire(q, Tail(script)).ran
  {
    assert s.ready[0] in s.ready;
    TurnQueue(s, Head(script));
  }

  /** The 64-bit sum of lines 79-81. */
  method Clamp(time: nat, timeout: nat) returns (clamped: nat)
    requires time <= U64_MAX && timeout <= U64_MAX
    ensures clamped == Min(time + timeout, U64_MAX)
  {
    clamped := (time + timeout) % (U64_MAX + 1);
    if clamped < timeout { clamped := U64_MAX; }
  }

  /** The loop with its timer handles: `timers[i]` holds the fields of handle i and `nodes[i]` the
      heap node inside it; `owner` is container_of. */
  class TimerLoop {
    var time: nat
    var counter: nat
    var timers: seq<Timer>
    var ready: seq<nat>
    const heap: Heap
    var nodes: seq<Node>
    var owner: map<Node, nat>
    ghost var linked: set<Node>

    ghost function State(): Loop
      reads this`time, this`counter, this`timers, this`ready
    {
      Loop(time, counter, timers, ready)
    }

    /** Node i is in the heap, under the rank of timer i, exactly while that timer is active. */
    ghost predicate Placed(i: nat, t: Timer)
      requires i < |nodes|
      reads this`nodes, this`owner, this`linked, nodes[i]
    {
      var e := nodes[i];
      && e in owner && owner[e] == i && (t.active <==> e in linked) && (t.active ==> e.key == Rank(t))
    }

    ghost predicate AllPlaced()
      reads this`nodes, this`owner, this`linked, this`timers, owner.Keys
    {
      match |nodes| == |timers| < U32_MAX && linked <= owner.Keys
      case true =>
        && (forall i | 0 <= i < |nodes| :: nodes[i] in owner.Keys && Placed(i, timers[i]))
        && (forall e {:trigger owner[e]} | e in owner :: owner[e] < |nodes| && nodes[owner[e]] == e)
      case false => false
    }

    ghost predicate HeapOk()
      reads this`linked, this`timers, heap, heap.rows.Keys
    {
      match heap.Valid()
      case true => heap.rows.Keys == linked && heap.nelts == ActiveCount(timers)
      case false => false
    }

    ghost predicate Valid()
      reads this, owner.Keys, heap, heap.rows.Keys
    {
      match HeapOk() && AllPlaced()
      case true => Sound(State())
      case false => false
    }

    /** Only nodes of timers created since then have joined. */
    twostate predicate Grew(was: set<Node>)
      reads this`owner
    {
      match was <= owner.Keys
      case true => forall e | e in owner.Keys && e !in was :: fresh(e)
      case false => false
    }

    constructor (now: nat)
      requires now <= U64_MAX
      ensures Valid() && State() == Loop(now, 0, [], []) && fresh(heap) && nodes == []
    {
      time, counter, timers, ready, nodes, owner := now, 0, [], [], [], map[];
      linked := {};
      heap := new Heap();
    }

    /** uv_timer_init: one more handle. */
    method Init() returns (id: nat)
      requires Valid() && |timers| < U32_MAX - 1
      modifies this`timers, this`nodes, this`owner
      ensures Valid() && id == |old(timers)| && State() == Perform(old(State()), Create)
      ensures timers == old(timers) + [Timer(0, 0, 0, false, false, false)]
      ensures Grew(old(owner.Keys))
    {
      id := |timers|;
      var e := new Node(Key(0, 0));
      AddHandle(e);
    }

    method AddHandle(e: Node)
      requires Valid() && e !in owner && |timers| < U32_MAX - 1
      modifies this`timers, this`nodes, this`owner
      ensures Valid() && State() == Perform(old(State()), Create) && owner.Keys == old(owner.Keys) + {e}
      ensures timers == old(timers) + [Timer(0, 0, 0, false, false, false)]
    {
      InitSound(State(), NEW_TIMER);
      Grow(e, NEW_TIMER);
    }

    method Grow(e: Node, t: Timer)
      requires HeapOk() && AllPlaced() && e !in owner && |timers| < U32_MAX - 1 && !t.active
          && ActiveCount(timers + [t]) == ActiveCount(timers)
      modifies this`timers, this`nodes, this`owner
      ensures HeapOk() && AllPlaced() && timers == old(timers) + [t] && owner.Keys == old(owner.Keys) + {e}
      ensures State() == old(State()).(timers := old(timers) + [t])
    {
      nodes, owner, timers := nodes + [e], owner[e := |timers|], timers + [t];
      forall i | 0 <= i < |nodes| ensures nodes[i] in owner.Keys && Placed(i, timers[i]) {
        if i < |nodes| - 1 { assert old(Placed(i, timers[i])); }
      }
    }

    /** heap_remove and uv__handle_stop. */
    method Unlink(id: nat)
      requires HeapOk() && AllPlaced() && id < |nodes| && timers[id].active
      modifies this`linked, this`timers, heap, linked`left, linked`right, linked`parent
      ensures linked == old(linked) - {nodes[id]} && timers == old(timers)[id := old(timers)[id].(active := false)]
      ensures HeapOk()
    {
      assert Placed(id, timers[id]);
      OneLess(timers, id, timers[id].(active := false));
      heap.Remove(nodes[id]);
      linked := linked - {nodes[id]};
      timers := timers[id := timers[id].(active := false)];
    }

    /** After a change to timer `id` and its node only, the others are still in place. */
    twostate lemma OthersPlaced(id: nat)
      requires old(AllPlaced()) && id < |nodes| && nodes == old(nodes) && owner == old(owner)
          && |timers| == |old(timers)|
      requires forall i | 0 <= i < |nodes| && i != id :: timers[i] == old(timers)[i]
      requires forall e | e in owner && e != nodes[id] :: (e in linked <==> e in old(linked)) && e.key == old(e.key)
      requires linked <= owner.Keys && Placed(id, timers[id])
      ensures AllPlaced()
    {
      assert old(Placed(id, timers[id]));
      forall i | 0 <= i < |nodes| ensures nodes[i] in owner.Keys && Placed(i, timers[i]) {
        assert old(Placed(i, timers[i]));
        if i != id {
          assert owner[nodes[i]] == i && owner[nodes[id]] == id;
          assert nodes[i] in owner && nodes[i] != nodes[id];
          assert timers[i] == old(timers)[i];
          assert old(timers[i].active) <==> nodes[i] in old(linked);
          assert nodes[i] in linked <==> nodes[i] in old(linked);
          assert timers[i].active ==> old(nodes[i].key) == Rank(timers[i]);
          assert nodes[i].key == old(nodes[i].key);
        }
      }
    }

    method Deactivate(id: nat)
      requires HeapOk() && AllPlaced() && id < |nodes| && timers[id].active
      modifies this`linked, this`timers, heap, linked`left, linked`right, linked`parent
      ensures linked == old(linked) - {nodes[id]} && timers == old(timers)[id := old(timers)[id].(active := false)]
      ensures HeapOk() && AllPlaced()
    {
      assert Placed(id, timers[id]);
      Unlink(id);
      OthersPlaced(id);
    }

    /** uv_timer_stop */
    method Stop(id: nat)
      requires Valid() && id < |timers|
      modifies this`ready, this`linked, this`timers, heap, owner.Keys`left, owner.Keys`right, owner.Keys`parent
      ensures Valid() && State() == Stopped(old(State()), id)
      ensures timers == old(timers)[id := old(timers)[id].(active := false)]
      ensures !old(timers)[id].active || id !in old(ready) ==> id !in ready
    {
      ActSound(State(), id, Act.Stop);
      StoppedFields(State(), id);
      if timers[id].active {
        Deactivate(id);
      } else {
        ready := Drop(ready, {id});
      }
      assert State() == Stopped(old(State()), id);
    }

    /** heap_insert and uv__handle_start. */
    method Activate(id: nat, t: Timer)
      requires HeapOk() && AllPlaced() && id < |nodes| && !timers[id].active && t.active
      modifies this`linked, this`timers, heap, owner.Keys`left, owner.Keys`right, owner.Keys`parent, owner.Keys`key
      ensures timers == old(timers)[id := t] && HeapOk() && AllPlaced()
    {
      assert Placed(id, timers[id]);
      Link(id, t);
      OthersPlaced(id);
    }

    method Link(id: nat, t: Timer)
      requires HeapOk() && AllPlaced() && id < |nodes| && !timers[id].active && t.active
      modifies this`linked, this`timers, heap, linked`left, linked`right, linked`parent
      modifies {nodes[id]}`left, {nodes[id]}`right, {nodes[id]}`parent, {nodes[id]}`key
      ensures linked == old(linked) + {nodes[id]} && timers == old(timers)[id := t] && nodes[id].key == Rank(t)
      ensures HeapOk()
    {
      var e := nodes[id];
      assert Placed(id, timers[id]);
      CountBound(timers);
      OneMore(timers, id, t);
      e.key := Rank(t);
      heap.Insert(e);
      linked := linked + {e};
      timers := timers[id := t];
    }

    /** Lines 89-92: the start number is taken, and the timer joins the heap. */
    method Number(id: nat, t: Timer)
      requires HeapOk() && AllPlaced() && id < |timers| && !timers[id].active && t.active
      modifies this`linked, this`timers, this`counter, heap, owner.Keys`left, owner.Keys`right, owner.Keys`parent,
          owner.Keys`key
      ensures HeapOk() && AllPlaced() && counter == old(counter) + 1 && timers == old(timers)[id := t]
    {
      counter := counter + 1;
      Activate(id, t);
    }

    /** Lines 79-92: a stopped timer gets its due time and its start number. */
    method Arm(id: nat, timeout: nat, interval: nat)
      requires Valid() && id < |timers| && !timers[id].active && timeout <= U64_MAX
          && Sound(Armed(State(), id, timeout, interval))
      modifies this`linked, this`timers, this`counter, heap, owner.Keys`left, owner.Keys`right, owner.Keys`parent,
          owner.Keys`key
      ensures Valid() && State() == Armed(old(State()), id, timeout, interval)
    {
      var clamped := Clamp(time, timeout);
      var t := Timer(clamped, interval, counter, true, true, false);
      ghost var target := Armed(State(), id, timeout, interval);
      Number(id, t);
      assert State() == target;
    }

    /** uv_timer_start */
    method Start(id: nat, cb: bool, timeout: nat, interval: nat) returns (rc: int)
      requires Valid() && id < |timers| && timeout <= U64_MAX && interval <= U64_MAX
      modifies this`ready, this`linked, this`timers, this`counter, heap, owner.Keys`left, owner.Keys`right,
          owner.Keys`parent, owner.Keys`key
      ensures Valid() && State() == Started(old(State()), id, cb, timeout, interval)
      ensures rc == if old(timers)[id].closing || !cb then UV_EINVAL else 0
      ensures if rc == 0 then DueIn(old(State()), State(), id, timeout, interval) else State() == old(State())
    {
      if timers[id].closing || !cb { return UV_EINVAL; }
      ActSound(State(), id, Act.Start(cb, timeout, interval));
      StoppedThen(State(), id);
      StartedDue(State(), id, timeout, interval);
      Stop(id);
      Arm(id, timeout, interval);
      rc := 0;
    }

    /** uv_timer_again */
    method Again(id: nat) returns (rc: int)
      requires Valid() && id < |timers|
      modifies this`ready, this`linked, this`timers, this`counter, heap, owner.Keys`left, owner.Keys`right,
          owner.Keys`parent, owner.Keys`key
      ensures Valid() && State() == Restarted(old(State()), id)
      ensures rc == if old(timers)[id].hasCb then 0 else UV_EINVAL
      ensures var t := old(timers)[id];
        if !t.hasCb || t.repeat == 0 then State() == old(State())
        else !t.closing ==> DueIn(old(State()), State(), id, t.repeat, t.repeat)
    {
      if !timers[id].hasCb { return UV_EINVAL; }
      if timers[id].repeat != 0 {
        var interval := timers[id].repeat;
        if !timers[id].closing { RestartedDue(State(), id); }
        Stop(id);
        var _ := Start(id, true, interval, interval);
      }
      rc := 0;
    }

    /** A change of fields that neither starts nor stops the timer. */
    method Adjust(id: nat, t: Timer)
      requires HeapOk() && AllPlaced() && id < |timers| && t.active == timers[id].active && Rank(t) == Rank(timers[id])
      modifies this`timers
      ensures HeapOk() && AllPlaced() && timers == old(timers)[id := t]
    {
      SameCount(timers, id, t);
      assert Placed(id, timers[id]);
      timers := timers[id := t];
      OthersPlaced(id);
    }

    /** uv_timer_set_repeat */
    method SetInterval(id: nat, interval: nat)
      requires Valid() && id < |timers| && interval <= U64_MAX
      modifies this`timers
      ensures Valid() && State() == Acted(old(State()), id, SetRepeat(interval))
      ensures timers == old(timers)[id := old(timers)[id].(repeat := interval)]
    {
      ActSound(State(), id, SetRepeat(interval));
      Adjust(id, timers[id].(repeat := interval));
      assert State() == Acted(old(State()), id, SetRepeat(interval));
    }

    /** uv_close of a timer: the flag, and uv__timer_close. */
    method Close(id: nat)
      requires Valid() && id < |timers|
      modifies this`ready, this`linked, this`timers, heap, owner.Keys`left, owner.Keys`right, owner.Keys`parent
      ensures Valid() && State() == Closed(old(State()), id)
      ensures State() ==
          Loop(old(time), old(counter), old(timers)[id := old(timers)[id].(closing := true, active := false)], ready)
      ensures !old(timers)[id].active || id !in old(ready) ==> id !in ready
    {
      ghost var s := State();
      MarkSound(s, id);
      ClosedFields(s, id);
      Adjust(id, timers[id].(closing := true));
      assert State() == s.(timers := s.timers[id := s.timers[id].(closing := true)]);
      Stop(id);
    }

    /** What a callback does, call by call. */
    method Callback(ops: seq<Op>)
      requires Valid() && OpsInRange(ops) && |timers| + Created(ops) < U32_MAX
      modifies this, heap, owner.Keys
      ensures Grew(old(owner.Keys))
      ensures Valid() && State() == PerformAll(old(State()), ops)
    {
      var rest := ops;
      while rest != []
        invariant Valid() && OpsInRange(rest) && PerformAll(State(), rest) == PerformAll(old(State()), ops)
        invariant |timers| + Created(rest) < U32_MAX
        invariant Grew(old(owner.Keys))
        decreases |rest|
      {
        ghost var before := State();
        PerformSize(before, rest);
        Step(rest[0]);
        assert PerformAll(before, rest) == PerformAll(State(), rest[1..]);
        rest := rest[1..];
      }
    }

    /** One call of a timer function. */
    method Invoke(id: nat, act: Act)
      requires Valid() && id < |timers| && ActInRange(act)
      modifies this`ready, this`linked, this`timers, this`counter
      modifies heap, owner.Keys`left, owner.Keys`right, owner.Keys`parent, owner.Keys`key
      ensures Valid() && State() == Acted(old(State()), id, act)
    {
      match act
      case Start(cb, timeout, interval) => var _ := Start(id, cb, timeout, interval);
      case Stop => Stop(id);
      case Again => var _ := Again(id);
      case SetRepeat(interval) => SetInterval(id, interval);
      case Close => Close(id);
    }

    method Step(op: Op)
      requires Valid() && OpInRange(op) && |timers| + Created([op]) < U32_MAX
      modifies this, heap, owner.Keys
      ensures Valid() && State() == Perform(old(State()), op) && Grew(old(owner.Keys))
    {
      match op
      case SetTime(now) => time := now;
      case Create => var _ := Init();
      case Call(id, act) => if id < |timers| { Invoke(id, act); }
    }

    /** The handle at the root of the heap, or -1. */
    method First() returns (id: int)
      requires Valid()
      ensures id == Earliest(State(), |timers|)
    {
      var m := heap.Min();
      if m == null {
        forall i | 0 <= i < |timers| ensures !timers[i].active { assert Placed(i, timers[i]); }
        return -1;
      }
      id := owner[m];
      assert Placed(id, timers[id]);
      forall j | 0 <= j < |timers| && timers[j].active && j != id ensures Less(Rank(timers[id]), Rank(timers[j])) {
        assert Placed(j, timers[j]) && nodes[j] in linked;
      }
      FirstIsEarliest(State(), id);
    }

    /** uv__next_timeout: -1 if no timer is active, otherwise the least waiting time of any, capped. */
    method NextTimeout() returns (r: int)
      requires Valid()
      ensures r == -1 <==> forall i | 0 <= i < |timers| :: !timers[i].active
      ensures r != -1 ==>
          0 <= r <= INT_MAX && forall i | 0 <= i < |timers| && timers[i].active ::
              r == 0 || time + r <= timers[i].timeout
      ensures r != -1 ==> exists i | 0 <= i < |timers| && timers[i].active ::
          if timers[i].timeout <= time then r == 0
          else r == INT_MAX < timers[i].timeout - time || time + r == timers[i].timeout
    {
      var id := First();
      EarliestIsFirst(State(), |timers|);
      if id < 0 { return -1; }
      if timers[id].timeout <= time { return 0; }
      var diff := timers[id].timeout - time;
      if diff > INT_MAX { diff := INT_MAX; }
      r := diff;
    }

    /** Lines 174-183: the earliest timer goes to the queue if it is due. */
    method MoveFirst() returns (moved: bool)
      requires Valid()
      modifies this`ready, this`linked, this`timers, heap, owner.Keys`left, owner.Keys`right, owner.Keys`parent
      ensures Valid() && Collect(State()) == Collect(old(State()))
      ensures if moved then ActiveCount(timers) < ActiveCount(old(timers))
          else State() == old(State()) && Collect(State()) == State()
    {
      var id := First();
      CollectStep(State());
      if id < 0 { return false; }
      if timers[id].timeout > time { return false; }
      Enqueue(id);
      moved := true;
    }

    method Enqueue(id: nat)
      requires Valid() && id < |timers| && timers[id].active
      modifies this`ready, this`linked, this`timers, heap, owner.Keys`left, owner.Keys`right, owner.Keys`parent
      ensures Valid() && State() == ToQueue(old(State()), id)
    {
      Stop(id);
      InsertTail(id);
    }

    method InsertTail(id: nat)
      requires Valid()
      modifies this`ready
      ensures Valid() && State() == old(State()).(ready := old(ready) + [id])
    {
      ghost var target := State().(ready := ready + [id]);
      assert Sound(target);
      ready := ready + [id];
      assert State() == target;
    }

    /** First loop of uv__run_timers. */
    method CollectDue()
      requires Valid()
      modifies this`ready, this`linked, this`timers, heap, owner.Keys`left, owner.Keys`right, owner.Keys`parent
      ensures Valid() && State() == Collect(old(State()))
    {
      var moved := true;
      while moved
        invariant Valid() && Collect(State()) == Collect(old(State())) && (!moved ==> Collect(State()) == State())
        decreases ActiveCount(timers), moved
      {
        moved := MoveFirst();
      }
    }

    /** Lines 187-193: one turn of the second loop. */
    method RunFirst(ops: seq<Op>) returns (id: nat)
      requires Valid() && ready != [] && Idle(State()) && |timers| + Created(ops) < U32_MAX && OpsInRange(ops)
      modifies this, heap, owner.Keys
      ensures Grew(old(owner.Keys))
      ensures Valid() && id == old(ready)[0] && Known(old(State()), id)
          && State() == PerformAll(Popped(old(State())), ops)
    {
      id := ready[0];
      assert id in ready;
      ready := ready[1..];
      assert State() == old(State()).(ready := old(ready)[1..]);
      var _ := Again(id);
      Callback(ops);
    }

    /** uv__run_timers, whatever its callbacks do. */
    method RunTimers(script: seq<seq<Op>>) returns (ran: seq<nat>)
      requires Valid() && ready == [] && |timers| + CreatedIn(script) < U32_MAX && ScriptInRange(script)
      modifies this, heap, owner.Keys
      ensures Grew(old(owner.Keys))
      ensures Valid() && State() == Run(old(State()), script).end && ran == Run(old(State()), script).ran
    {
      CollectsInOrder(State());
      SortedQueue(Collect(State()));
      CollectDue();
      ran := FireAll(script);
    }

    /** Second loop of uv__run_timers. */
    method FireAll(script: seq<seq<Op>>) returns (ran: seq<nat>)
      requires Valid() && Idle(State()) && Distinct(ready) && |timers| + CreatedIn(script) < U32_MAX
          && ScriptInRange(script)
      modifies this, heap, owner.Keys
      ensures Grew(old(owner.Keys))
      ensures Valid() && State() == Fire(old(State()), script).end && ran == Fire(old(State()), script).ran
    {
      ghost var p := Fire(State(), script);
      ran := [];
      var rest := script;
      assert [] + p.ran == p.ran;
      while ready != []
        invariant Valid() && Idle(State()) && Distinct(ready) && ScriptInRange(rest)
        invariant |timers| + CreatedIn(rest) < U32_MAX
        invariant Grew(old(owner.Keys))
        invariant Fire(State(), rest).end == p.end && p.ran == ran + Fire(State(), rest).ran
        decreases |ready|
      {
        var id := FireOne(rest);
        rest := Tail(rest);
        Joined(ran, id, Fire(State(), rest).ran);
        ran := ran + [id];
      }
    }

    method FireOne(script: seq<seq<Op>>) returns (id: nat)
      requires Valid() && ready != [] && Idle(State()) && Distinct(ready)
      requires |timers| + CreatedIn(script) < U32_MAX && ScriptInRange(script)
      modifies this, heap, owner.Keys
      ensures Grew(old(owner.Keys))
      ensures Valid() && Idle(State()) && Distinct(ready) && |ready| < |old(ready)|
      ensures |timers| + CreatedIn(Tail(script)) < U32_MAX && ScriptInRange(Tail(script))
      ensures Fire(old(State()), script).end == Fire(State(), Tail(script)).end
      ensures Fire(old(State()), script).ran == [id] + Fire(State(), Tail(script)).ran
    {
      TurnQueue(State(), Head(script));
      FireStep(State(), script);
      id := RunFirst(Head(script));
    }
  }
}
