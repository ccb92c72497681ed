/** In which order the pool of src/threadpool.c starts work and makes callbacks, in every run. */
module PoolOrder {
  import opened Common
  import opened Runs
  import opened ThreadPool

  predicate IsSlow(items: seq<Item>, id: Id) { id < |items| && items[id].kind.SlowIo? }

  /** The slow ones among the items started, or the others, in the order of their starts. */
  function Started(ran: seq<Id>, items: seq<Item>, slow: bool): seq<Id> {
    if ran == [] then []
    else
      var last := |ran| - 1;
      Started(ran[..last], items, slow) + if IsSlow(items, ran[last]) == slow then [ran[last]] else []
  }

  function Works(wq: seq<Entry>): seq<Id> {
    if wq == [] then [] else (if wq[0].Work? then [wq[0].id] else []) + Works(wq[1..])
  }

  /** Started, and then still queued: first come, first served is that this only grows at its end. */
  function Line(p: Pool, slow: bool): seq<Id> {
    Started(p.ran, p.items, slow) + if slow then p.slowPending else Works(p.wq)
  }

  /** Numbers below n, in increasing order. */
  predicate Increasing(s: seq<Id>, n: nat) {
    && (forall i | 0 <= i < |s| :: s[i] < n)
    && (forall i, j | 0 <= i < j < |s| :: s[i] < s[j])
  }

  ghost predicate Ordered(p: Pool, slow: bool) { Increasing(Line(p, slow), |p.items|) }

  ghost predicate InOrder(p: Pool) { Ordered(p, true) && Ordered(p, false) }

  // ---------- Lists ----------

  lemma {:induction false} WorksJoin(a: seq<Entry>, b: seq<Entry>)
    ensures Works(a + b) == Works(a) + Works(b)
  {
    if a == [] {
      assert a + b == b;
    } else {
      var h := if a[0].Work? then [a[0].id] else [];
      assert (a + b)[0] == a[0] && (a + b)[1..] == a[1..] + b;
      WorksJoin(a[1..], b);
      assert h + (Works(a[1..]) + Works(b)) == h + Works(a[1..]) + Works(b);
    }
  }

  lemma {:induction false} WorksWithout(wq: seq<Entry>, id: Id)
    ensures Works(Without(wq, Work(id))) == Without(Works(wq), id)
  {
    if wq != [] {
      WorksWithout(wq[1..], id);
      var w, rest := wq[0], Without(wq[1..], Work(id));
      if w == Work(id) {
        assert ([id] + Works(wq[1..]))[1..] == Works(wq[1..]);
      } else {
        assert ([w] + rest)[1..] == rest;
        if w.Work? {
          assert ([w.id] + Works(wq[1..]))[1..] == Works(wq[1..]);
        } else {
          assert Works(wq) == Works(wq[1..]) && Works([w] + rest) == Works(rest);
        }
      }
    }
  }

  lemma {:induction false} WorksMember(wq: seq<Entry>, id: Id)
    ensures id in Works(wq) <==> Work(id) in wq
  {
    if wq != [] { WorksMember(wq[1..], id); }
  }

  lemma {:induction false} StartedMember(ran: seq<Id>, items: seq<Item>, slow: bool, id: Id)
    ensures id in Started(ran, items, slow) <==> id in ran && IsSlow(items, id) == slow
  {
    if ran != [] {
      StartedMember(ran[..|ran| - 1], items, slow, id);
      assert ran == ran[..|ran| - 1] + [ran[|ran| - 1]];
    }
  }

  lemma {:induction false} StartedOne(ran: seq<Id>, items: seq<Item>, slow: bool, id: Id)
    ensures Started(ran + [id], items, slow) ==
        Started(ran, items, slow) + if IsSlow(items, id) == slow then [id] else []
  {
    assert (ran + [id])[..|ran|] == ran;
  }

  ghost predicate SameKinds(items: seq<Item>, more: seq<Item>) {
    |items| <= |more| && forall k | 0 <= k < |items| :: more[k].kind == items[k].kind
  }

  lemma {:induction false} StartedKinds(ran: seq<Id>, items: seq<Item>, more: seq<Item>, slow: bool)
    requires SameKinds(items, more) && forall id | id in ran :: id < |items|
    ensures Started(ran, more, slow) == Started(ran, items, slow)
  {
    if ran != [] {
      var front := ran[..|ran| - 1];
      forall id | id in front ensures id < |items| { assert id in ran; }
      assert ran[|ran| - 1] in ran;
      StartedKinds(front, items, more, slow);
    }
  }

  lemma {:induction false} WithoutIncreasing(a: seq<Id>, b: seq<Id>, x: Id, n: nat)
    requires Increasing(a + b, n)
    ensures Increasing(a + Without(b, x), n)
    decreases |b|
  {
    if b != [] {
      var t := b[1..];
      if b[0] == x {
        var s := a + b;
        assert a + t == s[..|a|] + s[|a| + 1..];
        WithoutIncreasing(a, t, x, n);
      } else {
        assert a + b == a + [b[0]] + t && a + ([b[0]] + Without(t, x)) == a + [b[0]] + Without(t, x);
        WithoutIncreasing(a + [b[0]], t, x, n);
      }
    }
  }

  // ---------- What a step does to the lines ----------

  /** Nothing moved from or to a line. */
  lemma {:induction false} LineSame(p: Pool, q: Pool, slow: bool)
    requires ItemInv(p) && SameKinds(p.items, q.items) && q.ran == p.ran
    requires q.slowPending == p.slowPending && Works(q.wq) == Works(p.wq)
    ensures Line(q, slow) == Line(p, slow)
  {
    RanKnown(p);
    StartedKinds(p.ran, p.items, q.items, slow);
  }

  lemma {:induction false} RanKnown(p: Pool)
    requires ItemInv(p)
    ensures forall id | id in p.ran :: id < |p.items|
  {
    forall id | id in p.ran ensures id < |p.items| { assert ItemOk(p, id); }
  }

  /** The head of a queue starts: it moves from one part of the line to the other. */
  lemma {:induction false} StartMoves(p: Pool, i: nat, id: Id, rest: seq<Id>, slow: bool)
    requires ItemInv(p) && i < |p.workers| && id < |p.items|
    ensures Started(Start(p, i, id, slow).ran, Start(p, i, id, slow).items, slow) + rest ==
        Started(p.ran, p.items, slow) + (if IsSlow(p.items, id) == slow then [id] + rest else rest)
    ensures IsSlow(p.items, id) == slow ==>
        Started(Start(p, i, id, slow).ran, Start(p, i, id, slow).items, !slow) == Started(p.ran, p.items, !slow)
  {
    RanKnown(p);
    MarkKinds(p.items, id, UserWork, false);
    StartedMoves(p.ran, p.items, MarkItem(p.items, id, UserWork, false), id, rest, slow);
    StartedMoves(p.ran, p.items, MarkItem(p.items, id, UserWork, false), id, rest, !slow);
  }

  lemma {:induction false} MarkKinds(items: seq<Item>, id: Id, work: WorkFn, linked: bool)
    ensures SameKinds(items, MarkItem(items, id, work, linked)) && |MarkItem(items, id, work, linked)| == |items|
  {
  }

  lemma {:induction false} StartedMoves(ran: seq<Id>, items: seq<Item>, more: seq<Item>, id: Id, rest: seq<Id>,
      slow: bool)
    requires SameKinds(items, more) && |items| == |more| && id < |items| && forall x | x in ran :: x < |items|
    ensures Started(ran + [id], more, slow) + rest ==
        Started(ran, items, slow) + (if IsSlow(items, id) == slow then [id] + rest else rest)
    ensures IsSlow(items, id) != slow ==> Started(ran + [id], more, slow) == Started(ran, items, slow)
  {
    StartedOne(ran, more, slow, id);
    StartedKinds(ran, items, more, slow);
    assert Started(ran, items, slow) + [id] + rest == Started(ran, items, slow) + ([id] + rest);
  }

  lemma {:induction false} TakeLine(p: Pool, i: nat, slow: bool)
    requires ItemInv(p) && i < |p.workers| && p.wq != [] && p.wq[0].Work?
    ensures Line(Start(p.(wq := p.wq[1..]), i, p.wq[0].id, false), slow) == Line(p, slow)
  {
    var id := p.wq[0].id;
    assert p.wq[0] in p.wq && ItemOk(p, id);
    assert multiset(p.wq)[Work(id)] > 0;
    var q := p.(wq := p.wq[1..]);
    StartedStart(p, q, i, id, false);
    StartMoves(p, i, id, Works(p.wq[1..]), false);
  }

  /** Where the queues are does not matter to what `Start` records. */
  lemma {:induction false} StartedStart(p: Pool, q: Pool, i: nat, id: Id, slow: bool)
    requires q.items == p.items && q.ran == p.ran && i < |p.workers| && i < |q.workers|
    ensures Start(q, i, id, slow).ran == Start(p, i, id, slow).ran
        && Start(q, i, id, slow).items == Start(p, i, id, slow).items
  {
  }

  lemma {:induction false} GrabWorks(p: Pool, wake: nat)
    requires p.wq != [] && p.wq[0].RunSlowWork? && p.slowPending != []
    ensures var q := GrabSlow(p, wake);
        Works(q.wq) == Works(p.wq) && q.items == p.items && q.ran == p.ran && q.slowPending == p.slowPending[1..]
  {
    WorksEnd(p.wq[1..], RunSlowWork);
  }

  lemma {:induction false} TakeSlowLine(p: Pool, i: nat, wake: nat, slow: bool)
    requires ItemInv(p) && i < |p.workers| && p.wq != [] && p.wq[0].RunSlowWork? && p.slowPending != []
    ensures Line(Start(GrabSlow(p, wake), i, p.slowPending[0], true), slow) == Line(p, slow)
  {
    var id := p.slowPending[0];
    assert multiset(p.slowPending)[id] > 0 && ItemOk(p, id);
    GrabWorks(p, wake);
    StartedStart(p, GrabSlow(p, wake), i, id, true);
    StartMoves(p, i, id, p.slowPending[1..], true);
    assert p.slowPending == [id] + p.slowPending[1..];
  }

  lemma {:induction false} GoAroundWorks(p: Pool)
    requires GoesAround(p)
    ensures Works(GoAround(p).wq) == Works(p.wq)
  {
    WorksEnd(p.wq[1..], RunSlowWork);
  }

  lemma {:induction false} PickLine(p: Pool, i: nat, wake: nat, slow: bool)
    requires ItemInv(p) && SchedInv(p) && i < |p.workers| && p.workers[i] == Ready(false) && WakeOk(p, wake)
    ensures Line(Pick(p, i, wake), slow) == Line(p, slow) && |Pick(p, i, wake).items| == |p.items|
    decreases |p.wq|, if p.wq != [] && p.wq[0].RunSlowWork? then 1 else 0
  {
    if GoesAround(p) {
      GoAroundShrinks(p);
      GoAroundInv(p);
      GoAroundWorks(p);
      LineSame(p, GoAround(p), slow);
      PickLine(GoAround(p), i, wake, slow);
    } else if MustWait(p) {
      LineSame(p, Settle(p, i, wake), slow);
    } else if p.wq[0].Work? {
      TakeLine(p, i, slow);
    } else {
      TakeSlowLine(p, i, wake, slow);
      GrabWorks(p, wake);
    }
  }

  lemma {:induction false} WorkerLine(p: Pool, i: nat, wake: nat, slow: bool)
    requires ItemInv(p) && SchedInv(p) && Enabled(p, WorkerLock(i, wake))
    ensures var q := Pick(Retake(p, i), i, wake); Line(q, slow) == Line(p, slow) && |q.items| == |p.items|
  {
    var r := Retake(p, i);
    RetakeInv(p, i);
    assert r.workers[i] == Ready(false) && (Waiting in r.workers ==> Waiting in p.workers);
    assert Line(r, slow) == Line(p, slow);
    PickLine(r, i, wake, slow);
  }

  /** A submission joins its line at the end. */
  lemma {:induction false} PostLine(p: Pool, kind: Kind, wake: nat, slow: bool)
    requires ItemInv(p)
    ensures var q := Post(p, kind, wake);
      |q.items| == |p.items| + 1 && Line(q, slow) == Line(p, slow) + if kind.SlowIo? == slow then [|p.items|] else []
  {
    var q := Post(p, kind, wake);
    PostQueues(p, kind, wake);
    RanKnown(p);
    JoinLine(p, q, slow, kind);
  }

  lemma {:induction false} JoinLine(p: Pool, q: Pool, slow: bool, kind: Kind)
    requires q.items == p.items + [Item(kind, UserWork, true)] && q.ran == p.ran
    requires forall id | id in p.ran :: id < |p.items|
    requires q.slowPending == p.slowPending + (if kind.SlowIo? then [|p.items|] else [])
    requires Works(q.wq) == Works(p.wq) + if kind.SlowIo? then [] else [|p.items|]
    ensures Line(q, slow) == Line(p, slow) + if kind.SlowIo? == slow then [|p.items|] else []
  {
    StartedKinds(p.ran, p.items, q.items, slow);
  }

  lemma {:induction false} PostQueues(p: Pool, kind: Kind, wake: nat)
    ensures var n, q := |p.items|, Post(p, kind, wake);
      && q.items == p.items + [Item(kind, UserWork, true)] && q.ran == p.ran
      && q.slowPending == p.slowPending + (if kind.SlowIo? then [n] else [])
      && Works(q.wq) == Works(p.wq) + if kind.SlowIo? then [] else [n]
  {
    var n := |p.items|;
    WorksEnd(p.wq, Work(n));
    WorksEnd(p.wq, RunSlowWork);
  }

  lemma {:induction false} WorksEnd(wq: seq<Entry>, e: Entry)
    ensures Works(wq + [e]) == Works(wq) + if e.Work? then [e.id] else []
  {
    WorksJoin(wq, [e]);
    assert Works([e]) == (if e.Work? then [e.id] else []) + Works([]);
  }

  lemma {:induction false} DetachLine(p: Pool, id: Id, slow: bool, n: nat)
    requires Increasing(Line(p, slow), n)
    ensures Increasing(Line(Detach(p, id), slow), n)
  {
    var q := Detach(p, id);
    WorksWithout(p.wq, id);
    WithoutIncreasing(Started(p.ran, p.items, slow), if slow then p.slowPending else Works(p.wq), id, n);
  }

  lemma {:induction false} StepOrder(p: Pool, s: Step)
    requires Inv(p) && InOrder(p) && Enabled(p, s)
    ensures InOrder(Apply(p, s))
  {
    StepLine(p, s, true);
    StepLine(p, s, false);
  }

  lemma {:induction false} StepLine(p: Pool, s: Step, slow: bool)
    requires Inv(p) && Ordered(p, slow) && Enabled(p, s)
    ensures Ordered(Apply(p, s), slow)
  {
    match s
    case WorkerLock(i, wake) => WorkerLine(p, i, wake, slow);
    case Submit(kind, wake) => PostLine(p, kind, wake, slow);
    case CancelDetach(id) => if CancelGuard(p, id) { DetachLine(p, id, slow, |p.items|); }
    case _ => LoopLine(p, s, slow);
  }

  lemma {:induction false} LoopLine(p: Pool, s: Step, slow: bool)
    requires Inv(p) && Enabled(p, s) && !s.WorkerLock? && !s.Submit? && !s.CancelDetach?
    ensures Line(Apply(p, s), slow) == Line(p, slow) && |Apply(p, s).items| == |p.items|
  {
    LineSame(p, Apply(p, s), slow);
  }

  // ---------- First come, first served ----------

  lemma {:induction false} RunOrder(nthreads: nat, steps: seq<Step>, trace: seq<Pool>, k: nat)
    requires nthreads >= 1 && Run(nthreads, steps, trace) && k < |trace|
    ensures Inv(trace[k]) && InOrder(trace[k])
  {
    var inv := (p: Pool) => Inv(p) && InOrder(p);
    InitInv(nthreads);
    forall p: Pool, s: Step, q: Pool | inv(p) && Next(p, s, q) ensures inv(q) {
      StepInv(p, s);
      StepOrder(p, s);
    }
    Invariant(Init(nthreads), Next, inv, steps, trace, k);
    assert inv(trace[k]);
  }

  lemma {:induction false} StartedPair(ran: seq<Id>, items: seq<Item>, slow: bool, a: nat, b: nat, n: nat)
    requires Increasing(Started(ran, items, slow), n) && a < b < |ran|
    requires IsSlow(items, ran[a]) == slow && IsSlow(items, ran[b]) == slow
    ensures ran[a] < ran[b]
  {
    var front, s := ran[..|ran| - 1], Started(ran, items, slow);
    var t := Started(front, items, slow);
    assert s[..|t|] == t;
    assert forall k | 0 <= k < |t| :: t[k] == s[k];
    if b < |front| {
      assert front[a] == ran[a] && front[b] == ran[b];
      StartedPair(front, items, slow, a, b, n);
    } else {
      assert front[a] == ran[a];
      StartedMember(front, items, slow, ran[a]);
      assert s == t + [ran[b]];
      var c :| 0 <= c < |t| && t[c] == ran[a];
      assert s[c] == ran[a] && s[|t|] == ran[b];
    }
  }

  /** Slow items start in the order of their submission, and so do all the others. */
  lemma {:induction false} StartsInOrder(nthreads: nat, steps: seq<Step>, trace: seq<Pool>, k: nat, a: nat, b: nat)
    requires nthreads >= 1 && Run(nthreads, steps, trace) && k < |trace| && a < b < |trace[k].ran|
    ensures var p := trace[k];
      p.ran[a] < |p.items| && p.ran[b] < |p.items|
      && (p.items[p.ran[a]].kind.SlowIo? == p.items[p.ran[b]].kind.SlowIo? ==> p.ran[a] < p.ran[b])
  {
    RunOrder(nthreads, steps, trace, k);
    PairOrder(trace[k], a, b);
  }

  lemma {:induction false} PairOrder(p: Pool, a: nat, b: nat)
    requires ItemInv(p) && InOrder(p) && a < b < |p.ran|
    ensures p.ran[a] < |p.items| && p.ran[b] < |p.items|
    ensures p.items[p.ran[a]].kind.SlowIo? == p.items[p.ran[b]].kind.SlowIo? ==> p.ran[a] < p.ran[b]
  {
    RanKnown(p);
    assert p.ran[a] in p.ran && p.ran[b] in p.ran;
    var slow := IsSlow(p.items, p.ran[a]);
    var s := Started(p.ran, p.items, slow);
    FrontIncreasing(s, if slow then p.slowPending else Works(p.wq), |p.items|);
    if IsSlow(p.items, p.ran[b]) == slow { StartedPair(p.ran, p.items, slow, a, b, |p.items|); }
  }

  lemma {:induction false} FrontIncreasing(a: seq<Id>, b: seq<Id>, n: nat)
    requires Increasing(a + b, n)
    ensures Increasing(a, n)
  {
    assert forall k | 0 <= k < |a| :: (a + b)[k] == a[k];
  }

  /** Nobody is passed over: when an item has started, so has every item of its kind submitted before it, unless
      that one was cancelled. */
  lemma {:induction false} NobodyPassedOver(nthreads: nat, steps: seq<Step>, trace: seq<Pool>, k: nat, i: Id, j: Id)
    requires nthreads >= 1 && Run(nthreads, steps, trace) && k < |trace| && i < j < |trace[k].items|
    requires trace[k].items[i].kind.SlowIo? == trace[k].items[j].kind.SlowIo?
    requires i !in trace[k].cancelled && j in trace[k].ran
    ensures i in trace[k].ran
  {
    RunOrder(nthreads, steps, trace, k);
    if i !in trace[k].ran { Overtaken(trace[k], i, j); }
  }

  lemma {:induction false} Overtaken(p: Pool, i: Id, j: Id)
    requires ItemInv(p) && InOrder(p) && i < |p.items| && j < |p.items|
        && p.items[i].kind.SlowIo? == p.items[j].kind.SlowIo?
    requires i !in p.ran && i !in p.cancelled && j in p.ran
    ensures j < i
  {
    var slow := p.items[i].kind.SlowIo?;
    StillQueued(p, i);
    WorksMember(p.wq, i);
    StartedMember(p.ran, p.items, slow, j);
    assert Ordered(p, slow);
    Behind(Started(p.ran, p.items, slow), if slow then p.slowPending else Works(p.wq), i, j, |p.items|);
  }

  lemma {:induction false} Behind(s: seq<Id>, q: seq<Id>, i: Id, j: Id, n: nat)
    requires Increasing(s + q, n) && j in s && i in q
    ensures j < i
  {
    var a :| 0 <= a < |s| && s[a] == j;
    var b :| 0 <= b < |q| && q[b] == i;
    assert (s + q)[a] == j && (s + q)[|s| + b] == i;
  }

  /** An item that has neither started nor been cancelled is in the queue of its kind. */
  lemma {:induction false} StillQueued(p: Pool, id: Id)
    requires ItemInv(p) && id < |p.items| && id !in p.ran && id !in p.cancelled
    ensures if p.items[id].kind.SlowIo? then id in p.slowPending else Work(id) in p.wq
  {
    assert ItemOk(p, id);
    assert Places(p, id) == 1;
  }

  // ---------- Slow work waits for the rest of the queue ----------

  /** The slow-work token comes before the item in the queue. */
  predicate TokenBefore(wq: seq<Entry>, x: Id) {
    wq != [] && (wq[0].RunSlowWork? || (wq[0] != Work(x) && TokenBefore(wq[1..], x)))
  }

  /** Slow starts so far, and one to come if the token is ahead of the item. */
  function Ahead(p: Pool, x: Id): nat {
    |Started(p.ran, p.items, true)| + if TokenBefore(p.wq, x) then 1 else 0
  }

  lemma {:induction false} TokenBehind(wq: seq<Entry>, more: seq<Entry>, x: Id)
    requires Work(x) in wq
    ensures TokenBefore(wq + more, x) <==> TokenBefore(wq, x)
  {
    assert (wq + more)[1..] == wq[1..] + more;
    if wq[0] != Work(x) {
      assert Work(x) in wq[1..];
      TokenBehind(wq[1..], more, x);
    }
  }

  lemma {:induction false} NoToken(wq: seq<Entry>, x: Id)
    requires multiset(wq)[RunSlowWork] == 0
    ensures !TokenBefore(wq, x)
  {
    if wq != [] {
      SplitHead(wq);
      NoToken(wq[1..], x);
    }
  }

  lemma {:induction false} TokenWithout(wq: seq<Entry>, x: Id, y: Id)
    requires x != y
    ensures TokenBefore(Without(wq, Work(y)), x) <==> TokenBefore(wq, x)
  {
    if wq != [] {
      TokenWithout(wq[1..], x, y);
      if wq[0] != Work(y) { assert ([wq[0]] + Without(wq[1..], Work(y)))[1..] == Without(wq[1..], Work(y)); }
    }
  }

  /** If the item is still queued afterwards, it was before, and no more slow work can start ahead of it. */
  ghost predicate Waits(p: Pool, q: Pool, x: Id) {
    && p.ran <= q.ran && |p.items| <= |q.items|
    && (x < |p.items| && Work(x) in q.wq ==> Work(x) in p.wq && Ahead(q, x) <= Ahead(p, x))
  }

  lemma {:induction false} GoAroundWaits(p: Pool, x: Id)
    requires ItemInv(p) && TokenOnce(p.wq) && GoesAround(p)
    ensures Waits(p, GoAround(p), x)
  {
    SplitHead(p.wq);
    NoToken(p.wq[1..], x);
    if Work(x) in p.wq[1..] { TokenBehind(p.wq[1..], [RunSlowWork], x); }
  }

  lemma {:induction false} TakeWaits(p: Pool, i: nat, x: Id)
    requires ItemInv(p) && i < |p.workers| && p.wq != [] && p.wq[0].Work?
    ensures Waits(p, Start(p.(wq := p.wq[1..]), i, p.wq[0].id, false), x)
  {
    var id, q := p.wq[0].id, Start(p.(wq := p.wq[1..]), i, p.wq[0].id, false);
    assert ItemOk(p, id);
    SplitHead(p.wq);
    StartMoves(p, i, id, [], false);
    StartedStart(p, p.(wq := p.wq[1..]), i, id, false);
  }

  lemma {:induction false} TakeSlowWaits(p: Pool, i: nat, wake: nat, x: Id)
    requires ItemInv(p) && i < |p.workers| && p.wq != [] && p.wq[0].RunSlowWork? && TokenOnce(p.wq)
        && p.slowPending != []
    ensures Waits(p, Start(GrabSlow(p, wake), i, p.slowPending[0], true), x)
  {
    var id, g := p.slowPending[0], GrabSlow(p, wake);
    assert multiset(p.slowPending)[id] > 0 && ItemOk(p, id);
    GrabWorks(p, wake);
    StartedStart(p, g, i, id, true);
    StartMoves(p, i, id, [], true);
    TokenGone(p, wake, x);
  }

  /** The token leaves the head, and at most comes back behind everything. */
  lemma {:induction false} TokenGone(p: Pool, wake: nat, x: Id)
    requires p.wq != [] && p.wq[0].RunSlowWork? && TokenOnce(p.wq) && p.slowPending != []
    ensures var g := GrabSlow(p, wake);
      Work(x) in g.wq ==> Work(x) in p.wq && TokenBefore(p.wq, x) && !TokenBefore(g.wq, x)
  {
    SplitHead(p.wq);
    NoToken(p.wq[1..], x);
    if Work(x) in p.wq[1..] { TokenBehind(p.wq[1..], [RunSlowWork], x); }
    GrabQueue(p, wake);
  }

  lemma {:induction false} GrabQueue(p: Pool, wake: nat)
    requires p.wq != [] && p.slowPending != []
    ensures GrabSlow(p, wake).wq == p.wq[1..] || GrabSlow(p, wake).wq == p.wq[1..] + [RunSlowWork]
  {
  }

  lemma {:induction false} WaitsOn(p: Pool, q: Pool, r: Pool, x: Id)
    requires Waits(p, q, x) && Waits(q, r, x)
    ensures Waits(p, r, x)
  {
  }

  lemma {:induction false} PickWaits(p: Pool, i: nat, wake: nat, x: Id)
    requires ItemInv(p) && SchedInv(p) && i < |p.workers| && p.workers[i] == Ready(false) && WakeOk(p, wake)
    ensures Waits(p, Pick(p, i, wake), x)
    decreases |p.wq|, if p.wq != [] && p.wq[0].RunSlowWork? then 1 else 0
  {
    if GoesAround(p) {
      GoAroundShrinks(p);
      GoAroundInv(p);
      GoAroundWaits(p, x);
      PickWaits(GoAround(p), i, wake, x);
      WaitsOn(p, GoAround(p), Pick(GoAround(p), i, wake), x);
    } else if !MustWait(p) {
      if p.wq[0].Work? { TakeWaits(p, i, x); } else { TakeSlowWaits(p, i, wake, x); }
    }
  }

  lemma {:induction false} PostWaits(p: Pool, kind: Kind, wake: nat, x: Id)
    requires ItemInv(p)
    ensures Waits(p, Post(p, kind, wake), x)
  {
    var more := AddedBehind(p, kind, wake, x);
    RanKnown(p);
    StartedKinds(p.ran, p.items, Post(p, kind, wake).items, true);
    if Work(x) in p.wq { TokenBehind(p.wq, more, x); }
  }

  lemma {:induction false} AddedBehind(p: Pool, kind: Kind, wake: nat, x: Id) returns (more: seq<Entry>)
    ensures var q := Post(p, kind, wake);
      q.wq == p.wq + more && q.items == p.items + [Item(kind, UserWork, true)] && q.ran == p.ran
    ensures x < |p.items| ==> Work(x) !in more
  {
    more := if !kind.SlowIo? then [Work(|p.items|)] else if p.tokenLinked then [] else [RunSlowWork];
  }

  lemma {:induction false} DetachWaits(p: Pool, id: Id, x: Id)
    ensures Waits(p, Detach(p, id), x)
  {
    WithoutMember(p.wq, Work(id), Work(x));
    if x != id { TokenWithout(p.wq, x, id); }
  }

  lemma {:induction false} LoopWaits(p: Pool, s: Step, x: Id)
    requires Inv(p) && Enabled(p, s) && !s.WorkerLock? && !s.Submit? && !s.CancelDetach?
    ensures Waits(p, Apply(p, s), x)
  {
    RanKnown(p);
    StartedKinds(p.ran, p.items, Apply(p, s).items, true);
  }

  lemma {:induction false} WorkerWaits(p: Pool, i: nat, wake: nat, x: Id)
    requires ItemInv(p) && SchedInv(p) && Enabled(p, WorkerLock(i, wake))
    ensures Waits(p, Pick(Retake(p, i), i, wake), x)
  {
    var r := Retake(p, i);
    RetakeInv(p, i);
    assert r.workers[i] == Ready(false) && (Waiting in r.workers ==> Waiting in p.workers);
    assert Waits(p, r, x);
    PickWaits(r, i, wake, x);
    WaitsOn(p, r, Pick(r, i, wake), x);
  }

  lemma {:induction false} StepWaits(p: Pool, s: Step, x: Id)
    requires Inv(p) && Enabled(p, s)
    ensures Waits(p, Apply(p, s), x)
  {
    match s
    case WorkerLock(i, wake) => WorkerWaits(p, i, wake, x);
    case Submit(kind, wake) => PostWaits(p, kind, wake, x);
    case CancelDetach(id) => if CancelGuard(p, id) { DetachWaits(p, id, x); }
    case _ => LoopWaits(p, s, x);
  }

  lemma {:induction false} RunWaits(nthreads: nat, steps: seq<Step>, trace: seq<Pool>, j: nat, k: nat, x: Id)
    requires nthreads >= 1 && Run(nthreads, steps, trace) && j <= k < |trace|
    ensures Waits(trace[j], trace[k], x)
  {
    var inv := (p: Pool) => Inv(p);
    var leq := (p: Pool, q: Pool) => Waits(p, q, x);
    InitInv(nthreads);
    forall p: Pool, s: Step, q: Pool | inv(p) && Next(p, s, q) ensures inv(q) && leq(p, q) {
      StepInv(p, s);
      StepWaits(p, s, x);
    }
    Related(Init(nthreads), Next, inv, leq, steps, trace, j, k);
  }

  lemma {:induction false} StartedJoin(a: seq<Id>, b: seq<Id>, items: seq<Item>, slow: bool)
    ensures Started(a + b, items, slow) == Started(a, items, slow) + Started(b, items, slow)
    decreases |b|
  {
    if b == [] {
      assert a + b == a;
    } else {
      var last := |b| - 1;
      assert (a + b)[..|a + b| - 1] == a + b[..last];
      StartedJoin(a, b[..last], items, slow);
    }
  }

  /** As long as an item waits in the queue, at most one slow item starts ahead of it: slow work is put off until
      after everything else that is queued. */
  lemma {:induction false} SlowWaitsItsTurn(nthreads: nat, steps: seq<Step>, trace: seq<Pool>, j: nat, k: nat, x: Id,
      a: nat, b: nat)
    requires nthreads >= 1 && Run(nthreads, steps, trace) && j <= k < |trace|
    requires Work(x) in trace[j].wq && Work(x) in trace[k].wq && |trace[j].ran| <= a < b < |trace[k].ran|
    ensures var p := trace[k];
      p.ran[a] < |p.items| && p.ran[b] < |p.items|
      && !(p.items[p.ran[a]].kind.SlowIo? && p.items[p.ran[b]].kind.SlowIo?)
  {
    RunInv(nthreads, steps, trace, j);
    RunInv(nthreads, steps, trace, k);
    RunWaits(nthreads, steps, trace, j, k, x);
    SameItems(nthreads, steps, trace, j, k);
    OneSlow(trace[j], trace[k], x, a, b);
  }

  lemma {:induction false} OneSlow(p: Pool, q: Pool, x: Id, a: nat, b: nat)
    requires ItemInv(p) && ItemInv(q) && Waits(p, q, x) && SameKinds(p.items, q.items)
    requires Work(x) in p.wq && Work(x) in q.wq && |p.ran| <= a < b < |q.ran|
    ensures q.ran[a] < |q.items| && q.ran[b] < |q.items|
    ensures !(q.items[q.ran[a]].kind.SlowIo? && q.items[q.ran[b]].kind.SlowIo?)
  {
    RanKnown(p);
    RanKnown(q);
    assert q.ran[a] in q.ran && q.ran[b] in q.ran;
    assert multiset(p.wq)[Work(x)] > 0 && ItemOk(p, x);
    if IsSlow(q.items, q.ran[a]) && IsSlow(q.items, q.ran[b]) { MoreStarted(p.ran, q.ran, p.items, q.items, a, b); }
  }

  lemma {:induction false} MoreStarted(ran: seq<Id>, all: seq<Id>, items: seq<Item>, more: seq<Item>, a: nat, b: nat)
    requires ran <= all && SameKinds(items, more) && (forall id | id in ran :: id < |items|) && |ran| <= a < b < |all|
    requires IsSlow(more, all[a]) && IsSlow(more, all[b])
    ensures |Started(all, more, true)| >= |Started(ran, items, true)| + 2
  {
    var rest := all[|ran|..];
    assert all == ran + rest;
    StartedKinds(ran, items, more, true);
    StartedJoin(ran, rest, more, true);
    TwoStarted(rest, more, a - |ran|, b - |ran|);
  }

  lemma {:induction false} TwoStarted(ran: seq<Id>, items: seq<Item>, a: nat, b: nat)
    requires a < b < |ran| && IsSlow(items, ran[a]) && IsSlow(items, ran[b])
    ensures |Started(ran, items, true)| >= 2
  {
    var front := ran[..|ran| - 1];
    if b < |front| {
      TwoStarted(front, items, a, b);
    } else {
      StartedMember(front, items, true, front[a]);
      assert front[a] in front;
    }
  }

  /** Items keep their kinds. */
  lemma {:induction false} SameItems(nthreads: nat, steps: seq<Step>, trace: seq<Pool>, j: nat, k: nat)
    requires Run(nthreads, steps, trace) && j <= k < |trace|
    ensures SameKinds(trace[j].items, trace[k].items)
  {
    var leq := (p: Pool, q: Pool) => SameKinds(p.items, q.items);
    forall p: Pool, s: Step, q: Pool | Next(p, s, q) ensures leq(p, q) { StepKinds(p, s); }
    Monotone(Init(nthreads), Next, leq, steps, trace, j, k);
  }

  lemma {:induction false} StepKinds(p: Pool, s: Step)
    requires Enabled(p, s) && TokenOnce(p.wq)
    ensures SameKinds(p.items, Apply(p, s).items)
  {
    match s
    case WorkerLock(i, wake) => PickKinds(Retake(p, i), i, wake);
    case Submit(kind, wake) => assert Post(p, kind, wake).items == p.items + [Item(kind, UserWork, true)];
    case _ =>
  }

  lemma {:induction false} PickKinds(p: Pool, i: nat, wake: nat)
    requires i < |p.workers| && TokenOnce(p.wq)
    ensures SameKinds(p.items, Pick(p, i, wake).items)
    decreases |p.wq|, if p.wq != [] && p.wq[0].RunSlowWork? then 1 else 0
  {
    if GoesAround(p) {
      GoAroundShrinks(p);
      PickKinds(GoAround(p), i, wake);
    }
  }

  // ---------- Callbacks come in the order of completion ----------

  /** The list of items completed so far, by a worker or by a cancel, after one more step.  An item cancelled again
      while it waits for its callback completes again. */
  function Completing(p: Pool, s: Step, q: Pool, completed: seq<Id>): seq<Id> {
    match s
    case FinishWork(i) => if i < |p.workers| && p.workers[i].Running? then completed + [p.workers[i].id] else completed
    case CancelHandOver => if p.loopPc.HandingOver? then completed + [p.loopPc.id] else completed
    case CancelDetach(id) => if q.loopPc == HandingOver(id) then Without(completed, id) else completed
    case _ => completed
  }

  function Called(done: seq<Done>): seq<Id> { seq(|done|, k requires 0 <= k < |done| => done[k].id) }

  lemma {:induction false} WithoutJoin(a: seq<Id>, b: seq<Id>, x: Id)
    ensures Without(a + b, x) == Without(a, x) + Without(b, x)
  {
    if a == [] {
      assert a + b == b;
    } else {
      assert (a + b)[1..] == a[1..] + b;
      WithoutJoin(a[1..], b, x);
    }
  }

  lemma {:induction false} WithoutAbsent(a: seq<Id>, x: Id)
    requires x !in a
    ensures Without(a, x) == a
  {
    if a != [] { WithoutAbsent(a[1..], x); }
  }

  /** What has been called, what is in the batch, what is in the completion queue. */
  ghost predicate Accounts(p: Pool, completed: seq<Id>) { completed == Called(p.done) + p.batch + p.loopWq }

  lemma {:induction false} DetachAccounts(p: Pool, id: Id, completed: seq<Id>)
    requires Inv(p) && Enabled(p, CancelDetach(id)) && CancelGuard(p, id) && Accounts(p, completed)
    ensures Accounts(Detach(p, id), Without(completed, id))
  {
    CancelVerdict(p, id);
    var called := Called(p.done);
    forall k | 0 <= k < |called| ensures called[k] != id {
      var d := p.done[k];
      assert d in p.done;
      match d
      case Done(g, Ok) => assert g == id ==> Done(id, Ok) in p.done;
      case Done(g, ECanceled) => assert g == id ==> Done(id, ECanceled) in p.done;
    }
    WithoutAbsent(called, id);
    WithoutJoin(called + p.batch, p.loopWq, id);
    WithoutJoin(called, p.batch, id);
  }

  lemma {:induction false} DeliverAccounts(p: Pool, completed: seq<Id>)
    requires p.batch != [] && Accounts(p, completed)
    ensures Accounts(Deliver(p), completed)
  {
    var q := Deliver(p);
    assert Called(q.done) == Called(p.done) + [p.batch[0]];
    assert Called(p.done) + [p.batch[0]] + p.batch[1..] == Called(p.done) + p.batch;
  }

  lemma {:induction false} LoopAccounts(p: Pool, s: Step, completed: seq<Id>)
    requires Inv(p) && Enabled(p, s) && Accounts(p, completed)
    requires s.SpuriousWake? || s.Submit? || s.DoneWake? || s.DoneMove?
    ensures Accounts(Apply(p, s), completed)
  {
    if s.DoneMove? { assert Called(p.done) + p.loopWq + [] == Called(p.done) + p.batch + p.loopWq; }
  }

  lemma {:induction false} StepAccounts(p: Pool, s: Step, completed: seq<Id>)
    requires Inv(p) && Enabled(p, s) && Accounts(p, completed)
    ensures Accounts(Apply(p, s), Completing(p, s, Apply(p, s), completed))
  {
    match s
    case WorkerLock(i, wake) => PickFrame(Retake(p, i), i, wake);
    case FinishWork(i) => CompleteAccounts(p, p.workers[i].id, completed);
    case CancelHandOver => CompleteAccounts(p, p.loopPc.id, completed);
    case CancelDetach(id) => if CancelGuard(p, id) { DetachAccounts(p, id, completed); }
    case DoneNext => DeliverAccounts(p, completed);
    case _ => LoopAccounts(p, s, completed);
  }

  lemma {:induction false} CompleteAccounts(p: Pool, id: Id, completed: seq<Id>)
    requires Accounts(p, completed)
    ensures completed + [id] == Called(p.done) + p.batch + (p.loopWq + [id])
  {
  }

  /** Callbacks are made in the order in which the items completed, none left out. */
  lemma {:induction false} CallbacksInOrder(nthreads: nat, steps: seq<Step>, trace: seq<Pool>, k: nat)
    requires nthreads >= 1 && Run(nthreads, steps, trace) && k < |trace|
    ensures var p, completed := trace[k], Fold(Completing, [], steps, trace, 0, k);
      |p.done| <= |completed| && forall a | 0 <= a < |p.done| :: p.done[a].id == completed[a]
  {
    var inv := (p: Pool) => Inv(p);
    var fits := (p: Pool, completed: seq<Id>) => Accounts(p, completed);
    InitInv(nthreads);
    forall p: Pool, s: Step, q: Pool | inv(p) && Next(p, s, q) ensures inv(q) { StepInv(p, s); }
    forall p: Pool, s: Step, q: Pool, c: seq<Id> | inv(p) && Next(p, s, q) && fits(p, c)
      ensures fits(q, Completing(p, s, q, c))
    {
      StepAccounts(p, s, c);
    }
    History(Init(nthreads), Next, inv, Completing, [], fits, steps, trace, 0, k);
    var p, completed := trace[k], Fold(Completing, [], steps, trace, 0, k);
    assert fits(p, completed);
    forall a | 0 <= a < |p.done| ensures p.done[a].id == completed[a] { assert Called(p.done)[a] == completed[a]; }
  }
}
