/** The worker pool protocol of src/threadpool.c.

    One state holds what every thread shares.  A step is one critical section: it runs from
    the point where a thread takes a lock to the point where it releases it, so the pool mutex
    is free in every state a run goes through.  The class `Threads` performs the steps on
    mutable fields, each against one of the functions that `Apply` puts together; the lemmas in
    between are about every run of those steps. */
module ThreadPool {
  import opened Common
  import opened Runs

  /** Work items are numbered in the order of submission. */
  type Id = nat

  datatype Kind = Cpu | FastIo | SlowIo

  /** What `w->work` holds: the user's function, NULL after it has run, or `uv__cancelled`. */
  datatype WorkFn = UserWork | Null | CancelMark

  /** `linked` is the answer of `!uv__queue_empty(&w->wq)`; unlinking alone does not clear it. */
  datatype Item = Item(kind: Kind, work: WorkFn, linked: bool)

  datatype Entry = RunSlowWork | Work(id: Id)

  /** `Ready(s)` wants the mutex; `s` tells that it still has to give back a slow-I/O slot. */
  datatype Worker = Ready(givesSlot: bool) | Waiting | Signalled | Running(id: Id, slow: bool)

  datatype LoopPc = Idle | HandingOver(id: Id) | EnteringDone

  datatype Status = Ok | ECanceled

  datatype Done = Done(id: Id, status: Status)

  datatype Pool = Pool(
    items: seq<Item>, wq: seq<Entry>, slowPending: seq<Id>, tokenLinked: bool,
    idle: int, slowRunning: int, workers: seq<Worker>,
    loopPc: LoopPc, loopWq: seq<Id>, wakePending: bool, batch: seq<Id>,
    ran: seq<Id>, cancelled: set<Id>, done: seq<Done>)

  /** `wake` names the waiting thread that a `uv_cond_signal` of the step happens to release. */
  datatype Step =
    | WorkerLock(i: nat, wake: nat)
    | SpuriousWake(i: nat)
    | FinishWork(i: nat)
    | Submit(kind: Kind, wake: nat)
    | CancelDetach(id: Id)
    | CancelHandOver
    | DoneWake
    | DoneMove
    | DoneNext

  // ---------- Specification of the steps ----------

  function Init(nthreads: nat): Pool {
    Pool([], [], [], false, 0, 0, seq(nthreads, _ => Ready(false)), Idle, [], false, [], [], {}, [])
  }

  function Threshold(p: Pool): nat { (|p.workers| + 1) / 2 }

  predicate MustWait(p: Pool) {
    p.wq == [] || (p.wq == [RunSlowWork] && p.slowRunning >= Threshold(p))
  }

  ghost predicate TokenOnce(wq: seq<Entry>) { multiset(wq)[RunSlowWork] <= 1 }

  function MarkItem(items: seq<Item>, id: Id, work: WorkFn, linked: bool): seq<Item> {
    if id < |items| then items[id := items[id].(work := work, linked := linked)] else items
  }

  /** `uv_cond_signal` guarded by `idle_threads > 0`. */
  function Signal(p: Pool, wake: nat): Pool {
    if p.idle > 0 && wake < |p.workers| && p.workers[wake].Waiting?
    then p.(workers := p.workers[wake := Signalled]) else p
  }

  /** The kernel releases some waiting thread whenever there is one. */
  ghost predicate WakeOk(p: Pool, wake: nat) {
    Waiting in p.workers ==> wake < |p.workers| && p.workers[wake].Waiting?
  }

  function Start(p: Pool, i: nat, id: Id, slow: bool): Pool
    requires i < |p.workers|
  {
    p.(items := MarkItem(p.items, id, UserWork, false), workers := p.workers[i := Running(id, slow)],
        ran := p.ran + [id])
  }

  /** Queueing the slow-work token. */
  function Schedule(p: Pool, kind: Kind): Pool {
    if kind.SlowIo? then p.(wq := p.wq + [RunSlowWork], tokenLinked := true) else p
  }

  /** The slow item is off the pending queue and the token is out of `wq`. */
  function TakePending(p: Pool): Pool
    requires p.wq != [] && p.slowPending != []
  {
    p.(wq := p.wq[1..], tokenLinked := false).(slowRunning := p.slowRunning + 1, slowPending := p.slowPending[1..])
  }

  /** Everything a worker does at the token before it starts the item. */
  function GrabSlow(p: Pool, wake: nat): Pool
    requires p.wq != [] && p.slowPending != []
    ensures |GrabSlow(p, wake).workers| == |p.workers|
  {
    var q := TakePending(p);
    if p.slowPending[1..] == [] then q else Signal(Schedule(q, SlowIo), wake)
  }

  /** The worker loop starts over: the token goes to the back while slow work is at its limit,
      and is dropped when everything behind it has been cancelled. */
  predicate GoesAround(p: Pool) {
    !MustWait(p) && p.wq[0].RunSlowWork? && (p.slowRunning >= Threshold(p) || p.slowPending == [])
  }

  function GoAround(p: Pool): Pool
    requires GoesAround(p)
  {
    if p.slowRunning >= Threshold(p) then p.(wq := p.wq[1..] + [RunSlowWork], tokenLinked := true)
    else p.(wq := p.wq[1..], tokenLinked := false)
  }

  /** The worker leaves the critical section, to sleep or with an item to run. */
  function Settle(p: Pool, i: nat, wake: nat): Pool
    requires i < |p.workers| && !GoesAround(p)
  {
    if MustWait(p) then p.(idle := p.idle + 1, workers := p.workers[i := Waiting])
    else if p.wq[0].Work? then Start(p.(wq := p.wq[1..]), i, p.wq[0].id, false)
    else Start(GrabSlow(p, wake), i, p.slowPending[0], true)
  }

  lemma {:induction false} SplitHead<T>(s: seq<T>)
    requires s != []
    ensures s == [s[0]] + s[1..] && multiset(s) == multiset(s[1..])[s[0] := multiset(s[1..])[s[0]] + 1]
    ensures multiset(s[1..]) == multiset(s)[s[0] := multiset(s)[s[0]] - 1]
  {
    assert s == [s[0]] + s[1..];
  }

  lemma {:induction false} GoAroundShrinks(p: Pool)
    requires GoesAround(p) && TokenOnce(p.wq)
    ensures var q := GoAround(p);
      TokenOnce(q.wq) && (|q.wq| < |p.wq| || (|q.wq| == |p.wq| && q.wq[0].Work?))
  {
    SplitHead(p.wq);
    if |p.wq| > 1 { assert multiset(p.wq[1..])[p.wq[1]] > 0; }
  }

  /** One critical section of the worker loop: go around until there is work or reason to sleep. */
  ghost function Pick(p: Pool, i: nat, wake: nat): Pool
    requires i < |p.workers| && TokenOnce(p.wq)
    decreases |p.wq|, if p.wq != [] && p.wq[0].RunSlowWork? then 1 else 0
  {
    if GoesAround(p) then GoAroundShrinks(p); Pick(GoAround(p), i, wake) else Settle(p, i, wake)
  }

  /** Taking the mutex again: leave the wait, or give the slow-I/O slot back. */
  function Retake(p: Pool, i: nat): Pool
    requires i < |p.workers|
  {
    var q := p.(workers := p.workers[i := Ready(false)]);
    if p.workers[i].Signalled? then q.(idle := p.idle - 1)
    else if p.workers[i] == Ready(true) then q.(slowRunning := p.slowRunning - 1)
    else q
  }

  /** The body of `post` for a freshly submitted item: queue it, schedule the token, signal. */
  function Post(p: Pool, kind: Kind, wake: nat): Pool {
    var q := Enqueue(p, kind);
    if kind.SlowIo? && q.tokenLinked then q else Signal(Schedule(q, kind), wake)
  }

  function Enqueue(p: Pool, kind: Kind): Pool {
    var q := p.(items := p.items + [Item(kind, UserWork, true)]);
    if kind.SlowIo? then q.(slowPending := q.slowPending + [|p.items|]) else q.(wq := q.wq + [Work(|p.items|)])
  }

  /** What `uv__work_cancel` tests under both locks. */
  predicate CancelGuard(p: Pool, id: Id)
    requires id < |p.items|
  {
    p.items[id].linked && !p.items[id].work.Null?
  }

  function Complete(p: Pool, id: Id, work: WorkFn): Pool {
    p.(items := MarkItem(p.items, id, work, true), loopWq := p.loopWq + [id], wakePending := true)
  }

  function StatusOf(p: Pool, id: Id): Status {
    if id < |p.items| && p.items[id].work.CancelMark? then ECanceled else Ok
  }

  function Arouse(p: Pool, i: nat): Pool
    requires i < |p.workers|
  {
    p.(workers := p.workers[i := Signalled])
  }

  /** The worker has run the item: completion queue, async wake-up, back to the mutex. */
  function Finish(p: Pool, i: nat): Pool
    requires i < |p.workers| && p.workers[i].Running?
  {
    var w := p.workers[i];
    Complete(p.(workers := p.workers[i := Ready(w.slow)]), w.id, Null)
  }

  /** A successful cancel unlinks the item from whichever queue it is in. */
  function Detach(p: Pool, id: Id): Pool {
    p.(wq := Without(p.wq, Work(id)), slowPending := Without(p.slowPending, id),
    loopWq := Without(p.loopWq, id), batch := Without(p.batch, id),
    loopPc := HandingOver(id), cancelled := p.cancelled + {id})
  }

  function HandOver(p: Pool): Pool
    requires p.loopPc.HandingOver?
  {
    Complete(p.(loopPc := Idle), p.loopPc.id, CancelMark)
  }

  function EnterDone(p: Pool): Pool { p.(wakePending := false, loopPc := EnteringDone) }

  function MoveBatch(p: Pool): Pool { p.(batch := p.loopWq, loopWq := [], loopPc := Idle) }

  function Deliver(p: Pool): Pool
    requires p.batch != []
  {
    p.(batch := p.batch[1..], done := p.done + [Done(p.batch[0], StatusOf(p, p.batch[0]))])
  }

  /** Which steps the program text lets happen.  The loop thread runs one thing at a time, and
      a caller does not cancel a request whose callback already reported ECANCELED. */
  ghost predicate Enabled(p: Pool, s: Step) {
    match s
    case WorkerLock(i, wake) => i < |p.workers| && (p.workers[i].Ready? || p.workers[i].Signalled?) && WakeOk(p, wake)
    case SpuriousWake(i) => i < |p.workers| && p.workers[i].Waiting?
    case FinishWork(i) => i < |p.workers| && p.workers[i].Running?
    case Submit(_, wake) => p.loopPc.Idle? && WakeOk(p, wake)
    case CancelDetach(id) => p.loopPc.Idle? && id < |p.items| && Done(id, ECanceled) !in p.done
    case CancelHandOver => p.loopPc.HandingOver?
    case DoneWake => p.loopPc.Idle? && p.batch == [] && p.wakePending
    case DoneMove => p.loopPc.EnteringDone?
    case DoneNext => p.loopPc.Idle? && p.batch != []
  }

  ghost function Apply(p: Pool, s: Step): Pool
    requires Enabled(p, s) && TokenOnce(p.wq)
  {
    match s
    case WorkerLock(i, wake) => Pick(Retake(p, i), i, wake)
    case SpuriousWake(i) => Arouse(p, i)
    case FinishWork(i) => Finish(p, i)
    case Submit(kind, wake) => Post(p, kind, wake)
    case CancelDetach(id) => if CancelGuard(p, id) then Detach(p, id) else p
    case CancelHandOver => HandOver(p)
    case DoneWake => EnterDone(p)
    case DoneMove => MoveBatch(p)
    case DoneNext => Deliver(p)
  }

  // ---------- The inductive invariant ----------

  predicate HoldsSlot(w: Worker) { w == Ready(true) || (w.Running? && w.slow) }

  ghost function Indices(ws: seq<Worker>, f: Worker -> bool): set<nat> { set i: nat | i < |ws| && f(ws[i]) }

  ghost function Count(ws: seq<Worker>, f: Worker -> bool): nat { |Indices(ws, f)| }

  /** How many places hold the item: both queues, a worker, the cancelling loop thread, the
      completion queue, the local batch, or the log of callbacks made. */
  ghost function Places(p: Pool, id: Id): nat {
    multiset(p.wq)[Work(id)] + multiset(p.slowPending)[id]
    + multiset(p.workers)[Running(id, false)] + multiset(p.workers)[Running(id, true)]
    + (if p.loopPc == HandingOver(id) then 1 else 0)
    + multiset(p.loopWq)[id] + multiset(p.batch)[id]
    + multiset(p.done)[Done(id, Ok)] + multiset(p.done)[Done(id, ECanceled)]
  }

  ghost predicate Queued(p: Pool, id: Id, slow: bool) {
    && id < |p.items| && p.items[id].linked && p.items[id].work.UserWork?
    && id !in p.cancelled && multiset(p.ran)[id] == 0 && (p.items[id].kind.SlowIo? <==> slow)
  }

  ghost predicate Executing(p: Pool, id: Id, slow: bool) {
    && id < |p.items| && !p.items[id].linked && p.items[id].work.UserWork?
    && id !in p.cancelled && multiset(p.ran)[id] == 1 && (p.items[id].kind.SlowIo? <==> slow)
  }

  ghost predicate Finished(p: Pool, id: Id, status: Status) {
    && id < |p.items| && p.items[id].linked && StatusOf(p, id) == status
    && !p.items[id].work.UserWork?
    && (id in p.cancelled <==> status.ECanceled?)
    && multiset(p.ran)[id] == (if status.Ok? then 1 else 0)
  }

  /** An item is in exactly one place, and its fields and history fit that place. */
  ghost predicate ItemOk(p: Pool, id: Id) {
    && Places(p, id) == (if id < |p.items| then 1 else 0)
    && (multiset(p.wq)[Work(id)] > 0 ==> Queued(p, id, false))
    && (multiset(p.slowPending)[id] > 0 ==> Queued(p, id, true))
    && (multiset(p.workers)[Running(id, false)] > 0 ==> Executing(p, id, false))
    && (multiset(p.workers)[Running(id, true)] > 0 ==> Executing(p, id, true))
    && (p.loopPc == HandingOver(id) ==> p.items[id].linked && id in p.cancelled && multiset(p.ran)[id] == 0)
    && (multiset(p.loopWq)[id] + multiset(p.batch)[id] > 0 ==> Finished(p, id, StatusOf(p, id)))
    && (multiset(p.done)[Done(id, Ok)] > 0 ==> Finished(p, id, Ok))
    && (multiset(p.done)[Done(id, ECanceled)] > 0 ==> Finished(p, id, ECanceled))
    && (id >= |p.items| ==> id !in p.cancelled && multiset(p.ran)[id] == 0)
  }

  ghost predicate ItemInv(p: Pool) { forall id: Id :: ItemOk(p, id) }

  /** The numbers that scheduling is about.  `work` counts queued items and `tokens` queued
      tokens; the last four count workers by what they are doing. */
  datatype View = View(work: int, tokens: int, tokenLinked: bool, pending: bool, cap: int, idle: int, slowRunning: int,
                       waiting: int, signalled: int, ready: int, slots: int)

  ghost function ViewOf(p: Pool): View {
    View(|p.wq| - multiset(p.wq)[RunSlowWork], multiset(p.wq)[RunSlowWork], p.tokenLinked, p.slowPending != [],
         Threshold(p), p.idle, p.slowRunning, multiset(p.workers)[Waiting], multiset(p.workers)[Signalled],
         multiset(p.workers)[Ready(false)], Count(p.workers, HoldsSlot))
  }

  /** The token is queued at most once, its link says so, and pending slow work keeps it queued. */
  ghost predicate Token(v: View) { v.tokens == (if v.tokenLinked then 1 else 0) && (v.pending ==> v.tokenLinked) }

  /** Both shared counters are exact, and the slow-I/O cap holds. */
  ghost predicate Counters(v: View) {
    v.idle == v.waiting + v.signalled && v.slowRunning == v.slots && v.slowRunning <= v.cap
  }

  /** Work that a worker could start at once. */
  ghost function Runnable(v: View): int { v.work + if v.tokenLinked && v.slowRunning < v.cap then 1 else 0 }

  /** Workers on their way to look at the queue, not counting those still holding a slow slot. */
  ghost function Awake(v: View): int { v.ready + v.signalled }

  ghost predicate WorkConserving(v: View) { v.waiting > 0 ==> Awake(v) >= Runnable(v) }

  ghost predicate SchedOk(v: View) { Token(v) && Counters(v) && WorkConserving(v) }

  ghost predicate SchedInv(p: Pool) { SchedOk(ViewOf(p)) && |p.workers| >= 1 }

  ghost predicate NoLostCompletion(p: Pool) { p.loopWq != [] ==> p.wakePending || p.loopPc.EnteringDone? }

  /** `uv__work_done` drains its batch before it can be entered again. */
  ghost predicate BatchDrained(p: Pool) { p.loopPc.EnteringDone? ==> p.batch == [] }

  ghost predicate LoopInv(p: Pool) { NoLostCompletion(p) && BatchDrained(p) }

  ghost predicate Inv(p: Pool) { ItemInv(p) && SchedInv(p) && LoopInv(p) }

  // ---------- Every step keeps the invariant ----------

  lemma {:induction false} CountUpdate(ws: seq<Worker>, i: nat, w: Worker, f: Worker -> bool)
    requires i < |ws|
    ensures Count(ws[i := w], f) == Count(ws, f) - (if f(ws[i]) then 1 else 0) + (if f(w) then 1 else 0)
  {
    var before, after := Indices(ws, f), Indices(ws[i := w], f);
    assert before - {i} == after - {i};
    assert |before| == |before - {i}| + if i in before then 1 else 0;
    assert |after| == |after - {i}| + if i in after then 1 else 0;
  }

  lemma {:induction false} InitInv(nthreads: nat)
    requires nthreads >= 1
    ensures Inv(Init(nthreads))
  {
    assert Indices(Init(nthreads).workers, HoldsSlot) == {};
  }

  // The items, one at a time: `m` is the item that the step moves.

  lemma {:induction false} ItemsFrame(p: Pool, q: Pool)
    requires ItemInv(p)
    requires q == p.(wq := q.wq, tokenLinked := q.tokenLinked, idle := q.idle, slowRunning := q.slowRunning,
        workers := q.workers)
    requires forall id: Id :: multiset(q.wq)[Work(id)] == multiset(p.wq)[Work(id)]
    requires forall id: Id, s: bool :: multiset(q.workers)[Running(id, s)] == multiset(p.workers)[Running(id, s)]
    ensures ItemInv(q)
  {
    forall id: Id ensures ItemOk(q, id) {
      assert ItemOk(p, id);
      assert multiset(q.wq)[Work(id)] == multiset(p.wq)[Work(id)];
      assert multiset(q.workers)[Running(id, true)] == multiset(p.workers)[Running(id, true)];
      assert multiset(q.workers)[Running(id, false)] == multiset(p.workers)[Running(id, false)];
    }
  }

  lemma {:induction false} TakeItemOk(p: Pool, i: nat, id: Id)
    requires i < |p.workers| && p.workers[i] == Ready(false) && p.wq != [] && p.wq[0].Work?
    requires ItemOk(p, id) && ItemOk(p, p.wq[0].id)
    ensures ItemOk(Start(p.(wq := p.wq[1..]), i, p.wq[0].id, false), id)
  {
    SplitHead(p.wq);
  }

  lemma {:induction false} TakeSlowOk(p: Pool, i: nat, id: Id)
    requires i < |p.workers| && p.workers[i] == Ready(false) && p.slowPending != []
    requires ItemOk(p, id) && ItemOk(p, p.slowPending[0])
    ensures ItemOk(Start(p.(slowPending := p.slowPending[1..]), i, p.slowPending[0], true), id)
  {
    SplitHead(p.slowPending);
  }

  lemma {:induction false} FinishOk(p: Pool, i: nat, id: Id)
    requires i < |p.workers| && p.workers[i].Running?
    requires ItemOk(p, id) && ItemOk(p, p.workers[i].id)
    ensures ItemOk(Finish(p, i), id)
  {
    assert multiset(p.workers)[p.workers[i]] > 0;
  }

  lemma {:induction false} PostOk(p: Pool, kind: Kind, id: Id)
    requires ItemOk(p, id)
    ensures ItemOk(Enqueue(p, kind), id)
  {
  }

  lemma {:induction false} SignalItems(p: Pool, wake: nat)
    requires ItemInv(p)
    ensures ItemInv(Signal(p, wake))
  {
    ItemsFrame(p, Signal(p, wake));
  }

  lemma {:induction false} PostItems(p: Pool, kind: Kind, wake: nat)
    requires ItemInv(p)
    ensures ItemInv(Post(p, kind, wake))
  {
    var q := Enqueue(p, kind);
    forall id: Id ensures ItemOk(q, id) {
      assert ItemOk(p, id);
      PostOk(p, kind, id);
    }
    ItemsFrame(q, Schedule(q, kind));
    SignalItems(Schedule(q, kind), wake);
  }

  lemma {:induction false} DetachOk(p: Pool, m: Id, id: Id)
    requires Enabled(p, CancelDetach(m)) && CancelGuard(p, m)
    requires ItemOk(p, id) && ItemOk(p, m)
    ensures ItemOk(Detach(p, m), id)
  {
    WithoutRemovesAll(p.wq, Work(m));
    WithoutRemovesAll(p.slowPending, m);
    WithoutRemovesAll(p.loopWq, m);
    WithoutRemovesAll(p.batch, m);
  }

  lemma {:induction false} HandOverOk(p: Pool, id: Id)
    requires p.loopPc.HandingOver? && ItemOk(p, id) && ItemOk(p, p.loopPc.id)
    ensures ItemOk(HandOver(p), id)
  {
  }

  lemma {:induction false} MoveBatchOk(p: Pool, id: Id)
    requires p.loopPc.EnteringDone? && p.batch == [] && ItemOk(p, id)
    ensures ItemOk(MoveBatch(p), id)
  {
  }

  lemma {:induction false} DeliverOk(p: Pool, id: Id)
    requires p.batch != [] && ItemOk(p, id)
    ensures ItemOk(Deliver(p), id)
  {
    SplitHead(p.batch);
  }

  // The scheduling side: what each part of a step does to the numbers.

  lemma {:induction false} MoveWorker(ws: seq<Worker>, i: nat, w: Worker)
    requires i < |ws|
    ensures multiset(ws[i := w]) == multiset(ws) - multiset{ws[i]} + multiset{w}
    ensures Count(ws[i := w], HoldsSlot) ==
        Count(ws, HoldsSlot) - (if HoldsSlot(ws[i]) then 1 else 0) + (if HoldsSlot(w) then 1 else 0)
  {
    CountUpdate(ws, i, w, HoldsSlot);
  }

  lemma {:induction false} RetakeView(p: Pool, i: nat)
    requires i < |p.workers| && (p.workers[i].Ready? || p.workers[i].Signalled?)
    ensures var v := ViewOf(p);
      ViewOf(Retake(p, i)) == match p.workers[i]
                              case Signalled =>
                                  v.(idle := v.idle - 1, signalled := v.signalled - 1, ready := v.ready + 1)
                              case Ready(true) =>
                                  v.(slowRunning := v.slowRunning - 1, slots := v.slots - 1, ready := v.ready + 1)
                              case _ => v
  {
    MoveWorker(p.workers, i, Ready(false));
  }

  lemma {:induction false} RetakeSched(p: Pool, i: nat)
    requires SchedInv(p) && i < |p.workers| && (p.workers[i].Ready? || p.workers[i].Signalled?)
    ensures SchedInv(Retake(p, i))
  {
    RetakeView(p, i);
  }

  lemma {:induction false} WaitView(p: Pool, i: nat)
    requires i < |p.workers| && p.workers[i] == Ready(false)
    ensures var v := ViewOf(p);
      ViewOf(p.(idle := p.idle + 1, workers := p.workers[i := Waiting])) ==
          v.(idle := v.idle + 1, waiting := v.waiting + 1, ready := v.ready - 1)
  {
    MoveWorker(p.workers, i, Waiting);
  }

  lemma {:induction false} TakeItemView(p: Pool, i: nat)
    requires i < |p.workers| && p.workers[i] == Ready(false) && p.wq != [] && p.wq[0].Work?
    ensures var v := ViewOf(p);
      ViewOf(Start(p.(wq := p.wq[1..]), i, p.wq[0].id, false)) == v.(work := v.work - 1, ready := v.ready - 1)
  {
    SplitHead(p.wq);
    MoveWorker(p.workers, i, Running(p.wq[0].id, false));
  }

  lemma {:induction false} StartSlowView(p: Pool, i: nat, id: Id)
    requires i < |p.workers| && p.workers[i] == Ready(false)
    ensures var v := ViewOf(p); ViewOf(Start(p, i, id, true)) == v.(slots := v.slots + 1, ready := v.ready - 1)
  {
    MoveWorker(p.workers, i, Running(id, true));
  }

  lemma {:induction false} PopTokenView(p: Pool)
    requires p.wq != [] && p.wq[0].RunSlowWork?
    ensures var v := ViewOf(p);
        ViewOf(p.(wq := p.wq[1..], tokenLinked := false)) == v.(tokens := v.tokens - 1, tokenLinked := false)
  {
    SplitHead(p.wq);
  }

  lemma {:induction false} PushTokenView(p: Pool)
    ensures var v := ViewOf(p); ViewOf(Schedule(p, SlowIo)) == v.(tokens := v.tokens + 1, tokenLinked := true)
  {
  }

  /** A signal wakes exactly one waiting worker, if the counter is exact and there is one. */
  lemma {:induction false} SignalView(p: Pool, wake: nat)
    requires WakeOk(p, wake) && ViewOf(p).idle == ViewOf(p).waiting + ViewOf(p).signalled
    ensures var v := ViewOf(p);
      ViewOf(Signal(p, wake)) == if v.waiting > 0 then v.(waiting := v.waiting - 1, signalled := v.signalled + 1) else v
  {
    if multiset(p.workers)[Waiting] > 0 {
      assert Waiting in p.workers;
      MoveWorker(p.workers, wake, Signalled);
    } else {
      assert Waiting !in p.workers;
    }
  }

  ghost predicate AtSlowItem(p: Pool, i: nat) {
    && i < |p.workers| && p.workers[i] == Ready(false) && p.wq != [] && p.wq[0].RunSlowWork?
    && p.slowPending != [] && p.slowRunning < Threshold(p)
  }

  lemma {:induction false} TakePendingView(p: Pool)
    requires p.wq != [] && p.wq[0].RunSlowWork? && p.slowPending != []
    ensures var v := ViewOf(p);
      ViewOf(TakePending(p)) == v.(tokens := v.tokens - 1, tokenLinked := false, pending := |p.slowPending| > 1,
          slowRunning := v.slowRunning + 1)
  {
    PopTokenView(p);
  }

  lemma {:induction false} GrabSlowView(p: Pool, i: nat, wake: nat)
    requires SchedInv(p) && AtSlowItem(p, i) && WakeOk(p, wake) && |p.slowPending| > 1
    ensures var v := ViewOf(p); var k := if v.waiting > 0 then 1 else 0;
      ViewOf(GrabSlow(p, wake)) == v.(slowRunning := v.slowRunning + 1, waiting := v.waiting - k,
          signalled := v.signalled + k)
  {
    TakePendingView(p);
    PushTokenView(TakePending(p));
    SignalView(Schedule(TakePending(p), SlowIo), wake);
  }

  /** A worker has claimed a slow slot for the item it is about to start. */
  ghost predicate Claimed(v: View) {
    && Token(v) && v.idle == v.waiting + v.signalled && v.slowRunning == v.slots + 1 && v.slowRunning <= v.cap
    && (v.waiting > 0 ==> Awake(v) - 1 >= Runnable(v))
  }

  lemma {:induction false} GrabSlowClaims(p: Pool, i: nat, wake: nat)
    requires SchedInv(p) && AtSlowItem(p, i) && WakeOk(p, wake)
    ensures Claimed(ViewOf(GrabSlow(p, wake)))
  {
    var v := ViewOf(p);
    if |p.slowPending| == 1 {
      TakePendingView(p);
      assert GrabSlow(p, wake) == TakePending(p);
    } else {
      GrabSlowView(p, i, wake);
    }
  }

  lemma {:induction false} StartClaimed(p: Pool, i: nat, id: Id)
    requires Claimed(ViewOf(p)) && i < |p.workers| && p.workers[i] == Ready(false)
    ensures SchedInv(Start(p, i, id, true))
  {
    StartSlowView(p, i, id);
  }

  lemma {:induction false} TakeSlowSched(p: Pool, i: nat, wake: nat)
    requires SchedInv(p) && AtSlowItem(p, i) && WakeOk(p, wake)
    ensures SchedInv(Start(GrabSlow(p, wake), i, p.slowPending[0], true))
  {
    GrabSlowClaims(p, i, wake);
    StartClaimed(GrabSlow(p, wake), i, p.slowPending[0]);
  }

  lemma {:induction false} FinishSched(p: Pool, i: nat)
    requires SchedInv(p) && i < |p.workers| && p.workers[i].Running?
    ensures SchedInv(Finish(p, i))
  {
    var w := p.workers[i];
    MoveWorker(p.workers, i, Ready(w.slow));
    var v, v' := ViewOf(p), ViewOf(Finish(p, i));
    assert v' == if w.slow then v else v.(ready := v.ready + 1);
  }

  lemma {:induction false} EnqueueView(p: Pool, kind: Kind)
    ensures var v := ViewOf(p);
      ViewOf(Enqueue(p, kind)) == if kind.SlowIo? then v.(pending := true) else v.(work := v.work + 1)
  {
  }

  lemma {:induction false} SignalSched(p: Pool, wake: nat)
    requires WakeOk(p, wake) && |p.workers| >= 1 && Token(ViewOf(p)) && Counters(ViewOf(p))
    requires ViewOf(p).waiting > 0 ==> Awake(ViewOf(p)) + 1 >= Runnable(ViewOf(p))
    ensures SchedInv(Signal(p, wake))
  {
    SignalView(p, wake);
  }

  lemma {:induction false} PostSched(p: Pool, kind: Kind, wake: nat)
    requires SchedInv(p) && WakeOk(p, wake)
    ensures SchedInv(Post(p, kind, wake))
  {
    var q := Enqueue(p, kind);
    EnqueueView(p, kind);
    if !kind.SlowIo? {
      SignalSched(q, wake);
    } else if !q.tokenLinked {
      PushTokenView(q);
      SignalSched(Schedule(q, kind), wake);
    }
  }

  lemma {:induction false} DetachSched(p: Pool, id: Id)
    requires SchedInv(p)
    ensures SchedInv(Detach(p, id))
  {
    WithoutRemovesAll(p.wq, Work(id));
    WithoutRemovesAll(p.slowPending, id);
  }

  // Whole steps.

  lemma {:induction false} RetakeInv(p: Pool, i: nat)
    requires ItemInv(p) && SchedInv(p) && i < |p.workers| && (p.workers[i].Ready? || p.workers[i].Signalled?)
    ensures ItemInv(Retake(p, i)) && SchedInv(Retake(p, i))
  {
    RetakeSched(p, i);
    ItemsFrame(p, Retake(p, i));
  }

  lemma {:induction false} WaitInv(p: Pool, i: nat)
    requires ItemInv(p) && SchedInv(p) && i < |p.workers| && p.workers[i] == Ready(false) && MustWait(p)
    ensures var q := p.(idle := p.idle + 1, workers := p.workers[i := Waiting]); ItemInv(q) && SchedInv(q)
  {
    WaitView(p, i);
    ItemsFrame(p, p.(idle := p.idle + 1, workers := p.workers[i := Waiting]));
  }

  lemma {:induction false} TakeItemInv(p: Pool, i: nat)
    requires ItemInv(p) && SchedInv(p) && i < |p.workers| && p.workers[i] == Ready(false) && p.wq != [] && p.wq[0].Work?
    ensures var q := Start(p.(wq := p.wq[1..]), i, p.wq[0].id, false); ItemInv(q) && SchedInv(q)
  {
    TakeItemView(p, i);
    assert ItemOk(p, p.wq[0].id);
    forall id: Id ensures ItemOk(Start(p.(wq := p.wq[1..]), i, p.wq[0].id, false), id) {
      assert ItemOk(p, id);
      TakeItemOk(p, i, id);
    }
  }

  lemma {:induction false} GoAroundInv(p: Pool)
    requires ItemInv(p) && SchedInv(p) && GoesAround(p)
    ensures ItemInv(GoAround(p)) && SchedInv(GoAround(p))
  {
    SplitHead(p.wq);
    ItemsFrame(p, GoAround(p));
    if p.slowRunning >= Threshold(p) {
      assert ViewOf(GoAround(p)) == ViewOf(p);
    } else {
      PopTokenView(p);
    }
  }

  /** Claiming the slow slot touches no item but the first pending one. */
  lemma {:induction false} GrabSlowItems(p: Pool, i: nat, wake: nat)
    requires ItemInv(p) && AtSlowItem(p, i)
    ensures var q := GrabSlow(p, wake);
      && q.slowPending == p.slowPending[1..] && |q.workers| == |p.workers| && q.workers[i] == Ready(false)
      && ItemInv(q.(slowPending := p.slowPending))
  {
    SplitHead(p.wq);
    ItemsFrame(p, GrabSlow(p, wake).(slowPending := p.slowPending));
  }

  lemma {:induction false} TakeSlowItems(p: Pool, i: nat)
    requires ItemInv(p) && i < |p.workers| && p.workers[i] == Ready(false) && p.slowPending != []
    ensures ItemInv(Start(p.(slowPending := p.slowPending[1..]), i, p.slowPending[0], true))
  {
    forall id: Id ensures ItemOk(Start(p.(slowPending := p.slowPending[1..]), i, p.slowPending[0], true), id) {
      assert ItemOk(p, id) && ItemOk(p, p.slowPending[0]);
      TakeSlowOk(p, i, id);
    }
  }

  lemma {:induction false} TakeSlowInv(p: Pool, i: nat, wake: nat)
    requires ItemInv(p) && SchedInv(p) && AtSlowItem(p, i) && WakeOk(p, wake)
    ensures var q := Start(GrabSlow(p, wake), i, p.slowPending[0], true); ItemInv(q) && SchedInv(q)
  {
    TakeSlowSched(p, i, wake);
    GrabSlowItems(p, i, wake);
    var q := GrabSlow(p, wake).(slowPending := p.slowPending);
    TakeSlowItems(q, i);
    assert q.(slowPending := q.slowPending[1..]) == GrabSlow(p, wake);
  }

  lemma {:induction false} SettleInv(p: Pool, i: nat, wake: nat)
    requires ItemInv(p) && SchedInv(p) && i < |p.workers| && p.workers[i] == Ready(false) && WakeOk(p, wake)
        && !GoesAround(p)
    ensures ItemInv(Settle(p, i, wake)) && SchedInv(Settle(p, i, wake))
  {
    if MustWait(p) {
      WaitInv(p, i);
    } else if p.wq[0].Work? {
      TakeItemInv(p, i);
    } else {
      TakeSlowInv(p, i, wake);
    }
  }

  /** A whole critical section, by following the worker around its loop. */
  lemma {:induction false} PickInv(p: Pool, i: nat, wake: nat)
    requires ItemInv(p) && SchedInv(p) && i < |p.workers| && p.workers[i] == Ready(false) && WakeOk(p, wake)
    ensures ItemInv(Pick(p, i, wake)) && SchedInv(Pick(p, i, wake))
    decreases |p.wq|, if p.wq != [] && p.wq[0].RunSlowWork? then 1 else 0
  {
    if GoesAround(p) {
      GoAroundShrinks(p);
      GoAroundInv(p);
      PickInv(GoAround(p), i, wake);
    } else {
      SettleInv(p, i, wake);
    }
  }

  /** Picking work leaves the loop thread's side alone. */
  ghost predicate SameLoopSide(p: Pool, q: Pool) {
    && q.loopPc == p.loopPc && q.loopWq == p.loopWq && q.wakePending == p.wakePending && q.batch == p.batch
    && q.cancelled == p.cancelled && q.done == p.done && |q.workers| == |p.workers|
  }

  lemma {:induction false} PickFrame(p: Pool, i: nat, wake: nat)
    requires i < |p.workers| && TokenOnce(p.wq)
    ensures SameLoopSide(p, Pick(p, i, wake))
    decreases |p.wq|, if p.wq != [] && p.wq[0].RunSlowWork? then 1 else 0
  {
    if GoesAround(p) {
      GoAroundShrinks(p);
      PickFrame(GoAround(p), i, wake);
    }
  }

  lemma {:induction false} WorkerLockInv(p: Pool, i: nat, wake: nat)
    requires Inv(p) && Enabled(p, WorkerLock(i, wake))
    ensures Inv(Pick(Retake(p, i), i, wake))
  {
    RetakeInv(p, i);
    PickInv(Retake(p, i), i, wake);
    PickFrame(Retake(p, i), i, wake);
  }

  lemma {:induction false} ArouseInv(p: Pool, i: nat)
    requires Inv(p) && i < |p.workers| && p.workers[i].Waiting?
    ensures Inv(Arouse(p, i))
  {
    MoveWorker(p.workers, i, Signalled);
    ItemsFrame(p, Arouse(p, i));
  }

  lemma {:induction false} FinishInv(p: Pool, i: nat)
    requires Inv(p) && i < |p.workers| && p.workers[i].Running?
    ensures Inv(Finish(p, i))
  {
    FinishSched(p, i);
    forall id: Id ensures ItemOk(Finish(p, i), id) {
      assert ItemOk(p, id) && ItemOk(p, p.workers[i].id);
      FinishOk(p, i, id);
    }
  }

  lemma {:induction false} DetachInv(p: Pool, m: Id)
    requires Inv(p) && Enabled(p, CancelDetach(m)) && CancelGuard(p, m)
    ensures Inv(Detach(p, m))
  {
    DetachSched(p, m);
    WithoutRemovesAll(p.loopWq, m);
    forall id: Id ensures ItemOk(Detach(p, m), id) {
      assert ItemOk(p, id) && ItemOk(p, m);
      DetachOk(p, m, id);
    }
  }

  lemma {:induction false} HandOverInv(p: Pool)
    requires Inv(p) && p.loopPc.HandingOver?
    ensures Inv(HandOver(p))
  {
    forall id: Id ensures ItemOk(HandOver(p), id) {
      assert ItemOk(p, id) && ItemOk(p, p.loopPc.id);
      HandOverOk(p, id);
    }
    assert ViewOf(HandOver(p)) == ViewOf(p);
  }

  lemma {:induction false} MoveBatchInv(p: Pool)
    requires Inv(p) && p.loopPc.EnteringDone?
    ensures Inv(MoveBatch(p))
  {
    forall id: Id ensures ItemOk(MoveBatch(p), id) {
      assert ItemOk(p, id);
      MoveBatchOk(p, id);
    }
  }

  lemma {:induction false} DeliverInv(p: Pool)
    requires Inv(p) && p.loopPc.Idle? && p.batch != []
    ensures Inv(Deliver(p))
  {
    forall id: Id ensures ItemOk(Deliver(p), id) {
      assert ItemOk(p, id);
      DeliverOk(p, id);
    }
  }

  lemma {:induction false} EnterDoneInv(p: Pool)
    requires Inv(p) && p.loopPc.Idle? && p.batch == []
    ensures Inv(EnterDone(p))
  {
    forall id: Id ensures ItemOk(EnterDone(p), id) {
      assert ItemOk(p, id);
    }
  }

  /** Every step keeps the invariant. */
  lemma {:induction false} StepInv(p: Pool, s: Step)
    requires Inv(p) && Enabled(p, s)
    ensures Inv(Apply(p, s))
  {
    match s
    case WorkerLock(i, wake) => WorkerLockInv(p, i, wake);
    case Submit(kind, wake) => PostInv(p, kind, wake);
    case CancelDetach(id) => if CancelGuard(p, id) { DetachInv(p, id); }
    case _ => PlainStepInv(p, s);
  }

  lemma {:induction false} PostInv(p: Pool, kind: Kind, wake: nat)
    requires Inv(p) && WakeOk(p, wake)
    ensures Inv(Post(p, kind, wake))
  {
    PostItems(p, kind, wake);
    PostSched(p, kind, wake);
  }

  lemma {:induction false} PlainStepInv(p: Pool, s: Step)
    requires Inv(p) && Enabled(p, s) && !s.WorkerLock? && !s.Submit? && !s.CancelDetach?
    ensures Inv(Apply(p, s))
  {
    match s
    case SpuriousWake(i) => ArouseInv(p, i);
    case FinishWork(i) => FinishInv(p, i);
    case CancelHandOver => HandOverInv(p);
    case DoneWake => EnterDoneInv(p);
    case DoneMove => MoveBatchInv(p);
    case DoneNext => DeliverInv(p);
  }

  // ---------- What holds in every run ----------

  ghost predicate Next(p: Pool, s: Step, q: Pool) { Enabled(p, s) && TokenOnce(p.wq) && q == Apply(p, s) }

  ghost predicate Run(nthreads: nat, steps: seq<Step>, trace: seq<Pool>) { IsRun(Init(nthreads), Next, steps, trace) }

  lemma {:induction false} RunInv(nthreads: nat, steps: seq<Step>, trace: seq<Pool>, k: nat)
    requires nthreads >= 1 && Run(nthreads, steps, trace) && k < |trace|
    ensures Inv(trace[k]) && |trace[k].workers| == nthreads
  {
    var inv := (p: Pool) => Inv(p);
    var sized := (p: Pool) => |p.workers| == nthreads;
    InitInv(nthreads);
    forall p: Pool, s: Step, q: Pool | inv(p) && Next(p, s, q) ensures inv(q) { StepInv(p, s); }
    forall p: Pool, s: Step, q: Pool | sized(p) && Next(p, s, q) ensures sized(q) { NextFrame(p, s, q); }
    Invariant(Init(nthreads), Next, inv, steps, trace, k);
    Invariant(Init(nthreads), Next, sized, steps, trace, k);
    assert inv(trace[k]);
  }

  lemma {:induction false} NextFrame(p: Pool, s: Step, q: Pool)
    requires Next(p, s, q)
    ensures |q.workers| == |p.workers| && p.done <= q.done
  {
    match s
    case WorkerLock(i, wake) => WorkerFrame(p, i, wake);
    case Submit(kind, wake) => assert Post(p, kind, wake).done == p.done;
    case _ => LoopFrame(p, s);
  }

  lemma {:induction false} WorkerFrame(p: Pool, i: nat, wake: nat)
    requires Enabled(p, WorkerLock(i, wake)) && TokenOnce(p.wq)
    ensures var q := Pick(Retake(p, i), i, wake); |q.workers| == |p.workers| && p.done <= q.done
  {
    PickFrame(Retake(p, i), i, wake);
  }

  lemma {:induction false} LoopFrame(p: Pool, s: Step)
    requires Enabled(p, s) && TokenOnce(p.wq) && !s.WorkerLock? && !s.Submit?
    ensures |Apply(p, s).workers| == |p.workers| && p.done <= Apply(p, s).done
  {
  }

  /** Exactly-once delivery, for every interleaving: an item is in one place at any time; its
      work starts at most once and never if it was cancelled; its callback runs at most once,
      with ECANCELED exactly if a cancel of it succeeded, and after the work ran otherwise. */
  lemma {:induction false} ExactlyOnce(nthreads: nat, steps: seq<Step>, trace: seq<Pool>, k: nat, id: Id)
    requires nthreads >= 1 && Run(nthreads, steps, trace) && k < |trace| && id < |trace[k].items|
    ensures var p := trace[k];
      && Places(p, id) == 1
      && multiset(p.ran)[id] <= 1 && (id in p.cancelled ==> id !in p.ran)
      && multiset(p.done)[Done(id, Ok)] + multiset(p.done)[Done(id, ECanceled)] <= 1
      && (Done(id, ECanceled) in p.done ==> id in p.cancelled)
      && (Done(id, Ok) in p.done ==> id in p.ran && id !in p.cancelled)
  {
    RunInv(nthreads, steps, trace, k);
    assert ItemOk(trace[k], id);
  }

  /** The slow-I/O cap and the token, for every interleaving. */
  lemma {:induction false} SlowIoCap(nthreads: nat, steps: seq<Step>, trace: seq<Pool>, k: nat)
    requires nthreads >= 1 && Run(nthreads, steps, trace) && k < |trace|
    ensures var p := trace[k];
      && p.slowRunning == |set i: nat | i < |p.workers| && HoldsSlot(p.workers[i])| <= (nthreads + 1) / 2
      && (p.slowPending != [] ==> RunSlowWork in p.wq)
      && multiset(p.wq)[RunSlowWork] <= 1
      && (p.tokenLinked <==> RunSlowWork in p.wq)
  {
    RunInv(nthreads, steps, trace, k);
    var p := trace[k];
    assert Indices(p.workers, HoldsSlot) == set i: nat | i < |p.workers| && HoldsSlot(p.workers[i]);
  }

  /** Wake-ups conserve work: while any worker sleeps unsignalled, enough of the others are on
      their way to the queue for everything that could start now. */
  lemma {:induction false} NoIdleBacklog(nthreads: nat, steps: seq<Step>, trace: seq<Pool>, k: nat)
    requires nthreads >= 1 && Run(nthreads, steps, trace) && k < |trace| && Waiting in trace[k].workers
    ensures var p := trace[k];
      multiset(p.workers)[Ready(false)] + multiset(p.workers)[Signalled]
      >= |p.wq| - multiset(p.wq)[RunSlowWork] + if RunSlowWork in p.wq && p.slowRunning < (nthreads + 1) / 2 then 1
          else 0
  {
    RunInv(nthreads, steps, trace, k);
  }

  /** Callbacks already made stay made: the log only grows. */
  lemma {:induction false} DoneGrows(nthreads: nat, steps: seq<Step>, trace: seq<Pool>, j: nat, k: nat)
    requires Run(nthreads, steps, trace) && j <= k < |trace|
    ensures trace[j].done <= trace[k].done
  {
    var leq := (p: Pool, q: Pool) => p.done <= q.done;
    forall p: Pool, s: Step, q: Pool | Next(p, s, q) ensures leq(p, q) { NextFrame(p, s, q); }
    Monotone(Init(nthreads), Next, leq, steps, trace, j, k);
  }

  /** When `uv__work_cancel` reports success: exactly when the item has not started, or was
      cancelled before.  The second case includes an item whose callback already ran with
      ECANCELED, because unlinking leaves its queue links set; documentation says a finished
      request cannot be cancelled, and callers must not try in that one case. */
  lemma {:induction false} CancelVerdict(p: Pool, id: Id)
    requires Inv(p) && p.loopPc.Idle? && id < |p.items|
    ensures CancelGuard(p, id) <==> Work(id) in p.wq || id in p.slowPending || id in p.cancelled
    ensures Done(id, ECanceled) in p.done ==> CancelGuard(p, id)
    ensures Done(id, Ok) in p.done || id in p.ran ==> !CancelGuard(p, id)
  {
    assert ItemOk(p, id);
    assert Places(p, id) == 1;
  }

  /** A run that gets there: submit, cancel, deliver; the test would still say yes. */
  lemma {:induction false} StaleCancel(a: Pool, b: Pool, c: Pool, d: Pool, e: Pool, f: Pool)
    requires a == Post(Init(1), Cpu, 0) && b == Detach(a, 0) && c == HandOver(b)
    requires d == EnterDone(c) && e == MoveBatch(d) && f == Deliver(e)
    ensures Run(1, [Submit(Cpu, 0), CancelDetach(0), CancelHandOver, DoneWake, DoneMove, DoneNext],
        [Init(1), a, b, c, d, e, f])
    ensures f.done == [Done(0, ECanceled)] && CancelGuard(f, 0)
  {
    var steps := [Submit(Cpu, 0), CancelDetach(0), CancelHandOver, DoneWake, DoneMove, DoneNext];
    var trace := [Init(1), a, b, c, d, e, f];
    assert Next(trace[0], steps[0], trace[1]) && Next(trace[1], steps[1], trace[2])
        && Next(trace[2], steps[2], trace[3]);
    assert Next(trace[3], steps[3], trace[4]) && Next(trace[4], steps[4], trace[5])
        && Next(trace[5], steps[5], trace[6]);
  }

  /** What such a cancel would do, wherever it happens with the loop idle and its queues drained: the
      callback runs a second time.  So `Enabled` has to leave it out for `ExactlyOnce` to hold. */
  lemma {:induction false} CalledTwice(p: Pool, id: Id)
    requires Inv(p) && p.loopPc.Idle? && p.batch == [] && p.loopWq == [] && Done(id, ECanceled) in p.done
    ensures id < |p.items| && CancelGuard(p, id)
    ensures var q := MoveBatch(EnterDone(HandOver(Detach(p, id))));
      q.batch == [id] && Deliver(q).done == p.done + [Done(id, ECanceled)]
    ensures var q := MoveBatch(EnterDone(HandOver(Detach(p, id)))); multiset(Deliver(q).done)[Done(id, ECanceled)] == 2
  {
    assert ItemOk(p, id);
    CancelVerdict(p, id);
    var q := HandOver(Detach(p, id));
    assert q.loopWq == [] + [id];
    assert Places(p, id) == 1 && multiset(p.done)[Done(id, ECanceled)] == 1;
  }

  // ---------- Everything submitted is delivered ----------

  /** Steps the pool makes on its own: no new request, no cancel request, no spurious wake-up. */
  predicate Internal(s: Step) { !s.Submit? && !s.CancelDetach? && !s.SpuriousWake? }

  ghost predicate Quiescent(p: Pool) { forall s: Step | Internal(s) :: !Enabled(p, s) }

  predicate IsRunning(w: Worker) { w.Running? }

  predicate IsReady(w: Worker) { w.Ready? }

  /** An upper bound for the internal steps that remain. */
  ghost function Effort(p: Pool): int {
    6 * (|p.wq| - multiset(p.wq)[RunSlowWork] + |p.slowPending|) + 5 * Count(p.workers, IsRunning)
    + (if p.loopPc.HandingOver? then 4 else if p.loopPc.EnteringDone? then 1 else 0)
    + |p.loopWq| + |p.batch| + Count(p.workers, IsReady) + multiset(p.workers)[Signalled] + if p.wakePending then 2
        else 0
  }

  /** A pool at rest has delivered every item: nothing is lost, stuck or asleep on work. */
  lemma {:induction false} QuiescentDelivered(p: Pool, id: Id)
    requires Inv(p) && Quiescent(p) && id < |p.items|
    ensures Done(id, Ok) in p.done || Done(id, ECanceled) in p.done
  {
    assert ItemOk(p, id);
    NobodyBusy(p);
    AllWaiting(p);
    assert Running(id, false) !in p.workers && Running(id, true) !in p.workers;
    assert !Enabled(p, CancelHandOver) && !Enabled(p, DoneMove) && !Enabled(p, DoneNext) && !Enabled(p, DoneWake);
    assert Work(id) !in p.wq && p.batch == [] && p.loopWq == [] && p.loopPc.Idle?;
  }

  lemma {:induction false} WakeExists(p: Pool) returns (wake: nat)
    ensures WakeOk(p, wake)
  {
    if Waiting in p.workers {
      wake :| wake < |p.workers| && p.workers[wake].Waiting?;
    } else {
      wake := 0;
    }
  }

  lemma {:induction false} NobodyBusy(p: Pool)
    requires Quiescent(p)
    ensures forall w <- p.workers :: w.Waiting?
  {
    var wake := WakeExists(p);
    forall i | 0 <= i < |p.workers| ensures p.workers[i].Waiting? {
      assert !Enabled(p, FinishWork(i)) && !Enabled(p, WorkerLock(i, wake));
    }
  }

  lemma {:induction false} AllWaiting(p: Pool)
    requires SchedInv(p) && forall w <- p.workers :: w.Waiting?
    ensures p.slowPending == [] && forall e <- p.wq :: e.RunSlowWork?
  {
    assert p.workers[0] in p.workers;
    assert Indices(p.workers, HoldsSlot) == {} by {
      forall i: nat | i < |p.workers| ensures !HoldsSlot(p.workers[i]) { assert p.workers[i] in p.workers; }
    }
    assert Ready(false) !in p.workers && Signalled !in p.workers;
    assert multiset(p.workers)[Waiting] > 0;
    WorkCount(p.wq);
  }

  lemma {:induction false} WorkCount(wq: seq<Entry>)
    ensures multiset(wq)[RunSlowWork] <= |wq|
    ensures multiset(wq)[RunSlowWork] == |wq| ==> forall e <- wq :: e.RunSlowWork?
  {
    if wq != [] {
      SplitHead(wq);
      WorkCount(wq[1..]);
    }
  }

  lemma {:induction false} MoveCounts(ws: seq<Worker>, i: nat, w: Worker)
    requires i < |ws|
    ensures multiset(ws[i := w]) == multiset(ws) - multiset{ws[i]} + multiset{w}
    ensures Count(ws[i := w], IsRunning) ==
        Count(ws, IsRunning) - (if ws[i].Running? then 1 else 0) + (if w.Running? then 1 else 0)
    ensures Count(ws[i := w], IsReady) ==
        Count(ws, IsReady) - (if ws[i].Ready? then 1 else 0) + (if w.Ready? then 1 else 0)
  {
    CountUpdate(ws, i, w, IsRunning);
    CountUpdate(ws, i, w, IsReady);
  }

  lemma {:induction false} RetakeEffort(p: Pool, i: nat)
    requires i < |p.workers| && (p.workers[i].Ready? || p.workers[i].Signalled?)
    ensures Effort(Retake(p, i)) == Effort(p)
  {
    MoveCounts(p.workers, i, Ready(false));
    var ws, q := p.workers[i := Ready(false)], Retake(p, i);
    assert q.workers == ws && q.wq == p.wq && q.slowPending == p.slowPending && q.loopPc == p.loopPc;
    assert Count(ws, IsReady) + multiset(ws)[Signalled] == Count(p.workers, IsReady) + multiset(p.workers)[Signalled];
  }

  lemma {:induction false} GoAroundEffort(p: Pool)
    requires GoesAround(p)
    ensures Effort(GoAround(p)) == Effort(p)
  {
    SplitHead(p.wq);
  }

  lemma {:induction false} SignalEffort(p: Pool, wake: nat)
    ensures Effort(Signal(p, wake)) <= Effort(p) + 1
  {
    if p.idle > 0 && wake < |p.workers| && p.workers[wake].Waiting? { MoveCounts(p.workers, wake, Signalled); }
  }

  lemma {:induction false} GrabSlowEffort(p: Pool, i: nat, wake: nat)
    requires AtSlowItem(p, i)
    ensures Effort(GrabSlow(p, wake)) <= Effort(p) - 5
  {
    SplitHead(p.wq);
    assert Effort(TakePending(p)) == Effort(p) - 6;
    SignalEffort(Schedule(TakePending(p), SlowIo), wake);
  }

  lemma {:induction false} StartEffort(p: Pool, i: nat, id: Id, slow: bool)
    requires i < |p.workers| && p.workers[i] == Ready(false)
    ensures Effort(Start(p, i, id, slow)) == Effort(p) + 4
  {
    MoveCounts(p.workers, i, Running(id, slow));
  }

  lemma {:induction false} TakeItemEffort(p: Pool, i: nat)
    requires i < |p.workers| && p.workers[i] == Ready(false) && p.wq != [] && p.wq[0].Work?
    ensures Effort(Start(p.(wq := p.wq[1..]), i, p.wq[0].id, false)) == Effort(p) - 2
  {
    SplitHead(p.wq);
    StartEffort(p.(wq := p.wq[1..]), i, p.wq[0].id, false);
  }

  lemma {:induction false} TakeSlowEffort(p: Pool, i: nat, wake: nat)
    requires AtSlowItem(p, i)
    ensures Effort(Start(GrabSlow(p, wake), i, p.slowPending[0], true)) < Effort(p)
  {
    GrabSlowEffort(p, i, wake);
    StartEffort(GrabSlow(p, wake), i, p.slowPending[0], true);
  }

  lemma {:induction false} SettleEffort(p: Pool, i: nat, wake: nat)
    requires i < |p.workers| && p.workers[i] == Ready(false) && !GoesAround(p)
    ensures Effort(Settle(p, i, wake)) < Effort(p)
  {
    if MustWait(p) {
      MoveCounts(p.workers, i, Waiting);
    } else if p.wq[0].Work? {
      TakeItemEffort(p, i);
    } else {
      TakeSlowEffort(p, i, wake);
    }
  }

  lemma {:induction false} PickEffort(p: Pool, i: nat, wake: nat)
    requires i < |p.workers| && p.workers[i] == Ready(false) && TokenOnce(p.wq)
    ensures Effort(Pick(p, i, wake)) < Effort(p)
    decreases |p.wq|, if p.wq != [] && p.wq[0].RunSlowWork? then 1 else 0
  {
    if GoesAround(p) {
      GoAroundShrinks(p);
      GoAroundEffort(p);
      PickEffort(GoAround(p), i, wake);
    } else {
      SettleEffort(p, i, wake);
    }
  }

  lemma {:induction false} InternalEffort(p: Pool, s: Step)
    requires Inv(p) && Enabled(p, s) && Internal(s)
    ensures Effort(Apply(p, s)) < Effort(p)
  {
    match s
    case WorkerLock(i, wake) => RetakeEffort(p, i); PickEffort(Retake(p, i), i, wake);
    case FinishWork(i) => FinishEffort(p, i);
    case DoneNext => SplitHead(p.batch);
    case _ => LoopEffort(p, s);
  }

  lemma {:induction false} LoopEffort(p: Pool, s: Step)
    requires Inv(p) && Enabled(p, s) && Internal(s) && !s.WorkerLock? && !s.FinishWork? && !s.DoneNext?
    ensures Effort(Apply(p, s)) < Effort(p)
  {
  }

  lemma {:induction false} FinishEffort(p: Pool, i: nat)
    requires i < |p.workers| && p.workers[i].Running?
    ensures Effort(Finish(p, i)) < Effort(p)
  {
    MoveCounts(p.workers, i, Ready(p.workers[i].slow));
  }

  /** Left alone, the pool comes to rest within `Effort` steps, whatever the scheduler does; by
      `QuiescentDelivered` every submitted item has then had its callback. */
  lemma {:induction false} DrainBound(nthreads: nat, steps: seq<Step>, trace: seq<Pool>, j: nat, k: nat)
    requires nthreads >= 1 && Run(nthreads, steps, trace) && j <= k < |trace|
    requires forall i | j <= i < k :: Internal(steps[i])
    ensures k - j <= Effort(trace[j])
  {
    var inv := (p: Pool) => Inv(p);
    InitInv(nthreads);
    forall p: Pool, s: Step, q: Pool | inv(p) && Next(p, s, q) ensures inv(q) { StepInv(p, s); }
    forall p: Pool, s: Step, q: Pool | inv(p) && Next(p, s, q) && Internal(s) ensures Effort(q) < Effort(p) {
      InternalEffort(p, s);
    }
    Bounded(Init(nthreads), Next, inv, Effort, Internal, steps, trace, j, k);
    WorkCount(trace[k].wq);
  }

  // ---------- The program ----------

  /** The globals of threadpool.c, the workers' program counters and one loop's completion side. */
  class Threads {
    var items: seq<Item>
    var wq: seq<Entry>
    var slowPending: seq<Id>
    var tokenLinked: bool
    var idle: int
    var slowRunning: int
    var workers: seq<Worker>
    var loopPc: LoopPc
    var loopWq: seq<Id>
    var wakePending: bool
    var batch: seq<Id>
    var ran: seq<Id>
    ghost var cancelled: set<Id>
    var done: seq<Done>

    ghost function State(): Pool
      reads this
    {
      Pool(items, wq, slowPending, tokenLinked, idle, slowRunning, workers, loopPc, loopWq, wakePending, batch, ran,
          cancelled, done)
    }

    constructor (nthreads: nat)
      requires nthreads >= 1
      ensures State() == Init(nthreads) && Inv(State())
    {
      items, wq, slowPending, tokenLinked := [], [], [], false;
      idle, slowRunning, workers := 0, 0, seq(nthreads, _ => Ready(false));
      loopPc, loopWq, wakePending, batch := Idle, [], false, [];
      ran, cancelled, done := [], {}, [];
      new;
      InitInv(nthreads);
    }

    /** `uv_cond_signal(&cond)` behind the test of `idle_threads`. */
    method SignalOne(wake: nat)
      modifies this
      ensures State() == Signal(old(State()), wake)
    {
      if idle > 0 {
        if wake < |workers| && workers[wake].Waiting? {
          workers := workers[wake := Signalled];
        }
      }
    }

    /** Take the first pending slow item; schedule the rest and wake somebody for it. */
    method TakeSlowItem(wake: nat) returns (id: Id)
      requires wq != [] && slowPending != []
      modifies this
      ensures State() == GrabSlow(old(State()), wake) && id == old(slowPending)[0]
      ensures slowPending == old(slowPending)[1..]
      ensures wq == old(wq)[1..] + if slowPending == [] then [] else [RunSlowWork]
    {
      wq, tokenLinked := wq[1..], false;
      slowRunning := slowRunning + 1;
      id := slowPending[0];
      slowPending := slowPending[1..];
      if slowPending != [] {
        wq, tokenLinked := wq + [RunSlowWork], true;
        SignalOne(wake);
      }
    }

    method StartItem(i: nat, id: Id, slow: bool)
      requires i < |workers|
      modifies this
      ensures State() == Start(old(State()), i, id, slow)
    {
      items := MarkItem(items, id, UserWork, false);
      workers := workers[i := Running(id, slow)];
      ran := ran + [id];
    }

    /** One round of the worker loop with `mutex` held. */
    method Round(i: nat, wake: nat) returns (settled: bool)
      requires i < |workers| && TokenOnce(wq)
      modifies this
      ensures settled <==> !GoesAround(old(State()))
      ensures State() == if settled then Settle(old(State()), i, wake) else GoAround(old(State()))
    {
      settled := true;
      var threshold := (|workers| + 1) / 2;
      if wq == [] || (wq == [RunSlowWork] && slowRunning >= threshold) {
        idle := idle + 1;
        workers := workers[i := Waiting];
      } else if wq[0].Work? {
        var id := wq[0].id;
        wq := wq[1..];
        StartItem(i, id, false);
      } else if slowRunning >= threshold {
        wq, tokenLinked := wq[1..] + [RunSlowWork], true;
        settled := false;
      } else if slowPending == [] {
        wq, tokenLinked := wq[1..], false;
        settled := false;
      } else {
        var id := TakeSlowItem(wake);
        StartItem(i, id, true);
      }
    }

    /** `mutex` is held again, at the bottom of the loop or on return from `uv_cond_wait`. */
    method Reacquire(i: nat)
      requires i < |workers| && (workers[i].Ready? || workers[i].Signalled?)
      modifies this
      ensures State() == Retake(old(State()), i)
    {
      if workers[i].Signalled? {
        idle := idle - 1;
      } else if workers[i].givesSlot {
        slowRunning := slowRunning - 1;
      }
      workers := workers[i := Ready(false)];
    }

    /** Everything `worker` does between taking `mutex` and giving it up. */
    method WorkerCriticalSection(i: nat, wake: nat)
      requires i < |workers| && (workers[i].Ready? || workers[i].Signalled?) && TokenOnce(wq)
      modifies this
      ensures State() == Pick(Retake(old(State()), i), i, wake)
    {
      Reacquire(i);
      ghost var start := State();
      var settled := false;
      while !settled
        invariant !settled ==> i < |workers| && TokenOnce(wq) && Pick(State(), i, wake) == Pick(start, i, wake)
        invariant settled ==> State() == Pick(start, i, wake)
        decreases !settled, |wq|, if wq != [] && wq[0].RunSlowWork? then 1 else 0
      {
        if GoesAround(State()) { GoAroundShrinks(State()); }
        settled := Round(i, wake);
      }
    }

    /** The loop-side locks and the wake-up at the end of a work item or of a cancel. */
    method CompleteItem(id: Id, work: WorkFn)
      modifies this
      ensures State() == Complete(old(State()), id, work)
    {
      items := MarkItem(items, id, work, true);
      loopWq := loopWq + [id];
      wakePending := true;
    }

    method FinishItem(i: nat)
      requires i < |workers| && workers[i].Running?
      modifies this
      ensures State() == Finish(old(State()), i)
    {
      var w := workers[i];
      workers := workers[i := Ready(w.slow)];
      CompleteItem(w.id, Null);
    }

    method WakeUp(i: nat)
      requires i < |workers| && workers[i].Waiting?
      modifies this
      ensures State() == Arouse(old(State()), i)
    {
      workers := workers[i := Signalled];
    }

    /** `uv__work_submit`, that is `post`. */
    method SubmitWork(kind: Kind, wake: nat) returns (id: Id)
      requires loopPc.Idle?
      modifies this
      ensures State() == Post(old(State()), kind, wake) && id == |old(items)|
      ensures items == old(items) + [Item(kind, UserWork, true)]
      ensures slowPending == old(slowPending) + if kind.SlowIo? then [id] else []
      ensures wq == old(wq) + if !kind.SlowIo? then [Work(id)] else if old(tokenLinked) then [] else [RunSlowWork]
      ensures kind.SlowIo? && old(tokenLinked) ==> workers == old(workers)
    {
      id := |items|;
      items := items + [Item(kind, UserWork, true)];
      if kind.SlowIo? {
        slowPending := slowPending + [id];
        if tokenLinked { return; }
        wq, tokenLinked := wq + [RunSlowWork], true;
      } else {
        wq := wq + [Work(id)];
      }
      SignalOne(wake);
    }

    /** The first half of `uv__work_cancel`; a successful one continues with `HandOverCancelled`. */
    method CancelWork(id: Id) returns (ok: bool)
      requires loopPc.Idle? && id < |items| && Done(id, ECanceled) !in done
      modifies this
      ensures State() == if ok then Detach(old(State()), id) else old(State())
      ensures ok <==> CancelGuard(old(State()), id)
    {
      ok := items[id].linked && !items[id].work.Null?;
      if ok {
        wq, slowPending := Without(wq, Work(id)), Without(slowPending, id);
        loopWq, batch := Without(loopWq, id), Without(batch, id);
        loopPc, cancelled := HandingOver(id), cancelled + {id};
      }
    }

    method HandOverCancelled()
      requires loopPc.HandingOver?
      modifies this
      ensures State() == HandOver(old(State()))
    {
      var id := loopPc.id;
      loopPc := Idle;
      CompleteItem(id, CancelMark);
    }

    /** The async layer clears its flag and calls `uv__work_done`. */
    method EnterWorkDone()
      requires loopPc.Idle? && batch == [] && wakePending
      modifies this
      ensures State() == EnterDone(old(State()))
    {
      wakePending, loopPc := false, EnteringDone;
    }

    method MoveCompletions()
      requires loopPc.EnteringDone?
      modifies this
      ensures State() == MoveBatch(old(State()))
    {
      batch, loopWq, loopPc := loopWq, [], Idle;
    }

    /** One round of the loop of `uv__work_done`: unlink the head and call `done` with its status. */
    method DeliverNext() returns (id: Id, status: Status)
      requires loopPc.Idle? && batch != []
      modifies this
      ensures State() == Deliver(old(State()))
      ensures done == old(done) + [Done(id, status)]
    {
      id := batch[0];
      batch := batch[1..];
      status := if id < |items| && items[id].work.CancelMark? then ECanceled else Ok;
      done := done + [Done(id, status)];
    }
  }
}
