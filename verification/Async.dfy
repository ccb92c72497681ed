/** The wake-up protocol of src/unix/async.c: any number of sending threads, one loop thread.

    Every atomic access of the source is one step, under sequential consistency.  `avail` counts
    what can be read from the wake descriptor; reads may return any part of it, and a write may
    find the descriptor full, which it only is when something can be read. */
module Async {
  import opened Common
  import opened Runs

  type Id = nat

  datatype Phase = Open | Closing | Closed

  /** `pending`, `busy` (kept in u.fd), and, for the statements only, whether a send still waits for its callback. */
  datatype Handle = Handle(pending: bool, busy: int, phase: Phase, owed: bool)

  /** Where a thread is in uv_async_send: after the cheap read, after raising busy, after an
      exchange that found 0, before lowering busy. */
  datatype Sender = Outside | Checked(h: Id) | Busy(h: Id) | Writing(h: Id) | Leaving(h: Id)

  datatype LoopPc = Waiting | Draining | Visiting

  /** `list` is loop->async_handles, `queue` the local list of uv__async_io, `spin` the handle
      that uv__async_spin waits for. */
  datatype State = State(handles: seq<Handle>, senders: seq<Sender>, avail: nat, pc: LoopPc, list: seq<Id>,
      queue: seq<Id>, spin: int, called: seq<Id>)

  datatype Step =
    | Init
    | SendRead(i: nat, h: Id) | SendEnter(i: nat) | SendExchange(i: nat) | SendWrite(i: nat,
        full: bool) | SendLeave(i: nat)
    | Wake | Read(k: nat, more: bool) | ReadNothing | Visit | EndVisit
    | CloseStart(h: Id) | SpinDone

  // ---------- Steps ----------

  function WithHandle(s: State, h: Id, x: Handle): State
    requires h < |s.handles|
  {
    s.(handles := s.handles[h := x])
  }

  function WithSender(s: State, i: nat, x: Sender): State
    requires i < |s.senders|
  {
    s.(senders := s.senders[i := x])
  }

  predicate Free(s: State) { s.spin < 0 && s.pc != Draining }

  predicate Enabled(s: State, a: Step) {
    match a
    case Init => Free(s)
    case SendRead(i, h) => i < |s.senders| && s.senders[i] == Outside && h < |s.handles|
    case SendEnter(i) => i < |s.senders| && s.senders[i].Checked? && s.senders[i].h < |s.handles|
    case SendExchange(i) => i < |s.senders| && s.senders[i].Busy? && s.senders[i].h < |s.handles|
    case SendWrite(i, full) =>
        i < |s.senders| && s.senders[i].Writing? && s.senders[i].h < |s.handles| && (full ==> s.avail > 0)
    case SendLeave(i) => i < |s.senders| && s.senders[i].Leaving? && s.senders[i].h < |s.handles|
    case Wake => s.pc == Waiting && s.spin < 0 && s.avail > 0
    case Read(k, more) => s.pc == Draining && 1 <= k <= s.avail
    case ReadNothing => s.pc == Draining && s.avail == 0
    case Visit => s.pc == Visiting && s.spin < 0 && s.queue != [] && s.queue[0] < |s.handles|
    case EndVisit => s.pc == Visiting && s.spin < 0 && s.queue == []
    case CloseStart(h) => Free(s) && h < |s.handles| && s.handles[h].phase == Open
    case SpinDone => 0 <= s.spin < |s.handles| && s.handles[s.spin].busy == 0
  }

  function EndDrain(s: State): State { s.(pc := Visiting, queue := s.list, list := []) }

  function AfterVisit(s: State): State
    requires s.queue != [] && s.queue[0] < |s.handles|
  {
    var h := s.queue[0];
    var was := s.handles[h];
    WithHandle(s, h, was.(pending := false, owed := false)).(queue := s.queue[1..], list := s.list + [h],
        called := if was.pending then s.called + [h] else s.called)
  }

  function Apply(s: State, a: Step): State
    requires Enabled(s, a)
  {
    match a
    case Init => s.(handles := s.handles + [Handle(false, 0, Open, false)], list := s.list + [|s.handles|])
    case SendRead(i, h) =>
      var x := s.handles[h];
      if x.pending then WithHandle(s, h, x.(owed := true)) else WithSender(s, i, Checked(h))
    case SendEnter(i) =>
      var h := s.senders[i].h;
      WithHandle(WithSender(s, i, Busy(h)), h, s.handles[h].(busy := s.handles[h].busy + 1))
    case SendExchange(i) =>
      var h := s.senders[i].h;
      WithHandle(WithSender(s, i, if s.handles[h].pending then Leaving(h) else Writing(h)), h,
          s.handles[h].(pending := true, owed := true))
    case SendWrite(i, full) =>
        WithSender(s, i, Leaving(s.senders[i].h)).(avail := if full then s.avail else s.avail + 1)
    case SendLeave(i) =>
      var h := s.senders[i].h;
      WithHandle(WithSender(s, i, Outside), h, s.handles[h].(busy := s.handles[h].busy - 1))
    case Wake => s.(pc := Draining)
    case Read(k, more) => if more then s.(avail := s.avail - k) else EndDrain(s.(avail := s.avail - k))
    case ReadNothing => EndDrain(s)
    case Visit => AfterVisit(s)
    case EndVisit => s.(pc := Waiting)
    case CloseStart(h) => WithHandle(s, h, s.handles[h].(pending := true, phase := Closing)).(spin := h)
    case SpinDone =>
      var h := s.spin;
      WithHandle(s, h, s.handles[h].(phase := Closed)).(spin := -1, list := Without<Id>(s.list, h),
          queue := Without<Id>(s.queue, h))
  }

  // ---------- The invariant ----------

  function Inside(ms: multiset<Sender>, h: Id): nat { ms[Busy(h)] + ms[Writing(h)] + ms[Leaving(h)] }

  /** The loop will look at the handle before it sleeps again. */
  predicate WillVisit(s: State, h: Id) { s.pc == Draining || (s.pc == Visiting && h in s.queue) }

  ghost predicate HandleOk(s: State, h: Id)
    requires h < |s.handles|
  {
    var x := s.handles[h];
    match (x.phase != Open ==> x.pending) && (x.owed ==> x.pending) && (x.phase == Closing <==> s.spin == h)
    case false => false
    case true =>
      && x.busy == Inside(multiset(s.senders), h)
      && (x.phase == Open && x.pending ==> s.avail > 0 || Writing(h) in s.senders || WillVisit(s, h))
      && (x.phase == Closed ==> Writing(h) !in s.senders)
      && multiset(s.list)[h] + multiset(s.queue)[h] == if x.phase == Closed then 0 else 1
  }

  ghost predicate LoopOk(s: State) {
    match -1 <= s.spin < |s.handles| && (s.spin >= 0 ==> s.pc != Draining) && (s.pc != Visiting ==> s.queue == [])
    case false => false
    case true =>
      && (forall k | 0 <= k < |s.list| :: s.list[k] < |s.handles|)
      && (forall k | 0 <= k < |s.queue| :: s.queue[k] < |s.handles|)
      && (forall i | 0 <= i < |s.senders| && s.senders[i] != Outside :: s.senders[i].h < |s.handles|)
  }

  ghost predicate Inv(s: State) { LoopOk(s) && forall h: Id | h < |s.handles| :: HandleOk(s, h) }

  lemma {:induction false} MoveSender(senders: seq<Sender>, i: nat, x: Sender)
    requires i < |senders|
    ensures multiset(senders[i := x]) ==
        multiset(senders)[senders[i] := multiset(senders)[senders[i]] - 1] + multiset{x}
  {
    var ms := multiset(senders);
    assert senders[i] in ms;
    assert multiset(senders[i := x]) == ms - multiset{senders[i]} + multiset{x};
  }

  predicate OfSender(a: Step) { a.SendRead? || a.SendEnter? || a.SendExchange? || a.SendWrite? || a.SendLeave? }

  lemma {:induction false} SenderKeeps(s: State, a: Step, h: Id)
    requires Inv(s) && Enabled(s, a) && OfSender(a) && h < |s.handles|
    ensures HandleOk(Apply(s, a), h)
  {
    match a
    case SendRead(i, g) => ReadKeeps(s, i, g, h);
    case SendEnter(i) => EnterKeeps(s, i, h);
    case SendExchange(i) => ExchangeKeeps(s, i, h);
    case SendWrite(i, full) => WriteKeeps(s, i, full, h);
    case SendLeave(i) => LeaveKeeps(s, i, h);
  }

  lemma {:induction false} ReadKeeps(s: State, i: nat, g: Id, h: Id)
    requires Inv(s) && Enabled(s, SendRead(i, g)) && h < |s.handles|
    ensures HandleOk(Apply(s, SendRead(i, g)), h)
  {
    assert HandleOk(s, h);
    if s.handles[g].pending { OwedKeeps(s, g, h); } else { CheckedKeeps(s, i, g, h); }
  }

  lemma {:induction false} OwedKeeps(s: State, g: Id, h: Id)
    requires g < |s.handles| && h < |s.handles| && HandleOk(s, h) && s.handles[g].pending
    ensures HandleOk(WithHandle(s, g, s.handles[g].(owed := true)), h)
  {
  }

  lemma {:induction false} CheckedKeeps(s: State, i: nat, g: Id, h: Id)
    requires i < |s.senders| && s.senders[i] == Outside && h < |s.handles| && HandleOk(s, h)
    ensures HandleOk(WithSender(s, i, Checked(g)), h)
  {
    MoveSender(s.senders, i, Checked(g));
  }

  lemma {:induction false} EnterKeeps(s: State, i: nat, h: Id)
    requires Inv(s) && Enabled(s, SendEnter(i)) && h < |s.handles|
    ensures HandleOk(Apply(s, SendEnter(i)), h)
  {
    assert HandleOk(s, h);
    MoveSender(s.senders, i, Busy(s.senders[i].h));
  }

  lemma {:induction false} ExchangeKeeps(s: State, i: nat, h: Id)
    requires Inv(s) && Enabled(s, SendExchange(i)) && h < |s.handles|
    ensures HandleOk(Apply(s, SendExchange(i)), h)
  {
    assert HandleOk(s, h);
    MoveSender(s.senders, i, if s.handles[s.senders[i].h].pending then Leaving(s.senders[i].h)
        else Writing(s.senders[i].h));
  }

  lemma {:induction false} WriteKeeps(s: State, i: nat, full: bool, h: Id)
    requires Inv(s) && Enabled(s, SendWrite(i, full)) && h < |s.handles|
    ensures HandleOk(Apply(s, SendWrite(i, full)), h)
  {
    assert HandleOk(s, h);
    MoveSender(s.senders, i, Leaving(s.senders[i].h));
  }

  lemma {:induction false} LeaveKeeps(s: State, i: nat, h: Id)
    requires Inv(s) && Enabled(s, SendLeave(i)) && h < |s.handles|
    ensures HandleOk(Apply(s, SendLeave(i)), h)
  {
    assert HandleOk(s, h);
    MoveSender(s.senders, i, Outside);
  }

  lemma {:induction false} LoopKeeps(s: State, a: Step, h: Id)
    requires Inv(s) && Enabled(s, a) && !OfSender(a) && h < |Apply(s, a).handles|
    ensures HandleOk(Apply(s, a), h)
  {
    if h < |s.handles| { assert HandleOk(s, h); }
    match a
    case Init => InitKeeps(s, h);
    case Visit => VisitKeeps(s, h);
    case SpinDone => SpinKeeps(s, h);
    case _ =>
  }

  lemma {:induction false} VisitKeeps(s: State, h: Id)
    requires Inv(s) && Enabled(s, Visit) && h < |s.handles|
    ensures HandleOk(Apply(s, Visit), h)
  {
    assert HandleOk(s, h);
    assert s.queue == [s.queue[0]] + s.queue[1..];
  }

  lemma {:induction false} SpinKeeps(s: State, h: Id)
    requires Inv(s) && Enabled(s, SpinDone) && h < |s.handles|
    ensures HandleOk(Apply(s, SpinDone), h)
  {
    assert HandleOk(s, h) && HandleOk(s, s.spin);
    WithoutRemovesAll<Id>(s.list, s.spin);
    WithoutRemovesAll<Id>(s.queue, s.spin);
    WithoutMember<Id>(s.queue, s.spin, h);
  }

  lemma {:induction false} InitKeeps(s: State, h: Id)
    requires Inv(s) && Enabled(s, Init) && h <= |s.handles|
    ensures HandleOk(Apply(s, Init), h)
  {
    if h < |s.handles| {
      assert HandleOk(s, h);
    } else {
      assert forall x | x in s.senders :: x == Outside || x.h < h;
      assert multiset(s.senders)[Busy(h)] == 0 && multiset(s.senders)[Writing(h)] == 0
          && multiset(s.senders)[Leaving(h)] == 0;
      assert h !in s.list && h !in s.queue;
    }
  }

  lemma {:induction false} StepInv(s: State, a: Step)
    requires Inv(s) && Enabled(s, a)
    ensures Inv(Apply(s, a))
  {
    StepLoop(s, a);
    forall h: Id | h < |Apply(s, a).handles| ensures HandleOk(Apply(s, a), h) {
      if OfSender(a) { SenderKeeps(s, a, h); } else { LoopKeeps(s, a, h); }
    }
  }

  lemma {:induction false} StepLoop(s: State, a: Step)
    requires Inv(s) && Enabled(s, a)
    ensures LoopOk(Apply(s, a))
  {
    if a.SpinDone? {
      forall k | 0 <= k < |Without<Id>(s.list, s.spin)| ensures Without<Id>(s.list, s.spin)[k] < |s.handles| {
        WithoutMember<Id>(s.list, s.spin, Without<Id>(s.list, s.spin)[k]);
      }
      forall k | 0 <= k < |Without<Id>(s.queue, s.spin)| ensures Without<Id>(s.queue, s.spin)[k] < |s.handles| {
        WithoutMember<Id>(s.queue, s.spin, Without<Id>(s.queue, s.spin)[k]);
      }
    }
  }

  // ---------- What holds in every run ----------

  ghost function Start(n: nat): State { State([], seq(n, i => Outside), 0, Waiting, [], [], -1, []) }

  ghost predicate Next(p: State, a: Step, q: State) { Enabled(p, a) && q == Apply(p, a) }

  ghost predicate Run(n: nat, steps: seq<Step>, trace: seq<State>) { IsRun(Start(n), Next, steps, trace) }

  lemma {:induction false} RunInv(n: nat, steps: seq<Step>, trace: seq<State>, k: nat)
    requires Run(n, steps, trace) && k < |trace|
    ensures Inv(trace[k])
  {
    var inv := (p: State) => Inv(p);
    forall p: State, a: Step, q: State | inv(p) && Next(p, a, q) ensures inv(q) { StepInv(p, a); }
    Invariant(Start(n), Next, inv, steps, trace, k);
    assert inv(trace[k]);
  }

  /** No lost wake-up, in every interleaving: while an open handle is pending, the descriptor is
      readable, or a sender is about to write it, or the loop is about to visit the handle. */
  lemma {:induction false} NoLostWakeUp(n: nat, steps: seq<Step>, trace: seq<State>, k: nat, h: Id)
    requires Run(n, steps, trace) && k < |trace| && h < |trace[k].handles|
    ensures var s := trace[k];
      s.handles[h].phase == Open && s.handles[h].pending ==> s.avail > 0 || Writing(h) in s.senders || WillVisit(s, h)
  {
    RunInv(n, steps, trace, k);
    assert HandleOk(trace[k], h);
  }

  /** So when everything is at rest, no send to an open handle still waits for its callback. */
  lemma {:induction false} RestOwesNothing(n: nat, steps: seq<Step>, trace: seq<State>, k: nat, h: Id)
    requires Run(n, steps, trace) && k < |trace| && h < |trace[k].handles|
    requires var s := trace[k];
        s.pc == Waiting && s.avail == 0 && (forall i | 0 <= i < |s.senders| :: s.senders[i] == Outside)
        && s.handles[h].phase == Open
    ensures !trace[k].handles[h].owed && !trace[k].handles[h].pending
  {
    NoLostWakeUp(n, steps, trace, k, h);
    RunInv(n, steps, trace, k);
    assert HandleOk(trace[k], h);
  }

  /** A send is counted as owed from its exchange (or its cheap read that saw a pending flag) until
      a visit, which then makes the callback. */
  lemma {:induction false} OwedUntilCalled(s: State, a: Step, h: Id)
    requires Inv(s) && Enabled(s, a) && h < |s.handles| && s.handles[h].owed && !Apply(s, a).handles[h].owed
    ensures a == Visit && Apply(s, a).called == s.called + [h]
  {
    assert HandleOk(s, h);
  }

  /** Once a close has returned, no sender ever writes the descriptor through the handle again,
      and its callback is not made any more. */
  lemma {:induction false} QuietAfterClose(n: nat, steps: seq<Step>, trace: seq<State>, j: nat, k: nat, h: Id)
    requires Run(n, steps, trace) && j <= k < |trace| && h < |trace[j].handles| && trace[j].handles[h].phase == Closed
    ensures h < |trace[k].handles| && trace[k].handles[h].phase == Closed
    ensures Writing(h) !in trace[k].senders && h !in trace[k].list && h !in trace[k].queue
  {
    var leq := (p: State, q: State) =>
        |p.handles| <= |q.handles| && forall g | 0 <= g < |p.handles|
        && p.handles[g].phase == Closed :: q.handles[g].phase == Closed;
    forall p: State, a: Step, q: State | Next(p, a, q) ensures leq(p, q) { StaysClosed(p, a); }
    Monotone(Start(n), Next, leq, steps, trace, j, k);
    RunInv(n, steps, trace, k);
    assert HandleOk(trace[k], h);
  }

  lemma {:induction false} StaysClosed(p: State, a: Step)
    requires Enabled(p, a)
    ensures var q := Apply(p, a);
        |p.handles| <= |q.handles| && forall g | 0 <= g < |p.handles|
        && p.handles[g].phase == Closed :: q.handles[g].phase == Closed
  {
  }

  // ---------- A callback for a send, and one write for a callback ----------

  /** What senders did with one handle: exchanges of its pending flag, and writes of the descriptor. */
  datatype Tally = Tally(exchanges: nat, writes: nat)

  predicate Exchanges(h: Id, s: State, a: Step) { a.SendExchange? && a.i < |s.senders| && s.senders[a.i] == Busy(h) }

  predicate WritesFor(h: Id, s: State, a: Step) { a.SendWrite? && a.i < |s.senders| && s.senders[a.i] == Writing(h) }

  function Tallied(h: Id, s: State, a: Step, t: Tally): Tally {
    if Exchanges(h, s, a) then t.(exchanges := t.exchanges + 1)
    else if WritesFor(h, s, a) then t.(writes := t.writes + 1)
    else t
  }

  /** What steps j to k - 1 of a run did with the handle. */
  ghost function TallyOf(h: Id, steps: seq<Step>, trace: seq<State>, j: nat, k: nat): Tally
    requires j <= k < |trace| && |trace| == |steps| + 1
  {
    Fold((p: State, a: Step, q: State, t: Tally) => Tallied(h, p, a, t), Tally(0, 0), steps, trace, j, k)
  }

  /** The handle is open and a visit would call it back. */
  predicate CallDue(s: State, h: Id) { h < |s.handles| && s.handles[h].phase == Open && s.handles[h].pending }

  /** A sender may still find the pending flag of the handle clear. */
  predicate Clear(s: State, h: Id) { h < |s.handles| ==> !s.handles[h].pending }

  /** Every callback since `start` goes back to an exchange, and every write but one to a callback. */
  ghost predicate PaidFor(h: Id, start: State, s: State, t: Tally) {
    && multiset(s.called)[h] + (if CallDue(s, h) then 1 else 0)
        <= multiset(start.called)[h] + t.exchanges + (if CallDue(start, h) then 1 else 0)
    && multiset(start.called)[h] + t.writes + multiset(s.senders)[Writing(h)] + (if Clear(s, h) then 1 else 0)
        <= multiset(s.called)[h] + multiset(start.senders)[Writing(h)] + 1
  }

  lemma {:induction false} SenderPays(h: Id, start: State, s: State, a: Step, t: Tally)
    requires Inv(s) && Enabled(s, a) && OfSender(a) && PaidFor(h, start, s, t)
    ensures PaidFor(h, start, Apply(s, a), Tallied(h, s, a, t))
  {
    match a
    case SendRead(i, g) => ReadPays(h, start, s, i, g, t);
    case SendEnter(i) => EnterPays(h, start, s, i, t);
    case SendExchange(i) => ExchangePays(h, start, s, i, t);
    case SendWrite(i, full) => WritePays(h, start, s, i, full, t);
    case SendLeave(i) => LeavePays(h, start, s, i, t);
  }

  lemma {:induction false} ReadPays(h: Id, start: State, s: State, i: nat, g: Id, t: Tally)
    requires Enabled(s, SendRead(i, g)) && PaidFor(h, start, s, t)
    ensures PaidFor(h, start, Apply(s, SendRead(i, g)), t)
  {
    MoveSender(s.senders, i, Checked(g));
  }

  lemma {:induction false} EnterPays(h: Id, start: State, s: State, i: nat, t: Tally)
    requires Enabled(s, SendEnter(i)) && PaidFor(h, start, s, t)
    ensures PaidFor(h, start, Apply(s, SendEnter(i)), t)
  {
    MoveSender(s.senders, i, Busy(s.senders[i].h));
  }

  lemma {:induction false} ExchangePays(h: Id, start: State, s: State, i: nat, t: Tally)
    requires Enabled(s, SendExchange(i)) && PaidFor(h, start, s, t)
    ensures PaidFor(h, start, Apply(s, SendExchange(i)), Tallied(h, s, SendExchange(i), t))
  {
    var g := s.senders[i].h;
    MoveSender(s.senders, i, if s.handles[g].pending then Leaving(g) else Writing(g));
  }

  lemma {:induction false} WritePays(h: Id, start: State, s: State, i: nat, full: bool, t: Tally)
    requires Enabled(s, SendWrite(i, full)) && PaidFor(h, start, s, t)
    ensures PaidFor(h, start, Apply(s, SendWrite(i, full)), Tallied(h, s, SendWrite(i, full), t))
  {
    MoveSender(s.senders, i, Leaving(s.senders[i].h));
  }

  lemma {:induction false} LeavePays(h: Id, start: State, s: State, i: nat, t: Tally)
    requires Enabled(s, SendLeave(i)) && PaidFor(h, start, s, t)
    ensures PaidFor(h, start, Apply(s, SendLeave(i)), t)
  {
    MoveSender(s.senders, i, Outside);
  }

  lemma {:induction false} VisitPays(h: Id, start: State, s: State, t: Tally)
    requires Inv(s) && Enabled(s, Visit) && PaidFor(h, start, s, t)
    ensures PaidFor(h, start, AfterVisit(s), Tallied(h, s, Visit, t))
  {
    var g := s.queue[0];
    assert HandleOk(s, g);
    assert s.queue[0] in s.queue;
  }

  lemma {:induction false} InitPays(h: Id, start: State, s: State, t: Tally)
    requires Inv(s) && Enabled(s, Init) && PaidFor(h, start, s, t)
    ensures PaidFor(h, start, Apply(s, Init), Tallied(h, s, Init, t))
  {
  }

  lemma {:induction false} StepPays(h: Id, start: State, s: State, a: Step, t: Tally)
    requires Inv(s) && Enabled(s, a) && PaidFor(h, start, s, t)
    ensures PaidFor(h, start, Apply(s, a), Tallied(h, s, a, t))
  {
    if OfSender(a) { SenderPays(h, start, s, a, t); }
    else if a.Visit? { VisitPays(h, start, s, t); }
    else if a.Init? { InitPays(h, start, s, t); }
  }

  lemma {:induction false} RunPays(n: nat, steps: seq<Step>, trace: seq<State>, j: nat, k: nat, h: Id)
    requires Run(n, steps, trace) && j <= k < |trace|
    ensures PaidFor(h, trace[j], trace[k], TallyOf(h, steps, trace, j, k))
  {
    var inv := (p: State) => Inv(p);
    var record := (p: State, a: Step, q: State, t: Tally) => Tallied(h, p, a, t);
    var fits := (s: State, t: Tally) => PaidFor(h, trace[j], s, t);
    forall p: State, a: Step, q: State | inv(p) && Next(p, a, q) ensures inv(q) { StepInv(p, a); }
    forall p: State, a: Step, q: State, t: Tally | inv(p) && Next(p, a, q) && fits(p, t)
      ensures fits(q, record(p, a, q, t))
    {
      StepPays(h, trace[j], p, a, t);
    }
    History(Start(n), Next, inv, record, Tally(0, 0), fits, steps, trace, j, k);
    assert fits(trace[k], TallyOf(h, steps, trace, j, k));
  }

  /** In every run: a handle is called back at most once for each exchange that a sender makes on it. */
  lemma {:induction false} CallsNeedSends(n: nat, steps: seq<Step>, trace: seq<State>, k: nat, h: Id)
    requires Run(n, steps, trace) && k < |trace|
    ensures multiset(trace[k].called)[h] <= TallyOf(h, steps, trace, 0, k).exchanges
  {
    RunPays(n, steps, trace, 0, k, h);
  }

  /** Sends are coalesced: the descriptor is written at most once more for a handle than the handle is called back. */
  lemma {:induction false} WritesAreCoalesced(n: nat, steps: seq<Step>, trace: seq<State>, k: nat, h: Id)
    requires Run(n, steps, trace) && k < |trace|
    ensures TallyOf(h, steps, trace, 0, k).writes <= multiset(trace[k].called)[h] + 1
  {
    RunPays(n, steps, trace, 0, k, h);
  }

  /** Step k calls the handle back. */
  predicate CallsBack(h: Id, steps: seq<Step>, trace: seq<State>, k: nat) {
    k < |steps| && k + 1 < |trace| && trace[k + 1].called == trace[k].called + [h]
  }

  /** Between two callbacks of a handle some sender made an exchange on it. */
  lemma {:induction false} SendBetweenCalls(n: nat, steps: seq<Step>, trace: seq<State>, j: nat, k: nat, h: Id)
    requires Run(n, steps, trace) && j < k && CallsBack(h, steps, trace, j) && CallsBack(h, steps, trace, k)
    ensures exists m | j < m < k :: Exchanges(h, trace[m], steps[m])
  {
    assert Next(trace[j], steps[j], trace[j + 1]) && Next(trace[k], steps[k], trace[k + 1]);
    CalledByVisit(trace[j], steps[j], h);
    CalledByVisit(trace[k], steps[k], h);
    RunPays(n, steps, trace, j + 1, k, h);
    RunInv(n, steps, trace, k);
    CalledWhenDue(trace[k], h);
    CallsGrow(n, steps, trace, j + 1, k, h);
    SomeExchange(h, steps, trace, j + 1, k);
  }

  lemma {:induction false} CalledByVisit(s: State, a: Step, h: Id)
    requires Enabled(s, a) && Apply(s, a).called == s.called + [h]
    ensures a == Visit && s.queue[0] == h && s.handles[h].pending && !CallDue(Apply(s, a), h)
  {
    assert |s.called + [h]| == |s.called| + 1;
    assert (s.called + [h])[|s.called|] == h;
  }

  lemma {:induction false} CalledWhenDue(s: State, h: Id)
    requires Inv(s) && Enabled(s, Visit) && s.queue[0] == h && s.handles[h].pending
    ensures CallDue(s, h)
  {
    assert HandleOk(s, h) && s.queue[0] in s.queue;
  }

  /** Callbacks made stay made. */
  lemma {:induction false} CallsGrow(n: nat, steps: seq<Step>, trace: seq<State>, j: nat, k: nat, h: Id)
    requires Run(n, steps, trace) && j <= k < |trace|
    ensures multiset(trace[j].called)[h] <= multiset(trace[k].called)[h]
  {
    var leq := (p: State, q: State) => multiset(p.called)[h] <= multiset(q.called)[h];
    forall p: State, a: Step, q: State | Next(p, a, q) ensures leq(p, q) { CalledGrows(p, a, h); }
    Monotone(Start(n), Next, leq, steps, trace, j, k);
  }

  lemma {:induction false} CalledGrows(s: State, a: Step, h: Id)
    requires Enabled(s, a)
    ensures multiset(s.called)[h] <= multiset(Apply(s, a).called)[h]
  {
  }

  lemma {:induction false} SomeExchange(h: Id, steps: seq<Step>, trace: seq<State>, j: nat, k: nat)
    requires j <= k < |trace| && |trace| == |steps| + 1 && TallyOf(h, steps, trace, j, k).exchanges > 0
    ensures exists m | j <= m < k :: Exchanges(h, trace[m], steps[m])
  {
    var last := k - 1;
    if Exchanges(h, trace[last], steps[last]) {
    } else {
      SomeExchange(h, steps, trace, j, last);
    }
  }

  // ---------- The wake descriptor ----------

  /** What has been written to the descriptor, less what has been read, after one more step. */
  function Flow(s: State, a: Step, q: State, level: int): int {
    match a
    case SendWrite(_, full) => if full then level else level + 1
    case Read(k, _) => level - k
    case _ => level
  }

  /** Every write puts in one unit, and only reads take any out. */
  lemma {:induction false} DescriptorBalance(n: nat, steps: seq<Step>, trace: seq<State>, k: nat)
    requires Run(n, steps, trace) && k < |trace|
    ensures trace[k].avail == Fold(Flow, 0, steps, trace, 0, k)
  {
    var inv := (s: State) => true;
    var fits := (s: State, level: int) => s.avail == level;
    forall p: State, a: Step, q: State, level: int | inv(p) && Next(p, a, q) && fits(p, level)
      ensures fits(q, Flow(p, a, q, level))
    {
      FlowStep(p, a);
    }
    History(Start(n), Next, inv, Flow, 0, fits, steps, trace, 0, k);
    assert fits(trace[k], Fold(Flow, 0, steps, trace, 0, k));
  }

  lemma {:induction false} FlowStep(s: State, a: Step)
    requires Enabled(s, a)
    ensures Apply(s, a).avail == Flow(s, a, Apply(s, a), s.avail)
  {
  }

  // ---------- The program ----------

  /** The shared fields, the threads' program counters and the loop; each method is one atomic access. */
  class AsyncLoop {
    var handles: seq<Handle>
    var senders: seq<Sender>
    var avail: nat
    var pc: LoopPc
    var list: seq<Id>
    var queue: seq<Id>
    var spin: int
    var called: seq<Id>

    ghost function View(): State
      reads this
    {
      State(handles, senders, avail, pc, list, queue, spin, called)
    }

    constructor (n: nat)
      ensures View() == Start(n)
    {
      handles, senders, avail, pc, list, queue, spin, called := [], seq(n, i => Outside), 0, Waiting, [], [], -1, [];
    }

    /** uv_async_init */
    method InitHandle() returns (h: Id)
      requires Enabled(View(), Init)
      modifies this
      ensures View() == Apply(old(View()), Init) && h == |old(handles)| && list == old(list) + [h]
    {
      h := |handles|;
      handles := handles + [Handle(false, 0, Open, false)];
      list := list + [h];
    }

    /** uv_async_send: the cheap read of `pending`, line 73. */
    method CheapRead(i: nat, h: Id)
      requires Enabled(View(), SendRead(i, h))
      modifies this
      ensures View() == Apply(old(View()), SendRead(i, h))
      ensures old(handles)[h].pending ==> senders == old(senders)
    {
      if handles[h].pending {
        handles := handles[h := handles[h].(owed := true)];
        return;
      }
      senders := senders[i := Checked(h)];
    }

    /** `atomic_fetch_add(busy, 1)`, line 77. */
    method RaiseBusy(i: nat)
      requires Enabled(View(), SendEnter(i))
      modifies this
      ensures View() == Apply(old(View()), SendEnter(i))
    {
      var h := senders[i].h;
      handles := handles[h := handles[h].(busy := handles[h].busy + 1)];
      senders := senders[i := Busy(h)];
    }

    /** `atomic_exchange(pending, 1)`, line 80. */
    method Exchange(i: nat)
      requires Enabled(View(), SendExchange(i))
      modifies this
      ensures View() == Apply(old(View()), SendExchange(i))
    {
      var h := senders[i].h;
      var was := handles[h].pending;
      handles := handles[h := handles[h].(pending := true, owed := true)];
      if !was { senders := senders[i := Writing(h)]; } else { senders := senders[i := Leaving(h)]; }
    }

    /** uv__async_send: the write, which may find the descriptor full. */
    method WriteWake(i: nat, full: bool)
      requires Enabled(View(), SendWrite(i, full))
      modifies this
      ensures View() == Apply(old(View()), SendWrite(i, full))
    {
      if !full { avail := avail + 1; }
      senders := senders[i := Leaving(senders[i].h)];
    }

    /** `atomic_fetch_add(busy, -1)`, line 84. */
    method LowerBusy(i: nat)
      requires Enabled(View(), SendLeave(i))
      modifies this
      ensures View() == Apply(old(View()), SendLeave(i))
    {
      var h := senders[i].h;
      handles := handles[h := handles[h].(busy := handles[h].busy - 1)];
      senders := senders[i := Outside];
    }

    /** The loop sees the descriptor readable and calls uv__async_io. */
    method WakeUp()
      requires Enabled(View(), Wake)
      modifies this
      ensures View() == Apply(old(View()), Wake)
    {
      pc := Draining;
    }

    /** uv__async_io, one turn of the reading loop: `k` bytes, or none left. */
    method ReadSome(k: nat, more: bool)
      requires if k == 0 then Enabled(View(), ReadNothing) else Enabled(View(), Read(k, more))
      modifies this
      ensures View() == Apply(old(View()), if k == 0 then ReadNothing else Read(k, more))
      ensures pc == Visiting ==> queue == old(list) && list == []
    {
      avail := avail - k;
      if k > 0 && more { return; }
      queue, list, pc := list, [], Visiting;
    }

    /** uv__async_io, one turn of the visiting loop: lines 162-176. */
    method VisitOne()
      requires Enabled(View(), Visit)
      modifies this
      ensures View() == Apply(old(View()), Visit)
      ensures var h := old(queue)[0];
        list == old(list) + [h] && called == old(called) + if old(handles)[h].pending then [h] else []
    {
      var h := queue[0];
      queue := queue[1..];
      list := list + [h];
      var was := handles[h].pending;
      handles := handles[h := handles[h].(pending := false, owed := false)];
      if !was { return; }
      called := called + [h];
    }

    /** The local list is empty, and uv__async_io returns. */
    method Finish()
      requires Enabled(View(), EndVisit)
      modifies this
      ensures View() == Apply(old(View()), EndVisit)
    {
      pc := Waiting;
    }

    /** uv__async_close up to its spin: line 102. */
    method BeginClose(h: Id)
      requires Enabled(View(), CloseStart(h))
      modifies this
      ensures View() == Apply(old(View()), CloseStart(h))
    {
      handles := handles[h := handles[h].(pending := true, phase := Closing)];
      spin := h;
    }

    /** One look at `busy`, line 109; when it is 0 the handle leaves the queue. */
    method SpinOnce() returns (done: bool)
      requires 0 <= spin < |handles|
      modifies this
      ensures done <==> Enabled(old(View()), SpinDone)
      ensures View() == if done then Apply(old(View()), SpinDone) else old(View())
    {
      done := handles[spin].busy == 0;
      if done {
        handles := handles[spin := handles[spin].(phase := Closed)];
        list, queue := Without<Id>(list, spin), Without<Id>(queue, spin);
        spin := -1;
      }
    }
  }
}
