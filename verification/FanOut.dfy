/**
 pipeline/fanout.go: one bounded queue and one worker per drain. Send holds the read side of
 the lock, Flush and Close the write side; a step is one channel or atomic operation.
 */
module FanOut {
  import opened GoBytes

  /** fanOutQueue. */
  const QUEUE: nat := 256

  /** One drain's queue and worker. accepted and delivered are the history: what the queue took
      in, and what the drain's Send has returned from, or panicked on. */
  datatype Drain = Drain(
    queue: seq<nat>, current: Option<nat>, stopped: bool, accepted: seq<nat>, delivered: seq<nat>)

  /** Where a Send stands with the drain it is at: not begun, counted in pending, or found full. */
  datatype Stage = Fresh | Counted | Refused

  datatype Sending = Sending(event: nat, at: nat, stage: Stage)

  datatype State = State(
    drains: seq<Drain>, sends: seq<Sending>, writer: bool, closed: bool, pending: int)

  datatype Step =
    | BeginSend(event: nat)
    | Count(k: nat)
    | Offer(k: nat)
    | Uncount(k: nat)
    | EndSend(k: nat)
    | Receive(i: nat)
    | Finish(i: nat)
    | LockWrite
    | UnlockWrite
    | SetClosed
    | Stop(i: nat)

  function Start(n: nat): State {
    State(seq(n, _ => Drain([], None, false, [], [])), [], false, false, 0)
  }

  predicate Enabled(s: State, step: Step) {
    match step
    case BeginSend(_) => !s.writer
    case Count(k) => k < |s.sends| && s.sends[k].at < |s.drains| && s.sends[k].stage == Fresh
    case Offer(k) => k < |s.sends| && s.sends[k].at < |s.drains| && s.sends[k].stage == Counted
    case Uncount(k) => k < |s.sends| && s.sends[k].stage == Refused
    case EndSend(k) => k < |s.sends| && s.sends[k].at >= |s.drains| && s.sends[k].stage == Fresh
    case Receive(i) => i < |s.drains| && !s.drains[i].stopped && s.drains[i].current.None? && s.drains[i].queue != []
    case Finish(i) => i < |s.drains| && s.drains[i].current.Some?
    case LockWrite => !s.writer && s.sends == []
    case UnlockWrite => s.writer
    case SetClosed => s.writer
    case Stop(i) => i < |s.drains| && s.closed && !s.drains[i].stopped && s.drains[i].current.None? && s.drains[i].queue == []
  }

  function Take(s: State, step: Step): State
    requires Enabled(s, step)
  {
    match step
    case BeginSend(e) => if s.closed then s else s.(sends := s.sends + [Sending(e, 0, Fresh)])
    case Count(k) => s.(pending := s.pending + 1, sends := s.sends[k := s.sends[k].(stage := Counted)])
    case Offer(k) =>
      var op := s.sends[k];
      var d := s.drains[op.at];
      if |d.queue| < QUEUE then
        s.(drains := s.drains[op.at := d.(queue := d.queue + [op.event], accepted := d.accepted + [op.event])],
           sends := s.sends[k := op.(at := op.at + 1, stage := Fresh)])
      else s.(sends := s.sends[k := op.(stage := Refused)])
    case Uncount(k) =>
      var op := s.sends[k];
      s.(pending := s.pending - 1, sends := s.sends[k := op.(at := op.at + 1, stage := Fresh)])
    case EndSend(k) => s.(sends := s.sends[..k] + s.sends[k + 1..])
    case Receive(i) =>
      var d := s.drains[i];
      s.(drains := s.drains[i := d.(queue := d.queue[1..], current := Some(d.queue[0]))])
    case Finish(i) =>
      var d := s.drains[i];
      s.(pending := s.pending - 1,
         drains := s.drains[i := d.(current := None, delivered := d.delivered + [d.current.value])])
    case LockWrite => s.(writer := true)
    case UnlockWrite => s.(writer := false)
    case SetClosed => s.(closed := true)
    case Stop(i) => s.(drains := s.drains[i := s.drains[i].(stopped := true)])
  }

  // ---------------------------------------------------------------------------------------
  // What every step keeps
  // ---------------------------------------------------------------------------------------

  function Held(d: Drain): nat {
    |d.queue| + if d.current.Some? then 1 else 0
  }

  function HeldAll(ds: seq<Drain>): nat {
    if ds == [] then 0 else HeldAll(ds[..|ds| - 1]) + Held(ds[|ds| - 1])
  }

  function Midway(op: Sending): nat {
    if op.stage == Fresh then 0 else 1
  }

  function MidwayAll(ops: seq<Sending>): nat {
    if ops == [] then 0 else MidwayAll(ops[..|ops| - 1]) + Midway(ops[|ops| - 1])
  }

  /** A drain gets what its queue accepted, in order, and loses none of it. */
  ghost predicate Fifo(d: Drain) {
    d.accepted == d.delivered + (if d.current.Some? then [d.current.value] else []) + d.queue
  }

  /** A worker that returned left nothing behind. */
  ghost predicate StopsEmpty(closed: bool, d: Drain) {
    d.stopped ==> closed && d.queue == [] && d.current.None?
  }

  ghost predicate GoodDrain(closed: bool, d: Drain) {
    Fifo(d) && StopsEmpty(closed, d) && |d.queue| <= QUEUE
  }

  /** pending counts the queued copies, the copies being delivered, and the sends midway. */
  ghost predicate Inv(s: State) {
    && s.pending == HeldAll(s.drains) + MidwayAll(s.sends)
    && (forall i :: 0 <= i < |s.drains| ==> GoodDrain(s.closed, s.drains[i]))
    && (s.writer || s.closed ==> s.sends == [])
  }

  lemma {:induction false} HeldSet(ds: seq<Drain>, i: nat, d: Drain)
    requires i < |ds|
    ensures HeldAll(ds[i := d]) + Held(ds[i]) == HeldAll(ds) + Held(d)
  {
    var n := |ds| - 1;
    if i < n {
      HeldSet(ds[..n], i, d);
      assert ds[i := d][..n] == ds[..n][i := d];
    } else {
      assert ds[i := d][..n] == ds[..n];
    }
  }

  lemma {:induction false} MidwaySet(ops: seq<Sending>, k: nat, op: Sending)
    requires k < |ops|
    ensures MidwayAll(ops[k := op]) + Midway(ops[k]) == MidwayAll(ops) + Midway(op)
  {
    var n := |ops| - 1;
    if k < n {
      MidwaySet(ops[..n], k, op);
      assert ops[k := op][..n] == ops[..n][k := op];
    } else {
      assert ops[k := op][..n] == ops[..n];
    }
  }

  lemma {:induction false} MidwayOmit(ops: seq<Sending>, k: nat)
    requires k < |ops|
    ensures MidwayAll(ops[..k] + ops[k + 1..]) + Midway(ops[k]) == MidwayAll(ops)
  {
    var n := |ops| - 1;
    var rest := ops[..k] + ops[k + 1..];
    if k < n {
      MidwayOmit(ops[..n], k);
      assert rest[..|rest| - 1] == ops[..n][..k] + ops[..n][k + 1..];
    } else {
      assert rest == ops[..n];
    }
  }

  lemma StartIsGood(n: nat)
    ensures Inv(Start(n))
  {
    HeldNone(n);
  }

  lemma {:induction false} HeldNone(n: nat)
    ensures HeldAll(Start(n).drains) == 0
  {
    if n == 0 {
    } else {
      HeldNone(n - 1);
      assert Start(n).drains[..n - 1] == Start(n - 1).drains;
    }
  }

  lemma OfferKeeps(s: State, k: nat)
    requires Inv(s) && Enabled(s, Offer(k))
    ensures Inv(Take(s, Offer(k)))
  {
    hide HeldAll, MidwayAll;
    var op := s.sends[k];
    var d := s.drains[op.at];
    assert GoodDrain(s.closed, d) && !s.closed;
    var e := d.(queue := d.queue + [op.event], accepted := d.accepted + [op.event]);
    MidwaySet(s.sends, k, op.(at := op.at + 1, stage := Fresh));
    MidwaySet(s.sends, k, op.(stage := Refused));
    HeldSet(s.drains, op.at, e);
    assert e.accepted == e.delivered + (if e.current.Some? then [e.current.value] else []) + e.queue;
  }

  lemma ReceiveKeeps(s: State, i: nat)
    requires Inv(s) && Enabled(s, Receive(i))
    ensures Inv(Take(s, Receive(i)))
  {
    hide HeldAll, MidwayAll;
    var d := s.drains[i];
    assert GoodDrain(s.closed, d);
    var e := d.(queue := d.queue[1..], current := Some(d.queue[0]));
    assert d.queue == [d.queue[0]] + d.queue[1..];
    HeldSet(s.drains, i, e);
    assert Fifo(e);
  }

  lemma FinishKeeps(s: State, i: nat)
    requires Inv(s) && Enabled(s, Finish(i))
    ensures Inv(Take(s, Finish(i)))
  {
    hide HeldAll, MidwayAll;
    var d := s.drains[i];
    assert GoodDrain(s.closed, d);
    var e := d.(current := None, delivered := d.delivered + [d.current.value]);
    HeldSet(s.drains, i, e);
    assert Fifo(e);
  }

  lemma BeginKeeps(s: State, e: nat)
    requires Inv(s) && !s.writer
    ensures Inv(Take(s, BeginSend(e)))
  {
    assert (s.sends + [Sending(e, 0, Fresh)])[..|s.sends|] == s.sends;
  }

  lemma StopKeeps(s: State, i: nat)
    requires Inv(s) && Enabled(s, Stop(i))
    ensures Inv(Take(s, Stop(i)))
  {
    hide HeldAll, MidwayAll;
    assert GoodDrain(s.closed, s.drains[i]);
    HeldSet(s.drains, i, s.drains[i].(stopped := true));
  }

  lemma CloseKeeps(s: State)
    requires Inv(s) && s.writer
    ensures Inv(s.(closed := true))
  {
    hide HeldAll, MidwayAll;
    assert forall i :: 0 <= i < |s.drains| ==> GoodDrain(s.closed, s.drains[i]);
  }

  lemma StepKeeps(s: State, step: Step)
    requires Inv(s) && Enabled(s, step)
    ensures Inv(Take(s, step))
  {
    hide HeldAll, MidwayAll, GoodDrain;
    match step
    case BeginSend(e) => BeginKeeps(s, e);
    case Count(k) => MidwaySet(s.sends, k, s.sends[k].(stage := Counted));
    case Offer(k) => OfferKeeps(s, k);
    case Uncount(k) => MidwaySet(s.sends, k, s.sends[k].(at := s.sends[k].at + 1, stage := Fresh));
    case EndSend(k) => MidwayOmit(s.sends, k);
    case Receive(i) => ReceiveKeeps(s, i);
    case Finish(i) => FinishKeeps(s, i);
    case LockWrite =>
    case UnlockWrite =>
    case SetClosed => CloseKeeps(s);
    case Stop(i) => StopKeeps(s, i);
  }

  ghost predicate IsRun(n: nat, states: seq<State>, steps: seq<Step>) {
    && |states| == |steps| + 1 && states[0] == Start(n)
    && forall i :: 0 <= i < |steps| ==> Enabled(states[i], steps[i]) && states[i + 1] == Take(states[i], steps[i])
  }

  lemma {:induction false} EveryRun(n: nat, states: seq<State>, steps: seq<Step>, k: nat)
    requires IsRun(n, states, steps) && k <= |steps|
    ensures Inv(states[k])
  {
    hide Inv, Take, Enabled;
    if k == 0 {
      StartIsGood(n);
    } else {
      EveryRun(n, states, steps, k - 1);
      StepKeeps(states[k - 1], steps[k - 1]);
    }
  }

  // ---------------------------------------------------------------------------------------
  // Flush and Close
  // ---------------------------------------------------------------------------------------

  lemma {:induction false} HeldZero(ds: seq<Drain>, i: nat)
    requires HeldAll(ds) == 0 && i < |ds|
    ensures Held(ds[i]) == 0
  {
    if i >= |ds| - 1 {
    } else {
      HeldZero(ds[..|ds| - 1], i);
    }
  }

  lemma {:induction false} AllZero(ds: seq<Drain>)
    requires forall i :: 0 <= i < |ds| ==> Held(ds[i]) == 0
    ensures HeldAll(ds) == 0
  {
    if ds == [] {
    } else {
      AllZero(ds[..|ds| - 1]);
    }
  }

  /** waitIdle under the write lock: pending reads zero exactly when every drain has delivered
      everything its queue ever accepted. */
  lemma IdleMeansDelivered(s: State)
    requires Inv(s) && s.writer
    ensures s.pending == 0 <==> forall i :: 0 <= i < |s.drains| ==> s.drains[i].accepted == s.drains[i].delivered
  {
    assert MidwayAll(s.sends) == 0;
    if s.pending == 0 {
      forall i | 0 <= i < |s.drains|
        ensures s.drains[i].accepted == s.drains[i].delivered
      {
        HeldZero(s.drains, i);
        assert GoodDrain(s.closed, s.drains[i]);
        assert s.drains[i].delivered + [] + [] == s.drains[i].delivered;
      }
    }
    if forall i :: 0 <= i < |s.drains| ==> s.drains[i].accepted == s.drains[i].delivered {
      forall i | 0 <= i < |s.drains|
        ensures Held(s.drains[i]) == 0
      {
        assert GoodDrain(s.closed, s.drains[i]);
        assert |s.drains[i].accepted| == |s.drains[i].delivered| + Held(s.drains[i]);
      }
      AllZero(s.drains);
    }
  }

  /** idle is closed once every worker has returned. */
  ghost predicate Idle(s: State) {
    forall i :: 0 <= i < |s.drains| ==> s.drains[i].stopped
  }

  /** When Close sees idle, everything accepted was delivered and nothing is pending. */
  lemma IdleIsEmpty(s: State)
    requires Inv(s) && Idle(s) && |s.drains| > 0
    ensures s.closed && s.pending == 0
    ensures forall i :: 0 <= i < |s.drains| ==>
      s.drains[i].queue == [] && s.drains[i].accepted == s.drains[i].delivered
  {
    forall i | 0 <= i < |s.drains|
      ensures s.drains[i].queue == [] && s.drains[i].accepted == s.drains[i].delivered && Held(s.drains[i]) == 0
    {
      assert GoodDrain(s.closed, s.drains[i]) && s.drains[i].stopped;
      assert s.drains[i].delivered + [] + [] == s.drains[i].delivered;
    }
    assert GoodDrain(s.closed, s.drains[0]) && s.drains[0].stopped;
    AllZero(s.drains);
  }

  /** And no later step changes a drain: no queue can refill after Close. */
  lemma IdleIsFinal(s: State, step: Step)
    requires Inv(s) && Idle(s) && |s.drains| > 0 && Enabled(s, step)
    ensures Idle(Take(s, step)) && Take(s, step).pending == s.pending && |Take(s, step).drains| == |s.drains|
    ensures forall i :: 0 <= i < |s.drains| ==>
      && Take(s, step).drains[i].accepted == s.drains[i].accepted
      && Take(s, step).drains[i].delivered == s.drains[i].delivered
      && Take(s, step).drains[i].queue == []
  {
    IdleIsEmpty(s);
    assert forall i :: 0 <= i < |s.drains| ==> GoodDrain(s.closed, s.drains[i]);
  }
}
