/**
 pipeline/fanout.go: what becomes of every event sent, drain by drain, and that no schedule of the
 senders and the workers gets stuck.
 */
module FanOutPromises {
  import opened GoBytes
  import opened FanOut

  // ---------------------------------------------------------------------------------------
  // Every event reaches every drain, or finds its queue full
  // ---------------------------------------------------------------------------------------

  /** How often e was sent, up to step k, before Close. */
  function Sent(states: seq<State>, steps: seq<Step>, k: nat, e: nat): nat
    requires k <= |steps| && k <= |states|
  {
    if k == 0 then 0
    else Sent(states, steps, k - 1, e) + if steps[k - 1] == BeginSend(e) && !states[k - 1].closed then 1 else 0
  }

  /** The step offers e to drain i, whose queue holds its 256 events. */
  predicate FindsFull(s: State, step: Step, i: nat, e: nat) {
    && step.Offer? && step.k < |s.sends| && s.sends[step.k].at == i && s.sends[step.k].event == e
    && i < |s.drains| && |s.drains[i].queue| == 256
  }

  function TurnedAway(states: seq<State>, steps: seq<Step>, k: nat, i: nat, e: nat): nat
    requires k <= |steps| && k <= |states|
  {
    if k == 0 then 0
    else TurnedAway(states, steps, k - 1, i, e) + if FindsFull(states[k - 1], steps[k - 1], i, e) then 1 else 0
  }

  /** The send of e has yet to offer it to drain i. */
  predicate Ahead(op: Sending, i: nat, e: nat) {
    op.event == e && (op.at < i || (op.at == i && op.stage != Refused))
  }

  function AheadIn(ops: seq<Sending>, i: nat, e: nat): nat {
    if ops == [] then 0 else AheadIn(ops[..|ops| - 1], i, e) + if Ahead(ops[|ops| - 1], i, e) then 1 else 0
  }

  lemma {:induction false} AheadSet(ops: seq<Sending>, k: nat, op: Sending, i: nat, e: nat)
    requires k < |ops|
    ensures AheadIn(ops[k := op], i, e) + (if Ahead(ops[k], i, e) then 1 else 0)
         == AheadIn(ops, i, e) + if Ahead(op, i, e) then 1 else 0
  {
    var n := |ops| - 1;
    if k < n {
      AheadSet(ops[..n], k, op, i, e);
      assert ops[k := op][..n] == ops[..n][k := op];
    } else {
      assert ops[k := op][..n] == ops[..n];
    }
  }

  lemma {:induction false} AheadOmit(ops: seq<Sending>, k: nat, i: nat, e: nat)
    requires k < |ops|
    ensures AheadIn(ops[..k] + ops[k + 1..], i, e) + (if Ahead(ops[k], i, e) then 1 else 0) == AheadIn(ops, i, e)
  {
    var n := |ops| - 1;
    var rest := ops[..k] + ops[k + 1..];
    if k < n {
      AheadOmit(ops[..n], k, i, e);
      assert rest[..|rest| - 1] == ops[..n][..k] + ops[..n][k + 1..];
    } else {
      assert rest == ops[..n];
    }
  }

  lemma AheadSnoc(ops: seq<Sending>, op: Sending, i: nat, e: nat)
    ensures AheadIn(ops + [op], i, e) == AheadIn(ops, i, e) + if Ahead(op, i, e) then 1 else 0
  {
    assert (ops + [op])[..|ops|] == ops;
  }

  /** An offer settles one copy: the drain takes it in, or its queue is full. */
  lemma OfferSettles(s: State, k: nat, i: nat, e: nat)
    requires Inv(s) && Enabled(s, Offer(k)) && i < |s.drains|
    ensures var t := Take(s, Offer(k));
      && |t.drains| == |s.drains|
      && multiset(t.drains[i].accepted)[e] + (if FindsFull(s, Offer(k), i, e) then 1 else 0) + AheadIn(t.sends, i, e)
      == multiset(s.drains[i].accepted)[e] + AheadIn(s.sends, i, e)
  {
    hide AheadIn, HeldAll, MidwayAll, Fifo, StopsEmpty;
    var op := s.sends[k];
    assert GoodDrain(s.closed, s.drains[op.at]);
    AheadSet(s.sends, k, op.(at := op.at + 1, stage := Fresh), i, e);
    AheadSet(s.sends, k, op.(stage := Refused), i, e);
  }

  /** No other step settles one, and only a new send brings one. */
  lemma StepOffers(s: State, step: Step, i: nat, e: nat)
    requires Inv(s) && Enabled(s, step) && i < |s.drains|
    ensures var t := Take(s, step);
      && |t.drains| == |s.drains|
      && multiset(t.drains[i].accepted)[e] + (if FindsFull(s, step, i, e) then 1 else 0) + AheadIn(t.sends, i, e)
      == multiset(s.drains[i].accepted)[e] + AheadIn(s.sends, i, e)
      + if step == BeginSend(e) && !s.closed then 1 else 0
  {
    hide AheadIn, Inv;
    match step
    case BeginSend(x) => AheadSnoc(s.sends, Sending(x, 0, Fresh), i, e);
    case Count(k) => AheadSet(s.sends, k, s.sends[k].(stage := Counted), i, e);
    case Offer(k) => OfferSettles(s, k, i, e);
    case Uncount(k) => AheadSet(s.sends, k, s.sends[k].(at := s.sends[k].at + 1, stage := Fresh), i, e);
    case EndSend(k) => AheadOmit(s.sends, k, i, e);
    case Receive(_) =>
    case Finish(_) =>
    case LockWrite =>
    case UnlockWrite =>
    case SetClosed =>
    case Stop(_) =>
  }

  /** Over every run: each time an event was sent, drain i took it in, or its queue held 256 events
      when the event came, or the send has yet to come to that drain. */
  lemma {:induction false} EveryEventIsOffered(n: nat, states: seq<State>, steps: seq<Step>, k: nat, i: nat, e: nat)
    requires IsRun(n, states, steps) && k <= |steps| && i < n
    ensures |states[k].drains| == n
    ensures Sent(states, steps, k, e) ==
      multiset(states[k].drains[i].accepted)[e] + TurnedAway(states, steps, k, i, e) + AheadIn(states[k].sends, i, e)
  {
    hide Inv, Take, Enabled, FindsFull;
    if k == 0 {
      assert states[0].drains[i].accepted == [] && states[0].sends == [];
    } else {
      EveryEventIsOffered(n, states, steps, k - 1, i, e);
      EveryRun(n, states, steps, k - 1);
      StepOffers(states[k - 1], steps[k - 1], i, e);
    }
  }

  /** So a Flush that saw pending at zero leaves every event sent so far delivered to every drain,
      but for the copies that found a full queue. */
  lemma FlushDelivers(n: nat, states: seq<State>, steps: seq<Step>, k: nat, i: nat, e: nat)
    requires IsRun(n, states, steps) && k <= |steps| && i < n
    requires states[k].writer && states[k].pending == 0
    ensures |states[k].drains| == n
    ensures Sent(states, steps, k, e) ==
      multiset(states[k].drains[i].delivered)[e] + TurnedAway(states, steps, k, i, e)
  {
    hide Take, Enabled, FindsFull, Inv, Sent, TurnedAway;
    EveryRun(n, states, steps, k);
    EveryEventIsOffered(n, states, steps, k, i, e);
    IdleMeansDelivered(states[k]);
    SendsEnd(states[k]);
  }

  // ---------------------------------------------------------------------------------------
  // What the flags stand for
  // ---------------------------------------------------------------------------------------

  /** Close leaves no send under way, and a worker that returned stays so. */
  lemma {:induction false} FlagsMean(n: nat, states: seq<State>, steps: seq<Step>, k: nat, i: nat)
    requires IsRun(n, states, steps) && k <= |steps| && i < n
    ensures |states[k].drains| == n
    ensures states[k].closed <==> SetClosed in steps[..k]
    ensures states[k].drains[i].stopped <==> Stop(i) in steps[..k]
    ensures states[k].closed ==> states[k].sends == []
  {
    hide Inv, Take, Enabled;
    EveryRun(n, states, steps, k);
    SendsEnd(states[k]);
    if k == 0 {
    } else {
      FlagsMean(n, states, steps, k - 1, i);
      StepFlags(states[k - 1], steps[k - 1], i);
      assert steps[..k] == steps[..k - 1] + [steps[k - 1]];
    }
  }

  /** The write lock was taken at step j and not let go before step k. */
  ghost predicate HeldSince(steps: seq<Step>, j: nat, k: nat)
    requires k <= |steps|
  {
    j < k && steps[j] == LockWrite && forall m :: j < m < k ==> steps[m] != UnlockWrite
  }

  /** A send can begin whenever no one holds the lock, and the lock can be taken whenever, besides,
      no send is under way: so two holders never overlap. */
  lemma LockExcludes(n: nat, states: seq<State>, steps: seq<Step>, k: nat, e: nat)
    requires IsRun(n, states, steps) && k <= |steps|
    ensures var held := exists j: nat :: HeldSince(steps, j, k);
      && (Enabled(states[k], BeginSend(e)) <==> !held)
      && (Enabled(states[k], LockWrite) <==> !held && states[k].sends == [])
      && (k < |steps| && (steps[k] == LockWrite || steps[k].BeginSend?) ==> !held)
  {
    hide Take, Inv, HeldSince;
    WriterMeans(n, states, steps, k);
  }

  lemma {:induction false} WriterMeans(n: nat, states: seq<State>, steps: seq<Step>, k: nat)
    requires IsRun(n, states, steps) && k <= |steps|
    ensures states[k].writer <==> exists j: nat :: HeldSince(steps, j, k)
  {
    hide Inv, Take, Enabled, HeldSince;
    if k == 0 {
      NeverHeld(steps);
    } else {
      WriterMeans(n, states, steps, k - 1);
      StepWrites(states[k - 1], steps[k - 1]);
      HeldOn(steps, k - 1, k);
    }
  }

  lemma NeverHeld(steps: seq<Step>)
    ensures !exists j: nat :: HeldSince(steps, j, 0)
  {
  }

  lemma HeldOn(steps: seq<Step>, was: nat, k: nat)
    requires k == was + 1 <= |steps|
    ensures (exists j: nat :: HeldSince(steps, j, k)) <==>
      steps[was] == LockWrite || (steps[was] != UnlockWrite && exists j: nat :: HeldSince(steps, j, was))
  {
    if steps[was] == LockWrite {
      assert HeldSince(steps, was, k);
    }
    if j: nat :| HeldSince(steps, j, was) && steps[was] != UnlockWrite {
      assert HeldSince(steps, j, k);
    }
    if j: nat :| HeldSince(steps, j, k) && j < was {
      assert HeldSince(steps, j, was);
    }
  }

  lemma StepWrites(s: State, step: Step)
    requires Enabled(s, step)
    ensures Take(s, step).writer == if step == LockWrite then true else if step == UnlockWrite then false else s.writer
  {
  }

  lemma SendsEnd(s: State)
    requires Inv(s)
    ensures s.writer || s.closed ==> s.sends == []
  {
  }

  lemma StepFlags(s: State, step: Step, i: nat)
    requires Enabled(s, step) && i < |s.drains|
    ensures var t := Take(s, step);
      && |t.drains| == |s.drains|
      && t.closed == (s.closed || step == SetClosed)
      && t.drains[i].stopped == (s.drains[i].stopped || step == Stop(i))
  {
  }

  // ---------------------------------------------------------------------------------------
  // No schedule gets stuck, and none goes on for ever
  // ---------------------------------------------------------------------------------------

  /** A step of a send under way or of a worker. */
  ghost predicate Moves(step: Step) {
    step.Count? || step.Offer? || step.Uncount? || step.EndSend? || step.Receive? || step.Finish? || step.Stop?
  }

  /** No send stands past the drains, and one that has begun an offer stands at a drain. */
  ghost predicate Placed(s: State) {
    forall k :: 0 <= k < |s.sends| ==>
      s.sends[k].at <= |s.drains| && (s.sends[k].stage == Fresh || s.sends[k].at < |s.drains|)
  }

  lemma PlacedKeeps(s: State, step: Step)
    requires Placed(s) && Enabled(s, step)
    ensures Placed(Take(s, step))
  {
    if step.EndSend? {
      var rest := s.sends[..step.k] + s.sends[step.k + 1..];
      assert forall x :: 0 <= x < |rest| ==> rest[x] == s.sends[if x < step.k then x else x + 1];
    }
  }

  lemma {:induction false} EveryRunPlaced(n: nat, states: seq<State>, steps: seq<Step>, k: nat)
    requires IsRun(n, states, steps) && k <= |steps|
    ensures Placed(states[k])
  {
    hide Take, Enabled;
    if k == 0 {
    } else {
      EveryRunPlaced(n, states, steps, k - 1);
      PlacedKeeps(states[k - 1], steps[k - 1]);
    }
  }

  lemma SendMoves(s: State)
    requires Placed(s) && s.sends != []
    ensures exists step :: Moves(step) && Enabled(s, step)
  {
    var op := s.sends[0];
    var step := match op.stage
      case Fresh => if op.at < |s.drains| then Count(0) else EndSend(0)
      case Counted => Offer(0)
      case Refused => Uncount(0);
    assert Moves(step) && Enabled(s, step);
  }

  lemma WorkerMoves(s: State, i: nat)
    requires Inv(s) && i < |s.drains|
    requires s.drains[i].queue != [] || s.drains[i].current.Some? || (s.closed && !s.drains[i].stopped)
    ensures exists step :: Moves(step) && Enabled(s, step)
  {
    assert GoodDrain(s.closed, s.drains[i]);
    var d := s.drains[i];
    var step := if d.current.Some? then Finish(i) else if d.queue != [] then Receive(i) else Stop(i);
    assert Moves(step) && Enabled(s, step);
  }

  /** Whenever nothing can move but a new send or a holder of the write lock, nothing is left to do. */
  lemma StuckIsSettled(n: nat, states: seq<State>, steps: seq<Step>, k: nat)
    requires IsRun(n, states, steps) && k <= |steps|
    requires forall step :: Enabled(states[k], step) ==>
      step.BeginSend? || step == LockWrite || step == UnlockWrite || step == SetClosed
    ensures states[k].sends == []
    ensures forall i :: 0 <= i < |states[k].drains| ==>
      && states[k].drains[i].queue == [] && states[k].drains[i].current.None?
      && states[k].drains[i].delivered == states[k].drains[i].accepted
      && (states[k].closed ==> states[k].drains[i].stopped)
  {
    hide Take, Enabled, HeldAll, MidwayAll;
    EveryRun(n, states, steps, k);
    EveryRunPlaced(n, states, steps, k);
    var s := states[k];
    if s.sends != [] {
      SendMoves(s);
    }
    forall i | 0 <= i < |s.drains|
      ensures s.drains[i].queue == [] && s.drains[i].current.None? && s.drains[i].delivered == s.drains[i].accepted
      ensures s.closed ==> s.drains[i].stopped
    {
      assert GoodDrain(s.closed, s.drains[i]);
      if s.drains[i].queue != [] || s.drains[i].current.Some? || (s.closed && !s.drains[i].stopped) {
        WorkerMoves(s, i);
      }
      assert s.drains[i].delivered + [] + [] == s.drains[i].delivered;
    }
  }

  /** The steps a send can still take. */
  function SendWork(n: nat, op: Sending): nat {
    if op.at >= n then 1
    else match op.stage
      case Fresh => 4 * (n - op.at) + 1
      case Counted => 4 * (n - op.at)
      case Refused => 4 * (n - op.at) - 1
  }

  function SendsWork(n: nat, ops: seq<Sending>): nat {
    if ops == [] then 0 else SendsWork(n, ops[..|ops| - 1]) + SendWork(n, ops[|ops| - 1])
  }

  function DrainWork(d: Drain): nat {
    2 * |d.queue| + (if d.current.Some? then 1 else 0) + if d.stopped then 0 else 1
  }

  function DrainsWork(ds: seq<Drain>): nat {
    if ds == [] then 0 else DrainsWork(ds[..|ds| - 1]) + DrainWork(ds[|ds| - 1])
  }

  function Work(s: State): nat {
    SendsWork(|s.drains|, s.sends) + DrainsWork(s.drains)
  }

  lemma {:induction false} SendsWorkSet(n: nat, ops: seq<Sending>, k: nat, op: Sending)
    requires k < |ops|
    ensures SendsWork(n, ops[k := op]) + SendWork(n, ops[k]) == SendsWork(n, ops) + SendWork(n, op)
  {
    var m := |ops| - 1;
    if k < m {
      SendsWorkSet(n, ops[..m], k, op);
      assert ops[k := op][..m] == ops[..m][k := op];
    } else {
      assert ops[k := op][..m] == ops[..m];
    }
  }

  lemma {:induction false} SendsWorkOmit(n: nat, ops: seq<Sending>, k: nat)
    requires k < |ops|
    ensures SendsWork(n, ops[..k] + ops[k + 1..]) + SendWork(n, ops[k]) == SendsWork(n, ops)
  {
    var m := |ops| - 1;
    var rest := ops[..k] + ops[k + 1..];
    if k < m {
      SendsWorkOmit(n, ops[..m], k);
      assert rest[..|rest| - 1] == ops[..m][..k] + ops[..m][k + 1..];
    } else {
      assert rest == ops[..m];
    }
  }

  lemma {:induction false} DrainsWorkSet(ds: seq<Drain>, i: nat, d: Drain)
    requires i < |ds|
    ensures DrainsWork(ds[i := d]) + DrainWork(ds[i]) == DrainsWork(ds) + DrainWork(d)
  {
    var m := |ds| - 1;
    if i < m {
      DrainsWorkSet(ds[..m], i, d);
      assert ds[i := d][..m] == ds[..m][i := d];
    } else {
      assert ds[i := d][..m] == ds[..m];
    }
  }

  lemma OfferFalls(s: State, k: nat)
    requires Enabled(s, Offer(k))
    ensures Work(Take(s, Offer(k))) < Work(s)
  {
    hide SendsWork, DrainsWork;
    var n, op := |s.drains|, s.sends[k];
    var d := s.drains[op.at];
    SendsWorkSet(n, s.sends, k, op.(at := op.at + 1, stage := Fresh));
    SendsWorkSet(n, s.sends, k, op.(stage := Refused));
    DrainsWorkSet(s.drains, op.at, d.(queue := d.queue + [op.event], accepted := d.accepted + [op.event]));
  }

  lemma WorkerFalls(s: State, step: Step, i: nat)
    requires Enabled(s, step) && (step == Receive(i) || step == Finish(i) || step == Stop(i))
    ensures Work(Take(s, step)) < Work(s)
  {
    hide SendsWork, DrainsWork;
    DrainsWorkSet(s.drains, i, Take(s, step).drains[i]);
  }

  lemma SendFalls(s: State, step: Step, k: nat)
    requires Placed(s) && Enabled(s, step) && (step == Count(k) || step == Uncount(k) || step == EndSend(k))
    ensures Work(Take(s, step)) < Work(s)
  {
    hide SendsWork, DrainsWork;
    if step == EndSend(k) {
      SendsWorkOmit(|s.drains|, s.sends, k);
    } else {
      SendsWorkSet(|s.drains|, s.sends, k, Take(s, step).sends[k]);
    }
  }

  lemma WorkFalls(s: State, step: Step)
    requires Placed(s) && Enabled(s, step) && Moves(step)
    ensures Work(Take(s, step)) < Work(s)
  {
    hide Placed, Enabled, Take, Work;
    match step
    case Count(k) => SendFalls(s, step, k);
    case Offer(k) => OfferFalls(s, k);
    case Uncount(k) => SendFalls(s, step, k);
    case EndSend(k) => SendFalls(s, step, k);
    case Receive(i) => WorkerFalls(s, step, i);
    case Finish(i) => WorkerFalls(s, step, i);
    case Stop(i) => WorkerFalls(s, step, i);
    case _ =>
  }

  /** With no new send, every schedule ends: after no more steps than there is work. */
  lemma {:induction false} EveryScheduleEnds(n: nat, states: seq<State>, steps: seq<Step>, j: nat, k: nat)
    requires IsRun(n, states, steps) && j <= k <= |steps|
    requires forall i :: j <= i < k ==>
      !steps[i].BeginSend? && steps[i] != LockWrite && steps[i] != UnlockWrite && steps[i] != SetClosed
    ensures k - j + Work(states[k]) <= Work(states[j])
  {
    hide Take, Enabled, Work, Placed;
    if j >= k {
    } else {
      EveryRunPlaced(n, states, steps, k - 1);
      EveryScheduleEnds(n, states, steps, j, k - 1);
      WorkFalls(states[k - 1], steps[k - 1]);
    }
  }
}
