/**
 pipeline/pipeline.go: senders, the worker, Flush and Close over one buffer, as atomic steps.
 A step is one region under w.mu, one acquisition of sendMu, or one answer of the Sender. An
 event is named by the order in which it entered the buffer.
 */
module PipelineRuns {
  import Retry

  datatype Config = Config(batchSize: nat, maxBuffer: nat, interval: int)

  /** A batch taken out of the buffer. worker tells takeBatchIfReady from Flush and flushAll;
      sending means its owner holds sendMu. A settled batch stays here, empty. */
  datatype Flight = Flight(batch: seq<nat>, worker: bool, sending: bool)

  datatype Phase = Running | Closing | Drained

  datatype State = State(
    now: int,
    buf: seq<nat>,
    oldest: int,
    arrivals: seq<int>,      // when each event entered the buffer
    left: seq<nat>,          // the events that have left it, in the order they left
    passed: nat,             // senders past the closed check, before w.mu
    flushes: nat,            // Flush calls past the closed check, before w.mu
    evicted: seq<nat>,       // pushed out by a full buffer, not yet counted
    flights: seq<Flight>,
    lock: int,               // the flight that holds sendMu, or -1
    sentLog: seq<nat>,
    dropLog: seq<nat>,
    rejected: nat,           // sends that found the pipeline closed
    sentCount: nat,
    dropCount: nat,
    phase: Phase,
    passedAtDrain: nat)

  datatype Step =
    | Wait(dt: nat)
    | PassCheck
    | Reject
    | Append
    | CountEvicted
    | WorkerTake
    | FlushCheck
    | FlushTake
    | FlushReturn
    | Lock(t: nat)
    | Answer(t: nat, answer: Retry.Answer)
    | Abandon(t: nat)
    | Unlock(t: nat)
    | CloseStart
    | Drain

  const START := State(0, [], 0, [], [], 0, 0, [], [], -1, [], [], 0, 0, 0, Running, 0)

  function Ids(n: nat): (r: seq<nat>)
    ensures |r| == n && forall i :: 0 <= i < n ==> r[i] == i
  {
    seq(n, i => i)
  }

  // ---------------------------------------------------------------------------------------
  // The steps
  // ---------------------------------------------------------------------------------------

  /** The region of Send under w.mu. */
  function AppendStep(c: Config, s: State): State
    requires s.passed > 0
  {
    var oldest := if s.buf == [] then s.now else s.oldest;
    var full := |s.buf| >= c.maxBuffer && s.buf != [];
    var kept := if full then s.buf[1..] else s.buf;
    s.(oldest := oldest,
       buf := kept + [|s.arrivals|],
       arrivals := s.arrivals + [s.now],
       left := if full then s.left + [s.buf[0]] else s.left,
       evicted := if full then s.evicted + [s.buf[0]] else s.evicted,
       passed := s.passed - 1)
  }

  predicate Ready(c: Config, s: State) {
    s.buf != [] && (|s.buf| >= c.batchSize || s.now - s.oldest >= c.interval)
  }

  /** The first n events leave the buffer as one batch. */
  function TakeStep(s: State, n: nat, worker: bool): State
    requires n <= |s.buf|
  {
    s.(buf := s.buf[n..],
       left := s.left + s.buf[..n],
       flights := s.flights + [Flight(s.buf[..n], worker, false)])
  }

  predicate Sending(s: State, t: nat) {
    t < |s.flights| && s.flights[t].sending
  }

  predicate WorkerIdle(s: State) {
    forall i :: 0 <= i < |s.flights| && s.flights[i].worker ==> s.flights[i].batch == [] && !s.flights[i].sending
  }

  predicate Enabled(c: Config, s: State, step: Step) {
    match step
    case Wait(_) => true
    case PassCheck => s.phase == Running
    case Reject => s.phase != Running
    case Append => s.passed > 0
    case CountEvicted => s.evicted != []
    case WorkerTake => s.phase != Drained && WorkerIdle(s) && Ready(c, s)
    case FlushCheck => s.phase == Running
    case FlushTake => s.flushes > 0
    case FlushReturn => s.phase != Running
    case Lock(t) =>
      s.lock == -1 && t < |s.flights| && !s.flights[t].sending && (s.flights[t].batch != [] || !s.flights[t].worker)
    case Answer(t, _) => Sending(s, t)
    case Abandon(t) => Sending(s, t)
    case Unlock(t) => Sending(s, t) && s.flights[t].batch == []
    case CloseStart => s.phase == Running
    case Drain => s.phase == Closing && WorkerIdle(s)
  }

  function Take(c: Config, s: State, step: Step): State
    requires Enabled(c, s, step)
  {
    match step
    case Wait(dt) => s.(now := s.now + dt)
    case PassCheck => s.(passed := s.passed + 1)
    case Reject => s.(rejected := s.rejected + 1, dropCount := s.dropCount + 1)
    case Append => AppendStep(c, s)
    case CountEvicted =>
      s.(evicted := s.evicted[1..], dropLog := s.dropLog + [s.evicted[0]], dropCount := s.dropCount + 1)
    case WorkerTake => TakeStep(s, if |s.buf| > c.batchSize then c.batchSize else |s.buf|, true)
    case FlushCheck => s.(flushes := s.flushes + 1)
    case FlushTake => TakeStep(s, |s.buf|, false).(flushes := s.flushes - 1)
    case FlushReturn => s
    case Lock(t) => s.(lock := t, flights := s.flights[t := s.flights[t].(sending := true)])
    case Answer(t, a) =>
      var call := Retry.CallOf(s.flights[t].batch, a);
      Settle(s, t, call.sent, call.dropped, Retry.LeftOf(s.flights[t].batch, a))
    case Abandon(t) => Settle(s, t, [], s.flights[t].batch, [])
    case Unlock(t) => s.(lock := -1, flights := s.flights[t := s.flights[t].(sending := false)])
    case CloseStart => s.(phase := Closing)
    case Drain => TakeStep(s, |s.buf|, false).(phase := Drained, passedAtDrain := s.passed)
  }

  function Settle(s: State, t: nat, sent: seq<nat>, dropped: seq<nat>, rest: seq<nat>): State
    requires t < |s.flights|
  {
    s.(sentLog := s.sentLog + sent, sentCount := s.sentCount + |sent|,
       dropLog := s.dropLog + dropped, dropCount := s.dropCount + |dropped|,
       flights := s.flights[t := s.flights[t].(batch := rest)])
  }

  // ---------------------------------------------------------------------------------------
  // What every step keeps
  // ---------------------------------------------------------------------------------------

  /** How often an event occurs. */
  function Times(q: seq<nat>, e: nat): nat {
    multiset(q)[e]
  }

  function TimesFlying(flights: seq<Flight>, e: nat): nat {
    if flights == [] then 0
    else TimesFlying(flights[..|flights| - 1], e) + Times(flights[|flights| - 1].batch, e)
  }

  /** Each of the n events that ever entered the buffer is in exactly one place. */
  ghost predicate EachOnce(buf: seq<nat>, evicted: seq<nat>, flights: seq<Flight>, sent: seq<nat>, dropped: seq<nat>, n: nat) {
    forall e: nat :: Places(buf, evicted, flights, sent, dropped, e) == if e < n then 1 else 0
  }

  function Places(buf: seq<nat>, evicted: seq<nat>, flights: seq<Flight>, sent: seq<nat>, dropped: seq<nat>, e: nat): nat {
    Times(buf, e) + Times(evicted, e) + TimesFlying(flights, e) + Times(sent, e) + Times(dropped, e)
  }

  /** Events leave the buffer in the order they entered it. */
  ghost predicate InOrder(left: seq<nat>, buf: seq<nat>, n: nat) {
    left + buf == Ids(n)
  }

  ghost predicate Counted(s: State) {
    s.sentCount == |s.sentLog| && s.dropCount == |s.dropLog| + s.rejected
  }

  ghost predicate Bounded(c: Config, s: State) {
    && |s.buf| <= c.maxBuffer
    && forall i :: 0 <= i < |s.flights| && s.flights[i].worker ==> |s.flights[i].batch| <= c.batchSize
  }

  /** The batch timer never runs late: it counts from no later than the arrival of the oldest
      buffered event. */
  ghost predicate Timely(now: int, arrivals: seq<int>, buf: seq<nat>, oldest: int) {
    && (forall i :: 0 <= i < |arrivals| ==> arrivals[i] <= now)
    && (forall i, j :: 0 <= i < j < |arrivals| ==> arrivals[i] <= arrivals[j])
    && (buf != [] ==> buf[0] < |arrivals| && oldest <= arrivals[buf[0]])
  }

  /** sendMu is held by the one flight that is sending. */
  ghost predicate OneSender(s: State) {
    && -1 <= s.lock < |s.flights|
    && forall i :: 0 <= i < |s.flights| ==> (s.flights[i].sending <==> i == s.lock)
  }

  /** After the final drain, only senders that had already passed the closed check append. */
  ghost predicate LateOnly(s: State) {
    s.phase == Drained ==> |s.buf| + s.passed <= s.passedAtDrain
  }

  ghost predicate Inv(c: Config, s: State) {
    && EachOnce(s.buf, s.evicted, s.flights, s.sentLog, s.dropLog, |s.arrivals|)
    && InOrder(s.left, s.buf, |s.arrivals|)
    && Timely(s.now, s.arrivals, s.buf, s.oldest)
    && Counted(s) && Bounded(c, s) && OneSender(s) && LateOnly(s)
  }

  ghost predicate Sane(c: Config) {
    c.batchSize >= 1 && c.maxBuffer >= 1
  }

  lemma TimesConcat(a: seq<nat>, b: seq<nat>, e: nat)
    ensures Times(a + b, e) == Times(a, e) + Times(b, e)
  {
  }

  lemma TimesOne(x: nat, e: nat)
    ensures Times([x], e) == if x == e then 1 else 0
    ensures Times([], e) == 0
  {
  }

  lemma {:induction false} FlyingSet(flights: seq<Flight>, t: nat, f: Flight, e: nat)
    requires t < |flights|
    ensures TimesFlying(flights[t := f], e) + Times(flights[t].batch, e) == TimesFlying(flights, e) + Times(f.batch, e)
  {
    hide Times;
    var n := |flights| - 1;
    if t < n {
      FlyingSet(flights[..n], t, f, e);
      assert flights[t := f][..n] == flights[..n][t := f];
    } else {
      assert flights[t := f][..n] == flights[..n];
    }
  }

  lemma FlyingSnoc(flights: seq<Flight>, f: Flight, e: nat)
    ensures TimesFlying(flights + [f], e) == TimesFlying(flights, e) + Times(f.batch, e)
  {
    assert (flights + [f])[..|flights|] == flights;
  }

  lemma IdsSnoc(n: nat)
    ensures Ids(n + 1) == Ids(n) + [n]
  {
  }

  lemma AppendEach(c: Config, s: State)
    requires EachOnce(s.buf, s.evicted, s.flights, s.sentLog, s.dropLog, |s.arrivals|) && s.passed > 0
    ensures var r := AppendStep(c, s);
      EachOnce(r.buf, r.evicted, r.flights, r.sentLog, r.dropLog, |r.arrivals|)
  {
    hide Times, TimesFlying;
    var n := |s.arrivals|;
    var r := AppendStep(c, s);
    forall e: nat
      ensures Places(r.buf, r.evicted, r.flights, r.sentLog, r.dropLog, e) == if e < n + 1 then 1 else 0
    {
      assert Places(s.buf, s.evicted, s.flights, s.sentLog, s.dropLog, e) == if e < n then 1 else 0;
      TimesOne(n, e);
      TimesConcat(s.buf, [n], e);
      if s.buf != [] {
        assert s.buf == [s.buf[0]] + s.buf[1..];
        TimesConcat([s.buf[0]], s.buf[1..], e);
        TimesConcat(s.evicted, [s.buf[0]], e);
        TimesConcat(s.buf[1..], [n], e);
      }
    }
  }

  lemma AppendOrder(c: Config, s: State)
    requires InOrder(s.left, s.buf, |s.arrivals|) && s.passed > 0
    ensures var r := AppendStep(c, s); InOrder(r.left, r.buf, |r.arrivals|)
  {
    var r := AppendStep(c, s);
    IdsSnoc(|s.arrivals|);
    if s.buf != [] {
      assert s.buf == [s.buf[0]] + s.buf[1..];
    }
    assert r.left + r.buf == (s.left + s.buf) + [|s.arrivals|];
  }

  /** The buffer holds consecutive arrivals, ending with the newest. */
  lemma BufIsTail(left: seq<nat>, buf: seq<nat>, n: nat, i: nat)
    requires InOrder(left, buf, n) && i < |buf|
    ensures buf[i] == |left| + i && |left| + |buf| == n
  {
    assert (left + buf)[|left| + i] == buf[i];
  }

  lemma AppendTimely(c: Config, s: State)
    requires InOrder(s.left, s.buf, |s.arrivals|) && Timely(s.now, s.arrivals, s.buf, s.oldest) && s.passed > 0
    ensures var r := AppendStep(c, s); Timely(r.now, r.arrivals, r.buf, r.oldest)
  {
    hide InOrder;
    if s.buf != [] {
      BufIsTail(s.left, s.buf, |s.arrivals|, 0);
      if |s.buf| > 1 {
        BufIsTail(s.left, s.buf, |s.arrivals|, 1);
      }
    }
  }

  lemma AppendKeeps(c: Config, s: State)
    requires Sane(c) && Inv(c, s) && s.passed > 0
    ensures Inv(c, AppendStep(c, s))
  {
    hide EachOnce, InOrder, Timely;
    AppendEach(c, s);
    AppendOrder(c, s);
    AppendTimely(c, s);
  }

  lemma TakeEach(s: State, n: nat, worker: bool)
    requires EachOnce(s.buf, s.evicted, s.flights, s.sentLog, s.dropLog, |s.arrivals|) && n <= |s.buf|
    ensures var r := TakeStep(s, n, worker);
      EachOnce(r.buf, r.evicted, r.flights, r.sentLog, r.dropLog, |r.arrivals|)
  {
    var r := TakeStep(s, n, worker);
    forall e: nat
      ensures Places(r.buf, r.evicted, r.flights, r.sentLog, r.dropLog, e) == if e < |s.arrivals| then 1 else 0
    {
      hide Times, TimesFlying;
      assert Places(s.buf, s.evicted, s.flights, s.sentLog, s.dropLog, e) == if e < |s.arrivals| then 1 else 0;
      FlyingSnoc(s.flights, Flight(s.buf[..n], worker, false), e);
      TimesSplit(s.buf, n, e);
    }
  }

  lemma TimesSplit(q: seq<nat>, n: nat, e: nat)
    requires n <= |q|
    ensures Times(q[..n], e) + Times(q[n..], e) == Times(q, e)
  {
    TimesConcat(q[..n], q[n..], e);
    assert q == q[..n] + q[n..];
  }

  lemma TakeOrder(s: State, n: nat, worker: bool)
    requires InOrder(s.left, s.buf, |s.arrivals|) && n <= |s.buf|
    ensures var r := TakeStep(s, n, worker); InOrder(r.left, r.buf, |r.arrivals|)
  {
    var r := TakeStep(s, n, worker);
    assert r.left + r.buf == s.left + s.buf;
  }

  lemma TakeTimely(s: State, n: nat, worker: bool)
    requires InOrder(s.left, s.buf, |s.arrivals|) && Timely(s.now, s.arrivals, s.buf, s.oldest) && n <= |s.buf|
    ensures var r := TakeStep(s, n, worker); Timely(r.now, r.arrivals, r.buf, r.oldest)
  {
    hide InOrder;
    if n < |s.buf| {
      BufIsTail(s.left, s.buf, |s.arrivals|, 0);
      BufIsTail(s.left, s.buf, |s.arrivals|, n);
    }
  }

  lemma TakeKeeps(c: Config, s: State, n: nat, worker: bool)
    requires Inv(c, s) && n <= |s.buf| && (worker ==> n <= c.batchSize)
    ensures Inv(c, TakeStep(s, n, worker))
  {
    hide EachOnce, InOrder, Timely;
    TakeEach(s, n, worker);
    TakeOrder(s, n, worker);
    TakeTimely(s, n, worker);
  }

  lemma SettleEach(s: State, t: nat, sent: seq<nat>, dropped: seq<nat>, rest: seq<nat>)
    requires EachOnce(s.buf, s.evicted, s.flights, s.sentLog, s.dropLog, |s.arrivals|) && t < |s.flights|
    requires multiset(s.flights[t].batch) == multiset(sent) + multiset(dropped) + multiset(rest)
    ensures var r := Settle(s, t, sent, dropped, rest);
      EachOnce(r.buf, r.evicted, r.flights, r.sentLog, r.dropLog, |r.arrivals|)
  {
    var r := Settle(s, t, sent, dropped, rest);
    forall e: nat
      ensures Places(r.buf, r.evicted, r.flights, r.sentLog, r.dropLog, e) == if e < |s.arrivals| then 1 else 0
    {
      assert Places(s.buf, s.evicted, s.flights, s.sentLog, s.dropLog, e) == if e < |s.arrivals| then 1 else 0;
      assert Times(s.flights[t].batch, e) == Times(sent, e) + Times(dropped, e) + Times(rest, e);
      FlyingSet(s.flights, t, s.flights[t].(batch := rest), e);
      TimesConcat(s.sentLog, sent, e);
      TimesConcat(s.dropLog, dropped, e);
      hide Times;
    }
  }

  lemma SettleKeeps(c: Config, s: State, t: nat, sent: seq<nat>, dropped: seq<nat>, rest: seq<nat>)
    requires Inv(c, s) && t < |s.flights| && |rest| <= |s.flights[t].batch|
    requires multiset(s.flights[t].batch) == multiset(sent) + multiset(dropped) + multiset(rest)
    ensures Inv(c, Settle(s, t, sent, dropped, rest))
  {
    hide EachOnce, InOrder, Timely;
    SettleEach(s, t, sent, dropped, rest);
  }

  /** A flight's flag is no part of where its events are. */
  lemma FlagEach(s: State, t: nat, sending: bool)
    requires EachOnce(s.buf, s.evicted, s.flights, s.sentLog, s.dropLog, |s.arrivals|) && t < |s.flights|
    ensures EachOnce(s.buf, s.evicted, s.flights[t := s.flights[t].(sending := sending)], s.sentLog, s.dropLog, |s.arrivals|)
  {
    var fs := s.flights[t := s.flights[t].(sending := sending)];
    forall e: nat
      ensures Places(s.buf, s.evicted, fs, s.sentLog, s.dropLog, e) == if e < |s.arrivals| then 1 else 0
    {
      assert Places(s.buf, s.evicted, s.flights, s.sentLog, s.dropLog, e) == if e < |s.arrivals| then 1 else 0;
      FlyingSet(s.flights, t, s.flights[t].(sending := sending), e);
      hide Times;
    }
  }

  lemma FlagKeeps(c: Config, s: State, t: nat, lock: int)
    requires Inv(c, s) && t < |s.flights| && (lock == t || lock == -1)
    requires if lock == -1 then s.lock == t else s.lock == -1
    ensures Inv(c, s.(lock := lock, flights := s.flights[t := s.flights[t].(sending := lock == t)]))
  {
    hide EachOnce, InOrder, Timely;
    FlagEach(s, t, lock == t);
  }

  lemma CountEvictedKeeps(c: Config, s: State)
    requires Inv(c, s) && s.evicted != []
    ensures Inv(c, Take(c, s, CountEvicted))
  {
    hide InOrder, Timely;
    var r := Take(c, s, CountEvicted);
    forall e: nat
      ensures Places(r.buf, r.evicted, r.flights, r.sentLog, r.dropLog, e) == if e < |s.arrivals| then 1 else 0
    {
      assert Places(s.buf, s.evicted, s.flights, s.sentLog, s.dropLog, e) == if e < |s.arrivals| then 1 else 0;
      assert s.evicted == [s.evicted[0]] + s.evicted[1..];
      TimesConcat([s.evicted[0]], s.evicted[1..], e);
      TimesConcat(s.dropLog, [s.evicted[0]], e);
      hide Times;
    }
  }

  lemma StepKeeps(c: Config, s: State, step: Step)
    requires Sane(c) && Inv(c, s) && Enabled(c, s, step)
    ensures Inv(c, Take(c, s, step))
  {
    hide AppendStep, TakeStep, Settle, EachOnce, InOrder, Ready, WorkerIdle;
    hide Times;
    match step
    case Wait(dt) =>
    case PassCheck =>
    case Reject =>
    case Append => AppendKeeps(c, s);
    case CountEvicted => CountEvictedKeeps(c, s);
    case WorkerTake => TakeKeeps(c, s, if |s.buf| > c.batchSize then c.batchSize else |s.buf|, true);
    case FlushCheck =>
    case FlushTake => TakeKeeps(c, s, |s.buf|, false);
    case FlushReturn =>
    case Lock(t) => FlagKeeps(c, s, t, t);
    case Answer(t, a) => AnswerKeeps(c, s, t, a);
    case Abandon(t) => SettleKeeps(c, s, t, [], s.flights[t].batch, []);
    case Unlock(t) => FlagKeeps(c, s, t, -1);
    case CloseStart =>
    case Drain => DrainKeeps(c, s);
  }

  lemma DrainKeeps(c: Config, s: State)
    requires Inv(c, s) && s.phase == Closing
    ensures Inv(c, TakeStep(s, |s.buf|, false).(phase := Drained, passedAtDrain := s.passed))
  {
    TakeKeeps(c, s, |s.buf|, false);
  }

  lemma AnswerKeeps(c: Config, s: State, t: nat, a: Retry.Answer)
    requires Inv(c, s) && t < |s.flights|
    ensures var call := Retry.CallOf(s.flights[t].batch, a);
      Inv(c, Settle(s, t, call.sent, call.dropped, Retry.LeftOf(s.flights[t].batch, a)))
  {
    hide Inv, Settle;
    var batch := s.flights[t].batch;
    var call, left := Retry.CallOf(batch, a), Retry.LeftOf(batch, a);
    if a.Partial? {
      Retry.SelectPartitions(batch, a);
    }
    assert multiset(batch) == multiset(call.sent) + multiset(call.dropped) + multiset(left);
    SettleKeeps(c, s, t, call.sent, call.dropped, Retry.LeftOf(batch, a));
  }

  // ---------------------------------------------------------------------------------------
  // Every run
  // ---------------------------------------------------------------------------------------

  ghost predicate IsRun(c: Config, states: seq<State>, steps: seq<Step>) {
    && |states| == |steps| + 1 && states[0] == START
    && forall i :: 0 <= i < |steps| ==> Enabled(c, states[i], steps[i]) && states[i + 1] == Take(c, states[i], steps[i])
  }

  lemma {:induction false} EveryRun(c: Config, states: seq<State>, steps: seq<Step>, k: nat)
    requires Sane(c) && IsRun(c, states, steps) && k <= |steps|
    ensures Inv(c, states[k])
  {
    hide Inv, Take, Enabled;
    if k == 0 {
      StartIsGood(c);
    } else {
      EveryRun(c, states, steps, k - 1);
      StepKeeps(c, states[k - 1], steps[k - 1]);
    }
  }

  lemma StartIsGood(c: Config)
    ensures Inv(c, START)
  {
  }
}
