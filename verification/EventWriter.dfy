/**
 writer.go: the bounded queue of rendered lines. Producers push, and evict the oldest entry of
 a full queue; Flush and stop push markers; one goroutine takes entries out. A step is one
 channel operation, or one reading or writing of the stopped flag.
 */
module EventWriter {
  import opened GoBytes

  /** A queue entry, named by the order in which it entered: a line, or a marker that a Flush or
      a stop waits on. */
  datatype Item = Line(n: nat) | Mark(n: nat, stop: bool)

  datatype Fate = Written | Released | Evicted

  datatype State = State(
    cap: nat,
    queue: seq<Item>,
    entered: seq<Item>,     // everything ever queued, in order
    fates: seq<Fate>,       // what became of the entries that left, in order
    offered: nat,           // calls of write
    refused: nat,           // of these, the ones that found the writer stopped
    callers: nat,           // producers past the stopped test that push next
    finders: nat,           // producers that found the queue full and evict next
    flushers: nat,          // Flush calls past the stopped test
    dropped: nat,
    stopSent: bool,         // stop pushes its marker once
    stopAt: Option<nat>,    // the entry the goroutine returned at
    stopped: bool)

  datatype Step =
    | Offer
    | Refuse
    | PushLine
    | FindFull
    | Evict
    | StartFlush
    | PushMark
    | PushStop
    | Consume
    | SetStopped

  function Start(cap: nat): State {
    State(cap, [], [], [], 0, 0, 0, 0, 0, 0, false, None, false)
  }

  predicate Enabled(s: State, step: Step) {
    match step
    case Offer => !s.stopped
    case Refuse => s.stopped
    case PushLine => s.callers > 0 && |s.queue| < s.cap
    case FindFull => s.callers > 0 && |s.queue| >= s.cap
    case Evict => s.finders > 0
    case StartFlush => !s.stopped
    case PushMark => s.flushers > 0 && |s.queue| < s.cap
    case PushStop => !s.stopSent && |s.queue| < s.cap
    case Consume => s.stopAt.None? && s.queue != []
    case SetStopped => s.stopAt.Some? && !s.stopped
  }

  function Push(s: State, item: Item): State {
    s.(queue := s.queue + [item], entered := s.entered + [item])
  }

  function Leave(s: State, fate: Fate): State
    requires s.queue != []
  {
    s.(queue := s.queue[1..], fates := s.fates + [fate])
  }

  function Take(s: State, step: Step): State
    requires Enabled(s, step)
  {
    match step
    case Offer => s.(offered := s.offered + 1, callers := s.callers + 1)
    case Refuse => s.(offered := s.offered + 1, refused := s.refused + 1)
    case PushLine => Push(s, Line(|s.entered|)).(callers := s.callers - 1)
    case FindFull => s.(callers := s.callers - 1, finders := s.finders + 1)
    case Evict =>
      var t := s.(finders := s.finders - 1, callers := s.callers + 1);
      if s.queue == [] then t else Leave(t, Evicted).(dropped := s.dropped + 1)
    case StartFlush => s.(flushers := s.flushers + 1)
    case PushMark => Push(s, Mark(|s.entered|, false)).(flushers := s.flushers - 1)
    case PushStop => Push(s, Mark(|s.entered|, true)).(stopSent := true)
    case SetStopped => s.(stopped := true)
    case Consume =>
      match s.queue[0]
      case Line(_) => Leave(s, Written)
      case Mark(_, stop) => Leave(s, Released).(stopAt := if stop then Some(|s.fates|) else None)
  }

  // ---------------------------------------------------------------------------------------
  // What every step keeps
  // ---------------------------------------------------------------------------------------

  function Count(fates: seq<Fate>, fate: Fate): nat {
    if fates == [] then 0
    else Count(fates[..|fates| - 1], fate) + if fates[|fates| - 1] == fate then 1 else 0
  }

  /** How many of the entries are lines. */
  function Lines(entered: seq<Item>): nat {
    if entered == [] then 0
    else Lines(entered[..|entered| - 1]) + if entered[|entered| - 1].Line? then 1 else 0
  }

  /** A line is written or evicted; a marker is released or evicted. */
  predicate FateFits(item: Item, fate: Fate) {
    fate == Evicted || (item.Line? && fate == Written) || (item.Mark? && fate == Released)
  }

  /** Entries leave in the order they entered: those with a fate are the first ones, and the
      queue holds the rest. */
  ghost predicate History(cap: nat, queue: seq<Item>, entered: seq<Item>, fates: seq<Fate>) {
    && |fates| + |queue| == |entered|
    && queue == entered[|fates|..]
    && |queue| <= cap
    && (forall i :: 0 <= i < |fates| ==> FateFits(entered[i], fates[i]))
    && (forall i :: 0 <= i < |entered| ==> entered[i].n == i)
  }

  /** The goroutine returned at a stop marker, and whatever left the queue after it was evicted. */
  ghost predicate StopsAt(entered: seq<Item>, fates: seq<Fate>, at: Option<nat>) {
    at.Some? ==>
      && at.value < |fates| <= |entered| && entered[at.value] == Mark(at.value, true) && fates[at.value] == Released
      && forall i :: at.value < i < |fates| ==> fates[i] == Evicted
  }

  ghost predicate Inv(s: State) {
    && History(s.cap, s.queue, s.entered, s.fates)
    && StopsAt(s.entered, s.fates, s.stopAt)
    && s.dropped == Count(s.fates, Evicted)
    && s.offered == s.callers + s.finders + s.refused + Lines(s.entered)
    && (s.stopped ==> s.stopAt.Some?)
  }

  lemma CountSnoc(fates: seq<Fate>, f: Fate, g: Fate)
    ensures Count(fates + [f], g) == Count(fates, g) + if f == g then 1 else 0
  {
    assert (fates + [f])[..|fates|] == fates;
  }

  lemma LinesSnoc(entered: seq<Item>, item: Item)
    ensures Lines(entered + [item]) == Lines(entered) + if item.Line? then 1 else 0
  {
    assert (entered + [item])[..|entered|] == entered;
  }

  lemma LeaveHistory(s: State, fate: Fate)
    requires History(s.cap, s.queue, s.entered, s.fates) && s.queue != [] && FateFits(s.queue[0], fate)
    ensures var t := Leave(s, fate); History(t.cap, t.queue, t.entered, t.fates)
    ensures s.queue[0] == s.entered[|s.fates|] && s.queue[0].n == |s.fates|
  {
    assert s.queue[0] == s.entered[|s.fates|];
  }

  lemma PushHistory(s: State, item: Item)
    requires History(s.cap, s.queue, s.entered, s.fates) && |s.queue| < s.cap && item.n == |s.entered|
    ensures var t := Push(s, item); History(t.cap, t.queue, t.entered, t.fates)
    ensures StopsAt(s.entered, s.fates, s.stopAt) ==> StopsAt(s.entered + [item], s.fates, s.stopAt)
  {
    hide FateFits;
    var t := Push(s, item);
    assert t.queue == t.entered[|t.fates|..];
  }

  lemma StepKeeps(s: State, step: Step)
    requires Inv(s) && Enabled(s, step)
    ensures Inv(Take(s, step))
  {
    hide Count, Lines, History;
    match step
    case Offer =>
    case Refuse =>
    case PushLine =>
      PushHistory(s, Line(|s.entered|));
      LinesSnoc(s.entered, Line(|s.entered|));
    case FindFull =>
    case Evict =>
      if s.queue != [] {
        LeaveHistory(s, Evicted);
        CountSnoc(s.fates, Evicted, Evicted);
        LeftFits(s);
      }
    case StartFlush =>
    case PushMark =>
      PushHistory(s, Mark(|s.entered|, false));
      LinesSnoc(s.entered, Mark(|s.entered|, false));
    case PushStop =>
      PushHistory(s, Mark(|s.entered|, true));
      LinesSnoc(s.entered, Mark(|s.entered|, true));
    case Consume =>
      LeftFits(s);
      var fate := if s.queue[0].Line? then Written else Released;
      LeaveHistory(s, fate);
      CountSnoc(s.fates, fate, Evicted);
    case SetStopped =>
  }

  lemma LeftFits(s: State)
    requires History(s.cap, s.queue, s.entered, s.fates) && s.queue != []
    ensures |s.fates| < |s.entered| && s.queue[0] == s.entered[|s.fates|]
  {
  }

  // ---------------------------------------------------------------------------------------
  // Runs
  // ---------------------------------------------------------------------------------------

  ghost predicate IsRun(cap: nat, states: seq<State>, steps: seq<Step>) {
    && |states| == |steps| + 1 && states[0] == Start(cap)
    && forall i :: 0 <= i < |steps| ==> Enabled(states[i], steps[i]) && states[i + 1] == Take(states[i], steps[i])
  }

  lemma {:induction false} EveryRun(cap: nat, states: seq<State>, steps: seq<Step>, k: nat)
    requires IsRun(cap, states, steps) && k <= |steps|
    ensures Inv(states[k])
  {
    hide Inv, Take, Enabled;
    if k == 0 {
      StartIsGood(cap);
    } else {
      EveryRun(cap, states, steps, k - 1);
      StepKeeps(states[k - 1], steps[k - 1]);
    }
  }

  lemma StartIsGood(cap: nat)
    ensures Inv(Start(cap))
  {
  }

  /** What has entered, what became of it, and where the goroutine returned, stay. */
  lemma {:induction false} HistoryGrows(cap: nat, states: seq<State>, steps: seq<Step>, j: nat, k: nat)
    requires IsRun(cap, states, steps) && j <= k <= |steps|
    ensures states[j].entered <= states[k].entered && states[j].fates <= states[k].fates
    ensures states[j].stopAt.Some? ==> states[k].stopAt == states[j].stopAt
    decreases k - j
  {
    hide Take, Enabled, IsRun;
    RunStep(cap, states, steps, k);
    if j == k {
    } else {
      RunStep(cap, states, steps, k - 1);
      HistoryGrows(cap, states, steps, j, k - 1);
      StepGrows(states[k - 1], steps[k - 1]);
    }
  }

  lemma RunStep(cap: nat, states: seq<State>, steps: seq<Step>, i: nat)
    requires IsRun(cap, states, steps)
    ensures |states| == |steps| + 1
    ensures i < |steps| ==> Enabled(states[i], steps[i]) && states[i + 1] == Take(states[i], steps[i])
  {
  }

  lemma StepGrows(s: State, step: Step)
    requires Enabled(s, step)
    ensures s.entered <= Take(s, step).entered && s.fates <= Take(s, step).fates
    ensures s.stopAt.Some? ==> Take(s, step).stopAt == s.stopAt
  {
  }

  lemma {:induction false} CountsCover(fates: seq<Fate>)
    ensures |fates| == Count(fates, Written) + Count(fates, Released) + Count(fates, Evicted)
  {
    if fates == [] {
    } else {
      CountsCover(fates[..|fates| - 1]);
    }
  }

  /** Every entry was written, released, evicted, or is still queued; Stats counts the evicted. */
  lemma EntriesAddUp(s: State)
    requires Inv(s)
    ensures |s.entered| == Count(s.fates, Written) + Count(s.fates, Released) + s.dropped + |s.queue|
  {
    hide Count;
    CountsCover(s.fates);
  }

  /** The numbers of the lines written so far, in the order they were written. */
  function WrittenLines(entered: seq<Item>, fates: seq<Fate>): (r: seq<nat>)
    requires |fates| <= |entered|
    decreases |fates|
  {
    if fates == [] then []
    else
      var n := |fates| - 1;
      var front := WrittenLines(entered, fates[..n]);
      if fates[n] == Written then front + [entered[n].n] else front
  }

  /** Lines are written in the order they were queued, and none twice: those that left the queue for
      the output, and no other. */
  lemma {:induction false} WrittenInOrder(entered: seq<Item>, fates: seq<Fate>)
    requires |fates| <= |entered| && forall i :: 0 <= i < |entered| ==> entered[i].n == i
    ensures forall i :: 0 <= i < |WrittenLines(entered, fates)| ==> WrittenLines(entered, fates)[i] < |fates|
    ensures forall i, j :: 0 <= i < j < |WrittenLines(entered, fates)| ==>
      WrittenLines(entered, fates)[i] < WrittenLines(entered, fates)[j]
    ensures forall i :: 0 <= i < |fates| ==> (i in WrittenLines(entered, fates) <==> fates[i] == Written)
    decreases |fates|
  {
    if fates == [] {
    } else {
      WrittenInOrder(entered, fates[..|fates| - 1]);
    }
  }

  /** flush returned nil: at step k the goroutine takes the marker that step j pushed. Every line
      pushed before step j was written or evicted before step k. The same holds of a stop. */
  lemma FlushMeansWritten(cap: nat, states: seq<State>, steps: seq<Step>, j: nat, k: nat, i: nat)
    requires IsRun(cap, states, steps) && j < k < |steps|
    requires steps[j] == PushMark || steps[j] == PushStop
    requires steps[k] == Consume && states[k].queue[0].n == |states[j].entered|
    requires i < |states[j].entered| && states[j].entered[i].Line?
    ensures i < |states[k].fates| && (states[k].fates[i] == Written || states[k].fates[i] == Evicted)
  {
    EveryRun(cap, states, steps, k);
    HistoryGrows(cap, states, steps, j, k);
    hide Count, Lines;
    assert states[k].queue[0] == states[k].entered[|states[k].fates|];
    assert FateFits(states[k].entered[i], states[k].fates[i]);
  }

  /** And the goroutine returns at the stop marker: when step k takes it, everything pushed before
      step j, markers included, has left the queue, and nothing is written from then on. */
  lemma StopIsLast(cap: nat, states: seq<State>, steps: seq<Step>, j: nat, k: nat, l: nat)
    requires IsRun(cap, states, steps) && j < k < l <= |steps| && steps[j] == PushStop
    requires steps[k] == Consume && states[k].queue[0].n == |states[j].entered|
    ensures |states[j].entered| == |states[k].fates|
    ensures states[l].stopAt == Some(|states[j].entered|)
    ensures forall i :: |states[j].entered| < i < |states[l].fates| ==> states[l].fates[i] == Evicted
  {
    EveryRun(cap, states, steps, k);
    EveryRun(cap, states, steps, l);
    HistoryGrows(cap, states, steps, j + 1, k);
    HistoryGrows(cap, states, steps, k + 1, l);
    hide Count, Lines;
    assert states[j + 1] == Take(states[j], steps[j]) && states[k + 1] == Take(states[k], steps[k]);
    assert states[k].queue[0] == states[k].entered[|states[k].fates|];
  }

  /** In a run whose writer has returned, a line is neither written nor evicted exactly when it
      entered behind the stop marker and no later producer evicted it. */
  lemma LostExactly(cap: nat, states: seq<State>, steps: seq<Step>, k: nat, i: nat)
    requires IsRun(cap, states, steps) && k <= |steps| && states[k].stopAt.Some?
    requires i < |states[k].entered| && states[k].entered[i].Line?
    ensures (i < |states[k].fates| ==> states[k].fates[i] != Written && states[k].fates[i] != Evicted) <==>
      states[k].stopAt.value < i && (i < |states[k].fates| ==> states[k].fates[i] != Evicted)
  {
    EveryRun(cap, states, steps, k);
    hide Count, Lines;
    if i < |states[k].fates| {
      assert FateFits(states[k].entered[i], states[k].fates[i]);
    }
  }

  /** The lines that are still queued or were refused are in no count: every line handed to write
      is written, counted as dropped unless a marker was, queued, refused, or on its way in. */
  lemma LinesAddUp(s: State)
    requires Inv(s)
    ensures s.offered == s.refused + s.callers + s.finders
      + Count(s.fates, Written) + LostLines(s.entered, s.fates) + Lines(s.queue)
  {
    hide History, Count, Lines, LostLines;
    QueueIsRest(s);
    LinesSplit(s.entered, s.fates, |s.fates|);
    assert s.fates[..|s.fates|] == s.fates;
    LinesConcat(s.entered[..|s.fates|], s.queue);
    assert s.entered == s.entered[..|s.fates|] + s.queue;
  }

  lemma QueueIsRest(s: State)
    requires History(s.cap, s.queue, s.entered, s.fates)
    ensures |s.fates| <= |s.entered| && s.queue == s.entered[|s.fates|..]
    ensures forall i :: 0 <= i < |s.fates| ==> FateFits(s.entered[i], s.fates[i])
  {
  }

  lemma {:induction false} LinesSplit(entered: seq<Item>, fates: seq<Fate>, n: nat)
    requires n <= |fates| <= |entered| && forall i :: 0 <= i < |fates| ==> FateFits(entered[i], fates[i])
    ensures Lines(entered[..n]) == Count(fates[..n], Written) + LostLines(entered, fates[..n])
  {
    if n == 0 {
    } else {
      LinesSplit(entered, fates, n - 1);
      assert entered[..n] == entered[..n - 1] + [entered[n - 1]] && fates[..n] == fates[..n - 1] + [fates[n - 1]];
      LinesSnoc(entered[..n - 1], entered[n - 1]);
      CountSnoc(fates[..n - 1], fates[n - 1], Written);
      assert fates[..n][..n - 1] == fates[..n - 1];
      hide Count, Lines;
      assert FateFits(entered[n - 1], fates[n - 1]);
    }
  }

  lemma {:induction false} LinesConcat(a: seq<Item>, b: seq<Item>)
    ensures Lines(a + b) == Lines(a) + Lines(b)
  {
    if b == [] {
      assert a + b == a;
    } else {
      var front, last := b[..|b| - 1], b[|b| - 1];
      LinesConcat(a, front);
      LinesSnoc(a + front, last);
      LinesSnoc(front, last);
      assert b == front + [last] && a + b == (a + front) + [last];
    }
  }

  /** The dropped count is the number of lines lost, exactly when no marker was evicted. */
  lemma DroppedCountsLines(s: State)
    requires Inv(s)
    ensures s.dropped == LostLines(s.entered, s.fates) <==>
      forall i :: 0 <= i < |s.fates| && s.entered[i].Mark? ==> s.fates[i] == Released
  {
    LostAndEvicted(s.entered, s.fates);
  }

  function LostLines(entered: seq<Item>, fates: seq<Fate>): nat
    requires |fates| <= |entered|
    decreases |fates|
  {
    if fates == [] then 0
    else
      var n := |fates| - 1;
      LostLines(entered, fates[..n]) + if fates[n] == Evicted && entered[n].Line? then 1 else 0
  }

  lemma {:induction false} LostAndEvicted(entered: seq<Item>, fates: seq<Fate>)
    requires |fates| <= |entered| && forall i :: 0 <= i < |fates| ==> FateFits(entered[i], fates[i])
    ensures LostLines(entered, fates) <= Count(fates, Evicted)
    ensures LostLines(entered, fates) == Count(fates, Evicted) <==>
      forall i :: 0 <= i < |fates| && entered[i].Mark? ==> fates[i] == Released
    decreases |fates|
  {
    if fates == [] {
    } else {
      var n := |fates| - 1;
      LostAndEvicted(entered, fates[..n]);
      if forall i :: 0 <= i < |fates| && entered[i].Mark? ==> fates[i] == Released {
        assert forall i :: 0 <= i < n && entered[i].Mark? ==> fates[..n][i] == Released;
      }
      if forall i :: 0 <= i < n && entered[i].Mark? ==> fates[..n][i] == Released {
        assert forall i :: 0 <= i < n && entered[i].Mark? ==> fates[i] == Released;
      }
    }
  }

  /** A run extended by one possible step. */
  lemma Go(cap: nat, states: seq<State>, steps: seq<Step>, step: Step, t: State) returns (states': seq<State>, steps': seq<Step>)
    requires IsRun(cap, states, steps) && Enabled(states[|steps|], step) && Take(states[|steps|], step) == t
    ensures IsRun(cap, states', steps') && |states'| == |steps'| + 1 && states'[|steps'|] == t
  {
    hide Enabled, Take;
    states', steps' := states + [t], steps + [step];
  }

  lemma Begin(cap: nat)
    ensures IsRun(cap, [Start(cap)], [])
  {
  }

  lemma StepOffer(s: State)
    requires !s.stopped
    ensures Enabled(s, Offer) && Take(s, Offer) == s.(offered := s.offered + 1, callers := s.callers + 1)
  {
  }

  lemma StepFlush(s: State)
    requires !s.stopped
    ensures Enabled(s, StartFlush) && Take(s, StartFlush) == s.(flushers := s.flushers + 1)
  {
  }

  lemma StepMark(s: State)
    requires s.flushers > 0 && |s.queue| < s.cap
    ensures Enabled(s, PushMark)
    ensures Take(s, PushMark) == s.(flushers := s.flushers - 1, queue := s.queue + [Mark(|s.entered|, false)],
                                    entered := s.entered + [Mark(|s.entered|, false)])
  {
  }

  lemma StepStop(s: State)
    requires !s.stopSent && |s.queue| < s.cap
    ensures Enabled(s, PushStop)
    ensures Take(s, PushStop) == s.(stopSent := true, queue := s.queue + [Mark(|s.entered|, true)],
                                    entered := s.entered + [Mark(|s.entered|, true)])
  {
  }

  lemma StepLine(s: State)
    requires s.callers > 0 && |s.queue| < s.cap
    ensures Enabled(s, PushLine)
    ensures Take(s, PushLine) == s.(callers := s.callers - 1, queue := s.queue + [Line(|s.entered|)],
                                    entered := s.entered + [Line(|s.entered|)])
  {
  }

  lemma StepFull(s: State)
    requires s.callers > 0 && |s.queue| >= s.cap
    ensures Enabled(s, FindFull) && Take(s, FindFull) == s.(callers := s.callers - 1, finders := s.finders + 1)
  {
  }

  lemma StepEvict(s: State)
    requires s.finders > 0 && s.queue != []
    ensures Enabled(s, Evict)
    ensures Take(s, Evict) == s.(finders := s.finders - 1, callers := s.callers + 1, queue := s.queue[1..],
                                 fates := s.fates + [Evicted], dropped := s.dropped + 1)
  {
  }

  lemma StepReturn(s: State)
    requires s.stopAt.None? && s.queue != [] && s.queue[0].Mark? && s.queue[0].stop
    ensures Enabled(s, Consume)
    ensures Take(s, Consume) == s.(queue := s.queue[1..], fates := s.fates + [Released], stopAt := Some(|s.fates|))
  {
  }

  lemma StepSet(s: State)
    requires s.stopAt.Some? && !s.stopped
    ensures Enabled(s, SetStopped) && Take(s, SetStopped) == s.(stopped := true)
  {
  }

  lemma StepRefuse(s: State)
    requires s.stopped
    ensures Enabled(s, Refuse) && Take(s, Refuse) == s.(offered := s.offered + 1, refused := s.refused + 1)
  {
  }

  /** It does happen: with room for one entry, a producer evicts a flush marker, which counts as
      a dropped line although no line was lost. */
  lemma MarkerCanBeEvicted() returns (states: seq<State>, steps: seq<Step>)
    ensures IsRun(1, states, steps)
    ensures var s := states[|steps|];
      s.dropped == 1 && s.entered == [Mark(0, false)] && s.fates == [Evicted]
  {
    hide Take, Enabled, IsRun;
    Begin(1);
    var s := Start(1);
    StepFlush(s);
    var t := s.(flushers := 1);
    states, steps := Go(1, [s], [], StartFlush, t);
    StepMark(t);
    s := t.(flushers := 0, queue := [Mark(0, false)], entered := [Mark(0, false)]);
    states, steps := Go(1, states, steps, PushMark, s);
    StepOffer(s);
    t := s.(offered := 1, callers := 1);
    states, steps := Go(1, states, steps, Offer, t);
    StepFull(t);
    s := t.(callers := 0, finders := 1);
    states, steps := Go(1, states, steps, FindFull, s);
    StepEvict(s);
    t := s.(finders := 0, callers := 1, queue := [], fates := [Evicted], dropped := 1);
    states, steps := Go(1, states, steps, Evict, t);
  }

  /** A producer that found the writer running queues a line behind the stop marker; the next
      one is refused. Neither line is written, and neither is counted. */
  lemma LineBehindStop() returns (states: seq<State>, steps: seq<Step>)
    ensures IsRun(2, states, steps)
    ensures var s := states[|steps|];
      s.stopped && s.offered == 2 && s.queue == [Line(1)] && s.refused == 1 && s.dropped == 0
  {
    hide Take, Enabled, IsRun;
    Begin(2);
    var m, l := Mark(0, true), Line(1);
    var s := Start(2);
    StepOffer(s);
    var t := s.(offered := 1, callers := 1);
    states, steps := Go(2, [s], [], Offer, t);
    StepStop(t);
    s := t.(queue := [m], entered := [m], stopSent := true);
    states, steps := Go(2, states, steps, PushStop, s);
    StepLine(s);
    assert [m] + [l] == [m, l] && [m, l][1..] == [l];
    t := s.(queue := [m, l], entered := [m, l], callers := 0);
    states, steps := Go(2, states, steps, PushLine, t);
    StepReturn(t);
    s := t.(queue := [l], fates := [Released], stopAt := Some(0));
    states, steps := Go(2, states, steps, Consume, s);
    StepSet(s);
    t := s.(stopped := true);
    states, steps := Go(2, states, steps, SetStopped, t);
    StepRefuse(t);
    s := t.(offered := 2, refused := 1);
    states, steps := Go(2, states, steps, Refuse, s);
  }

  // ---------------------------------------------------------------------------------------
  // write, with one producer
  // ---------------------------------------------------------------------------------------

  class Queue {
    const cap: nat
    var items: seq<Item>
    var dropped: nat
    var stopped: bool

    constructor (cap: nat)
      ensures this.cap == cap && items == [] && dropped == 0 && !stopped
    {
      this.cap, items, dropped, stopped := cap, [], 0, false;
    }

    /** write by the only producer. Before each of its channel operations the writer goroutine
        may have taken any number of entries out; taken(k) says how many before the k-th. A
        writer that has stopped takes no line, and says nothing. */
    method Write(line: Item, taken: nat -> nat) returns (rounds: nat, ghost gone: nat)
      requires cap >= 1 && |items| <= cap
      modifies this`items, this`dropped
      ensures stopped ==> rounds == 0 && items == old(items) && dropped == old(dropped)
      ensures !stopped ==> 1 <= rounds <= 2
      ensures !stopped ==> gone <= |old(items)| && items == old(items)[gone..] + [line]
      ensures |items| <= cap && old(dropped) <= dropped <= old(dropped) + 1
      ensures dropped > old(dropped) ==> rounds == 2 && gone >= 1
    {
      rounds, gone := 0, 0;
      if stopped {
        return;
      }
      var op := 0;
      while true
        invariant 0 <= gone <= |old(items)| && items == old(items)[gone..] && |items| <= cap
        invariant rounds <= 1 && (rounds == 1 ==> |items| < cap)
        invariant old(dropped) <= dropped <= old(dropped) + rounds
        invariant dropped > old(dropped) ==> gone >= 1
        decreases 2 - rounds
      {
        rounds := rounds + 1;
        var k := if taken(op) <= |items| then taken(op) else |items|;
        items, gone, op := items[k..], gone + k, op + 1;
        if |items| < cap {
          items := items + [line];
          return;
        }
        k := if taken(op) <= |items| then taken(op) else |items|;
        items, gone, op := items[k..], gone + k, op + 1;
        if |items| > 0 {
          items, gone, dropped := items[1..], gone + 1, dropped + 1;
        }
      }
    }
  }
}
