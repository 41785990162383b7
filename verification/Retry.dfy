/**
 pipeline/pipeline.go, sendBatch and dropPartial: one batch against a Sender that may accept
 it, refuse it, panic, or answer for each event by its index.
 */
module Retry {
  /** What trySendBatch returns. Failed covers a plain error, a recovered panic, and a
      RetryError; final means Retryable() was false. NilPartial is a typed-nil *PartialError. */
  datatype Answer =
    | Accepted
    | Failed(final: bool)
    | NilPartial
    | Partial(retry: seq<int>, dropped: seq<int>)

  datatype Fate = Sent | Refused | Again

  /** An index in both lists counts as dropped, and one in neither reached the backend. */
  function FateOf(a: Answer, i: nat): Fate
    requires a.Partial?
  {
    if i in a.dropped then Refused else if i in a.retry then Again else Sent
  }

  /** The events of the batch that met one fate, in batch order. */
  function Select<T>(batch: seq<T>, a: Answer, fate: Fate): seq<T>
    requires a.Partial?
  {
    if batch == [] then []
    else
      var n := |batch| - 1;
      var front := Select(batch[..n], a, fate);
      if FateOf(a, n) == fate then front + [batch[n]] else front
  }

  lemma SelectSnoc<T>(batch: seq<T>, a: Answer, fate: Fate, i: nat)
    requires a.Partial? && i < |batch|
    ensures Select(batch[..i + 1], a, fate) ==
      (var front := Select(batch[..i], a, fate); if FateOf(a, i) == fate then front + [batch[i]] else front)
  {
    assert batch[..i + 1][..i] == batch[..i];
  }

  /** One more event, put on the side of its fate. */
  lemma CountOne<T>(all: seq<T>, s: seq<T>, r: seq<T>, g: seq<T>, x: T, fate: Fate)
    requires multiset(all) == multiset(s) + multiset(r) + multiset(g)
    ensures multiset(all + [x]) ==
      multiset(if fate == Sent then s + [x] else s) + multiset(if fate == Refused then r + [x] else r)
      + multiset(if fate == Again then g + [x] else g)
  {
  }

  /** Every event of the batch meets exactly one fate. */
  lemma {:induction false} SelectPartitions<T>(batch: seq<T>, a: Answer)
    requires a.Partial?
    ensures multiset(batch) == multiset(Select(batch, a, Sent)) + multiset(Select(batch, a, Refused))
      + multiset(Select(batch, a, Again))
    ensures |batch| == |Select(batch, a, Sent)| + |Select(batch, a, Refused)| + |Select(batch, a, Again)|
  {
    hide Select, FateOf;
    if batch == [] {
      SelectNone<T>(a);
    } else {
      var n := |batch| - 1;
      var front := batch[..n];
      SelectPartitions(front, a);
      assert batch[..n + 1] == batch == front + [batch[n]];
      SelectSnoc(batch, a, Sent, n);
      SelectSnoc(batch, a, Refused, n);
      SelectSnoc(batch, a, Again, n);
      CountOne(front, Select(front, a, Sent), Select(front, a, Refused), Select(front, a, Again),
               batch[n], FateOf(a, n));
    }
  }

  lemma SelectNone<T>(a: Answer)
    requires a.Partial?
    ensures forall fate :: Select<T>([], a, fate) == []
  {
  }

  /** s is t with some elements left out. */
  ghost predicate Subsequence<T(!new)>(s: seq<T>, t: seq<T>)
    decreases |t|
  {
    s == [] || (t != [] &&
      ((s[|s| - 1] == t[|t| - 1] && Subsequence(s[..|s| - 1], t[..|t| - 1])) || Subsequence(s, t[..|t| - 1])))
  }

  lemma {:induction false} SelectIsSubsequence<T(!new)>(batch: seq<T>, a: Answer, fate: Fate)
    requires a.Partial?
    ensures Subsequence(Select(batch, a, fate), batch)
  {
    if batch == [] {
    } else {
      var n := |batch| - 1;
      SelectIsSubsequence(batch[..n], a, fate);
      var s := Select(batch, a, fate);
      if FateOf(a, n) == fate {
        assert s[..|s| - 1] == Select(batch[..n], a, fate);
      } else {
        assert s == Select(batch[..n], a, fate);
      }
    }
  }

  lemma {:induction false} SubsequenceOfItself<T(!new)>(s: seq<T>)
    ensures Subsequence(s, s)
  {
    if s == [] {
    } else {
      SubsequenceOfItself(s[..|s| - 1]);
    }
  }

  // ---------------------------------------------------------------------------------------
  // sendBatch
  // ---------------------------------------------------------------------------------------

  /** One call of the Sender: what it was given, and what that call settled. */
  datatype Call<T> = Call(batch: seq<T>, sent: seq<T>, dropped: seq<T>)

  /** The calls from one attempt on, and the events dropped unsent when the attempts end.
      waits(k) is false when the worker closes during the wait after attempt k. */
  datatype Result<T> = Result(calls: seq<Call<T>>, abandoned: seq<T>)

  function Attempts<T>(batch: seq<T>, k: nat, max: int, answers: nat -> Answer, waits: nat -> bool): Result<T>
    decreases max - k
  {
    if k > max then Result([], batch)
    else
      match answers(k)
      case Accepted => Result([Call(batch, batch, [])], [])
      case Failed(true) => Result([Call(batch, [], [])], batch)
      case Failed(false) => Onward(Call(batch, [], []), batch, k, max, answers, waits)
      case NilPartial => Onward(Call(batch, [], []), batch, k, max, answers, waits)
      case Partial(_, _) =>
        var call := Call(batch, Select(batch, answers(k), Sent), Select(batch, answers(k), Refused));
        var again := Select(batch, answers(k), Again);
        if again == [] then Result([call], []) else Onward(call, again, k, max, answers, waits)
  }

  /** After a call that leaves events: wait, then try again with them. */
  function Onward<T>(call: Call<T>, rest: seq<T>, k: nat, max: int, answers: nat -> Answer, waits: nat -> bool): Result<T>
    requires k <= max
    decreases max - k, 0
  {
    if k < max && !waits(k) then Result([call], rest)
    else
      var r := Attempts(rest, k + 1, max, answers, waits);
      Result([call] + r.calls, r.abandoned)
  }

  function AllSent<T>(calls: seq<Call<T>>): seq<T> {
    if calls == [] then [] else AllSent(calls[..|calls| - 1]) + calls[|calls| - 1].sent
  }

  function AllDropped<T>(calls: seq<Call<T>>): seq<T> {
    if calls == [] then [] else AllDropped(calls[..|calls| - 1]) + calls[|calls| - 1].dropped
  }

  lemma {:induction false} AllSentCons<T>(c: Call<T>, calls: seq<Call<T>>)
    ensures AllSent([c] + calls) == c.sent + AllSent(calls)
    ensures AllDropped([c] + calls) == c.dropped + AllDropped(calls)
  {
    hide AllSent, AllDropped;
    if calls == [] {
      CallsNone<T>();
      CallsSnoc<T>([], c);
      assert [c] + calls == [] + [c];
    } else {
      var front, last := calls[..|calls| - 1], calls[|calls| - 1];
      AllSentCons(c, front);
      CallsSnoc(front, last);
      CallsSnoc([c] + front, last);
      assert calls == front + [last] && [c] + calls == ([c] + front) + [last];
    }
  }

  /** Nothing is lost and nothing is counted twice: what was sent and what was dropped are
      together the batch. */
  lemma {:induction false} AttemptsConserve<T>(batch: seq<T>, k: nat, max: int, answers: nat -> Answer, waits: nat -> bool)
    ensures var r := Attempts(batch, k, max, answers, waits);
      multiset(AllSent(r.calls)) + multiset(AllDropped(r.calls)) + multiset(r.abandoned) == multiset(batch)
    decreases max - k, 1
  {
    if k > max {
    } else {
      match answers(k)
      case Accepted => AllSentCons(Call(batch, batch, []), []);
      case Failed(true) => AllSentCons(Call(batch, [], []), []);
      case Failed(false) => OnwardConserves(Call(batch, [], []), batch, k, max, answers, waits);
      case NilPartial => OnwardConserves(Call(batch, [], []), batch, k, max, answers, waits);
      case Partial(_, _) =>
        SelectPartitions(batch, answers(k));
        var call := Call(batch, Select(batch, answers(k), Sent), Select(batch, answers(k), Refused));
        AllSentCons(call, []);
        OnwardConserves(call, Select(batch, answers(k), Again), k, max, answers, waits);
    }
  }

  lemma {:induction false} OnwardConserves<T>(call: Call<T>, rest: seq<T>, k: nat, max: int, answers: nat -> Answer, waits: nat -> bool)
    requires k <= max
    ensures var r := Onward(call, rest, k, max, answers, waits);
      multiset(AllSent(r.calls)) + multiset(AllDropped(r.calls)) + multiset(r.abandoned)
      == multiset(call.sent) + multiset(call.dropped) + multiset(rest)
    decreases max - k, 0
  {
    AllSentCons(call, []);
    var r := Attempts(rest, k + 1, max, answers, waits);
    AttemptsConserve(rest, k + 1, max, answers, waits);
    AllSentCons(call, r.calls);
  }

  /** The Sender is called at most MaxAttempts times, first with the batch, and then each time
      with a subsequence of what the call before it did not settle. */
  lemma {:induction false} AttemptsNarrow<T(!new)>(batch: seq<T>, k: nat, max: int, answers: nat -> Answer, waits: nat -> bool)
    ensures var calls := Attempts(batch, k, max, answers, waits).calls;
      && |calls| <= (if k <= max then max - k + 1 else 0)
      && (calls != [] ==> calls[0].batch == batch)
      && forall i :: 0 < i < |calls| ==> NextCall(calls[i - 1], calls[i])
    decreases max - k, 1
  {
    hide Attempts, Onward, Subsequence, CallOf, LeftOf;
    if k <= max {
      var rest := LeftOf(batch, answers(k));
      AttemptStep(batch, k, max, answers, waits);
      AttemptsNarrow(rest, k + 1, max, answers, waits);
      LeftOver(batch, answers(k));
      var later := Attempts(rest, k + 1, max, answers, waits).calls;
      var calls := Attempts(batch, k, max, answers, waits).calls;
      assert calls == [CallOf(batch, answers(k))] || calls == [CallOf(batch, answers(k))] + later;
    } else {
      AttemptsOver(batch, k, max, answers, waits);
    }
  }

  lemma LeftOver<T(!new)>(batch: seq<T>, a: Answer)
    ensures CallOf(batch, a).batch == batch
    ensures !a.Accepted? ==> Subsequence(LeftOf(batch, a), batch)
    ensures !a.Accepted? ==>
      multiset(batch) == multiset(CallOf(batch, a).sent) + multiset(CallOf(batch, a).dropped) + multiset(LeftOf(batch, a))
  {
    hide Select, FateOf, Subsequence;
    SubsequenceOfItself(batch);
    if a.Partial? {
      SelectPartitions(batch, a);
      SelectIsSubsequence(batch, a, Again);
    }
  }

  /** The next call gets a subsequence of this one, made of exactly what this one left over. */
  ghost predicate NextCall<T(!new)>(c: Call<T>, d: Call<T>) {
    && Subsequence(d.batch, c.batch)
    && multiset(c.batch) == multiset(c.sent) + multiset(c.dropped) + multiset(d.batch)
  }

  /** An event already counted is never handed to the Sender again. */
  lemma {:induction false} NeverSentAgain<T(!new)>(calls: seq<Call<T>>, i: nat, j: nat, e: T)
    requires forall m :: 0 < m < |calls| ==> NextCall(calls[m - 1], calls[m])
    requires i < j < |calls| && multiset(calls[i].batch)[e] == 1
    requires e in calls[i].sent || e in calls[i].dropped
    ensures e !in calls[j].batch
  {
    if j == i + 1 {
      assert NextCall(calls[i], calls[j]);
      assert e in multiset(calls[i].sent) || e in multiset(calls[i].dropped);
      assert multiset(calls[j].batch)[e] == 0;
    } else {
      NeverSentAgain(calls, i, j - 1, e);
      assert NextCall(calls[j - 1], calls[j]);
      assert multiset(calls[j - 1].batch)[e] == 0;
      assert multiset(calls[j].batch)[e] == 0;
    }
  }

  // ---------------------------------------------------------------------------------------
  // The marks of dropPartial
  // ---------------------------------------------------------------------------------------

  /** One pass of marks: every index of list inside the batch, unless it is barred. */
  method Mark(list: seq<int>, barred: seq<bool>) returns (marks: seq<bool>)
    ensures |marks| == |barred|
    ensures forall i :: 0 <= i < |marks| ==> marks[i] == (i in list && !barred[i])
  {
    var a := new bool[|barred|](_ => false);
    for k := 0 to |list|
      invariant forall i :: 0 <= i < |barred| ==> a[i] == (i in list[..k] && !barred[i])
    {
      assert list[..k + 1] == list[..k] + [list[k]];
      if 0 <= list[k] < |barred| && !barred[list[k]] {
        a[list[k]] := true;
      }
    }
    assert list[..|list|] == list;
    marks := a[..];
  }

  lemma MarksMeanFate(a: Answer, isDropped: seq<bool>, isRetry: seq<bool>)
    requires a.Partial? && |isDropped| == |isRetry|
    requires forall i :: 0 <= i < |isDropped| ==> isDropped[i] == (i in a.dropped)
    requires forall i :: 0 <= i < |isRetry| ==> isRetry[i] == (i in a.retry && !isDropped[i])
    ensures forall i :: 0 <= i < |isDropped| ==>
      FateOf(a, i) == if isDropped[i] then Refused else if isRetry[i] then Again else Sent
  {
  }

  // ---------------------------------------------------------------------------------------
  // The worker's counters
  // ---------------------------------------------------------------------------------------

  class Worker<T> {
    const maxAttempts: int
    var sent: nat
    var dropped: nat
    var retries: nat
    var batches: nat
    /** Every batch the Sender was given, in order. */
    var received: seq<seq<T>>

    constructor (maxAttempts: int)
      ensures this.maxAttempts == maxAttempts
      ensures sent == dropped == retries == batches == 0 && received == []
    {
      this.maxAttempts := maxAttempts;
      sent, dropped, retries, batches, received := 0, 0, 0, 0, [];
    }

    /** dropPartial: two passes of marks, one pass over the batch. */
    method DropPartial(batch: seq<T>, a: Answer) returns (again: seq<T>)
      requires a.Partial?
      modifies this`sent, this`dropped
      ensures again == Select(batch, a, Again)
      ensures sent == old(sent) + |Select(batch, a, Sent)|
      ensures dropped == old(dropped) + |Select(batch, a, Refused)|
    {
      hide Select, FateOf;
      var isDropped := Mark(a.dropped, seq(|batch|, _ => false));
      var isRetry := Mark(a.retry, isDropped);
      MarksMeanFate(a, isDropped, isRetry);
      var refused := [];
      again := [];
      SelectNone<T>(a);
      for i := 0 to |batch|
        invariant refused == Select(batch[..i], a, Refused)
        invariant again == Select(batch[..i], a, Again)
        invariant sent == old(sent) && dropped == old(dropped)
      {
        SelectSnoc(batch, a, Refused, i);
        SelectSnoc(batch, a, Again, i);
        if isDropped[i] {
          refused := refused + [batch[i]];
        } else if isRetry[i] {
          again := again + [batch[i]];
        }
      }
      assert batch[..|batch|] == batch;
      SelectPartitions(batch, a);
      if |refused| > 0 {
        dropped := dropped + |refused|;
      }
      var accepted := |batch| - |refused| - |again|;
      if accepted > 0 {
        sent := sent + accepted;
      }
    }

    /** One attempt: the call, and what its answer settles. Events are left over unless the
        answer accepts them all or names none to send again. */
    method TryOnce(rest: seq<T>, answer: Answer) returns (left: seq<T>, ends: bool, ghost call: Call<T>)
      modifies this`sent, this`dropped, this`received
      ensures received == old(received) + [rest]
      ensures sent == old(sent) + |call.sent| && dropped == old(dropped) + |call.dropped|
      ensures call == CallOf(rest, answer) && left == LeftOf(rest, answer)
      ensures call.batch == rest && ends == Ends(rest, answer)
    {
      hide Select, FateOf;
      received := received + [rest];
      call := CallOf(rest, answer);
      left := rest;
      if answer.Accepted? {
        sent := sent + |rest|;
        left := [];
      } else if answer.Partial? {
        left := DropPartial(rest, answer);
      }
      ends := answer.Accepted? || (answer.Partial? && |left| == 0) || answer == Failed(true);
    }

    /** sendBatch: attempts until nothing is left, the answer is final, the worker closes, or
        the attempts run out. */
    method SendBatch(batch: seq<T>, answers: nat -> Answer, waits: nat -> bool)
      modifies this
      ensures var r := Attempts(batch, 1, maxAttempts, answers, waits);
        && sent == old(sent) + |AllSent(r.calls)|
        && dropped == old(dropped) + |AllDropped(r.calls)| + |r.abandoned|
        && received == old(received) + Batches(r.calls)
        && batches == old(batches) + 1
        && retries == old(retries) + (if r.calls == [] then 0 else |r.calls| - 1)
    {
      hide Select, FateOf, AllSent, AllDropped, Batches, Attempts, Onward, CallOf, LeftOf, Ends;
      CallsNone<T>();
      batches := batches + 1;
      var rest := batch;
      ghost var done: seq<Call<T>> := [];
      ghost var whole := Attempts(batch, 1, maxAttempts, answers, waits);
      var attempt := 1;
      while attempt <= maxAttempts
        invariant |done| == attempt - 1
        invariant sent == old(sent) + |AllSent(done)|
        invariant dropped == old(dropped) + |AllDropped(done)|
        invariant received == old(received) + Batches(done)
        invariant batches == old(batches) + 1
        invariant retries == old(retries) + (if done == [] then 0 else |done| - 1)
        invariant Continues(whole, done, Attempts(rest, attempt, maxAttempts, answers, waits))
      {
        ContinueStep(whole, done, rest, attempt, maxAttempts, answers, waits);
        if attempt > 1 {
          retries := retries + 1;
        }
        ghost var call;
        var answer := answers(attempt);
        var ends;
        rest, ends, call := TryOnce(rest, answer);
        CallsSnoc(done, call);
        done := done + [call];
        if ends || (attempt < maxAttempts && !waits(attempt)) {
          break;
        }
        attempt := attempt + 1;
      }
      AttemptsOver(rest, attempt, maxAttempts, answers, waits);
      assert whole.calls == done && whole.abandoned == rest;
      dropped := dropped + |rest|;
    }
  }

  /** What a call settles: all of it, or the events an answer names. */
  function CallOf<T>(rest: seq<T>, a: Answer): Call<T> {
    match a
    case Accepted => Call(rest, rest, [])
    case Partial(_, _) => Call(rest, Select(rest, a, Sent), Select(rest, a, Refused))
    case _ => Call(rest, [], [])
  }

  function LeftOf<T>(rest: seq<T>, a: Answer): seq<T> {
    match a
    case Accepted => []
    case Partial(_, _) => Select(rest, a, Again)
    case _ => rest
  }

  lemma AttemptsOver<T>(rest: seq<T>, k: nat, max: int, answers: nat -> Answer, waits: nat -> bool)
    ensures k > max ==> Attempts(rest, k, max, answers, waits) == Result([], rest)
  {
  }

  /** Whether sendBatch ends with this attempt. */
  predicate Ends<T>(rest: seq<T>, a: Answer) {
    a.Accepted? || a == Failed(true) || (a.Partial? && LeftOf(rest, a) == [])
  }

  /** What one attempt makes of the events it is given. */
  lemma AttemptStep<T>(rest: seq<T>, k: nat, max: int, answers: nat -> Answer, waits: nat -> bool)
    requires k <= max
    ensures var a, r := answers(k), Attempts(rest, k, max, answers, waits);
      var left := LeftOf(rest, a);
      var later := Attempts(left, k + 1, max, answers, waits);
      if Ends(rest, a) || (k < max && !waits(k)) then r.calls == [CallOf(rest, a)] && r.abandoned == left
      else r.calls == [CallOf(rest, a)] + later.calls && r.abandoned == later.abandoned
  {
    hide Select, FateOf;
  }

  function Batches<T>(calls: seq<Call<T>>): (r: seq<seq<T>>)
    ensures |r| == |calls| && forall i :: 0 <= i < |r| ==> r[i] == calls[i].batch
  {
    seq(|calls|, i requires 0 <= i < |calls| => calls[i].batch)
  }

  /** The whole result is the calls done so far, and then what is still to come. */
  ghost predicate Continues<T>(whole: Result<T>, done: seq<Call<T>>, r: Result<T>) {
    whole.calls == done + r.calls && whole.abandoned == r.abandoned
  }

  lemma ContinueStep<T>(whole: Result<T>, done: seq<Call<T>>, rest: seq<T>, k: nat, max: int,
                              answers: nat -> Answer, waits: nat -> bool)
    requires k <= max && Continues(whole, done, Attempts(rest, k, max, answers, waits))
    ensures var a := answers(k);
      if Ends(rest, a) || (k < max && !waits(k)) then whole == Result(done + [CallOf(rest, a)], LeftOf(rest, a))
      else Continues(whole, done + [CallOf(rest, a)], Attempts(LeftOf(rest, a), k + 1, max, answers, waits))
  {
    hide Attempts, CallOf, LeftOf, Ends;
    AttemptStep(rest, k, max, answers, waits);
  }

  lemma CallsNone<T>()
    ensures AllSent<T>([]) == [] && AllDropped<T>([]) == []
  {
  }

  lemma CallsSnoc<T>(calls: seq<Call<T>>, c: Call<T>)
    ensures AllSent(calls + [c]) == AllSent(calls) + c.sent
    ensures AllDropped(calls + [c]) == AllDropped(calls) + c.dropped
    ensures Batches(calls + [c]) == Batches(calls) + [c.batch]
  {
    assert (calls + [c])[..|calls|] == calls;
  }

  /** Sent plus dropped grows by exactly the batch, whatever the Sender answers. */
  lemma SendConserves<T>(batch: seq<T>, max: int, answers: nat -> Answer, waits: nat -> bool)
    ensures var r := Attempts(batch, 1, max, answers, waits);
      |AllSent(r.calls)| + |AllDropped(r.calls)| + |r.abandoned| == |batch|
  {
    var r := Attempts(batch, 1, max, answers, waits);
    AttemptsConserve(batch, 1, max, answers, waits);
    assert |multiset(AllSent(r.calls)) + multiset(AllDropped(r.calls)) + multiset(r.abandoned)|
        == |AllSent(r.calls)| + |AllDropped(r.calls)| + |r.abandoned|;
    assert |multiset(batch)| == |batch|;
  }
}
