/**
 pipeline/pipeline.go, sendBatch and dropPartial: the calls a batch gets, one by one, what each
 settles, and why they end.
 */
module RetryCalls {
  import opened Retry

  /** The fate of the event at index i. Dropped wins over retried, and an index outside the batch
      names no event. */
  predicate Meets(a: Answer, i: int, fate: Fate)
    requires a.Partial?
  {
    match fate
    case Refused => i in a.dropped
    case Again => i in a.retry && i !in a.dropped
    case Sent => i !in a.retry && i !in a.dropped
  }

  /** The events of one fate are those at its places, in batch order. */
  lemma {:induction false} SelectPlaces<T>(batch: seq<T>, a: Answer, fate: Fate) returns (places: seq<nat>)
    requires a.Partial?
    ensures |places| == |Select(batch, a, fate)|
    ensures forall j :: 0 <= j < |places| ==> places[j] < |batch| && Select(batch, a, fate)[j] == batch[places[j]]
    ensures forall i, j :: 0 <= i < j < |places| ==> places[i] < places[j]
    ensures forall i :: 0 <= i < |batch| ==> (i in places <==> Meets(a, i, fate))
  {
    places := [];
    if batch != [] {
      var n := |batch| - 1;
      places := SelectPlaces(batch[..n], a, fate);
      if FateOf(a, n) == fate {
        places := places + [n];
      }
    }
  }

  ghost predicate Settles<T(!new)>(c: Call<T>, a: Answer) {
    && (a.Accepted? ==> c.sent == c.batch && c.dropped == [])
    && (a.Partial? ==> c.sent == Select(c.batch, a, Sent) && c.dropped == Select(c.batch, a, Refused))
    && (a.Failed? || a.NilPartial? ==> c.sent == [] && c.dropped == [])
  }

  ghost predicate Leaves<T(!new)>(c: Call<T>, a: Answer, left: seq<T>) {
    && (a.Accepted? ==> left == [])
    && (a.Partial? ==> left == Select(c.batch, a, Again))
    && (a.Failed? || a.NilPartial? ==> left == c.batch)
  }

  /** The answer asks for another try, and the wait before it ended in time. */
  ghost predicate GoesOn<T(!new)>(a: Answer, left: seq<T>, waited: bool) {
    waited && a != Failed(true) && (a.Accepted? || a.Partial? ==> left != [])
  }

  /** Call i settles what its answer says. What it leaves goes to the next call, when the answer
      asks for one and the wait before it ended in time; else, or when this was attempt max, what
      it leaves is dropped. */
  ghost predicate CallSays<T(!new)>(r: Result<T>, i: nat, k: nat, max: int, answers: nat -> Answer, waits: nat -> bool)
    requires i < |r.calls|
  {
    var last := i + 1 == |r.calls|;
    var left := if last then r.abandoned else r.calls[i + 1].batch;
    && Settles(r.calls[i], answers(k + i)) && Leaves(r.calls[i], answers(k + i), left)
    && (!last ==> k + i < max && GoesOn(answers(k + i), left, waits(k + i)))
    && (last ==> k + i == max || (k + i < max && !GoesOn(answers(k + i), left, waits(k + i))))
  }

  lemma CallLater<T(!new)>(c: Call<T>, later: Result<T>, i: nat, k: nat, max: int, answers: nat -> Answer, waits: nat -> bool)
    requires i < |later.calls| && CallSays(later, i, k + 1, max, answers, waits)
    ensures CallSays(Result([c] + later.calls, later.abandoned), i + 1, k, max, answers, waits)
  {
    hide Settles, Leaves, GoesOn;
    assert (k + 1) + i == k + (i + 1);
  }

  /** The calls of a batch from attempt k on. There is none exactly when no attempt is left. */
  lemma {:induction false} AttemptsExactly<T(!new)>(batch: seq<T>, k: nat, max: int, answers: nat -> Answer, waits: nat -> bool)
    ensures var r := Attempts(batch, k, max, answers, waits);
      && (r.calls == [] <==> k > max)
      && (if r.calls == [] then r.abandoned == batch else r.calls[0].batch == batch)
      && forall i :: 0 <= i < |r.calls| ==> CallSays(r, i, k, max, answers, waits)
    decreases max - k
  {
    hide Attempts, CallSays, CallOf, LeftOf;
    if k > max {
      AttemptsOver(batch, k, max, answers, waits);
    } else {
      AttemptStep(batch, k, max, answers, waits);
      var a, left := answers(k), LeftOf(batch, answers(k));
      var r, later := Attempts(batch, k, max, answers, waits), Attempts(left, k + 1, max, answers, waits);
      AttemptsExactly(left, k + 1, max, answers, waits);
      FirstCall(batch, k, max, answers, waits, r, later);
      if |r.calls| > 1 {
        forall i | 0 < i < |r.calls|
          ensures CallSays(r, i, k, max, answers, waits)
        {
          CallLater(CallOf(batch, a), later, i - 1, k, max, answers, waits);
        }
      }
    }
  }

  lemma FirstCall<T(!new)>(batch: seq<T>, k: nat, max: int, answers: nat -> Answer, waits: nat -> bool,
                           r: Result<T>, later: Result<T>)
    requires k <= max
    requires later.calls == [] <==> k + 1 > max
    requires var left := LeftOf(batch, answers(k));
      if later.calls == [] then later.abandoned == left else later.calls[0].batch == left
    requires var a := answers(k);
      if Ends(batch, a) || (k < max && !waits(k)) then r == Result([CallOf(batch, a)], LeftOf(batch, a))
      else r == Result([CallOf(batch, a)] + later.calls, later.abandoned)
    ensures CallSays(r, 0, k, max, answers, waits)
    ensures r.calls[0].batch == batch
  {
    hide Select, FateOf;
  }
}
