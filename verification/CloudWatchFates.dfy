/**
 Every event of a CloudWatch batch ends as exactly one of landed, dropped or sent again, and
 the pipeline reads it so.
 */
module CloudWatchFates {
  import opened GoBytes
  import opened CloudWatch
  import opened CloudWatchSend
  import Retry

  // ---------------------------------------------------------------------------------------
  // The shape of the answer
  // ---------------------------------------------------------------------------------------

  /** The first chunk from k on whose request failed, or the number of chunks. */
  function FirstFault(chunks: seq<seq<Entry>>, k: nat, api: nat -> ApiAnswer): (f: nat)
    requires k <= |chunks|
    ensures k <= f <= |chunks|
    ensures forall c :: k <= c < f ==> api(c).Put?
    ensures f < |chunks| ==> api(f).Refuse?
    decreases |chunks| - k
  {
    if k == |chunks| || api(k).Refuse? then k else FirstFault(chunks, k + 1, api)
  }

  /** The service rejected the entry at p of the c-th chunk, whose request it accepted. */
  predicate Rejected(chunks: seq<seq<Entry>>, api: nat -> ApiAnswer, c: nat, p: nat)
    requires c < |chunks|
  {
    api(c).Put? && api(c).info.Some? && RejectedAt(api(c).info.value, |chunks[c]|, p)
  }

  /** The indexes of the rejected entries of the chunks before the first fault. */
  ghost predicate RejectedBefore(chunks: seq<seq<Entry>>, api: nat -> ApiAnswer, k: nat, f: nat, i: int) {
    exists c, p :: k <= c < f && c < |chunks| && 0 <= p < |chunks[c]| && chunks[c][p].index == i && Rejected(chunks, api, c, p)
  }

  lemma RejectedStep(chunks: seq<seq<Entry>>, api: nat -> ApiAnswer, k: nat, f: nat, i: int)
    requires k < f <= |chunks| && api(k).Put?
    ensures RejectedBefore(chunks, api, k, f, i) <==>
      (api(k).info.Some? && i in RejectedList(chunks[k], api(k).info.value)) || RejectedBefore(chunks, api, k + 1, f, i)
  {
    if api(k).info.Some? {
      RejectedMeaning(chunks[k], api(k).info.value, i);
      hide RejectedAt, RejectedList;
      if i in RejectedList(chunks[k], api(k).info.value) {
        var p :| 0 <= p < |chunks[k]| && chunks[k][p].index == i && RejectedAt(api(k).info.value, |chunks[k]|, p);
        assert Rejected(chunks, api, k, p);
      }
    }
    if RejectedBefore(chunks, api, k, f, i) {
      var c, p :| k <= c < f && 0 <= p < |chunks[c]| && chunks[c][p].index == i && Rejected(chunks, api, c, p);
      if c != k {
        assert k + 1 <= c;
      }
    }
  }

  /** A nil or partial answer: what is dropped, what is retried, and when neither. */
  lemma {:induction false} AnswerShape(chunks: seq<seq<Entry>>, k: nat, dropped: seq<int>, api: nat -> ApiAnswer)
    requires k <= |chunks|
    ensures var a, f := PutFrom(chunks, k, dropped, api), FirstFault(chunks, k, api);
      && (a.Partial? ==>
            && (forall i :: i in a.dropped <==> i in dropped || RejectedBefore(chunks, api, k, f, i))
            && a.retry == (if f < |chunks| then Indexes(Concat(chunks[f..])) else []))
      && (a.Accepted? ==> f == |chunks| && dropped == [] && forall i :: !RejectedBefore(chunks, api, k, f, i))
    decreases |chunks| - k
  {
    hide RejectedList, Indexes, CloudWatch.Concat, Rejected, RejectedBefore;
    var f := FirstFault(chunks, k, api);
    if k == f {
      NoneRejected(chunks, api, k);
    } else {
      var next := if api(k).info.Some? then dropped + RejectedList(chunks[k], api(k).info.value) else dropped;
      AnswerShape(chunks, k + 1, next, api);
      forall i
        ensures RejectedBefore(chunks, api, k, f, i) || i in dropped <==> i in next || RejectedBefore(chunks, api, k + 1, f, i)
      {
        RejectedStep(chunks, api, k, f, i);
      }
    }
  }

  /** The answer is an error for the whole batch exactly when the first fault is not retryable.
      The chunks before it have landed all the same: after a transport fault the pipeline sends
      them again with the rest, and after a permanent one it counts them as dropped. */
  lemma {:induction false} WholeBatchFails(chunks: seq<seq<Entry>>, k: nat, dropped: seq<int>, api: nat -> ApiAnswer, final: bool)
    requires k <= |chunks|
    ensures PutFrom(chunks, k, dropped, api) == Retry.Failed(final) <==>
      FirstFault(chunks, k, api) < |chunks|
      && api(FirstFault(chunks, k, api)).fault == if final then Permanent else Transport
    decreases |chunks| - k
  {
    hide RejectedList, Indexes, CloudWatch.Concat;
    if k < FirstFault(chunks, k, api) {
      var next := if api(k).info.Some? then dropped + RejectedList(chunks[k], api(k).info.value) else dropped;
      WholeBatchFails(chunks, k + 1, next, api, final);
    }
  }

  lemma NoneRejected(chunks: seq<seq<Entry>>, api: nat -> ApiAnswer, k: nat)
    ensures forall i :: !RejectedBefore(chunks, api, k, k, i)
  {
  }

  // ---------------------------------------------------------------------------------------
  // One place for each index
  // ---------------------------------------------------------------------------------------

  function Offset(chunks: seq<seq<Entry>>, c: nat): nat
    requires c <= |chunks|
  {
    |Concat(chunks[..c])|
  }

  lemma OffsetStep(chunks: seq<seq<Entry>>, c: nat)
    requires c < |chunks|
    ensures Offset(chunks, c + 1) == Offset(chunks, c) + |chunks[c]|
    ensures Concat(chunks[..c + 1]) == Concat(chunks[..c]) + chunks[c]
  {
    assert chunks[..c + 1] == chunks[..c] + [chunks[c]];
    ConcatSnoc(chunks[..c], chunks[c]);
  }

  lemma {:induction false} PrefixStays(chunks: seq<seq<Entry>>, c: nat, d: nat)
    requires c <= d <= |chunks|
    ensures Offset(chunks, c) <= Offset(chunks, d)
    ensures Concat(chunks[..d])[..Offset(chunks, c)] == Concat(chunks[..c])
    decreases d - c
  {
    if c < d {
      hide CloudWatch.Concat;
      PrefixStays(chunks, c, d - 1);
      OffsetStep(chunks, d - 1);
    }
  }

  lemma PlaceOf(chunks: seq<seq<Entry>>, c: nat, p: nat)
    requires c < |chunks| && p < |chunks[c]|
    ensures Offset(chunks, c) + p < |Concat(chunks)|
    ensures Concat(chunks)[Offset(chunks, c) + p] == chunks[c][p]
  {
    hide CloudWatch.Concat;
    OffsetStep(chunks, c);
    PrefixStays(chunks, c + 1, |chunks|);
    assert chunks[..|chunks|] == chunks;
    assert Concat(chunks)[..Offset(chunks, c + 1)][Offset(chunks, c) + p] == chunks[c][p];
  }

  ghost predicate DistinctIndexes(s: seq<Entry>) {
    forall x, y :: 0 <= x < y < |s| ==> s[x].index != s[y].index
  }

  lemma OnePlace(chunks: seq<seq<Entry>>, c: nat, p: nat, d: nat, q: nat)
    requires DistinctIndexes(Concat(chunks))
    requires c < |chunks| && p < |chunks[c]| && d < |chunks| && q < |chunks[d]|
    requires chunks[c][p].index == chunks[d][q].index
    ensures c == d && p == q
  {
    hide CloudWatch.Concat;
    PlaceOf(chunks, c, p);
    PlaceOf(chunks, d, q);
    OffsetStep(chunks, c);
    OffsetStep(chunks, d);
    if c < d {
      PrefixStays(chunks, c + 1, d);
    } else if d < c {
      PrefixStays(chunks, d + 1, c);
    }
  }

  lemma {:induction false} FindPlace(chunks: seq<seq<Entry>>, e: Entry) returns (c: nat, p: nat)
    requires e in Concat(chunks)
    ensures c < |chunks| && p < |chunks[c]| && chunks[c][p] == e
  {
    var n := |chunks| - 1;
    if e in chunks[n] {
      c := n;
      p :| 0 <= p < |chunks[n]| && chunks[n][p] == e;
    } else {
      c, p := FindPlace(chunks[..n], e);
    }
  }

  lemma SortedDistinct(es: seq<Entry>)
    requires Increasing(es)
    ensures DistinctIndexes(StableSort(es))
  {
    SortOrders(es);
    var s := StableSort(es);
    hide StableSort;
    forall x, y | 0 <= x < y < |s|
      ensures s[x].index != s[y].index
    {
      assert Before(s[x], s[y]);
      assert s[x] in multiset(es) && s[y] in multiset(es);
      var a :| 0 <= a < |es| && es[a] == s[x];
      var b :| 0 <= b < |es| && es[b] == s[y];
      assert a != b;
    }
  }

  // ---------------------------------------------------------------------------------------
  // The fate of each event
  // ---------------------------------------------------------------------------------------

  ghost predicate Splits(texts: seq<string>, times: seq<int>, chunks: seq<seq<Entry>>)
    requires |texts| == |times|
  {
    Concat(chunks) == StableSort(EntriesOf(texts, times))
  }

  lemma RetriedLater(chunks: seq<seq<Entry>>, f: nat, c: nat, p: nat)
    requires f <= |chunks| && DistinctIndexes(Concat(chunks)) && c < |chunks| && p < |chunks[c]|
    ensures chunks[c][p].index in Indexes(Concat(chunks[f..])) <==> c >= f
  {
    hide CloudWatch.Concat, DistinctIndexes;
    var rest := chunks[f..];
    if c >= f {
      PlaceOf(rest, c - f, p);
      assert Indexes(Concat(rest))[Offset(rest, c - f) + p] == chunks[c][p].index;
    }
    if chunks[c][p].index in Indexes(Concat(rest)) {
      var x :| 0 <= x < |Concat(rest)| && Indexes(Concat(rest))[x] == chunks[c][p].index;
      var d, q := FindPlace(rest, Concat(rest)[x]);
      OnePlace(chunks, c, p, f + d, q);
    }
  }

  lemma RejectedHere(chunks: seq<seq<Entry>>, api: nat -> ApiAnswer, f: nat, c: nat, p: nat)
    requires DistinctIndexes(Concat(chunks)) && f <= |chunks| && c < |chunks| && p < |chunks[c]|
    ensures RejectedBefore(chunks, api, 0, f, chunks[c][p].index) <==> c < f && Rejected(chunks, api, c, p)
  {
    hide CloudWatch.Concat, DistinctIndexes, Rejected;
    if RejectedBefore(chunks, api, 0, f, chunks[c][p].index) {
      var d, q :| 0 <= d < f && d < |chunks| && 0 <= q < |chunks[d]| && chunks[d][q].index == chunks[c][p].index
        && Rejected(chunks, api, d, q);
      OnePlace(chunks, c, p, d, q);
    }
  }

  /** An event too large for any request is dropped. */
  lemma LargeIsDropped(texts: seq<string>, times: seq<int>, chunks: seq<seq<Entry>>, api: nat -> ApiAnswer, i: nat)
    requires |texts| == |times| && Splits(texts, times, chunks) && i < |texts| && |texts[i]| + 26 > 1_048_576
    ensures var a := PutFrom(chunks, 0, LargeOnes(texts), api);
      !a.Accepted? && (a.Partial? ==> Retry.FateOf(a, i) == Retry.Refused)
  {
    hide CloudWatch.Concat, EntriesOf, LargeOnes, TooLarge, RejectedBefore;
    LargeMeans(texts[i]);
    EntryFor(texts, times, i);
    AnswerShape(chunks, 0, LargeOnes(texts), api);
  }

  function Expected(unsent: bool, rejected: bool): Retry.Fate {
    if unsent then Retry.Again else if rejected then Retry.Refused else Retry.Sent
  }

  /** Any other event stands in exactly one chunk, and when the answer is nil or partial: it is
      sent again if its chunk's request failed retryably or comes later, dropped if the service
      rejected its position, and otherwise it landed and counts as sent. */
  lemma FateOfEvent(texts: seq<string>, times: seq<int>, chunks: seq<seq<Entry>>, api: nat -> ApiAnswer, i: nat)
    returns (c: nat, p: nat)
    requires |texts| == |times| && Splits(texts, times, chunks) && i < |texts| && |texts[i]| + 26 <= 1_048_576
    ensures c < |chunks| && p < |chunks[c]| && chunks[c][p].index == i
    ensures forall d, q :: 0 <= d < |chunks| && 0 <= q < |chunks[d]| && chunks[d][q].index == i ==> d == c && q == p
    ensures var a, f := PutFrom(chunks, 0, LargeOnes(texts), api), FirstFault(chunks, 0, api);
      && (a.Accepted? ==> c < f && !Rejected(chunks, api, c, p))
      && (a.Partial? ==> Retry.FateOf(a, i) == Expected(c >= f, Rejected(chunks, api, c, p)))
  {
    hide CloudWatch.Concat, EntriesOf, LargeOnes, TooLarge, RejectedBefore, Rejected, PutFrom, Indexes, StableSort, FirstFault;
    var es := EntriesOf(texts, times);
    LargeMeans(texts[i]);
    EntryFor(texts, times, i);
    EntriesInOrder(texts, times);
    SortedDistinct(es);
    SortOrders(es);
    var x :| 0 <= x < |es| && es[x].index == i;
    assert es[x] in multiset(StableSort(es));
    c, p := FindPlace(chunks, es[x]);
    forall d, q | 0 <= d < |chunks| && 0 <= q < |chunks[d]| && chunks[d][q].index == i
      ensures d == c && q == p
    {
      OnePlace(chunks, c, p, d, q);
    }
    AnswerShape(chunks, 0, LargeOnes(texts), api);
    var f := FirstFault(chunks, 0, api);
    RetriedLater(chunks, f, c, p);
    RejectedHere(chunks, api, f, c, p);
    assert chunks[|chunks|..] == [];
  }

  // ---------------------------------------------------------------------------------------
  // Entries that landed and are not counted as sent
  // ---------------------------------------------------------------------------------------

  /** The service took the entry: its request was accepted, and its position not rejected. */
  predicate LandedAt(chunks: seq<seq<Entry>>, api: nat -> ApiAnswer, c: nat, p: nat)
    requires c < |chunks|
  {
    c < FirstFault(chunks, 0, api) && !Rejected(chunks, api, c, p)
  }

  /** What the pipeline does with the event at batch index i after this answer: it sends it
      again, or it counts it as dropped. */
  predicate NotCountedSent(a: Retry.Answer, i: nat) {
    a.Failed? || a.NilPartial? || (a.Partial? && Retry.FateOf(a, i) != Retry.Sent)
  }

  /** An entry that landed is sent again or counted as dropped exactly when the first fault comes
      after its chunk and is not retryable: again after a transport fault, dropped after a
      permanent one. */
  lemma LandedIsLost(texts: seq<string>, times: seq<int>, chunks: seq<seq<Entry>>, api: nat -> ApiAnswer, c: nat, p: nat)
    requires |texts| == |times| && Splits(texts, times, chunks)
    requires c < |chunks| && p < |chunks[c]| && LandedAt(chunks, api, c, p)
    ensures chunks[c][p].index < |texts|
    ensures var a, f := PutFrom(chunks, 0, LargeOnes(texts), api), FirstFault(chunks, 0, api);
      NotCountedSent(a, chunks[c][p].index) <==> c < f < |chunks| && !api(f).fault.Retryable?
  {
    hide CloudWatch.Concat, EntriesOf, LargeOnes, TooLarge, RejectedBefore, Rejected, PutFrom, Indexes, StableSort, FirstFault;
    var f := FirstFault(chunks, 0, api);
    FitsAlone(texts, times, chunks, c, p);
    LargeMeans(texts[chunks[c][p].index]);
    var d, q := FateOfEvent(texts, times, chunks, api, chunks[c][p].index);
    WholeBatchFails(chunks, 0, LargeOnes(texts), api, true);
    WholeBatchFails(chunks, 0, LargeOnes(texts), api, false);
    AnswerIsPlain(chunks, 0, LargeOnes(texts), api);
  }

  lemma {:induction false} AnswerIsPlain(chunks: seq<seq<Entry>>, k: nat, dropped: seq<int>, api: nat -> ApiAnswer)
    requires k <= |chunks|
    ensures !PutFrom(chunks, k, dropped, api).NilPartial?
    decreases |chunks| - k
  {
    hide RejectedList, Indexes, CloudWatch.Concat;
    if k == |chunks| || api(k).Refuse? {
    } else {
      AnswerIsPlain(chunks, k + 1, if api(k).info.Some? then dropped + RejectedList(chunks[k], api(k).info.value) else dropped, api);
    }
  }

  /** An entry in a chunk is an event of the batch that fits a request. */
  lemma FitsAlone(texts: seq<string>, times: seq<int>, chunks: seq<seq<Entry>>, c: nat, p: nat)
    requires |texts| == |times| && Splits(texts, times, chunks) && c < |chunks| && p < |chunks[c]|
    ensures chunks[c][p].index < |texts| && !TooLarge(texts[chunks[c][p].index])
  {
    hide CloudWatch.Concat, StableSort, EntriesOf, TooLarge;
    var es := EntriesOf(texts, times);
    PlaceOf(chunks, c, p);
    EntriesInOrder(texts, times);
    SortOrders(es);
    var e := chunks[c][p];
    assert e in Concat(chunks);
    assert e in multiset(StableSort(es));
    assert e in multiset(es);
    var x :| 0 <= x < |es| && es[x] == e;
    EntryFor(texts, times, e.index);
    assert EntriesOf(texts, times)[x].index == e.index;
  }

  lemma NoChunks()
    ensures Concat([]) == [] && Bytes([]) == 0
  {
  }

  lemma OneFits(e: Entry)
    requires Size(e) <= MAX_BYTES
    ensures Fits([e])
  {
    BytesSnoc([], e);
    NoChunks();
    assert [] + [e] == [e];
  }

  lemma SortedPair(a: Entry, b: Entry)
    requires a.timestamp <= b.timestamp
    ensures StableSort([a, b]) == [a, b]
  {
    assert [a, b][..1] == [a] && [a][..0] == [];
    assert StableSort([a]) == Insert(StableSort([]), a) == [a];
    assert StableSort([a, b]) == Insert([a], b);
  }

  lemma TwoEntries(t: int)
    ensures EntriesOf(["first", "second"], [t, t + MAX_SPAN]) == [Entry(0, t, "first"), Entry(1, t + MAX_SPAN, "second")]
    ensures LargeOnes(["first", "second"]) == []
  {
    var texts, times := ["first", "second"], [t, t + MAX_SPAN];
    assert |"first"| == 5 && |"second"| == 6;
    assert texts[..1] == ["first"] && times[..1] == [t] && texts[..1][..0] == [] && times[..1][..0] == [];
    assert EntriesOf([], []) == [] && LargeOnes([]) == [];
    assert EntriesOf(["first"], [t]) == [] + [Entry(0, t, "first")];
    assert LargeOnes(["first"]) == [];
  }

  lemma DayApart(t: int)
    ensures var a, b := Entry(0, t, "first"), Entry(1, t + MAX_SPAN, "second");
      && Splits(["first", "second"], [t, t + MAX_SPAN], [[a], [b]]) && Fits([a]) && Fits([b]) && Greedy([[a], [b]])
      && LargeOnes(["first", "second"]) == []
  {
    hide Fits, EntriesOf, LargeOnes, StableSort, CloudWatch.Concat;
    var a, b := Entry(0, t, "first"), Entry(1, t + MAX_SPAN, "second");
    var texts, times := ["first", "second"], [t, t + MAX_SPAN];
    TwoEntries(t);
    assert StableSort([a, b]) == [a, b] by {
      SortedPair(a, b);
    }
    ConcatSnoc([], [a]);
    ConcatSnoc([[a]], [b]);
    assert [] + [[a]] == [[a]] && [[a]] + [[b]] == [[a], [b]] && [] + [a] == [a] && [a] + [b] == [a, b];
    NoChunks();
    OneFits(a);
    OneFits(b);
    Crowds([a], b);
  }

  /** Two small events a day apart, which go into two chunks: the first lands and the second meets
      a fault that is not retryable. The event that landed is sent again, or counted as dropped. */
  lemma LandedThenFault(t: int, api: nat -> ApiAnswer, final: bool)
    requires api(0) == Put(None) && api(1) == Refuse(if final then Permanent else Transport)
    ensures var a, b := Entry(0, t, "first"), Entry(1, t + MAX_SPAN, "second");
      var chunks := [[a], [b]];
      && Splits(["first", "second"], [t, t + MAX_SPAN], chunks) && Fits([a]) && Fits([b]) && Greedy(chunks)
      && LandedAt(chunks, api, 0, 0)
      && PutFrom(chunks, 0, LargeOnes(["first", "second"]), api) == Retry.Failed(final)
      && NotCountedSent(Retry.Failed(final), 0)
      && (!final ==> Retry.LeftOf([a, b], Retry.Failed(false)) == [a, b])
      && (final ==> Retry.Attempts([a, b], 1, 1, k => Retry.Failed(true), k => true).abandoned == [a, b])
  {
    hide CloudWatch.Concat, Indexes, Splits, Greedy, EntriesOf, LargeOnes;
    var a, b := Entry(0, t, "first"), Entry(1, t + MAX_SPAN, "second");
    var chunks := [[a], [b]];
    DayApart(t);
    assert FirstFault(chunks, 1, api) == 1;
    assert FirstFault(chunks, 0, api) == 1;
    assert PutFrom(chunks, 1, [], api) == Retry.Failed(final);
  }
}
