/**
 drain/cloudwatch/cloudwatch.go, SendBatch and putChunk: what becomes of each event of a batch,
 and what the pipeline's dropPartial makes of the answer.
 */
module CloudWatchSend {
  import opened GoBytes
  import opened CloudWatch
  import Retry

  /** RejectedLogEventsInfo: a start for the too new, ends for the too old and the expired. */
  datatype Info = Info(tooNew: Option<int>, tooOld: Option<int>, expired: Option<int>)

  /** One PutLogEvents call. A fault is retryable or permanent by its code, or a transport error,
      which says neither. */
  datatype Fault = Retryable | Permanent | Transport
  datatype ApiAnswer = Put(info: Option<Info>) | Refuse(fault: Fault)

  function Clamp(index: int, size: nat): (r: nat)
    ensures r <= size
    ensures 0 <= index <= size ==> r == index
  {
    if index < 0 then 0 else if index > size then size else index
  }

  /** The service rejected the entry at position p of a chunk of this size. */
  predicate RejectedAt(info: Info, size: nat, p: nat) {
    && p < size
    && (|| (info.tooNew.Some? && info.tooNew.value <= p)
        || (info.tooOld.Some? && p < info.tooOld.value)
        || (info.expired.Some? && p < info.expired.value))
  }

  function Indexes(s: seq<Entry>): (r: seq<int>)
    ensures |r| == |s| && forall p :: 0 <= p < |r| ==> r[p] == s[p].index
  {
    seq(|s|, p requires 0 <= p < |s| => s[p].index)
  }

  function RejectedList(chunk: seq<Entry>, info: Info): seq<int> {
    (if info.tooNew.Some? then Indexes(chunk[Clamp(info.tooNew.value, |chunk|)..]) else [])
    + (if info.tooOld.Some? then Indexes(chunk[..Clamp(info.tooOld.value, |chunk|)]) else [])
    + (if info.expired.Some? then Indexes(chunk[..Clamp(info.expired.value, |chunk|)]) else [])
  }

  /** One range loop: the indexes of the entries from one position up to another. */
  method AppendRange(list: seq<int>, chunk: seq<Entry>, from: nat, to: nat) returns (r: seq<int>)
    requires from <= to <= |chunk|
    ensures r == list + Indexes(chunk[from..to])
  {
    r := list;
    for i := from to to
      invariant r == list + Indexes(chunk[from..i])
    {
      assert chunk[from..i + 1] == chunk[from..i] + [chunk[i]];
      r := r + [chunk[i].index];
    }
  }

  /** putChunk's mapping of an accepted request, one loop per range. */
  method MapRejected(chunk: seq<Entry>, info: Info) returns (dropped: seq<int>)
    ensures dropped == RejectedList(chunk, info)
  {
    hide Indexes, Clamp;
    var n := |chunk|;
    assert chunk[..n] == chunk;
    dropped := [];
    if info.tooNew.Some? {
      dropped := AppendRange(dropped, chunk, Clamp(info.tooNew.value, n), n);
      assert chunk[Clamp(info.tooNew.value, n)..n] == chunk[Clamp(info.tooNew.value, n)..];
    }
    if info.tooOld.Some? {
      dropped := AppendRange(dropped, chunk, 0, Clamp(info.tooOld.value, n));
    }
    if info.expired.Some? {
      dropped := AppendRange(dropped, chunk, 0, Clamp(info.expired.value, n));
    }
  }

  /** An index is listed exactly when the entry that carries it stands at a rejected position. */
  lemma RejectedMeaning(chunk: seq<Entry>, info: Info, i: int)
    ensures i in RejectedList(chunk, info) <==>
      exists p :: 0 <= p < |chunk| && chunk[p].index == i && RejectedAt(info, |chunk|, p)
  {
    var n := |chunk|;
    if i in RejectedList(chunk, info) {
      if info.tooNew.Some? && i in Indexes(chunk[Clamp(info.tooNew.value, n)..]) {
        var c := Clamp(info.tooNew.value, n);
        var q :| 0 <= q < n - c && Indexes(chunk[c..])[q] == i;
        assert chunk[c + q].index == i && RejectedAt(info, n, c + q);
      } else if info.tooOld.Some? && i in Indexes(chunk[..Clamp(info.tooOld.value, n)]) {
        var q :| 0 <= q < Clamp(info.tooOld.value, n) && Indexes(chunk[..Clamp(info.tooOld.value, n)])[q] == i;
        assert chunk[q].index == i && RejectedAt(info, n, q);
      } else {
        var q :| 0 <= q < Clamp(info.expired.value, n) && Indexes(chunk[..Clamp(info.expired.value, n)])[q] == i;
        assert chunk[q].index == i && RejectedAt(info, n, q);
      }
    }
    forall p | 0 <= p < n && chunk[p].index == i && RejectedAt(info, n, p)
      ensures i in RejectedList(chunk, info)
    {
      if info.tooNew.Some? && Clamp(info.tooNew.value, n) <= p {
        var c := Clamp(info.tooNew.value, n);
        assert Indexes(chunk[c..])[p - c] == i;
      } else if info.tooOld.Some? && p < Clamp(info.tooOld.value, n) {
        assert Indexes(chunk[..Clamp(info.tooOld.value, n)])[p] == i;
      } else {
        assert Indexes(chunk[..Clamp(info.expired.value, n)])[p] == i;
      }
    }
  }

  // ---------------------------------------------------------------------------------------
  // SendBatch
  // ---------------------------------------------------------------------------------------

  predicate TooLarge(message: string) {
    |message| + PER_EVENT_OVERHEAD > MAX_BYTES
  }

  lemma LargeMeans(message: string)
    ensures TooLarge(message) <==> |message| + 26 > 1_048_576
  {
  }

  /** One entry for each event a request can carry. */
  function EntriesOf(messages: seq<string>, times: seq<int>): seq<Entry>
    requires |messages| == |times|
  {
    if messages == [] then []
    else
      var n := |messages| - 1;
      var front := EntriesOf(messages[..n], times[..n]);
      if TooLarge(messages[n]) then front else front + [Entry(n, times[n], messages[n])]
  }

  function LargeOnes(messages: seq<string>): seq<int> {
    if messages == [] then []
    else
      var n := |messages| - 1;
      var front := LargeOnes(messages[..n]);
      if TooLarge(messages[n]) then front + [n] else front
  }

  /** From the k-th chunk on, with these indexes already dropped. */
  function PutFrom(chunks: seq<seq<Entry>>, k: nat, dropped: seq<int>, api: nat -> ApiAnswer): Retry.Answer
    requires k <= |chunks|
    decreases |chunks| - k
  {
    if k == |chunks| then
      if dropped == [] then Retry.Accepted else Retry.Partial([], dropped)
    else
      match api(k)
      case Refuse(Retryable) => Retry.Partial(Indexes(Concat(chunks[k..])), dropped)
      case Refuse(Permanent) => Retry.Failed(true)
      case Refuse(Transport) => Retry.Failed(false)
      case Put(None) => PutFrom(chunks, k + 1, dropped, api)
      case Put(Some(info)) => PutFrom(chunks, k + 1, dropped + RejectedList(chunks[k], info), api)
  }

  /** SendBatch, over events already rendered; a message that cannot be built is a plain error. */
  method SendBatch(messages: seq<Option<string>>, times: seq<int>, api: nat -> ApiAnswer)
    returns (answer: Retry.Answer, ghost chunks: seq<seq<Entry>>, ghost texts: seq<string>)
    requires |messages| == |times|
    ensures (exists i :: 0 <= i < |messages| && messages[i].None?) ==> answer == Retry.Failed(false)
    ensures (forall i :: 0 <= i < |messages| ==> messages[i].Some?) ==>
      && |texts| == |messages| && (forall i :: 0 <= i < |texts| ==> messages[i] == Some(texts[i]))
      && Concat(chunks) == StableSort(EntriesOf(texts, times))
      && (forall k :: 0 <= k < |chunks| ==> Fits(chunks[k])) && Greedy(chunks)
      && answer == PutFrom(chunks, 0, LargeOnes(texts), api)
  {
    hide CloudWatch.Concat, StableSort, Fits, Greedy, TooLarge, Ordered;
    var entries := [];
    var dropped := [];
    chunks, texts := [], [];
    for i := 0 to |messages|
      invariant |texts| == i && forall j :: 0 <= j < i ==> messages[j] == Some(texts[j])
      invariant entries == EntriesOf(texts, times[..i])
      invariant dropped == LargeOnes(texts)
    {
      if messages[i].None? {
        return Retry.Failed(false), chunks, texts;
      }
      var message := messages[i].value;
      assert (texts + [message])[..i] == texts && times[..i + 1][..i] == times[..i];
      texts := texts + [message];
      if TooLarge(message) {
        dropped := dropped + [i];
      } else {
        entries := entries + [Entry(i, times[i], message)];
      }
    }
    assert times[..|messages|] == times;
    EntriesInOrder(texts, times);
    SortedForChunks(entries);
    var sorted := StableSort(entries);
    var all := Chunks(sorted);
    chunks := all;
    for ci := 0 to |all|
      invariant PutFrom(all, ci, dropped, api) == PutFrom(all, 0, LargeOnes(texts), api)
    {
      match api(ci) {
        case Refuse(Retryable) =>
          var retry := Rest(all, ci);
          return Retry.Partial(retry, dropped), chunks, texts;
        case Refuse(Permanent) => return Retry.Failed(true), chunks, texts;
        case Refuse(Transport) => return Retry.Failed(false), chunks, texts;
        case Put(None) =>
        case Put(Some(info)) =>
          var more := MapRejected(all[ci], info);
          dropped := dropped + more;
      }
    }
    answer := if |dropped| == 0 then Retry.Accepted else Retry.Partial([], dropped);
  }

  /** The failed chunk and every later one, flattened to batch indexes. */
  method Rest(all: seq<seq<Entry>>, from: nat) returns (retry: seq<int>)
    requires from <= |all|
    ensures retry == Indexes(Concat(all[from..]))
  {
    hide Indexes;
    retry := [];
    assert Concat(all[from..from]) == [];
    for k := from to |all|
      invariant retry == Indexes(Concat(all[from..k]))
    {
      hide CloudWatch.Concat;
      assert all[from..k + 1] == all[from..k] + [all[k]];
      ConcatSnoc(all[from..k], all[k]);
      IndexesConcat(Concat(all[from..k]), all[k]);
      assert all[k][0..|all[k]|] == all[k];
      retry := AppendRange(retry, all[k], 0, |all[k]|);
    }
    assert all[from..|all|] == all[from..];
  }

  lemma IndexesConcat(a: seq<Entry>, b: seq<Entry>)
    ensures Indexes(a + b) == Indexes(a) + Indexes(b)
  {
  }

  /** The entries name the events that fit, each once and in order. */
  lemma {:induction false} EntriesInOrder(texts: seq<string>, times: seq<int>)
    requires |texts| == |times|
    ensures Increasing(EntriesOf(texts, times))
    ensures forall p :: 0 <= p < |EntriesOf(texts, times)| ==>
      EntriesOf(texts, times)[p].index < |texts| && Size(EntriesOf(texts, times)[p]) <= MAX_BYTES
  {
    if texts == [] {
    } else {
      EntriesInOrder(texts[..|texts| - 1], times[..|texts| - 1]);
    }
  }

  lemma {:induction false} EntryFor(texts: seq<string>, times: seq<int>, i: nat)
    requires |texts| == |times|
    ensures i < |texts| && !TooLarge(texts[i]) <==>
      exists p :: 0 <= p < |EntriesOf(texts, times)| && EntriesOf(texts, times)[p].index == i
    ensures i in LargeOnes(texts) <==> i < |texts| && TooLarge(texts[i])
  {
    if texts != [] {
      var n := |texts| - 1;
      EntryFor(texts[..n], times[..n], i);
      var front, es := EntriesOf(texts[..n], times[..n]), EntriesOf(texts, times);
      assert forall p :: 0 <= p < |front| ==> es[p] == front[p];
      if i == n && !TooLarge(texts[n]) {
        assert es[|front|].index == i;
      }
    }
  }

  lemma SortedForChunks(es: seq<Entry>)
    requires Increasing(es) && forall p :: 0 <= p < |es| ==> Size(es[p]) <= MAX_BYTES
    ensures ByTime(StableSort(es)) && Ordered(StableSort(es))
    ensures forall p :: 0 <= p < |StableSort(es)| ==> Size(StableSort(es)[p]) <= MAX_BYTES
    ensures multiset(StableSort(es)) == multiset(es)
  {
    SortOrders(es);
    var s := StableSort(es);
    forall p | 0 <= p < |s|
      ensures Size(s[p]) <= MAX_BYTES
    {
      assert s[p] in multiset(es);
    }
    forall p, q | 0 <= p < q < |s|
      ensures s[p].timestamp <= s[q].timestamp
    {
      assert Before(s[p], s[q]);
    }
  }
}
