/** llm/price.go: what a model call costs, in micros, with 64-bit integers. */
module Pricing {
  import opened GoBytes
  import Backoff

  datatype Rates = Rates(input: int, output: int, cached: int, write: int, write1h: int)

  datatype Record = Record(input: int, output: int, cached: int, write5m: int, write1h: int)

  datatype Cost = Cost(input: int, read: int, write: int, write1h: int, output: int, total: int)

  /** micros: the product wraps, and the division truncates. */
  function Micros(tokens: int, rate: int): int {
    if tokens <= 0 || rate <= 0 then 0
    else
      var n := Backoff.Wrap64(Backoff.Wrap64(tokens * rate) + 500_000);
      if n >= 0 then n / 1_000_000 else -(-n / 1_000_000)
  }

  function FirstRate(a: int, b: int, c: int): int {
    if a > 0 then a else if b > 0 then b else if c > 0 then c else 0
  }

  function Clip(x: int, limit: int): int {
    if x > limit then limit else x
  }

  function Floor(x: int): int {
    if x < 0 then 0 else x
  }

  /** The four parts of the input: regular, cache reads, one hour writes, five minute writes. */
  datatype Parts = Parts(regular: int, cached: int, write5m: int, write1h: int)

  function Split(r: Record): Parts {
    var cached := Floor(Clip(r.cached, r.input));
    var write1h := Clip(Floor(r.write1h), r.input - cached);
    var write5m := Clip(Floor(r.write5m), r.input - cached - write1h);
    Parts(r.input - cached - write1h - write5m, cached, write5m, write1h)
  }

  /** No input token is billed twice or left out: the parts are non-negative and add up to the
      input, and no cache part is more than what was reported of it. That holds exactly when
      the input count is not negative. */
  lemma PartsAddUp(r: Record)
    ensures r.input >= 0 <==>
      && Split(r).regular >= 0 && Split(r).cached >= 0 && Split(r).write5m >= 0 && Split(r).write1h >= 0
    ensures Split(r).regular + Split(r).cached + Split(r).write5m + Split(r).write1h == r.input
    ensures Split(r).cached <= Floor(r.cached) && Split(r).write5m <= Floor(r.write5m) && Split(r).write1h <= Floor(r.write1h)
  {
  }

  function CostOf(r: Record, p: Rates): Cost {
    var parts := Split(r);
    var input := Micros(parts.regular, p.input);
    var read := Micros(parts.cached, FirstRate(p.cached, p.input, 0));
    var write := Micros(parts.write5m, FirstRate(p.write, p.input, 0));
    var write1h := Micros(parts.write1h, FirstRate(p.write1h, p.write, p.input));
    var output := Micros(r.output, p.output);
    Cost(input, read, write, write1h, output, input + read + write + write1h + output)
  }

  /** Millionths of a micro, exactly. */
  function Exact(tokens: int, rate: int): int {
    if tokens <= 0 || rate <= 0 then 0 else tokens * rate
  }

  function ExactTotal(r: Record, p: Rates): int {
    var parts := Split(r);
    Exact(parts.regular, p.input) + Exact(parts.cached, FirstRate(p.cached, p.input, 0))
    + Exact(parts.write5m, FirstRate(p.write, p.input, 0)) + Exact(parts.write1h, FirstRate(p.write1h, p.write, p.input))
    + Exact(r.output, p.output)
  }

  lemma WrapIsBelow(x: int)
    requires x >= -Backoff.TWO_63
    ensures Backoff.Wrap64(x) <= x
    ensures x >= Backoff.TWO_63 ==> Backoff.Wrap64(x) <= x - Backoff.TWO_64
  {
    var y := x + Backoff.TWO_63;
    assert y == y / Backoff.TWO_64 * Backoff.TWO_64 + y % Backoff.TWO_64;
    if x >= Backoff.TWO_63 {
      assert y / Backoff.TWO_64 >= 1;
    }
  }

  /** One part is the exact price, to within the rounding, exactly when the sum that is divided
      fits 64 bits. */
  lemma MicrosRounds(tokens: int, rate: int)
    ensures Exact(tokens, rate) + 500_000 < Backoff.TWO_63 <==>
      -500_000 <= 1_000_000 * Micros(tokens, rate) - Exact(tokens, rate) <= 500_000
  {
    if Exact(tokens, rate) + 500_000 < Backoff.TWO_63 {
      Near(tokens, rate);
    } else {
      hide Backoff.Wrap64;
      var x := tokens * rate;
      WrapIsBelow(x);
      WrapIsBelow(Backoff.Wrap64(x) + 500_000);
      assert Backoff.Wrap64(Backoff.Wrap64(x) + 500_000) <= x + 500_000 - Backoff.TWO_64;
    }
  }

  predicate Fits(r: Record, p: Rates) {
    var parts := Split(r);
    && Exact(parts.regular, p.input) + 500_000 < Backoff.TWO_63
    && Exact(parts.cached, FirstRate(p.cached, p.input, 0)) + 500_000 < Backoff.TWO_63
    && Exact(parts.write5m, FirstRate(p.write, p.input, 0)) + 500_000 < Backoff.TWO_63
    && Exact(parts.write1h, FirstRate(p.write1h, p.write, p.input)) + 500_000 < Backoff.TWO_63
    && Exact(r.output, p.output) + 500_000 < Backoff.TWO_63
  }

  lemma Near(tokens: int, rate: int)
    requires Exact(tokens, rate) + 500_000 < Backoff.TWO_63
    ensures -500_000 <= 1_000_000 * Micros(tokens, rate) - Exact(tokens, rate) <= 500_000
    ensures Micros(tokens, rate) >= 0
  {
    var x := Exact(tokens, rate);
    if tokens > 0 && rate > 0 {
      assert x > 0;
      assert Backoff.Wrap64(x) == x && Backoff.Wrap64(x + 500_000) == x + 500_000;
    }
  }

  /** A part that wraps is far below its exact price. */
  lemma Far(tokens: int, rate: int)
    requires Exact(tokens, rate) + 500_000 >= Backoff.TWO_63
    ensures 1_000_000 * Micros(tokens, rate) - Exact(tokens, rate) < -4_500_000
  {
    hide Backoff.Wrap64;
    var x := tokens * rate;
    WrapIsBelow(x);
    WrapIsBelow(Backoff.Wrap64(x) + 500_000);
    assert Backoff.Wrap64(Backoff.Wrap64(x) + 500_000) <= x + 500_000 - Backoff.TWO_64;
  }

  lemma NearOrFar(tokens: int, rate: int)
    ensures var off := 1_000_000 * Micros(tokens, rate) - Exact(tokens, rate);
      if Exact(tokens, rate) + 500_000 < Backoff.TWO_63 then -500_000 <= off <= 500_000 && Micros(tokens, rate) >= 0
      else off < -4_500_000
  {
    if Exact(tokens, rate) + 500_000 < Backoff.TWO_63 {
      Near(tokens, rate);
    } else {
      Far(tokens, rate);
    }
  }

  /** The total is within two and a half micros of the exact price exactly when every product fits
      64 bits, and then it is not negative. */
  lemma TotalIsNear(r: Record, p: Rates)
    ensures Fits(r, p) <==> -2_500_000 <= 1_000_000 * CostOf(r, p).total - ExactTotal(r, p) <= 2_500_000
    ensures Fits(r, p) ==> CostOf(r, p).total >= 0
  {
    hide Micros, Exact, Split;
    var parts := Split(r);
    NearOrFar(parts.regular, p.input);
    NearOrFar(parts.cached, FirstRate(p.cached, p.input, 0));
    NearOrFar(parts.write5m, FirstRate(p.write, p.input, 0));
    NearOrFar(parts.write1h, FirstRate(p.write1h, p.write, p.input));
    NearOrFar(r.output, p.output);
  }

  // ---------------------------------------------------------------------------------------
  // The cost of a record, without the functions above
  // ---------------------------------------------------------------------------------------

  /** A count that was reported; one below zero counts as none. */
  ghost predicate Reported(x: int, n: int) {
    n >= 0 && (x >= 0 ==> n == x) && (x < 0 ==> n == 0)
  }

  /** The input is split among cache reads, one hour writes, five minute writes and the rest, in
      this order, each as far as it was reported and the input goes. */
  ghost predicate IsSplit(r: Record, parts: Parts) {
    if r.input < 0 then parts == Parts(0, 0, 0, r.input)
    else
      && parts.cached >= 0 && parts.write1h >= 0 && parts.write5m >= 0 && parts.regular >= 0
      && parts.cached + parts.write1h + parts.write5m + parts.regular == r.input
      && exists read, hour, minute ::
        && Reported(r.cached, read) && Reported(r.write1h, hour) && Reported(r.write5m, minute)
        && parts.cached <= read && parts.write1h <= hour && parts.write5m <= minute
        && (parts.cached < read ==> parts.cached == r.input)
        && (parts.write1h < hour ==> parts.cached + parts.write1h == r.input)
        && (parts.write5m < minute ==> parts.regular == 0)
  }

  /** The first rate above zero, or zero when there is none. */
  ghost predicate FirstPositive(rates: seq<int>, rate: int) {
    if exists k :: 0 <= k < |rates| && rates[k] > 0 then
      exists k :: 0 <= k < |rates| && rates[k] == rate > 0 && forall j :: 0 <= j < k ==> rates[j] <= 0
    else rate == 0
  }

  /** The 64-bit sum of the product and half a million, divided by a million and cut off at the
      decimal point. */
  lemma MicrosExactly(tokens: int, rate: int, w: int)
    requires -0x8000_0000_0000_0000 <= w < 0x8000_0000_0000_0000
    requires (tokens * rate + 500_000 - w) % 0x1_0000_0000_0000_0000 == 0
    ensures tokens <= 0 || rate <= 0 ==> Micros(tokens, rate) == 0
    ensures tokens > 0 && rate > 0 && w >= 0 ==> 0 <= w - 1_000_000 * Micros(tokens, rate) < 1_000_000
    ensures tokens > 0 && rate > 0 && w < 0 ==> -1_000_000 < w - 1_000_000 * Micros(tokens, rate) <= 0
  {
    WrapTwice(tokens * rate, w);
  }

  lemma WrapTwice(x: int, w: int)
    requires -0x8000_0000_0000_0000 <= w < 0x8000_0000_0000_0000
    requires (x + 500_000 - w) % 0x1_0000_0000_0000_0000 == 0
    ensures Backoff.Wrap64(Backoff.Wrap64(x) + 500_000) == w
  {
    var m := Backoff.TWO_64;
    var q := (x + 500_000 - w) / m;
    var a := (x + Backoff.TWO_63) / m;
    assert x + 500_000 == q * m + w && x + Backoff.TWO_63 == a * m + (x + Backoff.TWO_63) % m;
    var y := Backoff.Wrap64(x) + 500_000 + Backoff.TWO_63;
    assert y == (q - a) * m + (w + Backoff.TWO_63);
    assert y % m == (w + Backoff.TWO_63) % m by {
      ModAdds(q - a, w + Backoff.TWO_63);
    }
  }

  lemma {:induction false} ModAdds(k: int, x: int)
    requires 0 <= x < Backoff.TWO_64
    ensures (k * Backoff.TWO_64 + x) % Backoff.TWO_64 == x
  {
    var m, y := Backoff.TWO_64, k * Backoff.TWO_64 + x;
    assert y == y / m * m + y % m;
    assert (y / m - k) * m == x - y % m;
  }

  lemma SplitExactly(r: Record, parts: Parts)
    ensures IsSplit(r, parts) <==> parts == Split(r)
  {
    assert Reported(r.cached, Floor(r.cached)) && Reported(r.write1h, Floor(r.write1h)) && Reported(r.write5m, Floor(r.write5m));
  }

  lemma FirstExactly(a: int, b: int, c: int, rate: int)
    ensures FirstPositive([a, b, c], rate) <==> FirstRate(a, b, c) == rate
    ensures FirstPositive([a, b], rate) <==> FirstRate(a, b, 0) == rate
  {
    assert [a, b, c][0] == a && [a, b, c][1] == b && [a, b, c][2] == c && [a, b][0] == a && [a, b][1] == b;
  }

  /** A record costs its four parts of the input and its output, each at its own rate: where the
      table has no rate for a cache read or write, at the next one it has. */
  lemma CostsExactly(r: Record, p: Rates, parts: Parts, read: int, write: int, hour: int)
    requires IsSplit(r, parts)
    requires FirstPositive([p.cached, p.input], read) && FirstPositive([p.write, p.input], write)
    requires FirstPositive([p.write1h, p.write, p.input], hour)
    ensures var c := CostOf(r, p);
      && c.input == Micros(parts.regular, p.input) && c.read == Micros(parts.cached, read)
      && c.write == Micros(parts.write5m, write) && c.write1h == Micros(parts.write1h, hour)
      && c.output == Micros(r.output, p.output)
      && c.total == c.input + c.read + c.write + c.write1h + c.output
  {
    hide Micros, Split, IsSplit, FirstRate, FirstPositive;
    SplitExactly(r, parts);
    FirstExactly(p.cached, p.input, 0, read);
    FirstExactly(p.write, p.input, 0, write);
    FirstExactly(p.write1h, p.write, p.input, hour);
  }

  // ---------------------------------------------------------------------------------------
  // The row of a model
  // ---------------------------------------------------------------------------------------

  /** A key that begins the model id, with a date or "-latest" after it. */
  predicate Candidate(model: string, key: string, dated: string -> bool) {
    key != "" && key <= model && dated(model[|key|..])
  }

  /** The row Price must find: the model's own, or that of the longest candidate. */
  ghost predicate IsRow(table: map<string, Rates>, model: string, dated: string -> bool, row: Option<Rates>) {
    if model in table then row == Some(table[model])
    else if exists k :: k in table && Candidate(model, k, dated) then
      exists k :: k in table && Longest(table, model, dated, k) && row == Some(table[k])
    else row == None
  }

  ghost predicate Longest(table: map<string, Rates>, model: string, dated: string -> bool, k: string) {
    Candidate(model, k, dated) && forall j :: j in table && Candidate(model, j, dated) ==> |j| <= |k|
  }

  /** The map's iteration order does not show: only one row can be the answer. */
  lemma RowIsUnique(table: map<string, Rates>, model: string, dated: string -> bool, a: Option<Rates>, b: Option<Rates>)
    requires IsRow(table, model, dated, a) && IsRow(table, model, dated, b)
    ensures a == b
  {
    if model !in table && exists k :: k in table && Candidate(model, k, dated) {
      var k :| k in table && Longest(table, model, dated, k) && a == Some(table[k]);
      var j :| j in table && Longest(table, model, dated, j) && b == Some(table[j]);
      assert k == model[..|k|] && j == model[..|j|];
    }
  }

  method Price(table: map<string, Rates>, model: string, dated: string -> bool) returns (row: Option<Rates>)
    ensures IsRow(table, model, dated, row)
  {
    if model in table {
      return Some(table[model]);
    }
    var best := "";
    var rest := table.Keys;
    while rest != {}
      invariant rest <= table.Keys && (best == "" || (best in table && Candidate(model, best, dated)))
      invariant forall j :: j in table.Keys - rest && Candidate(model, j, dated) ==> |j| <= |best|
      decreases |rest|
    {
      var key :| key in rest;
      rest := rest - {key};
      if |key| <= |best| || !(key <= model) {
        continue;
      }
      if !dated(model[|key|..]) {
        continue;
      }
      best := key;
    }
    if best == "" {
      return None;
    }
    assert Longest(table, model, dated, best);
    return Some(table[best]);
  }

  // ---------------------------------------------------------------------------------------
  // The calls of one event
  // ---------------------------------------------------------------------------------------

  /** One call: the cost it carries, and what the table says of it, None for an unknown model. */
  datatype Call = Call(cost: int, table: Option<int>)

  function Priced(c: Call): Call {
    if c.cost > 0 || c.table.None? then c else c.(cost := c.table.value)
  }

  function CallCosts(calls: seq<Call>): int {
    if calls == [] then 0
    else CallCosts(calls[..|calls| - 1]) + Floor(calls[|calls| - 1].cost)
  }

  function TableCosts(calls: seq<Call>): int {
    if calls == [] then 0
    else
      var c := calls[|calls| - 1];
      TableCosts(calls[..|calls| - 1]) + if c.cost > 0 || c.table.None? then 0 else c.table.value
  }

  predicate AnyPriced(calls: seq<Call>) {
    exists k :: 0 <= k < |calls| && (calls[k].cost > 0 || calls[k].table.Some?)
  }

  function GroupCost(group: int, calls: seq<Call>): int {
    if group > 0 || AnyPriced(calls) then
      if group == 0 then CallCosts(calls) + TableCosts(calls) else group + TableCosts(calls)
    else group
  }

  /** priceCalls, on the calls in place. */
  method PriceCalls(group: int, calls: array<Call>) returns (total: int)
    modifies calls
    ensures forall k :: 0 <= k < calls.Length ==> calls[k] == Priced(old(calls[k]))
    ensures total == GroupCost(group, old(calls[..]))
  {
    var callCosts, tableCosts := 0, 0;
    var hasAny := group > 0;
    ghost var was := calls[..];
    for i := 0 to calls.Length
      invariant forall k :: 0 <= k < calls.Length ==> calls[k] == if k < i then Priced(was[k]) else was[k]
      invariant callCosts == CallCosts(was[..i]) && tableCosts == TableCosts(was[..i])
      invariant hasAny <==> group > 0 || AnyPriced(was[..i])
    {
      assert was[..i + 1][..i] == was[..i] && was[..i + 1][i] == was[i];
      AnySnoc(was[..i], was[i]);
      assert was[..i + 1] == was[..i] + [was[i]];
      var c := calls[i];
      if c.cost > 0 {
        callCosts := callCosts + c.cost;
        hasAny := true;
        continue;
      }
      if c.table.None? {
        continue;
      }
      calls[i] := c.(cost := c.table.value);
      tableCosts := tableCosts + c.table.value;
      hasAny := true;
    }
    assert was[..calls.Length] == was;
    if !hasAny {
      return group;
    }
    total := if group == 0 then callCosts + tableCosts else group + tableCosts;
  }

  lemma AnySnoc(calls: seq<Call>, c: Call)
    ensures AnyPriced(calls + [c]) <==> AnyPriced(calls) || c.cost > 0 || c.table.Some?
  {
    var all := calls + [c];
    assert all[|calls|] == c;
    assert forall k :: 0 <= k < |calls| ==> all[k] == calls[k];
  }

  function PricedAll(calls: seq<Call>): (r: seq<Call>)
    ensures |r| == |calls| && forall k :: 0 <= k < |r| ==> r[k] == Priced(calls[k])
  {
    seq(|calls|, k requires 0 <= k < |calls| => Priced(calls[k]))
  }

  /** No call that is priced now has a price below zero in the table. */
  predicate NoNegative(calls: seq<Call>) {
    forall k :: 0 <= k < |calls| && calls[k].cost <= 0 && calls[k].table.Some? ==> calls[k].table.value >= 0
  }

  /** The prices below zero that a pricing adds. */
  function Negatives(calls: seq<Call>): (n: int)
    ensures n <= 0
  {
    if calls == [] then 0
    else
      var c := calls[|calls| - 1];
      Negatives(calls[..|calls| - 1]) + if c.cost <= 0 && c.table.Some? && c.table.value < 0 then c.table.value else 0
  }

  lemma {:induction false} NegativesExist(calls: seq<Call>)
    ensures Negatives(calls) == 0 <==> NoNegative(calls)
  {
    if calls == [] {
    } else {
      var n := |calls| - 1;
      NegativesExist(calls[..n]);
      assert forall k :: 0 <= k < n ==> calls[..n][k] == calls[k];
    }
  }

  lemma {:induction false} SumsAfter(calls: seq<Call>)
    ensures TableCosts(PricedAll(calls)) == Negatives(calls)
    ensures CallCosts(PricedAll(calls)) == CallCosts(calls) + TableCosts(calls) - Negatives(calls)
  {
    if calls == [] {
    } else {
      var front := calls[..|calls| - 1];
      SumsAfter(front);
      assert PricedAll(calls)[..|calls| - 1] == PricedAll(front);
    }
  }

  lemma AnyAfter(calls: seq<Call>)
    ensures AnyPriced(PricedAll(calls)) <==> AnyPriced(calls)
    ensures !AnyPriced(calls) ==> NoNegative(calls)
  {
    if k :| 0 <= k < |calls| && (calls[k].cost > 0 || calls[k].table.Some?) {
      assert PricedAll(calls)[k].cost > 0 || PricedAll(calls)[k].table.Some?;
    }
    if k :| 0 <= k < |calls| && (PricedAll(calls)[k].cost > 0 || PricedAll(calls)[k].table.Some?) {
      assert calls[k].cost > 0 || calls[k].table.Some?;
    }
  }

  /** Pricing an event a second time leaves the calls alone. It leaves the group total alone
      exactly when no call it prices has a price below zero; when the first total is zero,
      exactly when the group began at zero or at the sum of the costs the calls carried. */
  lemma PricingTwice(group: int, calls: seq<Call>)
    ensures PricedAll(PricedAll(calls)) == PricedAll(calls)
    ensures GroupCost(GroupCost(group, calls), PricedAll(calls)) == GroupCost(group, calls) <==>
      if GroupCost(group, calls) != 0 then NoNegative(calls) else group == 0 || group == CallCosts(calls)
  {
    hide CallCosts, TableCosts, Negatives, NoNegative, AnyPriced;
    SumsAfter(calls);
    NegativesExist(calls);
    AnyAfter(calls);
    if !AnyPriced(calls) {
      NothingPriced(calls);
    }
  }

  lemma {:induction false} NothingPriced(calls: seq<Call>)
    requires !AnyPriced(calls)
    ensures CallCosts(calls) == TableCosts(calls) == 0
  {
    if calls == [] {
    } else {
      var n := |calls| - 1;
      assert forall k :: 0 <= k < n ==> calls[..n][k] == calls[k];
      NothingPriced(calls[..n]);
      assert calls[n].cost <= 0 && calls[n].table.None?;
    }
  }

  lemma OneCall(c: Call)
    requires c.cost <= 0 && c.table.Some?
    ensures CallCosts([c]) == 0 && TableCosts([c]) == c.table.value && AnyPriced([c])
  {
    assert [c][..0] == [] && [c][0] == c;
    assert CallCosts([c][..0]) == 0 && TableCosts([c][..0]) == 0;
  }

  /** A wrapped price is added again each time. */
  lemma WrappedPriceIsAddedAgain(t: int)
    requires t < 0
    ensures GroupCost(0, [Call(0, Some(t))]) == t
    ensures GroupCost(t, PricedAll([Call(0, Some(t))])) == 2 * t
  {
    var c, d := Call(0, Some(t)), Call(t, Some(t));
    OneCall(c);
    OneCall(d);
    assert PricedAll([c]) == [d];
  }

  /** 10^13 input tokens at 10^6 micros per million wrap below zero, so a call with this record
      makes the event's total grow below zero with each pricing. */
  lemma LargeRecordWraps()
    ensures var t := CostOf(Record(10_000_000_000_000, 0, 0, 0, 0), Rates(1_000_000, 0, 0, 0, 0)).total;
      && t == -8_446_744_073_709
      && GroupCost(0, [Call(0, Some(t))]) == t
      && GroupCost(t, PricedAll([Call(0, Some(t))])) == 2 * t
  {
    hide Micros, GroupCost, FirstRate;
    var r, p := Record(10_000_000_000_000, 0, 0, 0, 0), Rates(1_000_000, 0, 0, 0, 0);
    LargePrice();
    assert Split(r) == Parts(10_000_000_000_000, 0, 0, 0);
    WrappedPriceIsAddedAgain(CostOf(r, p).total);
  }

  lemma LargePrice()
    ensures Micros(10_000_000_000_000, 1_000_000) == -8_446_744_073_709
    ensures forall rate :: Micros(0, rate) == 0
  {
    var w := -8_446_744_073_709_051_616;
    assert 10_000_000_000_000 * 1_000_000 + 500_000 - w == 0x1_0000_0000_0000_0000;
    MicrosExactly(10_000_000_000_000, 1_000_000, w);
  }
}
