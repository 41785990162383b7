/** pipeline/pipeline.go, retryDelay: the wait between two attempts, in 64-bit nanoseconds. */
module Backoff {
  datatype Kind = Exponential | Linear | Fixed

  const TWO_63 := 0x8000_0000_0000_0000
  const TWO_64 := 0x1_0000_0000_0000_0000

  /** A 64-bit signed result, wrapped around as Go wraps it. */
  function Wrap64(x: int): (w: int)
    ensures -TWO_63 <= w < TWO_63
    ensures -TWO_63 <= x < TWO_63 ==> w == x
  {
    (x + TWO_63) % TWO_64 - TWO_63
  }

  function Pow2(n: nat): (p: nat)
    ensures p >= 1
  {
    if n == 0 then 1 else 2 * Pow2(n - 1)
  }

  /** The multiple of the initial delay that the curve asks for after this attempt. */
  function Factor(kind: Kind, attempt: nat): nat {
    match kind
    case Linear => attempt
    case Fixed => 1
    case Exponential => Pow2(if attempt <= 1 then 0 else if attempt - 1 > 30 then 30 else attempt - 1)
  }

  function Min(a: int, b: int): int {
    if a <= b then a else b
  }

  /** The capped delay, before jitter. */
  function Base(kind: Kind, initial: int, max: int, attempt: nat): int {
    var d := Wrap64(initial * Factor(kind, attempt));
    var capped := if d > max then max else d;
    if capped <= 0 then 0 else capped
  }

  function RetryDelay(kind: Kind, initial: int, max: int, attempt: nat, jitter: nat): int
    requires jitter <= Base(kind, initial, max, attempt) / 5
  {
    var d := Base(kind, initial, max, attempt);
    if d == 0 then 0 else Min(Wrap64(d + jitter), max)
  }

  /** What the three curves ask for: once each time, the number of the attempt, or one, two, four
      and so on up to 1<<30, where the doubling stops. */
  lemma CurveMeaning(attempt: nat)
    ensures Factor(Fixed, attempt) == 1 && Factor(Linear, attempt) == attempt
    ensures attempt <= 1 ==> Factor(Exponential, attempt) == 1
    ensures 1 < attempt <= 31 ==> Factor(Exponential, attempt) == 2 * Factor(Exponential, attempt - 1)
    ensures attempt >= 31 ==> Factor(Exponential, attempt) == 0x4000_0000
  {
    PowThirty();
  }

  /** The wait is the capped delay and its jitter, cut off at the cap, and so between zero and the
      cap, exactly when adding the jitter does not pass the largest duration; else it is what the
      sum wraps to, below zero. */
  lemma DelayWithinCap(kind: Kind, initial: int, max: int, attempt: nat, jitter: nat)
    requires 1 <= max < TWO_63 && jitter <= Base(kind, initial, max, attempt) / 5
    ensures var r, sum := RetryDelay(kind, initial, max, attempt, jitter), Base(kind, initial, max, attempt) + jitter;
      && (0 <= r <= max <==> sum < TWO_63)
      && (sum < TWO_63 ==> r == if sum <= max then sum else max)
      && (sum >= TWO_63 ==> r == sum - TWO_64)
  {
    var d := Base(kind, initial, max, attempt);
    if d + jitter >= TWO_63 {
      assert d + jitter < TWO_64;
      assert (d + jitter + TWO_63) % TWO_64 == d + jitter - TWO_63;
    }
  }

  /** The delay before jitter is the asked-for multiple, capped, exactly when the product fits a
      64-bit duration or happens to wrap to something above the cap; else it is what the product
      wraps to, or none when that is not positive. */
  lemma BaseMeaning(kind: Kind, initial: int, max: int, attempt: nat)
    requires initial >= 1 && 1 <= max < TWO_63 && attempt >= 1
    ensures var exact, base := initial * Factor(kind, attempt), Base(kind, initial, max, attempt);
      && (base == (if exact <= max then exact else max) <==> exact < TWO_63 || Wrap64(exact) >= max)
      && (exact >= TWO_63 && Wrap64(exact) < max ==> base == if Wrap64(exact) < 0 then 0 else Wrap64(exact))
  {
    var exact := initial * Factor(kind, attempt);
    assert exact >= 1 by {
      assert Factor(kind, attempt) >= 1;
    }
  }

  lemma PowThirty()
    ensures Pow2(30) == 0x4000_0000
  {
    assert Pow2(10) == 1024;
    assert Pow2(20) == 1024 * 1024;
    assert Pow2(30) == 1024 * 1024 * 1024;
  }

  /** The doubling that stops at 1<<30 can overflow all the same: ten seconds doubled thirty
      times wraps below zero, so the worker retries at once instead of waiting for the cap. */
  lemma DoublingOverflows()
    ensures Base(Exponential, 10_000_000_000, 30_000_000_000, 31) == 0
  {
    PowThirty();
    assert 10_000_000_000 * 0x4000_0000 == 10_737_418_240_000_000_000;
  }
}
