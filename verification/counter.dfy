/** The wrap-around tick counter (Game/IO/Util/Counter.cs). */
module Counters {
  import opened Wrappers
  import CsMath

  datatype Counter = Counter(value: int, maxValue: int)

  /** What a counter looks like after `Tick`, and what the call produced:
      the returned flag, or the exception it threw. `Value` is updated
      before the remainder is taken, so the counter changes even when the
      call throws. */
  datatype TickOutcome = TickOutcome(counter: Counter, result: Result<bool>)

  /** A counter that can tick: positive maximum, value in `[0, max)`. */
  predicate InRange(c: Counter) {
    c.maxValue > 0 && 0 <= c.value < c.maxValue
  }

  /** `new Counter(maxValue)`: rejects a negative maximum, starts at zero. */
  function New(maxValue: int): (r: Result<Counter>)
    ensures maxValue < 0 <==> r == Failure(InvalidArgument)
    ensures r.Success? ==> r.value.value == 0 && r.value.maxValue == maxValue
  {
    if maxValue < 0 then Failure(InvalidArgument) else Success(Counter(0, maxValue))
  }

  /** `Tick(ticks)`: adds `ticks`; once the maximum is reached the value
      wraps to the remainder and the call reports it. */
  function Tick(c: Counter, ticks: int): (r: TickOutcome)
    ensures r.counter.maxValue == c.maxValue
    ensures c.value + ticks < c.maxValue ==>
      r.result == Success(false) && r.counter.value == c.value + ticks
    ensures c.value + ticks >= c.maxValue > 0 ==>
      r.result == Success(true) && r.counter.value == (c.value + ticks) % c.maxValue
    ensures c.value + ticks >= c.maxValue == 0 ==>
      r.result == Failure(DivideByZero) && r.counter.value == c.value + ticks
  {
    var v := c.value + ticks;
    if v < c.maxValue then TickOutcome(Counter(v, c.maxValue), Success(false))
    else if c.maxValue == 0 then TickOutcome(Counter(v, c.maxValue), Failure(DivideByZero))
    else TickOutcome(Counter(CsMath.TruncRem(v, c.maxValue), c.maxValue), Success(true))
  }

  /** `Tick()`: one tick; it reports reaching the maximum exactly when the
      counter stood one short of it, and then restarts from zero. */
  function TickOnce(c: Counter): (r: TickOutcome)
    ensures r.counter.maxValue == c.maxValue
    ensures InRange(c) ==> r.result == Success(c.value == c.maxValue - 1)
    ensures InRange(c) ==> r.counter.value == if c.value == c.maxValue - 1 then 0 else c.value + 1
    ensures InRange(c) ==> InRange(r.counter)
    ensures c.maxValue == 0 && c.value >= -1 ==> r.result == Failure(DivideByZero)
  {
    Tick(c, 1)
  }

  /** `Reset(newMax)`: rejects a negative new maximum; otherwise zeroes the
      value and keeps the old maximum when none is given. */
  function Reset(c: Counter, newMax: Option<int>): (r: Result<Counter>)
    ensures newMax.Some? && newMax.value < 0 <==> r == Failure(InvalidArgument)
    ensures r.Success? ==> r.value.value == 0
    ensures r.Success? && newMax.None? ==> r.value.maxValue == c.maxValue
    ensures r.Success? && newMax.Some? ==> r.value.maxValue == newMax.value
  {
    if newMax.Some? && newMax.value < 0 then Failure(InvalidArgument)
    else Success(Counter(0, newMax.GetOr(c.maxValue)))
  }

  /** Ticking forward by any non-negative amount keeps a counter in range,
      and it reports a wrap exactly when the sum reached the maximum. */
  lemma TickPreservesRange(c: Counter, ticks: int)
    requires InRange(c) && ticks >= 0
    ensures Tick(c, ticks).result == Success(c.value + ticks >= c.maxValue)
    ensures InRange(Tick(c, ticks).counter)
  {
  }

  /** Single ticks count up one by one: a counter reports the wrap on the
      tick that brings it to its maximum, and is then back at zero. */
  lemma {:induction false} SingleTicksWrapAfterMax(c: Counter, n: nat)
    requires InRange(c) && c.value + n <= c.maxValue
    ensures TickRepeat(c, n).1 == (n > 0 && c.value + n == c.maxValue)
    ensures TickRepeat(c, n).0.value == if c.value + n == c.maxValue then 0 else c.value + n
    decreases n
  {
    if n > 0 {
      SingleTicksWrapAfterMax(c, n - 1);
      var prev := TickRepeat(c, n - 1).0;
      assert prev.value == c.value + n - 1;
      var r := TickOnce(prev);
      assert r.result == Success(true) <==> prev.value == c.maxValue - 1;
      assert TickRepeat(c, n) == (r.counter, r.result == Success(true));
    }
  }

  /** `n` calls of `Tick()`, with whether the last one reported the wrap. */
  function TickRepeat(c: Counter, n: nat): (r: (Counter, bool))
    requires InRange(c)
    ensures InRange(r.0) && r.0.maxValue == c.maxValue
    decreases n
  {
    if n == 0 then (c, false)
    else
      var prev := TickRepeat(c, n - 1);
      var r := TickOnce(prev.0);
      (r.counter, r.result == Success(true))
  }
}
