/** A buff applied to a unit, counting down its duration
    (Game/Engine/Systems/Buffs/BuffInstance.cs). */
module Buffs {

  type UnitId = nat

  /** The parts of a buff definition the instance consults. */
  datatype Buff = Buff(isTimed: bool, fullDuration: int)

  datatype BuffInstance = BuffInstance(buff: Buff, target: UnitId, durationLeft: int)

  /** The buff's callbacks, in the order an operation invokes them. */
  datatype BuffCall = OnApplied | OnExpired | Destroy | OnUpdate

  /** `ShouldDestroy`: a timed buff whose time is up. */
  predicate ShouldDestroy(b: BuffInstance) {
    b.buff.isTimed && b.durationLeft <= 0
  }

  /** `new BuffInstance(buff, target)`: the full duration is left, and the
      buff is told it was applied. */
  function New(buff: Buff, target: UnitId): (r: (BuffInstance, seq<BuffCall>))
    ensures r.0.buff == buff && r.0.target == target
    ensures r.0.durationLeft == buff.fullDuration
    ensures r.1 == [OnApplied]
  {
    (BuffInstance(buff, target, buff.fullDuration), [OnApplied])
  }

  /** `Update(msElapsed)`: a timed buff loses `msElapsed`; if that ends it,
      it expires and is destroyed and skips its update callback this tick.
      An untimed buff only runs its update callback. */
  function Update(b: BuffInstance, msElapsed: int): (r: (BuffInstance, seq<BuffCall>))
    ensures r.0.buff == b.buff && r.0.target == b.target
    ensures b.buff.isTimed ==> r.0.durationLeft == b.durationLeft - msElapsed
    ensures !b.buff.isTimed ==> r.0 == b && r.1 == [OnUpdate]
    ensures b.buff.isTimed && ShouldDestroy(r.0) ==> r.1 == [OnExpired, Destroy]
    ensures b.buff.isTimed && !ShouldDestroy(r.0) ==> r.1 == [OnUpdate]
  {
    if b.buff.isTimed then
      var b' := b.(durationLeft := b.durationLeft - msElapsed);
      if ShouldDestroy(b') then (b', [OnExpired, Destroy]) else (b', [OnUpdate])
    else (b, [OnUpdate])
  }

  /** The instance after a series of updates. */
  function UpdateAll(b: BuffInstance, steps: seq<int>): BuffInstance
    decreases |steps|
  {
    if |steps| == 0 then b else UpdateAll(Update(b, steps[0]).0, steps[1..])
  }

  function Sum(steps: seq<int>): int
    decreases |steps|
  {
    if |steps| == 0 then 0 else steps[0] + Sum(steps[1..])
  }

  /** A timed buff's remaining duration is its full duration minus all the
      time that has elapsed since it was applied, so it expires exactly when
      the elapsed time reaches its full duration; an untimed buff never
      changes and never asks to be destroyed. */
  lemma {:induction false} DurationCountsDown(buff: Buff, target: UnitId, steps: seq<int>)
    ensures buff.isTimed ==>
      UpdateAll(New(buff, target).0, steps).durationLeft == buff.fullDuration - Sum(steps)
    ensures buff.isTimed ==>
      (ShouldDestroy(UpdateAll(New(buff, target).0, steps)) <==> Sum(steps) >= buff.fullDuration)
    ensures !buff.isTimed ==>
      UpdateAll(New(buff, target).0, steps) == New(buff, target).0
      && !ShouldDestroy(UpdateAll(New(buff, target).0, steps))
  {
    CountDown(New(buff, target).0, steps);
  }

  lemma {:induction false} CountDown(b: BuffInstance, steps: seq<int>)
    ensures UpdateAll(b, steps).buff == b.buff
    ensures b.buff.isTimed ==> UpdateAll(b, steps).durationLeft == b.durationLeft - Sum(steps)
    ensures !b.buff.isTimed ==> UpdateAll(b, steps) == b
    decreases |steps|
  {
    if |steps| > 0 {
      CountDown(Update(b, steps[0]).0, steps[1..]);
    }
  }
}
