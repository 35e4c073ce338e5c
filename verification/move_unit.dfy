/** The move-to-unit order of the older engine
    (Game/Engine/Systems/Orders/MoveUnit.cs): walk towards a target unit
    and optionally keep following it. Distances and angles come from
    square roots and `atan2` and are given as parameters. */
module MoveUnits {
  import opened Wrappers
  import Vectors

  type UnitId = nat

  datatype MoveUnit = MoveUnit(
    targetUnit: UnitId,
    distanceThreshold: real,
    keepFollowing: bool,
    direction: real,
    suggestedLocation: Vectors.Vector)

  const DefaultThreshold: real := 0.05

  /** `new MoveUnit(target, distThreshold = 0.05, keepFollowing = true)`;
      `targetPosition` is the target's position at that moment. */
  function New(target: UnitId, targetPosition: Vectors.Vector, distThreshold: real, keepFollowing: bool): (r: MoveUnit)
    ensures r.targetUnit == target && r.distanceThreshold == distThreshold
    ensures r.keepFollowing == keepFollowing
    ensures r.direction == -1.0 && r.suggestedLocation == targetPosition
  {
    MoveUnit(target, distThreshold, keepFollowing, -1.0, targetPosition)
  }

  /** The constructor with its default arguments. */
  function NewDefault(target: UnitId, targetPosition: Vectors.Vector): (r: MoveUnit)
    ensures r.targetUnit == target && r.suggestedLocation == targetPosition
    ensures r.distanceThreshold == 0.05 && r.keepFollowing && r.direction == -1.0
  {
    New(target, targetPosition, DefaultThreshold, true)
  }

  /** What one `Update` tick does to the unit being moved. */
  datatype Step =
    | Released             // the target is dead: the order gives up control
    | Arrived(keep: bool)  // within the threshold: no movement
    | Moved(msElapsed: int, direction: real, distanceLeft: real)

  /** The boolean `Update` returns: whether the order keeps control. */
  function KeepsControl(s: Step): bool {
    match s
    case Released => false
    case Arrived(keep) => keep
    case Moved(_, _, _) => true
  }

  /** `Update(unit, msElapsed)`: `distanceLeft` and `angle` are the distance
      and angle from the unit to the target. */
  function Update(m: MoveUnit, targetDead: bool, distanceLeft: real, angle: real, msElapsed: int): (r: (MoveUnit, Step))
    ensures targetDead ==> r == (m, Released)
    ensures !targetDead && distanceLeft < m.distanceThreshold ==> r == (m, Arrived(m.keepFollowing))
    ensures !targetDead && distanceLeft >= m.distanceThreshold ==>
      r.1 == Moved(msElapsed, angle, distanceLeft) && r.0 == m.(direction := angle)
    ensures KeepsControl(r.1) <==> !targetDead && (distanceLeft >= m.distanceThreshold || m.keepFollowing)
  {
    if targetDead then (m, Released)
    else if distanceLeft < m.distanceThreshold then (m, Arrived(m.keepFollowing))
    else (m.(direction := angle), Moved(msElapsed, angle, distanceLeft))
  }

  /** `Equals(other)`: `other` is `None` for null or an object of another
      type. Only the target, the follow flag and the threshold are compared. */
  function EqualsObject(a: MoveUnit, other: Option<MoveUnit>): (r: bool)
    ensures other.None? ==> !r
    ensures other.Some? ==> (r <==> a.targetUnit == other.value.targetUnit
                                    && a.keepFollowing == other.value.keepFollowing
                                    && a.distanceThreshold == other.value.distanceThreshold)
  {
    other.Some? && Same(a, other.value)
  }

  predicate Same(a: MoveUnit, b: MoveUnit) {
    a.targetUnit == b.targetUnit && a.keepFollowing == b.keepFollowing
    && a.distanceThreshold == b.distanceThreshold
  }

  /** `operator ==`. */
  function Eq(a: MoveUnit, b: MoveUnit): (r: bool)
    ensures r <==> EqualsObject(a, Some(b))
  {
    EqualsObject(a, Some(b))
  }

  /** `operator !=`, the negation of `==`. */
  function Neq(a: MoveUnit, b: MoveUnit): (r: bool)
    ensures r <==> !Eq(a, b)
  {
    !EqualsObject(a, Some(b))
  }

  /** Equality is an equivalence that ignores the direction and the
      suggested location; an order stays equal to itself through its own
      updates. */
  lemma EqualityIsEquivalence(a: MoveUnit, b: MoveUnit, c: MoveUnit, dead: bool, d: real, angle: real, ms: int)
    ensures Eq(a, a)
    ensures Eq(a, b) == Eq(b, a)
    ensures Eq(a, b) && Eq(b, c) ==> Eq(a, c)
    ensures Eq(a, a.(direction := angle, suggestedLocation := Vectors.Zero))
    ensures Eq(a, Update(a, dead, d, angle, ms).0)
  {
  }
}
