/** The follow behaviour of the older engine
    (Game/Engine/Systems/Behaviours/Objects/FollowBehaviour.cs): chase a
    target unit until within a given distance. */
module FollowBehaviours {
  import opened Wrappers
  import Vectors
  import MoveUnits

  datatype FollowBehaviour = FollowBehaviour(
    target: Option<MoveUnits.UnitId>,
    distance: real,
    currentOrder: Option<MoveUnits.MoveUnit>)

  /** `TakeControl`: with a target, take control exactly when it is farther
      than `distance`; `distanceToTarget` is the owner's distance to it. */
  function TakeControl(f: FollowBehaviour, distanceToTarget: real): (r: bool)
    ensures f.target.None? ==> !r
    ensures f.target.Some? ==> (r <==> distanceToTarget > f.distance)
  {
    f.target.Some? && distanceToTarget > f.distance
  }

  /** `Update`: replace the current order, whatever it was, with a move to
      the target that stops at `distance` and keeps following. Without a
      target the order's constructor dereferences null. */
  function Update(f: FollowBehaviour, targetPosition: Vectors.Vector): (r: Result<FollowBehaviour>)
    ensures f.target.None? <==> r == Failure(NullReference)
    ensures r.Success? ==>
      r.value == f.(currentOrder := Some(MoveUnits.New(f.target.value, targetPosition, f.distance, true)))
  {
    if f.target.None? then Failure(NullReference)
    else Success(f.(currentOrder := Some(MoveUnits.New(f.target.value, targetPosition, f.distance, true))))
  }

  /** The guard and the order agree: when the behaviour takes control, the
      order it installs moves the unit; once within `distance` the order
      holds position and keeps following. */
  lemma GuardAgreesWithOrder(f: FollowBehaviour, targetPosition: Vectors.Vector, d: real, angle: real, ms: int)
    requires f.target.Some?
    ensures var m := Update(f, targetPosition).value.currentOrder.value;
      && (TakeControl(f, d) ==> MoveUnits.Update(m, false, d, angle, ms).1 == MoveUnits.Moved(ms, angle, d))
      && (d < f.distance ==> MoveUnits.Update(m, false, d, angle, ms).1 == MoveUnits.Arrived(true))
      && MoveUnits.KeepsControl(MoveUnits.Update(m, false, d, angle, ms).1)
  {
  }
}
