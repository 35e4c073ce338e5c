/** The order commands of the older engine's `Unit`
    (Game/Engine/Entities/UnitPartials/Orders.cs) that differ from the newer
    generation. Its `SetOrder`, `ClearOrder`, `OrderMove` overloads and
    `TryCastAbility(ClientState)` are the same as the newer ones and are
    modelled once, in `Orders`. */
module LegacyUnitOrders {
  import opened Wrappers
  import Vectors
  import Players
  import opened Orders
  import UnitOrders

  /** `OrderFollow(target)`: installs a follow-unit order. */
  function OrderFollow(u: OrderSlots, target: UnitId): (r: (OrderSlots, seq<OrderChanged>))
    ensures r.0.currentOrder == Some(FollowUnit(target)) && r.0.defaultOrder == u.defaultOrder
    ensures r.1 == [OrderChanged(Some(FollowUnit(target)))]
  {
    SetOrder(u, Some(FollowUnit(target)))
  }

  /** `OrderAttack(target)`: a no-op for a target that is not an enemy;
      for an enemy it throws, as attacking is not implemented here. */
  function OrderAttack(u: OrderSlots, owner: Players.Player, target: UnitId, targetOwner: Players.Player): (r: Result<(OrderSlots, seq<OrderChanged>)>)
    ensures !Players.IsEnemyOf(owner, targetOwner) ==> r == Success((u, []))
    ensures Players.IsEnemyOf(owner, targetOwner) ==> r == Failure(NotImplemented)
  {
    if !Players.IsEnemyOf(owner, targetOwner) then Success((u, []))
    else Failure(NotImplemented)
  }

  /** `OrderPatrol(location)`: not implemented, always throws. */
  function OrderPatrol(u: OrderSlots, location: Vectors.Vector): (r: Result<(OrderSlots, seq<OrderChanged>)>)
    ensures r == Failure(NotImplemented)
  {
    Failure(NotImplemented)
  }

  /** `OrderMoveAttack(location)`: not implemented, always throws. */
  function OrderMoveAttack(u: OrderSlots, location: Vectors.Vector): (r: Result<(OrderSlots, seq<OrderChanged>)>)
    ensures r == Failure(NotImplemented)
  {
    Failure(NotImplemented)
  }

  /** Where the two generations part: the newer one attacks enemies and
      cannot follow, the older one follows and cannot attack; for a
      non-enemy both leave the unit alone. */
  lemma GenerationsDiffer(u: OrderSlots, owner: Players.Player, target: UnitId, targetOwner: Players.Player, location: Vectors.Vector)
    ensures Players.IsEnemyOf(owner, targetOwner) ==>
      OrderAttack(u, owner, target, targetOwner).Failure?
      && UnitOrders.OrderAttack(u, owner, target, targetOwner).0.currentOrder == Some(SpamCast(target))
    ensures !Players.IsEnemyOf(owner, targetOwner) ==>
      OrderAttack(u, owner, target, targetOwner) == Success(UnitOrders.OrderAttack(u, owner, target, targetOwner))
    ensures OrderFollow(u, target).0.currentOrder == Some(FollowUnit(target))
      && UnitOrders.OrderFollow(u, target).Failure?
    ensures OrderMoveAttack(u, location).Failure?
      && UnitOrders.OrderMoveAttack(u, location).0.currentOrder == Some(MoveAttack(location))
  {
  }
}
