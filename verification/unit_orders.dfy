/** The order commands of the newer engine's `Unit`
    (src/Engine/Entities/UnitPartials/Orders.cs) that differ between the two
    generations. The shared ones are in `Orders`. */
module UnitOrders {
  import opened Wrappers
  import Vectors
  import Players
  import opened Orders

  /** `OrderMoveAttack(location)`. */
  function OrderMoveAttack(u: OrderSlots, location: Vectors.Vector): (r: (OrderSlots, seq<OrderChanged>))
    ensures r.0.currentOrder == Some(MoveAttack(location)) && r.0.defaultOrder == u.defaultOrder
    ensures r.1 == [OrderChanged(Some(MoveAttack(location)))]
  {
    SetOrder(u, Some(MoveAttack(location)))
  }

  /** `OrderAttack(target)`: only an enemy of the unit's owner can be
      attacked; the order is to spam-cast at it. Otherwise nothing happens,
      not even an announcement. */
  function OrderAttack(u: OrderSlots, owner: Players.Player, target: UnitId, targetOwner: Players.Player): (r: (OrderSlots, seq<OrderChanged>))
    ensures !Players.IsEnemyOf(owner, targetOwner) ==> r == (u, [])
    ensures Players.IsEnemyOf(owner, targetOwner) ==>
      r.0.currentOrder == Some(SpamCast(target)) && r.0.defaultOrder == u.defaultOrder
      && r.1 == [OrderChanged(Some(SpamCast(target)))]
  {
    if !Players.IsEnemyOf(owner, targetOwner) then (u, [])
    else SetOrder(u, Some(SpamCast(target)))
  }

  /** A unit is never ordered to attack a unit of its own player. */
  lemma NoAttackOnOwnUnits(u: OrderSlots, owner: Players.Player, target: UnitId)
    ensures OrderAttack(u, owner, target, owner) == (u, [])
  {
    Players.EnmitySymmetric(owner, owner);
  }

  /** `OrderFollow(target)`: not implemented, always throws. */
  function OrderFollow(u: OrderSlots, target: UnitId): (r: Result<(OrderSlots, seq<OrderChanged>)>)
    ensures r == Failure(NotImplemented)
  {
    Failure(NotImplemented)
  }

  /** `OrderPatrol(location)`: not implemented, always throws. */
  function OrderPatrol(u: OrderSlots, location: Vectors.Vector): (r: Result<(OrderSlots, seq<OrderChanged>)>)
    ensures r == Failure(NotImplemented)
  {
    Failure(NotImplemented)
  }
}
