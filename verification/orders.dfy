/** The order bookkeeping both generations of `Unit` share
    (src/Engine/Entities/UnitPartials/Orders.cs and
    Game/Engine/Entities/UnitPartials/Orders.cs): replacing the current
    order, and turning a player's action request into an ability cast.
    The order objects themselves are values naming their kind and target;
    what they do when run is not part of this model. */
module Orders {
  import opened Wrappers
  import Vectors

  type UnitId = nat
  type EntityId = nat
  type AbilityId = nat

  /** The orders a unit can be given, each with the target it was built
      with (the unit giving the order is implicit). */
  datatype Order =
    | MoveToGround(location: Vectors.Vector)
    | MoveAttack(location: Vectors.Vector)
    | MoveDirection(direction: real)
    | MoveToUnit(unit: UnitId)
    | SpamCast(unit: UnitId)
    | FollowUnit(unit: UnitId)

  /** The order slots of a unit; `None` is a null order. */
  datatype OrderSlots = OrderSlots(currentOrder: Option<Order>, defaultOrder: Option<Order>)

  /** `OrderChanged`, raised with the new current order. */
  datatype OrderChanged = OrderChanged(order: Option<Order>)

  /** `SetOrder`: the current order is replaced outright and the change is
      announced with the new value. */
  function SetOrder(u: OrderSlots, o: Option<Order>): (r: (OrderSlots, seq<OrderChanged>))
    ensures r.0.currentOrder == o && r.0.defaultOrder == u.defaultOrder
    ensures r.1 == [OrderChanged(o)]
  {
    (u.(currentOrder := o), [OrderChanged(o)])
  }

  /** Setting an order is a whole replacement: the earlier order leaves no
      trace, only the announcements accumulate. */
  lemma SetOrderReplaces(u: OrderSlots, a: Option<Order>, b: Option<Order>)
    ensures SetOrder(SetOrder(u, a).0, b).0 == SetOrder(u, b).0
    ensures SetOrder(SetOrder(u, a).0, a).0 == SetOrder(u, a).0
  {
  }

  /** `ClearOrder`: set a null order. */
  function ClearOrder(u: OrderSlots): (r: (OrderSlots, seq<OrderChanged>))
    ensures r.0.currentOrder.None? && r.0.defaultOrder == u.defaultOrder
    ensures r.1 == [OrderChanged(None)]
  {
    SetOrder(u, None)
  }

  /** `OrderMove(location)`. */
  function OrderMoveTo(u: OrderSlots, location: Vectors.Vector): (r: (OrderSlots, seq<OrderChanged>))
    ensures r.0.currentOrder == Some(MoveToGround(location)) && r.0.defaultOrder == u.defaultOrder
    ensures r.1 == [OrderChanged(Some(MoveToGround(location)))]
  {
    SetOrder(u, Some(MoveToGround(location)))
  }

  /** `OrderMove(direction)`. */
  function OrderMoveDirection(u: OrderSlots, direction: real): (r: (OrderSlots, seq<OrderChanged>))
    ensures r.0.currentOrder == Some(MoveDirection(direction)) && r.0.defaultOrder == u.defaultOrder
    ensures r.1 == [OrderChanged(Some(MoveDirection(direction)))]
  {
    SetOrder(u, Some(MoveDirection(direction)))
  }

  /** `OrderMove(unit)`. */
  function OrderMoveToUnit(u: OrderSlots, target: UnitId): (r: (OrderSlots, seq<OrderChanged>))
    ensures r.0.currentOrder == Some(MoveToUnit(target)) && r.0.defaultOrder == u.defaultOrder
    ensures r.1 == [OrderChanged(Some(MoveToUnit(target)))]
  {
    SetOrder(u, Some(MoveToUnit(target)))
  }

  // ---------------------------------------------------------------------
  // Casting from a player's action request

  /** How an ability picks its target; `Other` stands for any value outside
      the named cases. */
  datatype TargetType = Passive | NoTarget | PointTarget | UnitTarget | PointOrUnitTarget | Other(code: int)

  /** The action part of a player's input state (`PlayerState` in the newer
      engine, `ClientState` in the older): the ability to use (0 for none),
      and the entity and location aimed at. */
  datatype ActionRequest = ActionRequest(actionId: nat, targetId: EntityId, targetLocation: Vectors.Vector)

  /** The `BeginCasting` call the dispatch ends in. */
  datatype Cast =
    | CastNoTarget(ability: AbilityId)
    | CastAtPoint(ability: AbilityId, location: Vectors.Vector)
    | CastOnEntity(ability: AbilityId, entity: EntityId)

  /** The dispatch of `TryCastAbility(state)`: which cast to begin, if any.
      `abilities` maps each ability the unit owns to its target type;
      `onMap` holds the entity ids the map resolves. An unknown target type
      throws. */
  function Dispatch(req: ActionRequest, abilities: map<AbilityId, TargetType>, onMap: set<EntityId>): (r: Result<Option<Cast>>)
    ensures req.actionId == 0 || req.actionId !in abilities ==> r == Success(None)
    ensures r.Failure? <==> req.actionId != 0 && req.actionId in abilities && abilities[req.actionId].Other?
    ensures r.Failure? ==> r.error == ArgumentOutOfRange
    ensures r.Success? && r.value.Some? ==> r.value.value.ability == req.actionId
    ensures r.Success? && r.value.Some? && r.value.value.CastOnEntity? ==>
      r.value.value.entity == req.targetId && req.targetId in onMap
    ensures r.Success? && r.value.Some? && r.value.value.CastAtPoint? ==>
      r.value.value.location == req.targetLocation
  {
    if req.actionId == 0 then Success(None)
    else if req.actionId !in abilities then Success(None)
    else
      var a := req.actionId;
      match abilities[a]
      case Passive => Success(None)
      case NoTarget => Success(Some(CastNoTarget(a)))
      case PointTarget => Success(Some(CastAtPoint(a, req.targetLocation)))
      case UnitTarget =>
        if req.targetId in onMap then Success(Some(CastOnEntity(a, req.targetId))) else Success(None)
      case PointOrUnitTarget =>
        if req.targetId in onMap then Success(Some(CastOnEntity(a, req.targetId)))
        else Success(Some(CastAtPoint(a, req.targetLocation)))
      case Other(_) => Failure(ArgumentOutOfRange)
  }

  /** `TryCastAbility(state)`: false without a cast, otherwise whatever
      `BeginCasting` answers (`begin`). */
  function TryCastAbility(req: ActionRequest, abilities: map<AbilityId, TargetType>, onMap: set<EntityId>, begin: Cast -> bool): (r: Result<bool>)
    ensures r.Failure? <==> Dispatch(req, abilities, onMap).Failure?
    ensures Dispatch(req, abilities, onMap) == Success(None) ==> r == Success(false)
    ensures Dispatch(req, abilities, onMap).Success? && Dispatch(req, abilities, onMap).value.Some? ==>
      r == Success(begin(Dispatch(req, abilities, onMap).value.value))
  {
    match Dispatch(req, abilities, onMap)
    case Failure(e) => Failure(e)
    case Success(None) => Success(false)
    case Success(Some(c)) => Success(begin(c))
  }

  /** The dispatch table, case by case: which requests cast nothing, and
      where each kind of ability is aimed. */
  lemma DispatchTable(req: ActionRequest, abilities: map<AbilityId, TargetType>, onMap: set<EntityId>)
    requires req.actionId != 0 && req.actionId in abilities
    ensures var a := req.actionId; var t := abilities[a];
      && (t == Passive ==> Dispatch(req, abilities, onMap) == Success(None))
      && (t == NoTarget ==> Dispatch(req, abilities, onMap) == Success(Some(CastNoTarget(a))))
      && (t == PointTarget ==> Dispatch(req, abilities, onMap) == Success(Some(CastAtPoint(a, req.targetLocation))))
      && (t == UnitTarget && req.targetId !in onMap ==> Dispatch(req, abilities, onMap) == Success(None))
      && (t.UnitTarget? || t.PointOrUnitTarget? ==>
            (req.targetId in onMap <==> Dispatch(req, abilities, onMap) == Success(Some(CastOnEntity(a, req.targetId)))))
      && (t == PointOrUnitTarget && req.targetId !in onMap ==>
            Dispatch(req, abilities, onMap) == Success(Some(CastAtPoint(a, req.targetLocation))))
  {
  }

  /** A cast is attempted exactly for an owned, active ability whose target
      requirements are met. */
  lemma CastAttemptedIff(req: ActionRequest, abilities: map<AbilityId, TargetType>, onMap: set<EntityId>)
    ensures Dispatch(req, abilities, onMap) == Success(None) <==>
      req.actionId == 0 || req.actionId !in abilities
      || abilities[req.actionId] == Passive
      || (abilities[req.actionId] == UnitTarget && req.targetId !in onMap)
  {
  }
}
