/** Players: enmity between them, and the set of entities each one sees
    (src/Engine/Players/Player.cs). Players, units, heroes and entities are
    ids; which units see an entity (`Entity.visibleFromUnits`) and who owns
    each unit are read from a `World`; the events a player raises are
    returned as lists. */
module Players {
  import opened Wrappers

  type PlayerId = nat
  type EntityId = nat

  /** The three kinds of player there are: a human player (one with a
      receptor), and the two default computer players. The computer
      constructor is private, so no other computer players exist. */
  datatype Role = Human | NeutralAggressive | NeutralFriendly

  datatype Player = Player(id: PlayerId, name: string, role: Role)

  /** The two default players. Their ids come from a global id generator
      whose values are not part of this model. */
  const AggressiveId: PlayerId := 0
  const FriendlyId: PlayerId := 1
  const Aggressive := Player(AggressiveId, "Aggressive", NeutralAggressive)
  const Friendly := Player(FriendlyId, "Friendly", NeutralFriendly)
  const DefaultPlayers := [Aggressive, Friendly]

  /** Ids are unique per player object, so a player with a neutral role is the
      corresponding singleton and a human player has an id of its own. */
  predicate WellFormed(p: Player) {
    && (p.role == NeutralAggressive <==> p == Aggressive)
    && (p.role == NeutralFriendly <==> p == Friendly)
    && (p.role == Human ==> p.id != AggressiveId && p.id != FriendlyId)
  }

  predicate IsHuman(p: Player) { p.role == Human }
  predicate IsNeutralAggressive(p: Player) { p.role == NeutralAggressive }
  predicate IsNeutralFriendly(p: Player) { p.role == NeutralFriendly }

  /** `IsEnemyOf`: never one's own enemy; otherwise enemies when a human or
      the friendly player meets the aggressive one, or two humans meet. */
  function IsEnemyOf(me: Player, p: Player): (r: bool)
    ensures p.id == me.id ==> !r
    ensures r ==> IsHuman(me) || IsHuman(p) || IsNeutralAggressive(me) || IsNeutralAggressive(p)
  {
    if p.id == me.id then false
    else
      var oneIsPlayer := IsHuman(p) || IsHuman(me);
      var bothArePlayers := IsHuman(p) && IsHuman(me);
      var oneIsFriendly := IsNeutralFriendly(p) || IsNeutralFriendly(me);
      var oneIsAggressive := IsNeutralAggressive(p) || IsNeutralAggressive(me);
      var bothAreAggressive := IsNeutralAggressive(p) && IsNeutralAggressive(me);
      (oneIsPlayer && oneIsAggressive)
      || bothAreAggressive
      || (oneIsAggressive && oneIsFriendly)
      || bothArePlayers
  }

  /** Enmity is symmetric and irreflexive. */
  lemma EnmitySymmetric(a: Player, b: Player)
    ensures IsEnemyOf(a, b) == IsEnemyOf(b, a)
    ensures !IsEnemyOf(a, a)
  {
  }

  /** The enmity table between well-formed players of different ids: humans
      fight each other and the aggressive player; the aggressive player
      fights the friendly one; humans and the friendly player are at peace. */
  lemma EnmityTable(a: Player, b: Player)
    requires WellFormed(a) && WellFormed(b) && a.id != b.id
    ensures IsHuman(a) && IsHuman(b) ==> IsEnemyOf(a, b)
    ensures IsHuman(a) && IsNeutralAggressive(b) ==> IsEnemyOf(a, b)
    ensures IsNeutralAggressive(a) && IsNeutralFriendly(b) ==> IsEnemyOf(a, b)
    ensures IsHuman(a) && IsNeutralFriendly(b) ==> !IsEnemyOf(a, b)
    ensures IsEnemyOf(a, b) <==>
      (IsHuman(a) && IsHuman(b)) || IsNeutralAggressive(a) != IsNeutralAggressive(b)
  {
  }

  /** The "both aggressive" clause never decides anything among well-formed
      players: two aggressive players are the same player. */
  lemma BothAggressiveIsSelf(a: Player, b: Player)
    requires WellFormed(a) && WellFormed(b)
    requires IsNeutralAggressive(a) && IsNeutralAggressive(b)
    ensures !IsEnemyOf(a, b)
  {
  }

  /** `TryParse`: the first default player with the given name. */
  function FindByName(players: seq<Player>, name: string): (r: Option<Player>)
    ensures r.Some? ==> r.value in players && r.value.name == name
    ensures r.None? <==> forall i :: 0 <= i < |players| ==> players[i].name != name
    ensures r.Some? ==> exists i :: 0 <= i < |players| && players[i] == r.value
                                    && forall j :: 0 <= j < i ==> players[j].name != name
  {
    if |players| == 0 then None
    else if players[0].name == name then Some(players[0])
    else FindByName(players[1..], name)
  }

  function TryParse(name: string): (r: Option<Player>)
    ensures r == Some(Aggressive) <==> name == "Aggressive"
    ensures r == Some(Friendly) <==> name == "Friendly"
    ensures r.None? <==> name != "Aggressive" && name != "Friendly"
  {
    assert "Aggressive"[0] != "Friendly"[0];
    assert DefaultPlayers[1..] == [Friendly];
    assert name == "Friendly" ==> FindByName([Friendly], name) == Some(Friendly);
    FindByName(DefaultPlayers, name)
  }

  // ---------------------------------------------------------------------
  // Visibility bookkeeping

  /** Who owns each unit, and which units currently see each entity. An
      entity missing from `seenBy` is seen by nobody. */
  datatype World = World(owner: map<EntityId, PlayerId>, seenBy: map<EntityId, set<EntityId>>)

  function SeenBy(w: World, e: EntityId): set<EntityId> {
    if e in w.seenBy then w.seenBy[e] else {}
  }

  predicate OwnedBy(w: World, u: EntityId, me: PlayerId) {
    u in w.owner && w.owner[u] == me
  }

  /** The per-player state the visibility logic touches. */
  datatype PlayerState = PlayerState(
    controlledUnits: set<EntityId>,
    visibleEntities: set<EntityId>,
    mainHero: Option<EntityId>)

  datatype PlayerEvent = ObjectSeen(e: EntityId) | ObjectUnseen(e: EntityId) | MainHeroChanged(h: EntityId)

  /** `onObjectSeen`: the entity becomes visible; the event fires only the
      first time. */
  function OnObjectSeen(s: PlayerState, e: EntityId): (r: (PlayerState, seq<PlayerEvent>))
    ensures r.0.visibleEntities == s.visibleEntities + {e}
    ensures r.0.(visibleEntities := s.visibleEntities) == s
    ensures r.1 == (if e in s.visibleEntities then [] else [ObjectSeen(e)])
  {
    if e in s.visibleEntities then (s, [])
    else (s.(visibleEntities := s.visibleEntities + {e}), [ObjectSeen(e)])
  }

  /** `shouldUnsee`, as the specification the loop below meets: none of the
      units that see the entity belongs to this player. */
  predicate NoOwnUnitSees(w: World, me: PlayerId, e: EntityId) {
    forall u :: u in SeenBy(w, e) ==> !OwnedBy(w, u, me)
  }

  /** `shouldUnsee`: walks the units that see the entity and stops at the
      first one this player owns. */
  method ShouldUnsee(w: World, me: PlayerId, e: EntityId) returns (r: bool)
    ensures r <==> NoOwnUnitSees(w, me, e)
  {
    var remaining := SeenBy(w, e);
    while remaining != {}
      invariant remaining <= SeenBy(w, e)
      invariant forall u :: u in SeenBy(w, e) - remaining ==> !OwnedBy(w, u, me)
      decreases |remaining|
    {
      var u :| u in remaining;
      if OwnedBy(w, u, me) {
        return false;
      }
      remaining := remaining - {u};
    }
    return true;
  }

  /** `onObjectUnseen`: the entity is removed, and the event fires, only if
      no unit of this player still sees it and it was visible. */
  function OnObjectUnseen(s: PlayerState, w: World, me: PlayerId, e: EntityId): (r: (PlayerState, seq<PlayerEvent>))
    ensures NoOwnUnitSees(w, me, e) ==> r.0.visibleEntities == s.visibleEntities - {e}
    ensures !NoOwnUnitSees(w, me, e) ==> r.0 == s && r.1 == []
    ensures r.0.(visibleEntities := s.visibleEntities) == s
    ensures r.1 != [] <==> NoOwnUnitSees(w, me, e) && e in s.visibleEntities
    ensures r.1 != [] ==> r.1 == [ObjectUnseen(e)]
  {
    if !NoOwnUnitSees(w, me, e) then (s, [])
    else if e !in s.visibleEntities then (s, [])
    else (s.(visibleEntities := s.visibleEntities - {e}), [ObjectUnseen(e)])
  }

  /** `AddControlledUnit`: the unit joins the controlled set and is itself
      marked as seen. The call always reports success, even for a unit that
      was already controlled. */
  function AddControlledUnit(s: PlayerState, u: EntityId): (r: (PlayerState, seq<PlayerEvent>, bool))
    ensures r.2
    ensures r.0.controlledUnits == s.controlledUnits + {u}
    ensures r.0.visibleEntities == s.visibleEntities + {u}
    ensures r.0.mainHero == s.mainHero
    ensures r.1 == (if u in s.visibleEntities then [] else [ObjectSeen(u)])
  {
    var s1 := s.(controlledUnits := s.controlledUnits + {u});
    var (s2, events) := OnObjectSeen(s1, u);
    (s2, events, true)
  }

  /** `RemoveControlledUnit`: the unit leaves the controlled set and is
      unseen by the usual rule. Always reports success, even for a unit that
      was not controlled. */
  function RemoveControlledUnit(s: PlayerState, w: World, me: PlayerId, u: EntityId): (r: (PlayerState, seq<PlayerEvent>, bool))
    ensures r.2
    ensures r.0.controlledUnits == s.controlledUnits - {u}
    ensures r.0.mainHero == s.mainHero
    ensures NoOwnUnitSees(w, me, u) ==> r.0.visibleEntities == s.visibleEntities - {u}
    ensures !NoOwnUnitSees(w, me, u) ==> r.0.visibleEntities == s.visibleEntities
    ensures r.1 == (if NoOwnUnitSees(w, me, u) && u in s.visibleEntities then [ObjectUnseen(u)] else [])
  {
    var s1 := s.(controlledUnits := s.controlledUnits - {u});
    var (s2, events) := OnObjectUnseen(s1, w, me, u);
    (s2, events, true)
  }

  /** What `TrySetMainHero` does besides returning: put the hero on the map
      when it is not there, give it a move-in-direction default order, and
      raise `MainHeroChanged`. */
  datatype HeroEffect = AddToMap(h: EntityId) | SetMoveDirectionOrder(h: EntityId) | RaiseMainHeroChanged(h: EntityId)

  /** `TrySetMainHero(h)`; `h` is `None` for a null hero, `onMap` says
      whether the map already holds the hero. */
  function TrySetMainHero(s: PlayerState, h: Option<EntityId>, onMap: bool): (r: (PlayerState, seq<HeroEffect>, bool))
    ensures s.mainHero == h ==> r == (s, [], true)
    ensures s.mainHero != h && s.mainHero.Some? ==> r == (s, [], false)
    ensures s.mainHero.None? && h.Some? ==>
      && r.2 && r.0 == s.(mainHero := h)
      && r.1 == (if onMap then [] else [AddToMap(h.value)])
                + [SetMoveDirectionOrder(h.value), RaiseMainHeroChanged(h.value)]
    ensures r.2 <==> s.mainHero == h || s.mainHero.None?
  {
    if s.mainHero == h then (s, [], true)
    else if s.mainHero.Some? then (s, [], false)
    else
      var hero := h.value;
      (s.(mainHero := h),
       (if onMap then [] else [AddToMap(hero)]) + [SetMoveDirectionOrder(hero), RaiseMainHeroChanged(hero)],
       true)
  }

  /** Once a hero is set, it stays: a second call changes nothing, whatever
      hero it offers. */
  lemma MainHeroIsSticky(s: PlayerState, h: Option<EntityId>, h2: Option<EntityId>, onMap: bool, onMap2: bool)
    requires h.Some?
    ensures var s1 := TrySetMainHero(s, h, onMap).0;
            s1.mainHero.Some? && TrySetMainHero(s1, h2, onMap2).0 == s1
  {
  }

  // ---------------------------------------------------------------------
  // The seen/unseen event stream

  /** The notifications a player receives: its units seeing or losing sight
      of an entity, and units joining or leaving its control. */
  datatype Notification = Seen(e: EntityId) | Unseen(e: EntityId) | UnitAdded(u: EntityId) | UnitRemoved(u: EntityId)

  function Handle(s: PlayerState, w: World, me: PlayerId, n: Notification): (PlayerState, seq<PlayerEvent>) {
    match n
    case Seen(e) => OnObjectSeen(s, e)
    case Unseen(e) => OnObjectUnseen(s, w, me, e)
    case UnitAdded(u) => var r := AddControlledUnit(s, u); (r.0, r.1)
    case UnitRemoved(u) => var r := RemoveControlledUnit(s, w, me, u); (r.0, r.1)
  }

  function Run(s: PlayerState, w: World, me: PlayerId, ns: seq<Notification>): (PlayerState, seq<PlayerEvent>)
    decreases |ns|
  {
    if |ns| == 0 then (s, [])
    else
      var (s1, ev1) := Handle(s, w, me, ns[0]);
      var (s2, ev2) := Run(s1, w, me, ns[1..]);
      (s2, ev1 + ev2)
  }

  /** What an observer that only listens to `ObjectSeen`/`ObjectUnseen`
      believes is visible. */
  function Replay(visible: set<EntityId>, events: seq<PlayerEvent>): set<EntityId>
    decreases |events|
  {
    if |events| == 0 then visible
    else
      var v := match events[0]
               case ObjectSeen(e) => visible + {e}
               case ObjectUnseen(e) => visible - {e}
               case MainHeroChanged(_) => visible;
      Replay(v, events[1..])
  }

  lemma {:induction false} ReplayAppend(visible: set<EntityId>, a: seq<PlayerEvent>, b: seq<PlayerEvent>)
    ensures Replay(visible, a + b) == Replay(Replay(visible, a), b)
    decreases |a|
  {
    if |a| > 0 {
      assert (a + b)[1..] == a[1..] + b;
      var v := match a[0]
               case ObjectSeen(e) => visible + {e}
               case ObjectUnseen(e) => visible - {e}
               case MainHeroChanged(_) => visible;
      ReplayAppend(v, a[1..], b);
    } else {
      assert a + b == b;
    }
  }

  /** Every event marks a real change: an `ObjectSeen` is raised only for an
      entity that was not visible, an `ObjectUnseen` only for one that was,
      so an observer replaying the events tracks the visible set exactly. */
  lemma {:induction false} EventsTrackVisibleSet(s: PlayerState, w: World, me: PlayerId, ns: seq<Notification>)
    ensures Replay(s.visibleEntities, Run(s, w, me, ns).1) == Run(s, w, me, ns).0.visibleEntities
    decreases |ns|
  {
    if |ns| > 0 {
      var (s1, ev1) := Handle(s, w, me, ns[0]);
      EventsTrackVisibleSet(s1, w, me, ns[1..]);
      ReplayAppend(s.visibleEntities, ev1, Run(s1, w, me, ns[1..]).1);
      assert Replay(s.visibleEntities, ev1) == s1.visibleEntities;
    }
  }

  /** An entity stays visible while any unit of the player sees it: no
      notification about it removes it. */
  lemma {:induction false} SeenEntitiesStayVisible(s: PlayerState, w: World, me: PlayerId, ns: seq<Notification>, e: EntityId)
    requires e in s.visibleEntities && !NoOwnUnitSees(w, me, e)
    ensures e in Run(s, w, me, ns).0.visibleEntities
    decreases |ns|
  {
    if |ns| > 0 {
      var (s1, _) := Handle(s, w, me, ns[0]);
      SeenEntitiesStayVisible(s1, w, me, ns[1..], e);
    }
  }
}
