# ShanoRPG core, modelled in Dafny

ShanoRPG is a top-down action RPG with a game engine, a networked client
and a scenario editor. This project models the game-logic core of each:

- **Engine**:
  - players and their enmity table;
  - what a player sees, and the `ObjectSeen`/`ObjectUnseen` events it raises;
  - the aggro behaviour of computer-controlled units;
  - the order commands of both generations of `Unit`;
  - the move-to-unit order and the follow behaviour;
  - buff durations;
  - the edge-triggered range event;
  - the entity presentation state.
- **Shared value types**: integer points with C# division and remainder, real vectors, and the wrap-around tick counter.
- **Network**: the server frame the serializer writes for a player, and the client frame it reads back.
- **Client**:
  - the terrain chunk cache, with its request throttle and eviction;
  - the chat box's text editing and cursor blink;
  - the key-to-character tables;
  - key bindings and how they print.
- **Editor**: loading a scenario's startup objects, adding and removing objects, and flattening the terrain grid.

Each source component is one module, in one file:

| module | file | source |
|---|---|---|
| `Wrappers` | `wrappers.dfy` | `Option`/`Result`, and the exceptions the code throws |
| `CsMath` | `cs_math.dfy` | C# truncating `/` and `%`, `Clamp`, 32-bit wrap-around |
| `Counters` | `counter.dfy` | `Counter` |
| `Points` | `point.dfy` | `Point` |
| `Vectors` | `vector.dfy` | `Vector` |
| `Buffs` | `buff.dfy` | `BuffInstance` |
| `Entities` | `entity.dfy` | `Entity` |
| `RangeEvents` | `range_event.dfy` | `ObjectRangeEvent` |
| `Players` | `players.dfy` | `Player` |
| `Aggro` | `aggro.dfy` | `Aggro` |
| `Orders` | `orders.dfy` | the parts of `Unit` (orders) both generations share |
| `UnitOrders` | `unit_orders.dfy` | the newer engine's order commands |
| `LegacyUnitOrders` | `legacy_unit_orders.dfy` | the older engine's order commands |
| `MoveUnits` | `move_unit.dfy` | `MoveUnit` |
| `FollowBehaviours` | `follow_behaviour.dfy` | `FollowBehaviour` |
| `EngineSerializer` | `engine_serializer.dfy` | `EngineSerializer` |
| `Terrain` | `terrain.dfy` | the client `Terrain` system |
| `ChatBoxes` | `chatbox.dfy` | `ChatBox` |
| `Keys` | `keys.dfy` | `KeyMap` |
| `Keybinds` | `keybind.dfy` | `Keybind` |
| `Editor` | `editor.dfy` | `EditorController` |

### How the C# is modelled

- Mutable objects become immutable datatypes. Each operation is a function or method from the old state to the new one.
- Events the code raises are returned as a sequence alongside the new state.
- Exceptions are `Result` failures: `ArgumentOutOfRange`, `IndexOutOfRange`, `InvalidArgument`, `DivideByZero`, `NullReference`, `NotImplemented`.
- A null reference is `None`.
- The following become parameters:
  - distances and angles computed with `Math.Sqrt`/`Math.Atan2`;
  - the clock;
  - the map lookups and factories the code calls but that are not part of this model.
- Integers are unbounded. Only the terrain request clock models 32-bit wrap-around, because that is where it matters (see Findings).

## Model

| member | source | states |
|---|---|---|
| Counters.New | Game/IO/Util/Counter.cs:28-33 | a negative maximum throws; otherwise the counter starts at 0 with that maximum |
| Counters.Tick | Game/IO/Util/Counter.cs:48-57 | below the maximum the ticks are added and `false` is returned; at or past it the value wraps to the remainder and `true` is returned; with maximum 0 the remainder throws (after `Value` was updated) |
| Counters.TickOnce | Game/IO/Util/Counter.cs:39-42 | a single tick reports the wrap exactly when the counter stood one below its maximum, and then restarts at 0; on a zero maximum it throws |
| Counters.Reset | Game/IO/Util/Counter.cs:63-69 | a negative new maximum throws; otherwise the value is zeroed and the maximum replaced, or kept when none is given |
| Counters.TickPreservesRange | Game/IO/Util/Counter.cs:48-57 | a non-negative tick keeps a counter within [0, max) and reports a wrap exactly when the sum reached the maximum |
| Counters.SingleTicksWrapAfterMax | Game/IO/Util/Counter.cs:39-57 | n single ticks count up one at a time, and report the wrap only on the tick that reaches the maximum, after which the value is 0 |
| Points.Uniform | Game/IO/Common/Point.cs:20-23 | the one-value constructor sets both coordinates |
| Points.Mod | Game/IO/Common/Point.cs:56-59 | `%` throws exactly for a zero divisor |
| Points.Eq | Game/IO/Common/Point.cs:70-73 | `==` is coordinate-wise equality |
| Points.Neq | Game/IO/Common/Point.cs:74-77 | `!=` is the negation of `==` |
| Points.EqualsObject | Game/IO/Common/Point.cs:86-92 | `Equals` is false for a non-point, else `==` |
| Points.AddSubRoundTrip | Game/IO/Common/Point.cs:43-51 | `-` undoes `+` and `+` undoes `-` |
| Points.ScaleIsUniformProduct | Game/IO/Common/Point.cs:60-68 | `*` by an integer is the element-wise `*` by a uniform point; by 1 it changes nothing, by 0 it gives the origin |
| Points.Div | Game/IO/Common/Point.cs:52-55 | `/` throws exactly for a zero divisor; otherwise each coordinate is the C# quotient, truncated toward zero |
| Points.ModIsEuclidean | Game/IO/Common/Point.cs:56-59 | for a positive divisor, the double-remainder formula is the Euclidean remainder, in [0, divisor), for negative coordinates too |
| Points.DivTruncatesTowardZero | Game/IO/Common/Point.cs:52-55 | `/` succeeds for a non-zero divisor; the quotient's magnitude is the quotient of magnitudes (truncation toward zero) |
| Points.IterateToInclusiveAt | Game/IO/Common/Point.cs:31-36 | the k-th yielded point is column k / h, row k % h of the rectangle (X outer loop, Y inner) |
| Points.IterateToInclusiveMembership | Game/IO/Common/Point.cs:31-36 | a point is yielded iff it lies in the closed rectangle from `a` to `b` |
| Points.IterateToInclusiveDistinct | Game/IO/Common/Point.cs:31-36 | no point is yielded twice |
| Points.IterateToInclusive | Game/IO/Common/Point.cs:31-36 | the count yielded is width × height of the closed rectangle, and 0 once either span is negative |
| Vectors.Uniform | Game/IO/Math/Vector.cs:74-77 | the one-value constructor sets both coordinates |
| Vectors.Div | Game/IO/Math/Vector.cs:109-120 | element-wise division is defined exactly when neither divisor component is 0, and multiplying back with the element-wise `*` gives the dividend |
| Vectors.DivScalar | Game/IO/Math/Vector.cs:148-156 | scalar division is defined exactly for a non-zero scalar, and multiplying back with the scalar `*` gives the dividend |
| Vectors.AddSubRoundTrip | Game/IO/Math/Vector.cs:93-104 | `-` undoes `+` and `+` undoes `-`; `+` is commutative |
| Vectors.ScalarRoundTrips | Game/IO/Math/Vector.cs:135-146 | the scalar `+` and `-` add or subtract the uniform vector of the scalar, and undo each other |
| Vectors.ScaleIsUniformProduct | Game/IO/Math/Vector.cs:117-151 | the scalar `*` is the element-wise `*` by a uniform vector; by 1 it changes nothing |
| Vectors.NegateIsInverse | Game/IO/Math/Vector.cs:169-172 | unary `-` is the additive inverse (zero minus the vector) and undoes itself |
| Vectors.LengthSquaredNonNegative | Game/IO/Math/Vector.cs:188-191 | the squared length is never negative, and is 0 for the zero vector |
| Vectors.LengthSquaredOfNegate | Game/IO/Math/Vector.cs:169-191 | the squared length does not change under unary `-` |
| Vectors.Index | Game/IO/Math/Vector.cs:47-59 | dimension 0 is X, 1 is Y, anything else throws `ArgumentOutOfRangeException` |
| Vectors.Eq | Game/IO/Math/Vector.cs:122-125 | `==` is coordinate-wise equality |
| Vectors.Neq | Game/IO/Math/Vector.cs:127-130 | `!=` is the negation of `==` |
| Vectors.EqualsObject | Game/IO/Math/Vector.cs:332-337 | `Equals` is false for a non-vector, else `==` |
| Vectors.DistanceToSquared | Game/IO/Math/Vector.cs:252-257 | the squared distance is the squared length of the difference, 0 from a point to itself |
| Vectors.DistanceToSquaredSymmetric | Game/IO/Math/Vector.cs:252-257 | the squared distance is symmetric |
| Vectors.Normalize | Game/IO/Math/Vector.cs:204-210 | a zero vector is returned unchanged; otherwise the result scaled by the length gives the vector back |
| Vectors.Clamp | Game/IO/Math/Vector.cs:311-316 | each coordinate lands in [min, max] when min ≤ max, is unchanged when already inside, and is `max` when max < min (the outer `Min` wins) |
| Vectors.MoveInside | Game/IO/Math/Vector.cs:289-293 | the result lies in the rectangle (for a non-negative size); a point already inside is unchanged |
| Vectors.InsideIncludesEdges | Game/IO/Math/Vector.cs:283-287 | `Inside` is closed: all four corners of a rectangle of non-negative size are inside it |
| Vectors.ClampFixesExactlyInside | Game/IO/Math/Vector.cs:283-293 | `Inside` holds exactly for the vectors that clamping to the rectangle leaves unchanged |
| Vectors.ClampIdempotent | Game/IO/Math/Vector.cs:311-316 | clamping twice is clamping once |
| Buffs.New | Game/Engine/Systems/Buffs/BuffInstance.cs:25-32 | a new instance has its buff's full duration left and calls `OnApplied` |
| Buffs.Update | Game/Engine/Systems/Buffs/BuffInstance.cs:64-78 | a timed buff loses the elapsed time, then expires and is destroyed if that ended it, otherwise updates; an untimed buff only updates |
| Buffs.DurationCountsDown | Game/Engine/Systems/Buffs/BuffInstance.cs:20-32 | after any series of updates a timed buff has its full duration minus their sum left, and `ShouldDestroy` holds iff that sum reached its full duration; an untimed one never changes and never should be destroyed |
| Buffs.CountDown | Game/Engine/Systems/Buffs/BuffInstance.cs:64-78 | updates subtract their total from a timed buff's duration and never change an untimed one |
| Entities.Fresh | Game/Engine/Entities/Entity.cs:40-106 | a new entity is named "Dummy Unit", tinted white, has no model or animation and does not loop |
| Entities.SetScale | Game/Engine/Entities/Entity.cs:47-54 | the scale setter stores the value clamped into the size limits and changes nothing else |
| Entities.Copy | Game/Engine/Entities/Entity.cs:121-129 | the clone takes name, position, model and animation; its scale is the original's clamped; everything else is fresh |
| Entities.CopyIdempotent | Game/Engine/Entities/Entity.cs:121-129 | cloning a clone gives the clone again |
| Entities.ResetAnimation | Game/Engine/Entities/Entity.cs:134-138 | the default animation, looping; nothing else changes |
| Entities.PlayAnimation | Game/Engine/Entities/Entity.cs:140-144 | the given animation and loop flag; nothing else changes |
| Entities.AnimationLastWriteWins | Game/Engine/Entities/Entity.cs:134-144 | the later animation call overrides the earlier one; resetting is playing the default looped |
| Entities.SetScaleIdempotent | Game/Engine/Entities/Entity.cs:47-54 | setting the same scale twice is setting it once, and re-setting the stored scale changes nothing |
| RangeEvents.DoCheck | Game/Engine/Systems/RangeEvents/Constraints/ObjectRangeEvent.cs:49-53 | fires iff the new distance is inside the range and the old one was not (or was NaN) |
| RangeEvents.StayingInsideNeverTriggers | Game/Engine/Systems/RangeEvents/Constraints/ObjectRangeEvent.cs:49-53 | an object that stays in range does not fire again |
| RangeEvents.TriggersExactlyOnEntry | Game/Engine/Systems/RangeEvents/Constraints/ObjectRangeEvent.cs:49-53 | leaving or staying outside never fires; entering, or first appearing inside, always does |
| RangeEvents.Triggers | Game/Engine/Systems/RangeEvents/Constraints/ObjectRangeEvent.cs:13-17 | along a path of distances the event fires exactly where the path crosses into range |
| RangeEvents.FiringsAreSeparatedByAnExit | Game/Engine/Systems/RangeEvents/Constraints/ObjectRangeEvent.cs:13-17 | between two firings the object has been out of range: one firing per crossing |
| Players.IsEnemyOf | src/Engine/Players/Player.cs:167-185 | a player is never its own enemy; enmity needs a human or the aggressive player on one side |
| Players.EnmitySymmetric | src/Engine/Players/Player.cs:167-185 | enmity is symmetric and irreflexive |
| Players.EnmityTable | src/Engine/Players/Player.cs:167-185 | humans are enemies of each other and of the aggressive player, the aggressive player of the friendly one, humans not of the friendly one; exactly these pairs |
| Players.BothAggressiveIsSelf | src/Engine/Players/Player.cs:176-182 | the "both aggressive" clause never makes two well-formed players enemies |
| Players.FindByName | src/Engine/Players/Player.cs:41-52 | the search finds a listed player with that name, or none exists |
| Players.TryParse | src/Engine/Players/Player.cs:41-52 | "Aggressive" and "Friendly" parse to the default players; nothing else parses |
| Players.OnObjectSeen | src/Engine/Players/Player.cs:243-249 | the entity joins the visible set; the event fires only if it was not there |
| Players.ShouldUnsee | src/Engine/Players/Player.cs:265-272 | true iff no unit of this player sees the entity |
| Players.OnObjectUnseen | src/Engine/Players/Player.cs:251-261 | the entity leaves the visible set only if no own unit sees it; the event fires only if it was removed |
| Players.AddControlledUnit | src/Engine/Players/Player.cs:219-228 | the unit is controlled and visible, returns true; the event fires if it was not visible |
| Players.RemoveControlledUnit | src/Engine/Players/Player.cs:230-239 | the unit is no longer controlled; it stops being visible (with the event) only when no own unit sees it |
| Players.TrySetMainHero | src/Engine/Players/Player.cs:197-213 | the same hero succeeds with no effect, another hero fails when one is set; otherwise the hero is set, added to the map if absent, given a default order, and announced |
| Players.MainHeroIsSticky | src/Engine/Players/Player.cs:197-213 | once a hero is set, no later call changes it |
| Players.ReplayAppend | src/Engine/Players/Player.cs:243-261 | replaying events is compositional |
| Players.EventsTrackVisibleSet | src/Engine/Players/Player.cs:243-261 | replaying the raised seen/unseen events on the old visible set gives exactly the new visible set |
| Players.SeenEntitiesStayVisible | src/Engine/Players/Player.cs:251-272 | an entity some own unit still sees stays visible through any notifications |
| Aggro.Put | src/Engine/Objects/Orders/Aggro.cs:163 | the indexer stores the score for the unit, appending a new key and leaving every other entry |
| Aggro.Live | src/Engine/Objects/Orders/Aggro.cs:126-130 | the enumeration without the dead units, in order and without repeats |
| Aggro.Purge | src/Engine/Objects/Orders/Aggro.cs:143-146 | removing the dead keeps exactly the live entries, with their scores |
| Aggro.UpdateTarget | src/Engine/Objects/Orders/Aggro.cs:111-149 | no target iff every listed unit is dead; the target is live and listed; no live unit has a higher score, or an equal score and a strictly smaller distance than the target; the dead are removed |
| Aggro.OnDamageReceived | src/Engine/Objects/Orders/Aggro.cs:155-164 | as written, the source's score becomes the damage alone; every other score is kept |
| Aggro.OnDamageAccumulated | src/Engine/Objects/Orders/Aggro.cs:155-164 | corrected, the damage adds to the source's score; every other score is kept |
| Aggro.DamageAccumulates | src/Engine/Objects/Orders/Aggro.cs:155-164 | with accumulation, a unit's score is its old score plus all the damage it dealt |
| Aggro.DamageOverwrites | src/Engine/Objects/Orders/Aggro.cs:160-163 | as written, a unit at 10 that deals 5 ends at 5; accumulated it ends at 15 |
| Aggro.OnEntitySeen | src/Engine/Objects/Orders/Aggro.cs:169-173 | an enemy unit not yet listed joins at 0; anything else leaves the table as it is |
| Aggro.ClearTable | src/Engine/Objects/Orders/Aggro.cs:94-95 | the table is emptied |
| Aggro.ResetTable | src/Engine/Objects/Orders/Aggro.cs:100-105 | the table holds exactly the visible enemy units, all at 0 |
| Aggro.SeeAll | src/Engine/Objects/Orders/Aggro.cs:103-104 | seeing a list of entities adds exactly the enemy units among them, at 0 |
| Aggro.TakeControl | src/Engine/Objects/Orders/Aggro.cs:67-82 | the target is the one `updateTarget` picks; on a change both sub-behaviours get it and a new target sets the follow distance to half the summed scales; otherwise nothing but the table changes |
| Orders.SetOrder | src/Engine/Entities/UnitPartials/Orders.cs:42-46 | the current order is replaced and `OrderChanged` fires with it |
| Orders.SetOrderReplaces | src/Engine/Entities/UnitPartials/Orders.cs:42-46 | the last order set is all that remains; setting the same order twice is setting it once |
| Orders.ClearOrder | src/Engine/Entities/UnitPartials/Orders.cs:127-128 | sets a null order and announces it |
| Orders.OrderMoveTo | src/Engine/Entities/UnitPartials/Orders.cs:133-134 | installs a move-to-ground order and announces it |
| Orders.OrderMoveDirection | src/Engine/Entities/UnitPartials/Orders.cs:148-149 | installs a move-in-direction order and announces it |
| Orders.OrderMoveToUnit | src/Engine/Entities/UnitPartials/Orders.cs:157-158 | installs a move-to-unit order and announces it |
| Orders.Dispatch | src/Engine/Entities/UnitPartials/Orders.cs:77-117 | no action or an unowned ability casts nothing; an unknown target type throws; a cast is for the requested ability, on an entity only if it is on the map |
| Orders.TryCastAbility | src/Engine/Entities/UnitPartials/Orders.cs:77-117 | throws exactly when the dispatch does; false without a cast; otherwise what `BeginCasting` returns |
| Orders.DispatchTable | src/Engine/Entities/UnitPartials/Orders.cs:89-116 | passive casts nothing, no-target casts plainly, point-target at the location, unit-target on the entity if on the map, point-or-unit on the entity if on the map else at the location |
| Orders.CastAttemptedIff | src/Engine/Entities/UnitPartials/Orders.cs:77-117 | nothing is cast iff there is no action, the ability is not owned, it is passive, or its unit target is not on the map |
| UnitOrders.OrderMoveAttack | src/Engine/Entities/UnitPartials/Orders.cs:141-142 | installs a move-attack order and announces it |
| UnitOrders.OrderAttack | src/Engine/Entities/UnitPartials/Orders.cs:164-170 | a non-enemy target changes nothing; an enemy gets a spam-cast order |
| UnitOrders.NoAttackOnOwnUnits | src/Engine/Entities/UnitPartials/Orders.cs:164-170 | a unit of one's own player is never attacked |
| UnitOrders.OrderFollow | src/Engine/Entities/UnitPartials/Orders.cs:176-179 | always throws `NotImplementedException` |
| UnitOrders.OrderPatrol | src/Engine/Entities/UnitPartials/Orders.cs:181-184 | always throws `NotImplementedException` |
| LegacyUnitOrders.OrderFollow | Game/Engine/Entities/UnitPartials/Orders.cs:141 | installs a follow-unit order and announces it |
| LegacyUnitOrders.OrderAttack | Game/Engine/Entities/UnitPartials/Orders.cs:143-149 | a non-enemy target changes nothing; an enemy throws `NotImplementedException` |
| LegacyUnitOrders.OrderPatrol | Game/Engine/Entities/UnitPartials/Orders.cs:151-154 | always throws |
| LegacyUnitOrders.OrderMoveAttack | Game/Engine/Entities/UnitPartials/Orders.cs:156-159 | always throws |
| LegacyUnitOrders.GenerationsDiffer | Game/Engine/Entities/UnitPartials/Orders.cs:141-159 | the older engine follows but cannot attack or move-attack, the newer attacks and move-attacks but cannot follow |
| MoveUnits.New | Game/Engine/Systems/Orders/MoveUnit.cs:38-45 | the order keeps its target, threshold and follow flag, has direction -1 and suggests the target's position |
| MoveUnits.NewDefault | Game/Engine/Systems/Orders/MoveUnit.cs:38 | the default threshold is 0.05 and the order keeps following |
| MoveUnits.Update | Game/Engine/Systems/Orders/MoveUnit.cs:48-70 | a dead target releases the unit; within the threshold it has arrived and keeps control iff it keeps following; otherwise it heads toward the target and keeps control |
| MoveUnits.EqualsObject | Game/Engine/Systems/Orders/MoveUnit.cs:73-82 | equal iff the other is a `MoveUnit` with the same target, follow flag and threshold |
| MoveUnits.Eq | Game/Engine/Systems/Orders/MoveUnit.cs:84-87 | `==` is `Equals` |
| MoveUnits.Neq | Game/Engine/Systems/Orders/MoveUnit.cs:89-92 | `!=` is the negation of `Equals` |
| MoveUnits.EqualityIsEquivalence | Game/Engine/Systems/Orders/MoveUnit.cs:73-92 | equality is reflexive, symmetric, transitive, and ignores direction and suggested location, so an update keeps an order equal to itself |
| FollowBehaviours.TakeControl | Game/Engine/Systems/Behaviours/Objects/FollowBehaviour.cs:24-30 | no target, no control; otherwise control iff the target is farther than the distance |
| FollowBehaviours.Update | Game/Engine/Systems/Behaviours/Objects/FollowBehaviour.cs:32-35 | a null target throws; otherwise the order becomes a move to the target at the behaviour's distance, following on |
| FollowBehaviours.GuardAgreesWithOrder | Game/Engine/Systems/Behaviours/Objects/FollowBehaviour.cs:24-35 | when the behaviour takes control, its order has not yet arrived and moves the unit |
| EngineSerializer.SameObject | Game/Network/Server/EngineSerializer.cs:97-98 | two object records are equal iff their object ids are |
| EngineSerializer.DifferentObject | Game/Network/Server/EngineSerializer.cs:100-101 | `!=` is the negation of `==` |
| EngineSerializer.EqualityIgnoresWriteType | Game/Network/Server/EngineSerializer.cs:90-107 | the same entity written as two different types is still the same object |
| EngineSerializer.FetchObjectIds | Game/Network/Server/EngineSerializer.cs:78-87 | another player's hero is written as a unit; everything else keeps its type |
| EngineSerializer.NoForeignHeroes | Game/Network/Server/EngineSerializer.cs:81-84 | a record is written as a hero iff it is the receptor's own hero |
| EngineSerializer.CollectTracksIds | Game/Network/Server/EngineSerializer.cs:22-24 | after any prefix of the visible entities, the hash set holds one record per distinct id, for exactly those ids |
| EngineSerializer.CollectDistinct | Game/Network/Server/EngineSerializer.cs:22-24 | no two records of the hash set share an id |
| EngineSerializer.CollectOrigin | Game/Network/Server/EngineSerializer.cs:22-24 | each record comes from the first visible entity with its id |
| EngineSerializer.WriteServerFrame | Game/Network/Server/EngineSerializer.cs:20-40 | the frame counts its records; there is one per distinct visible id, with no id twice, each from the first entity with that id |
| EngineSerializer.TryReadClientFrame | Game/Network/Server/EngineSerializer.cs:42-71 | succeeds iff there is data of at least three bytes whose remainder decodes; the state is the decoded one on success, none on failure; the frame id is always 0 |
| EngineSerializer.FrameIdIsDiscarded | Game/Network/Server/EngineSerializer.cs:51-61 | the frame id the client sent is not reported |
| Terrain.TryRequestChunk | Game/Client/Systems/Terrain.cs:159-174 | as written: a cached chunk is never requested; otherwise a request goes out iff none was made or the 32-bit `now - 5000` is not below the last one, and it records the time |
| Terrain.ThrottleAwayFromWrap | Game/Client/Systems/Terrain.cs:159-174 | away from the wrap, a first request goes out, a repeat within 5000 ms is suppressed, one after it goes out |
| Terrain.TryRequestChunkWrapSafe | Game/Client/Systems/Terrain.cs:159-174 | corrected: a request goes out iff the chunk is not cached and no request was made, or at least 5000 ms have elapsed on the wrapping clock |
| Terrain.WrapSafeThrottle | Game/Client/Systems/Terrain.cs:164-168 | corrected: a repeat `d` ms later goes out iff `d` ≥ 5000, wherever the clock stands |
| Terrain.ThrottleStallsAfterWrap | Game/Client/Systems/Terrain.cs:165-168 | as written, a request last made at 2147483000 is suppressed 14296 ms later, when the clock reads -2147470000 |
| Terrain.AsWrittenThrottle | Game/Client/Systems/Terrain.cs:159-174 | as written, for a repeat `d` ms after a first request (0 ≤ d < 2^32): with no wrap in between and the clock at least 5000 ms past `int.MinValue` it goes out iff d ≥ 5000; across the wrap it goes out iff d ≥ 5000 while the clock is within 5000 ms of `int.MinValue`, and never afterwards until the clock comes round; a repeat with no wrap in between but the clock within 5000 ms of `int.MinValue` always goes out |
| Terrain.ThrottleMisfiresAtWrap | Game/Client/Systems/Terrain.cs:165-168 | as written, a request at 2147483647 is not repeated 5001 ms later (clock -2147478648) though the wrap-safe throttle repeats it; a request at -2147483548 is repeated only 1000 ms later (clock -2147482548) though the wrap-safe throttle suppresses it |
| Terrain.DestroyChunk | Game/Client/Systems/Terrain.cs:192-200 | the chunk is gone and disposed of if it was cached; an absent one changes nothing |
| Terrain.Nearest | Game/Client/Systems/Terrain.cs:180-182 | a chunk of the set no other is nearer than |
| Terrain.CleanupChunks | Game/Client/Systems/Terrain.cs:176-190 | at most 10000 chunks changes nothing; beyond it exactly 7500 are kept, none farther than any removed one, and the removed lose their request times too |
| Terrain.SetChunk | Game/Client/Systems/Terrain.cs:128-136 | one chunk of `setMap`: an uncached chunk is built from the message's data and span; a cached one has the message's tiles set on top of its history; no other chunk changes |
| Terrain.SetChunks | Game/Client/Systems/Terrain.cs:126-137 | every listed chunk ends up cached and others are untouched; a chunk cached before has the message's tiles set once per time it is listed; an uncached one is built from the message and then has its tiles set once per further listing |
| Terrain.SetMap | Game/Client/Systems/Terrain.cs:124-138 | the chunks from the span's position to one before its far corner are cached, built from the message or with its tiles set as in `SetChunks`; other chunks and the requests are untouched |
| Terrain.SetMapDistinctChunks | Game/Client/Systems/Terrain.cs:124-138 | when the chunks between the corners are distinct, each ends up built from the message if it was not cached and with the message's tiles set once if it was |
| Terrain.ClearChunk | Game/Client/Systems/Terrain.cs:146-152 | one chunk of `clearMap`: a chunk the span covers entirely is no longer cached; a cached one it covers in part has exactly the overlap cleared; an uncached one it covers in part changes nothing; requests and other chunks are untouched |
| Terrain.ClearChunks | Game/Client/Systems/Terrain.cs:144-153 | a chunk stays cached iff it was cached and is not a listed chunk the span covers entirely; a listed cached chunk covered in part has the overlap cleared once per listing; unlisted chunks keep their entries; requests are untouched |
| Terrain.ClearMap | Game/Client/Systems/Terrain.cs:140-154 | over the chunks from the span's position to its far corner, exactly those the span covers entirely are no longer cached and the cached ones it covers in part have the overlap cleared; chunks outside that range keep their entries; requests are untouched |
| Terrain.HandleMessage | Game/Client/Systems/Terrain.cs:104-120 | a message that is not map data changes nothing; map data without a map is exactly `ClearMap` of its span (so chunks are only removed), with a map exactly `SetMap` (so chunks are only added); requests are untouched |
| Terrain.ClearUndoesSet | Game/Client/Systems/Terrain.cs:104-154 | a covered chunk set by a message is gone after the matching clear |
| ChatBoxes.Cut | Game/Client/UI/Game/ChatBox.cs:107 | cutting removes exactly `count` characters at `start` and keeps both sides |
| ChatBoxes.CutOut | Game/Client/UI/Game/ChatBox.cs:168-173 | the cut succeeds iff the span lies in the string; otherwise it throws |
| ChatBoxes.Insert | Game/Client/UI/Game/ChatBox.cs:158 | inserting puts the character at the index and shifts the rest |
| ChatBoxes.SetCursor | Game/Client/UI/Game/ChatBox.cs:63-66 | the cursor is clamped into [0, length]; nothing else changes |
| ChatBoxes.SetSelection | Game/Client/UI/Game/ChatBox.cs:75-78 | the selection is clamped into [0, length - cursor]; nothing else changes |
| ChatBoxes.RemoveSelection | Game/Client/UI/Game/ChatBox.cs:164-176 | a forward selection is cut in place; as written, a leftward selection of length n is cut from n to 2n characters right of the cursor, which moves n to the right, and it throws iff that span runs past the text; corrected, any selection is removed from where it is drawn and the cursor moves to its start; on success the box stays valid with no selection |
| ChatBoxes.RemoveLeftSelection | Game/Client/UI/Game/ChatBox.cs:166-170 | as written, the cut span lies n to 2n characters right of the cursor and the call throws iff it runs past the text; corrected, a leftward selection is cut to the left of the cursor, which moves to its start |
| ChatBoxes.RemoveRightSelection | Game/Client/UI/Game/ChatBox.cs:171-175 | a forward selection is cut from the cursor on, the cursor stays put and the box stays valid with no selection |
| ChatBoxes.Press | Game/Client/UI/Game/ChatBox.cs:94-162 | a box not being written to ignores keys; any success leaves a valid box; corrected, no key throws |
| ChatBoxes.CharPressedAsWritten | Game/Client/UI/Game/ChatBox.cs:94-176 | as written, the key handler keeps the box valid when it succeeds, and agrees with the corrected handler whenever the selection is not leftward |
| ChatBoxes.PressAgreesOnForwardSelection | Game/Client/UI/Game/ChatBox.cs:164-176 | the two removals differ only for a leftward selection |
| ChatBoxes.CharPressed | Game/Client/UI/Game/ChatBox.cs:94-162 | corrected, every key leaves a valid box and keeps the writing and blink state |
| ChatBoxes.TypingReplacesSelection | Game/Client/UI/Game/ChatBox.cs:153-160 | typing replaces the selection with the character and leaves the cursor after it |
| ChatBoxes.TypeThenBackspace | Game/Client/UI/Game/ChatBox.cs:101-109 | typing a character and then Backspace restores the text and cursor |
| ChatBoxes.BackspaceAndDelete | Game/Client/UI/Game/ChatBox.cs:101-115 | without a selection, Backspace removes the character before the cursor and Delete the one after |
| ChatBoxes.ShiftArrowsKeepAnchor | Game/Client/UI/Game/ChatBox.cs:116-139 | Shift+arrows move the cursor by one, clamped, while cursor + selection stays put |
| ChatBoxes.ArrowsDropSelection | Game/Client/UI/Game/ChatBox.cs:116-139 | plain arrows clear the selection and move the cursor by one, clamped |
| ChatBoxes.SelectAllAndNoOps | Game/Client/UI/Game/ChatBox.cs:140-155 | Ctrl+A selects everything from 0; Up, Down and a NUL character change nothing |
| ChatBoxes.RemovesWrongSide | Game/Client/UI/Game/ChatBox.cs:166-170 | as written, Shift+Right from the start of "abc" then Backspace deletes the "c" ("ab"); corrected it deletes the selected "a" ("bc") |
| ChatBoxes.RemoveThrowsAsWritten | Game/Client/UI/Game/ChatBox.cs:166-170 | as written, typing over the whole text selected leftwards throws |
| ChatBoxes.Update | Game/Client/UI/Game/ChatBox.cs:207-228 | the chat key toggles writing and clears the text when a message is sent; while writing the blink advances modulo 1000 |
| ChatBoxes.BlinkPeriod | Game/Client/UI/Game/ChatBox.cs:207-228 | a full 1000 ms blink period later, a box being written to is unchanged and its cursor shows exactly when it showed before |
| ChatBoxes.CursorBlinks | Game/Client/UI/Game/ChatBox.cs:52-55 | `CursorVisible` is false for a box not being written to; for one being written to, half a blink period (500 ms) of `Update` flips it |
| Keys.AddSimpleMap | Game/Client/Input/KeyMap.cs:46-50 | both tables map the key to the character; other keys are untouched |
| Keys.AddSequentialMap | Game/Client/Input/KeyMap.cs:52-59 | each key in the range maps to the start characters offset by its distance from the first key; other keys are untouched |
| Keys.AddCustomMap | Game/Client/Input/KeyMap.cs:61-70 | each key in the range maps to the string's character at its offset; a range longer than the strings throws `IndexOutOfRangeException`, as the string indexer does |
| Keys.SimpleKeys | Game/Client/Input/KeyMap.cs:26-36 | `GetChar` over the built `Tables`: Space and Back map to themselves in both cases; None, Delete and the arrows map to nothing |
| Keys.LetterAndNumPadKeys | Game/Client/Input/KeyMap.cs:26-39 | `GetChar` over the built `Tables`: A-Z give lower case normally and upper case with caps; the number pad gives digits either way |
| Keys.DigitRowKeys | Game/Client/Input/KeyMap.cs:26-41 | `GetChar` over the built `Tables`: the digit row gives digits normally and the US symbols with caps |
| Keys.MappedKeys | Game/Client/Input/KeyMap.cs:26-44 | `GetChar` over the built `Tables`: a key has a normal character iff it has a caps one, iff it is in one of the seven mapped ranges |
| Keybinds.FromKey | Game/Client/Input/Keybind.cs:56-59 | a key alone is a binding without modifiers |
| Keybinds.ShortPrefix | Game/Client/Input/Keybind.cs:37-40 | the prefix holds C, A and S exactly for Control, Alt and Shift |
| Keybinds.KeyGlyph | Game/Client/Input/Keybind.cs:41 | the key's normal character, or '?' |
| Keybinds.ToShortString | Game/Client/Input/Keybind.cs:32-43 | "N/A" for no key; otherwise the modifier prefix followed by the key's glyph |
| Keybinds.NotApplicableOnlyForNone | Game/Client/Input/Keybind.cs:32-43 | the short string is "N/A" iff there is no key |
| Keybinds.ShortStringDecodes | Game/Client/Input/Keybind.cs:32-43 | equal short strings mean the same glyph and the same Control, Alt and Shift |
| Keybinds.ShortStringIgnoresWindows | Game/Client/Input/Keybind.cs:37-40 | the Windows modifier does not show in the short string |
| Keybinds.FlagNames | Game/Client/Input/Keybind.cs:67 | the flag names listed are exactly those of the modifiers held |
| Keybinds.Join | Game/Client/Input/Keybind.cs:67 | joining with ", " keeps exactly the names' characters |
| Keybinds.ModifiersNameMentions | Game/Client/Input/Keybind.cs:67 | the modifiers' text mentions a modifier's initial iff it is held |
| Keybinds.ModifiersNameInjective | Game/Client/Input/Keybind.cs:67 | different modifier sets print differently |
| Keybinds.ToString | Game/Client/Input/Keybind.cs:61-69 | "N/A" for no key; the key name alone without modifiers; otherwise modifiers, "+", key name |
| Keybinds.ToStringDecodes | Game/Client/Input/Keybind.cs:61-69 | with modifiers, equal strings mean equal modifiers and equal key names |
| Keybinds.Eq | Game/Client/Input/Keybind.cs:45-48 | `==` compares key and modifiers |
| Keybinds.Neq | Game/Client/Input/Keybind.cs:50-53 | `!=` is the negation of `==` |
| Editor.CreateObject | Editor/MapAdapter/EditorController.cs:160-168 | null when that call to the creator fails; otherwise the entity it created, carrying its constructor as data |
| Editor.AddObject | Editor/MapAdapter/EditorController.cs:174-184 | succeeds iff the entity is not yet a startup object; then it is a startup object and visible, else nothing changes |
| Editor.RemoveObject | Editor/MapAdapter/EditorController.cs:186-196 | succeeds iff the entity is a startup object; then it is neither that nor visible, else nothing changes |
| Editor.AddRemoveRoundTrip | Editor/MapAdapter/EditorController.cs:174-196 | adding then removing a new object restores the state |
| Editor.CreatedIdsMembers | Editor/MapAdapter/EditorController.cs:143-153 | a startup object is exactly one some constructor created |
| Editor.RemoveFirst | Editor/MapAdapter/EditorController.cs:152 | `List.Remove` removes one occurrence, or nothing when absent |
| Editor.RejectedAreListed | Editor/MapAdapter/EditorController.cs:143-153 | every rejected constructor came from the list |
| Editor.KeptIsOriginalLessRejected | Editor/MapAdapter/EditorController.cs:143-153 | the constructors kept and those rejected together are the original list |
| Editor.ShownFor | Editor/MapAdapter/EditorController.cs:134-137 | God plus exactly the startup objects are shown |
| Editor.LoadStartupObjects | Editor/MapAdapter/EditorController.cs:134-153 | with one creator call per listed constructor, the startup objects are exactly the entities the calls created; God and they are visible; the list loses exactly the rejected constructors |
| Editor.FreshCreatorKeepsAll | Editor/MapAdapter/EditorController.cs:146-153 | when every call creates a distinct entity, nothing is rejected: the list is kept whole, repeated constructors included, and there is one startup object per constructor |
| Editor.DuplicateConstructorCreatesTwice | Editor/MapAdapter/EditorController.cs:146-153 | a constructor listed twice yields two startup objects and both copies stay in the list |
| Editor.Index | Editor/MapAdapter/EditorController.cs:379 | `x + width * y` lies in the array and gives back x and y |
| Editor.CellAt | Editor/MapAdapter/EditorController.cs:379 | every array index is `x + width * y` for one cell in range |
| Editor.IndexInjective | Editor/MapAdapter/EditorController.cs:379 | distinct cells land at distinct indices |
| Editor.MapData | Editor/MapAdapter/EditorController.cs:373-382 | the flat array has width × height entries and each holds its cell's terrain |

## Left out

- Drawing, fonts, textures, vertex buffers, `Screen` and camera geometry.
- The `Draw` methods, `EnumerateNearbyChunks` and the per-frame `Update` loop of the terrain system.
- Threads and the network transport.
- The `GameSerializer` byte layout of a record. A record is its object id and write type.
- The protocol-buffer decoding of a client frame is a parameter.
- `ReadUint24` is not part of this model. It is read as: fail on fewer than three bytes.
- Floating point:
  - doubles and floats are reals;
  - the only NaN modelled is the "no previous distance" of the range event; a division of vectors by a zero component or a zero scalar, which gives infinite or NaN components in C#, is a `None` result instead (see `Vectors.Div` and `Vectors.DivScalar` below);
  - `Math.Sqrt`, `Math.Atan2`, `Math.Cos` and `Math.Sin` are not modelled. Distances and angles are inputs, and `Normalize` takes the length as a parameter.
- 32-bit overflow of `int` arithmetic. It is modelled only for the terrain request clock (`Environment.TickCount`). Point arithmetic, counter ticks, buff durations and blink phases use unbounded integers.
- Points.IterateToInclusive: yields a finite sequence even when `other.X` or `other.Y` is `int.MaxValue`, where the source's `x <= other.X` / `y <= other.Y` loop counter wraps round and the enumeration never ends; this model has no 32-bit wrap for points.
- `GetHashCode`, `ToString` of points and vectors, `Vector.Angle`, `AngleTo`, `PolarProjection`, `ToPoint`, `Round`, `Floor`, `Ceiling`, `Point.DistanceTo`. These are conversions and rendering helpers outside the logic modelled here.
- Helpers these files call whose code is not part of this model. Each is read by its evident meaning:
  - `CutOut` (as `String.Remove`: throws outside the string);
  - `Clamp`;
  - `TryGet`/`TryGetVal` (absent is null);
  - `Rectangle.IntersectWith` and `MapChunkId.ChunksBetween`, chunk spans and centres (passed in as functions);
  - `ObjectCreator.CreateObject` (a function that may fail);
  - `Constants.Entities` sizes (a parameter);
  - the XNA `Keys` names (a `keyName` parameter).
- Enumeration order:
  - the `Keys` values are the Windows virtual-key codes of the XNA enum;
  - `ModifierKeys` prints its set flags in ascending flag value (Alt, Control, Shift, Windows) joined by ", ";
  - `HashSet` and `Dictionary` enumerate in insertion order, as they do when nothing was removed.
- Entities are identified by id. Reference equality of C# objects is id equality.
- Events such as `MapChanged` and `MainHeroChanged` are returned as effect lists. Subscribing to and unsubscribing from unit events is not modelled.
- `Player.AddControlledUnit`: the code marks only the unit itself as seen. It does not add what the unit already sees. The model follows the code.
- Keys.AddCustomMap: requires the two strings to have equal length, which the source checks with `Debug.Assert`. The source writes the entries in front of the index that throws before it throws; the model fails as a whole and writes nothing. No call in the source throws.
- Keys.AddSequentialMap: requires the characters to stay below the surrogate range, which every call in the source does.
- Editor.MapData: requires the terrain grid to have exactly the map's width and height. The source's `MapConfig` keeps them in step.
- Vectors.Div: a zero divisor component gives `None` for the whole result, where C# yields ±Infinity or NaN components; IEEE infinities and NaN are not modelled.
- Vectors.DivScalar: a zero scalar gives `None` for the whole result, where C# yields ±Infinity or NaN components; IEEE infinities and NaN are not modelled.
- Editor.LoadStartupObjects: models only the startup-object loop and the God entry, not the handshake, map resend or tool setup.
- Aggro.TakeControl: does not return the result of `base.TakeControl()` (whether one of the sub-behaviours takes control), because the sub-behaviours' own decisions are not part of this model; only the retargeting is.
- Vectors.LengthSquaredNonNegative: does not state the converse, that only the zero vector has squared length 0, because the proof needs non-linear real arithmetic this model does not develop.
- Aggro.UpdateTarget: the tie-break by distance is stated as "no live unit beats the target". Which of several equally good units wins follows the enumeration order and is not stated.
- Terrain.CleanupChunks: which of several equally distant chunks are kept is not stated, because `OrderBy` with equal keys is only stable, and the order is not modelled.
- Counters.TickOnce: states the result only for a counter in range or with maximum 0. A value left out of range by a negative `Tick(ticks)` is not described.
- Entities.Fresh: the initial scale is the size limits' default, unclamped, as the backing field initialiser is not part of this model.

## Findings

| source | as written | input that shows it | evidently intended | confidence | as-written member | corrected member |
|---|---|---|---|---|---|---|
| src/Engine/Objects/Orders/Aggro.cs:160-163 | `if (TryGetValue(...)) curAggro = 0;` resets a known unit's aggro to zero before adding the damage, so the score is only the last hit | a unit with aggro 10 deals 5 damage: its aggro becomes 5 | damage accumulates: 10 + 5 = 15 | high, not executed | Aggro.OnDamageReceived, Aggro.DamageOverwrites | Aggro.OnDamageAccumulated, Aggro.DamageAccumulates |
| Game/Client/UI/Game/ChatBox.cs:166-170 | a leftward (negative) selection is cut at `CursorPosition - SelectionLength`, to the right of the cursor, and the cursor moves there | "abc" with the cursor at 0: Shift+Right leaves cursor 1, selection -1 (the "a"); Backspace then gives "ab" with cursor 2. With "ab", cursor 2, selection -2, typing a character throws | cut the selected span, from `cursor + sel` to `cursor`, and move the cursor to its start: "bc" with cursor 0 | high, not executed | ChatBoxes.CharPressedAsWritten, ChatBoxes.RemovesWrongSide, ChatBoxes.RemoveThrowsAsWritten | ChatBoxes.CharPressed, ChatBoxes.TypingReplacesSelection |
| Game/Client/Systems/Terrain.cs:165-167 | `timeNow - SpamInterval < lastRequest` on `Environment.TickCount`, which wraps from 2147483647 to -2147483648, so the subtraction wraps too | a request last made at 2147483000: a repeat goes out only while the clock reads -2147479296 to -2147478649 (5000 to 5647 ms later); from -2147478648 on, for instance at -2147470000 (14296 ms later), every repeat is suppressed until the clock comes round, 2^32 ms (about 49.7 days) after the first request. Conversely a request made at -2147483548, 100 ms after the wrap, is repeated when the clock reads -2147482548, only 1000 ms later | suppress exactly while fewer than 5000 ms have elapsed on the wrapping clock | medium, not executed | Terrain.TryRequestChunk, Terrain.AsWrittenThrottle, Terrain.ThrottleStallsAfterWrap, Terrain.ThrottleMisfiresAtWrap | Terrain.TryRequestChunkWrapSafe, Terrain.WrapSafeThrottle |
