/** The presentation state every map object carries
    (Game/Engine/Entities/Entity.cs): name, position, texture scale, model,
    animation and tints. Strings that default to null in the source are
    `Option<string>`; floats are reals. */
module Entities {
  import opened Wrappers
  import CsMath
  import Vectors

  /** The size constants of the engine (`Constants.Entities`), which are not
      part of this model and are given as a parameter. */
  datatype SizeLimits = SizeLimits(minSize: real, maxSize: real, defaultSize: real)

  predicate ValidLimits(limits: SizeLimits) {
    limits.minSize <= limits.maxSize
  }

  datatype Color = Color(r: int, g: int, b: int, a: int)

  const White := Color(255, 255, 255, 255)

  const DefaultName := "Dummy Unit"

  datatype Entity = Entity(
    name: string,
    position: Vectors.Vector,
    scale: real,
    model: Option<string>,
    animation: Option<string>,
    loopAnimation: bool,
    defaultTint: Color,
    currentTint: Color)

  /** A newly constructed entity: the field initialisers. The initial scale is
      assigned to the backing field directly and is not clamped. */
  function Fresh(limits: SizeLimits): (r: Entity)
    ensures r.name == "Dummy Unit"
    ensures r.defaultTint == White && r.currentTint == White
    ensures r.scale == limits.defaultSize
    ensures r.animation.None? && r.model.None? && !r.loopAnimation
  {
    Entity(DefaultName, Vectors.Zero, limits.defaultSize, None, None, false, White, White)
  }

  /** The `Scale` setter: the stored value is clamped into the size limits. */
  function SetScale(e: Entity, limits: SizeLimits, value: real): (r: Entity)
    requires ValidLimits(limits)
    ensures limits.minSize <= r.scale <= limits.maxSize
    ensures limits.minSize <= value <= limits.maxSize ==> r.scale == value
    ensures value < limits.minSize ==> r.scale == limits.minSize
    ensures value > limits.maxSize ==> r.scale == limits.maxSize
    ensures r.(scale := e.scale) == e
  {
    e.(scale := CsMath.ClampReal(value, limits.minSize, limits.maxSize))
  }

  /** The copy constructor: a fresh entity that takes the name, position,
      model and animation of `base`, and its scale through the clamping
      setter. Looping and tints are not copied. */
  function Copy(base: Entity, limits: SizeLimits): (r: Entity)
    requires ValidLimits(limits)
    ensures r.name == base.name && r.position == base.position
    ensures r.model == base.model && r.animation == base.animation
    ensures limits.minSize <= r.scale <= limits.maxSize
    ensures limits.minSize <= base.scale <= limits.maxSize ==> r.scale == base.scale
    ensures !r.loopAnimation && r.defaultTint == White && r.currentTint == White
  {
    var e := Fresh(limits).(name := base.name, position := base.position,
                            model := base.model, animation := base.animation);
    SetScale(e, limits, base.scale)
  }

  /** Copying a copy gives the copy again: everything the copy constructor
      takes is already in a copy, and its scale is already within limits. */
  lemma CopyIdempotent(base: Entity, limits: SizeLimits)
    requires ValidLimits(limits)
    ensures Copy(Copy(base, limits), limits) == Copy(base, limits)
  {
  }

  /** `ResetAnimation`: the default animation, looping; nothing else changes. */
  function ResetAnimation(e: Entity, defaultAnimation: string): (r: Entity)
    ensures r.animation == Some(defaultAnimation) && r.loopAnimation
    ensures r.(animation := e.animation, loopAnimation := e.loopAnimation) == e
  {
    e.(animation := Some(defaultAnimation), loopAnimation := true)
  }

  /** `PlayAnimation`: the given animation and looping flag; nothing else
      changes. */
  function PlayAnimation(e: Entity, animation: string, loop: bool): (r: Entity)
    ensures r.animation == Some(animation) && r.loopAnimation == loop
    ensures r.(animation := e.animation, loopAnimation := e.loopAnimation) == e
  {
    e.(animation := Some(animation), loopAnimation := loop)
  }

  /** The animation setters overwrite each other: only the last one counts,
      and resetting is playing the default animation in a loop. */
  lemma AnimationLastWriteWins(e: Entity, a1: string, l1: bool, a2: string, l2: bool, d: string)
    ensures PlayAnimation(PlayAnimation(e, a1, l1), a2, l2) == PlayAnimation(e, a2, l2)
    ensures ResetAnimation(PlayAnimation(e, a1, l1), d) == ResetAnimation(e, d)
    ensures ResetAnimation(e, d) == PlayAnimation(e, d, true)
  {
  }

  /** Setting the scale twice to the same value is setting it once, and
      reading back a stored scale and storing it again changes nothing. */
  lemma SetScaleIdempotent(e: Entity, limits: SizeLimits, value: real)
    requires ValidLimits(limits)
    ensures SetScale(SetScale(e, limits, value), limits, value) == SetScale(e, limits, value)
    ensures var s := SetScale(e, limits, value); SetScale(s, limits, s.scale) == s
  {
  }
}
