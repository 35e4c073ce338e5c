/** The aggro behaviour of computer-controlled units
    (src/Engine/Objects/Orders/Aggro.cs): a table of threat scores per
    enemy unit, and the choice of the unit to chase and attack.

    The table is a dictionary in the source; here it is a sequence of
    entries with distinct units, in the dictionary's enumeration order.
    Scores are floats in the source and reals here. Whether a unit is
    dead and its distance from the owner are read from parameters. */
module Aggro {
  import opened Wrappers
  import Players

  type UnitId = nat

  /** The aggro table: the units in enumeration order, and their scores. */
  datatype Table = Table(order: seq<UnitId>, scores: map<UnitId, real>)

  predicate Valid(t: Table) {
    && (forall i, j :: 0 <= i < j < |t.order| ==> t.order[i] != t.order[j])
    && t.scores.Keys == (set u | u in t.order)
  }

  const Empty := Table([], map[])

  /** The dictionary's `TryGetValue`: the score of `u`, or 0 (the default
      the out-parameter receives) when absent. */
  function Score(t: Table, u: UnitId): real {
    if u in t.scores then t.scores[u] else 0.0
  }

  /** `table[u] = v`: overwrites in place, or appends when absent. */
  function Put(t: Table, u: UnitId, v: real): (r: Table)
    requires Valid(t)
    ensures Valid(r)
    ensures Score(r, u) == v && u in r.scores
    ensures forall w :: w != u ==> (w in r.scores <==> w in t.scores) && Score(r, w) == Score(t, w)
    ensures u in t.scores ==> r.order == t.order
    ensures u !in t.scores ==> r.order == t.order + [u]
  {
    Table(if u in t.scores then t.order else t.order + [u], t.scores[u := v])
  }

  // ---------------------------------------------------------------------
  // Target selection

  function Live(order: seq<UnitId>, dead: set<UnitId>): (r: seq<UnitId>)
    ensures forall u :: u in r <==> u in order && u !in dead
    ensures (forall i, j :: 0 <= i < j < |order| ==> order[i] != order[j]) ==>
            (forall i, j :: 0 <= i < j < |r| ==> r[i] != r[j])
    decreases |order|
  {
    if |order| == 0 then []
    else if order[0] in dead then Live(order[1..], dead)
    else
      var rest := Live(order[1..], dead);
      assert forall u :: u in order <==> u == order[0] || u in order[1..];
      [order[0]] + rest
  }

  /** The table without the dead units, in the same order. */
  function Purge(t: Table, dead: set<UnitId>): (r: Table)
    requires Valid(t)
    ensures Valid(r)
    ensures forall u :: u in r.scores <==> u in t.scores && u !in dead
    ensures forall u :: u in r.scores ==> r.scores[u] == t.scores[u]
  {
    Table(Live(t.order, dead), map u | u in t.scores && u !in dead :: t.scores[u])
  }

  /** `best` wins against every live unit listed in `order`: none scores
      higher, and none with an equal score is strictly nearer. */
  predicate Beats(best: UnitId, order: seq<UnitId>, t: Table, dead: set<UnitId>, dist: UnitId -> real)
    requires Valid(t)
    requires best in t.scores
  {
    forall j :: 0 <= j < |order| && order[j] in t.scores && order[j] !in dead ==>
      t.scores[order[j]] <= t.scores[best]
      && (t.scores[order[j]] == t.scores[best] ==> dist(best) <= dist(order[j]))
  }

  /** `updateTarget`: one pass over the table that remembers the highest
      score seen so far, replacing it on a higher score, or on an equal one
      at no greater distance; dead units are skipped and purged from the
      table. Returns `None` when the table is empty or every unit is dead. */
  method UpdateTarget(t: Table, dead: set<UnitId>, dist: UnitId -> real) returns (target: Option<UnitId>, t': Table)
    requires Valid(t)
    ensures t' == Purge(t, dead)
    ensures target.None? <==> forall u :: u in t.scores ==> u in dead
    ensures |t.order| == 0 ==> target.None?
    ensures target.Some? ==> target.value in t.scores && target.value !in dead
    ensures target.Some? ==> Beats(target.value, t.order, t, dead, dist)
  {
    if |t.order| == 0 {
      return None, Purge(t, dead);
    }
    var best: Option<UnitId> := None;
    var i := 0;
    while i < |t.order|
      invariant 0 <= i <= |t.order|
      invariant best.None? ==> forall j :: 0 <= j < i ==> t.order[j] in dead
      invariant best.Some? ==> best.value in t.scores && best.value !in dead
      invariant best.Some? ==> Beats(best.value, t.order[..i], t, dead, dist)
    {
      var u := t.order[i];
      var score := t.scores[u];
      if u !in dead {
        if best.None? {
          best := Some(u);
        } else if score < t.scores[best.value] {
        } else if score == t.scores[best.value] && dist(u) > dist(best.value) {
        } else {
          best := Some(u);
        }
      }
      i := i + 1;
    }
    assert t.order[..i] == t.order;
    return best, Purge(t, dead);
  }

  // ---------------------------------------------------------------------
  // Table maintenance

  /** `onDamageReceived`, as written: the `TryGetValue` test is inverted, so
      the current score is zeroed exactly when there is one, and the new
      score is the latest damage alone. */
  function OnDamageReceived(t: Table, source: UnitId, damage: real): (r: Table)
    requires Valid(t)
    ensures Valid(r)
    ensures Score(r, source) == damage
    ensures forall w :: w != source ==> Score(r, w) == Score(t, w)
  {
    var current := if source in t.scores then 0.0 else Score(t, source);
    Put(t, source, current + damage)
  }

  /** The behaviour the method evidently intends: damage adds to the
      damaging unit's score, starting from 0 for a unit not yet listed. */
  function OnDamageAccumulated(t: Table, source: UnitId, damage: real): (r: Table)
    requires Valid(t)
    ensures Valid(r)
    ensures Score(r, source) == Score(t, source) + damage
    ensures forall w :: w != source ==> Score(r, w) == Score(t, w)
  {
    Put(t, source, Score(t, source) + damage)
  }

  function ApplyDamage(t: Table, hits: seq<(UnitId, real)>): (r: Table)
    requires Valid(t)
    ensures Valid(r)
    decreases |hits|
  {
    if |hits| == 0 then t
    else ApplyDamage(OnDamageAccumulated(t, hits[0].0, hits[0].1), hits[1..])
  }

  function DamageFrom(hits: seq<(UnitId, real)>, u: UnitId): real
    decreases |hits|
  {
    if |hits| == 0 then 0.0
    else (if hits[0].0 == u then hits[0].1 else 0.0) + DamageFrom(hits[1..], u)
  }

  /** With accumulation, a unit's score is everything it had plus all the
      damage it has dealt since. */
  lemma {:induction false} DamageAccumulates(t: Table, hits: seq<(UnitId, real)>, u: UnitId)
    requires Valid(t)
    ensures Score(ApplyDamage(t, hits), u) == Score(t, u) + DamageFrom(hits, u)
    decreases |hits|
  {
    if |hits| > 0 {
      DamageAccumulates(OnDamageAccumulated(t, hits[0].0, hits[0].1), hits[1..], u);
    }
  }

  /** As written, the score after a hit is the hit alone, whatever the unit
      had before: a unit with 10 threat that deals 5 damage ends at 5, where
      the accumulating version gives 15. */
  lemma DamageOverwrites()
    ensures Valid(Table([7], map[7 := 10.0]))
    ensures Score(OnDamageReceived(Table([7], map[7 := 10.0]), 7, 5.0), 7) == 5.0
    ensures Score(OnDamageAccumulated(Table([7], map[7 := 10.0]), 7, 5.0), 7) == 15.0
  {
  }

  /** `onEntitySeen`: an enemy unit not yet listed joins the table at 0.
      `owner` is the seen entity's owner, `None` when it is not a unit. */
  function OnEntitySeen(t: Table, me: Players.Player, e: UnitId, owner: Option<Players.Player>): (r: Table)
    requires Valid(t)
    ensures Valid(r)
    ensures owner.Some? && Players.IsEnemyOf(owner.value, me) && e !in t.scores ==>
      r.order == t.order + [e] && r.scores == t.scores[e := 0.0]
    ensures !(owner.Some? && Players.IsEnemyOf(owner.value, me)) || e in t.scores ==> r == t
  {
    if owner.Some? && Players.IsEnemyOf(owner.value, me) && e !in t.scores then Put(t, e, 0.0) else t
  }

  /** `ClearTable`. */
  function ClearTable(t: Table): (r: Table)
    ensures Valid(r) && r.scores == map[]
  {
    Empty
  }

  /** `ResetTable`: clear, then treat every entity the owner sees as newly
      seen. `owners` maps each unit id to its owner; other entities are
      absent from it. */
  function ResetTable(t: Table, me: Players.Player, visible: seq<UnitId>, owners: map<UnitId, Players.Player>): (r: Table)
    ensures Valid(r)
    ensures forall u :: u in r.scores ==> r.scores[u] == 0.0
    ensures forall u :: u in r.scores <==> u in visible && u in owners && Players.IsEnemyOf(owners[u], me)
  {
    SeeAll(ClearTable(t), me, visible, owners)
  }

  function SeeAll(t: Table, me: Players.Player, es: seq<UnitId>, owners: map<UnitId, Players.Player>): (r: Table)
    requires Valid(t)
    requires forall u :: u in t.scores ==> t.scores[u] == 0.0
    ensures Valid(r)
    ensures forall u :: u in r.scores ==> r.scores[u] == 0.0
    ensures forall u :: u in r.scores <==> u in t.scores || (u in es && u in owners && Players.IsEnemyOf(owners[u], me))
    decreases |es|
  {
    if |es| == 0 then t
    else
      var e := es[0];
      assert forall u :: u in es <==> u == e || u in es[1..];
      SeeAll(OnEntitySeen(t, me, e, if e in owners then Some(owners[e]) else None), me, es[1..], owners)
  }

  // ---------------------------------------------------------------------
  // Retargeting

  /** The parts of the aggro behaviour that `TakeControl` updates: its
      current target and the targets of its spam-cast and follow
      sub-behaviours, with the follow distance. */
  datatype AggroState = AggroState(
    table: Table,
    currentTarget: Option<UnitId>,
    spamTarget: Option<UnitId>,
    followTarget: Option<UnitId>,
    followMinDistance: real)

  /** `TakeControl`, up to handing control to the sub-behaviours: pick a
      target; when it differs from the current one, retarget both
      sub-behaviours and, for a unit, keep the follow distance at the mean of
      the two scales. */
  method TakeControl(s: AggroState, dead: set<UnitId>, dist: UnitId -> real, ownerScale: real, scaleOf: UnitId -> real)
    returns (r: AggroState)
    requires Valid(s.table)
    ensures r.table == Purge(s.table, dead)
    ensures r.currentTarget.Some? ==> r.currentTarget.value !in dead && r.currentTarget.value in s.table.scores
    ensures r.currentTarget.Some? ==> Beats(r.currentTarget.value, s.table.order, s.table, dead, dist)
    ensures r.currentTarget.None? <==> forall u :: u in s.table.scores ==> u in dead
    ensures r.currentTarget != s.currentTarget ==>
      r.spamTarget == r.currentTarget && r.followTarget == r.currentTarget
    ensures r.currentTarget != s.currentTarget && r.currentTarget.Some? ==>
      r.followMinDistance == (ownerScale + scaleOf(r.currentTarget.value)) / 2.0
    ensures r.currentTarget == s.currentTarget ==> r == s.(table := r.table)
    ensures r.currentTarget.None? ==> r.followMinDistance == s.followMinDistance
  {
    var newTarget, t' := UpdateTarget(s.table, dead, dist);
    r := s.(table := t');
    if newTarget != s.currentTarget {
      r := r.(spamTarget := newTarget, followTarget := newTarget);
      if newTarget.Some? {
        r := r.(followMinDistance := (ownerScale + scaleOf(newTarget.value)) / 2.0);
      }
      r := r.(currentTarget := newTarget);
    }
  }
}
