/** The edge-triggered range check of an object-origin range event
    (Game/Engine/Systems/RangeEvents/Constraints/ObjectRangeEvent.cs).
    Squared distances are doubles in the source; the only non-number they
    take is NaN ("no previous distance"), which is `None` here. */
module RangeEvents {
  import opened Wrappers

  /** Where a squared distance lies relative to the range. */
  predicate Within(distSq: real, rangeSq: real) {
    distSq < rangeSq
  }

  /** `DoCheck`: fires when the object is now strictly within range and was
      not before (or its previous distance is unknown). */
  function DoCheck(newDistSq: real, oldDistSq: Option<real>, rangeSq: real): (r: bool)
    ensures r ==> Within(newDistSq, rangeSq)
    ensures r <==> Within(newDistSq, rangeSq)
                   && (oldDistSq.None? || !Within(oldDistSq.value, rangeSq))
  {
    newDistSq < rangeSq && (oldDistSq.None? || oldDistSq.value >= rangeSq)
  }

  /** An object that stays within range never triggers again. */
  lemma StayingInsideNeverTriggers(newDistSq: real, oldDistSq: real, rangeSq: real)
    requires Within(newDistSq, rangeSq) && Within(oldDistSq, rangeSq)
    ensures !DoCheck(newDistSq, Some(oldDistSq), rangeSq)
  {
  }

  /** An object leaving the range, or staying outside it, never triggers;
      entering it, or first appearing inside it, always does. */
  lemma TriggersExactlyOnEntry(newDistSq: real, oldDistSq: Option<real>, rangeSq: real)
    ensures !Within(newDistSq, rangeSq) ==> !DoCheck(newDistSq, oldDistSq, rangeSq)
    ensures Within(newDistSq, rangeSq) && oldDistSq.None? ==> DoCheck(newDistSq, oldDistSq, rangeSq)
    ensures Within(newDistSq, rangeSq) && oldDistSq.Some? && !Within(oldDistSq.value, rangeSq)
            ==> DoCheck(newDistSq, oldDistSq, rangeSq)
  {
  }

  /** Along a path of squared distances observed tick by tick, the event
      fires at tick `i` exactly when the path crosses into range there. */
  function Triggers(path: seq<real>, rangeSq: real, i: nat): (r: bool)
    requires i < |path|
    ensures r <==> Within(path[i], rangeSq) && (i == 0 || !Within(path[i - 1], rangeSq))
  {
    DoCheck(path[i], if i == 0 then None else Some(path[i - 1]), rangeSq)
  }

  /** Between two firings along a path, the object must have been out of
      range at some tick in between: one firing per entry. */
  lemma {:induction false} FiringsAreSeparatedByAnExit(path: seq<real>, rangeSq: real, i: nat, j: nat)
    requires i < j < |path|
    requires Triggers(path, rangeSq, i) && Triggers(path, rangeSq, j)
    ensures exists k :: i < k < j && !Within(path[k], rangeSq)
  {
    assert !Within(path[j - 1], rangeSq);
    assert j - 1 != i;
  }
}
