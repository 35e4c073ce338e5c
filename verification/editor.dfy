/** The scenario editor's view of the map (Editor/MapAdapter/EditorController.cs):
    the set of startup objects a scenario places on its map, the set of
    entities the editor shows to its client, and the flattening of the
    terrain grid it sends to the client.

    Entities are identified by their id. The camera entity (`God`) is kept
    apart from the scenario's objects so that its id can never clash with
    theirs. Object creation belongs to the scenario's object creator, which
    is not part of this model: it is a parameter `create` that turns an
    object constructor into an entity id or fails (null). It also receives
    the number of the call, as each call may build a new entity: the same
    constructor listed twice can create two entities. */
module Editor {
  import opened Wrappers
  import opened CsMath

  type EntityId = nat

  /** An entity the editor shows: the camera, or a scenario object. */
  datatype Shown = God | Obj(id: EntityId)

  /** The editor's bookkeeping: the startup objects and the shown entities. */
  datatype EditorState = EditorState(startup: set<EntityId>, visible: set<Shown>)

  /** Every startup object is shown. */
  predicate Consistent(s: EditorState) {
    forall e :: e in s.startup ==> Obj(e) in s.visible
  }

  /** A created entity, with its constructor saved as its data. */
  datatype Created<C> = Created(id: EntityId, data: C)

  /** `CreateObject`, as the `call`-th call to the creator: null when the
      creator fails, otherwise the entity with the constructor stored in it. */
  function CreateObject<C>(oc: C, call: nat, create: (C, nat) -> Option<EntityId>): (r: Option<Created<C>>)
    ensures r.None? <==> create(oc, call).None?
    ensures r.Some? ==> r.value.id == create(oc, call).value && r.value.data == oc
  {
    match create(oc, call)
    case None => Option.None
    case Some(id) => Some(Created(id, oc))
  }

  /** `AddObject`: true exactly when the entity was not yet a startup
      object; it then becomes one and is shown. A failed add changes
      nothing. The flag also says whether `MapChanged` is raised. */
  function AddObject(s: EditorState, e: EntityId): (r: (bool, EditorState))
    ensures r.0 <==> e !in s.startup
    ensures r.0 ==> r.1.startup == s.startup + {e} && r.1.visible == s.visible + {Obj(e)}
    ensures !r.0 ==> r.1 == s
    ensures Consistent(s) ==> Consistent(r.1)
  {
    if e in s.startup then (false, s)
    else (true, EditorState(s.startup + {e}, s.visible + {Obj(e)}))
  }

  /** `RemoveObject`: true exactly when the entity was a startup object; it
      then stops being one and stops being shown. A failed remove changes
      nothing. */
  function RemoveObject(s: EditorState, e: EntityId): (r: (bool, EditorState))
    ensures r.0 <==> e in s.startup
    ensures r.0 ==> r.1.startup == s.startup - {e} && r.1.visible == s.visible - {Obj(e)}
    ensures !r.0 ==> r.1 == s
    ensures Consistent(s) ==> Consistent(r.1)
  {
    if e !in s.startup then (false, s)
    else (true, EditorState(s.startup - {e}, s.visible - {Obj(e)}))
  }

  /** Adding a new object and removing it again restores the state, and
      removing a shown startup object and adding it back does too. */
  lemma AddRemoveRoundTrip(s: EditorState, e: EntityId)
    ensures e !in s.startup && Obj(e) !in s.visible ==>
      RemoveObject(AddObject(s, e).1, e) == (true, s)
    ensures e in s.startup && Obj(e) in s.visible ==>
      AddObject(RemoveObject(s, e).1, e) == (true, s)
  {
    if e !in s.startup && Obj(e) !in s.visible {
      assert s.startup + {e} - {e} == s.startup;
      assert s.visible + {Obj(e)} - {Obj(e)} == s.visible;
    }
    if e in s.startup && Obj(e) in s.visible {
      assert s.startup - {e} + {e} == s.startup;
      assert s.visible - {Obj(e)} + {Obj(e)} == s.visible;
    }
  }

  // ---------------------------------------------------------------------
  // The startup loop of `LoadScenario`.

  /** The ids created from the first `n` constructors. */
  function CreatedIds<C>(objects: seq<C>, create: (C, nat) -> Option<EntityId>, n: nat): set<EntityId>
    requires n <= |objects|
  {
    if n == 0 then {}
    else
      var prev := CreatedIds(objects, create, n - 1);
      match create(objects[n - 1], n - 1)
      case None => prev
      case Some(e) => prev + {e}
  }

  /** An id is created from the first `n` constructors exactly when one of
      them creates it. */
  lemma {:induction false} CreatedIdsMembers<C>(objects: seq<C>, create: (C, nat) -> Option<EntityId>, n: nat)
    requires n <= |objects|
    ensures forall e :: e in CreatedIds(objects, create, n) <==> exists i :: 0 <= i < n && create(objects[i], i) == Some(e)
  {
    if n > 0 {
      CreatedIdsMembers(objects, create, n - 1);
    }
  }

  /** Constructor `i` is kept: it creates an entity that no earlier
      constructor created. */
  predicate Accepted<C>(objects: seq<C>, create: (C, nat) -> Option<EntityId>, i: nat)
    requires i < |objects|
  {
    create(objects[i], i).Some? && create(objects[i], i).value !in CreatedIds(objects, create, i)
  }

  /** `List.Remove`: the list without the first element equal to `x`. */
  function RemoveFirst<C(==)>(s: seq<C>, x: C): (r: seq<C>)
    ensures x in s ==> multiset(r) + multiset{x} == multiset(s)
    ensures x !in s ==> r == s
  {
    if |s| == 0 then s
    else
      assert s == [s[0]] + s[1..];
      if s[0] == x then s[1..]
      else [s[0]] + RemoveFirst(s[1..], x)
  }

  /** The scenario's constructor list after the first `n` steps of the
      loop: each constructor that is not accepted is removed from it. */
  function KeptAfter<C(==)>(objects: seq<C>, create: (C, nat) -> Option<EntityId>, n: nat): seq<C>
    requires n <= |objects|
  {
    if n == 0 then objects
    else
      var prev := KeptAfter(objects, create, n - 1);
      if Accepted(objects, create, n - 1) then prev else RemoveFirst(prev, objects[n - 1])
  }

  /** The constructors among the first `n` that are not accepted. */
  function Rejected<C>(objects: seq<C>, create: (C, nat) -> Option<EntityId>, n: nat): (r: seq<C>)
    requires n <= |objects|
    ensures |r| <= n
  {
    if n == 0 then []
    else
      var prev := Rejected(objects, create, n - 1);
      if Accepted(objects, create, n - 1) then prev else prev + [objects[n - 1]]
  }

  /** The rejected constructors come out of the list itself. */
  lemma {:induction false} RejectedAreListed<C>(objects: seq<C>, create: (C, nat) -> Option<EntityId>, n: nat)
    requires n <= |objects|
    ensures multiset(Rejected(objects, create, n)) <= multiset(objects[..n])
  {
    if n > 0 {
      RejectedAreListed(objects, create, n - 1);
      assert objects[..n] == objects[..n - 1] + [objects[n - 1]];
    }
  }

  /** The constructor a rejected step removes is still in the list. */
  lemma {:induction false} RejectedStillListed<C>(objects: seq<C>, create: (C, nat) -> Option<EntityId>, n: nat)
    requires n < |objects|
    requires multiset(KeptAfter(objects, create, n)) + multiset(Rejected(objects, create, n)) == multiset(objects)
    ensures objects[n] in KeptAfter(objects, create, n)
  {
    var x := objects[n];
    var pre, rej, kept := objects[..n], Rejected(objects, create, n), KeptAfter(objects, create, n);
    RejectedAreListed(objects, create, n);
    assert multiset(objects) == multiset(pre) + multiset{x} + multiset(objects[n + 1..]) by {
      assert objects == pre + [x] + objects[n + 1..];
    }
    assert multiset(objects)[x] == multiset(kept)[x] + multiset(rej)[x];
    assert multiset(rej)[x] <= multiset(pre)[x] < multiset(objects)[x];
    assert x in multiset(kept);
  }

  /** Moving a listed constructor from the list to the rejected ones keeps
      the two together unchanged. */
  lemma MoveToRejected<C>(kept: seq<C>, rej: seq<C>, x: C)
    requires x in kept
    ensures multiset(RemoveFirst(kept, x)) + multiset(rej + [x]) == multiset(kept) + multiset(rej)
  {
    assert multiset(rej + [x]) == multiset(rej) + multiset{x};
  }

  /** The saved constructor list and the rejected constructors together
      are the original list. */
  lemma {:induction false} KeptIsOriginalLessRejected<C>(objects: seq<C>, create: (C, nat) -> Option<EntityId>, n: nat)
    requires n <= |objects|
    ensures multiset(KeptAfter(objects, create, n)) + multiset(Rejected(objects, create, n)) == multiset(objects)
  {
    if n > 0 {
      KeptIsOriginalLessRejected(objects, create, n - 1);
      var prev, rej, x := KeptAfter(objects, create, n - 1), Rejected(objects, create, n - 1), objects[n - 1];
      if Accepted(objects, create, n - 1) {
        assert KeptAfter(objects, create, n) == prev && Rejected(objects, create, n) == rej;
      } else {
        RejectedStillListed(objects, create, n - 1);
        assert KeptAfter(objects, create, n) == RemoveFirst(prev, x);
        assert Rejected(objects, create, n) == rej + [x];
        MoveToRejected(prev, rej, x);
      }
    }
  }

  /** A creator that builds a distinct entity on every call rejects
      nothing: every constructor is kept, repeated ones included, and each
      call adds a startup object. */
  lemma {:induction false} FreshCreatorKeepsAll<C>(objects: seq<C>, create: (C, nat) -> Option<EntityId>, n: nat)
    requires n <= |objects|
    requires forall i :: 0 <= i < n ==> create(objects[i], i).Some?
    requires forall i, j :: 0 <= i < j < n ==> create(objects[i], i) != create(objects[j], j)
    ensures Rejected(objects, create, n) == []
    ensures KeptAfter(objects, create, n) == objects
    ensures |CreatedIds(objects, create, n)| == n
  {
    if n > 0 {
      FreshCreatorKeepsAll(objects, create, n - 1);
      CreatedIdsMembers(objects, create, n - 1);
      var e := create(objects[n - 1], n - 1).value;
      assert e !in CreatedIds(objects, create, n - 1);
      assert Accepted(objects, create, n - 1);
    }
  }

  /** The same constructor listed twice, with a creator that numbers its
      entities by call: both copies become startup objects and stay in the
      list. */
  lemma DuplicateConstructorCreatesTwice()
    ensures var create := (oc: int, call: nat) => Some(call);
      && CreatedIds([1, 1], create, 2) == {0, 1}
      && KeptAfter([1, 1], create, 2) == [1, 1]
  {
    var create := (oc: int, call: nat) => Some(call);
    FreshCreatorKeepsAll([1, 1], create, 2);
  }

  /** The shown set for a set of startup objects: the camera and them. */
  function ShownFor(startup: set<EntityId>): (r: set<Shown>)
    ensures God in r
    ensures forall e :: Obj(e) in r <==> e in startup
  {
    {God} + set e | e in startup :: Obj(e)
  }

  /** Adding a startup object shows exactly that object besides. */
  lemma ShownForAdd(startup: set<EntityId>, e: EntityId)
    ensures ShownFor(startup + {e}) == ShownFor(startup) + {Obj(e)}
  {
  }

  /** The startup loop: create each listed object; an object that is
      created and new becomes a startup object and is shown, any other
      constructor is removed from the scenario's list. Afterwards the
      editor shows the camera and exactly the distinct entities the calls
      created, and the list has lost exactly the constructors whose call
      failed or repeated an entity. */
  method LoadStartupObjects<C(==)>(objects: seq<C>, create: (C, nat) -> Option<EntityId>)
    returns (s: EditorState, kept: seq<C>)
    ensures s.startup == CreatedIds(objects, create, |objects|)
    ensures forall e :: e in s.startup <==> exists i :: 0 <= i < |objects| && create(objects[i], i) == Some(e)
    ensures s.visible == ShownFor(s.startup) && Consistent(s)
    ensures kept == KeptAfter(objects, create, |objects|)
    ensures multiset(kept) + multiset(Rejected(objects, create, |objects|)) == multiset(objects)
  {
    s := EditorState({}, {God});
    kept := objects;
    var i := 0;
    while i < |objects|
      invariant 0 <= i <= |objects|
      invariant s.startup == CreatedIds(objects, create, i)
      invariant s.visible == ShownFor(s.startup)
      invariant kept == KeptAfter(objects, create, i)
    {
      var oc := objects[i];
      var o := CreateObject(oc, i, create);
      var added := false;
      if o.Some? {
        var r := AddObject(s, o.value.id);
        ShownForAdd(s.startup, o.value.id);
        added, s := r.0, r.1;
      }
      assert added == Accepted(objects, create, i);
      assert s.startup == CreatedIds(objects, create, i + 1);
      if !added {
        kept := RemoveFirst(kept, oc);
      }
      assert kept == KeptAfter(objects, create, i + 1);
      i := i + 1;
    }
    CreatedIdsMembers(objects, create, |objects|);
    KeptIsOriginalLessRejected(objects, create, |objects|);
  }

  // ---------------------------------------------------------------------
  // `getMapData`.

  /** The index of cell (x, y) in a grid `width` wide flattened row by row;
      it lies within the grid and gives the cell back. */
  function Index(width: nat, height: nat, x: int, y: int): (k: int)
    requires 0 <= x < width && 0 <= y < height
    ensures 0 <= k < width * height
    ensures k % width == x && k / width == y
  {
    DivModUnique(x + width * y, y, x, width);
    MulBounds(height - y, width);
    assert width * height - width * y == width * (height - y);
    x + width * y
  }

  /** The cell at index `i`; `Index` of it is `i` again. */
  function CellAt(width: nat, height: nat, i: int): (xy: (int, int))
    requires 0 <= i < width * height
    ensures 0 <= xy.0 < width && 0 <= xy.1 < height
    ensures i == xy.0 + width * xy.1
  {
    QuotientBound(i, height, width);
    (i % width, i / width)
  }

  /** Distinct cells have distinct indices. */
  lemma IndexInjective(width: nat, height: nat, x: int, y: int, x': int, y': int)
    requires 0 <= x < width && 0 <= y < height && 0 <= x' < width && 0 <= y' < height
    ensures Index(width, height, x, y) == Index(width, height, x', y') ==> x == x' && y == y'
  {
  }

  /** The cells of columns before `x`, and of column `x` above row `y`,
      are in place in `s`. */
  ghost predicate Filled<T>(s: seq<T>, width: nat, height: nat, terrain: seq<seq<T>>, x: int, y: int)
    requires |terrain| == width && forall x' :: 0 <= x' < width ==> |terrain[x']| == height
    requires |s| == width * height
  {
    forall x', y' :: 0 <= x' < width && 0 <= y' < height && (x' < x || (x' == x && y' < y)) ==>
      s[Index(width, height, x', y')] == terrain[x'][y']
  }

  /** Writing cell (x, y) extends the filled region by that cell. */
  lemma FillStep<T>(s: seq<T>, width: nat, height: nat, terrain: seq<seq<T>>, x: int, y: int)
    requires |terrain| == width && forall x' :: 0 <= x' < width ==> |terrain[x']| == height
    requires |s| == width * height && 0 <= x < width && 0 <= y < height
    requires Filled(s, width, height, terrain, x, y)
    ensures Filled(s[Index(width, height, x, y) := terrain[x][y]], width, height, terrain, x, y + 1)
  {
    var s' := s[Index(width, height, x, y) := terrain[x][y]];
    forall x', y' | 0 <= x' < width && 0 <= y' < height && (x' < x || (x' == x && y' < y + 1))
      ensures s'[Index(width, height, x', y')] == terrain[x'][y']
    {
      IndexInjective(width, height, x, y, x', y');
    }
  }

  /** `getMapData`: the terrain grid, `width` columns of `height` cells,
      flattened row by row: cell (x, y) goes to index `x + width * y`, and
      index `i` holds cell (i % width, i / width). */
  method MapData<T(0)>(width: nat, height: nat, terrain: seq<seq<T>>) returns (tty: seq<T>)
    requires |terrain| == width && forall x :: 0 <= x < width ==> |terrain[x]| == height
    ensures |tty| == width * height
    ensures forall x, y :: 0 <= x < width && 0 <= y < height ==> tty[Index(width, height, x, y)] == terrain[x][y]
    ensures forall i :: 0 <= i < |tty| ==> tty[i] == terrain[CellAt(width, height, i).0][CellAt(width, height, i).1]
  {
    var a := new T[width * height];
    tty := a[..];
    var x := 0;
    while x < width
      invariant 0 <= x <= width && |tty| == width * height
      invariant Filled(tty, width, height, terrain, x, 0)
    {
      var y := 0;
      while y < height
        invariant 0 <= y <= height && |tty| == width * height
        invariant Filled(tty, width, height, terrain, x, y)
      {
        FillStep(tty, width, height, terrain, x, y);
        tty := tty[Index(width, height, x, y) := terrain[x][y]];
        y := y + 1;
      }
      x := x + 1;
    }
    forall i | 0 <= i < |tty| ensures tty[i] == terrain[CellAt(width, height, i).0][CellAt(width, height, i).1] {
      var xy := CellAt(width, height, i);
      assert Index(width, height, xy.0, xy.1) == i;
    }
  }
}
