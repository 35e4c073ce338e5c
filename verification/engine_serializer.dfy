/** The server side of the game-frame exchange
    (Game/Network/Server/EngineSerializer.cs): which objects a player's
    frame lists, under which type, and how a client frame is read back.
    The byte layout of each record (`GameSerializer.Write`) and the
    protocol-buffer decoding of the client state are outside this model:
    a record is its object id and the type it is written as, and decoding
    is a parameter. */
module EngineSerializer {
  import opened Wrappers

  type PlayerId = nat
  type ObjectId = nat
  type byte = bv8

  datatype ObjectType = Unit | Hero | Doodad | Effect

  /** What the serializer reads from a visible entity; `ownerId` matters
      only for heroes. */
  datatype VisibleEntity = VisibleEntity(id: ObjectId, objectType: ObjectType, ownerId: PlayerId)

  /** `ObjectData`: the object and the type it is written as. */
  datatype ObjectData = ObjectData(obj: VisibleEntity, writeType: ObjectType)

  /** `ObjectData ==`: equality by object id alone. */
  function SameObject(a: ObjectData, b: ObjectData): (r: bool)
    ensures r <==> a.obj.id == b.obj.id
    ensures a.obj == b.obj ==> r
  {
    a.obj.id == b.obj.id
  }

  /** `ObjectData !=`. */
  function DifferentObject(a: ObjectData, b: ObjectData): (r: bool)
    ensures r <==> !SameObject(a, b)
  {
    a.obj.id != b.obj.id
  }

  /** The equality ignores the write type: one object written as two types
      is still one object, so the set keeps only one of them. */
  lemma EqualityIgnoresWriteType(e: VisibleEntity, t1: ObjectType, t2: ObjectType)
    ensures SameObject(ObjectData(e, t1), ObjectData(e, t2))
    ensures !DifferentObject(ObjectData(e, t1), ObjectData(e, t2))
  {
  }

  /** `FetchObjectIds`: a hero owned by another player is written as a
      plain unit; everything else keeps its type. */
  function FetchObjectIds(playerId: PlayerId, e: VisibleEntity): (r: ObjectData)
    ensures r.obj == e
    ensures e.objectType == Hero && e.ownerId != playerId ==> r.writeType == Unit
    ensures !(e.objectType == Hero && e.ownerId != playerId) ==> r.writeType == e.objectType
  {
    if e.objectType == Hero && e.ownerId != playerId then ObjectData(e, Unit)
    else ObjectData(e, e.objectType)
  }

  /** A record of the frame: the object and the type it is written as. */
  datatype Record = Record(id: ObjectId, writeType: ObjectType)

  /** The frame: the record count, then the records. */
  datatype Frame = Frame(count: int, records: seq<Record>)

  function ToRecord(d: ObjectData): Record {
    Record(d.obj.id, d.writeType)
  }

  function Ids(visible: seq<VisibleEntity>): set<ObjectId> {
    set e | e in visible :: e.id
  }

  lemma IdsSnoc(vs: seq<VisibleEntity>, e: VisibleEntity)
    ensures Ids(vs + [e]) == Ids(vs) + {e.id}
  {
    assert forall x :: x in vs + [e] <==> x in vs || x == e;
  }

  function RecordIds(records: seq<Record>): set<ObjectId> {
    set r | r in records :: r.id
  }

  lemma RecordIdsSnoc(records: seq<Record>, r: Record)
    ensures RecordIds(records + [r]) == RecordIds(records) + {r.id}
  {
    assert forall x :: x in records + [r] <==> x in records || x == r;
  }

  /** `visible[j]` is the first entity with its id. */
  predicate FirstOfItsId(visible: seq<VisibleEntity>, j: int)
    requires 0 <= j < |visible|
  {
    forall k :: 0 <= k < j ==> visible[k].id != visible[j].id
  }

  /** An entity whose id none before it carries is the first of its id. */
  lemma UnseenIsFirst(visible: seq<VisibleEntity>, j: nat)
    requires j < |visible| && visible[j].id !in Ids(visible[..j])
    ensures FirstOfItsId(visible, j)
  {
    forall i | 0 <= i < j ensures visible[i].id != visible[j].id {
      assert visible[i] == visible[..j][i];
    }
  }

  /** The hash set after the first `n` visible entities, with its
      insertion order: the records, one per id, and the ids seen. An entity
      whose id is already in the set is skipped. */
  function Collect(receptorId: PlayerId, visible: seq<VisibleEntity>, n: nat): (seq<Record>, set<ObjectId>)
    requires n <= |visible|
  {
    if n == 0 then ([], {})
    else CollectStep(receptorId, Collect(receptorId, visible, n - 1), visible[n - 1])
  }

  /** One insertion into the hash set. */
  function CollectStep(receptorId: PlayerId, c: (seq<Record>, set<ObjectId>), e: VisibleEntity): (seq<Record>, set<ObjectId>) {
    if e.id in c.1 then c
    else (c.0 + [ToRecord(FetchObjectIds(receptorId, e))], c.1 + {e.id})
  }

  /** The set holds exactly the ids of the first `n` entities, and the
      records one per id. */
  lemma {:induction false} CollectTracksIds(receptorId: PlayerId, visible: seq<VisibleEntity>, n: nat)
    requires n <= |visible|
    ensures Collect(receptorId, visible, n).1 == Ids(visible[..n]) == RecordIds(Collect(receptorId, visible, n).0)
    ensures |Collect(receptorId, visible, n).0| == |Collect(receptorId, visible, n).1|
  {
    if n > 0 {
      CollectTracksIds(receptorId, visible, n - 1);
      var c := Collect(receptorId, visible, n - 1);
      var e := visible[n - 1];
      assert visible[..n] == visible[..n - 1] + [e];
      IdsSnoc(visible[..n - 1], e);
      RecordIdsSnoc(c.0, ToRecord(FetchObjectIds(receptorId, e)));
    }
  }

  /** No two records share an id. */
  lemma {:induction false} CollectDistinct(receptorId: PlayerId, visible: seq<VisibleEntity>, n: nat)
    requires n <= |visible|
    ensures forall a, b :: 0 <= a < b < |Collect(receptorId, visible, n).0| ==>
      Collect(receptorId, visible, n).0[a].id != Collect(receptorId, visible, n).0[b].id
  {
    if n > 0 {
      CollectDistinct(receptorId, visible, n - 1);
      CollectTracksIds(receptorId, visible, n - 1);
      var c := Collect(receptorId, visible, n - 1);
      var e := visible[n - 1];
      if e.id !in c.1 {
        var records := c.0;
        var r := records + [ToRecord(FetchObjectIds(receptorId, e))];
        assert Collect(receptorId, visible, n).0 == r;
        forall a, b | 0 <= a < b < |r| ensures r[a].id != r[b].id {
          assert r[a] == records[a] && records[a] in records;
          if b < |records| {
            assert r[b] == records[b];
          }
        }
      } else {
        assert Collect(receptorId, visible, n) == c;
      }
    }
  }

  /** One more entity only ever appends to the records. */
  lemma CollectGrows(receptorId: PlayerId, visible: seq<VisibleEntity>, n: nat)
    requires 0 < n <= |visible|
    ensures Collect(receptorId, visible, n - 1).0 <= Collect(receptorId, visible, n).0
  {
  }

  /** A record appended by the `n`-th entity is made from it, and it is the
      first of its id. */
  lemma CollectAppends(receptorId: PlayerId, visible: seq<VisibleEntity>, n: nat)
    requires 0 < n <= |visible|
    requires |Collect(receptorId, visible, n - 1).0| < |Collect(receptorId, visible, n).0|
    ensures Collect(receptorId, visible, n).0
            == Collect(receptorId, visible, n - 1).0 + [ToRecord(FetchObjectIds(receptorId, visible[n - 1]))]
    ensures FirstOfItsId(visible, n - 1)
  {
    assert visible[n - 1].id !in Collect(receptorId, visible, n - 1).1;
    CollectTracksIds(receptorId, visible, n - 1);
    UnseenIsFirst(visible, n - 1);
  }

  /** The entity record `k` was made from: the first one with its id. */
  lemma {:induction false} CollectOrigin(receptorId: PlayerId, visible: seq<VisibleEntity>, n: nat, k: nat)
      returns (j: nat)
    requires n <= |visible| && k < |Collect(receptorId, visible, n).0|
    ensures j < n && FirstOfItsId(visible, j)
    ensures Collect(receptorId, visible, n).0[k] == ToRecord(FetchObjectIds(receptorId, visible[j]))
  {
    CollectGrows(receptorId, visible, n);
    if k < |Collect(receptorId, visible, n - 1).0| {
      j := CollectOrigin(receptorId, visible, n - 1, k);
    } else {
      CollectAppends(receptorId, visible, n);
      j := n - 1;
    }
  }

  /** `WriteServerFrame`: collect the objects the receptor sees into a hash
      set, which keeps the first of several objects with one id, then write
      their count followed by one record each, in insertion order. */
  method WriteServerFrame(receptorId: PlayerId, visible: seq<VisibleEntity>) returns (f: Frame)
    ensures f.count == |f.records| == |Ids(visible)|
    ensures forall a, b :: 0 <= a < b < |f.records| ==> f.records[a].id != f.records[b].id
    ensures forall id :: id in Ids(visible) <==> id in RecordIds(f.records)
    ensures forall k :: 0 <= k < |f.records| ==>
      exists j :: 0 <= j < |visible| && FirstOfItsId(visible, j)
                  && f.records[k] == ToRecord(FetchObjectIds(receptorId, visible[j]))
  {
    var seen: set<ObjectId> := {};
    var records: seq<Record> := [];
    var i := 0;
    while i < |visible|
      invariant 0 <= i <= |visible|
      invariant records == Collect(receptorId, visible, i).0 && seen == Collect(receptorId, visible, i).1
    {
      var e := visible[i];
      assert Collect(receptorId, visible, i + 1) == CollectStep(receptorId, Collect(receptorId, visible, i), e);
      if e.id !in seen {
        records := records + [ToRecord(FetchObjectIds(receptorId, e))];
        seen := seen + {e.id};
      }
      i := i + 1;
    }
    CollectWhole(receptorId, visible);
    f := Frame(|records|, records);
  }

  /** The collection over all visible entities. */
  lemma CollectWhole(receptorId: PlayerId, visible: seq<VisibleEntity>)
    ensures var records := Collect(receptorId, visible, |visible|).0;
      && |records| == |Ids(visible)|
      && (forall a, b :: 0 <= a < b < |records| ==> records[a].id != records[b].id)
      && (forall id :: id in Ids(visible) <==> id in RecordIds(records))
      && (forall k :: 0 <= k < |records| ==>
            exists j :: 0 <= j < |visible| && FirstOfItsId(visible, j)
                        && records[k] == ToRecord(FetchObjectIds(receptorId, visible[j])))
  {
    CollectTracksIds(receptorId, visible, |visible|);
    CollectDistinct(receptorId, visible, |visible|);
    assert visible[..|visible|] == visible;
    var records := Collect(receptorId, visible, |visible|).0;
    forall k | 0 <= k < |records|
      ensures exists j :: 0 <= j < |visible| && FirstOfItsId(visible, j)
                          && records[k] == ToRecord(FetchObjectIds(receptorId, visible[j]))
    {
      var j := CollectOrigin(receptorId, visible, |visible|, k);
    }
  }

  /** The receptor never learns that another player's unit is a hero: a
      record written as a hero is one of the receptor's own heroes. */
  lemma {:induction false} NoForeignHeroes(receptorId: PlayerId, e: VisibleEntity)
    ensures FetchObjectIds(receptorId, e).writeType == Hero <==> e.objectType == Hero && e.ownerId == receptorId
  {
  }

  /** `TryReadClientFrame`. `data` is the message body (`None` for null);
      the frame id takes the first three bytes and the client state
      follows, decoded by `decode` (`None` when it throws). The result is
      (success, reported frame id, client state). */
  function TryReadClientFrame<S>(data: Option<seq<byte>>, decode: seq<byte> -> Option<S>): (r: (bool, nat, Option<S>))
    ensures r.1 == 0
    ensures r.0 <==> data.Some? && |data.value| >= 3 && decode(data.value[3..]).Some?
    ensures r.0 ==> r.2 == decode(data.value[3..])
    ensures !r.0 ==> r.2.None?
  {
    if data.None? || |data.value| < 3 then (false, 0, None)
    else
      var state := decode(data.value[3..]);
      if state.None? then (false, 0, None)
      // the frame id read from the header is overwritten before it is returned
      else (true, 0, state)
  }

  /** Whatever frame id the client sends, the reported one is 0: a frame
      whose header holds 5 is reported as frame 0. */
  lemma FrameIdIsDiscarded(decode: seq<byte> -> Option<int>)
    requires decode([]).Some?
    ensures TryReadClientFrame(Some([5, 0, 0]), decode) == (true, 0, decode([]))
  {
    assert [5 as byte, 0, 0][3..] == [];
  }
}
