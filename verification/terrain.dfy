/** The client's cache of terrain chunks (Game/Client/Systems/Terrain.cs):
    requesting missing chunks from the server without flooding it,
    evicting far-away chunks, and applying the server's map messages.

    Chunk ids are chunk coordinates. Which chunks cover a rectangle
    (`MapChunkId.ChunksBetween`), a chunk's own rectangle, rectangle
    intersection (`IntersectWith`) and the distance from a chunk to the
    camera come from code that is not part of this model and are
    parameters. A chunk's contents are the log of what was done to it. */
module Terrain {
  import opened Wrappers
  import CsMath
  import Points

  type ChunkId = Points.Point

  const SpamInterval: int := 5000
  const MaxChunks: int := 10000
  /** How many chunks an eviction keeps: `MaxChunks * 3 / 4`. */
  const KeepCount: int := MaxChunks * 3 / 4
  /** `long.MinValue`, the time of a request never made. */
  const LongMin: int := -0x8000_0000_0000_0000

  datatype Rect = Rect(position: Points.Point, size: Points.Point)

  function FarPosition(r: Rect): Points.Point {
    Points.Add(r.position, r.size)
  }

  /** `MapDataMessage`: a span of the map, with its tiles, or an order to
      clear it. */
  datatype MapDataMessage = MapDataMessage(span: Rect, hasMap: bool, data: seq<int>)

  datatype ChunkOp =
    | Built(span: Rect, data: seq<int>)        // `new TerrainChunk(..., data, span)`
    | TilesSet(span: Rect, data: seq<int>)     // `SetTiles(data, span)`
    | TilesCleared(area: Rect)                 // `ClearTiles(area)`

  datatype Chunk = Chunk(history: seq<ChunkOp>)

  /** The two tables: the chunks in memory, and the time of the last request
      for each chunk. */
  datatype TerrainState = TerrainState(available: map<ChunkId, Chunk>, requests: map<ChunkId, int>)

  // ---------------------------------------------------------------------
  // Requests

  /** `tryRequestChunk`, as written. `now` is `Environment.TickCount`, a
      32-bit count of milliseconds that wraps around; `now - SpamInterval`
      is 32-bit arithmetic and wraps too. The result is the new state,
      whether a request went out, and the requests sent. */
  function TryRequestChunk(s: TerrainState, chunk: ChunkId, now: int): (r: (TerrainState, bool, seq<ChunkId>))
    requires CsMath.IsInt32(now)
    ensures chunk in s.available ==> r == (s, false, [])
    ensures chunk !in s.available && chunk !in s.requests ==> r.1
    ensures r.1 <==> chunk !in s.available
                     && (chunk !in s.requests || CsMath.Wrap32(now - SpamInterval) >= s.requests[chunk])
    ensures r.1 ==> r.0 == s.(requests := s.requests[chunk := now]) && r.2 == [chunk]
    ensures !r.1 ==> r.0 == s && r.2 == []
  {
    if chunk in s.available then (s, false, [])
    else
      var lastRequest := if chunk in s.requests then s.requests[chunk] else LongMin;
      if CsMath.Wrap32(now - SpamInterval) < lastRequest then (s, false, [])
      else (s.(requests := s.requests[chunk := now]), true, [chunk])
  }

  /** Away from the wrap-around, the throttle does what it is for: the
      first request for a chunk goes out, a second request for a chunk within 5000 ms of the first is suppressed, one at
      least 5000 ms later goes out. */
  lemma ThrottleAwayFromWrap(s: TerrainState, chunk: ChunkId, t: int, t': int)
    requires chunk !in s.available && chunk !in s.requests
    requires CsMath.IsInt32(t) && CsMath.IsInt32(t') && t' - SpamInterval >= CsMath.IntMin
    ensures var s1 := TryRequestChunk(s, chunk, t).0;
      && TryRequestChunk(s, chunk, t).1
      && (t <= t' < t + SpamInterval ==> TryRequestChunk(s1, chunk, t') == (s1, false, []))
      && (t' >= t + SpamInterval ==> TryRequestChunk(s1, chunk, t').1)
  {
  }

  /** The time elapsed from `last` to `now` on a wrapping 32-bit clock. */
  function Elapsed(last: int, now: int): (r: int)
    ensures 0 <= r < CsMath.TwoTo32
  {
    (now - last) % CsMath.TwoTo32
  }

  /** `tryRequestChunk` as the throttle evidently intends: suppress a
      request only when less than `SpamInterval` has elapsed since the last
      one, measuring elapsed time on the wrapping clock. */
  function TryRequestChunkWrapSafe(s: TerrainState, chunk: ChunkId, now: int): (r: (TerrainState, bool, seq<ChunkId>))
    requires CsMath.IsInt32(now)
    ensures chunk in s.available ==> r == (s, false, [])
    ensures r.1 <==> chunk !in s.available
                     && (chunk !in s.requests || Elapsed(s.requests[chunk], now) >= SpamInterval)
    ensures r.1 ==> r.0 == s.(requests := s.requests[chunk := now]) && r.2 == [chunk]
    ensures !r.1 ==> r.0 == s && r.2 == []
  {
    if chunk in s.available then (s, false, [])
    else if chunk in s.requests && Elapsed(s.requests[chunk], now) < SpamInterval then (s, false, [])
    else (s.(requests := s.requests[chunk := now]), true, [chunk])
  }

  lemma ModOfMultipleShift(a: int, k: int, d: int)
    requires d > 0 && k % d == 0
    ensures (a + k) % d == a % d
  {
    var q := k / d;
    assert k == q * d;
    assert a + k == (a / d + q) * d + a % d;
    CsMath.DivModUnique(a + k, a / d + q, a % d, d);
  }

  /** With the wrap-safe throttle, a repeated request `d` milliseconds later
      is suppressed exactly when `d < 5000`, wherever the clock stands,
      including across its wrap-around. */
  lemma {:induction false} WrapSafeThrottle(s: TerrainState, chunk: ChunkId, t: int, d: int)
    requires chunk !in s.available && chunk !in s.requests
    requires CsMath.IsInt32(t) && 0 <= d < CsMath.TwoTo32
    ensures var s1 := TryRequestChunkWrapSafe(s, chunk, t).0;
      && TryRequestChunkWrapSafe(s, chunk, t).1
      && (TryRequestChunkWrapSafe(s1, chunk, CsMath.Wrap32(t + d)).1 <==> d >= SpamInterval)
  {
    var t' := CsMath.Wrap32(t + d);
    assert (t' - t) == d - (t + d - t');
    assert (-(t + d - t')) % CsMath.TwoTo32 == 0 by {
      var k := t + d - t';
      assert k % CsMath.TwoTo32 == 0;
      assert k == (k / CsMath.TwoTo32) * CsMath.TwoTo32;
      assert -k == (-(k / CsMath.TwoTo32)) * CsMath.TwoTo32 + 0;
      CsMath.DivModUnique(-k, -(k / CsMath.TwoTo32), 0, CsMath.TwoTo32);
    }
    ModOfMultipleShift(d, -(t + d - t'), CsMath.TwoTo32);
    assert Elapsed(t, t') == d % CsMath.TwoTo32 == d;
  }

  /** As written, the throttle misfires once the clock wraps: a chunk last
      requested at 2147483000 and asked for again 14296 ms later, when the
      clock reads -2147470000, is still suppressed, where the wrap-safe
      throttle sends the request. */
  lemma ThrottleStallsAfterWrap(chunk: ChunkId)
    ensures var s := TerrainState(map[], map[chunk := 2147483000]);
      && Elapsed(2147483000, -2147470000) == 14296
      && !TryRequestChunk(s, chunk, -2147470000).1
      && TryRequestChunkWrapSafe(s, chunk, -2147470000).1
  {
  }

  /** The as-written throttle over every repeat: a chunk requested at `t`
      and asked for again `d` milliseconds later, at most one clock period
      on. Whether the clock passed its wrap-around in between (`t + d`
      beyond `int.MaxValue`) and whether it now reads within 5000 ms after
      `int.MinValue` decide the outcome:
      - neither: the throttle works (sent iff `d >= 5000`);
      - wrapped, and now past `int.MinValue + 5000`: NOTHING is sent, for
        the rest of the clock period (up to 2^32 ms, about 49.7 days);
      - not wrapped, now within 5000 ms after `int.MinValue` (both requests
        just after the wrap): the request is ALWAYS sent, however soon;
      - wrapped, now within 5000 ms after `int.MinValue`: sent iff
        `d >= 5000`, the short window in which a request made in the last
        5000 ms before the wrap can go out. */
  lemma AsWrittenThrottle(s: TerrainState, chunk: ChunkId, t: int, d: int)
    requires chunk !in s.available && chunk !in s.requests
    requires CsMath.IsInt32(t) && 0 <= d < CsMath.TwoTo32
    ensures var s1 := TryRequestChunk(s, chunk, t).0;
      var now := CsMath.Wrap32(t + d);
      var sent := TryRequestChunk(s1, chunk, now).1;
      && (t + d <= CsMath.IntMax && now >= CsMath.IntMin + SpamInterval ==> (sent <==> d >= SpamInterval))
      && (t + d > CsMath.IntMax && now >= CsMath.IntMin + SpamInterval ==> !sent)
      && (t + d <= CsMath.IntMax && now < CsMath.IntMin + SpamInterval ==> sent)
      && (t + d > CsMath.IntMax && now < CsMath.IntMin + SpamInterval ==> (sent <==> d >= SpamInterval))
  {
    var now := CsMath.Wrap32(t + d);
    CsMath.Wrap32Once(t + d);
    CsMath.Wrap32Once(now - SpamInterval);
  }

  /** Two points of the as-written throttle: requested at `int.MaxValue`,
      the repeat 5001 ms later (the clock reads -2147478648) is suppressed,
      as is every later one until the clock comes round; requested 100 ms
      after the wrap, a repeat only 1000 ms later goes out. */
  lemma ThrottleMisfiresAtWrap(chunk: ChunkId)
    ensures var s := TerrainState(map[], map[chunk := 2147483647]);
      && !TryRequestChunk(s, chunk, -2147478648).1
      && TryRequestChunkWrapSafe(s, chunk, -2147478648).1
    ensures var s := TerrainState(map[], map[chunk := -2147483548]);
      && TryRequestChunk(s, chunk, -2147482548).1
      && !TryRequestChunkWrapSafe(s, chunk, -2147482548).1
  {
  }

  // ---------------------------------------------------------------------
  // Eviction

  /** `destroyChunk`: drop a cached chunk and dispose of it; an absent id
      changes nothing. The second component lists the disposed chunks. */
  function DestroyChunk(s: TerrainState, id: ChunkId): (r: (TerrainState, seq<ChunkId>))
    ensures id !in r.0.available
    ensures id !in s.available ==> r == (s, [])
    ensures id in s.available ==>
      r.0 == s.(available := s.available - {id}) && r.1 == [id]
  {
    if id in s.available then (s.(available := s.available - {id}), [id]) else (s, [])
  }

  /** A chunk among `c` that no other is nearer than. */
  method Nearest(c: set<ChunkId>, dist: ChunkId -> real) returns (m: ChunkId)
    requires c != {}
    ensures m in c && forall x :: x in c ==> dist(m) <= dist(x)
  {
    m :| m in c;
    var rest := c - {m};
    while rest != {}
      invariant rest <= c && m in c
      invariant forall x :: x in c - rest ==> dist(m) <= dist(x)
      decreases |rest|
    {
      var x :| x in rest;
      if dist(x) < dist(m) {
        m := x;
      }
      rest := rest - {x};
    }
  }

  /** `cleanupChunks`: with more than `MaxChunks` chunks in memory, keep the
      `KeepCount` nearest to the camera (ties broken arbitrarily) and drop
      the others from both tables. `dist` is the distance to the camera. */
  method CleanupChunks(s: TerrainState, dist: ChunkId -> real) returns (r: TerrainState, removed: set<ChunkId>)
    ensures |s.available.Keys| <= MaxChunks ==> r == s && removed == {}
    ensures |s.available.Keys| > MaxChunks ==>
      && |r.available.Keys| == KeepCount
      && r.available.Keys + removed == s.available.Keys
      && r.available.Keys !! removed
      && (forall k :: k in r.available ==> r.available[k] == s.available[k])
      && (forall k, x :: k in r.available && x in removed ==> dist(k) <= dist(x))
      && r.requests == (map k | k in s.requests && k !in removed :: s.requests[k])
  {
    if |s.available.Keys| <= MaxChunks {
      return s, {};
    }
    var kept: set<ChunkId> := {};
    var rest := s.available.Keys;
    while |kept| < KeepCount
      invariant kept + rest == s.available.Keys && kept !! rest
      invariant |kept| + |rest| == |s.available.Keys|
      invariant |kept| <= KeepCount
      invariant forall k, x :: k in kept && x in rest ==> dist(k) <= dist(x)
      decreases KeepCount - |kept|
    {
      var m := Nearest(rest, dist);
      kept := kept + {m};
      rest := rest - {m};
    }
    removed := rest;
    r := TerrainState(map k | k in kept :: s.available[k],
                      map k | k in s.requests && k !in removed :: s.requests[k]);
    assert r.available.Keys == kept;
  }

  // ---------------------------------------------------------------------
  // Map messages

  /** One chunk of `setMap`: build it from the message, or update it in
      place when it is already cached. */
  function SetChunk(available: map<ChunkId, Chunk>, ch: ChunkId, msg: MapDataMessage): (r: map<ChunkId, Chunk>)
    ensures r.Keys == available.Keys + {ch}
    ensures ch !in available ==> r[ch].history == [Built(msg.span, msg.data)]
    ensures ch in available ==> r[ch].history == available[ch].history + [TilesSet(msg.span, msg.data)]
    ensures forall c :: c in available && c != ch ==> r[c] == available[c]
  {
    if ch !in available then available[ch := Chunk([Built(msg.span, msg.data)])]
    else available[ch := Chunk(available[ch].history + [TilesSet(msg.span, msg.data)])]
  }

  /** `n` copies of one operation on a chunk. */
  function Repeat(op: ChunkOp, n: nat): (r: seq<ChunkOp>)
    ensures |r| == n && forall i :: 0 <= i < n ==> r[i] == op
  {
    if n == 0 then [] else [op] + Repeat(op, n - 1)
  }

  /** How often a chunk id is listed. */
  function Occurrences(ids: seq<ChunkId>, ch: ChunkId): nat {
    multiset(ids)[ch]
  }

  lemma OccurrencesCons(ids: seq<ChunkId>, ch: ChunkId)
    requires |ids| > 0
    ensures Occurrences(ids, ch) == (if ch == ids[0] then 1 else 0) + Occurrences(ids[1..], ch)
    ensures ch in ids <==> Occurrences(ids, ch) > 0
  {
    assert ids == [ids[0]] + ids[1..];
    assert multiset(ids) == multiset{ids[0]} + multiset(ids[1..]);
  }

  /** Every listed chunk ends up cached: a new one built from the message
      (and updated by any repeated listing), a cached one with the tiles set
      once per listing. Unlisted chunks are untouched. */
  function SetChunks(available: map<ChunkId, Chunk>, ids: seq<ChunkId>, msg: MapDataMessage): (r: map<ChunkId, Chunk>)
    ensures r.Keys == available.Keys + set ch | ch in ids
    ensures forall ch :: ch in available && ch !in ids ==> r[ch] == available[ch]
    ensures forall ch :: ch in ids && ch in available ==>
      r[ch].history == available[ch].history + Repeat(TilesSet(msg.span, msg.data), Occurrences(ids, ch))
    ensures forall ch :: ch in ids && ch !in available ==>
      Occurrences(ids, ch) > 0
      && r[ch].history == [Built(msg.span, msg.data)] + Repeat(TilesSet(msg.span, msg.data), Occurrences(ids, ch) - 1)
    decreases |ids|
  {
    if |ids| == 0 then available
    else
      var a1 := SetChunk(available, ids[0], msg);
      var r := SetChunks(a1, ids[1..], msg);
      SetChunksStep(available, ids, msg, a1, r);
      r
  }

  /** The inductive step of `SetChunks`, for each chunk listed. */
  lemma SetChunksStep(available: map<ChunkId, Chunk>, ids: seq<ChunkId>, msg: MapDataMessage,
                      a1: map<ChunkId, Chunk>, r: map<ChunkId, Chunk>)
    requires |ids| > 0 && a1 == SetChunk(available, ids[0], msg)
    requires r.Keys == a1.Keys + set ch | ch in ids[1..]
    requires forall ch :: ch in a1 && ch !in ids[1..] ==> r[ch] == a1[ch]
    requires forall ch :: ch in ids[1..] && ch in a1 ==>
      r[ch].history == a1[ch].history + Repeat(TilesSet(msg.span, msg.data), Occurrences(ids[1..], ch))
    requires forall ch :: ch in ids[1..] && ch !in a1 ==>
      Occurrences(ids[1..], ch) > 0
      && r[ch].history == [Built(msg.span, msg.data)] + Repeat(TilesSet(msg.span, msg.data), Occurrences(ids[1..], ch) - 1)
    ensures r.Keys == available.Keys + set ch | ch in ids
    ensures forall ch :: ch in available && ch !in ids ==> r[ch] == available[ch]
    ensures forall ch :: ch in ids && ch in available ==>
      r[ch].history == available[ch].history + Repeat(TilesSet(msg.span, msg.data), Occurrences(ids, ch))
    ensures forall ch :: ch in ids && ch !in available ==>
      Occurrences(ids, ch) > 0
      && r[ch].history == [Built(msg.span, msg.data)] + Repeat(TilesSet(msg.span, msg.data), Occurrences(ids, ch) - 1)
  {
    assert forall ch :: ch in ids <==> ch == ids[0] || ch in ids[1..];
    forall ch | ch in ids
      ensures ch in available ==>
        r[ch].history == available[ch].history + Repeat(TilesSet(msg.span, msg.data), Occurrences(ids, ch))
      ensures ch !in available ==> (Occurrences(ids, ch) > 0
        && r[ch].history == [Built(msg.span, msg.data)] + Repeat(TilesSet(msg.span, msg.data), Occurrences(ids, ch) - 1))
    {
      SetChunksStepAt(available, ids, msg, a1, r, ch);
    }
  }

  /** The inductive step of `SetChunks` for one listed chunk. */
  lemma SetChunksStepAt(available: map<ChunkId, Chunk>, ids: seq<ChunkId>, msg: MapDataMessage,
                        a1: map<ChunkId, Chunk>, r: map<ChunkId, Chunk>, ch: ChunkId)
    requires |ids| > 0 && a1 == SetChunk(available, ids[0], msg)
    requires ch in ids && ch in r
    requires ch in a1 && ch !in ids[1..] ==> r[ch] == a1[ch]
    requires ch in ids[1..] && ch in a1 ==>
      r[ch].history == a1[ch].history + Repeat(TilesSet(msg.span, msg.data), Occurrences(ids[1..], ch))
    requires ch in ids[1..] && ch !in a1 ==>
      Occurrences(ids[1..], ch) > 0
      && r[ch].history == [Built(msg.span, msg.data)] + Repeat(TilesSet(msg.span, msg.data), Occurrences(ids[1..], ch) - 1)
    ensures ch in available ==>
      r[ch].history == available[ch].history + Repeat(TilesSet(msg.span, msg.data), Occurrences(ids, ch))
    ensures ch !in available ==> (Occurrences(ids, ch) > 0
      && r[ch].history == [Built(msg.span, msg.data)] + Repeat(TilesSet(msg.span, msg.data), Occurrences(ids, ch) - 1))
  {
    var op := TilesSet(msg.span, msg.data);
    OccurrencesCons(ids, ch);
    var n := Occurrences(ids[1..], ch);
    if ch == ids[0] {
      if ch !in ids[1..] {
        assert n == 0 by { assert ch !in multiset(ids[1..]); }
      }
      if ch in available {
        assert Repeat(op, n + 1) == [op] + Repeat(op, n);
        assert r[ch].history == available[ch].history + [op] + Repeat(op, n);
      } else {
        assert r[ch].history == [Built(msg.span, msg.data)] + Repeat(op, n);
      }
    } else {
      assert ch in ids[1..];
    }
  }

  /** `setMap`: every chunk the span covers, from its position to one before
      its far corner, ends up cached: built from the message when it was
      not, with the message's tiles set when it was. No other chunk
      changes, and the request table is untouched. */
  function SetMap(s: TerrainState, msg: MapDataMessage, chunksBetween: (Points.Point, Points.Point) -> seq<ChunkId>): (r: TerrainState)
    ensures var ids := chunksBetween(msg.span.position, Points.Sub(FarPosition(msg.span), Points.Uniform(1)));
      && r.available.Keys == s.available.Keys + (set ch | ch in ids)
      && (forall ch :: ch in s.available && ch !in ids ==> r.available[ch] == s.available[ch])
      && (forall ch :: ch in ids && ch in s.available ==>
            r.available[ch].history
            == s.available[ch].history + Repeat(TilesSet(msg.span, msg.data), Occurrences(ids, ch)))
      && (forall ch :: ch in ids && ch !in s.available ==>
            Occurrences(ids, ch) > 0
            && r.available[ch].history
               == [Built(msg.span, msg.data)] + Repeat(TilesSet(msg.span, msg.data), Occurrences(ids, ch) - 1))
    ensures r.requests == s.requests
  {
    var ids := chunksBetween(msg.span.position, Points.Sub(FarPosition(msg.span), Points.Uniform(1)));
    s.(available := SetChunks(s.available, ids, msg))
  }

  /** One chunk of `clearMap`: a chunk the span covers entirely is
      destroyed; a cached chunk it covers in part has that part cleared. */
  function ClearChunk(s: TerrainState, ch: ChunkId, msg: MapDataMessage,
                      spanOf: ChunkId -> Rect, intersect: (Rect, Rect) -> Rect): (r: TerrainState)
    ensures r.requests == s.requests
    ensures Covered(ch, msg, spanOf, intersect) ==> r.available == s.available - {ch}
    ensures !Covered(ch, msg, spanOf, intersect) ==> r.available.Keys == s.available.Keys
    ensures !Covered(ch, msg, spanOf, intersect) && ch in s.available ==>
      r.available[ch].history == s.available[ch].history + [TilesCleared(intersect(spanOf(ch), msg.span))]
    ensures !Covered(ch, msg, spanOf, intersect) ==> forall c :: c in s.available && c != ch ==> r.available[c] == s.available[c]
    ensures !Covered(ch, msg, spanOf, intersect) && ch !in s.available ==> r == s
  {
    var overlap := intersect(spanOf(ch), msg.span);
    if overlap == spanOf(ch) then DestroyChunk(s, ch).0
    else if ch in s.available then
      s.(available := s.available[ch := Chunk(s.available[ch].history + [TilesCleared(overlap)])])
    else s
  }

  predicate Covered(ch: ChunkId, msg: MapDataMessage, spanOf: ChunkId -> Rect, intersect: (Rect, Rect) -> Rect) {
    intersect(spanOf(ch), msg.span) == spanOf(ch)
  }

  function ClearChunks(s: TerrainState, ids: seq<ChunkId>, msg: MapDataMessage,
                       spanOf: ChunkId -> Rect, intersect: (Rect, Rect) -> Rect): (r: TerrainState)
    ensures r.requests == s.requests
    ensures forall ch :: ch in r.available <==>
      ch in s.available && !(ch in ids && Covered(ch, msg, spanOf, intersect))
    ensures forall ch :: ch in s.available && ch !in ids ==> r.available[ch] == s.available[ch]
    ensures forall ch :: ch in ids && ch in s.available && !Covered(ch, msg, spanOf, intersect) ==>
      r.available[ch].history
      == s.available[ch].history + Repeat(TilesCleared(intersect(spanOf(ch), msg.span)), Occurrences(ids, ch))
    decreases |ids|
  {
    if |ids| == 0 then s
    else
      var s1 := ClearChunk(s, ids[0], msg, spanOf, intersect);
      var r := ClearChunks(s1, ids[1..], msg, spanOf, intersect);
      ClearChunksStep(s, ids, msg, spanOf, intersect, s1, r);
      r
  }

  /** The inductive step of `ClearChunks`, for each partly covered chunk. */
  lemma ClearChunksStep(s: TerrainState, ids: seq<ChunkId>, msg: MapDataMessage,
                        spanOf: ChunkId -> Rect, intersect: (Rect, Rect) -> Rect, s1: TerrainState, r: TerrainState)
    requires |ids| > 0 && s1 == ClearChunk(s, ids[0], msg, spanOf, intersect)
    requires r.requests == s1.requests
    requires forall ch :: ch in r.available <==>
      ch in s1.available && !(ch in ids[1..] && Covered(ch, msg, spanOf, intersect))
    requires forall ch :: ch in s1.available && ch !in ids[1..] ==> r.available[ch] == s1.available[ch]
    requires forall ch :: ch in ids[1..] && ch in s1.available && !Covered(ch, msg, spanOf, intersect) ==>
      r.available[ch].history
      == s1.available[ch].history + Repeat(TilesCleared(intersect(spanOf(ch), msg.span)), Occurrences(ids[1..], ch))
    ensures r.requests == s.requests
    ensures forall ch :: ch in r.available <==>
      ch in s.available && !(ch in ids && Covered(ch, msg, spanOf, intersect))
    ensures forall ch :: ch in s.available && ch !in ids ==> r.available[ch] == s.available[ch]
    ensures forall ch :: ch in ids && ch in s.available && !Covered(ch, msg, spanOf, intersect) ==>
      r.available[ch].history
      == s.available[ch].history + Repeat(TilesCleared(intersect(spanOf(ch), msg.span)), Occurrences(ids, ch))
  {
    assert forall ch :: ch in ids <==> ch == ids[0] || ch in ids[1..];
    forall ch | ch in ids && ch in s.available && !Covered(ch, msg, spanOf, intersect)
      ensures r.available[ch].history
        == s.available[ch].history + Repeat(TilesCleared(intersect(spanOf(ch), msg.span)), Occurrences(ids, ch))
    {
      var op := TilesCleared(intersect(spanOf(ch), msg.span));
      OccurrencesCons(ids, ch);
      var n := Occurrences(ids[1..], ch);
      if ch == ids[0] {
        if ch !in ids[1..] {
          assert n == 0 by { assert ch !in multiset(ids[1..]); }
        }
        assert Repeat(op, n + 1) == [op] + Repeat(op, n);
        assert r.available[ch].history == s.available[ch].history + [op] + Repeat(op, n);
      } else {
        assert ch in ids[1..];
      }
    }
  }

  /** `clearMap`: over the chunks from the span's position to its far
      corner, those the span covers entirely are gone, and a cached chunk
      it covers in part has the overlap's tiles cleared; no other chunk
      changes. */
  function ClearMap(s: TerrainState, msg: MapDataMessage, chunksBetween: (Points.Point, Points.Point) -> seq<ChunkId>,
                    spanOf: ChunkId -> Rect, intersect: (Rect, Rect) -> Rect): (r: TerrainState)
    ensures var ids := chunksBetween(msg.span.position, FarPosition(msg.span));
      && (forall ch :: ch in r.available <==>
            ch in s.available && !(ch in ids && Covered(ch, msg, spanOf, intersect)))
      && (forall ch :: ch in s.available && ch !in ids ==> r.available[ch] == s.available[ch])
      && (forall ch :: ch in ids && ch in s.available && !Covered(ch, msg, spanOf, intersect) ==>
            r.available[ch].history
            == s.available[ch].history + Repeat(TilesCleared(intersect(spanOf(ch), msg.span)), Occurrences(ids, ch)))
    ensures r.requests == s.requests
  {
    ClearChunks(s, chunksBetween(msg.span.position, FarPosition(msg.span)), msg, spanOf, intersect)
  }

  /** `HandleMessage`: only map-data messages (`Some`) matter; one without
      map data clears its span, one with it sets it. */
  function HandleMessage(s: TerrainState, msg: Option<MapDataMessage>,
                         chunksBetween: (Points.Point, Points.Point) -> seq<ChunkId>,
                         spanOf: ChunkId -> Rect, intersect: (Rect, Rect) -> Rect): (r: TerrainState)
    ensures msg.None? ==> r == s
    ensures msg.Some? && !msg.value.hasMap ==> r == ClearMap(s, msg.value, chunksBetween, spanOf, intersect)
    ensures msg.Some? && msg.value.hasMap ==> r == SetMap(s, msg.value, chunksBetween)
    ensures msg.Some? && !msg.value.hasMap ==> r.available.Keys <= s.available.Keys
    ensures msg.Some? && msg.value.hasMap ==> s.available.Keys <= r.available.Keys
    ensures r.requests == s.requests
  {
    if msg.None? then s
    else if !msg.value.hasMap then ClearMap(s, msg.value, chunksBetween, spanOf, intersect)
    else SetMap(s, msg.value, chunksBetween)
  }

  /** A chunk listed once is listed exactly once. */
  lemma {:induction false} OccurrencesDistinct(ids: seq<ChunkId>, ch: ChunkId)
    requires forall i, j :: 0 <= i < j < |ids| ==> ids[i] != ids[j]
    requires ch in ids
    ensures Occurrences(ids, ch) == 1
  {
    OccurrencesCons(ids, ch);
    if ch != ids[0] {
      OccurrencesDistinct(ids[1..], ch);
    } else {
      assert ch !in ids[1..];
      assert ch !in multiset(ids[1..]);
    }
  }

  /** When the chunks a set message covers are distinct, as
      `MapChunkId.ChunksBetween` lists them, each one ends up with exactly
      one operation from the message: built from it when it was not
      cached, its tiles set when it was. */
  lemma SetMapDistinctChunks(s: TerrainState, msg: MapDataMessage,
                             chunksBetween: (Points.Point, Points.Point) -> seq<ChunkId>, ch: ChunkId)
    requires var ids := chunksBetween(msg.span.position, Points.Sub(FarPosition(msg.span), Points.Uniform(1)));
      (forall i, j :: 0 <= i < j < |ids| ==> ids[i] != ids[j]) && ch in ids
    ensures ch in SetMap(s, msg, chunksBetween).available
    ensures ch !in s.available ==> SetMap(s, msg, chunksBetween).available[ch] == Chunk([Built(msg.span, msg.data)])
    ensures ch in s.available ==>
      SetMap(s, msg, chunksBetween).available[ch] == Chunk(s.available[ch].history + [TilesSet(msg.span, msg.data)])
  {
    var ids := chunksBetween(msg.span.position, Points.Sub(FarPosition(msg.span), Points.Uniform(1)));
    OccurrencesDistinct(ids, ch);
    assert Repeat(TilesSet(msg.span, msg.data), 1) == [TilesSet(msg.span, msg.data)];
  }

  /** A set message followed by a clear message for the same span, when the
      span covers its chunks entirely, leaves none of them cached: the clear
      undoes the set. */
  lemma ClearUndoesSet(s: TerrainState, msg: MapDataMessage, chunksBetween: (Points.Point, Points.Point) -> seq<ChunkId>,
                       spanOf: ChunkId -> Rect, intersect: (Rect, Rect) -> Rect, ch: ChunkId)
    requires ch in chunksBetween(msg.span.position, FarPosition(msg.span))
    requires Covered(ch, msg, spanOf, intersect)
    ensures ch !in ClearMap(SetMap(s, msg, chunksBetween), msg.(hasMap := false), chunksBetween, spanOf, intersect).available
  {
  }
}
