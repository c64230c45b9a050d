/** The 3-D pattern extractor `Tilemap3DPattern` (Assets/Scripts/WFC/Tilemap3DPattern.cs):
    one pattern per distinct prefab of a block tilemap, whose direction-`idx`
    neighbour set collects the patterns of the prefabs placed at offset `idx`
    from it; an optional empty pattern stands for unpainted cells and an
    optional boundary prefab shares one pattern that never enters the
    dictionary. The tilemap is a finite map from cell positions to prefab
    ids; patterns are ids into the table of every pattern created so far. */
module Tilemap3DPatterns {
  import opened Wrappers
  import opened Vectors
  import opened PatternInterface
  import opened Patterns
  import Utility

  /** A tile prefab (`GameObjectTile`), by id. */
  type Prefab = nat

  /** A pattern's chunk: its prefab, or `None` for the empty pattern, whose chunk is null. */
  type Chunk = Option<Prefab>

  /** An adjacency seen by extraction: (chunk, direction, chunk at that offset). */
  type Arc = (Chunk, int, Chunk)

  /** `AdjacentOffset` (= `NeighborOffset`): left, right, down, up, back, forward. */
  const AdjacentOffset: seq<Vec3> :=
    [Vec3(-1, 0, 0), Vec3(1, 0, 0), Vec3(0, -1, 0), Vec3(0, 1, 0), Vec3(0, 0, -1), Vec3(0, 0, 1)]

  const Directions: nat := 6

  /** The direction opposite `idx`: the offsets come in opposite pairs. */
  function Opposite(idx: nat): (r: nat)
    requires idx < Directions
    ensures r < Directions
  {
    if idx % 2 == 0 then idx + 1 else idx - 1
  }

  lemma OppositeComponents(idx: nat)
    requires idx < Directions
    ensures var a, b := AdjacentOffset[Opposite(idx)], AdjacentOffset[idx]; a.x == -b.x && a.y == -b.y && a.z == -b.z
  {
    if idx == 0 {
      assert Opposite(idx) == 1;
    } else if idx == 1 {
      assert Opposite(idx) == 0;
    } else if idx == 2 {
      assert Opposite(idx) == 3;
    } else if idx == 3 {
      assert Opposite(idx) == 2;
    } else if idx == 4 {
      assert Opposite(idx) == 5;
    } else {
      assert Opposite(idx) == 4;
    }
  }

  lemma OffsetsDistinct(a: nat, b: nat)
    requires a < Directions && b < Directions && a != b
    ensures var u, v := AdjacentOffset[a], AdjacentOffset[b]; u.x != v.x || u.y != v.y || u.z != v.z
  {
  }

  /** `NeighborOffset.IndexOf(-NeighborOffset[idx])` finds the opposite direction. */
  lemma IndexOfNegation(idx: nat)
    requires idx < Directions
    ensures Utility.FindIndex(AdjacentOffset, AdjacentOffset[idx].Negate()) == Opposite(idx)
  {
    var j := Opposite(idx);
    OppositeComponents(idx);
    OppositeByComponents(AdjacentOffset[j], AdjacentOffset[idx]);
    var r := Utility.FindIndex(AdjacentOffset, AdjacentOffset[idx].Negate());
    assert AdjacentOffset[idx].Negate() in AdjacentOffset;
    if r < j {
      OffsetsDistinct(r, j);
    }
  }

  // ------------------------------------------------------------ what extraction records

  /** The adjacencies cell `p` shows in directions `0 .. j - 1`. A painted
      neighbour gives (prefab, idx, its prefab); an unpainted one, when empty
      tiles are included, gives (prefab, idx, empty) and (empty, opposite of
      idx, prefab). An unpainted cell shows none. */
  function ArcsAt(tiles: map<Vec3, Prefab>, includeEmpty: bool, p: Vec3, j: nat): set<Arc>
    requires j <= Directions
  {
    if j == 0 || p !in tiles then {}
    else
      var q := p.Plus(AdjacentOffset[j - 1]);
      ArcsAt(tiles, includeEmpty, p, j - 1) +
      (if q in tiles then {(Some(tiles[p]), j - 1, Some(tiles[q]))}
       else if includeEmpty then {(Some(tiles[p]), j - 1, None), (None, Opposite(j - 1) as int, Some(tiles[p]))}
       else {})
  }

  /** The adjacencies shown by the scanned cells `ps`. */
  function Arcs(tiles: map<Vec3, Prefab>, includeEmpty: bool, ps: seq<Vec3>): set<Arc>
  {
    if ps == [] then {}
    else Arcs(tiles, includeEmpty, ps[..|ps| - 1]) + ArcsAt(tiles, includeEmpty, ps[|ps| - 1], Directions)
  }

  /** The prefabs cell `p` brings in with directions `0 .. j - 1` looked at. */
  function MetAt(tiles: map<Vec3, Prefab>, p: Vec3, j: nat): set<Prefab>
    requires j <= Directions
  {
    if p !in tiles then {}
    else if j == 0 then {tiles[p]}
    else
      MetAt(tiles, p, j - 1) +
      (if p.Plus(AdjacentOffset[j - 1]) in tiles then {tiles[p.Plus(AdjacentOffset[j - 1])]} else {})
  }

  /** The prefabs the scan of `ps` meets. */
  function Met(tiles: map<Vec3, Prefab>, ps: seq<Vec3>): set<Prefab>
  {
    if ps == [] then {}
    else Met(tiles, ps[..|ps| - 1]) + MetAt(tiles, ps[|ps| - 1], Directions)
  }

  /** The adjacencies one cell shows, direction by direction. */
  lemma {:induction false} ArcsAtMembership(tiles: map<Vec3, Prefab>, includeEmpty: bool, p: Vec3, j: nat, a: Arc)
    requires j <= Directions
    ensures a in ArcsAt(tiles, includeEmpty, p, j) <==>
            p in tiles &&
            exists idx :: 0 <= idx < j &&
              var q := p.Plus(AdjacentOffset[idx]);
              if q in tiles then a == (Some(tiles[p]), idx, Some(tiles[q]))
              else includeEmpty && (a == (Some(tiles[p]), idx, None) || a == (None, Opposite(idx) as int, Some(tiles[p])))
    decreases j
  {
    if j > 0 && p in tiles {
      ArcsAtMembership(tiles, includeEmpty, p, j - 1, a);
    }
  }

  /** An adjacency is recorded exactly when some scanned cell shows it. */
  lemma {:induction false} ArcsMembership(tiles: map<Vec3, Prefab>, includeEmpty: bool, ps: seq<Vec3>, a: Arc)
    ensures a in Arcs(tiles, includeEmpty, ps) <==>
            exists i :: 0 <= i < |ps| && a in ArcsAt(tiles, includeEmpty, ps[i], Directions)
    decreases |ps|
  {
    if ps != [] {
      var n := |ps| - 1;
      ArcsMembership(tiles, includeEmpty, ps[..n], a);
      if a in Arcs(tiles, includeEmpty, ps[..n]) {
        var i :| 0 <= i < n && a in ArcsAt(tiles, includeEmpty, ps[..n][i], Directions);
        assert ps[i] == ps[..n][i];
      }
      if exists i :: 0 <= i < |ps| && a in ArcsAt(tiles, includeEmpty, ps[i], Directions) {
        var i :| 0 <= i < |ps| && a in ArcsAt(tiles, includeEmpty, ps[i], Directions);
        if i < n {
          assert ps[..n][i] == ps[i];
        }
      }
    }
  }

  /** The prefabs one cell brings in: its own and its painted neighbours'. */
  lemma {:induction false} MetAtMembership(tiles: map<Vec3, Prefab>, p: Vec3, j: nat, t: Prefab)
    requires j <= Directions
    ensures t in MetAt(tiles, p, j) <==>
            p in tiles && (tiles[p] == t ||
                           exists idx :: 0 <= idx < j && p.Plus(AdjacentOffset[idx]) in tiles && tiles[p.Plus(AdjacentOffset[idx])] == t)
    decreases j
  {
    if j > 0 && p in tiles {
      MetAtMembership(tiles, p, j - 1, t);
      if t in MetAt(tiles, p, j - 1) && tiles[p] != t {
        var idx :| 0 <= idx < j - 1 && p.Plus(AdjacentOffset[idx]) in tiles && tiles[p.Plus(AdjacentOffset[idx])] == t;
        assert 0 <= idx < j;
      }
    }
  }

  /** A prefab is met exactly when some scanned cell brings it in. */
  lemma {:induction false} MetMembership(tiles: map<Vec3, Prefab>, ps: seq<Vec3>, t: Prefab)
    ensures t in Met(tiles, ps) <==> exists i :: 0 <= i < |ps| && t in MetAt(tiles, ps[i], Directions)
    decreases |ps|
  {
    if ps != [] {
      var n := |ps| - 1;
      MetMembership(tiles, ps[..n], t);
      if t in Met(tiles, ps[..n]) {
        var i :| 0 <= i < n && t in MetAt(tiles, ps[..n][i], Directions);
        assert ps[i] == ps[..n][i];
      }
      if exists i :: 0 <= i < |ps| && t in MetAt(tiles, ps[i], Directions) {
        var i :| 0 <= i < |ps| && t in MetAt(tiles, ps[i], Directions);
        if i < n {
          assert ps[..n][i] == ps[i];
        }
      }
    }
  }

  // ------------------------------------------------------------ the pattern registry, on values

  /** The extractor's pattern state: the table of every pattern created, the
      dictionary `_patterns`, and the lazily created boundary and empty patterns. */
  datatype Registry = Registry(table: seq<Pattern<Chunk>>, dict: map<Prefab, PatternId>,
                               boundary: Option<PatternId>, empty: Option<PatternId>)

  /** The pattern `GetOrCreatePattern` would now hand out for a chunk, if any:
      the dictionary entry, else the boundary pattern for the boundary prefab;
      the empty pattern for the null chunk. */
  function PatternOf(r: Registry, boundaryTile: Chunk, c: Chunk): Option<PatternId> {
    match c
    case None => r.empty
    case Some(v) => if v in r.dict then Some(r.dict[v]) else if c == boundaryTile then r.boundary else None
  }

  /** `q` is the pattern now handed out for its own chunk. */
  predicate Current(r: Registry, boundaryTile: Chunk, q: PatternId) {
    q < |r.table| && PatternOf(r, boundaryTile, r.table[q].chunk) == Some(q)
  }

  ghost predicate Wellformed(r: Registry, boundaryTile: Chunk) {
    && (forall s :: 0 <= s < |r.table| ==> |r.table[s].neighbors| == Directions)
    && (forall s, idx, q :: 0 <= s < |r.table| && 0 <= idx < Directions && q in r.table[s].neighbors[idx] ==> q < |r.table|)
    && (forall t :: t in r.dict ==> r.dict[t] < |r.table| && r.table[r.dict[t]].chunk == Some(t))
    && (boundaryTile.Some? ==> boundaryTile.value !in r.dict)
    && (r.boundary.Some? ==> boundaryTile.Some? && r.boundary.value < |r.table| && r.table[r.boundary.value].chunk == boundaryTile)
    && (r.empty.Some? ==> r.empty.value < |r.table| && r.table[r.empty.value].chunk == None)
  }

  /** What a pattern held before extraction began: its sets then for a pattern
      that already existed, itself in every direction for a new empty pattern,
      nothing for any other new pattern. */
  function BaseSet(start: seq<Pattern<Chunk>>, table: seq<Pattern<Chunk>>, s: PatternId, idx: nat): set<PatternId>
    requires s < |table|
  {
    if s < |start| then (if idx < |start[s].neighbors| then start[s].neighbors[idx] else {})
    else if table[s].chunk.None? then {s}
    else {}
  }

  /** Pattern `s` holds `q` in direction `idx` exactly when `q` was in its base
      set or `q` is now handed out for a chunk recorded beside `s`'s chunk in
      that direction. */
  ghost predicate ExactCell(r: Registry, boundaryTile: Chunk, start: seq<Pattern<Chunk>>, arcs: set<Arc>,
                            s: PatternId, idx: nat, q: PatternId)
    requires Wellformed(r, boundaryTile) && s < |r.table| && idx < Directions
  {
    q in r.table[s].neighbors[idx] <==>
      q in BaseSet(start, r.table, s, idx) ||
      (Current(r, boundaryTile, q) && (r.table[s].chunk, idx as int, r.table[q].chunk) in arcs)
  }

  /** Every pattern now handed out is exact in every direction. */
  ghost predicate Exact(r: Registry, boundaryTile: Chunk, start: seq<Pattern<Chunk>>, arcs: set<Arc>)
    requires Wellformed(r, boundaryTile)
  {
    forall s: PatternId, idx: nat, q: PatternId :: Current(r, boundaryTile, s) && idx < Directions ==>
      ExactCell(r, boundaryTile, start, arcs, s, idx, q)
  }

  /** The patterns that existed at the start name only each other. */
  ghost predicate Closed(start: seq<Pattern<Chunk>>) {
    forall s, idx, q :: 0 <= s < |start| && 0 <= idx < |start[s].neighbors| && q in start[s].neighbors[idx] ==> q < |start|
  }

  /** One instance of `Exact`. */
  lemma ExactAt(r: Registry, boundaryTile: Chunk, start: seq<Pattern<Chunk>>, arcs: set<Arc>, s: PatternId, idx: nat, q: PatternId)
    requires Wellformed(r, boundaryTile) && Exact(r, boundaryTile, start, arcs)
    requires Current(r, boundaryTile, s) && idx < Directions
    ensures q in r.table[s].neighbors[idx] <==>
              q in BaseSet(start, r.table, s, idx) ||
              (Current(r, boundaryTile, q) && (r.table[s].chunk, idx as int, r.table[q].chunk) in arcs)
  {
    assert ExactCell(r, boundaryTile, start, arcs, s, idx, q);
  }

  /** Every chunk an adjacency mentions has a pattern. */
  ghost predicate Known(r: Registry, boundaryTile: Chunk, arcs: set<Arc>) {
    forall a :: a in arcs ==> PatternOf(r, boundaryTile, a.0).Some? && PatternOf(r, boundaryTile, a.2).Some?
  }

  /** Direction sets holding pattern `n` alone. */
  function Selves(n: PatternId): (r: seq<set<PatternId>>)
    ensures |r| == Directions && forall i :: 0 <= i < Directions ==> r[i] == {n}
  {
    seq(Directions, _ => {n})
  }

  /** A new pattern `|r.table|` for chunk `c`, which had none, keeps the state
      exact when it starts from its base sets. */
  lemma GrowKeepsExact(r: Registry, r': Registry, boundaryTile: Chunk, start: seq<Pattern<Chunk>>, arcs: set<Arc>)
    requires Wellformed(r, boundaryTile) && Exact(r, boundaryTile, start, arcs) && Known(r, boundaryTile, arcs)
    requires Closed(start) && |start| <= |r.table| && Wellformed(r', boundaryTile)
    requires |r'.table| == |r.table| + 1 && forall s :: 0 <= s < |r.table| ==> r'.table[s] == r.table[s]
    requires PatternOf(r, boundaryTile, r'.table[|r.table|].chunk).None?
    requires PatternOf(r', boundaryTile, r'.table[|r.table|].chunk) == Some(|r.table|)
    requires forall c :: c != r'.table[|r.table|].chunk ==> PatternOf(r', boundaryTile, c) == PatternOf(r, boundaryTile, c)
    requires forall idx :: 0 <= idx < Directions ==>
               r'.table[|r.table|].neighbors[idx] == BaseSet(start, r'.table, |r.table|, idx)
    ensures Exact(r', boundaryTile, start, arcs) && Known(r', boundaryTile, arcs)
    ensures forall s :: 0 <= s < |r.table| ==> (Current(r', boundaryTile, s) <==> Current(r, boundaryTile, s))
  {
    var n := |r.table|;
    var c := r'.table[n].chunk;
    forall a | a in arcs ensures PatternOf(r', boundaryTile, a.0).Some? && PatternOf(r', boundaryTile, a.2).Some? {
      assert a.0 != c && a.2 != c;
    }
    forall s: PatternId, idx: nat, q: PatternId | Current(r', boundaryTile, s) && idx < Directions
      ensures ExactCell(r', boundaryTile, start, arcs, s, idx, q)
    {
      if s < n {
        assert r'.table[s] == r.table[s];
        assert Current(r, boundaryTile, s);
        ExactAt(r, boundaryTile, start, arcs, s, idx, q);
        assert BaseSet(start, r'.table, s, idx) == BaseSet(start, r.table, s, idx);
        assert r.table[s].chunk != c;
        if q < n {
          assert r'.table[q] == r.table[q];
          assert Current(r', boundaryTile, q) <==> Current(r, boundaryTile, q);
        } else if q == n {
          assert q !in r.table[s].neighbors[idx];
          assert q !in BaseSet(start, r.table, s, idx);
          assert (r.table[s].chunk, idx as int, c) !in arcs;
        } else {
          assert q !in r.table[s].neighbors[idx];
        }
      } else {
        assert s == n;
        if q < n {
          assert (c, idx as int, r'.table[q].chunk) !in arcs;
        } else if q == n {
          assert (c, idx as int, c) !in arcs;
        }
      }
    }
  }

  /** Registries that differ only in neighbour sets hand out the same patterns. */
  lemma ChunksAgree(r: Registry, r': Registry, boundaryTile: Chunk)
    requires r'.dict == r.dict && r'.boundary == r.boundary && r'.empty == r.empty && |r'.table| == |r.table|
    requires forall p :: 0 <= p < |r.table| ==> r'.table[p].chunk == r.table[p].chunk
    ensures forall c :: PatternOf(r', boundaryTile, c) == PatternOf(r, boundaryTile, c)
    ensures forall q :: Current(r', boundaryTile, q) <==> Current(r, boundaryTile, q)
  {
  }

  /** Adding `q` to direction `idx` of `s` records exactly the adjacency between their chunks. */
  lemma LinkKeepsExact(r: Registry, r': Registry, boundaryTile: Chunk, start: seq<Pattern<Chunk>>, arcs: set<Arc>,
                       s: PatternId, idx: nat, q: PatternId)
    requires Wellformed(r, boundaryTile) && Exact(r, boundaryTile, start, arcs) && Known(r, boundaryTile, arcs)
    requires Current(r, boundaryTile, s) && Current(r, boundaryTile, q) && idx < Directions
    requires r' == r.(table := r.table[s := r.table[s].AddNeighbor(idx, q)])
    ensures var arcs' := arcs + {(r.table[s].chunk, idx as int, r.table[q].chunk)};
            Wellformed(r', boundaryTile) && Exact(r', boundaryTile, start, arcs') && Known(r', boundaryTile, arcs')
  {
    var arcs' := arcs + {(r.table[s].chunk, idx as int, r.table[q].chunk)};
    ChunksAgree(r, r', boundaryTile);
    assert Wellformed(r', boundaryTile) by {
      forall p: PatternId, j: nat, m | p < |r.table| && j < Directions && m in r'.table[p].neighbors[j]
        ensures m < |r.table|
      {
        if p != s || j != idx {
          assert m in r.table[p].neighbors[j];
        }
      }
    }
    forall s': PatternId, idx': nat, q': PatternId | Current(r', boundaryTile, s') && idx' < Directions
      ensures ExactCell(r', boundaryTile, start, arcs', s', idx', q')
    {
      assert BaseSet(start, r'.table, s', idx') == BaseSet(start, r.table, s', idx');
      ExactAt(r, boundaryTile, start, arcs, s', idx', q');
      if s' != s {
        assert r.table[s'].chunk != r.table[s].chunk;
        assert r'.table[s'] == r.table[s'];
      } else if idx' != idx {
        assert r'.table[s'].neighbors[idx'] == r.table[s].neighbors[idx'];
      } else if q' != q && Current(r, boundaryTile, q') {
        assert r.table[q'].chunk != r.table[q].chunk;
      }
    }
  }

  // ------------------------------------------------------------ extraction steps, on values

  /** The prefabs that get a dictionary entry: all met ones but the boundary prefab. */
  function Listed(boundaryTile: Chunk, met: set<Prefab>): set<Prefab> {
    if boundaryTile.Some? then met - {boundaryTile.value} else met
  }

  /** The registry after scanning cells that recorded `arcs` and met `met`,
      starting from the table `start`: exact for the recorded adjacencies,
      the dictionary holding exactly the listed met prefabs, every met prefab
      with a pattern, every dictionary pattern new, and every pattern no
      longer handed out as it was. */
  ghost predicate Tracking(r: Registry, boundaryTile: Chunk, arcs: set<Arc>, met: set<Prefab>, start: seq<Pattern<Chunk>>) {
    && Wellformed(r, boundaryTile) && Closed(start) && |start| <= |r.table|
    && Exact(r, boundaryTile, start, arcs) && Known(r, boundaryTile, arcs)
    && r.dict.Keys == Listed(boundaryTile, met)
    && (forall v :: v in met ==> PatternOf(r, boundaryTile, Some(v)).Some?)
    && (forall t :: t in r.dict ==> r.dict[t] >= |start|)
    && (forall s :: 0 <= s < |start| && !Current(r, boundaryTile, s) ==> r.table[s] == start[s])
  }

  /** Every pattern handed out by `r` is still the one handed out by `r'`. */
  ghost predicate Keeps(r: Registry, r': Registry, boundaryTile: Chunk) {
    forall c :: PatternOf(r, boundaryTile, c).Some? ==> PatternOf(r', boundaryTile, c) == PatternOf(r, boundaryTile, c)
  }

  /** A new dictionary pattern for prefab `u` with weight `w`. */
  function AddDict(r: Registry, u: Prefab, w: real): Registry {
    r.(table := r.table + [Pattern(Some(u), w, Empties(Directions))], dict := r.dict[u := |r.table|])
  }

  /** A new boundary pattern. */
  function AddBoundary(r: Registry, boundaryTile: Chunk): Registry {
    r.(table := r.table + [Pattern(boundaryTile, 1.0, Empties(Directions))], boundary := Some(|r.table|))
  }

  /** A new empty pattern, its own neighbour in every direction. */
  function AddEmpty(r: Registry): Registry {
    r.(table := r.table + [Pattern(None, 1.0, Selves(|r.table|))], empty := Some(|r.table|))
  }

  /** The pattern handed out for a chunk is a pattern of that chunk, so it is current. */
  lemma PatternChunk(r: Registry, boundaryTile: Chunk, c: Chunk)
    requires Wellformed(r, boundaryTile) && PatternOf(r, boundaryTile, c).Some?
    ensures PatternOf(r, boundaryTile, c).value < |r.table| && r.table[PatternOf(r, boundaryTile, c).value].chunk == c
    ensures Current(r, boundaryTile, PatternOf(r, boundaryTile, c).value)
  {
  }

  /** A prefab that already has a pattern is met again: nothing changes. */
  lemma MetAgain(r: Registry, boundaryTile: Chunk, arcs: set<Arc>, met: set<Prefab>, start: seq<Pattern<Chunk>>, u: Prefab)
    requires Tracking(r, boundaryTile, arcs, met, start) && PatternOf(r, boundaryTile, Some(u)).Some?
    ensures Tracking(r, boundaryTile, arcs, met + {u}, start)
  {
  }

  /** Extraction starts exact: nothing recorded, every pattern as it was. */
  lemma StartTracking(r: Registry, boundaryTile: Chunk)
    requires Wellformed(r, boundaryTile) && r.dict == map[]
    ensures Tracking(r, boundaryTile, {}, {}, r.table)
  {
    forall s: PatternId, idx: nat, q: PatternId | Current(r, boundaryTile, s) && idx < Directions
      ensures ExactCell(r, boundaryTile, r.table, {}, s, idx, q)
    {
    }
  }

  /** A new pattern appended for a chunk that had none keeps tracking, with `u` met. */
  lemma GrowKeepsTracking(r: Registry, r': Registry, boundaryTile: Chunk, arcs: set<Arc>, met: set<Prefab>,
                          start: seq<Pattern<Chunk>>, u: Chunk)
    requires Tracking(r, boundaryTile, arcs, met, start) && Wellformed(r', boundaryTile)
    requires |r'.table| == |r.table| + 1 && forall s :: 0 <= s < |r.table| ==> r'.table[s] == r.table[s]
    requires r'.table[|r.table|].chunk == u && PatternOf(r, boundaryTile, u).None?
    requires PatternOf(r', boundaryTile, u) == Some(|r.table|)
    requires forall c :: c != u ==> PatternOf(r', boundaryTile, c) == PatternOf(r, boundaryTile, c)
    requires forall idx :: 0 <= idx < Directions ==>
               r'.table[|r.table|].neighbors[idx] == BaseSet(start, r'.table, |r.table|, idx)
    requires forall t :: t in r'.dict ==> r'.dict[t] >= |start|
    requires r'.dict.Keys == Listed(boundaryTile, if u.Some? then met + {u.value} else met)
    ensures Tracking(r', boundaryTile, arcs, if u.Some? then met + {u.value} else met, start)
    ensures Keeps(r, r', boundaryTile)
  {
    GrowKeepsExact(r, r', boundaryTile, start, arcs);
  }

  /** `GetOrCreatePattern` for a prefab without a pattern, not the boundary one. */
  lemma AddDictKeepsTracking(r: Registry, boundaryTile: Chunk, arcs: set<Arc>, met: set<Prefab>,
                             start: seq<Pattern<Chunk>>, u: Prefab, w: real)
    requires Tracking(r, boundaryTile, arcs, met, start) && u !in r.dict && Some(u) != boundaryTile
    ensures Tracking(AddDict(r, u, w), boundaryTile, arcs, met + {u}, start)
    ensures Keeps(r, AddDict(r, u, w), boundaryTile)
  {
    var r' := AddDict(r, u, w);
    assert forall s :: 0 <= s < |r.table| ==> r'.table[s] == r.table[s];
    assert Wellformed(r', boundaryTile);
    GrowKeepsTracking(r, r', boundaryTile, arcs, met, start, Some(u));
  }

  /** `GetOrCreatePattern` for the boundary prefab before its pattern exists. */
  lemma AddBoundaryKeepsTracking(r: Registry, boundaryTile: Chunk, arcs: set<Arc>, met: set<Prefab>,
                                 start: seq<Pattern<Chunk>>)
    requires Tracking(r, boundaryTile, arcs, met, start) && boundaryTile.Some? && r.boundary.None?
    ensures Tracking(AddBoundary(r, boundaryTile), boundaryTile, arcs, met + {boundaryTile.value}, start)
    ensures Keeps(r, AddBoundary(r, boundaryTile), boundaryTile)
  {
    var r' := AddBoundary(r, boundaryTile);
    assert forall s :: 0 <= s < |r.table| ==> r'.table[s] == r.table[s];
    assert Wellformed(r', boundaryTile);
    GrowKeepsTracking(r, r', boundaryTile, arcs, met, start, boundaryTile);
  }

  /** `GetOrCreateEmptyPattern` before the empty pattern exists. */
  lemma AddEmptyKeepsTracking(r: Registry, boundaryTile: Chunk, arcs: set<Arc>, met: set<Prefab>,
                              start: seq<Pattern<Chunk>>)
    requires Tracking(r, boundaryTile, arcs, met, start) && r.empty.None?
    ensures Tracking(AddEmpty(r), boundaryTile, arcs, met, start)
    ensures Keeps(r, AddEmpty(r), boundaryTile)
  {
    var r' := AddEmpty(r);
    assert forall s :: 0 <= s < |r.table| ==> r'.table[s] == r.table[s];
    assert Wellformed(r', boundaryTile);
    GrowKeepsTracking(r, r', boundaryTile, arcs, met, start, None);
  }

  /** `Neighbors[idx].Add(q)` on pattern `s`: records the adjacency between their chunks. */
  lemma LinkKeepsTracking(r: Registry, r': Registry, boundaryTile: Chunk, arcs: set<Arc>, met: set<Prefab>,
                          start: seq<Pattern<Chunk>>, s: PatternId, idx: nat, q: PatternId)
    requires Tracking(r, boundaryTile, arcs, met, start) && idx < Directions
    requires Current(r, boundaryTile, s) && Current(r, boundaryTile, q)
    requires r' == r.(table := r.table[s := r.table[s].AddNeighbor(idx, q)])
    ensures Tracking(r', boundaryTile, arcs + {(r.table[s].chunk, idx as int, r.table[q].chunk)}, met, start)
    ensures Keeps(r, r', boundaryTile) && forall p :: Current(r', boundaryTile, p) <==> Current(r, boundaryTile, p)
  {
    LinkKeepsExact(r, r', boundaryTile, start, arcs, s, idx, q);
    ChunksAgree(r, r', boundaryTile);
  }

  /** One more direction of a painted cell whose neighbour there is painted. */
  lemma StepPainted(tiles: map<Vec3, Prefab>, includeEmpty: bool, p: Vec3, idx: nat, arcs: set<Arc>, met: set<Prefab>)
    requires p in tiles && idx < Directions && p.Plus(AdjacentOffset[idx]) in tiles
    ensures var q := p.Plus(AdjacentOffset[idx]);
            && arcs + ArcsAt(tiles, includeEmpty, p, idx + 1) == arcs + ArcsAt(tiles, includeEmpty, p, idx) + {(Some(tiles[p]), idx as int, Some(tiles[q]))}
            && met + MetAt(tiles, p, idx + 1) == met + MetAt(tiles, p, idx) + {tiles[q]}
  {
  }

  /** One more direction of a painted cell whose neighbour there is unpainted. */
  lemma StepUnpainted(tiles: map<Vec3, Prefab>, includeEmpty: bool, p: Vec3, idx: nat, arcs: set<Arc>, met: set<Prefab>)
    requires p in tiles && idx < Directions && p.Plus(AdjacentOffset[idx]) !in tiles
    ensures arcs + ArcsAt(tiles, includeEmpty, p, idx + 1) ==
            if includeEmpty
            then arcs + ArcsAt(tiles, includeEmpty, p, idx) + {(Some(tiles[p]), idx as int, None)} + {(None, Opposite(idx) as int, Some(tiles[p]))}
            else arcs + ArcsAt(tiles, includeEmpty, p, idx)
    ensures met + MetAt(tiles, p, idx + 1) == met + MetAt(tiles, p, idx)
  {
  }

  /** What an exact registry says cell by cell about a new dictionary pattern:
      the direction-`idx` set of the pattern of prefab `t` holds `q` exactly
      when `q` is handed out for the chunk seen at offset `idx` from some
      scanned cell painted with `t`: the prefab there, or the empty chunk when
      that cell is unpainted and empty tiles are included. */
  lemma NeighbourMeaning(r: Registry, boundaryTile: Chunk, tiles: map<Vec3, Prefab>, includeEmpty: bool, ps: seq<Vec3>,
                         start: seq<Pattern<Chunk>>, t: Prefab, idx: nat, q: PatternId)
    requires Wellformed(r, boundaryTile) && Exact(r, boundaryTile, start, Arcs(tiles, includeEmpty, ps))
    requires t in r.dict && r.dict[t] >= |start| && idx < Directions
    ensures q in r.table[r.dict[t]].neighbors[idx] <==>
            Current(r, boundaryTile, q) &&
            exists i :: 0 <= i < |ps| && ps[i] in tiles && tiles[ps[i]] == t &&
              if ps[i].Plus(AdjacentOffset[idx]) in tiles
              then r.table[q].chunk == Some(tiles[ps[i].Plus(AdjacentOffset[idx])])
              else includeEmpty && r.table[q].chunk == None
  {
    var s := r.dict[t];
    assert Current(r, boundaryTile, s);
    ExactAt(r, boundaryTile, start, Arcs(tiles, includeEmpty, ps), s, idx, q);
    assert BaseSet(start, r.table, s, idx) == {};
    if q < |r.table| {
      var a: Arc := (Some(t), idx as int, r.table[q].chunk);
      ArcsMembership(tiles, includeEmpty, ps, a);
      if a in Arcs(tiles, includeEmpty, ps) {
        var i :| 0 <= i < |ps| && a in ArcsAt(tiles, includeEmpty, ps[i], Directions);
        ArcsAtMembership(tiles, includeEmpty, ps[i], Directions, a);
      }
      if exists i :: 0 <= i < |ps| && ps[i] in tiles && tiles[ps[i]] == t &&
                     if ps[i].Plus(AdjacentOffset[idx]) in tiles
                     then r.table[q].chunk == Some(tiles[ps[i].Plus(AdjacentOffset[idx])])
                     else includeEmpty && r.table[q].chunk == None {
        var i :| 0 <= i < |ps| && ps[i] in tiles && tiles[ps[i]] == t &&
                 if ps[i].Plus(AdjacentOffset[idx]) in tiles
                 then r.table[q].chunk == Some(tiles[ps[i].Plus(AdjacentOffset[idx])])
                 else includeEmpty && r.table[q].chunk == None;
        ArcsAtMembership(tiles, includeEmpty, ps[i], Directions, a);
      }
    }
  }

  /** The same for the empty pattern: beyond what it held at the start, its
      direction-`idx` set holds `q` exactly when `q` is handed out for the
      prefab of some scanned cell whose neighbour in the direction opposite
      `idx` is unpainted, empty tiles being included. */
  lemma EmptyMeaning(r: Registry, boundaryTile: Chunk, tiles: map<Vec3, Prefab>, includeEmpty: bool, ps: seq<Vec3>,
                     start: seq<Pattern<Chunk>>, idx: nat, q: PatternId)
    requires Wellformed(r, boundaryTile) && Exact(r, boundaryTile, start, Arcs(tiles, includeEmpty, ps))
    requires r.empty.Some? && idx < Directions
    ensures q in r.table[r.empty.value].neighbors[idx] <==>
            q in BaseSet(start, r.table, r.empty.value, idx) ||
            (Current(r, boundaryTile, q) && includeEmpty &&
             exists i, j :: 0 <= i < |ps| && 0 <= j < Directions && Opposite(j) == idx &&
                            ps[i] in tiles && ps[i].Plus(AdjacentOffset[j]) !in tiles && r.table[q].chunk == Some(tiles[ps[i]]))
  {
    var e := r.empty.value;
    assert Current(r, boundaryTile, e);
    ExactAt(r, boundaryTile, start, Arcs(tiles, includeEmpty, ps), e, idx, q);
    if q < |r.table| {
      var a: Arc := (None, idx as int, r.table[q].chunk);
      ArcsMembership(tiles, includeEmpty, ps, a);
      if a in Arcs(tiles, includeEmpty, ps) {
        var i :| 0 <= i < |ps| && a in ArcsAt(tiles, includeEmpty, ps[i], Directions);
        ArcsAtMembership(tiles, includeEmpty, ps[i], Directions, a);
        var j :| 0 <= j < Directions &&
                 var n := ps[i].Plus(AdjacentOffset[j]);
                 if n in tiles then a == (Some(tiles[ps[i]]), j, Some(tiles[n]))
                 else includeEmpty && (a == (Some(tiles[ps[i]]), j, None) || a == (None, Opposite(j) as int, Some(tiles[ps[i]])));
        assert Opposite(j) == idx;
      }
      if includeEmpty && (exists i, j :: 0 <= i < |ps| && 0 <= j < Directions && Opposite(j) == idx &&
                                         ps[i] in tiles && ps[i].Plus(AdjacentOffset[j]) !in tiles && r.table[q].chunk == Some(tiles[ps[i]])) {
        var i, j :| 0 <= i < |ps| && 0 <= j < Directions && Opposite(j) == idx &&
                    ps[i] in tiles && ps[i].Plus(AdjacentOffset[j]) !in tiles && r.table[q].chunk == Some(tiles[ps[i]]);
        ArcsAtMembership(tiles, includeEmpty, ps[i], Directions, a);
      }
    }
  }

  // ------------------------------------------------------------ the extractor

  class Extractor {
    const includeEmptyTile: bool          // `IncludeEmptyTile`
    const boundaryTile: Chunk             // `BoundaryTile`, `None` when unset
    const tileWeight: map<Prefab, real>   // the `TileWeight` component of a prefab, where it has one
    var table: seq<Pattern<Chunk>>        // every pattern created so far, by id
    var dict: map<Prefab, PatternId>      // `_patterns`
    var order: seq<Prefab>                // the dictionary's keys in insertion order
    var patterns: seq<PatternId>          // `Patterns`
    var boundaryPattern: Option<PatternId>  // `_boundaryPattern`
    var emptyPattern: Option<PatternId>     // `_emptyPattern`

    ghost function View(): Registry
      reads this
    {
      Registry(table, dict, boundaryPattern, emptyPattern)
    }

    /** The registry is well formed and `order` lists the dictionary's keys once each. */
    ghost predicate Valid()
      reads this
    {
      && Wellformed(View(), boundaryTile)
      && (forall t :: t in dict <==> t in order)
      && (forall i, j :: 0 <= i < j < |order| ==> order[i] != order[j])
    }

    constructor (includeEmptyTile: bool, boundaryTile: Chunk, tileWeight: map<Prefab, real>)
      ensures Valid()
      ensures this.includeEmptyTile == includeEmptyTile && this.boundaryTile == boundaryTile && this.tileWeight == tileWeight
      ensures table == [] && dict == map[] && order == [] && patterns == [] && boundaryPattern == None && emptyPattern == None
    {
      this.includeEmptyTile := includeEmptyTile;
      this.boundaryTile := boundaryTile;
      this.tileWeight := tileWeight;
      table := [];
      dict := map[];
      order := [];
      patterns := [];
      boundaryPattern := None;
      emptyPattern := None;
    }

    /** The `BoundaryPattern` getter: the cached boundary pattern; none when no
        boundary prefab is set; otherwise a new pattern for it, cached. */
    method BoundaryPattern() returns (r: Option<PatternId>)
      requires Valid()
      modifies this`table, this`boundaryPattern
      ensures Valid()
      ensures old(boundaryPattern).Some? ==> r == old(boundaryPattern) && table == old(table) && boundaryPattern == old(boundaryPattern)
      ensures old(boundaryPattern).None? && boundaryTile.None? ==> r.None? && table == old(table) && boundaryPattern == None
      ensures old(boundaryPattern).None? && boundaryTile.Some? ==>
                && r == Some(|old(table)|) && boundaryPattern == r
                && table == old(table) + [Pattern(boundaryTile, 1.0, Empties(Directions))]
    {
      if boundaryPattern.Some? {
        return boundaryPattern;
      }
      if boundaryTile.None? {
        return None;
      }
      var p := NewPattern(boundaryTile, |AdjacentOffset|);
      assert p.neighbors == Empties(Directions);
      r := Some(|table|);
      table := table + [p];
      boundaryPattern := r;
      assert Wellformed(View(), boundaryTile) by {
        assert forall s :: 0 <= s < |old(table)| ==> table[s] == old(table)[s];
      }
    }

    /** `GetOrCreateEmptyPattern()`: the cached empty pattern, or a new one with
        a null chunk that is its own neighbour in every direction. */
    method GetOrCreateEmptyPattern() returns (id: PatternId)
      requires Valid()
      modifies this`table, this`emptyPattern
      ensures Valid() && emptyPattern == Some(id) && id < |table|
      ensures old(emptyPattern).Some? ==> id == old(emptyPattern).value && table == old(table)
      ensures old(emptyPattern).None? ==> id == |old(table)| && table == old(table) + [Pattern(None, 1.0, Selves(id))]
    {
      if emptyPattern.Some? {
        return emptyPattern.value;
      }
      id := |table|;
      var p := NewPattern(None, |AdjacentOffset|);
      for idx := 0 to |AdjacentOffset|
        invariant p.chunk == None && p.weight == 1.0 && |p.neighbors| == Directions
        invariant forall j :: 0 <= j < Directions ==> p.neighbors[j] == if j < idx then {id} else {}
      {
        p := p.AddNeighbor(idx, id);
      }
      assert p.neighbors == Selves(id);
      table := table + [p];
      emptyPattern := Some(id);
      assert Wellformed(View(), boundaryTile) by {
        assert forall s :: 0 <= s < id ==> table[s] == old(table)[s];
      }
    }

    /** `GetOrCreatePattern(tile)` for the tile's prefab: the dictionary's
        pattern; the boundary pattern for the boundary prefab; otherwise a new
        pattern weighted by the prefab's `TileWeight` (1 without one), added
        to the dictionary. */
    method GetOrCreatePattern(prefab: Prefab) returns (id: PatternId)
      requires Valid()
      modifies this`table, this`dict, this`order, this`boundaryPattern
      ensures Valid() && PatternOf(View(), boundaryTile, Some(prefab)) == Some(id) && id < |table|
      ensures emptyPattern == old(emptyPattern)
      ensures prefab in old(dict) ==> id == old(dict)[prefab] && table == old(table) && dict == old(dict) && order == old(order) && boundaryPattern == old(boundaryPattern)
      ensures prefab !in old(dict) && Some(prefab) == boundaryTile ==>
                dict == old(dict) && order == old(order) &&
                (old(boundaryPattern).Some? ==> id == old(boundaryPattern).value && table == old(table) && boundaryPattern == old(boundaryPattern)) &&
                (old(boundaryPattern).None? ==> id == |old(table)| && boundaryPattern == Some(id) &&
                                                 table == old(table) + [Pattern(boundaryTile, 1.0, Empties(Directions))])
      ensures prefab !in old(dict) && Some(prefab) != boundaryTile ==>
                && id == |old(table)| && boundaryPattern == old(boundaryPattern)
                && table == old(table) + [Pattern(Some(prefab), if prefab in tileWeight then tileWeight[prefab] else 1.0, Empties(Directions))]
                && dict == old(dict)[prefab := id] && order == old(order) + [prefab]
    {
      if prefab in dict {
        return dict[prefab];
      }
      if Some(prefab) == boundaryTile {
        var b := BoundaryPattern();
        return b.value;
      }
      var weight := 1.0;
      if prefab in tileWeight {
        weight := tileWeight[prefab];
      }
      var p := NewWeightedPattern(Some(prefab), |AdjacentOffset|, weight);
      assert p.neighbors == Empties(Directions);
      id := |table|;
      table := table + [p];
      dict := dict[prefab := id];
      order := order + [prefab];
      assert Wellformed(View(), boundaryTile) by {
        assert forall s :: 0 <= s < id ==> table[s] == old(table)[s];
      }
    }

    /** The extractor's registry after scanning cells that recorded `arcs` and met `met`. */
    ghost predicate Tracks(arcs: set<Arc>, met: set<Prefab>, start: seq<Pattern<Chunk>>)
      reads this
    {
      Valid() && Tracking(View(), boundaryTile, arcs, met, start)
    }

    /** `Tracks` depends on the recorded sets only, not on how they are written. */
    lemma TracksSame(arcs: set<Arc>, met: set<Prefab>, arcs': set<Arc>, met': set<Prefab>, start: seq<Pattern<Chunk>>)
      requires Tracks(arcs, met, start) && arcs == arcs' && met == met'
      ensures Tracks(arcs', met', start)
    {
    }

    /** `GetOrCreatePattern` inside extraction: the prefab is now met and has
        a pattern handed out, and nothing recorded so far changes. */
    method Adopt(prefab: Prefab, ghost arcs: set<Arc>, ghost met: set<Prefab>, ghost start: seq<Pattern<Chunk>>)
      returns (id: PatternId)
      requires Tracks(arcs, met, start)
      modifies this`table, this`dict, this`order, this`boundaryPattern
      ensures Tracks(arcs, met + {prefab}, start) && Keeps(old(View()), View(), boundaryTile) && emptyPattern == old(emptyPattern)
      ensures PatternOf(View(), boundaryTile, Some(prefab)) == Some(id) && Current(View(), boundaryTile, id)
    {
      ghost var r := View();
      if prefab in dict {
        id := GetOrCreatePattern(prefab);
        assert View() == r;
        MetAgain(r, boundaryTile, arcs, met, start, prefab);
      } else if Some(prefab) == boundaryTile && boundaryPattern.Some? {
        id := GetOrCreatePattern(prefab);
        assert View() == r;
        MetAgain(r, boundaryTile, arcs, met, start, prefab);
      } else if Some(prefab) == boundaryTile {
        AddBoundaryKeepsTracking(r, boundaryTile, arcs, met, start);
        id := GetOrCreatePattern(prefab);
        assert View() == AddBoundary(r, boundaryTile);
      } else {
        AddDictKeepsTracking(r, boundaryTile, arcs, met, start, prefab, if prefab in tileWeight then tileWeight[prefab] else 1.0);
        id := GetOrCreatePattern(prefab);
        assert View() == AddDict(r, prefab, if prefab in tileWeight then tileWeight[prefab] else 1.0);
      }
    }

    /** `GetOrCreateEmptyPattern` inside extraction. */
    method AdoptEmpty(ghost arcs: set<Arc>, ghost met: set<Prefab>, ghost start: seq<Pattern<Chunk>>) returns (id: PatternId)
      requires Tracks(arcs, met, start)
      modifies this`table, this`emptyPattern
      ensures Tracks(arcs, met, start) && Keeps(old(View()), View(), boundaryTile)
      ensures emptyPattern == Some(id) && Current(View(), boundaryTile, id)
    {
      ghost var r := View();
      if emptyPattern.Some? {
        id := GetOrCreateEmptyPattern();
        assert View() == r;
      } else {
        AddEmptyKeepsTracking(r, boundaryTile, arcs, met, start);
        id := GetOrCreateEmptyPattern();
        assert View() == AddEmpty(r);
      }
    }

    /** `Neighbors[idx].Add(q)` on pattern `s` of chunk `cs` inside
        extraction, `q` of chunk `cq`: records the adjacency between them. */
    method Link(s: PatternId, idx: nat, q: PatternId, ghost cs: Chunk, ghost cq: Chunk,
                ghost arcs: set<Arc>, ghost met: set<Prefab>, ghost start: seq<Pattern<Chunk>>)
      requires Tracks(arcs, met, start) && idx < Directions
      requires PatternOf(View(), boundaryTile, cs) == Some(s) && PatternOf(View(), boundaryTile, cq) == Some(q)
      modifies this`table
      ensures Tracks(arcs + {(cs, idx as int, cq)}, met, start)
      ensures forall c :: PatternOf(View(), boundaryTile, c) == PatternOf(old(View()), boundaryTile, c)
    {
      ghost var r := View();
      ghost var r' := r.(table := r.table[s := r.table[s].AddNeighbor(idx, q)]);
      PatternChunk(r, boundaryTile, cs);
      PatternChunk(r, boundaryTile, cq);
      LinkKeepsTracking(r, r', boundaryTile, arcs, met, start, s, idx, q);
      ChunksAgree(r, r', boundaryTile);
      table := table[s := table[s].AddNeighbor(idx, q)];
      assert View() == r';
    }

    /** `ExtractPatterns()`: clears the dictionary and the pattern list, scans
        the cells `positions` (the tilemap bounds, in iteration order), then
        lists the dictionary's patterns followed, when empty tiles are
        included, by the empty pattern. Afterwards the dictionary holds
        exactly the scanned prefabs and their painted neighbours' (but the
        boundary prefab), all with new patterns; every pattern handed out
        holds in direction `idx` what it held before plus exactly the
        patterns of the chunks seen at offset `idx` from it (`Exact`); and
        patterns no longer handed out are left as they were. */
    method ExtractPatterns(tiles: map<Vec3, Prefab>, positions: seq<Vec3>)
      requires Valid()
      modifies this`table, this`dict, this`order, this`patterns, this`boundaryPattern, this`emptyPattern
      ensures Valid()
      ensures Tracking(View(), boundaryTile, Arcs(tiles, includeEmptyTile, positions), Met(tiles, positions), old(table))
      ensures includeEmptyTile ==> emptyPattern.Some?
      ensures |patterns| == |order| + (if includeEmptyTile then 1 else 0)
      ensures forall i :: 0 <= i < |order| ==> patterns[i] == dict[order[i]]
      ensures includeEmptyTile ==> patterns[|order|] == emptyPattern.value
    {
      dict := map[];    // `_patterns.Clear()`
      order := [];
      patterns := [];   // `Patterns.Clear()`
      ghost var start := table;
      StartTracking(View(), boundaryTile);
      Scan(tiles, positions, start);
      ListPatterns(Arcs(tiles, includeEmptyTile, positions), Met(tiles, positions), start);
    }

    /** The scan of the cells `positions`. */
    method Scan(tiles: map<Vec3, Prefab>, positions: seq<Vec3>, ghost start: seq<Pattern<Chunk>>)
      requires Tracks({}, {}, start)
      modifies this`table, this`dict, this`order, this`boundaryPattern, this`emptyPattern
      ensures Tracks(Arcs(tiles, includeEmptyTile, positions), Met(tiles, positions), start)
    {
      for k := 0 to |positions|
        invariant Tracks(Arcs(tiles, includeEmptyTile, positions[..k]), Met(tiles, positions[..k]), start)
      {
        assert positions[..k + 1][..k] == positions[..k];
        ExtractAt(tiles, positions[k], Arcs(tiles, includeEmptyTile, positions[..k]), Met(tiles, positions[..k]), start);
      }
      assert positions[..|positions|] == positions;
    }

    /** `_patterns.Values`, in insertion order. */
    method DictPatterns() returns (list: seq<PatternId>)
      requires Valid()
      ensures |list| == |order| && forall i :: 0 <= i < |order| ==> list[i] == dict[order[i]]
    {
      list := [];
      for i := 0 to |order|
        invariant |list| == i && forall j :: 0 <= j < i ==> list[j] == dict[order[j]]
      {
        list := list + [dict[order[i]]];
      }
    }

    /** `Patterns.Add` for every dictionary pattern, in insertion order, then
        for the empty pattern when empty tiles are included. */
    method ListPatterns(ghost arcs: set<Arc>, ghost met: set<Prefab>, ghost start: seq<Pattern<Chunk>>)
      requires Tracks(arcs, met, start) && patterns == []
      modifies this`patterns, this`table, this`emptyPattern
      ensures Tracks(arcs, met, start)
      ensures includeEmptyTile ==> emptyPattern.Some?
      ensures |patterns| == |order| + (if includeEmptyTile then 1 else 0)
      ensures forall i :: 0 <= i < |order| ==> patterns[i] == dict[order[i]]
      ensures includeEmptyTile ==> patterns[|order|] == emptyPattern.value
    {
      patterns := DictPatterns();
      if includeEmptyTile {
        var empty := AdoptEmpty(arcs, met, start);
        patterns := patterns + [empty];
      }
    }

    /** The body of the scan for cell `pos`: nothing for an unpainted cell;
        otherwise, for every direction, the pattern of its prefab gains the
        pattern of the painted neighbour there, or, when empty tiles are
        included and the neighbour is unpainted, the empty pattern, which in
        turn gains the prefab's pattern in the opposite direction. */
    method ExtractAt(tiles: map<Vec3, Prefab>, pos: Vec3, ghost arcs: set<Arc>, ghost met: set<Prefab>, ghost start: seq<Pattern<Chunk>>)
      requires Tracks(arcs, met, start)
      modifies this`table, this`dict, this`order, this`boundaryPattern, this`emptyPattern
      ensures Tracks(arcs + ArcsAt(tiles, includeEmptyTile, pos, Directions), met + MetAt(tiles, pos, Directions), start)
    {
      if pos !in tiles {
        TracksSame(arcs, met, arcs + ArcsAt(tiles, includeEmptyTile, pos, Directions), met + MetAt(tiles, pos, Directions), start);
        return;
      }
      ExtractPainted(tiles, pos, arcs, met, start);
    }

    /** The scan of a painted cell: its prefab's pattern, then every direction. */
    method ExtractPainted(tiles: map<Vec3, Prefab>, pos: Vec3, ghost arcs: set<Arc>, ghost met: set<Prefab>, ghost start: seq<Pattern<Chunk>>)
      requires Tracks(arcs, met, start) && pos in tiles
      modifies this`table, this`dict, this`order, this`boundaryPattern, this`emptyPattern
      ensures Tracks(arcs + ArcsAt(tiles, includeEmptyTile, pos, Directions), met + MetAt(tiles, pos, Directions), start)
    {
      var pattern := Adopt(tiles[pos], arcs, met, start);
      TracksSame(arcs, met + {tiles[pos]}, arcs + ArcsAt(tiles, includeEmptyTile, pos, 0), met + MetAt(tiles, pos, 0), start);
      LinkAll(tiles, pos, pattern, arcs, met, start);
    }

    /** The direction loop of a painted cell whose prefab has pattern `pattern`. */
    method LinkAll(tiles: map<Vec3, Prefab>, pos: Vec3, pattern: PatternId,
                   ghost arcs: set<Arc>, ghost met: set<Prefab>, ghost start: seq<Pattern<Chunk>>)
      requires pos in tiles
      requires Tracks(arcs + ArcsAt(tiles, includeEmptyTile, pos, 0), met + MetAt(tiles, pos, 0), start)
      requires PatternOf(View(), boundaryTile, Some(tiles[pos])) == Some(pattern)
      modifies this`table, this`dict, this`order, this`boundaryPattern, this`emptyPattern
      ensures Tracks(arcs + ArcsAt(tiles, includeEmptyTile, pos, Directions), met + MetAt(tiles, pos, Directions), start)
    {
      for idx := 0 to |AdjacentOffset|
        invariant Tracks(arcs + ArcsAt(tiles, includeEmptyTile, pos, idx), met + MetAt(tiles, pos, idx), start)
        invariant PatternOf(View(), boundaryTile, Some(tiles[pos])) == Some(pattern)
      {
        LinkAt(tiles, pos, idx, pattern, arcs, met, start);
      }
    }

    /** One direction of the scan of a painted cell. */
    method LinkAt(tiles: map<Vec3, Prefab>, pos: Vec3, idx: nat, pattern: PatternId,
                  ghost arcs: set<Arc>, ghost met: set<Prefab>, ghost start: seq<Pattern<Chunk>>)
      requires idx < Directions && pos in tiles
      requires Tracks(arcs + ArcsAt(tiles, includeEmptyTile, pos, idx), met + MetAt(tiles, pos, idx), start)
      requires PatternOf(View(), boundaryTile, Some(tiles[pos])) == Some(pattern)
      modifies this`table, this`dict, this`order, this`boundaryPattern, this`emptyPattern
      ensures Tracks(arcs + ArcsAt(tiles, includeEmptyTile, pos, idx + 1), met + MetAt(tiles, pos, idx + 1), start)
      ensures PatternOf(View(), boundaryTile, Some(tiles[pos])) == Some(pattern)
    {
      ghost var arcs0, met0 := arcs + ArcsAt(tiles, includeEmptyTile, pos, idx), met + MetAt(tiles, pos, idx);
      var neighbor := pos.Plus(AdjacentOffset[idx]);
      if neighbor !in tiles {
        StepUnpainted(tiles, includeEmptyTile, pos, idx, arcs, met);
        if includeEmptyTile {
          LinkEmpty(tiles[pos], idx, pattern, arcs0, met0, start);
        }
        return;
      }
      StepPainted(tiles, includeEmptyTile, pos, idx, arcs, met);
      LinkPainted(tiles[pos], idx, tiles[neighbor], pattern, arcs0, met0, start);
    }

    /** A painted neighbour: its prefab is met and its pattern joins direction `idx` of `pattern`. */
    method LinkPainted(source: Prefab, idx: nat, target: Prefab, pattern: PatternId,
                       ghost arcs: set<Arc>, ghost met: set<Prefab>, ghost start: seq<Pattern<Chunk>>)
      requires Tracks(arcs, met, start) && idx < Directions
      requires PatternOf(View(), boundaryTile, Some(source)) == Some(pattern)
      modifies this`table, this`dict, this`order, this`boundaryPattern
      ensures Tracks(arcs + {(Some(source), idx as int, Some(target))}, met + {target}, start)
      ensures PatternOf(View(), boundaryTile, Some(source)) == Some(pattern)
    {
      var adjacent := Adopt(target, arcs, met, start);
      Link(pattern, idx, adjacent, Some(source), Some(target), arcs, met + {target}, start);
    }

    /** An unpainted neighbour with empty tiles included: the empty pattern
        joins direction `idx` of `pattern`, and `pattern` joins the empty
        pattern's direction `NeighborOffset.IndexOf(-NeighborOffset[idx])`. */
    method LinkEmpty(source: Prefab, idx: nat, pattern: PatternId,
                     ghost arcs: set<Arc>, ghost met: set<Prefab>, ghost start: seq<Pattern<Chunk>>)
      requires Tracks(arcs, met, start) && idx < Directions
      requires PatternOf(View(), boundaryTile, Some(source)) == Some(pattern)
      modifies this`table, this`emptyPattern
      ensures Tracks(arcs + {(Some(source), idx as int, None)} + {(None, Opposite(idx) as int, Some(source))}, met, start)
      ensures PatternOf(View(), boundaryTile, Some(source)) == Some(pattern)
    {
      var empty := AdoptEmpty(arcs, met, start);
      Link(pattern, idx, empty, Some(source), None, arcs, met, start);
      var contrary := Utility.IndexOf(AdjacentOffset, AdjacentOffset[idx].Negate());
      IndexOfNegation(idx);
      Link(empty, contrary, pattern, None, Some(source), arcs + {(Some(source), idx as int, None)}, met, start);
    }
  }
}
