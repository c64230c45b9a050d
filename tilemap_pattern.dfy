/** The 2-D pattern extractor `TilemapPattern` (Assets/Scripts/WFC/TilemapPattern.cs):
    one pattern per distinct tile of a tilemap, whose direction-`idx` neighbour
    set collects the patterns of the tiles painted at offset `idx` from it.
    The tilemap is a finite map from cell positions to tile ids; patterns are
    ids into the table of every pattern created so far. */
module TilemapPatterns {
  import opened Vectors
  import opened PatternInterface
  import opened Patterns

  /** A `TileBase` asset, by id. */
  type Tile = nat

  /** `Adjacent`: right, up, left, down. */
  const Adjacent: seq<Vec3> := [Vec3(1, 0, 0), Vec3(0, 1, 0), Vec3(-1, 0, 0), Vec3(0, -1, 0)]

  /** `AdjacentWithCorner`: right, up-right, up, up-left, left, down-left,
      down, down-right. */
  const AdjacentWithCorner: seq<Vec3> :=
    [Vec3(1, 0, 0), Vec3(1, 1, 0), Vec3(0, 1, 0), Vec3(-1, 1, 0),
     Vec3(-1, 0, 0), Vec3(-1, -1, 0), Vec3(0, -1, 0), Vec3(1, -1, 0)]

  /** `NeighborOffset`: the corner table when `IncludeCorner` is set. */
  function NeighborOffset(includeCorner: bool): (r: seq<Vec3>)
    ensures |r| == if includeCorner then 8 else 4
  {
    if includeCorner then AdjacentWithCorner else Adjacent
  }

  /** In both tables the opposite of direction `i` lies half-way round:
      `(i + 2) % 4` without corners, `(i + 4) % 8` with them. */
  lemma OppositeHalfway(includeCorner: bool, i: int)
    requires 0 <= i < |NeighborOffset(includeCorner)|
    ensures var o := NeighborOffset(includeCorner);
            if includeCorner then o[(i + 4) % 8] == o[i].Negate() else o[(i + 2) % 4] == o[i].Negate()
  {
    if includeCorner {
      CornerOpposite(i);
    } else {
      SideOpposite(i);
    }
  }

  lemma SideOpposite(i: int)
    requires 0 <= i < 4
    ensures Adjacent[(i + 2) % 4] == Adjacent[i].Negate()
  {
    SideComponents(i);
    OppositeByComponents(Adjacent[(i + 2) % 4], Adjacent[i]);
  }

  lemma CornerOpposite(i: int)
    requires 0 <= i < 8
    ensures AdjacentWithCorner[(i + 4) % 8] == AdjacentWithCorner[i].Negate()
  {
    WithCornerComponents(i);
    OppositeByComponents(AdjacentWithCorner[(i + 4) % 8], AdjacentWithCorner[i]);
  }

  lemma SideComponents(i: int)
    requires 0 <= i < 4
    ensures var a, b := Adjacent[(i + 2) % 4], Adjacent[i]; a.x == -b.x && a.y == -b.y && a.z == -b.z
  {
    if i == 0 {
      assert (i + 2) % 4 == 2;
    } else if i == 1 {
      assert (i + 2) % 4 == 3;
    } else if i == 2 {
      assert (i + 2) % 4 == 0;
    } else {
      assert (i + 2) % 4 == 1;
    }
  }

  lemma WithCornerComponents(i: int)
    requires 0 <= i < 8
    ensures var a, b := AdjacentWithCorner[(i + 4) % 8], AdjacentWithCorner[i]; a.x == -b.x && a.y == -b.y && a.z == -b.z
  {
    if i == 0 {
      assert (i + 4) % 8 == 4;
    } else if i == 1 {
      assert (i + 4) % 8 == 5;
    } else if i == 2 {
      assert (i + 4) % 8 == 6;
    } else if i == 3 {
      assert (i + 4) % 8 == 7;
    } else if i == 4 {
      assert (i + 4) % 8 == 0;
    } else if i == 5 {
      assert (i + 4) % 8 == 1;
    } else if i == 6 {
      assert (i + 4) % 8 == 2;
    } else {
      assert (i + 4) % 8 == 3;
    }
  }

  // ------------------------------------------------------------ what extraction records

  /** The adjacencies cell `p` shows in directions `0 .. j - 1`: (its tile, the
      direction, the tile painted at that offset). An unpainted cell shows none. */
  function ArcsAt(tiles: map<Vec3, Tile>, offsets: seq<Vec3>, p: Vec3, j: nat): set<(Tile, int, Tile)>
    requires j <= |offsets|
  {
    if j == 0 || p !in tiles then {}
    else
      ArcsAt(tiles, offsets, p, j - 1) +
      (if p.Plus(offsets[j - 1]) in tiles then {(tiles[p], j - 1, tiles[p.Plus(offsets[j - 1])])} else {})
  }

  /** The adjacencies shown by the scanned cells `ps`. */
  function Arcs(tiles: map<Vec3, Tile>, offsets: seq<Vec3>, ps: seq<Vec3>): set<(Tile, int, Tile)>
  {
    if ps == [] then {}
    else Arcs(tiles, offsets, ps[..|ps| - 1]) + ArcsAt(tiles, offsets, ps[|ps| - 1], |offsets|)
  }

  /** The tiles cell `p` brings in with directions `0 .. j - 1` looked at: its
      own tile and the tiles painted at those offsets. */
  function MetAt(tiles: map<Vec3, Tile>, offsets: seq<Vec3>, p: Vec3, j: nat): set<Tile>
    requires j <= |offsets|
  {
    if p !in tiles then {}
    else if j == 0 then {tiles[p]}
    else
      MetAt(tiles, offsets, p, j - 1) +
      (if p.Plus(offsets[j - 1]) in tiles then {tiles[p.Plus(offsets[j - 1])]} else {})
  }

  /** The tiles the scan of `ps` meets. */
  function Met(tiles: map<Vec3, Tile>, offsets: seq<Vec3>, ps: seq<Vec3>): set<Tile>
  {
    if ps == [] then {}
    else Met(tiles, offsets, ps[..|ps| - 1]) + MetAt(tiles, offsets, ps[|ps| - 1], |offsets|)
  }

  /** An adjacency is recorded exactly when some scanned painted cell has
      that tile and the tile at that offset. */
  lemma {:induction false} ArcsAtMembership(tiles: map<Vec3, Tile>, offsets: seq<Vec3>, p: Vec3, j: nat,
                                            t: Tile, idx: int, u: Tile)
    requires j <= |offsets|
    ensures (t, idx, u) in ArcsAt(tiles, offsets, p, j) <==>
            p in tiles && tiles[p] == t && 0 <= idx < j && p.Plus(offsets[idx]) in tiles && tiles[p.Plus(offsets[idx])] == u
    decreases j
  {
    if j > 0 && p in tiles {
      ArcsAtMembership(tiles, offsets, p, j - 1, t, idx, u);
    }
  }

  lemma {:induction false} ArcsMembership(tiles: map<Vec3, Tile>, offsets: seq<Vec3>, ps: seq<Vec3>,
                                          t: Tile, idx: int, u: Tile)
    ensures (t, idx, u) in Arcs(tiles, offsets, ps) <==>
            exists i :: 0 <= i < |ps| && ps[i] in tiles && tiles[ps[i]] == t && 0 <= idx < |offsets| &&
                        ps[i].Plus(offsets[idx]) in tiles && tiles[ps[i].Plus(offsets[idx])] == u
    decreases |ps|
  {
    if ps != [] {
      var n := |ps| - 1;
      var prefix := ps[..n];
      ArcsMembership(tiles, offsets, prefix, t, idx, u);
      ArcsAtMembership(tiles, offsets, ps[n], |offsets|, t, idx, u);
      if (t, idx, u) in Arcs(tiles, offsets, ps) {
        if (t, idx, u) in Arcs(tiles, offsets, prefix) {
          var i :| 0 <= i < |prefix| && prefix[i] in tiles && tiles[prefix[i]] == t && 0 <= idx < |offsets| &&
                   prefix[i].Plus(offsets[idx]) in tiles && tiles[prefix[i].Plus(offsets[idx])] == u;
          assert ps[i] == prefix[i];
        }
      } else {
        forall i | 0 <= i < |ps| && ps[i] in tiles && tiles[ps[i]] == t && 0 <= idx < |offsets| &&
                   ps[i].Plus(offsets[idx]) in tiles
          ensures tiles[ps[i].Plus(offsets[idx])] != u
        {
          if i < n {
            assert ps[i] == prefix[i];
          }
        }
      }
    }
  }

  /** A tile is met exactly when some scanned cell is painted with it or
      is painted and has it at one of the offsets. */
  lemma {:induction false} MetAtMembership(tiles: map<Vec3, Tile>, offsets: seq<Vec3>, p: Vec3, j: nat, t: Tile)
    requires j <= |offsets|
    ensures t in MetAt(tiles, offsets, p, j) <==>
            p in tiles && (tiles[p] == t ||
                           exists idx :: 0 <= idx < j && p.Plus(offsets[idx]) in tiles && tiles[p.Plus(offsets[idx])] == t)
    decreases j
  {
    if j > 0 && p in tiles {
      MetAtMembership(tiles, offsets, p, j - 1, t);
      if t in MetAt(tiles, offsets, p, j - 1) && tiles[p] != t {
        var idx :| 0 <= idx < j - 1 && p.Plus(offsets[idx]) in tiles && tiles[p.Plus(offsets[idx])] == t;
        assert 0 <= idx < j;
      }
    }
  }

  lemma {:induction false} MetMembership(tiles: map<Vec3, Tile>, offsets: seq<Vec3>, ps: seq<Vec3>, t: Tile)
    ensures t in Met(tiles, offsets, ps) <==>
            exists i :: 0 <= i < |ps| && t in MetAt(tiles, offsets, ps[i], |offsets|)
    decreases |ps|
  {
    if ps != [] {
      var n := |ps| - 1;
      MetMembership(tiles, offsets, ps[..n], t);
      if t in Met(tiles, offsets, ps[..n]) {
        var i :| 0 <= i < n && t in MetAt(tiles, offsets, ps[..n][i], |offsets|);
        assert ps[i] == ps[..n][i];
      }
      if exists i :: 0 <= i < |ps| && t in MetAt(tiles, offsets, ps[i], |offsets|) {
        var i :| 0 <= i < |ps| && t in MetAt(tiles, offsets, ps[i], |offsets|);
        if i < n {
          assert ps[..n][i] == ps[i];
        }
      }
    }
  }

  // ------------------------------------------------------------ the state invariant, on values

  /** Every dictionary entry is a pattern of the table for that tile with `n` neighbour sets. */
  ghost predicate Indexed(table: seq<Pattern<Tile>>, dict: map<Tile, PatternId>, n: nat) {
    forall t :: t in dict ==> dict[t] < |table| && table[dict[t]].chunk == t && |table[dict[t]].neighbors| == n
  }

  /** `q` is the current pattern of the tile it was made for. */
  predicate Current(table: seq<Pattern<Tile>>, dict: map<Tile, PatternId>, q: PatternId) {
    q < |table| && table[q].chunk in dict && dict[table[q].chunk] == q
  }

  /** The neighbour sets of the dictionary's patterns hold exactly the current
      patterns of the tiles recorded beside them in `arcs`. */
  ghost predicate Exact(table: seq<Pattern<Tile>>, dict: map<Tile, PatternId>, n: nat, arcs: set<(Tile, int, Tile)>)
    requires Indexed(table, dict, n)
  {
    forall t, idx, q: PatternId :: t in dict && 0 <= idx < n ==>
      (q in table[dict[t]].neighbors[idx] <==> Current(table, dict, q) && (t, idx, table[q].chunk) in arcs)
  }

  /** Every tile an adjacency mentions has a pattern. */
  ghost predicate Known(dict: map<Tile, PatternId>, arcs: set<(Tile, int, Tile)>) {
    forall a :: a in arcs ==> a.0 in dict && a.2 in dict
  }

  /** Creating the pattern of a new tile keeps the state exact: nothing is
      recorded next to or beside a tile that had no pattern. */
  lemma CreateKeepsExact(table: seq<Pattern<Tile>>, dict: map<Tile, PatternId>, n: nat,
                         arcs: set<(Tile, int, Tile)>, u: Tile)
    requires Indexed(table, dict, n) && Exact(table, dict, n, arcs) && Known(dict, arcs) && u !in dict
    ensures var table', dict' := table + [Pattern(u, 1.0, Empties(n))], dict[u := |table|];
            Indexed(table', dict', n) && Exact(table', dict', n, arcs) && Known(dict', arcs)
  {
    var table', dict' := table + [Pattern(u, 1.0, Empties(n))], dict[u := |table|];
    assert Indexed(table', dict', n) by {
      forall t | t in dict' ensures dict'[t] < |table'| && table'[dict'[t]].chunk == t && |table'[dict'[t]].neighbors| == n {
        if t != u {
          assert table'[dict[t]] == table[dict[t]];
        }
      }
    }
    forall t, idx, q: PatternId | t in dict' && 0 <= idx < n
      ensures q in table'[dict'[t]].neighbors[idx] <==> Current(table', dict', q) && (t, idx, table'[q].chunk) in arcs
    {
      if t != u {
        assert table'[dict[t]] == table[dict[t]];
        assert q in table[dict[t]].neighbors[idx] ==> Current(table, dict, q);
        if q < |table| {
          assert table'[q] == table[q];
          assert Current(table', dict', q) <==> Current(table, dict, q);
        } else {
          if q == |table| {
            assert (t, idx, u) !in arcs;
          }
        }
      } else if q < |table'| {
        assert (u, idx, table'[q].chunk) !in arcs;
      }
    }
  }

  /** Adding the pattern of `u` to direction `idx` of the pattern of `t` records
      exactly the adjacency `(t, idx, u)`. */
  lemma LinkKeepsExact(table: seq<Pattern<Tile>>, dict: map<Tile, PatternId>, n: nat,
                       arcs: set<(Tile, int, Tile)>, t: Tile, idx: nat, u: Tile)
    requires Indexed(table, dict, n) && Exact(table, dict, n, arcs) && Known(dict, arcs)
    requires t in dict && u in dict && idx < n
    ensures var table' := table[dict[t] := table[dict[t]].AddNeighbor(idx, dict[u])];
            Indexed(table', dict, n) && Exact(table', dict, n, arcs + {(t, idx, u)}) && Known(dict, arcs + {(t, idx, u)})
  {
    var table' := table[dict[t] := table[dict[t]].AddNeighbor(idx, dict[u])];
    var arcs' := arcs + {(t, idx, u)};
    assert Indexed(table', dict, n);
    forall t', idx', q: PatternId | t' in dict && 0 <= idx' < n
      ensures q in table'[dict[t']].neighbors[idx'] <==> Current(table', dict, q) && (t', idx', table'[q].chunk) in arcs'
    {
      if q < |table| {
        assert table'[q].chunk == table[q].chunk;
      }
      assert Current(table', dict, q) <==> Current(table, dict, q);
      if t' != t {
        assert dict[t'] != dict[t];
      }
    }
  }

  /** What an exact state says cell by cell: the direction-`idx` set of the
      pattern of `t` holds `q` exactly when `q` is the current pattern of a
      tile `u` painted at offset `idx` from some scanned cell painted with `t`. */
  lemma NeighbourMeaning(table: seq<Pattern<Tile>>, dict: map<Tile, PatternId>, tiles: map<Vec3, Tile>,
                         offsets: seq<Vec3>, ps: seq<Vec3>, t: Tile, idx: nat, q: PatternId)
    requires Indexed(table, dict, |offsets|) && Exact(table, dict, |offsets|, Arcs(tiles, offsets, ps))
    requires t in dict && idx < |offsets|
    ensures q in table[dict[t]].neighbors[idx] <==>
            Current(table, dict, q) &&
            exists i :: 0 <= i < |ps| && ps[i] in tiles && tiles[ps[i]] == t &&
                        ps[i].Plus(offsets[idx]) in tiles && tiles[ps[i].Plus(offsets[idx])] == table[q].chunk
  {
    if q < |table| {
      ArcsMembership(tiles, offsets, ps, t, idx, table[q].chunk);
    }
  }

  // ------------------------------------------------------------ the extractor

  class Extractor {
    const includeCorner: bool             // `IncludeCorner`, fixed once the component is set up
    var table: seq<Pattern<Tile>>         // every pattern created so far, by id
    var dict: map<Tile, PatternId>        // `_patterns`
    var order: seq<Tile>                  // the dictionary's keys in insertion order

    /** The dictionary is a set of table patterns, one per tile, listed once each in `order`. */
    ghost predicate Valid()
      reads this
    {
      && (forall t :: t in dict ==> dict[t] < |table| && table[dict[t]].chunk == t)
      && (forall t :: t in dict <==> t in order)
      && (forall i, j :: 0 <= i < j < |order| ==> order[i] != order[j])
    }

    /** Every dictionary pattern has one neighbour set per current offset. */
    ghost predicate Sized()
      reads this
    {
      Indexed(table, dict, |NeighborOffset(includeCorner)|)
    }

    /** Extraction so far has recorded exactly `arcs` and met exactly the tiles
        `met`, and every dictionary pattern was created at or after `base`. */
    ghost predicate Tracks(arcs: set<(Tile, int, Tile)>, met: set<Tile>, base: nat)
      reads this
    {
      && Valid() && Sized()
      && dict.Keys == met
      && Known(dict, arcs)
      && Exact(table, dict, |NeighborOffset(includeCorner)|, arcs)
      && base <= |table| && (forall t :: t in dict ==> dict[t] >= base)
    }

    /** `Patterns`: the dictionary's values, in its enumeration order. */
    function Patterns(): (r: seq<PatternId>)
      reads this
      requires Valid()
      ensures |r| == |order| && forall i :: 0 <= i < |r| ==> r[i] == dict[order[i]]
      ensures forall q :: q in r <==> q in dict.Values
    {
      var keys, values := order, dict;
      var r := seq(|keys|, i requires 0 <= i < |keys| && keys[i] in values => values[keys[i]]);
      assert forall q :: q in dict.Values ==> q in r by {
        forall q | q in dict.Values ensures q in r {
          var t :| t in dict && dict[t] == q;
          var i :| 0 <= i < |order| && order[i] == t;
          assert r[i] == q;
        }
      }
      r
    }

    constructor (includeCorner: bool)
      ensures Valid() && Sized()
      ensures this.includeCorner == includeCorner && table == [] && dict == map[] && order == []
    {
      this.includeCorner := includeCorner;
      table := [];
      dict := map[];
      order := [];
    }

    /** `GetOrCreatePattern(tile)`: the tile's pattern when the dictionary has
        one; otherwise a new pattern (weight 1, one empty set per offset)
        added to the table and the dictionary. */
    method GetOrCreatePattern(tile: Tile) returns (id: PatternId)
      requires Valid() && Sized()
      modifies this`table, this`dict, this`order
      ensures Valid() && Sized()
      ensures tile in dict && dict[tile] == id && id < |table|
      ensures tile in old(dict) ==> id == old(dict)[tile] && table == old(table) && dict == old(dict) && order == old(order)
      ensures tile !in old(dict) ==>
                && id == |old(table)|
                && table == old(table) + [Pattern(tile, 1.0, Empties(|NeighborOffset(includeCorner)|))]
                && dict == old(dict)[tile := id] && order == old(order) + [tile]
    {
      if tile in dict {
        return dict[tile];
      }
      var count := if includeCorner then 8 else 4;
      var newPattern := NewPattern(tile, count);
      assert newPattern.neighbors == Empties(count);
      id := |table|;
      table := table + [newPattern];
      dict := dict[tile := id];
      order := order + [tile];
      assert Sized() by {
        forall t | t in dict ensures dict[t] < |table| && table[dict[t]].chunk == t &&
                                     |table[dict[t]].neighbors| == |NeighborOffset(includeCorner)| {
          if t != tile {
            assert table[old(dict)[t]] == old(table)[old(dict)[t]];
          }
        }
      }
    }

    /** `ExtractPatterns()` over the tilemap `tiles`, scanning the cells `positions`
        (the cell bounds in their iteration order). The dictionary is cleared
        first; afterwards it holds one new pattern per tile met, and the
        direction-`idx` set of the pattern of `t` holds exactly the current
        patterns of the tiles painted at offset `idx` from a scanned cell
        painted with `t`. Patterns created earlier are left as they were. */
    method ExtractPatterns(tiles: map<Vec3, Tile>, positions: seq<Vec3>)
      requires Valid()
      modifies this`table, this`dict, this`order
      ensures Valid() && Sized()
      ensures dict.Keys == Met(tiles, NeighborOffset(includeCorner), positions)
      ensures Known(dict, Arcs(tiles, NeighborOffset(includeCorner), positions))
      ensures Exact(table, dict, |NeighborOffset(includeCorner)|, Arcs(tiles, NeighborOffset(includeCorner), positions))
      ensures |old(table)| <= |table| && table[..|old(table)|] == old(table)
      ensures forall t :: t in dict ==> dict[t] >= |old(table)|
    {
      ghost var offsets := NeighborOffset(includeCorner);
      dict := map[];    // `_patterns.Clear()`
      order := [];
      for k := 0 to |positions|
        invariant Tracks(Arcs(tiles, offsets, positions[..k]), Met(tiles, offsets, positions[..k]), |old(table)|)
        invariant table[..|old(table)|] == old(table)
      {
        assert positions[..k + 1][..k] == positions[..k];
        ExtractAt(tiles, positions[k], Arcs(tiles, offsets, positions[..k]), Met(tiles, offsets, positions[..k]), |old(table)|);
      }
      assert positions[..|positions|] == positions;
    }

    /** The body of the scan for cell `pos`: nothing for an unpainted cell;
        otherwise the pattern of its tile gains, for every offset with a
        painted cell, the pattern of that cell's tile. */
    method ExtractAt(tiles: map<Vec3, Tile>, pos: Vec3, ghost arcs: set<(Tile, int, Tile)>, ghost met: set<Tile>, ghost base: nat)
      requires Tracks(arcs, met, base)
      modifies this`table, this`dict, this`order
      ensures Tracks(arcs + ArcsAt(tiles, NeighborOffset(includeCorner), pos, |NeighborOffset(includeCorner)|),
                     met + MetAt(tiles, NeighborOffset(includeCorner), pos, |NeighborOffset(includeCorner)|), base)
      ensures table[..base] == old(table)[..base]
    {
      ghost var offsets := NeighborOffset(includeCorner);
      if pos !in tiles {
        assert ArcsAt(tiles, offsets, pos, |offsets|) == {} && MetAt(tiles, offsets, pos, |offsets|) == {};
        return;
      }
      var pattern := Adopt(tiles[pos], arcs, met, base);
      assert ArcsAt(tiles, offsets, pos, 0) == {} && MetAt(tiles, offsets, pos, 0) == {tiles[pos]};
      for idx := 0 to |NeighborOffset(includeCorner)|
        invariant Tracks(arcs + ArcsAt(tiles, offsets, pos, idx), met + MetAt(tiles, offsets, pos, idx), base)
        invariant tiles[pos] in dict && pattern == dict[tiles[pos]]
        invariant table[..base] == old(table)[..base]
      {
        LinkAt(tiles, pos, idx, pattern, arcs, met, base);
      }
    }

    /** One offset of the scan of a painted cell: when the cell at `pos + offset`
        is painted, its tile's pattern joins direction `idx` of `pattern`. */
    method LinkAt(tiles: map<Vec3, Tile>, pos: Vec3, idx: nat, pattern: PatternId,
                  ghost arcs: set<(Tile, int, Tile)>, ghost met: set<Tile>, ghost base: nat)
      requires idx < |NeighborOffset(includeCorner)|
      requires Tracks(arcs + ArcsAt(tiles, NeighborOffset(includeCorner), pos, idx),
                      met + MetAt(tiles, NeighborOffset(includeCorner), pos, idx), base)
      requires pos in tiles && tiles[pos] in dict && pattern == dict[tiles[pos]]
      modifies this`table, this`dict, this`order
      ensures Tracks(arcs + ArcsAt(tiles, NeighborOffset(includeCorner), pos, idx + 1),
                     met + MetAt(tiles, NeighborOffset(includeCorner), pos, idx + 1), base)
      ensures tiles[pos] in dict && pattern == dict[tiles[pos]]
      ensures table[..base] == old(table)[..base]
    {
      ghost var offsets := NeighborOffset(includeCorner);
      ghost var arcs0, met0 := arcs + ArcsAt(tiles, offsets, pos, idx), met + MetAt(tiles, offsets, pos, idx);
      var neighbor := pos.Plus(NeighborOffset(includeCorner)[idx]);
      if neighbor !in tiles {
        TracksSame(arcs0, met0, arcs + ArcsAt(tiles, offsets, pos, idx + 1), met + MetAt(tiles, offsets, pos, idx + 1), base);
        return;
      }
      LinkPainted(tiles[pos], idx, tiles[neighbor], pattern, arcs0, met0, base);
      TracksSame(arcs0 + {(tiles[pos], idx as int, tiles[neighbor])}, met0 + {tiles[neighbor]},
                 arcs + ArcsAt(tiles, offsets, pos, idx + 1), met + MetAt(tiles, offsets, pos, idx + 1), base);
    }

    /** The painted case of `LinkAt`: the neighbour's tile is met and its
        pattern recorded beside `source`. */
    method LinkPainted(source: Tile, idx: nat, target: Tile, pattern: PatternId,
                       ghost arcs: set<(Tile, int, Tile)>, ghost met: set<Tile>, ghost base: nat)
      requires Tracks(arcs, met, base) && idx < |NeighborOffset(includeCorner)|
      requires source in dict && pattern == dict[source]
      modifies this`table, this`dict, this`order
      ensures Tracks(arcs + {(source, idx as int, target)}, met + {target}, base)
      ensures source in dict && pattern == dict[source]
      ensures table[..base] == old(table)[..base]
    {
      var adjacent := Adopt(target, arcs, met, base);
      Link(source, idx, target, pattern, adjacent, arcs, met + {target}, base);
    }

    /** `Tracks` depends on the recorded sets only, not on how they are written. */
    lemma TracksSame(arcs: set<(Tile, int, Tile)>, met: set<Tile>, arcs': set<(Tile, int, Tile)>, met': set<Tile>, base: nat)
      requires Tracks(arcs, met, base) && arcs == arcs' && met == met'
      ensures Tracks(arcs', met', base)
    {
    }

    /** `GetOrCreatePattern` inside extraction: the tile is now met, and nothing
        recorded so far changes. */
    method Adopt(tile: Tile, ghost arcs: set<(Tile, int, Tile)>, ghost met: set<Tile>, ghost base: nat) returns (id: PatternId)
      requires Tracks(arcs, met, base)
      modifies this`table, this`dict, this`order
      ensures Tracks(arcs, met + {tile}, base) && tile in dict && id == dict[tile]
      ensures forall t :: t in old(dict) ==> t in dict && dict[t] == old(dict)[t]
      ensures table[..base] == old(table)[..base]
    {
      if tile !in dict {
        CreateKeepsExact(table, dict, |NeighborOffset(includeCorner)|, arcs, tile);
      }
      id := GetOrCreatePattern(tile);
      assert table[..base] == old(table)[..base];
    }

    /** `pattern.Neighbors[idx].Add(adjacent)` inside extraction: records the
        adjacency from `source` to `target`. */
    method Link(source: Tile, idx: nat, target: Tile, pattern: PatternId, adjacent: PatternId,
                ghost arcs: set<(Tile, int, Tile)>, ghost met: set<Tile>, ghost base: nat)
      requires Tracks(arcs, met, base) && idx < |NeighborOffset(includeCorner)|
      requires source in dict && pattern == dict[source] && target in dict && adjacent == dict[target]
      modifies this`table
      ensures Tracks(arcs + {(source, idx as int, target)}, met, base)
      ensures table[..base] == old(table)[..base]
    {
      LinkKeepsExact(table, dict, |NeighborOffset(includeCorner)|, arcs, source, idx, target);
      table := table[pattern := table[pattern].AddNeighbor(idx, adjacent)];
      assert table[..base] == old(table)[..base];
    }
  }
}
