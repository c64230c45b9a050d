/** `GameObjectTilemap` (Assets/Scripts/Tilemap3D/GameObjectTilemap.cs): a
    sparse 3-D tilemap stored as a dictionary from chunk coordinates to
    `TileChunk`s, with a running tile count. A position is split into its
    chunk and its slot inside the chunk with the engine's integer division,
    which truncates toward zero, corrected for negative components. The
    chunk size is fixed when the tilemap is made. */
module GameObjectTilemaps {
  import opened Wrappers
  import opened Vectors
  import opened TileChunks

  // ------------------------------------------------------------ chunk addressing

  /** C#'s `x / m` on integers: truncates toward zero. */
  function TruncDiv(x: int, m: int): (q: int)
    requires m > 0
    ensures x >= 0 ==> q * m <= x < q * m + m
    ensures x < 0 ==> q * m - m < x <= q * m
  {
    if x >= 0 then
      DivBracket(x, m);
      x / m
    else
      var d := (-x) / m;
      DivBracket(-x, m);
      NegMul(d, m);
      -d
  }

  /** C#'s `x % m` on integers: the remainder of `TruncDiv`, with the sign of `x`. */
  function TruncRem(x: int, m: int): (r: int)
    requires m > 0
    ensures x == TruncDiv(x, m) * m + r
    ensures x >= 0 ==> 0 <= r < m
    ensures x < 0 ==> -m < r <= 0
  {
    x - TruncDiv(x, m) * m
  }

  /** `FloorReminder(x, m)`: the remainder of `x` by `m` in `[0, m)`, which is Dafny's `x % m`. */
  function FloorReminder(x: int, m: int): (r: int)
    requires m > 0
    ensures 0 <= r < m && r == x % m
  {
    if x >= 0 then
      ModUnique(x, m, TruncDiv(x, m), TruncRem(x, m));
      TruncRem(x, m)
    else if TruncRem(x, m) == 0 then
      ModUnique(x, m, TruncDiv(x, m), 0);
      (m + TruncRem(x, m)) % m
    else
      ModUnique(x, m, TruncDiv(x, m) - 1, m + TruncRem(x, m));
      ModUnique(m + TruncRem(x, m), m, 0, m + TruncRem(x, m));
      (m + TruncRem(x, m)) % m
  }

  lemma DivBracket(y: int, m: int)
    requires y >= 0 && m > 0
    ensures (y / m) * m <= y < (y / m) * m + m
  {
  }

  lemma NegMul(d: int, m: int)
    ensures (-d) * m == -(d * m)
  {
  }

  lemma MulAtLeast(a: int, m: int)
    requires a >= 1 && m > 0
    ensures a * m >= m
  {
  }

  /** Quotient and remainder are unique: `q * m + r` with `r` in `[0, m)` is Euclidean division. */
  lemma ModUnique(x: int, m: int, q: int, r: int)
    requires m > 0 && x == q * m + r && 0 <= r < m
    ensures r == x % m && q == x / m
  {
    var q0, r0 := x / m, x % m;
    assert x == q0 * m + r0;
    if q0 > q {
      MulAtLeast(q0 - q, m);
    } else if q0 < q {
      MulAtLeast(q - q0, m);
    }
  }

  /** One component of `ChunkAt`'s chunk coordinate: `x / m`, minus one for a negative `x`. */
  function ChunkCoord(x: int, m: int): int
    requires m > 0
  {
    TruncDiv(x, m) - (if x < 0 then 1 else 0)
  }

  /** `ChunkAt(pos)`: the chunk coordinate and the slot offset of a position. */
  function ChunkAt(pos: Vec3, m: int): (r: (Vec3, Vec3))
    requires m > 0
    ensures Contains3(Vec3(m, m, m), r.1)
  {
    (Vec3(ChunkCoord(pos.x, m), ChunkCoord(pos.y, m), ChunkCoord(pos.z, m)),
     Vec3(FloorReminder(pos.x, m), FloorReminder(pos.y, m), FloorReminder(pos.z, m)))
  }

  /** The chunk coordinate is the floor of `x / m`, except for a negative
      multiple of `m`, which lands one chunk lower. */
  lemma ChunkCoordFloor(x: int, m: int)
    requires m > 0
    ensures ChunkCoord(x, m) == x / m - (if x < 0 && x % m == 0 then 1 else 0)
  {
    var q, r := TruncDiv(x, m), TruncRem(x, m);
    if x >= 0 {
      ModUnique(x, m, q, r);
    } else if r == 0 {
      ModUnique(x, m, q, 0);
    } else {
      assert (q - 1) * m == q * m - m;
      ModUnique(x, m, q - 1, m + r);
    }
  }

  /** Chunk and offset put the position back together, except that a negative
      multiple of `m` comes back one chunk, `m`, too low. */
  lemma ChunkCoordRecompose(x: int, m: int)
    requires m > 0
    ensures ChunkCoord(x, m) * m + FloorReminder(x, m) == if x < 0 && x % m == 0 then x - m else x
  {
    ChunkCoordFloor(x, m);
    assert x == (x / m) * m + x % m;
    assert (x / m - 1) * m == (x / m) * m - m;
  }

  /** `chunkPos * ChunkSize + offset == pos` holds for every component that is
      non-negative or not a multiple of the chunk size. */
  lemma ChunkAtRecompose(pos: Vec3, m: int)
    requires m > 0
    ensures var (c, o) := ChunkAt(pos, m);
            && (pos.x >= 0 || pos.x % m != 0 ==> c.x * m + o.x == pos.x)
            && (pos.y >= 0 || pos.y % m != 0 ==> c.y * m + o.y == pos.y)
            && (pos.z >= 0 || pos.z % m != 0 ==> c.z * m + o.z == pos.z)
  {
    ChunkCoordRecompose(pos.x, m);
    ChunkCoordRecompose(pos.y, m);
    ChunkCoordRecompose(pos.z, m);
  }

  /** For a negative multiple of the chunk size the recomposed position is one chunk short. */
  lemma ChunkAtNegativeMultiple(x: int, m: int)
    requires m > 0 && x < 0 && x % m == 0
    ensures ChunkCoord(x, m) * m + FloorReminder(x, m) == x - m
  {
    ChunkCoordRecompose(x, m);
  }

  lemma ChunkCoordInjective(x: int, y: int, m: int)
    requires m > 0 && ChunkCoord(x, m) == ChunkCoord(y, m) && FloorReminder(x, m) == FloorReminder(y, m)
    ensures x == y
  {
    ChunkCoordRecompose(x, m);
    ChunkCoordRecompose(y, m);
    ChunkCoordFloor(x, m);
    ChunkCoordFloor(y, m);
  }

  /** Distinct positions never share a slot: `ChunkAt` is one-to-one, the
      off-by-one chunk of negative multiples notwithstanding. */
  lemma ChunkAtInjective(p: Vec3, q: Vec3, m: int)
    requires m > 0 && ChunkAt(p, m) == ChunkAt(q, m)
    ensures p == q
  {
    ChunkCoordInjective(p.x, q.x, m);
    ChunkCoordInjective(p.y, q.y, m);
    ChunkCoordInjective(p.z, q.z, m);
  }

  // ------------------------------------------------------------ the tilemap

  class Tilemap {
    const chunkSize: int                   // `ChunkSize`
    var chunks: map<Vec3, TileChunk>       // `Chunks`
    var count: int                         // `Count`

    /** Every chunk is `chunkSize`³, and no two chunks share their slot array. */
    ghost predicate Valid()
      reads this
    {
      && chunkSize > 0
      && (forall c :: c in chunks ==> chunks[c].Valid() && chunks[c].size == chunkSize)
      && (forall a, b :: a in chunks && b in chunks && a != b ==> chunks[a].tiles != chunks[b].tiles)
    }

    /** The slot arrays of all chunks. */
    ghost function Slots(): set<object>
      reads this
    {
      set c | c in chunks.Values :: c.tiles
    }

    /** `GetTile(pos)`: the tile in `pos`'s slot, `null` when its chunk does not exist. */
    function GetTile(pos: Vec3): (t: Tile?)
      requires Valid()
      reads this, Slots()
      ensures ChunkAt(pos, chunkSize).0 !in chunks ==> t == null
    {
      var (c, o) := ChunkAt(pos, chunkSize);
      if c !in chunks then null
      else
        assert chunks[c].tiles in Slots();
        chunks[c].At(o)
    }

    constructor (chunkSize: int)
      requires chunkSize > 0
      ensures Valid() && this.chunkSize == chunkSize && chunks == map[] && count == 0
    {
      this.chunkSize := chunkSize;
      chunks := map[];
      count := 0;
    }

    /** `GetOrCreateChunk(chunkPos)`: the existing chunk, or a new empty one stored under `chunkPos`. */
    method GetOrCreateChunk(chunkPos: Vec3) returns (chunk: TileChunk)
      requires Valid()
      modifies this`chunks
      ensures Valid() && chunkPos in chunks && chunks[chunkPos] == chunk
      ensures chunkPos in old(chunks) ==> chunk == old(chunks)[chunkPos] && chunks == old(chunks)
      ensures chunkPos !in old(chunks) ==>
                && fresh(chunk) && fresh(chunk.tiles) && chunks == old(chunks)[chunkPos := chunk] && chunk.tileList == []
                && forall i, j, k :: 0 <= i < chunkSize && 0 <= j < chunkSize && 0 <= k < chunkSize ==> chunk.tiles[i, j, k] == null
    {
      if chunkPos in chunks {
        return chunks[chunkPos];
      }
      chunk := new TileChunk(chunkSize);
      chunks := chunks[chunkPos := chunk];
    }

    /** The chunk objects. */
    ghost function Chunks(): set<TileChunk>
      reads this
    {
      set c | c in chunks.Values
    }

    /** The tiles listed in some chunk's `TileList`. */
    ghost function Listed(): set<Tile>
      reads this, Chunks()
    {
      set c, t | c in chunks.Values && t in c.tileList :: t
    }

    /** `SetTileInstance(pos, tile)`: `tile` goes into `pos`'s slot of its
        (possibly new) chunk, and the count grows by one exactly when that slot
        was empty; every other position reads as before. A stale `InChunkId`
        of the slot's previous occupant makes the chunk fail, and then the
        count and the slot are left alone. */
    method SetTileInstance(pos: Vec3, tile: Tile) returns (r: Result<()>)
      requires Valid()
      modifies this`chunks, this`count, Chunks(), Slots()
      ensures Valid()
      ensures ChunkAt(pos, chunkSize).0 in chunks
      ensures r.Success? ==> GetTile(pos) == tile && count == old(count) + (if old(GetTile(pos)) == null then 1 else 0)
      ensures r.Failure? ==> r.error == IndexOutOfRange && count == old(count) && GetTile(pos) == old(GetTile(pos))
      ensures forall q :: q != pos ==> GetTile(q) == old(GetTile(q))
    {
      var (chunkPos, offset) := ChunkAt(pos, chunkSize);
      var chunk := GetOrCreateChunk(chunkPos);
      forall q ensures GetTile(q) == old(GetTile(q)) {
        var (c, o) := ChunkAt(q, chunkSize);
        if c in old(chunks) {
          assert old(chunks)[c].tiles in old(Slots());
        }
      }
      label created:
      var previous := chunk.SetTile(offset, tile);
      if previous.Failure? {
        return Failure(previous.error);
      }
      forall q | q != pos ensures GetTile(q) == old@created(GetTile(q)) {
        var (c, o) := ChunkAt(q, chunkSize);
        if ChunkAt(q, chunkSize) == ChunkAt(pos, chunkSize) {
          ChunkAtInjective(q, pos, chunkSize);
        }
        if c in chunks {
          assert chunks[c].tiles in Slots();
        }
      }
      if previous.value == null {
        count := count + 1;
      }
      r := Success(());
    }

    /** `RemoveTile(pos)`: nothing happens when `pos`'s chunk does not exist;
        otherwise the chunk takes the slot's occupant out of its list and the
        count drops by one exactly when there was an occupant. The slot
        arrays are not touched, so every position reads as before. */
    method RemoveTile(pos: Vec3) returns (r: Result<()>)
      requires Valid()
      modifies this`count, Chunks(), Listed()
      ensures Valid() && chunks == old(chunks)
      ensures ChunkAt(pos, chunkSize).0 !in chunks ==> r.Success? && count == old(count)
      ensures r.Success? ==> count == old(count) - (if old(GetTile(pos)) == null then 0 else 1)
      ensures r.Failure? ==> r.error == IndexOutOfRange && count == old(count)
      ensures forall q :: GetTile(q) == old(GetTile(q))
    {
      var (chunkPos, offset) := ChunkAt(pos, chunkSize);
      if chunkPos !in chunks {
        return Success(());
      }
      var chunk := chunks[chunkPos];
      assert forall t :: t in chunk.tileList ==> t in Listed();
      var tile := chunk.RemoveTile(offset);
      if tile.Failure? {
        return Failure(tile.error);
      }
      if tile.value != null {
        count := count - 1;
      }
      r := Success(());
    }

    /** `SetTile(pos, prefab)`: no prefab removes the tile at `pos`; otherwise a
        new instance of `prefab`, made for `pos`'s chunk and slot, is put there. */
    method SetTile(pos: Vec3, prefab: Option<Prefab>) returns (r: Result<()>)
      requires Valid()
      modifies this`chunks, this`count, Chunks(), Slots(), Listed()
      ensures Valid()
      ensures prefab.None? ==> chunks == old(chunks) && forall q :: GetTile(q) == old(GetTile(q))
      ensures prefab.None? && r.Success? ==> count == old(count) - (if old(GetTile(pos)) == null then 0 else 1)
      ensures prefab.Some? && r.Success? ==>
                && GetTile(pos) != null && GetTile(pos).prefab == prefab.value
                && GetTile(pos).chunk == ChunkAt(pos, chunkSize).0 && GetTile(pos).chunkOffset == ChunkAt(pos, chunkSize).1
                && count == old(count) + (if old(GetTile(pos)) == null then 1 else 0)
      ensures prefab.Some? ==> forall q :: q != pos ==> GetTile(q) == old(GetTile(q))
      ensures prefab.Some? && r.Failure? ==> GetTile(pos) == old(GetTile(pos))
      ensures r.Failure? ==> r.error == IndexOutOfRange && count == old(count)
    {
      if prefab.None? {
        r := RemoveTile(pos);
        return;
      }
      var (chunkPos, offset) := ChunkAt(pos, chunkSize);
      var tile := new Tile(prefab.value, chunkPos, offset, 0);
      r := SetTileInstance(pos, tile);
    }

    /** `ClearAllTiles()`: no chunks and a zero count, so every position reads empty. */
    method ClearAllTiles()
      requires Valid()
      modifies this`chunks, this`count
      ensures Valid() && chunks == map[] && count == 0
      ensures forall pos :: GetTile(pos) == null
    {
      chunks := map[];
      count := 0;
    }
  }
}
