/** `TileChunk` (Assets/Scripts/Tilemap3D/TileChunk.cs): one cube of a 3-D
    tilemap, a `chunkSize`³ array of slots plus a dense list of the tiles
    placed in it, from which tiles leave by moving the last entry into the
    hole. The list index a tile believes it has is its `InChunkId`, which
    this class reads and, for the moved tile, writes; nothing here assigns it
    when a tile first comes in. Out-of-range list indices, which throw in the
    source, are the `Failure` side of a `Result`. */
module TileChunks {
  import opened Wrappers
  import opened Vectors

  /** A tile prefab, by id. */
  type Prefab = nat

  /** A placed tile instance (`GameObjectTile`): the prefab it was made from,
      the chunk and slot it was made for, and its `InChunkId`. */
  class Tile {
    const prefab: Prefab
    const chunk: Vec3          // `Chunk`
    const chunkOffset: Vec3    // `ChunkOffset`
    var inChunkId: int         // `InChunkId`

    constructor (prefab: Prefab, chunk: Vec3, chunkOffset: Vec3, inChunkId: int)
      ensures this.prefab == prefab && this.chunk == chunk && this.chunkOffset == chunkOffset
      ensures this.inChunkId == inChunkId
    {
      this.prefab := prefab;
      this.chunk := chunk;
      this.chunkOffset := chunkOffset;
      this.inChunkId := inChunkId;
    }
  }

  // ------------------------------------------------------------ the tile list, on values

  /** The list after `SetTile` puts `tile` into a slot whose previous occupant
      claimed list index `previous` (`None` for an empty slot): appended for an
      empty slot, written over index `previous` otherwise, which fails when
      that index is outside the list. */
  function Placed<T>(list: seq<T>, previous: Option<int>, tile: T): (r: Result<seq<T>>)
    ensures r.Failure? <==> previous.Some? && !(0 <= previous.value < |list|)
    ensures r.Success? ==> |r.value| == |list| + (if previous.None? then 1 else 0)
  {
    match previous
    case None => Success(list + [tile])
    case Some(i) => if 0 <= i < |list| then Success(list[i := tile]) else Failure(IndexOutOfRange)
  }

  /** `tile` comes into the list in place of one copy of the previous
      occupant's entry, or in addition to the entries for an empty slot. */
  lemma PlacedContents<T>(list: seq<T>, previous: Option<int>, tile: T)
    requires previous.Some? ==> 0 <= previous.value < |list|
    ensures Placed(list, previous, tile).Success?
    ensures previous.None? ==> multiset(Placed(list, previous, tile).value) == multiset(list) + multiset{tile}
    ensures previous.Some? ==>
              multiset(Placed(list, previous, tile).value) == multiset(list) - multiset{list[previous.value]} + multiset{tile}
  {
    if previous.Some? {
      var i := previous.value;
      assert list == list[..i] + [list[i]] + list[i + 1..];
      assert list[i := tile] == list[..i] + [tile] + list[i + 1..];
    }
  }

  /** The list after `RemoveTile` takes out a tile that claims index `id`:
      unless the list has a single entry or `id` is the last index, the last
      entry first moves into index `id`; then the last entry is dropped. An
      empty list, or a move from outside the list, fails. */
  function SwapRemoved<T>(list: seq<T>, id: int): (r: Result<seq<T>>)
    ensures r.Failure? <==> |list| == 0 || (|list| > 1 && id != |list| - 1 && !(0 <= id < |list|))
    ensures r.Success? ==> |r.value| == |list| - 1
  {
    var n := |list|;
    if n > 1 && id != n - 1 then
      if 0 <= id < n then Success(list[id := list[n - 1]][..n - 1]) else Failure(IndexOutOfRange)
    else if n == 0 then Failure(IndexOutOfRange)
    else Success(list[..n - 1])
  }

  /** For an index inside the list, the removal takes out exactly one copy of
      the entry at `id`: the list keeps every other entry. */
  lemma SwapRemovedContents<T>(list: seq<T>, id: int)
    requires 0 <= id < |list|
    ensures SwapRemoved(list, id).Success?
    ensures multiset(SwapRemoved(list, id).value) == multiset(list) - multiset{list[id]}
  {
    var n := |list|;
    if n > 1 && id != n - 1 {
      SwapRemoveCount(list, id);
    } else {
      assert list == list[..n - 1] + [list[n - 1]];
    }
  }

  /** Moving the last entry into index `id` and dropping the last entry removes one copy of `list[id]`. */
  lemma SwapRemoveCount<T>(list: seq<T>, id: int)
    requires 0 <= id < |list| - 1
    ensures var n := |list|; multiset(list[id := list[n - 1]][..n - 1]) == multiset(list) - multiset{list[id]}
  {
    var n := |list|;
    var moved := list[id := list[n - 1]];
    assert list == list[..id] + [list[id]] + list[id + 1..];
    assert moved == list[..id] + [list[n - 1]] + list[id + 1..];
    assert list[id + 1..] == list[id + 1..n - 1] + [list[n - 1]];
    assert moved[..n - 1] == list[..id] + [list[n - 1]] + list[id + 1..n - 1];
  }

  /** A single-entry list loses its entry whatever index the leaving tile claims. */
  lemma SwapRemovedStale<T>(list: seq<T>, id: int)
    requires |list| == 1
    ensures SwapRemoved(list, id) == Success([])
  {
  }

  /** A slot's tile leaving and coming back in an empty slot restores the list's contents. */
  lemma RemoveThenPlace<T>(list: seq<T>, id: int, tile: T)
    requires 0 <= id < |list| && list[id] == tile
    ensures SwapRemoved(list, id).Success?
    ensures multiset(Placed(SwapRemoved(list, id).value, None, tile).value) == multiset(list)
  {
    SwapRemovedContents(list, id);
    PlacedContents(SwapRemoved(list, id).value, None, tile);
    assert tile in multiset(list);
  }

  // ------------------------------------------------------------ the chunk

  class TileChunk {
    const size: nat                  // the `chunkSize` it was made with
    const tiles: array3<Tile?>       // `Tiles`
    var tileList: seq<Tile>          // `TileList`

    /** The slot array is `size`³. */
    predicate Valid() {
      tiles.Length0 == size && tiles.Length1 == size && tiles.Length2 == size
    }

    /** `offset` names a slot. */
    predicate InRange(offset: Vec3) {
      Contains3(Vec3(size, size, size), offset)
    }

    /** `new TileChunk(chunkSize)`: `chunkSize`³ empty slots and an empty list. */
    constructor (chunkSize: nat)
      ensures Valid() && size == chunkSize && fresh(tiles) && tileList == []
      ensures forall i, j, k :: 0 <= i < size && 0 <= j < size && 0 <= k < size ==> tiles[i, j, k] == null
    {
      size := chunkSize;
      tiles := new Tile?[chunkSize, chunkSize, chunkSize]((i, j, k) => null);
      tileList := [];
    }

    /** The indexer `this[pos]`. */
    function At(offset: Vec3): Tile?
      requires Valid() && InRange(offset)
      reads tiles
    {
      tiles[offset.x, offset.y, offset.z]
    }

    /** The indexer `this[x, y, z]`: the same slot as `this[pos]` at `(x, y, z)`. */
    function AtCoords(x: int, y: int, z: int): (t: Tile?)
      requires Valid() && InRange(Vec3(x, y, z))
      reads tiles
      ensures t == At(Vec3(x, y, z))
    {
      tiles[x, y, z]
    }

    /** The `InChunkId` of a slot's occupant, if it has one. */
    function OccupantId(offset: Vec3): Option<int>
      requires Valid() && InRange(offset)
      reads tiles, tiles[offset.x, offset.y, offset.z]
    {
      if At(offset) == null then None else Some(At(offset).inChunkId)
    }

    /** `SetTile(offset, tile)`: returns the slot's previous occupant, the list
        updated as `Placed` says, and the slot holding `tile`; every other slot
        is unchanged. When the previous occupant's `InChunkId` lies outside
        the list the call fails before changing anything. */
    method SetTile(offset: Vec3, tile: Tile) returns (r: Result<Tile?>)
      requires Valid() && InRange(offset)
      modifies this`tileList, tiles
      ensures Placed(old(tileList), old(OccupantId(offset)), tile).Failure? ==>
                r == Failure(IndexOutOfRange) && tileList == old(tileList) && unchanged(tiles)
      ensures Placed(old(tileList), old(OccupantId(offset)), tile).Success? ==>
                && r == Success(old(At(offset)))
                && tileList == Placed(old(tileList), old(OccupantId(offset)), tile).value
                && At(offset) == tile
                && forall i, j, k :: 0 <= i < size && 0 <= j < size && 0 <= k < size && Vec3(i, j, k) != offset ==>
                     tiles[i, j, k] == old(tiles[i, j, k])
    {
      var oldTile := tiles[offset.x, offset.y, offset.z];
      if oldTile != null {
        if !(0 <= oldTile.inChunkId < |tileList|) {
          return Failure(IndexOutOfRange);
        }
        tileList := tileList[oldTile.inChunkId := tile];
      } else {
        tileList := tileList + [tile];
      }
      tiles[offset.x, offset.y, offset.z] := tile;
      return Success(oldTile);
    }

    /** `RemoveTile(offset)`: an empty slot gives `null` and changes nothing;
        otherwise the list loses the occupant as `SwapRemoved` says, the entry
        moved into its index learns that index as its `InChunkId`, and the
        occupant is returned. The slot itself keeps the occupant. A list
        index outside the list fails before anything changes. */
    method RemoveTile(offset: Vec3) returns (r: Result<Tile?>)
      requires Valid() && InRange(offset)
      modifies this`tileList, tileList
      ensures old(At(offset)) == null ==> r == Success(null) && tileList == old(tileList) && unchanged(tileList)
      ensures old(At(offset)) != null && SwapRemoved(old(tileList), old(At(offset).inChunkId)).Failure? ==>
                r == Failure(IndexOutOfRange) && tileList == old(tileList) && unchanged(old(tileList))
      ensures old(At(offset)) != null && SwapRemoved(old(tileList), old(At(offset).inChunkId)).Success? ==>
                && r == Success(old(At(offset)))
                && tileList == SwapRemoved(old(tileList), old(At(offset).inChunkId)).value
                && (Moves(old(tileList), old(At(offset).inChunkId)) ==>
                      old(tileList)[|old(tileList)| - 1].inChunkId == old(At(offset).inChunkId))
                && forall t :: t in old(tileList) &&
                               !(Moves(old(tileList), old(At(offset).inChunkId)) && t == old(tileList)[|old(tileList)| - 1]) ==>
                                 t.inChunkId == old(t.inChunkId)
      ensures At(offset) == old(At(offset))
    {
      var tile := tiles[offset.x, offset.y, offset.z];
      if tile == null {
        return Success(null);
      }
      var id := tile.inChunkId;
      var n := |tileList|;
      if n > 1 && id != n - 1 {
        if !(0 <= id < n) {
          return Failure(IndexOutOfRange);
        }
        var moved := tileList[n - 1];
        tileList := tileList[id := moved];
        moved.inChunkId := id;
      } else if n == 0 {
        return Failure(IndexOutOfRange);
      }
      tileList := tileList[..n - 1];
      return Success(tile);
    }

    /** Whether removing the tile that claims `id` moves the last entry. */
    static predicate Moves(list: seq<Tile>, id: int) {
      |list| > 1 && id != |list| - 1 && 0 <= id < |list|
    }
  }
}
