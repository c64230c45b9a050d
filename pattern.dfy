/** Pattern records (Assets/Scripts/Pattern.cs): a payload, a weight and one
    neighbour set per direction. Patterns are identified by their id in a
    pattern table; the sets are filled later by the pattern extractors. */
module Patterns {
  import opened Wrappers
  import opened PatternInterface

  /** The four 2-D directions with their fixed indices. */
  datatype Orientation2D = Right | Up | Left | Down {
    function Index(): (i: nat)
      ensures i < 4
    {
      match this
      case Right => 0
      case Up => 1
      case Left => 2
      case Down => 3
    }
  }

  /** The direction with index `i`. */
  function OrientationAt(i: nat): (o: Orientation2D)
    requires i < 4
    ensures o.Index() == i
  {
    if i == 0 then Right else if i == 1 then Up else if i == 2 then Left else Down
  }

  /** The enum is a bijection onto 0..3. */
  lemma OrientationIndices(o: Orientation2D)
    ensures OrientationAt(o.Index()) == o
  {
  }

  datatype Pattern<T> = Pattern(chunk: T, weight: real, neighbors: seq<set<PatternId>>) {

    /** The view the solver reads (the IPattern interface). */
    function AsAdjacency(): (a: Adjacency)
      ensures a.weight == weight && a.neighbors == neighbors
    {
      Adjacency(weight, neighbors)
    }

    /** `GetAdjacent(i)` is `Neighbors[i]`; other indices are out of range. */
    function GetAdjacent(i: int): (r: Result<set<PatternId>>)
      ensures r.Success? <==> 0 <= i < |neighbors|
      ensures r.Success? ==> r.value == neighbors[i]
    {
      AsAdjacency().GetAdjacent(i)
    }

    /** `Neighbors[idx].Add(q)`: only that one set gains `q`. */
    function AddNeighbor(idx: nat, q: PatternId): (p: Pattern<T>)
      requires idx < |neighbors|
      ensures p.chunk == chunk && p.weight == weight && |p.neighbors| == |neighbors|
      ensures p.neighbors[idx] == neighbors[idx] + {q}
      ensures forall j :: 0 <= j < |neighbors| && j != idx ==> p.neighbors[j] == neighbors[j]
    {
      Pattern(chunk, weight, neighbors[idx := neighbors[idx] + {q}])
    }
  }

  /** `new Pattern<T>(chunkData, adjacentCount)`: `adjacentCount` empty
      neighbour sets, the payload kept and the weight 1. */
  method NewPattern<T>(chunkData: T, adjacentCount: nat) returns (p: Pattern<T>)
    ensures p.chunk == chunkData && p.weight == 1.0
    ensures |p.neighbors| == adjacentCount
    ensures forall i :: 0 <= i < adjacentCount ==> p.neighbors[i] == {}
    ensures p.neighbors == Empties(adjacentCount)
  {
    p := NewWeightedPattern(chunkData, adjacentCount, 1.0);
  }

  /** `n` empty neighbour sets, what the constructors start a pattern with. */
  function Empties(n: nat): (r: seq<set<PatternId>>)
    ensures |r| == n && forall i :: 0 <= i < n ==> r[i] == {}
  {
    seq(n, _ => {})
  }

  /** The constructor with an explicit weight that the 3-D extractor calls. */
  method NewWeightedPattern<T>(chunkData: T, adjacentCount: nat, weight: real) returns (p: Pattern<T>)
    ensures p.chunk == chunkData && p.weight == weight
    ensures |p.neighbors| == adjacentCount
    ensures forall i :: 0 <= i < adjacentCount ==> p.neighbors[i] == {}
    ensures p.neighbors == Empties(adjacentCount)
  {
    var neighbors: seq<set<PatternId>> := [];
    for i := 0 to adjacentCount
      invariant |neighbors| == i
      invariant forall k :: 0 <= k < i ==> neighbors[k] == {}
    {
      neighbors := neighbors + [{}];
    }
    p := Pattern(chunkData, weight, neighbors);
  }
}
