/** Two-dimensional pattern records (Assets/Scripts/Pattern2D.cs): exactly four
    neighbour sets, with `Right`, `Up`, `Left` and `Down` naming them. */
module Patterns2D {
  import opened Wrappers
  import opened PatternInterface
  import opened Patterns

  /** Four neighbour sets, indexed by `Orientation2D.Index()`. */
  type FourSets = s: seq<set<PatternId>> | |s| == 4 witness [{}, {}, {}, {}]

  datatype Pattern2D<T> = Pattern2D(chunk: T, neighbors: FourSets) {

    /** The neighbour set of one direction; the four named accessors below are aliases of it. */
    function Side(o: Orientation2D): set<PatternId> { neighbors[o.Index()] }

    function Right(): set<PatternId> { Side(Orientation2D.Right) }
    function Up(): set<PatternId> { Side(Orientation2D.Up) }
    function Left(): set<PatternId> { Side(Orientation2D.Left) }
    function Down(): set<PatternId> { Side(Orientation2D.Down) }

    /** Every 2-D pattern weighs 1. */
    function Weight(): real { 1.0 }

    function GetAdjacent(i: int): (r: Result<set<PatternId>>)
      ensures r.Success? <==> 0 <= i < 4
      ensures r.Success? ==> r.value == neighbors[i]
    {
      AsAdjacency().GetAdjacent(i)
    }

    function AsAdjacency(): (a: Adjacency)
      ensures a.weight == 1.0 && a.neighbors == neighbors
    {
      Adjacency(Weight(), neighbors)
    }

    /** Adding through a named accessor (`Up.Add(q)`) changes `Neighbors[Up]` and nothing else. */
    function AddTo(o: Orientation2D, q: PatternId): (p: Pattern2D<T>)
      ensures p.chunk == chunk
      ensures p.Side(o) == Side(o) + {q}
      ensures forall o' :: o' != o ==> p.Side(o') == Side(o')
    {
      Pattern2D(chunk, neighbors[o.Index() := neighbors[o.Index()] + {q}])
    }
  }

  /** `new Pattern2D<T>(chunkData)`: the payload kept and four empty neighbour sets. */
  function NewPattern2D<T>(chunkData: T): (p: Pattern2D<T>)
    ensures p.chunk == chunkData
    ensures forall i :: 0 <= i < 4 ==> p.neighbors[i] == {}
  {
    Pattern2D(chunkData, [{}, {}, {}, {}])
  }

  /** The accessors alias the array slots 0, 1, 2 and 3. */
  lemma AccessorsAlias<T>(p: Pattern2D<T>)
    ensures p.Right() == p.neighbors[0] && p.Up() == p.neighbors[1]
    ensures p.Left() == p.neighbors[2] && p.Down() == p.neighbors[3]
  {
  }
}
