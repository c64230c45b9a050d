/** The interface the solver consumes from a pattern: a selection weight and,
    per direction index, the set of patterns allowed next to it. Patterns are
    addressed by integer ids into a table of these records. */
module PatternInterface {
  import opened Wrappers

  type PatternId = nat

  datatype Adjacency = Adjacency(weight: real, neighbors: seq<set<PatternId>>) {

    /** `GetAdjacent(i)`: the neighbour set for direction `i`; any other index is out of range. */
    function GetAdjacent(i: int): (r: Result<set<PatternId>>)
      ensures r.Success? <==> 0 <= i < |neighbors|
      ensures r.Success? ==> r.value == neighbors[i]
    {
      if 0 <= i < |neighbors| then Success(neighbors[i]) else Failure(IndexOutOfRange)
    }
  }

  /** Every pattern of `patterns` is in the table and has at least `count` neighbour sets. */
  predicate Covers(graph: seq<Adjacency>, patterns: set<PatternId>, count: nat) {
    forall p :: p in patterns ==> p < |graph| && count <= |graph[p].neighbors|
  }

  /** Every pattern of `patterns` has a positive weight. */
  predicate PositiveWeights(graph: seq<Adjacency>, patterns: set<PatternId>) {
    forall p :: p in patterns ==> p < |graph| && graph[p].weight > 0.0
  }

  /** The weight the solver reads for `p` (0 for an id that is not in the table). */
  function WeightOf(graph: seq<Adjacency>, p: PatternId): real {
    if p < |graph| then graph[p].weight else 0.0
  }
}
