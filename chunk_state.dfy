/** Per-cell constraint state of the solver (Assets/Scripts/WFC/ChunkState.cs).
    The source type is a struct, so it is a value here: every mutator takes the
    old record and returns the new one, and the grid stores what it is given. */
module ChunkStates {
  import opened Wrappers
  import opened PatternInterface

  /** A cell's entropy. The source computes it in floating point and gets NaN
      for an empty candidate set; NaN never compares below anything. */
  datatype Entropy = Finite(value: real) | NaN

  /** Entropy of a non-empty candidate set (the weighted Shannon entropy in
      the source); supplied by the caller, since the model has no logarithm. */
  type EntropyFn = set<PatternId> -> real

  datatype ChunkState = ChunkState(
    compatibles: set<PatternId>,
    compatibleAdjacent: seq<set<PatternId>>,
    entropy: Entropy,
    definite: bool,
    collapsed: PatternId)   // the private `_pattern`, meaningful only once definite

  /** `UpdateEntropy`: NaN for an empty set, otherwise the entropy function's value. */
  function EntropyOf(entropyOf: EntropyFn, s: set<PatternId>): (e: Entropy)
    ensures e.NaN? <==> s == {}
  {
    if s == {} then NaN else Finite(entropyOf(s))
  }

  /** The union, over the patterns of `s`, of their direction-`i` neighbour sets. */
  function AdjacentUnion(graph: seq<Adjacency>, s: set<PatternId>, i: nat): set<PatternId> {
    set p, q | p in s && p < |graph| && i < |graph[p].neighbors| && q in graph[p].neighbors[i] :: q
  }

  lemma {:induction false} AdjacentUnionAdd(graph: seq<Adjacency>, s: set<PatternId>, p: PatternId, i: nat)
    requires p < |graph| && i < |graph[p].neighbors|
    ensures AdjacentUnion(graph, s + {p}, i) == AdjacentUnion(graph, s, i) + graph[p].neighbors[i]
  {
    var l := AdjacentUnion(graph, s + {p}, i);
    var r := AdjacentUnion(graph, s, i) + graph[p].neighbors[i];
    forall q | q in r ensures q in l {
      if q !in graph[p].neighbors[i] {
        var p' :| p' in s && p' < |graph| && i < |graph[p'].neighbors| && q in graph[p'].neighbors[i];
        assert p' in s + {p};
      }
    }
  }

  /** A collapsed cell's cache is exactly the collapsed pattern's neighbour set. */
  lemma SingletonUnion(graph: seq<Adjacency>, a: PatternId, i: nat)
    requires a < |graph| && i < |graph[a].neighbors|
    ensures AdjacentUnion(graph, {a}, i) == graph[a].neighbors[i]
  {
    AdjacentUnionAdd(graph, {}, a, i);
    assert {} + {a} == {a};
  }

  lemma StrictSubsetSmaller(a: set<PatternId>, b: set<PatternId>)
    requires a < b
    ensures |a| < |b|
  {
    assert exists x :: x in b && x !in a;
    var x :| x in b && x !in a;
    assert a <= b - {x};
    assert |b - {x}| == |b| - 1;
    SubsetSmaller(a, b - {x});
  }

  lemma {:induction false} SubsetSmaller(a: set<PatternId>, b: set<PatternId>)
    requires a <= b
    ensures |a| <= |b|
    decreases b
  {
    if a != {} {
      var x :| x in a;
      SubsetSmaller(a - {x}, b - {x});
    }
  }

  /** The cached adjacency of every direction is the union over the current candidates. */
  predicate CacheConsistent(graph: seq<Adjacency>, c: ChunkState) {
    forall i :: 0 <= i < |c.compatibleAdjacent| ==>
      c.compatibleAdjacent[i] == AdjacentUnion(graph, c.compatibles, i)
  }

  /** The invariant of a cell of a solver over `patterns` with `count` directions.
      A collapsed cell holds exactly its pattern unless propagation emptied it. */
  predicate Valid(graph: seq<Adjacency>, entropyOf: EntropyFn, patterns: set<PatternId>, count: nat, c: ChunkState) {
    && |c.compatibleAdjacent| == count
    && c.compatibles <= patterns
    && CacheConsistent(graph, c)
    && (!c.definite ==> c.entropy == EntropyOf(entropyOf, c.compatibles))
    && (c.definite ==>
          c.collapsed in patterns &&
          ((c.compatibles == {c.collapsed} && c.entropy == Finite(0.0)) ||
           (c.compatibles == {} && c.entropy == NaN)))
  }

  /** What the constructor produces. */
  predicate IsInitial(graph: seq<Adjacency>, entropyOf: EntropyFn, patterns: set<PatternId>, count: nat, c: ChunkState) {
    && !c.definite
    && c.compatibles == patterns
    && |c.compatibleAdjacent| == count
    && CacheConsistent(graph, c)
    && c.entropy == EntropyOf(entropyOf, patterns)
  }

  /** The `Pattern` getter: fails unless the cell is definite. */
  function CollapsedPattern(c: ChunkState): (r: Result<PatternId>)
    ensures r.Success? <==> c.definite
    ensures r.Success? ==> r.value == c.collapsed
    ensures r.Failure? ==> r.error == NotDetermined
  {
    if !c.definite then Failure(NotDetermined) else Success(c.collapsed)
  }

  /** `UpdateAdjacent`: recompute every direction's union over the candidates. */
  method UpdateAdjacent(graph: seq<Adjacency>, c: ChunkState) returns (r: ChunkState)
    requires Covers(graph, c.compatibles, |c.compatibleAdjacent|)
    ensures r == c.(compatibleAdjacent := r.compatibleAdjacent)
    ensures |r.compatibleAdjacent| == |c.compatibleAdjacent|
    ensures CacheConsistent(graph, r)
  {
    var adjacent := c.compatibleAdjacent;
    for i := 0 to |adjacent|
      invariant |adjacent| == |c.compatibleAdjacent|
      invariant forall k :: 0 <= k < i ==> adjacent[k] == AdjacentUnion(graph, c.compatibles, k)
    {
      var union: set<PatternId> := {};
      var rest := c.compatibles;
      while rest != {}
        invariant rest <= c.compatibles
        invariant union == AdjacentUnion(graph, c.compatibles - rest, i)
        decreases rest
      {
        var p :| p in rest;
        var next := graph[p].GetAdjacent(i);
        AdjacentUnionAdd(graph, c.compatibles - rest, p, i);
        assert c.compatibles - (rest - {p}) == (c.compatibles - rest) + {p};
        union := union + next.value;
        rest := rest - {p};
      }
      adjacent := adjacent[i := union];
    }
    r := c.(compatibleAdjacent := adjacent);
  }

  /** The constructor: all of `patterns`, `adjacentCount` cached sets, not definite. */
  method New(graph: seq<Adjacency>, entropyOf: EntropyFn, patterns: set<PatternId>, adjacentCount: nat)
    returns (c: ChunkState)
    requires Covers(graph, patterns, adjacentCount)
    ensures IsInitial(graph, entropyOf, patterns, adjacentCount, c)
  {
    var empty := seq(adjacentCount, _ => {});
    c := ChunkState(patterns, empty, Finite(0.0), false, 0);
    c := c.(entropy := EntropyOf(entropyOf, c.compatibles));
    c := UpdateAdjacent(graph, c);
  }

  /** `Ban(p)`: removes `p`, reports whether it was there, refreshes the entropy
      but -- as in the source -- not the cached adjacency. */
  method Ban(entropyOf: EntropyFn, c: ChunkState, pattern: PatternId) returns (r: ChunkState, changed: bool)
    ensures changed <==> pattern in c.compatibles
    ensures r.compatibles == c.compatibles - {pattern}
    ensures changed ==> |r.compatibles| == |c.compatibles| - 1
    ensures r.compatibleAdjacent == c.compatibleAdjacent
    ensures r.definite == c.definite && r.collapsed == c.collapsed
    ensures r.entropy == if changed then EntropyOf(entropyOf, r.compatibles) else c.entropy
  {
    if pattern in c.compatibles {
      r := c.(compatibles := c.compatibles - {pattern});
      r := r.(entropy := EntropyOf(entropyOf, r.compatibles));
      changed := true;
    } else {
      r, changed := c, false;
    }
  }

  /** `UpdateCompatibleFrom(patterns)`: nothing happens when the candidates already
      lie inside `patterns`; otherwise they shrink strictly to the intersection and
      the cache and the entropy are recomputed. */
  method UpdateCompatibleFrom(graph: seq<Adjacency>, entropyOf: EntropyFn, c: ChunkState, patterns: set<PatternId>)
    returns (r: ChunkState, changed: bool)
    requires Covers(graph, c.compatibles, |c.compatibleAdjacent|)
    ensures changed <==> !(c.compatibles <= patterns)
    ensures !changed ==> r == c
    ensures changed ==> r.compatibles == c.compatibles * patterns
    ensures changed ==> r.compatibles < c.compatibles && |r.compatibles| < |c.compatibles|
    ensures changed ==> CacheConsistent(graph, r) && r.entropy == EntropyOf(entropyOf, r.compatibles)
    ensures |r.compatibleAdjacent| == |c.compatibleAdjacent|
    ensures r.definite == c.definite && r.collapsed == c.collapsed
  {
    if !(c.compatibles <= patterns) {
      r := c.(compatibles := c.compatibles * patterns);
      StrictSubsetSmaller(r.compatibles, c.compatibles);
      r := UpdateAdjacent(graph, r);
      r := r.(entropy := EntropyOf(entropyOf, r.compatibles));
      changed := true;
    } else {
      r, changed := c, false;
    }
  }

  /** A strict restriction computed by `UpdateCompatibleFrom` keeps a cell valid:
      a collapsed cell can only lose its one pattern, and then its entropy is NaN. */
  lemma RestrictionKeepsValid(graph: seq<Adjacency>, entropyOf: EntropyFn, patterns: set<PatternId>, count: nat,
                              c: ChunkState, r: ChunkState, s: set<PatternId>)
    requires Valid(graph, entropyOf, patterns, count, c)
    requires r.compatibles == c.compatibles * s && r.compatibles < c.compatibles
    requires CacheConsistent(graph, r) && r.entropy == EntropyOf(entropyOf, r.compatibles)
    requires |r.compatibleAdjacent| == |c.compatibleAdjacent|
    requires r.definite == c.definite && r.collapsed == c.collapsed
    ensures Valid(graph, entropyOf, patterns, count, r)
  {
    if r.definite && c.compatibles == {c.collapsed} {
      assert r.compatibles == {};
    }
  }

  /** `CollapseTo(p)`: exactly `p` remains, the cell is definite with pattern `p`
      and zero entropy, and the cache describes `p` alone. */
  method CollapseTo(graph: seq<Adjacency>, c: ChunkState, pattern: PatternId) returns (r: ChunkState)
    requires Covers(graph, {pattern}, |c.compatibleAdjacent|)
    ensures r.compatibles == {pattern} && r.definite && r.entropy == Finite(0.0)
    ensures CollapsedPattern(r) == Success(pattern)
    ensures |r.compatibleAdjacent| == |c.compatibleAdjacent|
    ensures CacheConsistent(graph, r)
    ensures forall i :: 0 <= i < |r.compatibleAdjacent| ==> r.compatibleAdjacent[i] == graph[pattern].neighbors[i]
  {
    r := c.(compatibles := {pattern}, collapsed := pattern, entropy := Finite(0.0), definite := true);
    r := UpdateAdjacent(graph, r);
    forall i | 0 <= i < |r.compatibleAdjacent| ensures r.compatibleAdjacent[i] == graph[pattern].neighbors[i] {
      SingletonUnion(graph, pattern, i);
    }
  }
}
