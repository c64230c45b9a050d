/** The two-dimensional solver `WFCGenerator2D<T>` (Assets/Scripts/WFCGenerator2D.cs):
    a `Size.x` by `Size.y` grid of cell states, the fixed direction table right,
    up, left, down, a LIFO propagation stack and a random stream. */
module Generator2D {
  import opened Wrappers
  import opened Vectors
  import opened PatternInterface
  import opened ChunkStates
  import opened Selection
  import opened ObjectPools
  import Utility

  /** `AdjacentDelta`: right, up, left, down. */
  const AdjacentDelta: seq<Vec2> := [Vec2(1, 0), Vec2(0, 1), Vec2(-1, 0), Vec2(0, -1)]

  /** Every cell state of this solver caches one set per direction. */
  const Directions: nat := 4

  /** The table lists each direction half-way round from its opposite, so
      stepping by `d` and then by `(d + 2) % 4` returns to the start. */
  lemma OppositeDirection(d: int, p: Vec2)
    requires 0 <= d < 4
    ensures |AdjacentDelta| == Directions
    ensures AdjacentDelta[(d + 2) % 4] == AdjacentDelta[d].Negate()
    ensures p.Plus(AdjacentDelta[d]).Plus(AdjacentDelta[(d + 2) % 4]) == p
    ensures AdjacentDelta[d] != Vec2(0, 0)
  {
    if d == 0 {
      assert (d + 2) % 4 == 2;
    } else if d == 1 {
      assert (d + 2) % 4 == 3;
    } else if d == 2 {
      assert (d + 2) % 4 == 0;
    } else {
      assert (d + 2) % 4 == 1;
    }
  }

  /** `a` comes before `b` in the x, then y loop order. */
  predicate LexBefore(a: Vec2, b: Vec2) {
    a.x < b.x || (a.x == b.x && a.y < b.y)
  }

  /** The position the scan of `Observe` starts from: `-Vector2Int.one`. */
  const Unset := Vec2(-1, -1)

  /** Every position of a `size` grid. */
  function Box(size: Vec2): (r: set<Vec2>)
    ensures forall p :: p in r <==> Contains2(size, p)
  {
    var r := set x, y | 0 <= x < size.x && 0 <= y < size.y :: Vec2(x, y);
    assert forall p :: Contains2(size, p) ==> Vec2(p.x, p.y) in r;
    r
  }

  /** The four neighbours of a position are four different positions. */
  lemma DistinctNeighbours(p: Vec2, d: int, e: int)
    requires 0 <= d < 4 && 0 <= e < 4 && p.Plus(AdjacentDelta[d]) == p.Plus(AdjacentDelta[e])
    ensures d == e
  {
  }

  /** The candidates `s` of the cell at `p` that survive directions `0 .. n-1`
      of one pop of `from`, whose cached adjacency is `adj`: the direction that
      reaches `p`, if any, keeps only what `adj` allows there. */
  ghost function Swept(s: set<PatternId>, from: Vec2, adj: seq<set<PatternId>>, p: Vec2, n: nat): set<PatternId>
    requires n <= 4
  {
    if n == 0 then s
    else
      var t := Swept(s, from, adj, p, n - 1);
      if from.Plus(AdjacentDelta[n - 1]) == p && n - 1 < |adj| then t * adj[n - 1] else t
  }

  /** The neighbour of `from` in direction `d` keeps exactly what `adj[d]` allows. */
  lemma {:induction false} SweptNeighbour(s: set<PatternId>, from: Vec2, adj: seq<set<PatternId>>, d: int, n: nat)
    requires 0 <= d < n <= 4 && |adj| == 4
    ensures Swept(s, from, adj, from.Plus(AdjacentDelta[d]), n) == s * adj[d]
  {
    if n - 1 == d {
      forall e | 0 <= e < d ensures from.Plus(AdjacentDelta[e]) != from.Plus(AdjacentDelta[d]) {
        if from.Plus(AdjacentDelta[e]) == from.Plus(AdjacentDelta[d]) {
          DistinctNeighbours(from, e, d);
        }
      }
      SweptElsewhere(s, from, adj, from.Plus(AdjacentDelta[d]), d);
    } else {
      SweptNeighbour(s, from, adj, d, n - 1);
      if from.Plus(AdjacentDelta[n - 1]) == from.Plus(AdjacentDelta[d]) {
        DistinctNeighbours(from, n - 1, d);
      }
    }
  }

  /** A position no direction below `n` reaches keeps all its candidates. */
  lemma {:induction false} SweptElsewhere(s: set<PatternId>, from: Vec2, adj: seq<set<PatternId>>, p: Vec2, n: nat)
    requires n <= 4
    requires forall d :: 0 <= d < n ==> from.Plus(AdjacentDelta[d]) != p
    ensures Swept(s, from, adj, p, n) == s
  {
    if n > 0 {
      SweptElsewhere(s, from, adj, p, n - 1);
    }
  }

  /** One direction of one pop of propagation: the popped position, the
      direction, whether the neighbour changed, the stack below the popped
      cell, the popped cell's state and every cell's state at the pop. */
  datatype PopStep = PopStep(changedPos: Vec2, dir: int, changed: bool, base: seq<Vec2>,
                             c0: ChunkState, orig: map<Vec2, ChunkState>)

  class Generator {
    var size: Vec2
    const patterns: set<PatternId>
    const graph: seq<Adjacency>
    const entropyOf: EntropyFn
    const randomFor: int -> (nat -> real)               // `new Random(seed)`
    const enumerate: set<PatternId> -> seq<PatternId>   // HashSet enumeration order
    const setPool: ObjectPool<set<PatternId>>           // the shared `ObjectPool<HashSet<..>>`
    var chunkStates: array2<ChunkState>
    var random: nat -> real                               // the current `_random`
    var drawn: nat                                        // draws taken from it so far
    var propagationStack: seq<Vec2>                       // top of the stack last

    // ------------------------------------------------------------ invariants

    ghost predicate InGrid(p: Vec2)
      reads this`chunkStates
    {
      0 <= p.x < chunkStates.Length0 && 0 <= p.y < chunkStates.Length1
    }

    ghost function Cell(p: Vec2): ChunkState
      reads this`chunkStates, chunkStates
      requires InGrid(p)
    {
      chunkStates[p.x, p.y]
    }

    /** The grid matches `size` and every pattern has its four neighbour sets. */
    ghost predicate Wellformed()
      reads this`chunkStates, this`size
    {
      && chunkStates.Length0 == size.x && chunkStates.Length1 == size.y
      && Covers(graph, patterns, Directions)
    }

    /** What `Observe` needs of its random choices: positive weights, draws in
        [0, 1) from every seed, and enumerations that list each candidate set. */
    ghost predicate Sampling()
    {
      && PositiveWeights(graph, patterns)
      && (forall seed :: UnitStream(randomFor(seed)))
      && (forall s :: ListsExactly(enumerate(s), s))
    }

    ghost predicate CellsValid()
      reads this`chunkStates, chunkStates
    {
      forall p :: InGrid(p) ==> ChunkStates.Valid(graph, entropyOf, patterns, Directions, Cell(p))
    }

    ghost predicate StackInGrid()
      reads this`chunkStates, this`propagationStack
    {
      forall k :: 0 <= k < |propagationStack| ==> InGrid(propagationStack[k])
    }

    /** The neighbour of `p` in direction `d` holds only patterns that `p` allows there. */
    ghost predicate ArcHolds(p: Vec2, d: int)
      reads this`chunkStates, chunkStates
    {
      (InGrid(p) && 0 <= d < 4 && InGrid(p.Plus(AdjacentDelta[d])) && d < |Cell(p).compatibleAdjacent|)
        ==> Cell(p.Plus(AdjacentDelta[d])).compatibles <= Cell(p).compatibleAdjacent[d]
    }

    /** Every arc out of a collapsed cell that is not waiting on the stack holds,
        except the arcs of `e` from direction `from` on. */
    ghost predicate ArcsExcept(e: Vec2, from: int)
      reads this`chunkStates, this`propagationStack, chunkStates
    {
      forall p, d {:trigger ArcHolds(p, d)} ::
        InGrid(p) && Cell(p).definite && p !in propagationStack && (p != e || d < from) ==> ArcHolds(p, d)
    }

    /** `ArcsExcept(e, from)` with the arcs out of `q` exempt as well. */
    ghost predicate ArcsExceptAlso(e: Vec2, from: int, q: Vec2)
      reads this`chunkStates, this`propagationStack, chunkStates
    {
      forall p, d {:trigger ArcHolds(p, d)} ::
        InGrid(p) && Cell(p).definite && p !in propagationStack && p != q && (p != e || d < from) ==> ArcHolds(p, d)
    }

    ghost predicate ArcConsistent()
      reads this`chunkStates, this`propagationStack, chunkStates
    {
      forall p, d {:trigger ArcHolds(p, d)} :: InGrid(p) && Cell(p).definite && p !in propagationStack ==> ArcHolds(p, d)
    }

    ghost predicate Valid()
      reads this, chunkStates
    {
      Wellformed() && Sampling() && UnitStream(random) && CellsValid() && StackInGrid() && ArcConsistent()
    }

    /** Every (position, pattern) pair still possible: the measure propagation shrinks. */
    ghost function Candidates(): (r: set<(Vec2, PatternId)>)
      reads this`chunkStates, chunkStates
      ensures forall p, a :: (p, a) in r <==> InGrid(p) && a in Cell(p).compatibles
    {
      var r := set x, y, a | 0 <= x < chunkStates.Length0 && 0 <= y < chunkStates.Length1
                             && a in chunkStates[x, y].compatibles :: (Vec2(x, y), a);
      assert forall p, a :: InGrid(p) && a in Cell(p).compatibles ==> (Vec2(p.x, p.y), a) in r;
      r
    }

    /** The cells not yet collapsed: the measure `RunProgressive` shrinks. */
    ghost function NonDefinite(): (r: set<Vec2>)
      reads this`chunkStates, chunkStates
      ensures forall p :: p in r <==> InGrid(p) && !Cell(p).definite
    {
      var r := set x, y | 0 <= x < chunkStates.Length0 && 0 <= y < chunkStates.Length1
                          && !chunkStates[x, y].definite :: Vec2(x, y);
      assert forall p :: InGrid(p) && !Cell(p).definite ==> Vec2(p.x, p.y) in r;
      r
    }

    /** Every cell is collapsed or has run out of candidates. */
    ghost predicate Finished()
      reads this`chunkStates, chunkStates
    {
      forall p :: InGrid(p) ==> Cell(p).definite || Cell(p).compatibles == {}
    }

    ghost predicate NoContradiction()
      reads this`chunkStates, chunkStates
    {
      forall p :: InGrid(p) ==> Cell(p).compatibles != {}
    }

    /** Every pair of neighbouring cells obeys the adjacency rules of their patterns. */
    ghost predicate Solved()
      reads this`chunkStates, chunkStates
    {
      forall p, d :: InGrid(p) && 0 <= d < 4 && InGrid(p.Plus(AdjacentDelta[d])) ==>
        Cell(p).collapsed < |graph| && d < |graph[Cell(p).collapsed].neighbors| &&
        Cell(p.Plus(AdjacentDelta[d])).collapsed in graph[Cell(p).collapsed].neighbors[d]
    }

    /** A finished, contradiction-free grid with nothing left to propagate is a solution. */
    lemma FinishedIsSolved()
      requires Valid() && propagationStack == [] && Finished() && NoContradiction()
      ensures Solved()
    {
      forall p, d | InGrid(p) && 0 <= d < 4 && InGrid(p.Plus(AdjacentDelta[d]))
        ensures Cell(p).collapsed < |graph| && d < |graph[Cell(p).collapsed].neighbors|
        ensures Cell(p.Plus(AdjacentDelta[d])).collapsed in graph[Cell(p).collapsed].neighbors[d]
      {
        var q := p.Plus(AdjacentDelta[d]);
        assert ArcHolds(p, d);
        var c := Cell(p).collapsed;
        SingletonUnion(graph, c, d);
        assert Cell(q).compatibles == {Cell(q).collapsed};
      }
    }

    // ------------------------------------------------------------ the scan of Observe

    ghost function ScanY(x: int, y: int): seq<(Vec2, Entropy)>
      reads this`chunkStates, chunkStates
      requires 0 <= x < chunkStates.Length0 && 0 <= y <= chunkStates.Length1
    {
      if y == 0 then []
      else
        var c := chunkStates[x, y - 1];
        ScanY(x, y - 1) + (if c.definite then [] else [(Vec2(x, y - 1), c.entropy)])
    }

    ghost function ScanX(x: int): seq<(Vec2, Entropy)>
      reads this`chunkStates, chunkStates
      requires 0 <= x <= chunkStates.Length0
    {
      if x == 0 then [] else ScanX(x - 1) + ScanY(x - 1, chunkStates.Length1)
    }

    /** The cells `Observe` visits, in its loop order, with their entropies. */
    ghost function Scan(): seq<(Vec2, Entropy)>
      reads this`chunkStates, chunkStates
    {
      ScanX(chunkStates.Length0)
    }

    /** Every scanned entry is a cell of the grid that is not collapsed, with its entropy. */
    ghost predicate ScanSound(r: seq<(Vec2, Entropy)>)
      reads this`chunkStates, chunkStates
    {
      forall k :: 0 <= k < |r| ==> InGrid(r[k].0) && !Cell(r[k].0).definite && r[k].1 == Cell(r[k].0).entropy
    }

    lemma {:induction false} ScanYFacts(x: int, y: int)
      requires 0 <= x < chunkStates.Length0 && 0 <= y <= chunkStates.Length1
      ensures var r := ScanY(x, y);
              && ScanSound(r)
              && (forall k :: 0 <= k < |r| ==> r[k].0.x == x && 0 <= r[k].0.y < y)
              && (forall b :: 0 <= b < y && !chunkStates[x, b].definite ==> (Vec2(x, b), chunkStates[x, b].entropy) in r)
              && (forall j, k :: 0 <= j < k < |r| ==> LexBefore(r[j].0, r[k].0))
      decreases y
    {
      if y > 0 {
        ScanYFacts(x, y - 1);
      }
    }

    lemma {:induction false} ScanXSound(x: int)
      requires 0 <= x <= chunkStates.Length0
      ensures ScanSound(ScanX(x))
      ensures forall k :: 0 <= k < |ScanX(x)| ==> 0 <= ScanX(x)[k].0.x < x
      decreases x
    {
      if x > 0 {
        ScanXSound(x - 1);
        ScanYFacts(x - 1, chunkStates.Length1);
      }
    }

    lemma {:induction false} ScanXComplete(x: int)
      requires 0 <= x <= chunkStates.Length0
      ensures forall a, b :: (0 <= a < x && 0 <= b < chunkStates.Length1 && !chunkStates[a, b].definite) ==>
                (Vec2(a, b), chunkStates[a, b].entropy) in ScanX(x)
      decreases x
    {
      if x > 0 {
        ScanXComplete(x - 1);
        ScanYFacts(x - 1, chunkStates.Length1);
      }
    }

    lemma {:induction false} ScanXOrdered(x: int)
      requires 0 <= x <= chunkStates.Length0
      ensures forall j, k :: 0 <= j < k < |ScanX(x)| ==> LexBefore(ScanX(x)[j].0, ScanX(x)[k].0)
      decreases x
    {
      if x > 0 {
        ScanXOrdered(x - 1);
        ScanXSound(x - 1);
        ScanYFacts(x - 1, chunkStates.Length1);
      }
    }

    /** `Observe` visits exactly the cells that are not collapsed, each once, in
        x, then y order, recording each one's entropy. */
    lemma ScanVisitsUncollapsed()
      ensures ScanSound(Scan())
      ensures forall p :: InGrid(p) && !Cell(p).definite ==> (p, Cell(p).entropy) in Scan()
      ensures forall j, k :: 0 <= j < k < |Scan()| ==> LexBefore(Scan()[j].0, Scan()[k].0)
    {
      ScanXSound(chunkStates.Length0);
      ScanXComplete(chunkStates.Length0);
      ScanXOrdered(chunkStates.Length0);
      forall p | InGrid(p) && !Cell(p).definite ensures (p, Cell(p).entropy) in Scan() {
        assert (Vec2(p.x, p.y), chunkStates[p.x, p.y].entropy) in Scan();
      }
    }

    /** `Observe` finds no cell exactly when every cell that is not collapsed has no candidates left. */
    lemma ObserveFindsNothingIff()
      requires CellsValid()
      ensures FirstMinimum(Keys(Scan(), random, drawn)).None? <==>
              forall p :: InGrid(p) && !Cell(p).definite ==> Cell(p).compatibles == {}
    {
      var keys := Keys(Scan(), random, drawn);
      if FirstMinimum(keys).None? {
        NothingFound();
      } else {
        ChosenCell(FirstMinimum(keys).value);
      }
    }

    /** When the scan settles on no cell, every cell that is not collapsed is empty. */
    lemma NothingFound()
      requires CellsValid() && FirstMinimum(Keys(Scan(), random, drawn)).None?
      ensures forall p :: InGrid(p) && !Cell(p).definite ==> Cell(p).compatibles == {}
    {
      var scan := Scan();
      var keys := Keys(scan, random, drawn);
      FirstMinimumIsFirstLeast(keys);
      ScanXComplete(chunkStates.Length0);
      forall p | InGrid(p) && !Cell(p).definite ensures Cell(p).compatibles == {} {
        assert (Vec2(p.x, p.y), chunkStates[p.x, p.y].entropy) in scan;
        var k :| 0 <= k < |scan| && scan[k] == (p, Cell(p).entropy);
        assert keys[k].NaN?;
        assert ChunkStates.Valid(graph, entropyOf, patterns, Directions, Cell(p));
      }
    }

    /** While no cell has run out of candidates, `Observe` fails exactly when
        every cell is collapsed. */
    lemma ObserveFailsIffAllDefinite()
      requires Valid() && NoContradiction()
      ensures FirstMinimum(Keys(Scan(), random, drawn)).None? <==> NonDefinite() == {}
    {
      ObserveFindsNothingIff();
      if NonDefinite() != {} {
        var p :| p in NonDefinite();
        assert Cell(p).compatibles != {};
      }
    }

    // ------------------------------------------------------------ construction

    /** The constructor: the grid has `size` cells (default states until `Reset`),
        the stack is empty and the random stream is the unseeded `new Random()`. */
    constructor (size: Vec2, patterns: set<PatternId>, graph: seq<Adjacency>, entropyOf: EntropyFn,
                 randomFor: int -> (nat -> real), enumerate: set<PatternId> -> seq<PatternId>,
                 setPool: ObjectPool<set<PatternId>>, unseeded: nat -> real)
      requires size.x >= 0 && size.y >= 0
      requires Covers(graph, patterns, Directions) && PositiveWeights(graph, patterns)
      requires forall seed :: UnitStream(randomFor(seed))
      requires forall s :: ListsExactly(enumerate(s), s)
      requires UnitStream(unseeded)
      ensures Wellformed() && Sampling() && UnitStream(random)
      ensures this.size == size && this.patterns == patterns && this.graph == graph
      ensures this.entropyOf == entropyOf && this.randomFor == randomFor && this.enumerate == enumerate
      ensures this.setPool == setPool && random == unseeded && drawn == 0 && propagationStack == []
      ensures fresh(chunkStates)
    {
      this.size := size;
      this.patterns := patterns;
      this.graph := graph;
      this.entropyOf := entropyOf;
      this.randomFor := randomFor;
      this.enumerate := enumerate;
      this.setPool := setPool;
      this.chunkStates := new ChunkState[size.x, size.y];
      this.random := unseeded;
      this.drawn := 0;
      this.propagationStack := [];
    }

    /** `Resize(size)`: a new grid of default cells; `Reset` must follow before solving. */
    method Resize(newSize: Vec2)
      requires Wellformed()
      requires newSize.x >= 0 && newSize.y >= 0
      modifies this
      ensures Wellformed() && size == newSize && fresh(chunkStates)
      ensures random == old(random) && drawn == old(drawn) && propagationStack == old(propagationStack)
    {
      size := newSize;
      chunkStates := new ChunkState[newSize.x, newSize.y];
    }

    /** `Reset(seed)`: clears the stack, reseeds the stream and gives every cell
        all patterns with four cached sets. */
    method Reset(seed: int)
      requires Wellformed() && Sampling()
      modifies this, chunkStates
      ensures Valid() && propagationStack == []
      ensures random == randomFor(seed) && drawn == 0
      ensures size == old(size) && chunkStates == old(chunkStates)
      ensures forall p :: InGrid(p) ==> IsInitial(graph, entropyOf, patterns, Directions, Cell(p))
    {
      for x := 0 to size.x
        invariant Wellformed() && chunkStates == old(chunkStates) && size == old(size)
        invariant forall p :: InGrid(p) && p.x < x ==> IsInitial(graph, entropyOf, patterns, Directions, Cell(p))
      {
        for y := 0 to size.y
          invariant Wellformed() && chunkStates == old(chunkStates) && size == old(size)
          invariant forall p :: InGrid(p) && (p.x < x || (p.x == x && p.y < y)) ==>
                      IsInitial(graph, entropyOf, patterns, Directions, Cell(p))
        {
          var cell := ChunkStates.New(graph, entropyOf, patterns, Directions);
          chunkStates[x, y] := cell;
        }
      }
      forall p | InGrid(p) ensures ChunkStates.Valid(graph, entropyOf, patterns, Directions, Cell(p)) {
        assert IsInitial(graph, entropyOf, patterns, Directions, Cell(p));
      }
      propagationStack := [];
      random := randomFor(seed);
      drawn := 0;
    }

    // ------------------------------------------------------------ observation

    /** The scan of `Observe`: visits the cells in x, then y order, drawing one
        jitter per cell that is not collapsed, and keeps the first strictly least
        `Entropy + bias`; a NaN entropy is never less than anything. */
    method ScanMinimum() returns (found: bool, minChunk: Vec2, visited: nat)
      requires Wellformed()
      ensures visited == |Scan()|
      ensures var m := FirstMinimum(Keys(Scan(), random, drawn));
              (found <==> m.Some?) && (found ==> minChunk == Scan()[m.value].0)
    {
      minChunk := Unset;
      var minEntropy: Option<real> := None;   // float.MaxValue: nothing seen yet
      var d := drawn;
      ghost var seen: seq<(Vec2, Entropy)> := [];
      for x := 0 to size.x
        invariant seen == ScanX(x)
        invariant d == drawn + |seen| && (minChunk, minEntropy) == Fold(seen, random, drawn, Unset)
      {
        d, minChunk, minEntropy, seen := ScanColumn(x, d, minChunk, minEntropy, seen);
      }
      ScanXSound(chunkStates.Length0);
      FoldIsFirstMinimum(seen, random, drawn, Unset);
      found := minChunk.x >= 0;
      visited := d - drawn;
    }

    /** The inner loop of the scan: the cells (x, 0) to (x, size.y - 1). */
    method ScanColumn(x: int, d0: nat, minChunk0: Vec2, minEntropy0: Option<real>, ghost seen0: seq<(Vec2, Entropy)>)
      returns (d: nat, minChunk: Vec2, minEntropy: Option<real>, ghost seen: seq<(Vec2, Entropy)>)
      requires Wellformed() && 0 <= x < size.x
      requires d0 == drawn + |seen0| && (minChunk0, minEntropy0) == Fold(seen0, random, drawn, Unset)
      ensures seen == seen0 + ScanY(x, size.y)
      ensures d == drawn + |seen| && (minChunk, minEntropy) == Fold(seen, random, drawn, Unset)
    {
      d, minChunk, minEntropy, seen := d0, minChunk0, minEntropy0, seen0;
      for y := 0 to size.y
        invariant seen == seen0 + ScanY(x, y)
        invariant d == drawn + |seen| && (minChunk, minEntropy) == Fold(seen, random, drawn, Unset)
      {
        var chunk := chunkStates[x, y];
        if chunk.definite {
          continue;
        }
        // a little random bias picks randomly among cells of equal entropy
        var bias := EntropyBias * random(d);
        ghost var entry := (Vec2(x, y), chunk.entropy);
        ghost var improved := Improve((minChunk, minEntropy), entry, random(d));
        FoldAppend(seen, entry, random, drawn, Unset);
        match chunk.entropy {
          case Finite(e) =>
            if minEntropy.None? || e + bias < minEntropy.value {
              minChunk := Vec2(x, y);
              minEntropy := Some(e + bias);
            }
          case NaN =>   // NaN compares below nothing
        }
        assert (minChunk, minEntropy) == improved;
        assert seen0 + ScanY(x, y + 1) == seen + [entry];
        seen := seen + [entry];
        d := d + 1;
      }
    }

    /** `Observe`: takes the cell `ScanMinimum` settles on, draws once more to pick
        one of its patterns by weight, collapses the cell to it and pushes its
        position. Finds nothing (and changes no cell) when every key is NaN. */
    method Observe() returns (found: bool, chunkPos: Vec2)
      requires Valid()
      modifies this`drawn, this`propagationStack, chunkStates
      ensures Valid()
      ensures var m := FirstMinimum(Keys(old(Scan()), random, old(drawn)));
              (found <==> m.Some?) &&
              (found ==> chunkPos == old(Scan())[m.value].0)
      ensures !found ==> chunkPos == Vec2(0, 0) && drawn == old(drawn) + |old(Scan())|
      ensures !found ==> propagationStack == old(propagationStack)
      ensures found ==> drawn == old(drawn) + |old(Scan())| + 1
      ensures found ==> InGrid(chunkPos) && !old(Cell(chunkPos)).definite
      ensures found ==> propagationStack == old(propagationStack) + [chunkPos]
      ensures found ==>
                var pattern := Utility.Take(enumerate(old(Cell(chunkPos)).compatibles),
                                            random(old(drawn) + |old(Scan())|), WeightFn(graph));
                && pattern.Success? && pattern.value in old(Cell(chunkPos)).compatibles
                && Cell(chunkPos).definite && Cell(chunkPos).collapsed == pattern.value
                && Cell(chunkPos).compatibles == {pattern.value} && Cell(chunkPos).entropy == Finite(0.0)
      ensures forall p :: InGrid(p) && (!found || p != chunkPos) ==> Cell(p) == old(Cell(p))
    {
      ghost var scan := Scan();
      ghost var keys := Keys(scan, random, drawn);
      var minChunk, visited;
      found, minChunk, visited := ScanMinimum();
      assert Scan() == scan;
      var d := drawn + visited;
      chunkPos := Vec2(0, 0);
      if !found {
        drawn := d;
        return;
      }
      ChosenCell(FirstMinimum(keys).value);
      ObserveAt(minChunk, d);
      chunkPos := minChunk;
    }

    /** The cell the minimum scan settles on is a grid cell that is not
        collapsed and still has candidates. */
    lemma ChosenCell(k: nat)
      requires CellsValid() && k < |Scan()| && Keys(Scan(), random, drawn)[k].Finite?
      ensures InGrid(Scan()[k].0) && !Cell(Scan()[k].0).definite && Cell(Scan()[k].0).compatibles != {}
    {
      ScanXSound(chunkStates.Length0);
      var q := Scan()[k].0;
      assert ChunkStates.Valid(graph, entropyOf, patterns, Directions, Cell(q));
    }

    /** The second half of `Observe`, once the cell at `q` is chosen: the draw
        numbered `d` picks one of its patterns by weight, the cell collapses to
        it and `q` is pushed. */
    method ObserveAt(q: Vec2, d: nat)
      requires Valid() && InGrid(q) && Cell(q).compatibles != {}
      modifies this`drawn, this`propagationStack, chunkStates
      ensures Valid() && drawn == d + 1
      ensures propagationStack == old(propagationStack) + [q]
      ensures var pattern := Utility.Take(enumerate(old(Cell(q)).compatibles), random(d), WeightFn(graph));
              && pattern.Success? && pattern.value in old(Cell(q)).compatibles
              && Cell(q).definite && Cell(q).collapsed == pattern.value
              && Cell(q).compatibles == {pattern.value} && Cell(q).entropy == Finite(0.0)
      ensures forall p :: InGrid(p) && p != q ==> Cell(p) == old(Cell(p))
    {
      var observeChunk := chunkStates[q.x, q.y];
      assert ChunkStates.Valid(graph, entropyOf, patterns, Directions, observeChunk);
      var pattern := ChoosePattern(graph, patterns, enumerate, observeChunk.compatibles, random(d));
      drawn := d + 1;
      CollapseAndPush(q, pattern);
    }

    /** The end of `Observe`: the cell at `q` is collapsed to `pattern` and `q` pushed. */
    method CollapseAndPush(q: Vec2, pattern: PatternId)
      requires Valid() && InGrid(q) && pattern in patterns && pattern in Cell(q).compatibles
      modifies this`propagationStack, chunkStates
      ensures Valid()
      ensures propagationStack == old(propagationStack) + [q]
      ensures forall i :: 0 <= i < |Cell(q).compatibleAdjacent| ==> Cell(q).compatibleAdjacent[i] == graph[pattern].neighbors[i]
      ensures Cell(q).definite && Cell(q).collapsed == pattern
      ensures Cell(q).compatibles == {pattern} && Cell(q).entropy == Finite(0.0)
      ensures forall p :: InGrid(p) && p != q ==> Cell(p) == old(Cell(p))
    {
      var c := CollapseTo(graph, chunkStates[q.x, q.y], pattern);
      chunkStates[q.x, q.y] := c;
      propagationStack := propagationStack + [q];
      forall p | InGrid(p) ensures ChunkStates.Valid(graph, entropyOf, patterns, Directions, Cell(p)) {
        if p != q {
          assert old(ChunkStates.Valid(graph, entropyOf, patterns, Directions, Cell(p)));
        }
      }
      forall p, dir | InGrid(p) && Cell(p).definite && p !in propagationStack ensures ArcHolds(p, dir) {
        assert p != q && p !in old(propagationStack);
        assert old(ArcHolds(p, dir));
      }
    }

    // ------------------------------------------------------------ propagation

    /** `adjacent.UpdateCompatibleFrom(s)` on the cell at `q`, stored back when it
        changed: the cell keeps only candidates in `s`, and nothing else changes.
        The arcs that held still hold, except those out of `q` once it changed. */
    method Restrict(q: Vec2, s: set<PatternId>, ghost e: Vec2, ghost from: int) returns (changed: bool)
      requires Wellformed() && CellsValid() && InGrid(q) && ArcsExcept(e, from)
      modifies chunkStates
      ensures CellsValid()
      ensures changed ==> ArcsExceptAlso(e, from, q)
      ensures !changed ==> ArcsExcept(e, from)
      ensures changed <==> !(old(Cell(q)).compatibles <= s)
      ensures Cell(q).compatibles <= s
      ensures changed ==> Cell(q).compatibles == old(Cell(q)).compatibles * s
      ensures !changed ==> Cell(q) == old(Cell(q))
      ensures Cell(q).definite == old(Cell(q)).definite
      ensures forall p :: InGrid(p) && p != q ==> Cell(p) == old(Cell(p))
      ensures changed ==> Candidates() < old(Candidates())
      ensures !changed ==> Candidates() == old(Candidates())
    {
      var adjacent := chunkStates[q.x, q.y];
      assert ChunkStates.Valid(graph, entropyOf, patterns, Directions, adjacent) by {
        assert adjacent == Cell(q);
      }
      var updated;
      updated, changed := UpdateCompatibleFrom(graph, entropyOf, adjacent, s);
      if changed {
        RestrictionKeepsValid(graph, entropyOf, patterns, Directions, adjacent, updated, s);
        chunkStates[q.x, q.y] := updated;
        ShrinkKeepsCells(q);
        ShrinkCandidates(q);
        ShrinkKeepsArcs((q, e, from));
      }
    }

    /** One neighbour update of propagation: restricts the cell at `q` to `s`
        and, iff that removed a candidate, pushes `q` and stores the new state. */
    method RestrictAndPush(q: Vec2, s: set<PatternId>, ghost e: Vec2, ghost from: int) returns (changed: bool)
      requires Wellformed() && CellsValid() && StackInGrid() && InGrid(q) && ArcsExcept(e, from)
      modifies this`propagationStack, chunkStates
      ensures CellsValid() && StackInGrid() && ArcsExcept(e, from)
      ensures changed <==> !(old(Cell(q)).compatibles <= s)
      ensures Cell(q).compatibles <= s
      ensures changed ==> Cell(q).compatibles == old(Cell(q)).compatibles * s
      ensures changed ==> propagationStack == old(propagationStack) + [q]
      ensures !changed ==> propagationStack == old(propagationStack) && Cell(q) == old(Cell(q))
      ensures Cell(q).definite == old(Cell(q)).definite
      ensures forall p :: InGrid(p) && p != q ==> Cell(p) == old(Cell(p))
      ensures changed ==> Candidates() < old(Candidates())
      ensures !changed ==> Candidates() == old(Candidates())
    {
      changed := Restrict(q, s, e, from);
      if changed {
        propagationStack := propagationStack + [q];
      }
    }

    /** Shrinking the cell at `q` keeps every arc that held, except those out of
        `q` itself: arcs into `q` only get easier. */
    twostate lemma ShrinkKeepsArcs(arc: (Vec2, Vec2, int))
      requires old(ArcsExcept(arc.1, arc.2)) && chunkStates == old(chunkStates) && InGrid(arc.0)
      requires propagationStack == old(propagationStack)
      requires forall p :: InGrid(p) && p != arc.0 ==> Cell(p) == old(Cell(p))
      requires Cell(arc.0).compatibles <= old(Cell(arc.0)).compatibles
      ensures ArcsExceptAlso(arc.1, arc.2, arc.0)
    {
      var (q, e, from) := arc;
      forall p, d | InGrid(p) && Cell(p).definite && p !in propagationStack && p != q && (p != e || d < from)
        ensures ArcHolds(p, d)
      {
        assert old(ArcHolds(p, d));
      }
    }

    /** Replacing one cell by a valid state keeps every cell valid. */
    twostate lemma ShrinkKeepsCells(q: Vec2)
      requires old(CellsValid()) && chunkStates == old(chunkStates) && InGrid(q)
      requires forall p :: InGrid(p) && p != q ==> Cell(p) == old(Cell(p))
      requires ChunkStates.Valid(graph, entropyOf, patterns, Directions, Cell(q))
      ensures CellsValid()
    {
      forall p | InGrid(p) ensures ChunkStates.Valid(graph, entropyOf, patterns, Directions, Cell(p)) {
        if p != q {
          assert old(ChunkStates.Valid(graph, entropyOf, patterns, Directions, Cell(p)));
        }
      }
    }

    /** Removing a candidate from one cell shrinks the candidate pairs. */
    twostate lemma ShrinkCandidates(q: Vec2)
      requires chunkStates == old(chunkStates) && InGrid(q)
      requires forall p :: InGrid(p) && p != q ==> Cell(p) == old(Cell(p))
      requires Cell(q).compatibles < old(Cell(q)).compatibles
      ensures Candidates() < old(Candidates())
    {
      assert exists a :: a in old(Cell(q)).compatibles && a !in Cell(q).compatibles;
      var a :| a in old(Cell(q)).compatibles && a !in Cell(q).compatibles;
      assert (q, a) in old(Candidates()) && (q, a) !in Candidates();
    }

    /** Every arc out of `p` holds: each in-grid neighbour keeps only patterns
        that `p` allows in that direction. */
    ghost predicate ArcsOut(p: Vec2)
      reads this`chunkStates, chunkStates
    {
      forall d :: 0 <= d < 4 ==> ArcHolds(p, d)
    }

    /** A cell whose state did not change keeps its arcs while every cell only shrinks. */
    twostate lemma ArcsOutKept(p: Vec2)
      requires old(ArcsOut(p)) && chunkStates == old(chunkStates)
      requires InGrid(p) ==> Cell(p) == old(Cell(p))
      requires forall q :: InGrid(q) ==> Cell(q).compatibles <= old(Cell(q)).compatibles
      ensures ArcsOut(p)
    {
      forall d | 0 <= d < 4 ensures ArcHolds(p, d) {
        assert old(ArcHolds(p, d));
      }
    }

    /** One pop of `PropagateProgressive`: the popped cell is read once, then each
        in-grid neighbour is restricted to what it allows in that direction and
        pushed when that removed a candidate; every cell ends as `Swept` from its
        old state, which `SweptNeighbour` and `SweptElsewhere` spell out. */
    method PropagateStep()
      requires Valid() && |propagationStack| > 0
      modifies this`propagationStack, chunkStates
      ensures Valid()
      ensures forall p :: InGrid(p) ==> Cell(p).definite == old(Cell(p)).definite
      ensures forall p :: InGrid(p) ==> Cell(p).compatibles <= old(Cell(p)).compatibles
      ensures Candidates() < old(Candidates()) ||
              (Candidates() == old(Candidates()) && propagationStack == old(propagationStack)[..|old(propagationStack)| - 1])
      ensures |propagationStack| >= |old(propagationStack)| - 1
      ensures propagationStack[..|old(propagationStack)| - 1] == old(propagationStack)[..|old(propagationStack)| - 1]
      ensures forall k :: |old(propagationStack)| - 1 <= k < |propagationStack| ==>
                var x := propagationStack[k]; InGrid(x) && Cell(x).compatibles < old(Cell(x)).compatibles
      ensures forall p :: InGrid(p) && Cell(p) != old(Cell(p)) ==> p in propagationStack[|old(propagationStack)| - 1..]
      ensures var c := old(propagationStack[|propagationStack| - 1]);
              c in propagationStack || ArcsOut(c)
      ensures var c := old(propagationStack[|propagationStack| - 1]);
              forall p :: InGrid(p) ==>
                Cell(p).compatibles == Swept(old(Cell(p)).compatibles, c, old(Cell(c)).compatibleAdjacent, p, 4)
    {
      PopAndSweep();
      var n := |old(propagationStack)| - 1;
      if |propagationStack| > n {
        FewerCandidates(propagationStack[n]);
      } else {
        assert propagationStack == old(propagationStack)[..n];
        SameCandidates();
      }
    }

    /** `PropagateStep` without the measure: the pop and the sweep over every direction. */
    method PopAndSweep()
      requires Wellformed() && CellsValid() && StackInGrid() && ArcConsistent() && |propagationStack| > 0
      modifies this`propagationStack, chunkStates
      ensures Wellformed() && CellsValid() && StackInGrid() && ArcConsistent()
      ensures forall p :: InGrid(p) ==> Cell(p).definite == old(Cell(p)).definite
      ensures forall p :: InGrid(p) ==> Cell(p).compatibles <= old(Cell(p)).compatibles
      ensures |propagationStack| >= |old(propagationStack)| - 1
      ensures propagationStack[..|old(propagationStack)| - 1] == old(propagationStack)[..|old(propagationStack)| - 1]
      ensures forall k :: |old(propagationStack)| - 1 <= k < |propagationStack| ==>
                var x := propagationStack[k]; InGrid(x) && Cell(x).compatibles < old(Cell(x)).compatibles
      ensures forall p :: InGrid(p) && Cell(p) != old(Cell(p)) ==> p in propagationStack[|old(propagationStack)| - 1..]
      ensures var c := old(propagationStack[|propagationStack| - 1]);
              c in propagationStack || ArcsOut(c)
      ensures var c := old(propagationStack[|propagationStack| - 1]);
              forall p :: InGrid(p) ==>
                Cell(p).compatibles == Swept(old(Cell(p)).compatibles, c, old(Cell(c)).compatibleAdjacent, p, 4)
    {
      var changedPos := propagationStack[|propagationStack| - 1];
      propagationStack := propagationStack[..|propagationStack| - 1];
      assert old(propagationStack) == propagationStack + [changedPos];
      assert ArcsExcept(changedPos, 0) by {
        forall p, d | InGrid(p) && Cell(p).definite && p !in propagationStack && p != changedPos
          ensures ArcHolds(p, d)
        {
          assert p !in old(propagationStack);
        }
      }
      var chunk := chunkStates[changedPos.x, changedPos.y];
      SweepFrom(changedPos, chunk);
      AllArcsDone(changedPos);
    }

    /** Every direction of `e` handled: all arcs hold off the stack. */
    lemma AllArcsDone(e: Vec2)
      requires ArcsExcept(e, 4)
      ensures ArcConsistent()
    {
      forall p, d | InGrid(p) && Cell(p).definite && p !in propagationStack ensures ArcHolds(p, d) {
        if p == e && d >= 4 {
          assert !(0 <= d < 4);
        }
      }
    }

    /** Candidates only lost, and `x` lost one: fewer candidates overall. */
    twostate lemma FewerCandidates(x: Vec2)
      requires chunkStates == old(chunkStates)
      requires forall p :: InGrid(p) ==> Cell(p).compatibles <= old(Cell(p)).compatibles
      requires InGrid(x) && Cell(x).compatibles < old(Cell(x)).compatibles
      ensures Candidates() < old(Candidates())
    {
      var a :| a in old(Cell(x)).compatibles && a !in Cell(x).compatibles;
      assert (x, a) in old(Candidates()) && (x, a) !in Candidates();
    }

    /** No cell changed: the same candidates. */
    twostate lemma SameCandidates()
      requires chunkStates == old(chunkStates)
      requires forall p :: InGrid(p) ==> Cell(p) == old(Cell(p))
      ensures Candidates() == old(Candidates())
    {
    }

    /** The direction loop of one pop: every in-grid neighbour of the popped
        cell `changedPos`, whose state is `chunk`, keeps only what `chunk` allows
        in that direction and is pushed when that removed a candidate. Stated
        against the state just after the pop. */
    method SweepFrom(changedPos: Vec2, chunk: ChunkState)
      requires Wellformed() && CellsValid() && StackInGrid() && ArcsExcept(changedPos, 0)
      requires InGrid(changedPos) && Cell(changedPos) == chunk
      modifies this`propagationStack, chunkStates
      ensures Wellformed() && CellsValid() && StackInGrid() && ArcsExcept(changedPos, 4)
      ensures forall p :: InGrid(p) ==> Cell(p).definite == old(Cell(p)).definite
      ensures forall p :: InGrid(p) ==> Cell(p).compatibles <= old(Cell(p)).compatibles
      ensures |propagationStack| >= |old(propagationStack)|
      ensures propagationStack[..|old(propagationStack)|] == old(propagationStack)
      ensures forall k :: |old(propagationStack)| <= k < |propagationStack| ==>
                var x := propagationStack[k]; InGrid(x) && Cell(x).compatibles < old(Cell(x)).compatibles
      ensures forall p :: InGrid(p) && Cell(p) != old(Cell(p)) ==> p in propagationStack[|old(propagationStack)|..]
      ensures changedPos in propagationStack || ArcsOut(changedPos)
      ensures forall p :: InGrid(p) ==>
                Cell(p).compatibles == Swept(old(Cell(p)).compatibles, changedPos, chunk.compatibleAdjacent, p, 4)
    {
      ghost var base := propagationStack;
      ghost var orig := map p | p in Box(size) :: Cell(p);
      assert PopProgress(changedPos, base, chunk, orig, 0) by {
        forall p | InGrid(p) ensures p in orig && Cell(p) == orig[p] {
          assert p in Box(size);
        }
      }
      SweepLoop(changedPos, chunk, base, orig);
      forall p | InGrid(p) ensures p in orig && orig[p] == old(Cell(p)) {
        assert p in Box(size);
      }
      PopFinished(PopStep(changedPos, 4, false, base, chunk, orig));
    }

    /** A sweep that covered every direction, stated against the state before
        it. The argument is `(changedPos, 4, _, base, c0, orig)`. */
    twostate lemma PopFinished(step: PopStep)
      requires chunkStates == old(chunkStates) && old(InGrid(step.changedPos))
      requires step.base == old(propagationStack) && step.c0 == old(Cell(step.changedPos))
      requires forall p :: InGrid(p) ==> p in step.orig && step.orig[p] == old(Cell(p))
      requires step.dir == 4 && PopProgress(step.changedPos, step.base, step.c0, step.orig, step.dir)
      ensures |propagationStack| >= |old(propagationStack)|
      ensures propagationStack[..|old(propagationStack)|] == old(propagationStack)
      ensures forall k :: |old(propagationStack)| <= k < |propagationStack| ==>
                var x := propagationStack[k]; InGrid(x) && Cell(x).compatibles < old(Cell(x)).compatibles
      ensures forall p :: InGrid(p) ==> Cell(p).definite == old(Cell(p)).definite
      ensures forall p :: InGrid(p) ==> Cell(p).compatibles <= old(Cell(p)).compatibles
      ensures forall p :: InGrid(p) && Cell(p) != old(Cell(p)) ==> p in propagationStack[|old(propagationStack)|..]
      ensures step.changedPos in propagationStack || ArcsOut(step.changedPos)
      ensures forall p :: InGrid(p) ==>
                Cell(p).compatibles == Swept(old(Cell(p)).compatibles, step.changedPos, step.c0.compatibleAdjacent, p, 4)
    {
      var PopStep(changedPos, dir, _, base, c0, orig) := step;
      forall k | |base| <= k < |propagationStack|
        ensures var x := propagationStack[k]; InGrid(x) && Cell(x).compatibles < old(Cell(x)).compatibles
      {
        var x := propagationStack[k];
        assert InGrid(x) && Cell(x).compatibles < orig[x].compatibles;
      }
      if changedPos !in propagationStack {
        forall d | 0 <= d < 4 ensures ArcHolds(changedPos, d) {
        }
      }
    }

    /** The loop of `SweepFrom` over the directions, in terms of the pop's state. */
    method SweepLoop(changedPos: Vec2, chunk: ChunkState, ghost base: seq<Vec2>, ghost orig: map<Vec2, ChunkState>)
      requires Wellformed() && CellsValid() && StackInGrid() && ArcsExcept(changedPos, 0)
      requires PopProgress(changedPos, base, chunk, orig, 0)
      modifies this`propagationStack, chunkStates
      ensures Wellformed() && CellsValid() && StackInGrid() && ArcsExcept(changedPos, 4)
      ensures PopProgress(changedPos, base, chunk, orig, 4)
    {
      for dir := 0 to 4
        invariant Wellformed() && CellsValid() && StackInGrid() && ArcsExcept(changedPos, dir)
        invariant PopProgress(changedPos, base, chunk, orig, dir)
      {
        var changed := PropagateNext(changedPos, chunk, dir, base, orig);
      }
    }

    /** The state of one pop after directions `0 .. dir-1`: `orig` holds every
        cell as it was when `changedPos` (then in state `c0`) was popped and `base`
        is the stack below it. Every push since is a cell that lost a candidate,
        every changed cell was pushed, and the arcs out of `changedPos` handled so
        far hold unless it was pushed again. */
    ghost predicate PopProgress(changedPos: Vec2, base: seq<Vec2>, c0: ChunkState, orig: map<Vec2, ChunkState>, dir: int)
      reads this`chunkStates, this`propagationStack, chunkStates
    {
      && StackGrown(base, orig)
      && CellsShrunk(orig)
      && ChangesPushed(base, orig)
      && PopArcs(changedPos, dir)
      && PopSwept(changedPos, c0, orig, dir)
    }

    /** The stack is `base` followed by cells that lost a candidate since `orig`. */
    ghost predicate StackGrown(base: seq<Vec2>, orig: map<Vec2, ChunkState>)
      reads this`chunkStates, this`propagationStack, chunkStates
    {
      && |propagationStack| >= |base| && propagationStack[..|base|] == base
      && (forall k :: |base| <= k < |propagationStack| ==>
            var x := propagationStack[k]; InGrid(x) && x in orig && Cell(x).compatibles < orig[x].compatibles)
    }

    /** Every cell only lost candidates since `orig`. */
    ghost predicate CellsShrunk(orig: map<Vec2, ChunkState>)
      reads this`chunkStates, chunkStates
    {
      forall p :: InGrid(p) ==> p in orig && Cell(p).compatibles <= orig[p].compatibles && Cell(p).definite == orig[p].definite
    }

    /** Every cell changed since `orig` was pushed above `base`. */
    ghost predicate ChangesPushed(base: seq<Vec2>, orig: map<Vec2, ChunkState>)
      reads this`chunkStates, this`propagationStack, chunkStates
    {
      |propagationStack| >= |base| &&
      forall p :: InGrid(p) && p in orig && Cell(p) != orig[p] ==> p in propagationStack[|base|..]
    }

    /** The arcs out of `changedPos` in directions below `dir` hold, unless it is on the stack. */
    ghost predicate PopArcs(changedPos: Vec2, dir: int)
      reads this`chunkStates, this`propagationStack, chunkStates
    {
      && 0 <= dir <= 4 && InGrid(changedPos)
      && (changedPos in propagationStack || forall d :: 0 <= d < dir ==> ArcHolds(changedPos, d))
    }

    /** `changedPos` is still `c0` and every cell is `Swept` from `orig` over
        directions below `dir`. */
    ghost predicate PopSwept(changedPos: Vec2, c0: ChunkState, orig: map<Vec2, ChunkState>, dir: int)
      reads this`chunkStates, chunkStates
    {
      && 0 <= dir <= 4 && InGrid(changedPos) && Cell(changedPos) == c0
      && (forall p :: InGrid(p) ==>
            (p in orig && Cell(p).compatibles == Swept(orig[p].compatibles, changedPos, c0.compatibleAdjacent, p, dir)))
    }

    /** One iteration of the direction loop of a pop: `PropagateDirection`, and
        the pop's state extends to one more direction. */
    method PropagateNext(changedPos: Vec2, chunk: ChunkState, dir: int, ghost base: seq<Vec2>, ghost orig: map<Vec2, ChunkState>)
      returns (changed: bool)
      requires Wellformed() && CellsValid() && StackInGrid() && ArcsExcept(changedPos, dir)
      requires PopProgress(changedPos, base, chunk, orig, dir) && dir < 4
      modifies this`propagationStack, chunkStates
      ensures Wellformed() && CellsValid() && StackInGrid() && ArcsExcept(changedPos, dir + 1)
      ensures PopProgress(changedPos, base, chunk, orig, dir + 1)
    {
      changed := PropagateDirection(changedPos, chunk, dir);
      PopAdvance(PopStep(changedPos, dir, changed, base, chunk, orig));
    }

    /** The pop's state after one more direction. */
    twostate lemma PopAdvance(step: PopStep)
      requires 0 <= step.dir < 4
      requires old(PopProgress(step.changedPos, step.base, step.c0, step.orig, step.dir))
      requires DirectionDone(step.changedPos, step.dir, step.changed)
      ensures PopProgress(step.changedPos, step.base, step.c0, step.orig, step.dir + 1)
    {
      PushesAdvance(step);
      ChangesAdvance(step);
      ArcsAdvance(step);
      SweptAdvance(step);
    }

    /** What `PropagateDirection(changedPos, chunk, dir)` did between `old` and now. */
    twostate predicate DirectionDone(changedPos: Vec2, dir: int, changed: bool)
      requires 0 <= dir < 4
      reads this`chunkStates, this`propagationStack, chunkStates
    {
      var q := changedPos.Plus(AdjacentDelta[dir]);
      && chunkStates == old(chunkStates)
      && old(InGrid(changedPos)) && dir < |old(Cell(changedPos)).compatibleAdjacent|
      && (InGrid(q) ==> Cell(q).compatibles == old(Cell(q)).compatibles * old(Cell(changedPos)).compatibleAdjacent[dir])
      && (changed ==> InGrid(q) && Cell(q).compatibles < old(Cell(q)).compatibles)
      && propagationStack == old(propagationStack) + (if changed then [q] else [])
      && (forall p :: InGrid(p) && (p != q || !changed) ==> Cell(p) == old(Cell(p)))
      && (forall p :: InGrid(p) ==> Cell(p).compatibles <= old(Cell(p)).compatibles && Cell(p).definite == old(Cell(p)).definite)
    }

    /** The stack part of a pop's state after one more direction. */
    twostate lemma PushesAdvance(step: PopStep)
      requires 0 <= step.dir < 4
      requires old(StackGrown(step.base, step.orig) && CellsShrunk(step.orig))
      requires DirectionDone(step.changedPos, step.dir, step.changed)
      ensures StackGrown(step.base, step.orig) && CellsShrunk(step.orig)
    {
      var PopStep(changedPos, dir, changed, base, c0, orig) := step;
      assert propagationStack[..|old(propagationStack)|] == old(propagationStack);
      assert propagationStack[..|base|] == base by {
        assert propagationStack[..|base|] == propagationStack[..|old(propagationStack)|][..|base|];
      }
      forall k | |base| <= k < |propagationStack|
        ensures var x := propagationStack[k]; InGrid(x) && x in orig && Cell(x).compatibles < orig[x].compatibles
      {
        if k < |old(propagationStack)| {
          assert propagationStack[k] == old(propagationStack)[k];
        }
      }
      forall p | InGrid(p)
        ensures p in orig && Cell(p).compatibles <= orig[p].compatibles && Cell(p).definite == orig[p].definite
      {
        assert old(InGrid(p));
      }
    }

    /** Changed cells stay pushed after one more direction. */
    twostate lemma ChangesAdvance(step: PopStep)
      requires 0 <= step.dir < 4
      requires old(ChangesPushed(step.base, step.orig))
      requires DirectionDone(step.changedPos, step.dir, step.changed)
      ensures ChangesPushed(step.base, step.orig)
    {
      var PopStep(changedPos, dir, changed, base, c0, orig) := step;
      var q := changedPos.Plus(AdjacentDelta[dir]);
      forall p | InGrid(p) && p in orig && Cell(p) != orig[p] ensures p in propagationStack[|base|..] {
        if Cell(p) == old(Cell(p)) {
          assert p in old(propagationStack)[|base|..];
          var i :| |base| <= i < |old(propagationStack)| && old(propagationStack)[i] == p;
          assert propagationStack[i] == p;
        } else {
          assert p == q && changed;
          assert propagationStack[|propagationStack| - 1] == q;
        }
      }
    }

    /** The arcs out of the popped cell after one more direction. */
    twostate lemma ArcsAdvance(step: PopStep)
      requires 0 <= step.dir < 4
      requires old(PopArcs(step.changedPos, step.dir))
      requires DirectionDone(step.changedPos, step.dir, step.changed)
      ensures PopArcs(step.changedPos, step.dir + 1)
    {
      var PopStep(changedPos, dir, changed, base, c0, orig) := step;
      if changedPos !in propagationStack {
        assert Cell(changedPos) == old(Cell(changedPos));
        forall d | 0 <= d <= dir ensures ArcHolds(changedPos, d) {
          if d < dir {
            assert old(ArcHolds(changedPos, d));
          }
        }
      }
    }

    /** The exact candidate sets after one more direction. */
    twostate lemma SweptAdvance(step: PopStep)
      requires 0 <= step.dir < 4
      requires old(PopSwept(step.changedPos, step.c0, step.orig, step.dir))
      requires DirectionDone(step.changedPos, step.dir, step.changed)
      ensures PopSwept(step.changedPos, step.c0, step.orig, step.dir + 1)
    {
      var PopStep(changedPos, dir, changed, base, c0, orig) := step;
      var q := changedPos.Plus(AdjacentDelta[dir]);
      OppositeDirection(dir, changedPos);
      assert q != changedPos by {
        assert AdjacentDelta[dir] != Vec2(0, 0);
      }
      assert Cell(changedPos) == c0;
      forall p | InGrid(p)
        ensures p in orig && Cell(p).compatibles == Swept(orig[p].compatibles, changedPos, c0.compatibleAdjacent, p, dir + 1)
      {
        assert old(InGrid(p));
        assert old(Cell(p).compatibles) == Swept(orig[p].compatibles, changedPos, c0.compatibleAdjacent, p, dir);
      }
    }

    /** The body of the direction loop of `PropagateProgressive`: the neighbour of
        `changedPos` in direction `dir`, when inside the grid, keeps only what
        `chunk` (the popped cell) allows there, and is pushed, with its new state
        stored, iff that removed a candidate. */
    method PropagateDirection(changedPos: Vec2, chunk: ChunkState, dir: int) returns (changed: bool)
      requires Wellformed() && CellsValid() && StackInGrid() && ArcsExcept(changedPos, dir)
      requires InGrid(changedPos) && Cell(changedPos) == chunk && 0 <= dir < 4
      modifies this`propagationStack, chunkStates
      ensures CellsValid() && StackInGrid() && ArcsExcept(changedPos, dir + 1)
      ensures Cell(changedPos) == chunk
      ensures forall p :: InGrid(p) ==> Cell(p).definite == old(Cell(p)).definite
      ensures forall p :: InGrid(p) ==> Cell(p).compatibles <= old(Cell(p)).compatibles
      ensures changed ==> Candidates() < old(Candidates())
      ensures !changed ==> Candidates() == old(Candidates()) && propagationStack == old(propagationStack)
      ensures |chunk.compatibleAdjacent| == Directions
      ensures var q := changedPos.Plus(AdjacentDelta[dir]);
              InGrid(q) ==> Cell(q).compatibles == old(Cell(q)).compatibles * chunk.compatibleAdjacent[dir]
      ensures var q := changedPos.Plus(AdjacentDelta[dir]);
              changed <==> InGrid(q) && !(old(Cell(q)).compatibles <= chunk.compatibleAdjacent[dir])
      ensures propagationStack == old(propagationStack) + (if changed then [changedPos.Plus(AdjacentDelta[dir])] else [])
      ensures forall p :: InGrid(p) && (p != changedPos.Plus(AdjacentDelta[dir]) || !changed) ==> Cell(p) == old(Cell(p))
    {
      assert |chunk.compatibleAdjacent| == Directions by {
        assert ChunkStates.Valid(graph, entropyOf, patterns, Directions, Cell(changedPos));
      }
      var delta := AdjacentDelta[dir];
      var adjacentPos := changedPos.Plus(delta);
      if !Contains2(size, adjacentPos) {
        assert !InGrid(adjacentPos);
        ExtendArcs(changedPos, dir);
        return false;
      }
      OppositeDirection(dir, changedPos);
      assert adjacentPos != changedPos by {
        assert delta != Vec2(0, 0);
      }
      assert InGrid(adjacentPos);
      changed := RestrictAndPush(adjacentPos, chunk.compatibleAdjacent[dir], changedPos, dir);
      assert Cell(changedPos) == chunk;
      ExtendArcs(changedPos, dir);
    }

    /** Once the arc `(e, from)` holds (or `e` is back on the stack), the exception
        for `e` can start one direction later. */
    lemma ExtendArcs(e: Vec2, from: int)
      requires ArcsExcept(e, from)
      requires ArcHolds(e, from) || e in propagationStack
      ensures ArcsExcept(e, from + 1)
    {
    }

    /** `PropagateProgressive` driven to completion (the coroutine runner's job):
        pops until the stack is empty; it ends because every push follows the
        removal of a candidate. Every cell that was waiting on the stack, and
        every cell it changed, ends with all its arcs holding. */
    method Propagate()
      requires Valid()
      modifies this`propagationStack, chunkStates
      ensures Valid() && propagationStack == []
      ensures forall p :: InGrid(p) ==> Cell(p).definite == old(Cell(p)).definite
      ensures forall p :: InGrid(p) ==> Cell(p).compatibles <= old(Cell(p)).compatibles
      ensures forall k :: 0 <= k < |old(propagationStack)| ==> ArcsOut(old(propagationStack)[k])
      ensures forall p :: InGrid(p) && Cell(p) != old(Cell(p)) ==> ArcsOut(p)
    {
      ghost var settled: set<Vec2> := {};
      while |propagationStack| > 0
        invariant Valid()
        invariant forall p :: InGrid(p) ==> Cell(p).definite == old(Cell(p)).definite
        invariant forall p :: InGrid(p) ==> Cell(p).compatibles <= old(Cell(p)).compatibles
        invariant forall p :: p in settled && p !in propagationStack ==> ArcsOut(p)
        invariant forall k :: 0 <= k < |old(propagationStack)| ==>
                    old(propagationStack)[k] in settled || old(propagationStack)[k] in propagationStack
        invariant forall p :: InGrid(p) && Cell(p) != old(Cell(p)) ==> p in settled || p in propagationStack
        decreases Candidates(), |propagationStack|
      {
        ghost var c := propagationStack[|propagationStack| - 1];
        label before:
        PropagateStep();
        SettledKept@before(settled);
        settled := settled + {c};
      }
    }

    /** Across one `PropagateStep`: the cells settled so far keep their arcs, the
        popped cell joins them, and every cell that was on the stack or changed is
        still on it or settled. */
    twostate lemma SettledKept(settled: set<Vec2>)
      requires old(|propagationStack|) > 0 && chunkStates == old(chunkStates)
      requires forall p :: p in settled && p !in old(propagationStack) ==> old(ArcsOut(p))
      requires forall p :: InGrid(p) ==> Cell(p).compatibles <= old(Cell(p)).compatibles
      requires |propagationStack| >= |old(propagationStack)| - 1
      requires propagationStack[..|old(propagationStack)| - 1] == old(propagationStack)[..|old(propagationStack)| - 1]
      requires forall p :: InGrid(p) && Cell(p) != old(Cell(p)) ==> p in propagationStack[|old(propagationStack)| - 1..]
      requires var c := old(propagationStack[|propagationStack| - 1]);
               c in propagationStack || ArcsOut(c)
      ensures var c := old(propagationStack[|propagationStack| - 1]);
              forall p :: p in settled + {c} && p !in propagationStack ==> ArcsOut(p)
      ensures var c := old(propagationStack[|propagationStack| - 1]);
              forall p :: p in old(propagationStack) ==> p in propagationStack || p == c
      ensures forall p :: InGrid(p) && Cell(p) != old(Cell(p)) ==> p in propagationStack
    {
      var n := |old(propagationStack)| - 1;
      var c := old(propagationStack[|propagationStack| - 1]);
      forall p | p in old(propagationStack) ensures p in propagationStack || p == c {
        var i :| 0 <= i < |old(propagationStack)| && old(propagationStack)[i] == p;
        if i < n {
          assert propagationStack[..n][i] == p;
        }
      }
      forall p | p in settled + {c} && p !in propagationStack ensures ArcsOut(p) {
        if p != c {
          ArcsOutKept(p);
        }
      }
    }

    // ------------------------------------------------------------ the run

    /** One round of `RunProgressive`: `Observe`, and when it found a cell,
        propagation to a fixed point. */
    method Step() returns (found: bool, chunkPos: Vec2)
      requires Valid()
      modifies this`drawn, this`propagationStack, chunkStates
      ensures Valid()
      ensures forall p :: InGrid(p) && old(Cell(p)).definite ==> Cell(p).definite
      ensures found ==> propagationStack == []
      ensures found ==> InGrid(chunkPos) && !old(Cell(chunkPos)).definite && Cell(chunkPos).definite
      ensures found ==> NonDefinite() < old(NonDefinite())
      ensures !found ==> propagationStack == old(propagationStack) && Finished()
      ensures !found ==> forall p :: InGrid(p) ==> Cell(p) == old(Cell(p))
    {
      ObserveFindsNothingIff();
      found, chunkPos := Observe();
      if !found {
        return;
      }
      label observed:
      Propagate();
      assert chunkPos in old(NonDefinite()) && chunkPos !in NonDefinite();
      assert forall p :: p in NonDefinite() ==> p in old(NonDefinite()) by {
        forall p | p in NonDefinite() ensures p in old(NonDefinite()) {
          assert !old@observed(Cell(p)).definite;
        }
      }
    }

    /** `RunProgressive` enumerated to its end: the positions it yields, one per
        round, until `Observe` finds nothing. Every yielded cell was open and is
        now collapsed (so none repeats), and the run ends with every cell
        collapsed or out of candidates; then, if none ran out and nothing is left
        to propagate, the grid satisfies every adjacency rule. */
    method RunProgressive() returns (yielded: seq<Vec2>)
      requires Valid()
      modifies this`drawn, this`propagationStack, chunkStates
      ensures Valid() && Finished()
      ensures yielded != [] ==> propagationStack == []
      ensures yielded == [] ==> propagationStack == old(propagationStack)
      ensures forall k :: 0 <= k < |yielded| ==>
                InGrid(yielded[k]) && !old(Cell(yielded[k])).definite && Cell(yielded[k]).definite
      ensures forall j, k :: 0 <= j < k < |yielded| ==> yielded[j] != yielded[k]
      ensures propagationStack == [] && NoContradiction() ==> Solved()
    {
      yielded := [];
      while true
        invariant Valid()
        invariant forall p :: InGrid(p) && old(Cell(p)).definite ==> Cell(p).definite
        invariant yielded != [] ==> propagationStack == []
        invariant yielded == [] ==> propagationStack == old(propagationStack)
        invariant forall k :: 0 <= k < |yielded| ==>
                    InGrid(yielded[k]) && !old(Cell(yielded[k])).definite && Cell(yielded[k]).definite
        invariant forall j, k :: 0 <= j < k < |yielded| ==> yielded[j] != yielded[k]
        decreases NonDefinite()
      {
        var found, chunkPos := Step();
        if !found {
          break;
        }
        yielded := yielded + [chunkPos];
      }
      if propagationStack == [] && NoContradiction() {
        FinishedIsSolved();
      }
    }

    // ------------------------------------------------------------ UpdateChunk

    /** What the in-grid neighbours of `pos` in directions `0 .. k - 1` allow at
        `pos`: the union of each one's cached set for the way back,
        `(dir + 2) % 4`. */
    ghost function Support(pos: Vec2, k: int): set<PatternId>
      reads this`chunkStates, chunkStates
      requires 0 <= k <= 4
    {
      if k == 0 then {}
      else
        var n := pos.Plus(AdjacentDelta[k - 1]);
        Support(pos, k - 1) +
        (if InGrid(n) && (k + 1) % 4 < |Cell(n).compatibleAdjacent| then Cell(n).compatibleAdjacent[(k + 1) % 4] else {})
    }

    /** A pattern is in the support exactly when some in-grid neighbour's cached
        set for the way back contains it. */
    lemma {:induction false} SupportContains(pos: Vec2, k: int, a: PatternId)
      requires CellsValid() && 0 <= k <= 4
      ensures a in Support(pos, k) <==>
              exists dir :: 0 <= dir < k && InGrid(pos.Plus(AdjacentDelta[dir])) &&
                            a in Cell(pos.Plus(AdjacentDelta[dir])).compatibleAdjacent[(dir + 2) % 4]
      decreases k
    {
      if k > 0 {
        SupportContains(pos, k - 1, a);
        var n := pos.Plus(AdjacentDelta[k - 1]);
        if InGrid(n) {
          assert ChunkStates.Valid(graph, entropyOf, patterns, Directions, Cell(n));
        }
      }
    }

    /** `UpdateChunk` would leave a cell alone when every in-grid neighbour is
        collapsed and settled (off the stack), provided it has a neighbour: the
        arc invariant already keeps the cell inside each neighbour's cached set. */
    lemma SettledNeighboursSupport(pos: Vec2)
      requires Valid() && InGrid(pos)
      requires exists dir :: 0 <= dir < 4 && InGrid(pos.Plus(AdjacentDelta[dir]))
      requires forall dir :: 0 <= dir < 4 && InGrid(pos.Plus(AdjacentDelta[dir])) ==>
                 Cell(pos.Plus(AdjacentDelta[dir])).definite && pos.Plus(AdjacentDelta[dir]) !in propagationStack
      ensures Cell(pos).compatibles <= Support(pos, 4)
    {
      var dir :| 0 <= dir < 4 && InGrid(pos.Plus(AdjacentDelta[dir]));
      var n := pos.Plus(AdjacentDelta[dir]);
      var back := (dir + 2) % 4;
      OppositeDirection(dir, pos);
      assert ArcHolds(n, back);
      assert ChunkStates.Valid(graph, entropyOf, patterns, Directions, Cell(n));
      forall a | a in Cell(pos).compatibles ensures a in Support(pos, 4) {
        SupportContains(pos, 4, a);
      }
    }

    /** `UpdateChunk(pos)`: takes a set from the pool, adds to it what every
        in-grid neighbour allows at `pos`, restricts the cell to it, and clears
        the set and returns it to the pool on both paths. With a pool of empty
        sets the restriction is exactly the neighbours' support and the pool
        stays a pool of empty sets. The source never pushes the cell, so the
        arcs out of a changed cell are no longer guaranteed. */
    method UpdateChunk(pos: Vec2) returns (changed: bool)
      requires Valid() && InGrid(pos)
      modifies chunkStates, setPool
      ensures Wellformed() && CellsValid() && StackInGrid()
      ensures !changed ==> ArcConsistent()
      ensures changed ==> ArcsExceptAlso(Unset, 0, pos)
      ensures var got := Popped(old(setPool.pool), {}).0;
              && (changed <==> !(old(Cell(pos)).compatibles <= got + old(Support(pos, 4))))
              && Cell(pos).compatibles == old(Cell(pos)).compatibles * (got + old(Support(pos, 4)))
      ensures Cell(pos).definite == old(Cell(pos)).definite
      ensures forall p :: InGrid(p) && p != pos ==> Cell(p) == old(Cell(p))
      ensures setPool.pool == Popped(old(setPool.pool), {}).1 + [{}]
      ensures (forall k :: 0 <= k < |old(setPool.pool)| ==> old(setPool.pool)[k] == {}) ==>
                (changed <==> !(old(Cell(pos)).compatibles <= old(Support(pos, 4)))) &&
                (forall k :: 0 <= k < |setPool.pool| ==> setPool.pool[k] == {})
    {
      var compatibles := setPool.Get({});
      PoppedFromEmpties(old(setPool.pool), {});
      changed := RestrictToSupport(pos, compatibles);
      label restricted:
      compatibles := {};   // `compatibles.Clear()`
      setPool.Release(compatibles);
      assert unchanged@restricted(this, chunkStates);
    }

    /** The grid part of `UpdateChunk`: the cell at `pos` keeps only the patterns
        in `got` (the pooled set) or in its neighbours' support; stored back when
        that changed it. */
    method RestrictToSupport(pos: Vec2, got: set<PatternId>) returns (changed: bool)
      requires Wellformed() && CellsValid() && ArcConsistent() && InGrid(pos)
      modifies chunkStates
      ensures CellsValid()
      ensures !changed ==> ArcConsistent()
      ensures changed ==> ArcsExceptAlso(Unset, 0, pos)
      ensures changed <==> !(old(Cell(pos)).compatibles <= got + old(Support(pos, 4)))
      ensures Cell(pos).compatibles == old(Cell(pos)).compatibles * (got + old(Support(pos, 4)))
      ensures Cell(pos).definite == old(Cell(pos)).definite
      ensures forall p :: InGrid(p) && p != pos ==> Cell(p) == old(Cell(p))
    {
      var compatibles := AddSupport(pos, got);
      ArcsExceptOutside();
      changed := Restrict(pos, compatibles, Unset, 0);
      ArcsExceptOutside();
      if !changed {
        assert old(Cell(pos)).compatibles * compatibles == old(Cell(pos)).compatibles;
      }
    }

    /** The arc exception for a position outside the grid exempts nothing. */
    lemma ArcsExceptOutside()
      ensures ArcsExcept(Unset, 0) <==> ArcConsistent()
    {
    }

    /** The loop of `UpdateChunk`: adds to `s` every in-grid neighbour's cached
        set for the way back to `pos`. */
    method AddSupport(pos: Vec2, s: set<PatternId>) returns (compatibles: set<PatternId>)
      requires Wellformed() && CellsValid()
      ensures compatibles == s + Support(pos, 4)
    {
      compatibles := s;
      for dir := 0 to 4
        invariant compatibles == s + Support(pos, dir)
      {
        var delta := AdjacentDelta[dir];
        var adjacentPos := pos.Plus(delta);
        if !Contains2(size, adjacentPos) {
          continue;
        }
        var adjacent := chunkStates[adjacentPos.x, adjacentPos.y];
        assert ChunkStates.Valid(graph, entropyOf, patterns, Directions, adjacent) by {
          assert adjacent == Cell(adjacentPos);
        }
        compatibles := compatibles + adjacent.compatibleAdjacent[(dir + 2) % 4];
      }
    }
  }
}
