/** The three-dimensional solver `WFCGenerator<T>` (Assets/Scripts/WFC/WFCGenerator.cs):
    a grid of cell states, an arbitrary table of neighbour offsets, a LIFO
    propagation stack and a seeded random stream. */
module Generator3D {
  import opened Wrappers
  import opened Vectors
  import opened PatternInterface
  import opened ChunkStates
  import opened Selection
  import Utility

  /** `a` comes before `b` in the x, then y, then z loop order. */
  predicate LexBefore(a: Vec3, b: Vec3) {
    a.x < b.x || (a.x == b.x && (a.y < b.y || (a.y == b.y && a.z < b.z)))
  }

  /** The position the scan of `Observe` starts from: `-Vector3Int.one`. */
  const Unset := Vec3(-1, -1, -1)

  /** The cells of the box `BoundsInt(0, size)`. */
  function Box(size: Vec3): (r: set<Vec3>)
    ensures forall p {:trigger p in r} :: p in r <==> Contains3(size, p)
  {
    var r := set x, y, z | 0 <= x < size.x && 0 <= y < size.y && 0 <= z < size.z :: Vec3(x, y, z);
    assert forall p :: Contains3(size, p) ==> Vec3(p.x, p.y, p.z) in r;
    r
  }

  /** The cells `BoundsInt(0, size).BoundaryIter(offset)` is taken to visit: those
      inside the box whose step by `offset` leaves it. */
  function BorderCells(size: Vec3, offset: Vec3): (r: set<Vec3>)
    ensures forall p {:trigger p in r} :: p in r <==> Contains3(size, p) && !Contains3(size, p.Plus(offset))
  {
    set p | p in Box(size) && !Contains3(size, p.Plus(offset))
  }

  /** The index of the offset opposite to `offsets[idx]`, or -1 when the table lacks it. */
  function Contrary(offsets: seq<Vec3>, idx: int): int
    requires 0 <= idx < |offsets|
  {
    Utility.FindIndex(offsets, offsets[idx].Negate())
  }

  /** The border pass for direction `i` does not throw: the opposite offset
      indexes `bound.neighbors`, or no cell faces that way. */
  predicate BorderIndexed(size: Vec3, offsets: seq<Vec3>, bound: Adjacency, i: int)
    requires 0 <= i < |offsets|
  {
    0 <= Contrary(offsets, i) < |bound.neighbors| || BorderCells(size, offsets[i]) == {}
  }

  /** The candidates `s` of the cell at `p` after the border passes for the
      directions `0 .. n-1`: each pass whose border holds `p` and whose opposite
      offset indexes `bound.neighbors` keeps only what that neighbour set allows. */
  function BorderSwept(size: Vec3, offsets: seq<Vec3>, bound: Adjacency, s: set<PatternId>, p: Vec3, n: nat): set<PatternId>
    requires n <= |offsets|
  {
    if n == 0 then s
    else
      var t := BorderSwept(size, offsets, bound, s, p, n - 1);
      if PassReaches(size, offsets, bound, p, n - 1) then t * bound.neighbors[Contrary(offsets, n - 1)] else t
  }

  /** The border pass for direction `i` runs over `p`: `p` is on that border
      and the opposite offset indexes `bound.neighbors`. */
  predicate PassReaches(size: Vec3, offsets: seq<Vec3>, bound: Adjacency, p: Vec3, i: int)
    requires 0 <= i < |offsets|
  {
    p in BorderCells(size, offsets[i]) && 0 <= Contrary(offsets, i) < |bound.neighbors|
  }

  /** A candidate survives the passes iff every pass that reaches `p` allows it. */
  lemma {:induction false} BorderSweptMembership(size: Vec3, offsets: seq<Vec3>, bound: Adjacency, s: set<PatternId>, p: Vec3, n: nat, a: PatternId)
    requires n <= |offsets|
    ensures a in BorderSwept(size, offsets, bound, s, p, n) <==>
              a in s && forall i :: 0 <= i < n && PassReaches(size, offsets, bound, p, i) ==>
                a in bound.neighbors[Contrary(offsets, i)]
  {
    if n > 0 {
      BorderSweptMembership(size, offsets, bound, s, p, n - 1, a);
    }
  }

  /** How many border passes, from direction `from` on, run before one throws:
      the first direction not `BorderIndexed`, or the table's length. */
  function PassesDone(size: Vec3, offsets: seq<Vec3>, bound: Adjacency, from: nat): (r: nat)
    requires from <= |offsets|
    ensures from <= r <= |offsets|
    ensures forall i :: from <= i < r ==> BorderIndexed(size, offsets, bound, i)
    ensures r < |offsets| ==> !BorderIndexed(size, offsets, bound, r)
    decreases |offsets| - from
  {
    if from == |offsets| || !BorderIndexed(size, offsets, bound, from) then from
    else PassesDone(size, offsets, bound, from + 1)
  }

  /** The passes stop at `n` exactly when all before it are indexed and `n`
      is the end of the table or not indexed. */
  lemma PassesAt(size: Vec3, offsets: seq<Vec3>, bound: Adjacency, n: int)
    requires 0 <= n <= |offsets|
    requires forall i :: 0 <= i < n ==> BorderIndexed(size, offsets, bound, i)
    requires n < |offsets| ==> !BorderIndexed(size, offsets, bound, n)
    ensures PassesDone(size, offsets, bound, 0) == n
  {
    var m := PassesDone(size, offsets, bound, 0);
    assert m <= n by {
      if n < |offsets| {
        assert !BorderIndexed(size, offsets, bound, n);
      }
    }
  }

  /** One direction of one pop of propagation: the popped position, the
      direction, whether the neighbour changed, the stack below the popped
      cell, the popped cell's state and every cell's state at the pop. */
  datatype PopStep = PopStep(changedPos: Vec3, dir: int, changed: bool, base: seq<Vec3>,
                             c0: ChunkState, orig: map<Vec3, ChunkState>)

  /** Lines 68-74 of `SetBoundaryPattern` as written. `chunk` is a copy of the
      stored struct: `UpdateCompatibleFrom` changes the candidate set and the
      cached adjacency through the references the copy shares with the stored
      cell, but the recomputed entropy lands in the copy only, and the copy is
      never stored back. Returns the stored cell afterwards and whether the
      position is pushed. */
  method BorderCellAsWritten(graph: seq<Adjacency>, entropyOf: EntropyFn, stored: ChunkState, s: set<PatternId>)
    returns (after: ChunkState, pushed: bool)
    requires Covers(graph, stored.compatibles, |stored.compatibleAdjacent|)
    ensures pushed <==> !(stored.compatibles <= s)
    ensures after.compatibles == stored.compatibles * s
    ensures pushed ==> CacheConsistent(graph, after)
    ensures after.entropy == stored.entropy && after.definite == stored.definite
  {
    var chunk := stored;
    var count := |chunk.compatibles|;
    var changed;
    chunk, changed := UpdateCompatibleFrom(graph, entropyOf, chunk, s);
    after := stored.(compatibles := chunk.compatibles, compatibleAdjacent := chunk.compatibleAdjacent);
    pushed := count != |chunk.compatibles|;
  }

  /** What the stale entropy leads to: a border cell that the boundary empties
      keeps its old finite entropy, so it is no longer a valid cell, the scan of
      `Observe` keys it below the unset minimum (it is selected when it is the
      only open cell), and `RandomTake` over its empty candidate set fails. */
  lemma StaleBorderCellIsObserved(graph: seq<Adjacency>, entropyOf: EntropyFn, patterns: set<PatternId>, count: nat,
                                  stored: ChunkState, s: set<PatternId>, after: ChunkState,
                                  draw: real, pick: real, order: seq<PatternId>, weight: PatternId -> real)
    requires Valid(graph, entropyOf, patterns, count, stored) && !stored.definite && stored.compatibles != {}
    requires stored.compatibles * s == {}
    requires after.compatibles == stored.compatibles * s
    requires after.entropy == stored.entropy && after.definite == stored.definite
    requires ListsExactly(order, after.compatibles)
    ensures !Valid(graph, entropyOf, patterns, count, after)
    ensures FirstMinimum([JitteredKey(after.entropy, draw)]) == Some(0)
    ensures Utility.Take(order, pick, weight).Failure?
  {
  }

  /** A concrete instance: one pattern with weight 1, two directions, a cell
      holding just that pattern, and a boundary that allows nothing on the
      cell's side. */
  lemma StaleBorderCellExample()
    ensures var graph := [Adjacency(1.0, [{0}, {0}])];
            var entropyOf := (s: set<PatternId>) => 0.0;
            var stored := ChunkState({0}, [{0}, {0}], Finite(0.0), false, 0);
            var after := ChunkState({}, [{}, {}], Finite(0.0), false, 0);
            && Valid(graph, entropyOf, {0}, 2, stored)
            && !Valid(graph, entropyOf, {0}, 2, after)
            && FirstMinimum([JitteredKey(after.entropy, 0.0)]) == Some(0)
            && Utility.Take<PatternId>([], 0.0, WeightFn(graph)).Failure?
  {
    var graph := [Adjacency(1.0, [{0}, {0}])];
    var stored := ChunkState({0}, [{0}, {0}], Finite(0.0), false, 0);
    forall i | 0 <= i < |stored.compatibleAdjacent|
      ensures stored.compatibleAdjacent[i] == AdjacentUnion(graph, stored.compatibles, i)
    {
      SingletonUnion(graph, 0, i);
    }
  }

  /** With the write-back, an emptied cell carries NaN, which the scan of
      `Observe` never selects. */
  lemma WrittenBackEmptyCellIsSkipped(graph: seq<Adjacency>, entropyOf: EntropyFn, patterns: set<PatternId>, count: nat,
                                      c: ChunkState, draw: real)
    requires Valid(graph, entropyOf, patterns, count, c) && c.compatibles == {}
    ensures FirstMinimum([JitteredKey(c.entropy, draw)]).None?
  {
  }

  class Generator {
    var size: Vec3
    const patterns: set<PatternId>
    const graph: seq<Adjacency>
    const neighborOffset: seq<Vec3>
    const entropyOf: EntropyFn
    const randomFor: int -> (nat -> real)               // `new Random(seed)`
    const enumerate: set<PatternId> -> seq<PatternId>   // HashSet enumeration order
    var chunkStates: array3<ChunkState>
    var random: nat -> real                               // the current `_random`
    var drawn: nat                                        // draws taken from it so far
    var propagationStack: seq<Vec3>                       // top of the stack last

    // ------------------------------------------------------------ invariants

    ghost predicate InGrid(p: Vec3)
      reads this`chunkStates
    {
      0 <= p.x < chunkStates.Length0 && 0 <= p.y < chunkStates.Length1 && 0 <= p.z < chunkStates.Length2
    }

    ghost function Cell(p: Vec3): ChunkState
      reads this`chunkStates, chunkStates
      requires InGrid(p)
    {
      chunkStates[p.x, p.y, p.z]
    }

    /** The grid matches `size` and every pattern has a neighbour set per offset. */
    ghost predicate Wellformed()
      reads this`chunkStates, this`size
    {
      && chunkStates.Length0 == size.x && chunkStates.Length1 == size.y && chunkStates.Length2 == size.z
      && Covers(graph, patterns, |neighborOffset|)
    }

    /** What `Observe` needs of its random choices: positive weights, draws in
        [0, 1) from every seed, and enumerations that list each candidate set. */
    ghost predicate Sampling()
    {
      && PositiveWeights(graph, patterns)
      && (forall seed :: UnitStream(randomFor(seed)))
      && (forall s :: ListsExactly(enumerate(s), s))
    }

    ghost predicate CellsValid()
      reads this`chunkStates, chunkStates
    {
      forall p :: InGrid(p) ==> ChunkStates.Valid(graph, entropyOf, patterns, |neighborOffset|, Cell(p))
    }

    ghost predicate StackInGrid()
      reads this`chunkStates, this`propagationStack
    {
      forall k :: 0 <= k < |propagationStack| ==> InGrid(propagationStack[k])
    }

    /** The neighbour of `p` in direction `d` holds only patterns that `p` allows there. */
    ghost predicate ArcHolds(p: Vec3, d: int)
      reads this`chunkStates, chunkStates
    {
      (InGrid(p) && 0 <= d < |neighborOffset| && InGrid(p.Plus(neighborOffset[d])) &&
       d < |Cell(p).compatibleAdjacent|)
        ==> Cell(p.Plus(neighborOffset[d])).compatibles <= Cell(p).compatibleAdjacent[d]
    }

    /** Every arc out of a collapsed cell that is not waiting on the stack holds,
        except the arcs of `e` from direction `from` on. */
    ghost predicate ArcsExcept(e: Vec3, from: int)
      reads this`chunkStates, this`propagationStack, chunkStates
    {
      forall p, d {:trigger ArcHolds(p, d)} ::
        InGrid(p) && Cell(p).definite && p !in propagationStack && (p != e || d < from) ==> ArcHolds(p, d)
    }

    /** `ArcsExcept(e, from)` with the arcs out of `q` exempt as well. */
    ghost predicate ArcsExceptAlso(e: Vec3, from: int, q: Vec3)
      reads this`chunkStates, this`propagationStack, chunkStates
    {
      forall p, d {:trigger ArcHolds(p, d)} ::
        InGrid(p) && Cell(p).definite && p !in propagationStack && p != q && (p != e || d < from) ==> ArcHolds(p, d)
    }

    ghost predicate ArcConsistent()
      reads this`chunkStates, this`propagationStack, chunkStates
    {
      forall p, d {:trigger ArcHolds(p, d)} :: InGrid(p) && Cell(p).definite && p !in propagationStack ==> ArcHolds(p, d)
    }

    ghost predicate Valid()
      reads this, chunkStates
    {
      Wellformed() && Sampling() && UnitStream(random) && CellsValid() && StackInGrid() && ArcConsistent()
    }

    /** Every (position, pattern) pair still possible: the measure propagation shrinks. */
    ghost function Candidates(): (r: set<(Vec3, PatternId)>)
      reads this`chunkStates, chunkStates
      ensures forall p, a :: (p, a) in r <==> InGrid(p) && a in Cell(p).compatibles
    {
      var r := set x, y, z, a | 0 <= x < chunkStates.Length0 && 0 <= y < chunkStates.Length1 && 0 <= z < chunkStates.Length2
                                && a in chunkStates[x, y, z].compatibles :: (Vec3(x, y, z), a);
      assert forall p, a :: InGrid(p) && a in Cell(p).compatibles ==> (Vec3(p.x, p.y, p.z), a) in r;
      r
    }

    /** The cells not yet collapsed: the measure `RunProgressive` shrinks. */
    ghost function NonDefinite(): (r: set<Vec3>)
      reads this`chunkStates, chunkStates
      ensures forall p :: p in r <==> InGrid(p) && !Cell(p).definite
    {
      var r := set x, y, z | 0 <= x < chunkStates.Length0 && 0 <= y < chunkStates.Length1 && 0 <= z < chunkStates.Length2
                             && !chunkStates[x, y, z].definite :: Vec3(x, y, z);
      assert forall p :: InGrid(p) && !Cell(p).definite ==> Vec3(p.x, p.y, p.z) in r;
      r
    }

    /** Every cell is collapsed or has run out of candidates. */
    ghost predicate Finished()
      reads this`chunkStates, chunkStates
    {
      forall p :: InGrid(p) ==> Cell(p).definite || Cell(p).compatibles == {}
    }

    ghost predicate NoContradiction()
      reads this`chunkStates, chunkStates
    {
      forall p :: InGrid(p) ==> Cell(p).compatibles != {}
    }

    /** Every pair of neighbouring cells obeys the adjacency rules of their patterns. */
    ghost predicate Solved()
      reads this`chunkStates, chunkStates
    {
      forall p, d :: InGrid(p) && 0 <= d < |neighborOffset| && InGrid(p.Plus(neighborOffset[d])) ==>
        Cell(p).collapsed < |graph| && d < |graph[Cell(p).collapsed].neighbors| &&
        Cell(p.Plus(neighborOffset[d])).collapsed in graph[Cell(p).collapsed].neighbors[d]
    }

    /** A finished, contradiction-free grid with nothing left to propagate is a solution. */
    lemma FinishedIsSolved()
      requires Valid() && propagationStack == [] && Finished() && NoContradiction()
      ensures Solved()
    {
      forall p, d | InGrid(p) && 0 <= d < |neighborOffset| && InGrid(p.Plus(neighborOffset[d]))
        ensures Cell(p).collapsed < |graph| && d < |graph[Cell(p).collapsed].neighbors|
        ensures Cell(p.Plus(neighborOffset[d])).collapsed in graph[Cell(p).collapsed].neighbors[d]
      {
        var q := p.Plus(neighborOffset[d]);
        assert ArcHolds(p, d);
        var c := Cell(p).collapsed;
        SingletonUnion(graph, c, d);
        assert Cell(q).compatibles == {Cell(q).collapsed};
      }
    }

    // ------------------------------------------------------------ the scan of Observe

    ghost function ScanZ(x: int, y: int, z: int): seq<(Vec3, Entropy)>
      reads this`chunkStates, chunkStates
      requires 0 <= x < chunkStates.Length0 && 0 <= y < chunkStates.Length1 && 0 <= z <= chunkStates.Length2
    {
      if z == 0 then []
      else
        var c := chunkStates[x, y, z - 1];
        ScanZ(x, y, z - 1) + (if c.definite then [] else [(Vec3(x, y, z - 1), c.entropy)])
    }

    ghost function ScanY(x: int, y: int): seq<(Vec3, Entropy)>
      reads this`chunkStates, chunkStates
      requires 0 <= x < chunkStates.Length0 && 0 <= y <= chunkStates.Length1
    {
      if y == 0 then [] else ScanY(x, y - 1) + ScanZ(x, y - 1, chunkStates.Length2)
    }

    ghost function ScanX(x: int): seq<(Vec3, Entropy)>
      reads this`chunkStates, chunkStates
      requires 0 <= x <= chunkStates.Length0
    {
      if x == 0 then [] else ScanX(x - 1) + ScanY(x - 1, chunkStates.Length1)
    }

    /** The cells `Observe` visits, in its loop order, with their entropies. */
    ghost function Scan(): seq<(Vec3, Entropy)>
      reads this`chunkStates, chunkStates
    {
      ScanX(chunkStates.Length0)
    }

    /** Every scanned entry is a cell of the grid that is not collapsed, with its entropy. */
    ghost predicate ScanSound(r: seq<(Vec3, Entropy)>)
      reads this`chunkStates, chunkStates
    {
      forall k :: 0 <= k < |r| ==> InGrid(r[k].0) && !Cell(r[k].0).definite && r[k].1 == Cell(r[k].0).entropy
    }

    lemma {:induction false} ScanZFacts(x: int, y: int, z: int)
      requires 0 <= x < chunkStates.Length0 && 0 <= y < chunkStates.Length1 && 0 <= z <= chunkStates.Length2
      ensures var r := ScanZ(x, y, z);
              && ScanSound(r)
              && (forall k :: 0 <= k < |r| ==> r[k].0.x == x && r[k].0.y == y && 0 <= r[k].0.z < z)
              && (forall c :: 0 <= c < z && !chunkStates[x, y, c].definite ==> (Vec3(x, y, c), chunkStates[x, y, c].entropy) in r)
              && (forall j, k :: 0 <= j < k < |r| ==> LexBefore(r[j].0, r[k].0))
      decreases z
    {
      if z > 0 {
        ScanZFacts(x, y, z - 1);
      }
    }

    lemma {:induction false} ScanYSound(x: int, y: int)
      requires 0 <= x < chunkStates.Length0 && 0 <= y <= chunkStates.Length1
      ensures ScanSound(ScanY(x, y))
      ensures forall k :: 0 <= k < |ScanY(x, y)| ==> ScanY(x, y)[k].0.x == x && 0 <= ScanY(x, y)[k].0.y < y
      decreases y
    {
      if y > 0 {
        ScanYSound(x, y - 1);
        ScanZFacts(x, y - 1, chunkStates.Length2);
      }
    }

    lemma {:induction false} ScanYComplete(x: int, y: int)
      requires 0 <= x < chunkStates.Length0 && 0 <= y <= chunkStates.Length1
      ensures forall b, c :: 0 <= b < y && 0 <= c < chunkStates.Length2 && !chunkStates[x, b, c].definite ==>
                (Vec3(x, b, c), chunkStates[x, b, c].entropy) in ScanY(x, y)
      decreases y
    {
      if y > 0 {
        ScanYComplete(x, y - 1);
        ScanZFacts(x, y - 1, chunkStates.Length2);
      }
    }

    lemma {:induction false} ScanYOrdered(x: int, y: int)
      requires 0 <= x < chunkStates.Length0 && 0 <= y <= chunkStates.Length1
      ensures forall j, k :: 0 <= j < k < |ScanY(x, y)| ==> LexBefore(ScanY(x, y)[j].0, ScanY(x, y)[k].0)
      decreases y
    {
      if y > 0 {
        ScanYOrdered(x, y - 1);
        ScanYSound(x, y - 1);
        ScanZFacts(x, y - 1, chunkStates.Length2);
      }
    }

    lemma {:induction false} ScanXSound(x: int)
      requires 0 <= x <= chunkStates.Length0
      ensures ScanSound(ScanX(x))
      ensures forall k :: 0 <= k < |ScanX(x)| ==> 0 <= ScanX(x)[k].0.x < x
      decreases x
    {
      if x > 0 {
        ScanXSound(x - 1);
        ScanYSound(x - 1, chunkStates.Length1);
      }
    }

    lemma {:induction false} ScanXComplete(x: int)
      requires 0 <= x <= chunkStates.Length0
      ensures forall a, b, c :: (0 <= a < x && 0 <= b < chunkStates.Length1 && 0 <= c < chunkStates.Length2 &&
                                 !chunkStates[a, b, c].definite) ==> (Vec3(a, b, c), chunkStates[a, b, c].entropy) in ScanX(x)
      decreases x
    {
      if x > 0 {
        ScanXComplete(x - 1);
        ScanYComplete(x - 1, chunkStates.Length1);
      }
    }

    lemma {:induction false} ScanXOrdered(x: int)
      requires 0 <= x <= chunkStates.Length0
      ensures forall j, k :: 0 <= j < k < |ScanX(x)| ==> LexBefore(ScanX(x)[j].0, ScanX(x)[k].0)
      decreases x
    {
      if x > 0 {
        ScanXOrdered(x - 1);
        ScanXSound(x - 1);
        ScanYOrdered(x - 1, chunkStates.Length1);
        ScanYSound(x - 1, chunkStates.Length1);
      }
    }

    /** `Observe` visits exactly the cells that are not collapsed, each once, in
        x, then y, then z order, recording each one's entropy. */
    lemma ScanVisitsUncollapsed()
      ensures ScanSound(Scan())
      ensures forall p :: InGrid(p) && !Cell(p).definite ==> (p, Cell(p).entropy) in Scan()
      ensures forall j, k :: 0 <= j < k < |Scan()| ==> LexBefore(Scan()[j].0, Scan()[k].0)
    {
      ScanXSound(chunkStates.Length0);
      ScanXComplete(chunkStates.Length0);
      ScanXOrdered(chunkStates.Length0);
      forall p | InGrid(p) && !Cell(p).definite ensures (p, Cell(p).entropy) in Scan() {
        assert (Vec3(p.x, p.y, p.z), chunkStates[p.x, p.y, p.z].entropy) in Scan();
      }
    }

    /** `Observe` finds no cell exactly when every cell that is not collapsed has no candidates left. */
    lemma ObserveFindsNothingIff()
      requires CellsValid()
      ensures FirstMinimum(Keys(Scan(), random, drawn)).None? <==>
              forall p :: InGrid(p) && !Cell(p).definite ==> Cell(p).compatibles == {}
    {
      var keys := Keys(Scan(), random, drawn);
      if FirstMinimum(keys).None? {
        NothingFound();
      } else {
        ChosenCell(FirstMinimum(keys).value);
      }
    }

    /** When the scan settles on no cell, every cell that is not collapsed is empty. */
    lemma NothingFound()
      requires CellsValid() && FirstMinimum(Keys(Scan(), random, drawn)).None?
      ensures forall p :: InGrid(p) && !Cell(p).definite ==> Cell(p).compatibles == {}
    {
      var scan := Scan();
      var keys := Keys(scan, random, drawn);
      FirstMinimumIsFirstLeast(keys);
      ScanXComplete(chunkStates.Length0);
      forall p | InGrid(p) && !Cell(p).definite ensures Cell(p).compatibles == {} {
        assert (Vec3(p.x, p.y, p.z), chunkStates[p.x, p.y, p.z].entropy) in scan;
        var k :| 0 <= k < |scan| && scan[k] == (p, Cell(p).entropy);
        assert keys[k].NaN?;
        assert ChunkStates.Valid(graph, entropyOf, patterns, |neighborOffset|, Cell(p));
      }
    }

    /** While no cell has run out of candidates, `Observe` fails exactly when
        every cell is collapsed. */
    lemma ObserveFailsIffAllDefinite()
      requires Valid() && NoContradiction()
      ensures FirstMinimum(Keys(Scan(), random, drawn)).None? <==> NonDefinite() == {}
    {
      ObserveFindsNothingIff();
      if NonDefinite() != {} {
        var p :| p in NonDefinite();
        assert Cell(p).compatibles != {};
      }
    }

    // ------------------------------------------------------------ construction

    /** The constructor: the grid has `size` cells (default states until `Reset`),
        the stack is empty and the random stream is the unseeded one. */
    constructor (size: Vec3, neighborOffset: seq<Vec3>, patterns: set<PatternId>, graph: seq<Adjacency>,
                 entropyOf: EntropyFn, randomFor: int -> (nat -> real),
                 enumerate: set<PatternId> -> seq<PatternId>, unseeded: nat -> real)
      requires size.x >= 0 && size.y >= 0 && size.z >= 0
      requires Covers(graph, patterns, |neighborOffset|) && PositiveWeights(graph, patterns)
      requires forall seed :: UnitStream(randomFor(seed))
      requires forall s :: ListsExactly(enumerate(s), s)
      requires UnitStream(unseeded)
      ensures Wellformed() && Sampling() && UnitStream(random)
      ensures this.size == size && this.neighborOffset == neighborOffset && this.patterns == patterns
      ensures this.graph == graph && this.entropyOf == entropyOf && this.randomFor == randomFor
      ensures this.enumerate == enumerate && random == unseeded && drawn == 0 && propagationStack == []
      ensures fresh(chunkStates)
    {
      this.size := size;
      this.patterns := patterns;
      this.graph := graph;
      this.entropyOf := entropyOf;
      this.randomFor := randomFor;
      this.enumerate := enumerate;
      this.chunkStates := new ChunkState[size.x, size.y, size.z];
      this.neighborOffset := neighborOffset;
      this.random := unseeded;
      this.drawn := 0;
      this.propagationStack := [];
    }

    /** `Resize(size)`: a new grid of default cells; `Reset` must follow before solving. */
    method Resize(newSize: Vec3)
      requires Wellformed()
      requires newSize.x >= 0 && newSize.y >= 0 && newSize.z >= 0
      modifies this
      ensures Wellformed() && size == newSize && fresh(chunkStates)
      ensures random == old(random) && drawn == old(drawn) && propagationStack == old(propagationStack)
    {
      size := newSize;
      chunkStates := new ChunkState[newSize.x, newSize.y, newSize.z];
    }

    /** `Reset(seed)`: clears the stack, reseeds the stream and gives every cell
        all patterns with one cached set per neighbour offset. */
    method Reset(seed: int)
      requires Wellformed() && Sampling()
      modifies this, chunkStates
      ensures Valid() && propagationStack == []
      ensures random == randomFor(seed) && drawn == 0
      ensures size == old(size) && chunkStates == old(chunkStates)
      ensures forall p :: InGrid(p) ==> IsInitial(graph, entropyOf, patterns, |neighborOffset|, Cell(p))
    {
      for x := 0 to size.x
        invariant Wellformed() && chunkStates == old(chunkStates) && size == old(size)
        invariant forall p :: InGrid(p) && p.x < x ==> IsInitial(graph, entropyOf, patterns, |neighborOffset|, Cell(p))
      {
        for y := 0 to size.y
          invariant Wellformed() && chunkStates == old(chunkStates) && size == old(size)
          invariant forall p :: InGrid(p) && (p.x < x || (p.x == x && p.y < y)) ==>
                      IsInitial(graph, entropyOf, patterns, |neighborOffset|, Cell(p))
        {
          for z := 0 to size.z
            invariant Wellformed() && chunkStates == old(chunkStates) && size == old(size)
            invariant forall p :: InGrid(p) && (p.x < x || (p.x == x && (p.y < y || (p.y == y && p.z < z)))) ==>
                        IsInitial(graph, entropyOf, patterns, |neighborOffset|, Cell(p))
          {
            var cell := ChunkStates.New(graph, entropyOf, patterns, |neighborOffset|);
            chunkStates[x, y, z] := cell;
          }
        }
      }
      forall p | InGrid(p) ensures ChunkStates.Valid(graph, entropyOf, patterns, |neighborOffset|, Cell(p)) {
        assert IsInitial(graph, entropyOf, patterns, |neighborOffset|, Cell(p));
      }
      propagationStack := [];
      random := randomFor(seed);
      drawn := 0;
    }

    // ------------------------------------------------------------ observation

    /** The scan of `Observe`: visits the cells in x, y, z order, drawing one jitter
        per cell that is not collapsed, and keeps the first strictly least
        `Entropy + bias`; a NaN entropy is never less than anything. */
    method ScanMinimum() returns (found: bool, minChunk: Vec3, visited: nat)
      requires Wellformed()
      ensures visited == |Scan()|
      ensures var m := FirstMinimum(Keys(Scan(), random, drawn));
              (found <==> m.Some?) && (found ==> minChunk == Scan()[m.value].0)
    {
      minChunk := Unset;
      var minEntropy: Option<real> := None;   // float.MaxValue: nothing seen yet
      var d := drawn;
      ghost var seen: seq<(Vec3, Entropy)> := [];
      for x := 0 to size.x
        invariant seen == ScanX(x)
        invariant d == drawn + |seen| && (minChunk, minEntropy) == Fold(seen, random, drawn, Unset)
      {
        d, minChunk, minEntropy, seen := ScanPlane(x, d, minChunk, minEntropy, seen);
      }
      ScanXSound(chunkStates.Length0);
      FoldIsFirstMinimum(seen, random, drawn, Unset);
      found := minChunk.x >= 0;
      visited := d - drawn;
    }

    /** The middle loop of the scan: the rows (x, 0) to (x, size.y - 1). */
    method ScanPlane(x: int, d0: nat, minChunk0: Vec3, minEntropy0: Option<real>, ghost seen0: seq<(Vec3, Entropy)>)
      returns (d: nat, minChunk: Vec3, minEntropy: Option<real>, ghost seen: seq<(Vec3, Entropy)>)
      requires Wellformed() && 0 <= x < size.x
      requires d0 == drawn + |seen0| && (minChunk0, minEntropy0) == Fold(seen0, random, drawn, Unset)
      ensures seen == seen0 + ScanY(x, size.y)
      ensures d == drawn + |seen| && (minChunk, minEntropy) == Fold(seen, random, drawn, Unset)
    {
      d, minChunk, minEntropy, seen := d0, minChunk0, minEntropy0, seen0;
      for y := 0 to size.y
        invariant seen == seen0 + ScanY(x, y)
        invariant d == drawn + |seen| && (minChunk, minEntropy) == Fold(seen, random, drawn, Unset)
      {
        ghost var start := seen;
        d, minChunk, minEntropy, seen := ScanRow(x, y, d, minChunk, minEntropy, seen);
        assert seen0 + ScanY(x, y + 1) == start + ScanZ(x, y, size.z);
      }
    }

    /** The innermost loop of the scan: the cells (x, y, 0) to (x, y, size.z - 1). */
    method ScanRow(x: int, y: int, d0: nat, minChunk0: Vec3, minEntropy0: Option<real>, ghost seen0: seq<(Vec3, Entropy)>)
      returns (d: nat, minChunk: Vec3, minEntropy: Option<real>, ghost seen: seq<(Vec3, Entropy)>)
      requires Wellformed() && 0 <= x < size.x && 0 <= y < size.y
      requires d0 == drawn + |seen0| && (minChunk0, minEntropy0) == Fold(seen0, random, drawn, Unset)
      ensures seen == seen0 + ScanZ(x, y, size.z)
      ensures d == drawn + |seen| && (minChunk, minEntropy) == Fold(seen, random, drawn, Unset)
    {
      d, minChunk, minEntropy, seen := d0, minChunk0, minEntropy0, seen0;
      for z := 0 to size.z
        invariant seen == seen0 + ScanZ(x, y, z)
        invariant d == drawn + |seen| && (minChunk, minEntropy) == Fold(seen, random, drawn, Unset)
      {
        var chunk := chunkStates[x, y, z];
        if chunk.definite {
          continue;
        }
        // a little random bias picks randomly among cells of equal entropy
        var bias := EntropyBias * random(d);
        ghost var entry := (Vec3(x, y, z), chunk.entropy);
        ghost var improved := Improve((minChunk, minEntropy), entry, random(d));
        FoldAppend(seen, entry, random, drawn, Unset);
        match chunk.entropy {
          case Finite(e) =>
            if minEntropy.None? || e + bias < minEntropy.value {
              minChunk := Vec3(x, y, z);
              minEntropy := Some(e + bias);
            }
          case NaN =>   // NaN compares below nothing
        }
        assert (minChunk, minEntropy) == improved;
        assert seen0 + ScanZ(x, y, z + 1) == seen + [entry];
        seen := seen + [entry];
        d := d + 1;
      }
    }

    /** `Observe`: takes the cell `ScanMinimum` settles on, draws once more to pick
        one of its patterns by weight, collapses the cell to it and pushes its
        position. Finds nothing (and changes no cell) when every key is NaN. */
    method Observe() returns (found: bool, chunkPos: Vec3)
      requires Valid()
      modifies this`drawn, this`propagationStack, chunkStates
      ensures Valid()
      ensures var m := FirstMinimum(Keys(old(Scan()), random, old(drawn)));
              (found <==> m.Some?) &&
              (found ==> chunkPos == old(Scan())[m.value].0)
      ensures !found ==> chunkPos == Vec3(0, 0, 0) && drawn == old(drawn) + |old(Scan())|
      ensures !found ==> propagationStack == old(propagationStack)
      ensures found ==> drawn == old(drawn) + |old(Scan())| + 1
      ensures found ==> InGrid(chunkPos) && !old(Cell(chunkPos)).definite
      ensures found ==> propagationStack == old(propagationStack) + [chunkPos]
      ensures found ==>
                var pattern := Utility.Take(enumerate(old(Cell(chunkPos)).compatibles),
                                            random(old(drawn) + |old(Scan())|), WeightFn(graph));
                && pattern.Success? && pattern.value in old(Cell(chunkPos)).compatibles
                && Cell(chunkPos).definite && Cell(chunkPos).collapsed == pattern.value
                && Cell(chunkPos).compatibles == {pattern.value} && Cell(chunkPos).entropy == Finite(0.0)
      ensures forall p :: InGrid(p) && (!found || p != chunkPos) ==> Cell(p) == old(Cell(p))
    {
      ghost var scan := Scan();
      ghost var keys := Keys(scan, random, drawn);
      var minChunk, visited;
      found, minChunk, visited := ScanMinimum();
      assert Scan() == scan;
      var d := drawn + visited;
      chunkPos := Vec3(0, 0, 0);
      if !found {
        drawn := d;
        return;
      }
      ChosenCell(FirstMinimum(keys).value);
      ObserveAt(minChunk, d);
      chunkPos := minChunk;
    }

    /** The cell the minimum scan settles on is a grid cell that is not
        collapsed and still has candidates. */
    lemma ChosenCell(k: nat)
      requires CellsValid() && k < |Scan()| && Keys(Scan(), random, drawn)[k].Finite?
      ensures InGrid(Scan()[k].0) && !Cell(Scan()[k].0).definite && Cell(Scan()[k].0).compatibles != {}
    {
      ScanXSound(chunkStates.Length0);
      var q := Scan()[k].0;
      assert ChunkStates.Valid(graph, entropyOf, patterns, |neighborOffset|, Cell(q));
    }

    /** The second half of `Observe`, once the cell at `q` is chosen: the draw
        numbered `d` picks one of its patterns by weight, the cell collapses to
        it and `q` is pushed. */
    method ObserveAt(q: Vec3, d: nat)
      requires Valid() && InGrid(q) && Cell(q).compatibles != {}
      modifies this`drawn, this`propagationStack, chunkStates
      ensures Valid() && drawn == d + 1
      ensures propagationStack == old(propagationStack) + [q]
      ensures var pattern := Utility.Take(enumerate(old(Cell(q)).compatibles), random(d), WeightFn(graph));
              && pattern.Success? && pattern.value in old(Cell(q)).compatibles
              && Cell(q).definite && Cell(q).collapsed == pattern.value
              && Cell(q).compatibles == {pattern.value} && Cell(q).entropy == Finite(0.0)
      ensures forall p :: InGrid(p) && p != q ==> Cell(p) == old(Cell(p))
    {
      var observeChunk := chunkStates[q.x, q.y, q.z];
      assert ChunkStates.Valid(graph, entropyOf, patterns, |neighborOffset|, observeChunk);
      var pattern := ChoosePattern(graph, patterns, enumerate, observeChunk.compatibles, random(d));
      drawn := d + 1;
      CollapseAndPush(q, pattern);
    }

    /** The end of `Observe`: the cell at `q` is collapsed to `pattern` and `q` pushed. */
    method CollapseAndPush(q: Vec3, pattern: PatternId)
      requires Valid() && InGrid(q) && pattern in patterns && pattern in Cell(q).compatibles
      modifies this`propagationStack, chunkStates
      ensures Valid()
      ensures propagationStack == old(propagationStack) + [q]
      ensures forall i :: 0 <= i < |Cell(q).compatibleAdjacent| ==> Cell(q).compatibleAdjacent[i] == graph[pattern].neighbors[i]
      ensures Cell(q).definite && Cell(q).collapsed == pattern
      ensures Cell(q).compatibles == {pattern} && Cell(q).entropy == Finite(0.0)
      ensures forall p :: InGrid(p) && p != q ==> Cell(p) == old(Cell(p))
    {
      var c := CollapseTo(graph, chunkStates[q.x, q.y, q.z], pattern);
      chunkStates[q.x, q.y, q.z] := c;
      propagationStack := propagationStack + [q];
      forall p | InGrid(p) ensures ChunkStates.Valid(graph, entropyOf, patterns, |neighborOffset|, Cell(p)) {
        if p != q {
          assert old(ChunkStates.Valid(graph, entropyOf, patterns, |neighborOffset|, Cell(p)));
        }
      }
      forall p, dir | InGrid(p) && Cell(p).definite && p !in propagationStack ensures ArcHolds(p, dir) {
        assert p != q && p !in old(propagationStack);
        assert old(ArcHolds(p, dir));
      }
    }

    // ------------------------------------------------------------ propagation

    /** `adjacent.UpdateCompatibleFrom(s)` on the cell at `q`, written back:
        the cell keeps only candidates in `s`, and nothing else changes. The arcs
        that held still hold, except those out of `q` once it changed. */
    method Restrict(q: Vec3, s: set<PatternId>, ghost e: Vec3, ghost from: int) returns (changed: bool)
      requires Wellformed() && CellsValid() && InGrid(q) && ArcsExcept(e, from)
      modifies chunkStates
      ensures CellsValid()
      ensures changed ==> ArcsExceptAlso(e, from, q)
      ensures !changed ==> ArcsExcept(e, from)
      ensures changed <==> !(old(Cell(q)).compatibles <= s)
      ensures Cell(q).compatibles <= s
      ensures changed ==> Cell(q).compatibles == old(Cell(q)).compatibles * s
      ensures !changed ==> Cell(q) == old(Cell(q))
      ensures Cell(q).definite == old(Cell(q)).definite
      ensures forall p :: InGrid(p) && p != q ==> Cell(p) == old(Cell(p))
      ensures changed ==> Candidates() < old(Candidates())
      ensures !changed ==> Candidates() == old(Candidates())
    {
      var adjacent := chunkStates[q.x, q.y, q.z];
      assert ChunkStates.Valid(graph, entropyOf, patterns, |neighborOffset|, adjacent) by {
        assert adjacent == Cell(q);
      }
      var updated;
      updated, changed := UpdateCompatibleFrom(graph, entropyOf, adjacent, s);
      if changed {
        RestrictionKeepsValid(graph, entropyOf, patterns, |neighborOffset|, adjacent, updated, s);
        chunkStates[q.x, q.y, q.z] := updated;
        ShrinkKeepsCells(q);
        ShrinkCandidates(q);
        ShrinkKeepsArcs((q, e, from));
      }
    }

    /** One neighbour update of propagation (and of the boundary pass): restricts
        the cell at `q` to `s` and pushes it iff that removed a candidate. */
    method RestrictAndPush(q: Vec3, s: set<PatternId>, ghost e: Vec3, ghost from: int) returns (changed: bool)
      requires Wellformed() && CellsValid() && StackInGrid() && InGrid(q) && ArcsExcept(e, from)
      modifies this`propagationStack, chunkStates
      ensures CellsValid() && StackInGrid() && ArcsExcept(e, from)
      ensures changed <==> !(old(Cell(q)).compatibles <= s)
      ensures Cell(q).compatibles <= s
      ensures changed ==> Cell(q).compatibles == old(Cell(q)).compatibles * s
      ensures changed ==> propagationStack == old(propagationStack) + [q]
      ensures !changed ==> propagationStack == old(propagationStack) && Cell(q) == old(Cell(q))
      ensures Cell(q).definite == old(Cell(q)).definite
      ensures forall p :: InGrid(p) && p != q ==> Cell(p) == old(Cell(p))
      ensures changed ==> Candidates() < old(Candidates())
      ensures !changed ==> Candidates() == old(Candidates())
    {
      changed := Restrict(q, s, e, from);
      if changed {
        propagationStack := propagationStack + [q];
      }
    }

    /** Shrinking the cell at `q` keeps every arc that held, except those out of
        `q` itself: arcs into `q` only get easier. */
    twostate lemma ShrinkKeepsArcs(arc: (Vec3, Vec3, int))
      requires old(ArcsExcept(arc.1, arc.2)) && chunkStates == old(chunkStates) && InGrid(arc.0)
      requires propagationStack == old(propagationStack)
      requires forall p :: InGrid(p) && p != arc.0 ==> Cell(p) == old(Cell(p))
      requires Cell(arc.0).compatibles <= old(Cell(arc.0)).compatibles
      ensures ArcsExceptAlso(arc.1, arc.2, arc.0)
    {
      var (q, e, from) := arc;
      forall p, d | InGrid(p) && Cell(p).definite && p !in propagationStack && p != q && (p != e || d < from)
        ensures ArcHolds(p, d)
      {
        assert old(ArcHolds(p, d));
      }
    }

    /** Replacing one cell by a valid state keeps every cell valid. */
    twostate lemma ShrinkKeepsCells(q: Vec3)
      requires old(CellsValid()) && chunkStates == old(chunkStates) && InGrid(q)
      requires forall p :: InGrid(p) && p != q ==> Cell(p) == old(Cell(p))
      requires ChunkStates.Valid(graph, entropyOf, patterns, |neighborOffset|, Cell(q))
      ensures CellsValid()
    {
      forall p | InGrid(p) ensures ChunkStates.Valid(graph, entropyOf, patterns, |neighborOffset|, Cell(p)) {
        if p != q {
          assert old(ChunkStates.Valid(graph, entropyOf, patterns, |neighborOffset|, Cell(p)));
        }
      }
    }

    /** Removing a candidate from one cell shrinks the candidate pairs. */
    twostate lemma ShrinkCandidates(q: Vec3)
      requires chunkStates == old(chunkStates) && InGrid(q)
      requires forall p :: InGrid(p) && p != q ==> Cell(p) == old(Cell(p))
      requires Cell(q).compatibles < old(Cell(q)).compatibles
      ensures Candidates() < old(Candidates())
    {
      assert exists a :: a in old(Cell(q)).compatibles && a !in Cell(q).compatibles;
      var a :| a in old(Cell(q)).compatibles && a !in Cell(q).compatibles;
      assert (q, a) in old(Candidates()) && (q, a) !in Candidates();
    }

    /** Every arc out of `p` holds: each in-grid neighbour keeps only patterns
        that `p` allows in that direction. */
    ghost predicate ArcsOut(p: Vec3)
      reads this`chunkStates, chunkStates
    {
      forall d :: 0 <= d < |neighborOffset| ==> ArcHolds(p, d)
    }

    /** No offset of the table is zero, so no cell is its own neighbour. */
    ghost predicate NoZeroOffset() {
      forall d :: 0 <= d < |neighborOffset| ==> neighborOffset[d] != Vec3(0, 0, 0)
    }

    /** The candidates `s` of the cell at `p` that survive directions `0 .. n-1`
        of one pop of `from`, whose cached adjacency is `adj`: each direction
        that reaches `p` keeps only what `adj` allows there. */
    ghost function Swept(s: set<PatternId>, from: Vec3, adj: seq<set<PatternId>>, p: Vec3, n: nat): set<PatternId>
      requires n <= |neighborOffset|
    {
      if n == 0 then s
      else
        var t := Swept(s, from, adj, p, n - 1);
        if from.Plus(neighborOffset[n - 1]) == p && n - 1 < |adj| then t * adj[n - 1] else t
    }

    /** A candidate survives the pop iff every direction that reaches `p` allows it. */
    lemma {:induction false} SweptMembership(s: set<PatternId>, from: Vec3, adj: seq<set<PatternId>>, p: Vec3, n: nat, a: PatternId)
      requires n <= |neighborOffset|
      ensures a in Swept(s, from, adj, p, n) <==>
                a in s && forall d :: 0 <= d < n && d < |adj| && from.Plus(neighborOffset[d]) == p ==> a in adj[d]
    {
      if n > 0 {
        SweptMembership(s, from, adj, p, n - 1, a);
      }
    }

    /** A cell whose state did not change keeps its arcs while every cell only shrinks. */
    twostate lemma ArcsOutKept(p: Vec3)
      requires old(ArcsOut(p)) && chunkStates == old(chunkStates)
      requires InGrid(p) ==> Cell(p) == old(Cell(p))
      requires forall q :: InGrid(q) ==> Cell(q).compatibles <= old(Cell(q)).compatibles
      ensures ArcsOut(p)
    {
      forall d | 0 <= d < |neighborOffset| ensures ArcHolds(p, d) {
        assert old(ArcHolds(p, d));
      }
    }

    /** One pop of `PropagateProgressive`: every in-grid neighbour of the popped
        cell is restricted to what the popped cell allows in that direction, and
        pushed when that removed a candidate. With no zero offset the popped cell
        itself is untouched, and every cell ends as `Swept` from its old state. */
    method PropagateStep()
      requires Valid() && |propagationStack| > 0
      modifies this`propagationStack, chunkStates
      ensures Valid()
      ensures forall p :: InGrid(p) ==> Cell(p).definite == old(Cell(p)).definite
      ensures forall p :: InGrid(p) ==> Cell(p).compatibles <= old(Cell(p)).compatibles
      ensures Candidates() < old(Candidates()) ||
              (Candidates() == old(Candidates()) && propagationStack == old(propagationStack)[..|old(propagationStack)| - 1])
      ensures |propagationStack| >= |old(propagationStack)| - 1
      ensures propagationStack[..|old(propagationStack)| - 1] == old(propagationStack)[..|old(propagationStack)| - 1]
      ensures forall k :: |old(propagationStack)| - 1 <= k < |propagationStack| ==>
                var x := propagationStack[k]; InGrid(x) && Cell(x).compatibles < old(Cell(x)).compatibles
      ensures forall p :: InGrid(p) && Cell(p) != old(Cell(p)) ==> p in propagationStack[|old(propagationStack)| - 1..]
      ensures var c := old(propagationStack[|propagationStack| - 1]);
              c in propagationStack || ArcsOut(c)
      ensures var c := old(propagationStack[|propagationStack| - 1]);
              NoZeroOffset() ==> forall p :: InGrid(p) ==>
                Cell(p).compatibles == Swept(old(Cell(p)).compatibles, c, old(Cell(c)).compatibleAdjacent, p, |neighborOffset|)
    {
      PopAndSweep();
      var n := |old(propagationStack)| - 1;
      if |propagationStack| > n {
        FewerCandidates(propagationStack[n]);
      } else {
        assert propagationStack == old(propagationStack)[..n];
        SameCandidates();
      }
    }

    /** `PropagateStep` without the measure: the pop and the sweep over every direction. */
    method PopAndSweep()
      requires Wellformed() && CellsValid() && StackInGrid() && ArcConsistent() && |propagationStack| > 0
      modifies this`propagationStack, chunkStates
      ensures Wellformed() && CellsValid() && StackInGrid() && ArcConsistent()
      ensures forall p :: InGrid(p) ==> Cell(p).definite == old(Cell(p)).definite
      ensures forall p :: InGrid(p) ==> Cell(p).compatibles <= old(Cell(p)).compatibles
      ensures |propagationStack| >= |old(propagationStack)| - 1
      ensures propagationStack[..|old(propagationStack)| - 1] == old(propagationStack)[..|old(propagationStack)| - 1]
      ensures forall k :: |old(propagationStack)| - 1 <= k < |propagationStack| ==>
                var x := propagationStack[k]; InGrid(x) && Cell(x).compatibles < old(Cell(x)).compatibles
      ensures forall p :: InGrid(p) && Cell(p) != old(Cell(p)) ==> p in propagationStack[|old(propagationStack)| - 1..]
      ensures var c := old(propagationStack[|propagationStack| - 1]);
              c in propagationStack || ArcsOut(c)
      ensures var c := old(propagationStack[|propagationStack| - 1]);
              NoZeroOffset() ==> forall p :: InGrid(p) ==>
                Cell(p).compatibles == Swept(old(Cell(p)).compatibles, c, old(Cell(c)).compatibleAdjacent, p, |neighborOffset|)
    {
      var changedPos := propagationStack[|propagationStack| - 1];
      propagationStack := propagationStack[..|propagationStack| - 1];
      assert old(propagationStack) == propagationStack + [changedPos];
      assert ArcsExcept(changedPos, 0) by {
        forall p, d | InGrid(p) && Cell(p).definite && p !in propagationStack && p != changedPos
          ensures ArcHolds(p, d)
        {
          assert p !in old(propagationStack);
        }
      }
      SweepFrom(changedPos);
      AllArcsDone(changedPos);
    }

    /** A sweep that covered every direction, stated against the state before
        it. The argument is `(changedPos, |neighborOffset|, _, base, c0, orig)`. */
    twostate lemma PopFinished(step: PopStep)
      requires chunkStates == old(chunkStates) && old(InGrid(step.changedPos))
      requires step.base == old(propagationStack) && step.c0 == old(Cell(step.changedPos))
      requires forall p :: InGrid(p) ==> p in step.orig && step.orig[p] == old(Cell(p))
      requires step.dir == |neighborOffset| && PopProgress(step.changedPos, step.base, step.c0, step.orig, step.dir)
      ensures |propagationStack| >= |old(propagationStack)|
      ensures propagationStack[..|old(propagationStack)|] == old(propagationStack)
      ensures forall k :: |old(propagationStack)| <= k < |propagationStack| ==>
                var x := propagationStack[k]; InGrid(x) && Cell(x).compatibles < old(Cell(x)).compatibles
      ensures forall p :: InGrid(p) ==> Cell(p).definite == old(Cell(p)).definite
      ensures forall p :: InGrid(p) ==> Cell(p).compatibles <= old(Cell(p)).compatibles
      ensures forall p :: InGrid(p) && Cell(p) != old(Cell(p)) ==> p in propagationStack[|old(propagationStack)|..]
      ensures step.changedPos in propagationStack || ArcsOut(step.changedPos)
      ensures NoZeroOffset() ==> forall p :: InGrid(p) ==>
                Cell(p).compatibles == Swept(old(Cell(p)).compatibles, step.changedPos, old(Cell(step.changedPos)).compatibleAdjacent, p, |neighborOffset|)
    {
      var PopStep(changedPos, dir, _, base, c0, orig) := step;
      forall k | |base| <= k < |propagationStack|
        ensures var x := propagationStack[k]; InGrid(x) && Cell(x).compatibles < old(Cell(x)).compatibles
      {
        var x := propagationStack[k];
        assert InGrid(x) && Cell(x).compatibles < orig[x].compatibles;
      }
      if changedPos !in propagationStack {
        forall d | 0 <= d < |neighborOffset| ensures ArcHolds(changedPos, d) {
        }
      }
    }

    /** Every direction of `e` handled: all arcs hold off the stack. */
    lemma AllArcsDone(e: Vec3)
      requires ArcsExcept(e, |neighborOffset|)
      ensures ArcConsistent()
    {
      forall p, d | InGrid(p) && Cell(p).definite && p !in propagationStack ensures ArcHolds(p, d) {
        if p == e && d >= |neighborOffset| {
          assert !(0 <= d < |neighborOffset|);
        }
      }
    }

    /** Candidates only lost, and `x` lost one: fewer candidates overall. */
    twostate lemma FewerCandidates(x: Vec3)
      requires chunkStates == old(chunkStates)
      requires forall p :: InGrid(p) ==> Cell(p).compatibles <= old(Cell(p)).compatibles
      requires InGrid(x) && Cell(x).compatibles < old(Cell(x)).compatibles
      ensures Candidates() < old(Candidates())
    {
      var a :| a in old(Cell(x)).compatibles && a !in Cell(x).compatibles;
      assert (x, a) in old(Candidates()) && (x, a) !in Candidates();
    }

    /** No cell changed: the same candidates. */
    twostate lemma SameCandidates()
      requires chunkStates == old(chunkStates)
      requires forall p :: InGrid(p) ==> Cell(p) == old(Cell(p))
      ensures Candidates() == old(Candidates())
    {
    }

    /** The direction loop of one pop: every in-grid neighbour of the popped
        cell `changedPos` keeps only what `changedPos` allows in that direction
        and is pushed when that removed a candidate. Stated against the state
        just after the pop. */
    method SweepFrom(changedPos: Vec3)
      requires Wellformed() && CellsValid() && StackInGrid() && ArcsExcept(changedPos, 0) && InGrid(changedPos)
      modifies this`propagationStack, chunkStates
      ensures Wellformed() && CellsValid() && StackInGrid() && ArcsExcept(changedPos, |neighborOffset|)
      ensures forall p :: InGrid(p) ==> Cell(p).definite == old(Cell(p)).definite
      ensures forall p :: InGrid(p) ==> Cell(p).compatibles <= old(Cell(p)).compatibles
      ensures |propagationStack| >= |old(propagationStack)|
      ensures propagationStack[..|old(propagationStack)|] == old(propagationStack)
      ensures forall k :: |old(propagationStack)| <= k < |propagationStack| ==>
                var x := propagationStack[k]; InGrid(x) && Cell(x).compatibles < old(Cell(x)).compatibles
      ensures forall p :: InGrid(p) && Cell(p) != old(Cell(p)) ==> p in propagationStack[|old(propagationStack)|..]
      ensures changedPos in propagationStack || ArcsOut(changedPos)
      ensures NoZeroOffset() ==> forall p :: InGrid(p) ==>
                Cell(p).compatibles == Swept(old(Cell(p)).compatibles, changedPos, old(Cell(changedPos)).compatibleAdjacent, p, |neighborOffset|)
    {
      ghost var base := propagationStack;
      ghost var c0 := Cell(changedPos);
      ghost var orig := map p | p in Box(size) :: Cell(p);
      assert PopProgress(changedPos, base, c0, orig, 0) by {
        forall p | InGrid(p) ensures p in orig && Cell(p) == orig[p] {
          assert p in Box(size);
        }
      }
      SweepLoop(changedPos, base, c0, orig);
      forall p | InGrid(p) ensures p in orig && orig[p] == old(Cell(p)) {
        assert p in Box(size);
      }
      PopFinished(PopStep(changedPos, |neighborOffset|, false, base, c0, orig));
    }

    /** The loop of `SweepFrom` over the directions, in terms of the pop's state. */
    method SweepLoop(changedPos: Vec3, ghost base: seq<Vec3>, ghost c0: ChunkState, ghost orig: map<Vec3, ChunkState>)
      requires Wellformed() && CellsValid() && StackInGrid() && ArcsExcept(changedPos, 0)
      requires PopProgress(changedPos, base, c0, orig, 0)
      modifies this`propagationStack, chunkStates
      ensures Wellformed() && CellsValid() && StackInGrid() && ArcsExcept(changedPos, |neighborOffset|)
      ensures PopProgress(changedPos, base, c0, orig, |neighborOffset|)
    {
      for dir := 0 to |neighborOffset|
        invariant Wellformed() && CellsValid() && StackInGrid() && ArcsExcept(changedPos, dir)
        invariant PopProgress(changedPos, base, c0, orig, dir)
      {
        var changed := PropagateNext(changedPos, dir, base, c0, orig);
      }
    }

    /** The state of one pop after directions `0 .. dir-1`: `orig` holds every
        cell as it was when `changedPos` (then in state `c0`) was popped and `base`
        is the stack below it. Every push since is a cell that lost a candidate,
        every changed cell was pushed, and the arcs out of `changedPos` handled so
        far hold unless it was pushed again. */
    ghost predicate PopProgress(changedPos: Vec3, base: seq<Vec3>, c0: ChunkState, orig: map<Vec3, ChunkState>, dir: int)
      reads this`chunkStates, this`propagationStack, chunkStates
    {
      && StackGrown(base, orig)
      && CellsShrunk(orig)
      && ChangesPushed(base, orig)
      && PopArcs(changedPos, dir)
      && PopSwept(changedPos, c0, orig, dir)
    }

    /** The stack is `base` followed by cells that lost a candidate since `orig`. */
    ghost predicate StackGrown(base: seq<Vec3>, orig: map<Vec3, ChunkState>)
      reads this`chunkStates, this`propagationStack, chunkStates
    {
      && |propagationStack| >= |base| && propagationStack[..|base|] == base
      && (forall k :: |base| <= k < |propagationStack| ==>
            var x := propagationStack[k]; InGrid(x) && x in orig && Cell(x).compatibles < orig[x].compatibles)
    }

    /** Every cell only lost candidates since `orig`. */
    ghost predicate CellsShrunk(orig: map<Vec3, ChunkState>)
      reads this`chunkStates, chunkStates
    {
      forall p :: InGrid(p) ==> p in orig && Cell(p).compatibles <= orig[p].compatibles && Cell(p).definite == orig[p].definite
    }

    /** Every cell changed since `orig` was pushed above `base`. */
    ghost predicate ChangesPushed(base: seq<Vec3>, orig: map<Vec3, ChunkState>)
      reads this`chunkStates, this`propagationStack, chunkStates
    {
      |propagationStack| >= |base| &&
      forall p :: InGrid(p) && p in orig && Cell(p) != orig[p] ==> p in propagationStack[|base|..]
    }

    /** The arcs out of `changedPos` in directions below `dir` hold, unless it is on the stack. */
    ghost predicate PopArcs(changedPos: Vec3, dir: int)
      reads this`chunkStates, this`propagationStack, chunkStates
    {
      && 0 <= dir <= |neighborOffset| && InGrid(changedPos)
      && (changedPos in propagationStack || forall d :: 0 <= d < dir ==> ArcHolds(changedPos, d))
    }

    /** With no zero offset, `changedPos` is still `c0` and every cell is `Swept`
        from `orig` over directions below `dir`. */
    ghost predicate PopSwept(changedPos: Vec3, c0: ChunkState, orig: map<Vec3, ChunkState>, dir: int)
      reads this`chunkStates, chunkStates
    {
      && 0 <= dir <= |neighborOffset|
      && (NoZeroOffset() ==> InGrid(changedPos) && Cell(changedPos) == c0)
      && (NoZeroOffset() ==> forall p :: InGrid(p) ==>
            (p in orig && Cell(p).compatibles == Swept(orig[p].compatibles, changedPos, c0.compatibleAdjacent, p, dir)))
    }

    /** One iteration of the direction loop of a pop: `PropagateDirection`, and
        the pop's state extends to one more direction. */
    method PropagateNext(changedPos: Vec3, dir: int, ghost base: seq<Vec3>, ghost c0: ChunkState, ghost orig: map<Vec3, ChunkState>)
      returns (changed: bool)
      requires Wellformed() && CellsValid() && StackInGrid() && ArcsExcept(changedPos, dir)
      requires PopProgress(changedPos, base, c0, orig, dir) && dir < |neighborOffset|
      modifies this`propagationStack, chunkStates
      ensures Wellformed() && CellsValid() && StackInGrid() && ArcsExcept(changedPos, dir + 1)
      ensures PopProgress(changedPos, base, c0, orig, dir + 1)
    {
      changed := PropagateDirection(changedPos, dir);
      var step := PopStep(changedPos, dir, changed, base, c0, orig);
      PushesAdvance(step);
      ChangesAdvance(step);
      ArcsAdvance(step);
      SweptAdvance(step);
    }

    /** What `PropagateDirection(changedPos, dir)` did between `old` and now. */
    twostate predicate DirectionDone(changedPos: Vec3, dir: int, changed: bool)
      requires 0 <= dir < |neighborOffset|
      reads this`chunkStates, this`propagationStack, chunkStates
    {
      var q := changedPos.Plus(neighborOffset[dir]);
      && chunkStates == old(chunkStates)
      && old(InGrid(changedPos)) && dir < |old(Cell(changedPos)).compatibleAdjacent|
      && (InGrid(q) ==> Cell(q).compatibles == old(Cell(q)).compatibles * old(Cell(changedPos)).compatibleAdjacent[dir])
      && (changed ==> InGrid(q) && Cell(q).compatibles < old(Cell(q)).compatibles)
      && propagationStack == old(propagationStack) + (if changed then [q] else [])
      && (forall p :: InGrid(p) && (p != q || !changed) ==> Cell(p) == old(Cell(p)))
      && (forall p :: InGrid(p) ==> Cell(p).compatibles <= old(Cell(p)).compatibles && Cell(p).definite == old(Cell(p)).definite)
    }

    /** The stack part of a pop's state after one more direction. */
    twostate lemma PushesAdvance(step: PopStep)
      requires 0 <= step.dir < |neighborOffset|
      requires old(StackGrown(step.base, step.orig) && CellsShrunk(step.orig))
      requires DirectionDone(step.changedPos, step.dir, step.changed)
      ensures StackGrown(step.base, step.orig) && CellsShrunk(step.orig)
    {
      var PopStep(changedPos, dir, changed, base, c0, orig) := step;
      assert propagationStack[..|old(propagationStack)|] == old(propagationStack);
      assert propagationStack[..|base|] == base by {
        assert propagationStack[..|base|] == propagationStack[..|old(propagationStack)|][..|base|];
      }
      forall k | |base| <= k < |propagationStack|
        ensures var x := propagationStack[k]; InGrid(x) && x in orig && Cell(x).compatibles < orig[x].compatibles
      {
        if k < |old(propagationStack)| {
          assert propagationStack[k] == old(propagationStack)[k];
        }
      }
      forall p | InGrid(p)
        ensures p in orig && Cell(p).compatibles <= orig[p].compatibles && Cell(p).definite == orig[p].definite
      {
        assert old(InGrid(p));
      }
    }

    /** Changed cells stay pushed after one more direction. */
    twostate lemma ChangesAdvance(step: PopStep)
      requires 0 <= step.dir < |neighborOffset|
      requires old(ChangesPushed(step.base, step.orig))
      requires DirectionDone(step.changedPos, step.dir, step.changed)
      ensures ChangesPushed(step.base, step.orig)
    {
      var PopStep(changedPos, dir, changed, base, c0, orig) := step;
      var q := changedPos.Plus(neighborOffset[dir]);
      forall p | InGrid(p) && p in orig && Cell(p) != orig[p] ensures p in propagationStack[|base|..] {
        if Cell(p) == old(Cell(p)) {
          assert p in old(propagationStack)[|base|..];
          var i :| |base| <= i < |old(propagationStack)| && old(propagationStack)[i] == p;
          assert propagationStack[i] == p;
        } else {
          assert p == q && changed;
          assert propagationStack[|propagationStack| - 1] == q;
        }
      }
    }

    /** The arcs out of the popped cell after one more direction. */
    twostate lemma ArcsAdvance(step: PopStep)
      requires 0 <= step.dir < |neighborOffset|
      requires old(PopArcs(step.changedPos, step.dir))
      requires DirectionDone(step.changedPos, step.dir, step.changed)
      ensures PopArcs(step.changedPos, step.dir + 1)
    {
      var PopStep(changedPos, dir, changed, base, c0, orig) := step;
      if changedPos !in propagationStack {
        assert Cell(changedPos) == old(Cell(changedPos));
        forall d | 0 <= d <= dir ensures ArcHolds(changedPos, d) {
          if d < dir {
            assert old(ArcHolds(changedPos, d));
          }
        }
      }
    }

    /** The exact candidate sets after one more direction. */
    twostate lemma SweptAdvance(step: PopStep)
      requires 0 <= step.dir < |neighborOffset|
      requires old(PopSwept(step.changedPos, step.c0, step.orig, step.dir))
      requires DirectionDone(step.changedPos, step.dir, step.changed)
      ensures PopSwept(step.changedPos, step.c0, step.orig, step.dir + 1)
    {
      var PopStep(changedPos, dir, changed, base, c0, orig) := step;
      var q := changedPos.Plus(neighborOffset[dir]);
      if NoZeroOffset() {
        assert q != changedPos by {
          assert neighborOffset[dir] != Vec3(0, 0, 0);
        }
        assert Cell(changedPos) == c0;
        forall p | InGrid(p)
          ensures p in orig && Cell(p).compatibles == Swept(orig[p].compatibles, changedPos, c0.compatibleAdjacent, p, dir + 1)
        {
          assert old(InGrid(p));
          assert old(Cell(p).compatibles) == Swept(orig[p].compatibles, changedPos, c0.compatibleAdjacent, p, dir);
        }
      }
    }

    /** The body of the direction loop of `PropagateProgressive`: the neighbour of
        `changedPos` in direction `dir`, when inside the grid, keeps only what
        `changedPos` allows there, and is pushed if that removed a candidate. */
    method PropagateDirection(changedPos: Vec3, dir: int) returns (changed: bool)
      requires Wellformed() && CellsValid() && StackInGrid() && ArcsExcept(changedPos, dir)
      requires InGrid(changedPos) && 0 <= dir < |neighborOffset|
      modifies this`propagationStack, chunkStates
      ensures CellsValid() && StackInGrid() && ArcsExcept(changedPos, dir + 1)
      ensures forall p :: InGrid(p) ==> Cell(p).definite == old(Cell(p)).definite
      ensures forall p :: InGrid(p) ==> Cell(p).compatibles <= old(Cell(p)).compatibles
      ensures changed ==> Candidates() < old(Candidates())
      ensures !changed ==> Candidates() == old(Candidates()) && propagationStack == old(propagationStack)
      ensures var q := changedPos.Plus(neighborOffset[dir]);
              InGrid(q) ==> Cell(q).compatibles == old(Cell(q)).compatibles * old(Cell(changedPos)).compatibleAdjacent[dir]
      ensures var q := changedPos.Plus(neighborOffset[dir]);
              changed <==> InGrid(q) && !(old(Cell(q)).compatibles <= old(Cell(changedPos)).compatibleAdjacent[dir])
      ensures propagationStack == old(propagationStack) + (if changed then [changedPos.Plus(neighborOffset[dir])] else [])
      ensures forall p :: InGrid(p) && (p != changedPos.Plus(neighborOffset[dir]) || !changed) ==> Cell(p) == old(Cell(p))
    {
      var delta := neighborOffset[dir];
      var adjacentPos := changedPos.Plus(delta);
      if !Contains3(size, adjacentPos) {
        assert !InGrid(adjacentPos);
        ExtendArcs(changedPos, dir);
        return false;
      }
      // The source's copy of the popped cell shares its sets with the stored
      // one, so it always sees the current cached adjacency.
      var chunk := chunkStates[changedPos.x, changedPos.y, changedPos.z];
      assert chunk == old(Cell(changedPos)) && InGrid(adjacentPos);
      assert |chunk.compatibleAdjacent| == |neighborOffset| by {
        assert ChunkStates.Valid(graph, entropyOf, patterns, |neighborOffset|, Cell(changedPos));
      }
      changed := RestrictAndPush(adjacentPos, chunk.compatibleAdjacent[dir], changedPos, dir);
      assert changedPos in propagationStack || Cell(changedPos) == chunk;
      ExtendArcs(changedPos, dir);
    }

    /** Once the arc `(e, from)` holds (or `e` is back on the stack), the exception
        for `e` can start one direction later. */
    lemma ExtendArcs(e: Vec3, from: int)
      requires ArcsExcept(e, from)
      requires ArcHolds(e, from) || e in propagationStack
      ensures ArcsExcept(e, from + 1)
    {
    }

    /** `PropagateProgressive` driven to completion (the coroutine runner's job):
        pops until the stack is empty; it ends because every push follows the
        removal of a candidate. */
    method Propagate()
      requires Valid()
      modifies this`propagationStack, chunkStates
      ensures Valid() && propagationStack == []
      ensures forall p :: InGrid(p) ==> Cell(p).definite == old(Cell(p)).definite
      ensures forall p :: InGrid(p) ==> Cell(p).compatibles <= old(Cell(p)).compatibles
      ensures forall k :: 0 <= k < |old(propagationStack)| ==> ArcsOut(old(propagationStack)[k])
      ensures forall p :: InGrid(p) && Cell(p) != old(Cell(p)) ==> ArcsOut(p)
    {
      ghost var settled: set<Vec3> := {};
      while |propagationStack| > 0
        invariant Valid()
        invariant forall p :: InGrid(p) ==> Cell(p).definite == old(Cell(p)).definite
        invariant forall p :: InGrid(p) ==> Cell(p).compatibles <= old(Cell(p)).compatibles
        invariant forall p :: p in settled && p !in propagationStack ==> ArcsOut(p)
        invariant forall k :: 0 <= k < |old(propagationStack)| ==>
                    old(propagationStack)[k] in settled || old(propagationStack)[k] in propagationStack
        invariant forall p :: InGrid(p) && Cell(p) != old(Cell(p)) ==> p in settled || p in propagationStack
        decreases Candidates(), |propagationStack|
      {
        ghost var c := propagationStack[|propagationStack| - 1];
        label before:
        PropagateStep();
        SettledKept@before(settled);
        settled := settled + {c};
      }
    }

    /** Across one `PropagateStep`: the cells settled so far keep their arcs, the
        popped cell joins them, and every cell that was on the stack or changed is
        still on it or settled. */
    twostate lemma SettledKept(settled: set<Vec3>)
      requires old(|propagationStack|) > 0 && chunkStates == old(chunkStates)
      requires forall p :: p in settled && p !in old(propagationStack) ==> old(ArcsOut(p))
      requires forall p :: InGrid(p) ==> Cell(p).compatibles <= old(Cell(p)).compatibles
      requires |propagationStack| >= |old(propagationStack)| - 1
      requires propagationStack[..|old(propagationStack)| - 1] == old(propagationStack)[..|old(propagationStack)| - 1]
      requires forall p :: InGrid(p) && Cell(p) != old(Cell(p)) ==> p in propagationStack[|old(propagationStack)| - 1..]
      requires var c := old(propagationStack[|propagationStack| - 1]);
               c in propagationStack || ArcsOut(c)
      ensures var c := old(propagationStack[|propagationStack| - 1]);
              forall p :: p in settled + {c} && p !in propagationStack ==> ArcsOut(p)
      ensures var c := old(propagationStack[|propagationStack| - 1]);
              forall p :: p in old(propagationStack) ==> p in propagationStack || p == c
      ensures forall p :: InGrid(p) && Cell(p) != old(Cell(p)) ==> p in propagationStack
    {
      var n := |old(propagationStack)| - 1;
      var c := old(propagationStack[|propagationStack| - 1]);
      forall p | p in old(propagationStack) ensures p in propagationStack || p == c {
        var i :| 0 <= i < |old(propagationStack)| && old(propagationStack)[i] == p;
        if i < n {
          assert propagationStack[..n][i] == p;
        }
      }
      forall p | p in settled + {c} && p !in propagationStack ensures ArcsOut(p) {
        if p != c {
          ArcsOutKept(p);
        }
      }
    }

    // ------------------------------------------------------------ the run

    /** One round of `RunProgressive`: `Observe`, and when it found a cell,
        propagation to a fixed point. */
    method Step() returns (found: bool, chunkPos: Vec3)
      requires Valid()
      modifies this`drawn, this`propagationStack, chunkStates
      ensures Valid()
      ensures forall p :: InGrid(p) && old(Cell(p)).definite ==> Cell(p).definite
      ensures found ==> propagationStack == []
      ensures found ==> InGrid(chunkPos) && !old(Cell(chunkPos)).definite && Cell(chunkPos).definite
      ensures found ==> NonDefinite() < old(NonDefinite())
      ensures !found ==> propagationStack == old(propagationStack) && Finished()
      ensures !found ==> forall p :: InGrid(p) ==> Cell(p) == old(Cell(p))
    {
      ObserveFindsNothingIff();
      found, chunkPos := Observe();
      if !found {
        return;
      }
      label observed:
      Propagate();
      assert chunkPos in old(NonDefinite()) && chunkPos !in NonDefinite();
      assert forall p :: p in NonDefinite() ==> p in old(NonDefinite()) by {
        forall p | p in NonDefinite() ensures p in old(NonDefinite()) {
          assert !old@observed(Cell(p)).definite;
        }
      }
    }

    /** `RunProgressive` enumerated to its end: the positions it yields, one per
        round, until `Observe` finds nothing. Every yielded cell was open and is
        now collapsed (so none repeats), and the run ends with every cell
        collapsed or out of candidates; then, if none ran out and nothing is left
        to propagate, the grid satisfies every adjacency rule. */
    method RunProgressive() returns (yielded: seq<Vec3>)
      requires Valid()
      modifies this`drawn, this`propagationStack, chunkStates
      ensures Valid() && Finished()
      ensures yielded != [] ==> propagationStack == []
      ensures yielded == [] ==> propagationStack == old(propagationStack)
      ensures forall k :: 0 <= k < |yielded| ==>
                InGrid(yielded[k]) && !old(Cell(yielded[k])).definite && Cell(yielded[k]).definite
      ensures forall j, k :: 0 <= j < k < |yielded| ==> yielded[j] != yielded[k]
      ensures propagationStack == [] && NoContradiction() ==> Solved()
    {
      yielded := [];
      while true
        invariant Valid()
        invariant forall p :: InGrid(p) && old(Cell(p)).definite ==> Cell(p).definite
        invariant yielded != [] ==> propagationStack == []
        invariant yielded == [] ==> propagationStack == old(propagationStack)
        invariant forall k :: 0 <= k < |yielded| ==>
                    InGrid(yielded[k]) && !old(Cell(yielded[k])).definite && Cell(yielded[k]).definite
        invariant forall j, k :: 0 <= j < k < |yielded| ==> yielded[j] != yielded[k]
        decreases NonDefinite()
      {
        var found, chunkPos := Step();
        if !found {
          break;
        }
        yielded := yielded + [chunkPos];
      }
      if propagationStack == [] && NoContradiction() {
        FinishedIsSolved();
      }
    }

    // ------------------------------------------------------------ the boundary pass

    /** The arc exception for a position outside the grid exempts nothing. */
    lemma ArcsExceptOutside()
      ensures ArcsExcept(Vec3(-1, -1, -1), 0) <==> ArcConsistent()
    {
    }

    /** The pass of `SetBoundaryPattern` for direction `idx`: every cell on the
        border facing it is restricted to `bound.neighbors[contraryIdx]` and pushed
        when that removed a candidate. When `contraryIdx` does not index
        `bound.neighbors`, the first border cell throws before anything changes. */
    method RestrictBorder(idx: int, bound: Adjacency) returns (ok: bool)
      requires Wellformed() && CellsValid() && StackInGrid() && ArcConsistent() && 0 <= idx < |neighborOffset|
      modifies this`propagationStack, chunkStates
      ensures CellsValid() && StackInGrid() && ArcConsistent()
      ensures forall p :: InGrid(p) ==> Cell(p).compatibles <= old(Cell(p)).compatibles
      ensures ok <==> BorderIndexed(size, neighborOffset, bound, idx)
      ensures ok ==> BorderRestricted(bound, idx)
      ensures ok ==> forall p :: p in BorderCells(size, neighborOffset[idx]) ==>
                0 <= Contrary(neighborOffset, idx) < |bound.neighbors| &&
                Cell(p).compatibles == old(Cell(p)).compatibles * bound.neighbors[Contrary(neighborOffset, idx)]
      ensures forall p :: InGrid(p) && (!ok || p !in BorderCells(size, neighborOffset[idx])) ==> Cell(p) == old(Cell(p))
      ensures forall p :: InGrid(p) ==> Cell(p).definite == old(Cell(p)).definite
      ensures !ok ==> propagationStack == old(propagationStack)
      ensures |propagationStack| >= |old(propagationStack)|
      ensures propagationStack[..|old(propagationStack)|] == old(propagationStack)
      ensures forall k :: |old(propagationStack)| <= k < |propagationStack| ==>
                var x := propagationStack[k]; InGrid(x) && Cell(x).compatibles < old(Cell(x)).compatibles
      ensures forall p :: InGrid(p) && Cell(p) != old(Cell(p)) ==> p in propagationStack[|old(propagationStack)|..]
      ensures forall j, k :: |old(propagationStack)| <= j < k < |propagationStack| ==> propagationStack[j] != propagationStack[k]
    {
      var offset := neighborOffset[idx];
      var contraryIdx := Utility.IndexOf(neighborOffset, offset.Negate());
      var border := BorderCells(size, offset);
      if !(0 <= contraryIdx < |bound.neighbors|) {
        // `boundPattern.Neighbors[contraryIdx]` throws on the first border cell,
        // before that cell changes
        return border == {};
      }
      RestrictCells(border, bound.neighbors[contraryIdx]);
      ok := true;
    }

    /** Every cell on the border facing direction `i` keeps only patterns `bound` allows there. */
    ghost predicate BorderRestricted(bound: Adjacency, i: int)
      reads this`size, this`chunkStates, chunkStates
      requires 0 <= i < |neighborOffset|
    {
      forall p :: p in BorderCells(size, neighborOffset[i]) ==>
        InGrid(p) && 0 <= Contrary(neighborOffset, i) < |bound.neighbors| && Cell(p).compatibles <= bound.neighbors[Contrary(neighborOffset, i)]
    }

    /** The loop of one border pass: every cell of `cells`, in an order the
        model leaves open, keeps only `allowed` and is pushed when that removed
        a candidate. No other cell changes, and the pushes are exactly the cells
        that changed, each once. */
    method RestrictCells(cells: set<Vec3>, allowed: set<PatternId>)
      requires Wellformed() && CellsValid() && StackInGrid() && ArcConsistent()
      requires forall p :: p in cells ==> InGrid(p)
      modifies this`propagationStack, chunkStates
      ensures CellsValid() && StackInGrid() && ArcConsistent()
      ensures forall p :: InGrid(p) ==> Cell(p).compatibles <= old(Cell(p)).compatibles
      ensures forall p :: p in cells ==> Cell(p).compatibles <= allowed
      ensures forall p :: p in cells ==> Cell(p).compatibles == old(Cell(p)).compatibles * allowed
      ensures forall p :: InGrid(p) && p !in cells ==> Cell(p) == old(Cell(p))
      ensures forall p :: InGrid(p) ==> Cell(p).definite == old(Cell(p)).definite
      ensures |propagationStack| >= |old(propagationStack)|
      ensures propagationStack[..|old(propagationStack)|] == old(propagationStack)
      ensures forall k :: |old(propagationStack)| <= k < |propagationStack| ==>
                var x := propagationStack[k]; x in cells && Cell(x).compatibles < old(Cell(x)).compatibles
      ensures forall p :: InGrid(p) && Cell(p) != old(Cell(p)) ==> p in propagationStack[|old(propagationStack)|..]
      ensures forall j, k :: |old(propagationStack)| <= j < k < |propagationStack| ==> propagationStack[j] != propagationStack[k]
    {
      ghost var base := propagationStack;
      ghost var orig := map p | p in Box(size) :: Cell(p);
      var rest := cells;
      ArcsExceptOutside();
      assert CellsDone({}, allowed, base, orig) by {
        forall p | InGrid(p) ensures p in orig && Cell(p) == orig[p] {
          assert p in Box(size);
        }
      }
      while rest != {}
        invariant rest <= cells
        invariant CellsValid() && StackInGrid() && ArcsExcept(Vec3(-1, -1, -1), 0)
        invariant CellsDone(cells - rest, allowed, base, orig)
        decreases rest
      {
        var pos :| pos in rest;
        RestrictOne(pos, cells - rest, allowed, base, orig);
        MoveDone(cells, rest, pos);
        rest := rest - {pos};
      }
      ArcsExceptOutside();
      forall p | InGrid(p) ensures p in orig && orig[p] == old(Cell(p)) {
        assert p in Box(size);
      }
      CellsFinished((cells, allowed, base, orig));
    }

    /** A finished border pass, stated against the state before it. The
        argument is `(cells, allowed, base, orig)`. */
    twostate lemma CellsFinished(pass: (set<Vec3>, set<PatternId>, seq<Vec3>, map<Vec3, ChunkState>))
      requires chunkStates == old(chunkStates) && pass.2 == old(propagationStack)
      requires forall p :: p in pass.0 ==> InGrid(p)
      requires forall p :: InGrid(p) ==> p in pass.3 && pass.3[p] == old(Cell(p))
      requires CellsDone(pass.0, pass.1, pass.2, pass.3)
      ensures forall p :: InGrid(p) ==> Cell(p).compatibles <= old(Cell(p)).compatibles
      ensures forall p :: p in pass.0 ==> Cell(p).compatibles <= pass.1
      ensures forall p :: p in pass.0 ==> Cell(p).compatibles == old(Cell(p)).compatibles * pass.1
      ensures forall p :: InGrid(p) && p !in pass.0 ==> Cell(p) == old(Cell(p))
      ensures forall p :: InGrid(p) ==> Cell(p).definite == old(Cell(p)).definite
      ensures |propagationStack| >= |old(propagationStack)|
      ensures propagationStack[..|old(propagationStack)|] == old(propagationStack)
      ensures forall k :: |old(propagationStack)| <= k < |propagationStack| ==>
                var x := propagationStack[k]; x in pass.0 && Cell(x).compatibles < old(Cell(x)).compatibles
      ensures forall p :: InGrid(p) && Cell(p) != old(Cell(p)) ==> p in propagationStack[|old(propagationStack)|..]
      ensures forall j, k :: |old(propagationStack)| <= j < k < |propagationStack| ==> propagationStack[j] != propagationStack[k]
    {
      var (cells, allowed, base, orig) := pass;
      forall k | |base| <= k < |propagationStack|
        ensures var x := propagationStack[k]; x in cells && Cell(x).compatibles < old(Cell(x)).compatibles
      {
        var x := propagationStack[k];
        assert x in cells && InGrid(x) && Cell(x).compatibles < orig[x].compatibles;
      }
    }

    /** Taking `pos` out of `rest` moves it to the done part of `cells`. */
    lemma MoveDone(cells: set<Vec3>, rest: set<Vec3>, pos: Vec3)
      requires pos in rest && rest <= cells
      ensures cells - rest + {pos} == cells - (rest - {pos})
    {
    }

    /** The state of a border pass after the cells `done`: `orig` holds every
        cell as the pass found it and `base` the stack. Each done cell keeps
        only `allowed`, the others are as they were, and the pushes are the
        cells that changed, each once. */
    ghost predicate CellsDone(done: set<Vec3>, allowed: set<PatternId>, base: seq<Vec3>, orig: map<Vec3, ChunkState>)
      reads this`chunkStates, this`propagationStack, chunkStates
    {
      && |propagationStack| >= |base| && propagationStack[..|base|] == base
      && (forall p :: InGrid(p) ==> p in orig && Cell(p).definite == orig[p].definite)
      && (forall p :: InGrid(p) && p !in done ==> p in orig && Cell(p) == orig[p])
      && (forall p :: InGrid(p) && p in done ==> p in orig && Cell(p).compatibles == orig[p].compatibles * allowed)
      && (forall k :: |base| <= k < |propagationStack| ==>
            var x := propagationStack[k]; x in done && InGrid(x) && x in orig && Cell(x).compatibles < orig[x].compatibles)
      && (forall p :: InGrid(p) && p in orig && Cell(p) != orig[p] ==> p in propagationStack[|base|..])
      && (forall j, k :: |base| <= j < k < |propagationStack| ==> propagationStack[j] != propagationStack[k])
    }

    /** One cell of a border pass: `RestrictAndPush(pos, allowed)`. */
    method RestrictOne(pos: Vec3, ghost done: set<Vec3>, allowed: set<PatternId>, ghost base: seq<Vec3>, ghost orig: map<Vec3, ChunkState>)
      requires Wellformed() && CellsValid() && StackInGrid() && ArcsExcept(Vec3(-1, -1, -1), 0)
      requires InGrid(pos) && pos !in done && CellsDone(done, allowed, base, orig)
      modifies this`propagationStack, chunkStates
      ensures Wellformed() && CellsValid() && StackInGrid() && ArcsExcept(Vec3(-1, -1, -1), 0)
      ensures CellsDone(done + {pos}, allowed, base, orig)
    {
      var changed := RestrictAndPush(pos, allowed, Vec3(-1, -1, -1), 0);
      OneDone((pos, done, allowed, base, orig, changed));
    }

    /** `CellsDone` after one more cell. The argument is
        `(pos, done, allowed, base, orig, changed)`. */
    twostate lemma OneDone(cell: (Vec3, set<Vec3>, set<PatternId>, seq<Vec3>, map<Vec3, ChunkState>, bool))
      requires chunkStates == old(chunkStates) && InGrid(cell.0) && cell.0 !in cell.1
      requires old(CellsDone(cell.1, cell.2, cell.3, cell.4))
      requires cell.5 <==> !(old(Cell(cell.0)).compatibles <= cell.2)
      requires cell.5 ==> Cell(cell.0).compatibles == old(Cell(cell.0)).compatibles * cell.2
      requires cell.5 ==> propagationStack == old(propagationStack) + [cell.0]
      requires !cell.5 ==> propagationStack == old(propagationStack) && Cell(cell.0) == old(Cell(cell.0))
      requires Cell(cell.0).definite == old(Cell(cell.0)).definite
      requires forall p :: InGrid(p) && p != cell.0 ==> Cell(p) == old(Cell(p))
      ensures CellsDone(cell.1 + {cell.0}, cell.2, cell.3, cell.4)
    {
      var (pos, done, allowed, base, orig, changed) := cell;
      assert old(Cell(pos)) == orig[pos];
      assert propagationStack[..|old(propagationStack)|] == old(propagationStack);
      assert propagationStack[..|base|] == base by {
        assert propagationStack[..|base|] == propagationStack[..|old(propagationStack)|][..|base|];
      }
      if !changed {
        assert orig[pos].compatibles * allowed == orig[pos].compatibles;
      }
      forall k | |base| <= k < |propagationStack|
        ensures var x := propagationStack[k]; x in done + {pos} && InGrid(x) && x in orig && Cell(x).compatibles < orig[x].compatibles
      {
        if k < |old(propagationStack)| {
          assert propagationStack[k] == old(propagationStack)[k];
        }
      }
      forall p | InGrid(p) && p in orig && Cell(p) != orig[p] ensures p in propagationStack[|base|..] {
        if p != pos {
          assert p in old(propagationStack)[|base|..];
          var i :| |base| <= i < |old(propagationStack)| && old(propagationStack)[i] == p;
          assert propagationStack[i] == p;
        } else {
          assert propagationStack[|propagationStack| - 1] == pos;
        }
      }
      forall j, k | |base| <= j < k < |propagationStack| ensures propagationStack[j] != propagationStack[k] {
        if k == |old(propagationStack)| {
          assert old(propagationStack)[j] in done;
        }
      }
    }

    /** The border passes of `SetBoundaryPattern` for every direction in table
        order; the first direction whose opposite offset does not index
        `bound.neighbors` (on a non-empty border) throws. Every cell ends as
        `BorderSwept` over the passes that ran, and the pushes are cells that
        lost a candidate, covering every cell that changed. */
    method RestrictAllBorders(bound: Adjacency) returns (ok: bool)
      requires Wellformed() && CellsValid() && StackInGrid() && ArcConsistent()
      modifies this`propagationStack, chunkStates
      ensures CellsValid() && StackInGrid() && ArcConsistent()
      ensures forall p :: InGrid(p) ==> Cell(p).compatibles <= old(Cell(p)).compatibles
      ensures ok <==> forall i :: 0 <= i < |neighborOffset| ==> BorderIndexed(size, neighborOffset, bound, i)
      ensures ok ==> forall i :: 0 <= i < |neighborOffset| ==> BorderRestricted(bound, i)
      ensures forall p :: InGrid(p) ==>
                Cell(p).compatibles ==
                  BorderSwept(size, neighborOffset, bound, old(Cell(p)).compatibles, p, PassesDone(size, neighborOffset, bound, 0))
      ensures forall p :: InGrid(p) ==> Cell(p).definite == old(Cell(p)).definite
      ensures |propagationStack| >= |old(propagationStack)|
      ensures propagationStack[..|old(propagationStack)|] == old(propagationStack)
      ensures forall k :: |old(propagationStack)| <= k < |propagationStack| ==>
                var x := propagationStack[k]; InGrid(x) && Cell(x).compatibles < old(Cell(x)).compatibles
      ensures forall p :: InGrid(p) && Cell(p) != old(Cell(p)) ==> p in propagationStack[|old(propagationStack)|..]
    {
      ghost var sz := size;
      ghost var base := propagationStack;
      ghost var orig := map p | p in Box(size) :: Cell(p);
      assert Progress(bound, sz, base, orig, 0) by {
        forall p | InGrid(p) ensures p in orig && Cell(p) == orig[p] {
          assert p in Box(size);
        }
      }
      var idx;
      ok, idx := RunPasses(bound, sz, base, orig);
      PassesAt(sz, neighborOffset, bound, idx);
      forall p | InGrid(p) ensures p in orig && orig[p] == old(Cell(p)) {
        assert p in Box(size);
      }
      BordersFinished((bound, base, orig, idx));
    }

    /** The direction loop of `SetBoundaryPattern`: the passes run in table
        order and stop at the first one that throws, at `idx`. */
    method RunPasses(bound: Adjacency, ghost sz: Vec3, ghost base: seq<Vec3>, ghost orig: map<Vec3, ChunkState>)
      returns (ok: bool, idx: int)
      requires Wellformed() && Progress(bound, sz, base, orig, 0)
      modifies this`propagationStack, chunkStates
      ensures Wellformed() && Progress(bound, sz, base, orig, idx)
      ensures ok ==> idx == |neighborOffset|
      ensures !ok ==> idx < |neighborOffset| && !BorderIndexed(sz, neighborOffset, bound, idx)
    {
      idx := 0;
      ok := true;
      while idx < |neighborOffset|
        invariant ok && Wellformed() && Progress(bound, sz, base, orig, idx)
      {
        ok := RestrictNextBorder(idx, bound, sz, base, orig);
        if !ok {
          return;
        }
        idx := idx + 1;
      }
    }

    /** The border passes for the first `n` directions, stated against the state
        before them. The argument is `(bound, base, orig, n)`. */
    twostate lemma BordersFinished(passes: (Adjacency, seq<Vec3>, map<Vec3, ChunkState>, int))
      requires chunkStates == old(chunkStates) && size == old(size) && passes.1 == old(propagationStack)
      requires forall p :: InGrid(p) ==> p in passes.2 && passes.2[p] == old(Cell(p))
      requires Progress(passes.0, size, passes.1, passes.2, passes.3)
      ensures forall p :: InGrid(p) ==> Cell(p).compatibles <= old(Cell(p)).compatibles
      ensures forall p :: InGrid(p) ==>
                Cell(p).compatibles == BorderSwept(size, neighborOffset, passes.0, old(Cell(p)).compatibles, p, passes.3)
      ensures forall p :: InGrid(p) ==> Cell(p).definite == old(Cell(p)).definite
      ensures |propagationStack| >= |old(propagationStack)|
      ensures propagationStack[..|old(propagationStack)|] == old(propagationStack)
      ensures forall k :: |old(propagationStack)| <= k < |propagationStack| ==>
                var x := propagationStack[k]; InGrid(x) && Cell(x).compatibles < old(Cell(x)).compatibles
      ensures forall p :: InGrid(p) && Cell(p) != old(Cell(p)) ==> p in propagationStack[|old(propagationStack)|..]
    {
      var (bound, base, orig, n) := passes;
      forall k | |base| <= k < |propagationStack|
        ensures var x := propagationStack[k]; InGrid(x) && Cell(x).compatibles < old(Cell(x)).compatibles
      {
        var x := propagationStack[k];
        assert InGrid(x) && Cell(x).compatibles < orig[x].compatibles;
      }
    }

    /** Every cell is `BorderSwept` from `orig` over the first `n` passes. */
    ghost predicate BordersSwept(bound: Adjacency, sz: Vec3, orig: map<Vec3, ChunkState>, n: int)
      reads this`chunkStates, chunkStates
    {
      0 <= n <= |neighborOffset| &&
      forall p :: InGrid(p) ==>
        p in orig && Cell(p).compatibles == BorderSwept(sz, neighborOffset, bound, orig[p].compatibles, p, n)
    }

    /** The state of `RestrictAllBorders` after the passes for the first `n`
        directions, against `base` and `orig`, the stack and the cells before
        them: the grid is still valid, those `n` borders are indexed and
        restricted, every cell is `BorderSwept` over them, and the pushes are
        cells that lost a candidate, covering every cell that changed. */
    ghost predicate Progress(bound: Adjacency, sz: Vec3, base: seq<Vec3>, orig: map<Vec3, ChunkState>, n: int)
      reads this, chunkStates
    {
      && size == sz && CellsValid() && StackInGrid() && ArcConsistent()
      && 0 <= n <= |neighborOffset|
      && (forall i :: 0 <= i < n ==> BorderIndexed(sz, neighborOffset, bound, i))
      && (forall i :: 0 <= i < n ==> BorderRestricted(bound, i))
      && CellsShrunk(orig) && BordersSwept(bound, sz, orig, n)
      && StackGrown(base, orig) && ChangesPushed(base, orig)
    }

    /** One pass of `RestrictAllBorders`: the border for direction `idx`, keeping
        the borders already restricted. When it throws nothing has changed. */
    method RestrictNextBorder(idx: int, bound: Adjacency, ghost sz: Vec3, ghost base: seq<Vec3>, ghost orig: map<Vec3, ChunkState>)
      returns (ok: bool)
      requires Wellformed() && Progress(bound, sz, base, orig, idx) && idx < |neighborOffset|
      modifies this`propagationStack, chunkStates
      ensures Wellformed()
      ensures ok <==> BorderIndexed(sz, neighborOffset, bound, idx)
      ensures ok ==> Progress(bound, sz, base, orig, idx + 1)
      ensures !ok ==> Progress(bound, sz, base, orig, idx)
    {
      ok := RestrictBorder(idx, bound);
      PassAdvance((bound, base, orig, idx, ok));
      if ok {
        forall i | 0 <= i < idx ensures BorderRestricted(bound, i) {
          RestrictedStaysRestricted((bound, i));
        }
      } else {
        forall i | 0 <= i < idx ensures BorderRestricted(bound, i) {
          assert old(BorderRestricted(bound, i));
        }
      }
    }

    /** The cells and the stack after one more pass. The argument is
        `(bound, base, orig, idx, ok)`. */
    twostate lemma PassAdvance(pass: (Adjacency, seq<Vec3>, map<Vec3, ChunkState>, int, bool))
      requires 0 <= pass.3 < |neighborOffset| && chunkStates == old(chunkStates) && size == old(size)
      requires old(CellsShrunk(pass.2) && BordersSwept(pass.0, size, pass.2, pass.3))
      requires old(StackGrown(pass.1, pass.2) && ChangesPushed(pass.1, pass.2))
      requires pass.4 ==> forall p :: InGrid(p) && p in BorderCells(size, neighborOffset[pass.3]) ==>
                 0 <= Contrary(neighborOffset, pass.3) < |pass.0.neighbors| &&
                 Cell(p).compatibles == old(Cell(p)).compatibles * pass.0.neighbors[Contrary(neighborOffset, pass.3)]
      requires forall p :: InGrid(p) && (!pass.4 || p !in BorderCells(size, neighborOffset[pass.3])) ==> Cell(p) == old(Cell(p))
      requires forall p :: InGrid(p) ==> Cell(p).definite == old(Cell(p)).definite
      requires |propagationStack| >= |old(propagationStack)|
      requires propagationStack[..|old(propagationStack)|] == old(propagationStack)
      requires forall k :: |old(propagationStack)| <= k < |propagationStack| ==>
                 var x := propagationStack[k]; InGrid(x) && Cell(x).compatibles < old(Cell(x)).compatibles
      requires forall p :: InGrid(p) && Cell(p) != old(Cell(p)) ==> p in propagationStack[|old(propagationStack)|..]
      ensures CellsShrunk(pass.2) && BordersSwept(pass.0, size, pass.2, if pass.4 then pass.3 + 1 else pass.3)
      ensures StackGrown(pass.1, pass.2) && ChangesPushed(pass.1, pass.2)
    {
      var (bound, base, orig, idx, ok) := pass;
      forall p | InGrid(p)
        ensures p in orig && Cell(p).compatibles <= orig[p].compatibles && Cell(p).definite == orig[p].definite
      {
        assert old(InGrid(p));
      }
      forall p | InGrid(p)
        ensures p in orig && Cell(p).compatibles ==
                  BorderSwept(size, neighborOffset, bound, orig[p].compatibles, p, if ok then idx + 1 else idx)
      {
        assert old(InGrid(p));
        assert old(Cell(p)).compatibles == BorderSwept(size, neighborOffset, bound, orig[p].compatibles, p, idx);
      }
      assert propagationStack[..|base|] == base by {
        assert propagationStack[..|base|] == propagationStack[..|old(propagationStack)|][..|base|];
      }
      forall k | |base| <= k < |propagationStack|
        ensures var x := propagationStack[k]; InGrid(x) && x in orig && Cell(x).compatibles < orig[x].compatibles
      {
        if k < |old(propagationStack)| {
          assert propagationStack[k] == old(propagationStack)[k];
        }
      }
      forall p | InGrid(p) && p in orig && Cell(p) != orig[p] ensures p in propagationStack[|base|..] {
        if Cell(p) == old(Cell(p)) {
          assert p in old(propagationStack)[|base|..];
          var i :| |base| <= i < |old(propagationStack)| && old(propagationStack)[i] == p;
          assert propagationStack[i] == p;
        } else {
          var i :| |old(propagationStack)| <= i < |propagationStack| && propagationStack[i] == p;
        }
      }
    }

    /** A border that was restricted stays restricted while candidate sets only shrink. */
    twostate lemma RestrictedStaysRestricted(border: (Adjacency, int))
      requires 0 <= border.1 < |neighborOffset| && old(BorderRestricted(border.0, border.1))
      requires chunkStates == old(chunkStates) && size == old(size)
      requires forall p :: InGrid(p) ==> Cell(p).compatibles <= old(Cell(p)).compatibles
      ensures BorderRestricted(border.0, border.1)
    {
      var (bound, i) := border;
      forall p | p in BorderCells(size, neighborOffset[i])
        ensures InGrid(p) && Cell(p).compatibles <= bound.neighbors[Contrary(neighborOffset, i)]
      {
        assert old(Cell(p)).compatibles <= bound.neighbors[Contrary(neighborOffset, i)];
      }
    }

    /** `SetBoundaryPattern`, with each border cell written back after its update:
        for every direction, the cells on the border facing it keep only the
        patterns that `bound` allows beside it from the opposite side, and
        propagation then runs to a fixed point. */
    method SetBoundaryPattern(bound: Adjacency) returns (r: Result<()>)
      requires Valid()
      modifies this, chunkStates
      ensures Valid()
      ensures size == old(size) && chunkStates == old(chunkStates) && random == old(random) && drawn == old(drawn)
      ensures forall p :: InGrid(p) ==> Cell(p).compatibles <= old(Cell(p)).compatibles
      ensures r.Success? <==> forall i :: 0 <= i < |neighborOffset| ==> BorderIndexed(size, neighborOffset, bound, i)
      ensures r.Failure? ==> r.error == IndexOutOfRange
      ensures forall p :: InGrid(p) ==> Cell(p).definite == old(Cell(p)).definite
      ensures r.Failure? ==> forall p :: InGrid(p) ==>
                Cell(p).compatibles ==
                  BorderSwept(size, neighborOffset, bound, old(Cell(p)).compatibles, p, PassesDone(size, neighborOffset, bound, 0))
      ensures r.Failure? ==> forall p :: InGrid(p) && Cell(p) != old(Cell(p)) ==> p in propagationStack
      ensures r.Success? ==> propagationStack == []
      ensures r.Success? ==> forall i :: 0 <= i < |neighborOffset| ==> BorderRestricted(bound, i)
      ensures r.Success? ==> forall p :: InGrid(p) ==>
                Cell(p).compatibles <= BorderSwept(size, neighborOffset, bound, old(Cell(p)).compatibles, p, |neighborOffset|)
      ensures r.Success? ==> forall k :: 0 <= k < |old(propagationStack)| ==> ArcsOut(old(propagationStack)[k])
      ensures r.Success? ==> forall p :: InGrid(p) && Cell(p) != old(Cell(p)) ==> ArcsOut(p)
    {
      var ok := RestrictAllBorders(bound);
      if !ok {
        return Failure(IndexOutOfRange);
      }
      label restricted:
      Propagate();
      forall i | 0 <= i < |neighborOffset| ensures BorderRestricted(bound, i) {
        assert old@restricted(BorderRestricted(bound, i));
      }
      forall k | 0 <= k < |old(propagationStack)| ensures ArcsOut(old(propagationStack)[k]) {
        assert old(propagationStack)[k] == old@restricted(propagationStack)[k];
      }
      forall p | InGrid(p) && Cell(p) != old(Cell(p)) ensures ArcsOut(p) {
        if Cell(p) == old@restricted(Cell(p)) {
          var k :| |old(propagationStack)| <= k < |old@restricted(propagationStack)| && old@restricted(propagationStack)[k] == p;
        }
      }
      r := Success(());
    }
  }
}
