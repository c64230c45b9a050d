/** The minimum-entropy scan and the weighted pick that `Observe` performs in
    both solvers (WFCGenerator.cs and WFCGenerator2D.cs), over any position
    type `P`. The scan is a list of (position, entropy) entries in loop order;
    the k-th entry is jittered by draw `start + k` of the random stream. */
module Selection {
  import opened Wrappers
  import opened PatternInterface
  import opened ChunkStates
  import Utility

  /** `EntropyBias`: the weight of the random jitter added to each entropy. */
  const EntropyBias: real := 0.01

  /** `System.Random.NextDouble` draws lie in [0, 1). */
  ghost predicate UnitStream(stream: nat -> real) {
    forall n :: 0.0 <= stream(n) < 1.0
  }

  /** A `HashSet` enumeration: each member once, nothing else. */
  predicate ListsExactly(e: seq<PatternId>, s: set<PatternId>) {
    (forall p :: p in e ==> p in s) && (forall p :: p in s ==> p in e) && |e| == |s|
  }

  /** The weight selector `ptn => ptn.Weight` of `Observe`. */
  function WeightFn(graph: seq<Adjacency>): PatternId -> real {
    (p: PatternId) => WeightOf(graph, p)
  }

  /** The value `Observe` compares for a cell: entropy plus jitter; NaN stays NaN. */
  function JitteredKey(e: Entropy, draw: real): (k: Entropy)
    ensures k.NaN? <==> e.NaN?
  {
    match e
    case NaN => NaN
    case Finite(v) => Finite(v + EntropyBias * draw)
  }

  /** The keys of the scanned cells, the k-th jittered with draw `start + k`. */
  function Keys<P>(scan: seq<(P, Entropy)>, stream: nat -> real, start: nat): (keys: seq<Entropy>)
    ensures |keys| == |scan|
  {
    seq(|scan|, k requires 0 <= k < |scan| => JitteredKey(scan[k].1, stream(start + k)))
  }

  /** The position `Observe`'s strict `<` scan settles on, scanning left to right. */
  function FirstMinimum(keys: seq<Entropy>): (r: Option<nat>)
    ensures r.Some? ==> r.value < |keys| && keys[r.value].Finite?
  {
    if |keys| == 0 then None
    else
      var m := FirstMinimum(keys[..|keys| - 1]);
      var last := keys[|keys| - 1];
      if last.Finite? && (m.None? || last.value < keys[m.value].value) then Some(|keys| - 1) else m
  }

  /** `FirstMinimum` is the first least finite key, and none exactly when every key is NaN. */
  lemma {:induction false} FirstMinimumIsFirstLeast(keys: seq<Entropy>)
    ensures var r := FirstMinimum(keys);
            && (r.None? <==> forall j :: 0 <= j < |keys| ==> keys[j].NaN?)
            && (r.Some? ==> forall j :: 0 <= j < |keys| && keys[j].Finite? ==> keys[r.value].value <= keys[j].value)
            && (r.Some? ==> forall j :: 0 <= j < r.value && keys[j].Finite? ==> keys[r.value].value < keys[j].value)
    decreases |keys|
  {
    if |keys| > 0 {
      FirstMinimumIsFirstLeast(keys[..|keys| - 1]);
    }
  }

  /** The scan's loop state: `best` indexes the running minimum among the keys
      seen so far, whose position and jittered entropy are `minChunk` and
      `minEntropy`; position `unset` while there is none. */
  predicate Tracks<P(==)>(seen: seq<(P, Entropy)>, keys: seq<Entropy>, best: Option<nat>, minChunk: P,
                      minEntropy: Option<real>, unset: P)
  {
    && |keys| == |seen|
    && (best.None? ==> minChunk == unset && minEntropy.None?)
    && (best.Some? ==> best.value < |keys| && keys[best.value].Finite? &&
                       minChunk == seen[best.value].0 && minEntropy == Some(keys[best.value].value))
  }

  /** One step of `Observe`'s scan: a cell with entropy `c.1` and draw `draw`
      replaces the running minimum when its jittered entropy is strictly smaller. */
  function Improve<P>(run: (P, Option<real>), c: (P, Entropy), draw: real): (P, Option<real>)
  {
    match c.1
    case NaN => run
    case Finite(e) =>
      if run.1.None? || e + EntropyBias * draw < run.1.value then (c.0, Some(e + EntropyBias * draw)) else run
  }

  /** The running minimum after scanning `scan`, the k-th cell with draw `start + k`,
      starting from position `unset` and no entropy. */
  function Fold<P>(scan: seq<(P, Entropy)>, stream: nat -> real, start: nat, unset: P): (P, Option<real>)
  {
    if |scan| == 0 then (unset, None)
    else Improve(Fold(scan[..|scan| - 1], stream, start, unset), scan[|scan| - 1], stream(start + |scan| - 1))
  }

  lemma FoldAppend<P>(scan: seq<(P, Entropy)>, c: (P, Entropy), stream: nat -> real, start: nat, unset: P)
    ensures Fold(scan + [c], stream, start, unset) == Improve(Fold(scan, stream, start, unset), c, stream(start + |scan|))
  {
    assert (scan + [c])[..|scan|] == scan;
  }

  /** The running minimum is the first least jittered entropy: its position and key. */
  lemma {:induction false} FoldIsFirstMinimum<P>(scan: seq<(P, Entropy)>, stream: nat -> real, start: nat, unset: P)
    ensures Tracks(scan, Keys(scan, stream, start), FirstMinimum(Keys(scan, stream, start)),
                   Fold(scan, stream, start, unset).0, Fold(scan, stream, start, unset).1, unset)
    decreases |scan|
  {
    if |scan| > 0 {
      var n := |scan| - 1;
      var prefix, c := scan[..n], scan[n];
      assert scan == prefix + [c];
      FoldIsFirstMinimum(prefix, stream, start, unset);
      KeysAppend(prefix, c, stream, start);
      var keys, key := Keys(prefix, stream, start), JitteredKey(c.1, stream(start + n));
      FirstMinimumAppend(keys, key);
      var run := Fold(prefix, stream, start, unset);
      TracksAppend(prefix, keys, FirstMinimum(keys), run.0, run.1, unset, c, key);
      FoldAppend(prefix, c, stream, start, unset);
    }
  }

  /** Appending a scanned cell either keeps the running minimum or makes the new
      cell the minimum. */
  lemma TracksAppend<P>(seen: seq<(P, Entropy)>, keys: seq<Entropy>, best: Option<nat>, minChunk: P,
                        minEntropy: Option<real>, unset: P, entry: (P, Entropy), key: Entropy)
    requires Tracks(seen, keys, best, minChunk, minEntropy, unset)
    ensures Tracks(seen + [entry], keys + [key], best, minChunk, minEntropy, unset)
    ensures key.Finite? ==> Tracks(seen + [entry], keys + [key], Some(|keys|), entry.0, Some(key.value), unset)
  {
    if best.Some? {
      assert (seen + [entry])[best.value] == seen[best.value];
      assert (keys + [key])[best.value] == keys[best.value];
    }
  }

  lemma KeysAppend<P>(scan: seq<(P, Entropy)>, c: (P, Entropy), stream: nat -> real, start: nat)
    ensures Keys(scan + [c], stream, start) == Keys(scan, stream, start) + [JitteredKey(c.1, stream(start + |scan|))]
  {
    var a, b := Keys(scan + [c], stream, start), Keys(scan, stream, start) + [JitteredKey(c.1, stream(start + |scan|))];
    forall k | 0 <= k < |a| ensures a[k] == b[k] {
      if k < |scan| {
        assert (scan + [c])[k] == scan[k];
      }
    }
  }

  lemma FirstMinimumAppend(keys: seq<Entropy>, k: Entropy)
    ensures FirstMinimum(keys + [k]) ==
            var m := FirstMinimum(keys);
            if k.Finite? && (m.None? || k.value < keys[m.value].value) then Some(|keys|) else m
  {
    assert (keys + [k])[..|keys|] == keys;
  }

  /** The pattern `Observe` collapses a cell to: `RandomTake` over the HashSet
      enumeration of its candidates, weighted by pattern weight, with one draw. */
  method ChoosePattern(graph: seq<Adjacency>, patterns: set<PatternId>, enumerate: set<PatternId> -> seq<PatternId>,
                       compatibles: set<PatternId>, draw: real) returns (pattern: PatternId)
    requires PositiveWeights(graph, patterns) && (forall s :: ListsExactly(enumerate(s), s))
    requires compatibles != {} && compatibles <= patterns && 0.0 <= draw < 1.0
    ensures Utility.Take(enumerate(compatibles), draw, WeightFn(graph)) == Success(pattern)
    ensures pattern in compatibles
  {
    var candidates := enumerate(compatibles);
    assert ListsExactly(candidates, compatibles);
    assert |candidates| > 0 by {
      var a :| a in compatibles;
      assert a in candidates;
    }
    forall j | 0 <= j < |candidates| ensures WeightFn(graph)(candidates[j]) > 0.0 {
      assert candidates[j] in patterns;
    }
    Utility.TakeSucceeds(candidates, draw, WeightFn(graph));
    var taken := Utility.RandomTake(candidates, draw, WeightFn(graph));
    pattern := taken.value;
  }
}
