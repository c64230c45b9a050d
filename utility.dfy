/** The general-purpose helpers of `SardineFish.Utils.Utility` (Utility.cs) that the
    solver and the tile code rely on. Enumerables are sequences, and a thrown
    exception or a null result is a `Failure` or `None`. */
module Utility {
  import opened Wrappers

  // ---------------------------------------------------------------- MinOf / MaxOf

  /** `i` is the first position whose key is no larger than any other. */
  predicate IsFirstMin<T>(ts: seq<T>, key: T -> real, i: int) {
    && 0 <= i < |ts|
    && (forall j :: 0 <= j < |ts| ==> key(ts[i]) <= key(ts[j]))
    && (forall j :: 0 <= j < i ==> key(ts[i]) < key(ts[j]))
  }

  /** `i` is the first position whose key is no smaller than any other. */
  predicate IsFirstMax<T>(ts: seq<T>, key: T -> real, i: int) {
    && 0 <= i < |ts|
    && (forall j :: 0 <= j < |ts| ==> key(ts[j]) <= key(ts[i]))
    && (forall j :: 0 <= j < i ==> key(ts[j]) < key(ts[i]))
  }

  /** `MinOf`: the first element with the least selector value; the source returns
      `default` for an empty sequence, here `None`. */
  method MinOf<T>(ts: seq<T>, selector: T -> real) returns (r: Option<T>)
    ensures r.None? <==> |ts| == 0
    ensures r.Some? ==> exists i :: IsFirstMin(ts, selector, i) && ts[i] == r.value
  {
    if |ts| == 0 {
      return None;
    }
    var best := 0;
    var minValue := selector(ts[0]);
    for k := 1 to |ts|
      invariant 0 <= best < k && minValue == selector(ts[best])
      invariant forall j :: 0 <= j < k ==> minValue <= selector(ts[j])
      invariant forall j :: 0 <= j < best ==> minValue < selector(ts[j])
    {
      var value := selector(ts[k]);
      if value < minValue {
        minValue, best := value, k;
      }
    }
    r := Some(ts[best]);
    assert IsFirstMin(ts, selector, best);
  }

  /** `MaxOf`: the first element with the greatest selector value, `None` when empty. */
  method MaxOf<T>(ts: seq<T>, selector: T -> real) returns (r: Option<T>)
    ensures r.None? <==> |ts| == 0
    ensures r.Some? ==> exists i :: IsFirstMax(ts, selector, i) && ts[i] == r.value
  {
    if |ts| == 0 {
      return None;
    }
    var best := 0;
    var maxValue := selector(ts[0]);
    for k := 1 to |ts|
      invariant 0 <= best < k && maxValue == selector(ts[best])
      invariant forall j :: 0 <= j < k ==> selector(ts[j]) <= maxValue
      invariant forall j :: 0 <= j < best ==> selector(ts[j]) < maxValue
    {
      var value := selector(ts[k]);
      if value > maxValue {
        maxValue, best := value, k;
      }
    }
    r := Some(ts[best]);
    assert IsFirstMax(ts, selector, best);
  }

  // ---------------------------------------------------------------- Diff

  /** `Diff(ts, target, comparer)`: walks both sequences in step. Despite its name
      it answers whether they are equal under the comparer. */
  function Diff<T, U>(ts: seq<T>, target: seq<U>, comparer: (T, U) -> bool): (r: bool)
    ensures r <==> |ts| == |target| && forall i :: 0 <= i < |ts| ==> comparer(ts[i], target[i])
  {
    if |ts| == 0 then |target| == 0
    else if |target| == 0 then false
    else if !comparer(ts[0], target[0]) then false
    else
      var rest := Diff(ts[1..], target[1..], comparer);
      assert forall i :: 1 <= i < |ts| && i < |target| ==> ts[i] == ts[1..][i - 1] && target[i] == target[1..][i - 1];
      rest
  }

  // ---------------------------------------------------------------- DiagonalIndices

  datatype RectCorner = XMinYMin | XMinYMax | XMaxYMin | XMaxYMax

  predicate InRect(width: int, height: int, x: int, y: int) {
    0 <= x < width && 0 <= y < height
  }

  /** The number of the anti-diagonal (or diagonal) through `(x, y)`, counted from `corner`. */
  function DiagonalKey(corner: RectCorner, width: int, height: int, x: int, y: int): int {
    match corner
    case XMinYMin => x + y
    case XMaxYMax => (width - 1 - x) + (height - 1 - y)
    case XMinYMax => x + (height - 1 - y)
    case XMaxYMin => (width - 1 - x) + y
  }

  /** The `y` of the point of diagonal `i` in column `x`. */
  function DiagonalY(corner: RectCorner, width: int, height: int, i: int, x: int): int {
    match corner
    case XMinYMin => i - x
    case XMaxYMax => (width + height - 2) - i - x
    case XMinYMax => x + height - 1 - i
    case XMaxYMin => x - (width - 1) + i
  }

  /** The first column the source visits on diagonal `i`. */
  function DiagonalStart(corner: RectCorner, width: int, height: int, i: int): int {
    match corner
    case XMinYMin => if i - (height - 1) > 0 then i - (height - 1) else 0
    case XMaxYMax => if width - 1 - i > 0 then width - 1 - i else 0
    case XMinYMax => if i - (height - 1) > 0 then i - (height - 1) else 0
    case XMaxYMin => if width - 1 - i > 0 then width - 1 - i else 0
  }

  /** The last column of diagonal `i` inside the rectangle. */
  function DiagonalEnd(corner: RectCorner, width: int, height: int, i: int): int {
    match corner
    case XMinYMin => if i < width - 1 then i else width - 1
    case XMaxYMax => if width + height - 2 - i < width - 1 then width + height - 2 - i else width - 1
    case XMinYMax => if i < width - 1 then i else width - 1
    case XMaxYMin => if width + height - 2 - i < width - 1 then width + height - 2 - i else width - 1
  }

  /** `(x, y)` lies on diagonal `i` exactly when `y` is the diagonal's `y` at `x`,
      and the diagonal's points inside the rectangle are the columns from its
      start to its end. */
  lemma DiagonalShape(corner: RectCorner, width: int, height: int, i: int, x: int, y: int)
    ensures DiagonalKey(corner, width, height, x, y) == i <==> y == DiagonalY(corner, width, height, i, x)
    ensures InRect(width, height, x, DiagonalY(corner, width, height, i, x)) <==>
              DiagonalStart(corner, width, height, i) <= x <= DiagonalEnd(corner, width, height, i)
  {
  }

  /** Every point of the rectangle lies on a diagonal in `0 .. width+height-2`. */
  lemma DiagonalKeyRange(corner: RectCorner, width: int, height: int, x: int, y: int)
    requires InRect(width, height, x, y)
    ensures 0 <= DiagonalKey(corner, width, height, x, y) <= width + height - 2
  {
  }

  /** Position `a` comes before `b`: an earlier diagonal, or the same one and a smaller `x`. */
  predicate Before(corner: RectCorner, width: int, height: int, a: (int, int), b: (int, int)) {
    var ka := DiagonalKey(corner, width, height, a.0, a.1);
    var kb := DiagonalKey(corner, width, height, b.0, b.1);
    ka < kb || (ka == kb && a.0 < b.0)
  }

  /** Every position of `out` has been emitted before diagonal `i`, column `x`. */
  predicate EmittedBefore(corner: RectCorner, width: int, height: int, p: (int, int), i: int, x: int) {
    var k := DiagonalKey(corner, width, height, p.0, p.1);
    k < i || (k == i && p.0 < x)
  }

  /** `DiagonalIndices(width, height, entryPoint)`: every cell of the rectangle once,
      diagonal by diagonal starting from `entryPoint`, and along a diagonal by
      increasing `x`. */
  method DiagonalIndices(width: int, height: int, entryPoint: RectCorner) returns (out: seq<(int, int)>)
    ensures forall k :: 0 <= k < |out| ==> InRect(width, height, out[k].0, out[k].1)
    ensures forall x, y :: InRect(width, height, x, y) ==> (x, y) in out
    ensures forall j, k :: 0 <= j < k < |out| ==> Before(entryPoint, width, height, out[j], out[k])
    ensures forall j, k :: 0 <= j < k < |out| ==> out[j] != out[k]
  {
    out := [];
    var i := 0;
    while i <= width + height - 2
      invariant 0 <= i
      invariant forall k :: 0 <= k < |out| ==> InRect(width, height, out[k].0, out[k].1)
      invariant forall k :: 0 <= k < |out| ==> DiagonalKey(entryPoint, width, height, out[k].0, out[k].1) < i
      invariant forall j, k :: 0 <= j < k < |out| ==> Before(entryPoint, width, height, out[j], out[k])
      invariant forall x, y :: InRect(width, height, x, y) && DiagonalKey(entryPoint, width, height, x, y) < i ==> (x, y) in out
      decreases width + height - 2 - i
    {
      out := EmitDiagonal(width, height, entryPoint, i, out);
      i := i + 1;
    }
    forall x, y | InRect(width, height, x, y) ensures (x, y) in out {
      DiagonalKeyRange(entryPoint, width, height, x, y);
    }
  }

  /** One pass of the outer loop of `DiagonalIndices`: appends the cells of
      diagonal `i` to `out0`, by increasing `x`. */
  method EmitDiagonal(width: int, height: int, entryPoint: RectCorner, i: int, out0: seq<(int, int)>)
    returns (out: seq<(int, int)>)
    requires 0 <= i
    requires forall k :: 0 <= k < |out0| ==> InRect(width, height, out0[k].0, out0[k].1)
    requires forall k :: 0 <= k < |out0| ==> DiagonalKey(entryPoint, width, height, out0[k].0, out0[k].1) < i
    requires forall j, k :: 0 <= j < k < |out0| ==> Before(entryPoint, width, height, out0[j], out0[k])
    ensures forall p :: p in out0 ==> p in out
    ensures forall k :: 0 <= k < |out| ==> InRect(width, height, out[k].0, out[k].1)
    ensures forall k :: 0 <= k < |out| ==> DiagonalKey(entryPoint, width, height, out[k].0, out[k].1) <= i
    ensures forall j, k :: 0 <= j < k < |out| ==> Before(entryPoint, width, height, out[j], out[k])
    ensures forall a, b :: InRect(width, height, a, b) && DiagonalKey(entryPoint, width, height, a, b) == i ==> (a, b) in out
  {
    out := out0;
    var x, y;
    match entryPoint {
      case XMinYMin =>
        x := if 0 > i - (height - 1) then 0 else i - (height - 1);
        y := i - x;
      case XMaxYMax =>
        x := if 0 > width - 1 - i then 0 else width - 1 - i;
        y := (width + height - 2) - i - x;
      case XMinYMax =>
        x := if i - (height - 1) > 0 then i - (height - 1) else 0;
        y := x + height - 1 - i;
      case XMaxYMin =>
        x := if width - 1 - i > 0 then width - 1 - i else 0;
        y := x - (width - 1) + i;
    }
    assert x == DiagonalStart(entryPoint, width, height, i);
    forall a, b | InRect(width, height, a, b) && DiagonalKey(entryPoint, width, height, a, b) == i
      ensures a >= x
    {
      DiagonalShape(entryPoint, width, height, i, a, b);
    }
    while InRect(width, height, x, y)
      invariant x >= DiagonalStart(entryPoint, width, height, i)
      invariant y == DiagonalY(entryPoint, width, height, i, x)
      invariant forall p :: p in out0 ==> p in out
      invariant forall k :: 0 <= k < |out| ==> InRect(width, height, out[k].0, out[k].1)
      invariant forall k :: 0 <= k < |out| ==> EmittedBefore(entryPoint, width, height, out[k], i, x)
      invariant forall j, k :: 0 <= j < k < |out| ==> Before(entryPoint, width, height, out[j], out[k])
      invariant forall a, b :: InRect(width, height, a, b) && DiagonalKey(entryPoint, width, height, a, b) == i && a < x ==> (a, b) in out
      decreases width - x
    {
      DiagonalShape(entryPoint, width, height, i, x, y);
      EmitStep(entryPoint, width, height, i, out, x, y);
      out := out + [(x, y)];
      match entryPoint {
        case XMinYMin => x, y := x + 1, y - 1;
        case XMaxYMax => x, y := x + 1, y - 1;
        case XMinYMax => x, y := x + 1, y + 1;
        case XMaxYMin => x, y := x + 1, y + 1;
      }
    }
    forall a, b | InRect(width, height, a, b) && DiagonalKey(entryPoint, width, height, a, b) == i
      ensures (a, b) in out
    {
      DiagonalShape(entryPoint, width, height, i, a, b);
      DiagonalShape(entryPoint, width, height, i, x, y);
    }
  }

  /** Appending the cell at column `x` of diagonal `i` keeps the output in
      `Before` order and everything in it emitted before column `x + 1`. */
  lemma EmitStep(corner: RectCorner, width: int, height: int, i: int, out: seq<(int, int)>, x: int, y: int)
    requires DiagonalKey(corner, width, height, x, y) == i
    requires forall k :: 0 <= k < |out| ==> EmittedBefore(corner, width, height, out[k], i, x)
    requires forall j, k :: 0 <= j < k < |out| ==> Before(corner, width, height, out[j], out[k])
    ensures forall k :: 0 <= k < |out + [(x, y)]| ==> EmittedBefore(corner, width, height, (out + [(x, y)])[k], i, x + 1)
    ensures forall j, k :: 0 <= j < k < |out + [(x, y)]| ==> Before(corner, width, height, (out + [(x, y)])[j], (out + [(x, y)])[k])
  {
    var out' := out + [(x, y)];
    forall j, k | 0 <= j < k < |out'| ensures Before(corner, width, height, out'[j], out'[k]) {
      if k == |out| {
        assert EmittedBefore(corner, width, height, out[j], i, x);
      }
    }
  }

  // ---------------------------------------------------------------- RandomTake

  /** Sum of the weights of the first `k` elements. */
  function PrefixWeight<T>(source: seq<T>, weight: T -> real, k: nat): real
    requires k <= |source|
  {
    if k == 0 then 0.0 else PrefixWeight(source, weight, k - 1) + weight(source[k - 1])
  }

  function TotalWeight<T>(source: seq<T>, weight: T -> real): real {
    PrefixWeight(source, weight, |source|)
  }

  /** The cumulative weight up to and including element `j` exceeds `loc`. */
  predicate Exceeds<T>(source: seq<T>, weight: T -> real, loc: real, j: nat)
    requires j < |source|
  {
    PrefixWeight(source, weight, j + 1) > loc
  }

  /** The first index at or after `from` whose cumulative weight exceeds `loc`. */
  function FirstExceeding<T>(source: seq<T>, weight: T -> real, loc: real, from: nat): (r: Option<nat>)
    requires from <= |source|
    ensures r.Some? ==> from <= r.value < |source| && Exceeds(source, weight, loc, r.value)
    ensures r.Some? ==> forall j :: from <= j < r.value ==> !Exceeds(source, weight, loc, j)
    ensures r.None? ==> forall j :: from <= j < |source| ==> !Exceeds(source, weight, loc, j)
    decreases |source| - from
  {
    if from == |source| then None
    else if Exceeds(source, weight, loc, from) then Some(from)
    else FirstExceeding(source, weight, loc, from + 1)
  }

  /** The element `RandomTake` picks for a draw `randomValue`, or the failure it throws. */
  function Take<T>(source: seq<T>, randomValue: real, weight: T -> real): (r: Result<T>)
    ensures r.Failure? ==> r.error == RandomValueOutOfRange
  {
    match FirstExceeding(source, weight, randomValue * TotalWeight(source, weight), 0)
    case Some(k) => Success(source[k])
    case None => Failure(RandomValueOutOfRange)
  }

  /** `RandomTake(source, randomValue, probabilityEvaluator)`: scans `source`
      accumulating weights and returns the first element whose cumulative weight
      exceeds `randomValue * total`, and fails if there is none. */
  method RandomTake<T>(source: seq<T>, randomValue: real, weight: T -> real) returns (r: Result<T>)
    ensures r == Take(source, randomValue, weight)
  {
    var totalProb := 0.0;
    for k := 0 to |source|
      invariant totalProb == PrefixWeight(source, weight, k)
    {
      totalProb := totalProb + weight(source[k]);
    }
    var loc := randomValue * totalProb;
    ScaleEqual(randomValue, totalProb, TotalWeight(source, weight));
    assert loc == randomValue * TotalWeight(source, weight);
    ghost var first := FirstExceeding(source, weight, loc, 0);
    assert first == FirstExceeding(source, weight, randomValue * TotalWeight(source, weight), 0);
    var currentProb := 0.0;
    for k := 0 to |source|
      invariant currentProb == PrefixWeight(source, weight, k)
      invariant first == FirstExceeding(source, weight, loc, k)
    {
      var prob := weight(source[k]);
      if currentProb + prob > loc {
        assert Exceeds(source, weight, loc, k);
        return Success(source[k]);
      }
      assert !Exceeds(source, weight, loc, k);
      currentProb := currentProb + prob;
    }
    return Failure(RandomValueOutOfRange);
  }

  /** The uniform overload: every element has weight one. */
  method RandomTakeUniform<T>(source: seq<T>, randomValue: real) returns (r: Result<T>)
    ensures r == Take(source, randomValue, _ => 1.0)
  {
    r := RandomTake(source, randomValue, _ => 1.0);
  }

  lemma {:induction false} PrefixWeightPositive<T>(source: seq<T>, weight: T -> real, k: nat)
    requires k <= |source|
    requires forall j :: 0 <= j < |source| ==> weight(source[j]) > 0.0
    ensures k > 0 ==> PrefixWeight(source, weight, k) > 0.0
    ensures PrefixWeight(source, weight, k) >= 0.0
  {
    if k > 0 {
      PrefixWeightPositive(source, weight, k - 1);
    }
  }

  lemma ScaleEqual(a: real, b: real, c: real)
    requires b == c
    ensures a * b == a * c
  {
  }

  /** `loc = randomValue * totalProb` lies in `[0, totalProb)` for a draw in `[0, 1)`. */
  lemma ScaledDraw(randomValue: real, total: real, loc: real)
    requires 0.0 <= randomValue < 1.0 && total > 0.0 && loc == randomValue * total
    ensures 0.0 <= loc < total
  {
  }

  /** With positive weights, a non-empty source and a draw in [0, 1), `RandomTake`
      succeeds, and the chosen element's interval of the cumulative weights holds
      `randomValue * total`. */
  lemma TakeSucceeds<T>(source: seq<T>, randomValue: real, weight: T -> real)
    requires |source| > 0
    requires forall j :: 0 <= j < |source| ==> weight(source[j]) > 0.0
    requires 0.0 <= randomValue < 1.0
    ensures FirstExceeding(source, weight, randomValue * TotalWeight(source, weight), 0).Some?
    ensures Take(source, randomValue, weight).Success?
    ensures Take(source, randomValue, weight).value in source
    ensures var k := FirstExceeding(source, weight, randomValue * TotalWeight(source, weight), 0).value;
            PrefixWeight(source, weight, k) <= randomValue * TotalWeight(source, weight) < PrefixWeight(source, weight, k + 1)
  {
    var total := TotalWeight(source, weight);
    PrefixWeightPositive(source, weight, |source|);
    var loc := randomValue * total;
    ScaledDraw(randomValue, total, loc);
    ExceedingBracket(source, weight, loc);
    TakeAt(source, randomValue, weight, loc);
  }

  /** A location in `[0, total)` falls in the interval of the first element
      whose cumulative weight exceeds it. */
  lemma ExceedingBracket<T>(source: seq<T>, weight: T -> real, loc: real)
    requires |source| > 0
    requires forall j :: 0 <= j < |source| ==> weight(source[j]) > 0.0
    requires 0.0 <= loc < TotalWeight(source, weight)
    ensures FirstExceeding(source, weight, loc, 0).Some?
    ensures var k := FirstExceeding(source, weight, loc, 0).value;
            PrefixWeight(source, weight, k) <= loc < PrefixWeight(source, weight, k + 1)
  {
    var r := FirstExceeding(source, weight, loc, 0);
    assert Exceeds(source, weight, loc, |source| - 1);
    var k := r.value;
    if k > 0 {
      assert !Exceeds(source, weight, loc, k - 1);
    }
    PrefixWeightPositive(source, weight, 0);
  }

  /** `Take` at a draw whose scaled value is `loc`. */
  lemma TakeAt<T>(source: seq<T>, randomValue: real, weight: T -> real, loc: real)
    requires loc == randomValue * TotalWeight(source, weight)
    ensures FirstExceeding(source, weight, loc, 0).Some? ==>
            Take(source, randomValue, weight) == Success(source[FirstExceeding(source, weight, loc, 0).value])
  {
  }

  // ---------------------------------------------------------------- IndexOf / TryGet / PopBack

  /** The first position of `element` in `list`, or -1. */
  function FindIndex<T(==)>(list: seq<T>, element: T): (r: int)
    ensures r == -1 <==> element !in list
    ensures r != -1 ==> 0 <= r < |list| && list[r] == element && element !in list[..r]
  {
    if |list| == 0 then -1
    else if list[0] == element then 0
    else
      var rest := FindIndex(list[1..], element);
      assert list == [list[0]] + list[1..];
      if rest == -1 then -1
      else
        assert list[..rest + 1] == [list[0]] + list[1..][..rest];
        rest + 1
  }

  /** `IndexOf(list, element)`: a linear scan for the first equal element. */
  method IndexOf<T(==)>(list: seq<T>, element: T) returns (r: int)
    ensures r == FindIndex(list, element)
  {
    for i := 0 to |list|
      invariant element !in list[..i]
    {
      if list[i] == element {
        return i;
      }
    }
    assert list[..|list|] == list;
    return -1;
  }

  /** `TryGet(list, index)` for lists and arrays: `None` (null) for an index outside the list. */
  function TryGet<T>(list: seq<T>, index: int): (r: Option<T>)
    ensures r.None? <==> index < 0 || index >= |list|
    ensures r.Some? ==> r.value == list[index]
  {
    if index < 0 || index >= |list| then None else Some(list[index])
  }

  /** A growable list, the receiver of the `PopBack` extension. */
  class Buffer<T> {
    var elements: seq<T>

    constructor (initial: seq<T>)
      ensures elements == initial
    {
      elements := initial;
    }

    /** `PopBack`: removes and returns the last element; an empty list is an index error. */
    method PopBack() returns (r: Result<T>)
      modifies this
      ensures old(elements) == [] ==> r == Failure(IndexOutOfRange) && elements == old(elements)
      ensures old(elements) != [] ==> r == Success(old(elements)[|old(elements)| - 1])
      ensures old(elements) != [] ==> elements == old(elements)[..|old(elements)| - 1]
      ensures old(elements) != [] ==> |elements| == |old(elements)| - 1
    {
      if |elements| > 0 {
        var element := elements[|elements| - 1];
        elements := elements[..|elements| - 1];
        return Success(element);
      }
      return Failure(IndexOutOfRange);
    }
  }

  // ---------------------------------------------------------------- Join / StringJoin

  /** The strings of `list` with `separator` between neighbours. */
  function Joined(list: seq<string>, separator: string): string {
    if |list| == 0 then ""
    else if |list| == 1 then list[0]
    else list[0] + separator + Joined(list[1..], separator)
  }

  lemma {:induction false} JoinedAppend(list: seq<string>, separator: string, s: string)
    requires |list| > 0
    ensures Joined(list + [s], separator) == Joined(list, separator) + separator + s
    decreases |list|
  {
    if |list| == 1 {
      assert list + [s] == [list[0], s];
      assert [list[0], s][1..] == [s];
    } else {
      assert (list + [s])[1..] == list[1..] + [s];
      JoinedAppend(list[1..], separator, s);
    }
  }

  function TotalLength(list: seq<string>): nat {
    if |list| == 0 then 0 else |list[0]| + TotalLength(list[1..])
  }

  /** The joined string holds every element and one separator between neighbours. */
  lemma {:induction false} JoinedLength(list: seq<string>, separator: string)
    ensures |list| > 0 ==> |Joined(list, separator)| == TotalLength(list) + (|list| - 1) * |separator|
    ensures |list| == 0 ==> Joined(list, separator) == ""
  {
    if |list| > 1 {
      JoinedLength(list[1..], separator);
    }
  }

  /** `Join(list, separator)`: "" for no strings, otherwise the strings separated. */
  method Join(list: seq<string>, separator: string) returns (output: string)
    ensures output == Joined(list, separator)
  {
    output := "";
    if |list| > 0 {
      output := list[0];
      for i := 1 to |list|
        invariant output == Joined(list[..i], separator)
      {
        JoinedAppend(list[..i], separator, list[i]);
        assert list[..i + 1] == list[..i] + [list[i]];
        output := output + separator + list[i];
      }
      assert list[..|list|] == list;
    }
  }

  /** `StringJoin(separator, strings)`: `None` (null) for no strings. */
  method StringJoin(separator: string, strings: seq<string>) returns (output: Option<string>)
    ensures output.None? <==> |strings| == 0
    ensures output.Some? ==> output.value == Joined(strings, separator)
  {
    if |strings| <= 0 {
      return None;
    }
    var s := strings[0];
    for i := 1 to |strings|
      invariant s == Joined(strings[..i], separator)
    {
      JoinedAppend(strings[..i], separator, strings[i]);
      assert strings[..i + 1] == strings[..i] + [strings[i]];
      s := s + separator + strings[i];
    }
    assert strings[..|strings|] == strings;
    return Some(s);
  }

  // ---------------------------------------------------------------- ToOrdinal

  predicate IsDigit(c: char) {
    '0' <= c <= '9'
  }

  /** `int.ToString()` of a natural number: its decimal digits without leading zeros. */
  function NatToString(n: nat): (s: string)
    ensures |s| >= 1 && forall i :: 0 <= i < |s| ==> IsDigit(s[i])
    ensures n > 0 ==> s[0] != '0'
  {
    if n < 10 then ["0123456789"[n]]
    else NatToString(n / 10) + ["0123456789"[n % 10]]
  }

  /** The value of a string of decimal digits. */
  function ParseDigits(s: string): nat
    requires forall i :: 0 <= i < |s| ==> IsDigit(s[i])
  {
    if |s| == 0 then 0
    else
      assert IsDigit(s[|s| - 1]);
      10 * ParseDigits(s[..|s| - 1]) + (s[|s| - 1] as int - '0' as int)
  }

  lemma {:induction false} ParseNatToString(n: nat)
    ensures ParseDigits(NatToString(n)) == n
  {
    var s := NatToString(n);
    if n >= 10 {
      ParseNatToString(n / 10);
      assert s[..|s| - 1] == NatToString(n / 10);
    }
  }

  /** `int.ToString()`: a leading '-' for negative numbers. */
  function IntToString(n: int): string {
    if n < 0 then "-" + NatToString(-n) else NatToString(n)
  }

  function OrdinalSuffix(num: int): string {
    if num % 100 == 11 || num % 100 == 12 || num % 100 == 13 then "th"
    else if num % 10 == 1 then "st"
    else if num % 10 == 2 then "nd"
    else if num % 10 == 3 then "rd"
    else "th"
  }

  /** `ToOrdinal(num)`: the number alone when it is not positive, otherwise the
      number followed by its English ordinal suffix. */
  function ToOrdinal(num: int): (s: string)
    ensures num <= 0 ==> s == IntToString(num)
    ensures num > 0 ==> |s| >= 3 && s[..|s| - 2] == NatToString(num)
    ensures num > 0 && 11 <= num % 100 <= 13 ==> s[|s| - 2..] == "th"
    ensures num > 0 && !(11 <= num % 100 <= 13) ==>
              s[|s| - 2..] == (if num % 10 == 1 then "st" else if num % 10 == 2 then "nd"
                               else if num % 10 == 3 then "rd" else "th")
  {
    if num <= 0 then IntToString(num) else NatToString(num) + OrdinalSuffix(num)
  }

  /** Stripping the suffix of a positive ordinal gives back the number. */
  lemma OrdinalRoundTrip(num: int)
    requires num > 0
    ensures var s := ToOrdinal(num);
            (forall i :: 0 <= i < |s| - 2 ==> IsDigit(s[i])) && ParseDigits(s[..|s| - 2]) == num
  {
    ParseNatToString(num);
  }

  // ---------------------------------------------------------------- OffsetArray

  /** `OffsetArray<T>`: an array indexed from `startIndex` instead of zero. */
  class OffsetArray<T(0)> {
    const start: int
    const arr: array<T>

    constructor (startIndex: int, size: nat)
      ensures start == startIndex && arr.Length == size && fresh(arr)
    {
      start := startIndex;
      arr := new T[size];
    }

    function Count(): nat {
      arr.Length
    }

    /** The indexer's getter; an index outside `start .. start+Count-1` is an index error. */
    function Get(index: int): (r: Result<T>)
      reads arr
      ensures r.Success? <==> start <= index < start + arr.Length
      ensures r.Success? ==> r.value == arr[index - start]
      ensures r.Failure? ==> r.error == IndexOutOfRange
    {
      if start <= index < start + arr.Length then Success(arr[index - start]) else Failure(IndexOutOfRange)
    }

    /** The indexer's setter: writes `_array[index - start]` and nothing else. */
    method Set(index: int, value: T) returns (r: Result<()>)
      modifies arr
      ensures r.Success? <==> start <= index < start + arr.Length
      ensures r.Success? ==> arr[..] == old(arr[..])[index - start := value]
      ensures r.Failure? ==> r.error == IndexOutOfRange && arr[..] == old(arr[..])
      ensures r.Success? ==> Get(index) == Success(value)
    {
      if start <= index < start + arr.Length {
        arr[index - start] := value;
        return Success(());
      }
      return Failure(IndexOutOfRange);
    }

    /** `Indices`: `start, start+1, ..., start+Count-1`, each a valid index. */
    method Indices() returns (r: seq<int>)
      ensures |r| == arr.Length
      ensures forall k :: 0 <= k < |r| ==> r[k] == start + k
      ensures forall k :: 0 <= k < |r| ==> Get(r[k]).Success?
    {
      r := [];
      for i := 0 to arr.Length
        invariant |r| == i && forall k :: 0 <= k < i ==> r[k] == start + k
      {
        r := r + [i + start];
      }
    }
  }
}
