/** `weightedPartition`: turns a vector of n weights into n + 1 boundaries
    from `start` to `end`, each interval as wide as its share of the total
    weight. The grid uses it for the pixel rows and columns and for the 24
    hour bands of each row. Java doubles are modelled as reals. */
module Partition {

  /** The running total `sum += weights[i]`, left to right. */
  function Sum(w: seq<real>): real
  {
    if w == [] then 0.0 else Sum(w[..|w| - 1]) + w[|w| - 1]
  }

  predicate AllPositive(w: seq<real>)
  {
    forall i :: 0 <= i < |w| ==> w[i] > 0.0
  }

  /** The boundaries: boundary i is `start` plus the share of the weights
      before i of the distance to `end`; the last boundary is `end` itself. */
  function Boundaries(w: seq<real>, start: real, end: real): (p: seq<real>)
    requires |w| == 0 || Sum(w) != 0.0
    ensures |p| == |w| + 1
  {
    BoundariesUpTo(w, start, end, |w| + 1)
  }

  /** The first n boundaries. */
  function BoundariesUpTo(w: seq<real>, start: real, end: real, n: nat): (p: seq<real>)
    requires n <= |w| + 1 && (|w| == 0 || Sum(w) != 0.0)
    ensures |p| == n
  {
    if n == 0 then [] else BoundariesUpTo(w, start, end, n - 1) + [Boundary(w, start, end, n - 1)]
  }

  function Boundary(w: seq<real>, start: real, end: real, i: nat): real
    requires i <= |w| && (|w| == 0 || Sum(w) != 0.0)
  {
    if i < |w| then Scale(Sum(w[..i]), Sum(w), start, end) else end
  }

  lemma {:induction false} BoundaryUpTo(w: seq<real>, start: real, end: real, n: nat, i: nat)
    requires i < n <= |w| + 1 && (|w| == 0 || Sum(w) != 0.0)
    ensures BoundariesUpTo(w, start, end, n)[i] == Boundary(w, start, end, i)
  {
    if i < n - 1 {
      BoundaryUpTo(w, start, end, n - 1, i);
    }
  }

  /** Boundary i of the sequence is `Boundary(w, start, end, i)`. */
  lemma {:induction false} BoundaryAt(w: seq<real>, start: real, end: real, i: nat)
    requires i <= |w| && (|w| == 0 || Sum(w) != 0.0)
    ensures Boundaries(w, start, end)[i] == Boundary(w, start, end, i)
  {
    BoundaryUpTo(w, start, end, |w| + 1, i);
  }

  /** The point a share `x / total` of the way from `start` to `end`. */
  function Scale(x: real, total: real, start: real, end: real): real
    requires total != 0.0
  {
    x / total * (end - start) + start
  }

  lemma {:induction false} ScaleTotal(total: real, start: real, end: real)
    requires total != 0.0
    ensures Scale(total, total, start, end) == end
  {
    assert total / total == 1.0;
  }

  lemma {:induction false} ScaleDifference(a: real, b: real, total: real, start: real, end: real)
    requires total != 0.0
    ensures Scale(a, total, start, end) - Scale(b, total, start, end) == (a - b) / total * (end - start)
  {
    assert a / total - b / total == (a - b) / total;
    assert (a / total) * (end - start) - (b / total) * (end - start) == (a / total - b / total) * (end - start);
  }

  lemma {:induction false} ScaleStep(a: real, b: real, d: real, total: real, start: real, end: real)
    requires total != 0.0 && a == b + d
    ensures Scale(a, total, start, end) - Scale(b, total, start, end) == d / total * (end - start)
  {
    assert a / total - b / total == d / total;
    assert (a / total) * (end - start) - (b / total) * (end - start) == (a / total - b / total) * (end - start);
  }

  lemma {:induction false} ScaleIncreases(a: real, b: real, total: real, start: real, end: real)
    requires a < b && total > 0.0 && start < end
    ensures Scale(a, total, start, end) < Scale(b, total, start, end)
  {
    ScaleDifference(b, a, total, start, end);
    assert (b - a) / total > 0.0;
  }

  /** Fills `partition` with the boundaries; the first loop builds the
      cumulative weights, the second scales them. */
  method WeightedPartition(weights: array<real>, start: real, end: real, partition: array<real>)
    requires partition.Length == weights.Length + 1
    requires weights.Length == 0 || Sum(weights[..]) != 0.0
    modifies partition
    ensures partition[..] == Boundaries(old(weights[..]), start, end)
  {
    ghost var w := weights[..];
    var cumWeights := new real[weights.Length];
    var sum := 0.0;
    var i := 0;
    while i < weights.Length
      invariant 0 <= i <= weights.Length
      invariant sum == Sum(w[..i])
      invariant forall k :: 0 <= k < i ==> cumWeights[k] == Sum(w[..k])
    {
      cumWeights[i] := sum;
      assert w[..i + 1][..i] == w[..i];
      sum := sum + weights[i];
      i := i + 1;
    }
    assert w[..i] == w;
    i := 0;
    while i < weights.Length
      invariant 0 <= i <= weights.Length
      invariant sum == Sum(w)
      invariant forall k :: 0 <= k < weights.Length ==> cumWeights[k] == Sum(w[..k])
      invariant forall k :: 0 <= k < i ==> partition[k] == Boundary(w, start, end, k)
    {
      partition[i] := Scale(cumWeights[i], sum, start, end);
      i := i + 1;
    }
    partition[weights.Length] := end;
    forall k | 0 <= k <= weights.Length ensures partition[k] == Boundaries(w, start, end)[k] {
      BoundaryAt(w, start, end, k);
    }
  }

  lemma {:induction false} SumPositive(w: seq<real>)
    requires AllPositive(w) && w != []
    ensures Sum(w) > 0.0
  {
    if |w| > 1 {
      SumPositive(w[..|w| - 1]);
    }
  }

  lemma {:induction false} PrefixSumsIncrease(w: seq<real>, i: nat, j: nat)
    requires AllPositive(w) && i < j <= |w|
    ensures Sum(w[..i]) < Sum(w[..j])
  {
    assert w[..j][..j - 1] == w[..j - 1];
    if i < j - 1 {
      PrefixSumsIncrease(w, i, j - 1);
    }
  }

  /** The first boundary is `start` and the last is `end`. */
  lemma {:induction false} BoundariesEnds(w: seq<real>, start: real, end: real)
    requires |w| == 0 || Sum(w) != 0.0
    ensures |w| > 0 ==> Boundaries(w, start, end)[0] == start
    ensures Boundaries(w, start, end)[|w|] == end
  {
    assert w[..0] == [];
    BoundaryAt(w, start, end, |w|);
    if |w| > 0 {
      BoundaryAt(w, start, end, 0);
    }
  }

  /** Interval i is as wide as weight i's share of the whole. */
  lemma {:induction false} BoundaryWidth(w: seq<real>, start: real, end: real, i: nat)
    requires Sum(w) != 0.0 && i < |w|
    ensures Boundaries(w, start, end)[i + 1] - Boundaries(w, start, end)[i]
         == w[i] / Sum(w) * (end - start)
  {
    if i + 1 == |w| {
      LastWidth(w, start, end, i);
    } else {
      InnerWidth(w, start, end, i);
    }
  }

  lemma {:induction false} InnerWidth(w: seq<real>, start: real, end: real, i: nat)
    requires Sum(w) != 0.0 && i + 1 < |w|
    ensures Boundaries(w, start, end)[i + 1] - Boundaries(w, start, end)[i]
         == w[i] / Sum(w) * (end - start)
  {
    SumOfPrefix(w, i);
    var total, before, after := Sum(w), Sum(w[..i]), Sum(w[..i + 1]);
    BoundaryAt(w, start, end, i);
    BoundaryAt(w, start, end, i + 1);
    var p0, p1 := Boundaries(w, start, end)[i], Boundaries(w, start, end)[i + 1];
    assert p0 == Scale(before, total, start, end);
    assert p1 == Scale(after, total, start, end);
    WidthFromScale(p0, p1, before, after, w[i], total, start, end);
  }

  lemma {:induction false} LastWidth(w: seq<real>, start: real, end: real, i: nat)
    requires Sum(w) != 0.0 && i + 1 == |w|
    ensures Boundaries(w, start, end)[i + 1] - Boundaries(w, start, end)[i]
         == w[i] / Sum(w) * (end - start)
  {
    SumOfPrefix(w, i);
    var total, before, after := Sum(w), Sum(w[..i]), Sum(w[..i + 1]);
    BoundaryAt(w, start, end, i);
    var p0, p1 := Boundaries(w, start, end)[i], Boundaries(w, start, end)[i + 1];
    assert p0 == Scale(before, total, start, end);
    LastBoundaryAsScale(w, start, end);
    assert p1 == Scale(after, total, start, end);
    WidthFromScale(p0, p1, before, after, w[i], total, start, end);
  }

  lemma {:induction false} WidthFromScale(p0: real, p1: real, before: real, after: real, d: real,
                       total: real, start: real, end: real)
    requires total != 0.0 && after == before + d
    requires p0 == Scale(before, total, start, end) && p1 == Scale(after, total, start, end)
    ensures p1 - p0 == d / total * (end - start)
  {
    ScaleStep(after, before, d, total, start, end);
  }

  /** The last boundary, `end`, is also where the scaling formula puts the total. */
  lemma {:induction false} LastBoundaryAsScale(w: seq<real>, start: real, end: real)
    requires Sum(w) != 0.0 && |w| > 0
    ensures Boundaries(w, start, end)[|w|] == Scale(Sum(w[..|w|]), Sum(w), start, end)
  {
    assert w[..|w|] == w;
    BoundaryAt(w, start, end, |w|);
    ScaleTotal(Sum(w), start, end);
  }

  lemma {:induction false} SumOfPrefix(w: seq<real>, i: nat)
    requires i < |w|
    ensures Sum(w[..i + 1]) == Sum(w[..i]) + w[i]
  {
    assert w[..i + 1][..i] == w[..i];
  }

  /** With positive weights and `start < end` the boundaries strictly increase. */
  lemma {:induction false} BoundariesIncrease(w: seq<real>, start: real, end: real)
    requires AllPositive(w) && w != [] && start < end
    ensures Sum(w) > 0.0
    ensures forall i, j :: 0 <= i < j <= |w| ==> Boundaries(w, start, end)[i] < Boundaries(w, start, end)[j]
  {
    SumPositive(w);
    var p := Boundaries(w, start, end);
    forall i, j | 0 <= i < j <= |w| ensures p[i] < p[j] {
      BoundaryAt(w, start, end, i);
      BoundaryAt(w, start, end, j);
      PrefixSumsIncrease(w, i, j);
      assert w[..|w|] == w;
      if j == |w| {
        ScaleTotal(Sum(w), start, end);
      }
      ScaleIncreases(Sum(w[..i]), Sum(w[..j]), Sum(w), start, end);
    }
  }

  /** With positive weights and `start <= end` the boundaries never decrease. */
  lemma {:induction false} BoundariesMonotone(w: seq<real>, start: real, end: real)
    requires AllPositive(w) && w != [] && start <= end
    ensures Sum(w) > 0.0
    ensures forall i, j :: 0 <= i <= j <= |w| ==> Boundaries(w, start, end)[i] <= Boundaries(w, start, end)[j]
  {
    SumPositive(w);
    if start < end {
      BoundariesIncrease(w, start, end);
    } else {
      var p := Boundaries(w, start, end);
      forall i | 0 <= i <= |w| ensures p[i] == start {
        BoundaryAt(w, start, end, i);
        if i < |w| {
          assert end - start == 0.0;
          ZeroWidth(Sum(w[..i]), Sum(w), start);
        }
      }
    }
  }

  lemma {:induction false} ZeroWidth(x: real, total: real, start: real)
    requires total != 0.0
    ensures Scale(x, total, start, start) == start
  {
  }

  lemma {:induction false} SumOfConstant(w: seq<real>, c: real)
    requires forall i :: 0 <= i < |w| ==> w[i] == c
    ensures Sum(w) == |w| as real * c
  {
    if w != [] {
      SumOfConstant(w[..|w| - 1], c);
    }
  }

  /** Equal weights cut the range into equal intervals. */
  lemma {:induction false} UniformBoundaries(w: seq<real>, c: real, start: real, end: real)
    requires w != [] && c > 0.0 && forall i :: 0 <= i < |w| ==> w[i] == c
    ensures Sum(w) != 0.0
    ensures forall i :: 0 <= i <= |w| ==>
      Boundaries(w, start, end)[i] == start + (i as real / |w| as real) * (end - start)
  {
    SumOfConstant(w, c);
    forall i | 0 <= i <= |w|
      ensures Boundaries(w, start, end)[i] == start + (i as real / |w| as real) * (end - start)
    {
      if i < |w| {
        UniformBoundary(w, c, start, end, i);
      } else {
        BoundariesEnds(w, start, end);
        assert |w| as real / |w| as real == 1.0;
      }
    }
  }

  lemma {:induction false} UniformBoundary(w: seq<real>, c: real, start: real, end: real, i: nat)
    requires i < |w| && c > 0.0 && forall k :: 0 <= k < |w| ==> w[k] == c
    requires Sum(w) == |w| as real * c
    ensures Boundaries(w, start, end)[i] == start + (i as real / |w| as real) * (end - start)
  {
    var x, n := i as real, |w| as real;
    var prefix := w[..i];
    assert |prefix| as real == x;
    SumOfConstant(prefix, c);
    assert Sum(prefix) == x * c;
    PositiveProduct(n, c);
    BoundaryIsScale(w, start, end, i, x * c, n * c);
    ScaleCancel(x, n, c, start, end);
  }

  lemma {:induction false} BoundaryIsScale(w: seq<real>, start: real, end: real, i: nat, before: real, total: real)
    requires i < |w| && Sum(w[..i]) == before && Sum(w) == total && total != 0.0
    ensures Boundaries(w, start, end)[i] == Scale(before, total, start, end)
  {
    BoundaryAt(w, start, end, i);
  }

  lemma {:induction false} ScaleCancel(x: real, n: real, c: real, start: real, end: real)
    requires n > 0.0 && c > 0.0
    ensures Scale(x * c, n * c, start, end) == start + (x / n) * (end - start)
  {
    CancelFactor(x, n, c);
  }

  lemma {:induction false} PositiveProduct(a: real, b: real)
    requires a > 0.0 && b > 0.0
    ensures a * b > 0.0
  {
  }

  lemma {:induction false} PositiveProductOrZero(a: real, b: real)
    requires a >= 0.0 && b >= 0.0
    ensures a * b >= 0.0
  {
    if a > 0.0 && b > 0.0 {
      PositiveProduct(a, b);
    }
  }

  lemma {:induction false} CancelFactor(x: real, n: real, c: real)
    requires n > 0.0 && c > 0.0
    ensures (x * c) / (n * c) == x / n
  {
    assert (x * c) / (n * c) * (n * c) == x * c;
    assert (x / n) * (n * c) == x * c;
  }
}
