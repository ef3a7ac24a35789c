/** Vectors of reals, the squared Euclidean distance, the distances of a query to a data set and
    the mean of the data. */
module Vectors {

  type Vector = seq<real>

  function Square(x: real): (r: real)
    ensures r >= 0.0
  {
    x * x
  }

  /** The squared distance over the first dim coordinates. */
  function L2(a: Vector, b: Vector, dim: nat): (r: real)
    requires dim <= |a| && dim <= |b|
    ensures r >= 0.0
  {
    if dim == 0 then 0.0 else L2(a, b, dim - 1) + Square(a[dim - 1] - b[dim - 1])
  }

  lemma {:induction false} L2Self(a: Vector, dim: nat)
    requires dim <= |a|
    ensures L2(a, a, dim) == 0.0
  {
    if dim > 0 { L2Self(a, dim - 1); }
  }

  /** A data set whose vectors have at least the query's coordinates. */
  predicate Covers(data: seq<Vector>, query: Vector) {
    forall v :: v in data ==> |v| >= |query|
  }

  /** The distance of every vector of a data set to the query. */
  function Distances(query: Vector, data: seq<Vector>): (d: seq<real>)
    requires Covers(data, query)
    ensures |d| == |data|
    ensures forall i :: 0 <= i < |d| ==> d[i] == L2(query, data[i], |query|)
  {
    seq(|data|, i requires 0 <= i < |data| => L2(query, data[i], |query|))
  }

  predicate Uniform(data: seq<Vector>, dim: nat) {
    forall i :: 0 <= i < |data| ==> |data[i]| == dim
  }

  /** The sum of coordinate i over the first n vectors. */
  function CoordinateSum(data: seq<Vector>, dim: nat, i: nat, n: nat): real
    requires Uniform(data, dim) && i < dim && n <= |data|
  {
    if n == 0 then 0.0 else CoordinateSum(data, dim, i, n - 1) + data[n - 1][i]
  }

  /** Coordinate by coordinate, the mean of the data. */
  predicate IsMean(centroid: Vector, data: seq<Vector>, dim: nat)
    requires Uniform(data, dim) && data != []
  {
    |centroid| == dim && forall i :: 0 <= i < dim ==>
      centroid[i] * |data| as real == CoordinateSum(data, dim, i, |data|)
  }

  method Centroid(data: seq<Vector>, dim: nat) returns (centroid: Vector)
    requires Uniform(data, dim) && data != []
    ensures IsMean(centroid, data, dim)
  {
    centroid := seq(dim, _ => 0.0);
    for v := 0 to |data|
      invariant |centroid| == dim
      invariant forall i :: 0 <= i < dim ==> centroid[i] == CoordinateSum(data, dim, i, v)
    {
      for i := 0 to dim
        invariant |centroid| == dim
        invariant forall j :: 0 <= j < i ==> centroid[j] == CoordinateSum(data, dim, j, v + 1)
        invariant forall j :: i <= j < dim ==> centroid[j] == CoordinateSum(data, dim, j, v)
      {
        centroid := centroid[i := centroid[i] + data[v][i]];
      }
    }
    var size := |data| as real;
    for i := 0 to dim
      invariant |centroid| == dim
      invariant forall j :: 0 <= j < i ==> centroid[j] * size == CoordinateSum(data, dim, j, |data|)
      invariant forall j :: i <= j < dim ==> centroid[j] == CoordinateSum(data, dim, j, |data|)
    {
      centroid := centroid[i := centroid[i] / size];
    }
  }
}
