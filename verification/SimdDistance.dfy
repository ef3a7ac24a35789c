/** The vector kernels for squared distances, lane by lane, over exact reals: eight lanes, four
    lanes, the scalar loop and the unrolled batch. */
module SimdDistance {
  import opened Vectors
  import opened Rows

  type Lanes = seq<real>

  function AddPs(a: Lanes, b: Lanes): (r: Lanes)
    requires |a| == |b|
    ensures |r| == |a|
  {
    seq(|a|, i requires 0 <= i < |a| => a[i] + b[i])
  }

  function SubPs(a: Lanes, b: Lanes): (r: Lanes)
    requires |a| == |b|
    ensures |r| == |a|
  {
    seq(|a|, i requires 0 <= i < |a| => a[i] - b[i])
  }

  /** A register times itself. */
  function SquarePs(a: Lanes): (r: Lanes)
    ensures |r| == |a|
  {
    seq(|a|, i requires 0 <= i < |a| => Square(a[i]))
  }

  /** Duplicates the odd lanes. */
  function MoveHdup(a: Lanes): (r: Lanes)
    requires |a| == 4
    ensures |r| == 4
  {
    [a[1], a[1], a[3], a[3]]
  }

  /** The upper half of b below the upper half of a. */
  function MoveHl(a: Lanes, b: Lanes): (r: Lanes)
    requires |a| == 4 && |b| == 4
    ensures |r| == 4
  {
    [b[2], b[3], a[2], a[3]]
  }

  /** Adds the lowest lanes only. */
  function AddSs(a: Lanes, b: Lanes): (r: Lanes)
    requires |a| == 4 && |b| == 4
    ensures |r| == 4
  {
    [a[0] + b[0], a[1], a[2], a[3]]
  }

  function LaneSum(a: Lanes): real {
    if a == [] then 0.0 else LaneSum(a[..|a| - 1]) + a[|a| - 1]
  }

  lemma {:induction false} LaneSumAdds(a: Lanes, b: Lanes)
    requires |a| == |b|
    ensures LaneSum(AddPs(a, b)) == LaneSum(a) + LaneSum(b)
  {
    if a != [] {
      var n := |a| - 1;
      LaneSumAdds(a[..n], b[..n]);
      assert AddPs(a, b)[..n] == AddPs(a[..n], b[..n]);
    }
  }

  function Load(a: Vector, i: nat, width: nat): (r: Lanes)
    requires i + width <= |a|
    ensures |r| == width
  {
    a[i..i + width]
  }

  /** The squared differences of `width` coordinates, one a lane, add up to what those coordinates
      add to the distance. */
  lemma {:induction false} LanesAreDistance(a: Vector, b: Vector, i: nat, width: nat)
    requires i + width <= |a| && i + width <= |b|
    ensures LaneSum(SquarePs(SubPs(Load(a, i, width), Load(b, i, width)))) == L2(a, b, i + width) - L2(a, b, i)
  {
    var squares := SquarePs(SubPs(Load(a, i, width), Load(b, i, width)));
    if width > 0 {
      LanesAreDistance(a, b, i, width - 1);
      assert squares[..width - 1] == SquarePs(SubPs(Load(a, i, width - 1), Load(b, i, width - 1)));
      assert squares[width - 1] == Square(a[i + width - 1] - b[i + width - 1]);
    }
  }

  method L2DistanceSqScalar(a: Vector, b: Vector, dim: nat) returns (sum: real)
    requires dim <= |a| && dim <= |b|
    ensures sum == L2(a, b, dim)
  {
    sum := 0.0;
    for i := 0 to dim
      invariant sum == L2(a, b, i)
    {
      var diff := a[i] - b[i];
      sum := sum + diff * diff;
    }
  }

  /** The main loop of both kernels: the lanes together hold the distance so far. */
  method Accumulate(a: Vector, b: Vector, dim: nat, width: nat) returns (sumVec: Lanes, i: nat)
    requires dim <= |a| && dim <= |b| && width > 0
    ensures |sumVec| == width && i == dim - dim % width
    ensures LaneSum(sumVec) == L2(a, b, i)
  {
    sumVec, i := seq(width, _ => 0.0), 0;
    ZeroLanes(width);
    var mainEnd := dim - dim % width;
    MultipleOf(dim, width);
    ghost var steps := 0;
    while i < mainEnd
      invariant |sumVec| == width && i <= mainEnd && i == RowStart(steps, width)
      invariant LaneSum(sumVec) == L2(a, b, i)
      decreases mainEnd - i
    {
      StepFits(steps, dim / width, width);
      var diff := SubPs(Load(a, i, width), Load(b, i, width));
      var sq := SquarePs(diff);
      LaneSumAdds(sumVec, sq);
      LanesAreDistance(a, b, i, width);
      sumVec := AddPs(sumVec, sq);
      i, steps := i + width, steps + 1;
    }
  }

  lemma {:induction false} ZeroLanes(width: nat)
    ensures LaneSum(seq(width, _ => 0.0)) == 0.0
  {
    if width > 0 {
      ZeroLanes(width - 1);
      assert seq(width, _ => 0.0)[..width - 1] == seq(width - 1, _ => 0.0);
    }
  }

  /** The main loop ends on a whole number of steps. */
  lemma MultipleOf(dim: nat, width: nat)
    requires width > 0
    ensures dim - dim % width == RowStart(dim / width, width)
  {
    RowStartIsProduct(dim / width, width);
  }

  lemma StepFits(steps: nat, rows: nat, width: nat)
    requires RowStart(steps, width) < RowStart(rows, width)
    ensures RowStart(steps, width) + width <= RowStart(rows, width)
  {
    if steps < rows {
      RowInside(steps, rows, width);
    } else if rows < steps {
      RowInside(rows, steps, width);
    }
  }

  /** Adds up four lanes. */
  method ReduceFour(sum128: Lanes) returns (total: real)
    requires |sum128| == 4
    ensures total == LaneSum(sum128)
  {
    var shuf := MoveHdup(sum128);
    var sums := AddPs(sum128, shuf);
    shuf := MoveHl(shuf, sums);
    sums := AddSs(sums, shuf);
    total := sums[0];
    FourLanes(sum128);
  }

  lemma FourLanes(v: Lanes)
    requires |v| == 4
    ensures LaneSum(v) == v[0] + v[1] + v[2] + v[3]
  {
    assert v[..3][..2] == v[..2] && v[..2][..1] == v[..1] && v[..1][..0] == [];
    assert LaneSum(v[..1]) == v[0];
    assert LaneSum(v[..2]) == v[0] + v[1];
    assert LaneSum(v[..3]) == v[0] + v[1] + v[2];
  }

  lemma {:induction false} LaneSumSplits(lo: Lanes, hi: Lanes)
    ensures LaneSum(lo + hi) == LaneSum(lo) + LaneSum(hi)
  {
    if hi == [] {
      assert lo + hi == lo;
    } else {
      LaneSumSplits(lo, hi[..|hi| - 1]);
      assert (lo + hi)[..|lo + hi| - 1] == lo + hi[..|hi| - 1];
    }
  }

  /** The coordinates left over after the last whole step. */
  method AddTail(a: Vector, b: Vector, dim: nat, start: nat, total0: real) returns (total: real)
    requires start <= dim <= |a| && dim <= |b| && total0 == L2(a, b, start)
    ensures total == L2(a, b, dim)
  {
    total := total0;
    for i := start to dim
      invariant total == L2(a, b, i)
    {
      var diff := a[i] - b[i];
      total := total + diff * diff;
    }
  }

  method L2DistanceSqAvx2(a: Vector, b: Vector, dim: nat) returns (total: real)
    requires dim <= |a| && dim <= |b|
    ensures total == L2(a, b, dim)
  {
    var sumVec, i := Accumulate(a, b, dim, 8);
    var hiLane, loLane := sumVec[4..], sumVec[..4];
    var sum128 := AddPs(loLane, hiLane);
    LaneSumAdds(loLane, hiLane);
    LaneSumSplits(loLane, hiLane);
    assert loLane + hiLane == sumVec;
    total := ReduceFour(sum128);
    total := AddTail(a, b, dim, i, total);
  }

  method L2DistanceSqSse(a: Vector, b: Vector, dim: nat) returns (total: real)
    requires dim <= |a| && dim <= |b|
    ensures total == L2(a, b, dim)
  {
    var sumVec, i := Accumulate(a, b, dim, 4);
    total := ReduceFour(sumVec);
    total := AddTail(a, b, dim, i, total);
  }

  /** Whatever the processor supports, the same distance. */
  method L2DistanceSqSimd(a: Vector, b: Vector, dim: nat, level: nat) returns (distance: real)
    requires dim <= |a| && dim <= |b|
    ensures distance == L2(a, b, dim)
  {
    if level >= 2 {
      distance := L2DistanceSqAvx2(a, b, dim);
    } else if level >= 1 {
      distance := L2DistanceSqSse(a, b, dim);
    } else {
      distance := L2DistanceSqScalar(a, b, dim);
    }
  }

  /** Vector i of a flat array of vectors. */
  function VectorOf(database: seq<real>, i: nat, dim: nat): (v: Vector)
    requires RowStart(i, dim) + dim <= |database|
    ensures |v| == dim
  {
    database[RowStart(i, dim)..RowStart(i, dim) + dim]
  }

  lemma VectorFits(i: nat, count: nat, dim: nat)
    requires i < count
    ensures RowStart(i, dim) + dim <= RowStart(count, dim)
  {
    RowInside(i, count, dim);
  }

  /** The distance of a query to vector i of a flat array. */
  ghost predicate IsDistance(d: real, query: Vector, database: seq<real>, i: nat, dim: nat)
    requires dim <= |query|
  {
    RowStart(i, dim) + dim <= |database| && d == L2(query, VectorOf(database, i, dim), dim)
  }

  method DistanceTo(query: Vector, database: seq<real>, i: nat, count: nat, dim: nat, level: nat)
    returns (distance: real)
    requires dim <= |query| && RowStart(count, dim) <= |database| && i < count
    ensures IsDistance(distance, query, database, i, dim)
  {
    VectorFits(i, count, dim);
    distance := L2DistanceSqSimd(query, VectorOf(database, i, dim), dim, level);
  }

  /** Distances of a query to every vector of a flat array, four at a time and then one at a time. */
  method BatchL2DistanceSqSimd(query: Vector, database: seq<real>, numVectors: nat, dim: nat, level: nat,
                               distances: array<real>)
    requires dim <= |query| && RowStart(numVectors, dim) <= |database| && numVectors <= distances.Length
    modifies distances
    ensures forall i :: 0 <= i < numVectors ==> IsDistance(distances[i], query, database, i, dim)
    ensures distances[numVectors..] == old(distances[numVectors..])
  {
    hide IsDistance;
    hide RowStart;
    var i := 0;
    var unrollEnd := numVectors - numVectors % 4;
    while i < unrollEnd
      invariant i <= unrollEnd && i % 4 == 0
      invariant forall j :: 0 <= j < i ==> IsDistance(distances[j], query, database, j, dim)
      invariant distances[numVectors..] == old(distances[numVectors..])
    {
      var d0 := DistanceTo(query, database, i, numVectors, dim, level);
      var d1 := DistanceTo(query, database, i + 1, numVectors, dim, level);
      var d2 := DistanceTo(query, database, i + 2, numVectors, dim, level);
      var d3 := DistanceTo(query, database, i + 3, numVectors, dim, level);
      distances[i] := d0;
      distances[i + 1] := d1;
      distances[i + 2] := d2;
      distances[i + 3] := d3;
      i := i + 4;
    }
    while i < numVectors
      invariant i <= numVectors
      invariant forall j :: 0 <= j < i ==> IsDistance(distances[j], query, database, j, dim)
      invariant distances[numVectors..] == old(distances[numVectors..])
    {
      distances[i] := DistanceTo(query, database, i, numVectors, dim, level);
      i := i + 1;
    }
  }
}
