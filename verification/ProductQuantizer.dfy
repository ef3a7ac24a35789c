/** Product quantisation and its distance tables. */
module ProductQuantizer {
  // A vector is cut into m subvectors, each replaced by the index of its nearest centroid; a
  // per-query table turns codes into distances.

  import opened Vectors

  type Codebooks = seq<seq<Vector>>
  type Code = c: nat | c < 256

  /** m codebooks of k centroids of sub-dimension sd. */
  predicate HasShape(books: Codebooks, k: nat, sd: nat) {
    forall j :: 0 <= j < |books| ==> |books[j]| == k && forall i :: 0 <= i < k ==> |books[j][i]| == sd
  }

  predicate ValidCodes(codes: seq<Code>, books: Codebooks, k: nat) {
    |codes| == |books| && forall j :: 0 <= j < |codes| ==> codes[j] < k
  }

  /** The j-th subvector. */
  function Sub(v: Vector, j: nat, sd: nat): (s: Vector)
    requires (j + 1) * sd <= |v|
    ensures |s| == sd
  {
    assert j * sd + sd == (j + 1) * sd;
    v[j * sd..(j + 1) * sd]
  }

  // ---------------------------------------------------------------------------------------
  // Nearest centroid
  // ---------------------------------------------------------------------------------------

  /** The lowest index among the first n centroids that is nearest to x. */
  function NearestOf(x: Vector, centroids: seq<Vector>, n: nat): (best: nat)
    requires 1 <= n <= |centroids| && forall i :: 0 <= i < |centroids| ==> |centroids[i]| == |x|
    ensures best < n
  {
    if n == 1 then 0
    else
      var best := NearestOf(x, centroids, n - 1);
      if L2(x, centroids[n - 1], |x|) < L2(x, centroids[best], |x|) then n - 1 else best
  }

  lemma {:induction false} NearestIsLeast(x: Vector, centroids: seq<Vector>, n: nat)
    requires 1 <= n <= |centroids| && forall i :: 0 <= i < |centroids| ==> |centroids[i]| == |x|
    ensures var best := NearestOf(x, centroids, n);
      && (forall i :: 0 <= i < n ==> L2(x, centroids[best], |x|) <= L2(x, centroids[i], |x|))
      && (forall i :: 0 <= i < best ==> L2(x, centroids[best], |x|) < L2(x, centroids[i], |x|))
  {
    if n > 1 {
      NearestIsLeast(x, centroids, n - 1);
    }
  }

  // ---------------------------------------------------------------------------------------
  // Encoding, decoding and the distance table
  // ---------------------------------------------------------------------------------------

  /** The indices of the nearest centroids, cut to a byte. */
  function Encoded(v: Vector, books: Codebooks, k: nat, sd: nat): (codes: seq<Code>)
    requires k >= 1 && HasShape(books, k, sd) && |v| == |books| * sd
    ensures |codes| == |books|
    ensures forall j :: 0 <= j < |books| ==>
      SubInside(j, |books|, sd) && codes[j] == NearestOf(Sub(v, j, sd), books[j], k) % 256
  {
    seq(|books|, j requires 0 <= j < |books| =>
      assert SubInside(j, |books|, sd);
      NearestOf(Sub(v, j, sd), books[j], k) % 256)
  }

  /** True of every subspace; it reminds the verifier of the bound. */
  predicate SubInside(j: nat, m: nat, sd: nat)
    requires j < m
    ensures SubInside(j, m, sd) && (j + 1) * sd <= m * sd
  {
    SubBound(j, m, sd);
    (j + 1) * sd <= m * sd
  }

  lemma SubBound(j: nat, m: nat, sd: nat)
    requires j < m
    ensures (j + 1) * sd <= m * sd
  {
    assert m * sd - (j + 1) * sd == (m - j - 1) * sd;
  }

  /** The centroids the codes name, one after the other. */
  function Decoded(codes: seq<Code>, books: Codebooks, k: nat, sd: nat): (v: Vector)
    requires HasShape(books, k, sd) && ValidCodes(codes, books, k)
    ensures |v| == |books| * sd
  {
    if books == [] then []
    else
      var last := |books| - 1;
      assert last * sd + sd == |books| * sd;
      Decoded(codes[..last], books[..last], k, sd) + books[last][codes[last]]
  }

  /** Coordinate i of subspace j is that of the centroid the j-th code names. */
  lemma {:induction false} DecodedAt(codes: seq<Code>, books: Codebooks, k: nat, sd: nat, j: nat, i: nat)
    requires HasShape(books, k, sd) && ValidCodes(codes, books, k) && j < |books| && i < sd
    ensures j * sd + i < |Decoded(codes, books, k, sd)|
    ensures Decoded(codes, books, k, sd)[j * sd + i] == books[j][codes[j]][i]
  {
    var last := |books| - 1;
    assert last * sd + sd == |books| * sd;
    if j < last {
      SubBound(j, last, sd);
      DecodedAt(codes[..last], books[..last], k, sd, j, i);
    }
  }

  /** The sum of one table entry a subspace: entry (j, i) is the distance of the query's j-th
      subvector to the i-th centroid of codebook j. */
  function TableSum(q: Vector, codes: seq<Code>, books: Codebooks, k: nat, sd: nat, n: nat): real
    requires HasShape(books, k, sd) && ValidCodes(codes, books, k) && |q| == |books| * sd && n <= |books|
  {
    if n == 0 then 0.0
    else
      assert SubInside(n - 1, |books|, sd);
      TableSum(q, codes, books, k, sd, n - 1) + L2(Sub(q, n - 1, sd), books[n - 1][codes[n - 1]], sd)
  }

  // ---------------------------------------------------------------------------------------
  // Main results
  // ---------------------------------------------------------------------------------------

  /** Sums over a concatenation split. */
  lemma {:induction false} L2Append(a: Vector, b: Vector, x: Vector, y: Vector, n: nat)
    requires |a| == |b| && n <= |x| && n <= |y|
    ensures L2(a + x, b + y, |a| + n) == L2(a, b, |a|) + L2(x, y, n)
  {
    if n == 0 {
      L2Prefix(a + x, b + y, a, b, |a|);
    } else {
      L2Append(a, b, x, y, n - 1);
    }
  }

  lemma {:induction false} L2Prefix(a: Vector, b: Vector, x: Vector, y: Vector, n: nat)
    requires n <= |a| && n <= |b| && n <= |x| && n <= |y|
    requires forall i :: 0 <= i < n ==> a[i] == x[i] && b[i] == y[i]
    ensures L2(a, b, n) == L2(x, y, n)
  {
    if n > 0 { L2Prefix(a, b, x, y, n - 1); }
  }

  /** In exact arithmetic the table sum is the squared distance to the decoded vector. */
  lemma {:induction false} TableSumIsDistance(q: Vector, codes: seq<Code>, books: Codebooks, k: nat, sd: nat)
    requires HasShape(books, k, sd) && ValidCodes(codes, books, k) && |q| == |books| * sd
    ensures TableSum(q, codes, books, k, sd, |books|) == L2(q, Decoded(codes, books, k, sd), |q|)
  {
    if books != [] {
      var last := |books| - 1;
      assert SubInside(last, |books|, sd);
      assert last * sd + sd == |books| * sd;
      var head, tail := q[..last * sd], Sub(q, last, sd);
      TableSumIsDistance(head, codes[..last], books[..last], k, sd);
      TableSumPrefix(q, codes, books, k, sd, last);
      L2Append(head, Decoded(codes[..last], books[..last], k, sd), tail, books[last][codes[last]], sd);
      assert q == head + tail;
    }
  }

  lemma {:induction false} TableSumPrefix(q: Vector, codes: seq<Code>, books: Codebooks, k: nat, sd: nat, n: nat)
    requires books != [] && HasShape(books, k, sd) && ValidCodes(codes, books, k) && |q| == |books| * sd
    requires n < |books|
    ensures var last := |books| - 1;
      && last * sd <= |q| && last * sd == |q[..last * sd]|
      && TableSum(q, codes, books, k, sd, n) == TableSum(q[..last * sd], codes[..last], books[..last], k, sd, n)
  {
    var last := |books| - 1;
    assert SubInside(last, |books|, sd);
    assert last * sd + sd == |books| * sd;
    if n > 0 {
      TableSumPrefix(q, codes, books, k, sd, n - 1);
      assert SubInside(n - 1, |books|, sd) && SubInside(n - 1, last, sd);
      assert Sub(q, n - 1, sd) == Sub(q[..last * sd], n - 1, sd);
    }
  }

  /** With at most 256 centroids an index survives the cut to a byte. */
  lemma EncodedCodes(v: Vector, books: Codebooks, k: nat, sd: nat)
    requires 1 <= k <= 256 && HasShape(books, k, sd) && |v| == |books| * sd
    ensures ValidCodes(Encoded(v, books, k, sd), books, k)
    ensures forall j :: 0 <= j < |books| ==>
      SubInside(j, |books|, sd) && Encoded(v, books, k, sd)[j] == NearestOf(Sub(v, j, sd), books[j], k)
  {
  }

  /** Encoding picks, in every subspace, the smallest table entry. */
  lemma {:induction false} EncodedSumIsLeast(v: Vector, other: seq<Code>, books: Codebooks, k: nat, sd: nat, n: nat)
    requires 1 <= k <= 256 && HasShape(books, k, sd) && ValidCodes(other, books, k) && |v| == |books| * sd
    requires n <= |books|
    requires ValidCodes(Encoded(v, books, k, sd), books, k)
    ensures TableSum(v, Encoded(v, books, k, sd), books, k, sd, n) <= TableSum(v, other, books, k, sd, n)
  {
    if n > 0 {
      EncodedSumIsLeast(v, other, books, k, sd, n - 1);
      EncodedCodes(v, books, k, sd);
      assert SubInside(n - 1, |books|, sd);
      NearestIsLeast(Sub(v, n - 1, sd), books[n - 1], k);
    }
  }

  /** Encoding minimises the reconstruction error over all k^m code vectors. */
  lemma EncodeIsOptimal(v: Vector, other: seq<Code>, books: Codebooks, k: nat, sd: nat)
    requires 1 <= k <= 256 && HasShape(books, k, sd) && ValidCodes(other, books, k) && |v| == |books| * sd
    ensures ValidCodes(Encoded(v, books, k, sd), books, k)
    ensures L2(v, Decoded(Encoded(v, books, k, sd), books, k, sd), |v|) <= L2(v, Decoded(other, books, k, sd), |v|)
  {
    EncodedCodes(v, books, k, sd);
    EncodedSumIsLeast(v, other, books, k, sd, |books|);
    TableSumIsDistance(v, other, books, k, sd);
    TableSumIsDistance(v, Encoded(v, books, k, sd), books, k, sd);
  }

  lemma {:induction false} ZeroDistance(a: Vector, b: Vector, n: nat)
    requires n <= |a| && n <= |b| && L2(a, b, n) == 0.0
    ensures forall i :: 0 <= i < n ==> a[i] == b[i]
  {
    if n > 0 {
      var d := a[n - 1] - b[n - 1];
      assert L2(a, b, n - 1) == 0.0 && Square(d) == 0.0;
      if d != 0.0 { SquarePositive(d); }
      ZeroDistance(a, b, n - 1);
    }
  }

  lemma SquarePositive(d: real)
    requires d != 0.0
    ensures Square(d) > 0.0
  {
    ProductPositive(d, d);
    calc { Square(d); == d * d; > 0.0; }
  }

  lemma ProductPositive(a: real, b: real)
    requires (a > 0.0 && b > 0.0) || (a < 0.0 && b < 0.0)
    ensures a * b > 0.0
  {
  }

  /** A decoded vector is a fixed point: encoding and decoding it again changes nothing. */
  lemma DecodeIsStable(codes: seq<Code>, books: Codebooks, k: nat, sd: nat)
    requires 1 <= k <= 256 && HasShape(books, k, sd) && ValidCodes(codes, books, k)
    ensures var v := Decoded(codes, books, k, sd);
      && ValidCodes(Encoded(v, books, k, sd), books, k)
      && Decoded(Encoded(v, books, k, sd), books, k, sd) == v
  {
    var v := Decoded(codes, books, k, sd);
    EncodeIsOptimal(v, codes, books, k, sd);
    L2Self(v, |v|);
    ZeroDistance(v, Decoded(Encoded(v, books, k, sd), books, k, sd), |v|);
  }
}
