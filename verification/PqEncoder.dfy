/** The encoder object and the per-query distance table: the loops over subspaces, centroids and
    codes that compute what the quantiser specifies. */
module PqEncoders {
  import opened Vectors
  import opened ProductQuantizer

  class PQEncoder {
    const m: nat
    const k: nat
    const subDim: nat
    var codebooks: Codebooks
    var trained: bool

    ghost predicate Valid()
      reads this
    {
      k >= 1 && |codebooks| == m && HasShape(codebooks, k, subDim)
    }

    /** Codebooks start out as zero vectors. */
    constructor (dim: nat, m: nat, k: nat)
      requires m >= 1 && dim % m == 0 && k >= 1
      ensures Valid() && !trained
      ensures this.m == m && this.k == k && m * subDim == dim
    {
      this.m := m;
      this.k := k;
      subDim := dim / m;
      codebooks := seq(m, _ => seq(k, _ => seq(dim / m, _ => 0.0)));
      trained := false;
    }

    method ExtractSubvector(vector: Vector, j: nat) returns (sub: Vector)
      requires (j + 1) * subDim <= |vector|
      ensures sub == Sub(vector, j, subDim)
    {
      var offset := j * subDim;
      assert offset + subDim == (j + 1) * subDim;
      sub := [];
      for d := 0 to subDim
        invariant sub == vector[offset..offset + d]
      {
        sub := sub + [vector[offset + d]];
      }
    }

    method FindNearestCentroid(sub: Vector, j: nat) returns (code: Code)
      requires Valid() && j < m && |sub| == subDim
      ensures code == NearestOf(sub, codebooks[j], k) % 256
    {
      var best, minDist := 0, L2(sub, codebooks[j][0], |sub|);
      for i := 1 to k
        invariant best < i && minDist == L2(sub, codebooks[j][best], |sub|)
        invariant best == NearestOf(sub, codebooks[j], i)
      {
        var dist := L2(sub, codebooks[j][i], |sub|);
        if dist < minDist {
          minDist := dist;
          best := i;
        }
      }
      code := best % 256;
    }

    method Encode(vector: Vector) returns (codes: seq<Code>)
      requires Valid() && trained && |vector| == m * subDim
      ensures codes == Encoded(vector, codebooks, k, subDim)
    {
      codes := [];
      for j := 0 to m
        invariant codes == Encoded(vector, codebooks, k, subDim)[..j]
      {
        assert SubInside(j, m, subDim);
        var sub := ExtractSubvector(vector, j);
        var code := FindNearestCentroid(sub, j);
        codes := codes + [code];
      }
    }

    method Decode(codes: seq<Code>) returns (vector: Vector)
      requires Valid() && trained && ValidCodes(codes, codebooks, k)
      ensures vector == Decoded(codes, codebooks, k, subDim)
    {
      vector := [];
      for j := 0 to m
        invariant vector == Decoded(codes[..j], codebooks[..j], k, subDim)
      {
        assert codes[..j + 1][..j] == codes[..j] && codebooks[..j + 1][..j] == codebooks[..j];
        var centroid := codebooks[j][codes[j]];
        ghost var before := vector;
        for d := 0 to subDim
          invariant vector == before + centroid[..d]
        {
          vector := vector + [centroid[d]];
        }
        assert centroid[..subDim] == centroid;
      }
      assert codes[..m] == codes && codebooks[..m] == codebooks;
    }
  }

  /** A table row: the distances of the query's j-th subvector to the centroids of codebook j. */
  ghost predicate RowFor(row: seq<real>, query: Vector, j: nat, books: Codebooks, k: nat, sd: nat)
    requires HasShape(books, k, sd) && |query| == |books| * sd && j < |books|
  {
    && |row| == k && SubInside(j, |books|, sd)
    && forall i :: 0 <= i < k ==> row[i] == L2(Sub(query, j, sd), books[j][i], sd)
  }

  /** Distances of one query's subvectors to every centroid. */
  class PQDistanceTable {
    var table: seq<seq<real>>
    var built: bool

    constructor ()
      ensures !built
    {
      table, built := [], false;
    }

    /** The table holds the query's distances under the given codebooks. */
    ghost predicate TableFor(query: Vector, books: Codebooks, k: nat, sd: nat)
      requires HasShape(books, k, sd) && |query| == |books| * sd
      reads this
    {
      built && |table| == |books| && forall j :: 0 <= j < |books| ==> RowFor(table[j], query, j, books, k, sd)
    }

    method Build(query: Vector, encoder: PQEncoder)
      requires encoder.Valid() && encoder.trained && |query| == encoder.m * encoder.subDim
      modifies this
      ensures TableFor(query, encoder.codebooks, encoder.k, encoder.subDim)
    {
      var rows: seq<seq<real>> := [];
      var books, sd := encoder.codebooks, encoder.subDim;
      for j := 0 to encoder.m
        invariant |rows| == j && forall p :: 0 <= p < j ==> RowFor(rows[p], query, p, books, encoder.k, sd)
      {
        assert SubInside(j, encoder.m, sd);
        var querySub := Sub(query, j, sd);
        var row: seq<real> := [];
        for i := 0 to encoder.k
          invariant |row| == i && forall p :: 0 <= p < i ==> row[p] == L2(querySub, books[j][p], sd)
        {
          row := row + [L2(querySub, books[j][i], sd)];
        }
        rows := rows + [row];
      }
      table, built := rows, true;
    }

    /** One lookup a subspace. The sum is the squared distance to the decoded vector. */
    method ComputeDistance(codes: seq<Code>, ghost query: Vector, encoder: PQEncoder) returns (total: real)
      requires encoder.Valid() && |query| == encoder.m * encoder.subDim
      requires TableFor(query, encoder.codebooks, encoder.k, encoder.subDim)
      requires ValidCodes(codes, encoder.codebooks, encoder.k)
      ensures total == L2(query, Decoded(codes, encoder.codebooks, encoder.k, encoder.subDim), |query|)
    {
      total := 0.0;
      for j := 0 to encoder.m
        invariant total == TableSum(query, codes, encoder.codebooks, encoder.k, encoder.subDim, j)
      {
        assert SubInside(j, encoder.m, encoder.subDim);
        assert RowFor(table[j], query, j, encoder.codebooks, encoder.k, encoder.subDim);
        total := total + table[j][codes[j]];
      }
      TableSumIsDistance(query, codes, encoder.codebooks, encoder.k, encoder.subDim);
    }
  }
}
