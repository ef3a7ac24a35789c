/** The 1024-bit Bloom filter of a flushed table: three hashed bits an id, set in an array of
    bytes. */
module BloomFilters {
  import opened Bytes
  import opened Bits

  const BLOOM_FILTER_BITS: nat := 1024

  function Hash1(id: Word): (h: nat)
    ensures h < BLOOM_FILTER_BITS
  {
    id % BLOOM_FILTER_BITS
  }

  function Hash2(id: Word): (h: nat)
    ensures h < BLOOM_FILTER_BITS
  {
    (id * 31 + 7) % BLOOM_FILTER_BITS
  }

  function Hash3(id: Word): (h: nat)
    ensures h < BLOOM_FILTER_BITS
  {
    (id * 37 + 13) % BLOOM_FILTER_BITS
  }

  /** Whether bit h of the bit array is set. */
  predicate BitAt(filter: seq<bv8>, h: nat)
    requires |filter| == BLOOM_FILTER_BITS / 8 && h < BLOOM_FILTER_BITS
  {
    IsSet(filter[h / 8], h % 8)
  }

  function Raise(filter: seq<bv8>, h: nat): (r: seq<bv8>)
    requires |filter| == BLOOM_FILTER_BITS / 8 && h < BLOOM_FILTER_BITS
    ensures |r| == |filter|
  {
    filter[h / 8 := WithBit(filter[h / 8], h % 8)]
  }

  lemma RaiseSetsOne(filter: seq<bv8>, h: nat, g: nat)
    requires |filter| == BLOOM_FILTER_BITS / 8 && h < BLOOM_FILTER_BITS && g < BLOOM_FILTER_BITS
    ensures BitAt(Raise(filter, h), g) <==> g == h || BitAt(filter, g)
  {
    if g / 8 == h / 8 {
      WithBitSetsOne(filter[h / 8], h % 8, g % 8);
    }
  }

  /** No filter at all passes every id. */
  predicate MayContain(filter: seq<bv8>, id: Word)
    requires filter == [] || |filter| == BLOOM_FILTER_BITS / 8
  {
    filter != [] ==> BitAt(filter, Hash1(id)) && BitAt(filter, Hash2(id)) && BitAt(filter, Hash3(id))
  }

  /** Bit h is one of the three of an id. */
  predicate IsBitOf(id: Word, h: nat) {
    h == id % 1024 || h == (31 * id + 7) % 1024 || h == (37 * id + 13) % 1024
  }

  /** Some id hashes to bit h. */
  predicate Marked(ids: seq<Word>, h: nat) {
    exists i :: 0 <= i < |ids| && IsBitOf(ids[i], h)
  }

  function RaiseThree(filter: seq<bv8>, id: Word): (r: seq<bv8>)
    requires |filter| == BLOOM_FILTER_BITS / 8
    ensures |r| == |filter|
  {
    Raise(Raise(Raise(filter, Hash1(id)), Hash2(id)), Hash3(id))
  }

  /** The filter of a list of ids. */
  function BloomOf(ids: seq<Word>): (filter: seq<bv8>)
    ensures |filter| == BLOOM_FILTER_BITS / 8
  {
    if ids == [] then seq(BLOOM_FILTER_BITS / 8, _ => 0)
    else RaiseThree(BloomOf(ids[..|ids| - 1]), ids[|ids| - 1])
  }

  lemma MarkedLast(ids: seq<Word>, h: nat)
    requires ids != []
    ensures var id := ids[|ids| - 1];
      Marked(ids, h) <==> Marked(ids[..|ids| - 1], h) || h == Hash1(id) || h == Hash2(id) || h == Hash3(id)
  {
    var before := ids[..|ids| - 1];
    assert forall j :: 0 <= j < |before| ==> ids[j] == before[j];
  }

  /** A bit ends up set exactly when some id hashes to it. */
  lemma {:induction false} BitsAreMarks(ids: seq<Word>, h: nat)
    requires h < BLOOM_FILTER_BITS
    ensures BitAt(BloomOf(ids), h) <==> Marked(ids, h)
  {
    if ids == [] {
      ZeroHasNoBits(h % 8);
    } else {
      var before, id := ids[..|ids| - 1], ids[|ids| - 1];
      BitsAreMarks(before, h);
      var filter := BloomOf(before);
      RaiseSetsOne(filter, Hash1(id), h);
      RaiseSetsOne(Raise(filter, Hash1(id)), Hash2(id), h);
      RaiseSetsOne(Raise(Raise(filter, Hash1(id)), Hash2(id)), Hash3(id), h);
      MarkedLast(ids, h);
    }
  }

  /** An id passes the filter exactly when each of its three bits was set by some listed id. */
  lemma PassesExactly(ids: seq<Word>, id: Word)
    ensures MayContain(BloomOf(ids), id) <==> forall h: nat :: IsBitOf(id, h) ==> Marked(ids, h)
  {
    hide Marked;
    hide BitAt;
    hide BloomOf;
    BitsAreMarks(ids, Hash1(id));
    BitsAreMarks(ids, Hash2(id));
    BitsAreMarks(ids, Hash3(id));
    assert IsBitOf(id, Hash1(id)) && IsBitOf(id, Hash2(id)) && IsBitOf(id, Hash3(id));
  }

  /** A filter never denies an id it was built from. */
  lemma NoFalseNegatives(ids: seq<Word>, id: Word)
    requires id in ids
    ensures MayContain(BloomOf(ids), id)
  {
    PassesExactly(ids, id);
    var i :| 0 <= i < |ids| && ids[i] == id;
  }

  /** Sets three bits an id, in place. */
  method BuildBloomFilter(ids: seq<Word>) returns (filter: seq<bv8>)
    ensures filter == BloomOf(ids)
  {
    filter := seq(BLOOM_FILTER_BITS / 8, _ => 0);
    for i := 0 to |ids|
      invariant |filter| == BLOOM_FILTER_BITS / 8
      invariant filter == BloomOf(ids[..i])
    {
      var id := ids[i];
      assert ids[..i + 1][..i] == ids[..i];
      var h1, h2, h3 := Hash1(id), Hash2(id), Hash3(id);
      filter := Raise(filter, h1);
      filter := Raise(filter, h2);
      filter := Raise(filter, h3);
    }
    assert ids[..|ids|] == ids;
  }
}
