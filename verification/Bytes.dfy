/** Bytes on disk: little-endian integers, the bit patterns of floats and the numbers they denote,
    fields that lie one after the other in a buffer, and blocks that are filled from the front. */
module Bytes {
  import opened Sequences

  type Byte = b: nat | b < 0x100
  type Word = w: nat | w < 0x1_0000_0000
  type DoubleWord = w: nat | w < 0x1_0000_0000_0000_0000

  /** The four bytes a uint32_t or float occupies in memory. */
  function WordBytes(w: Word): (r: seq<Byte>)
    ensures |r| == 4
  {
    [w % 0x100, (w / 0x100) % 0x100, (w / 0x1_0000) % 0x100, w / 0x100_0000]
  }

  function WordAt(s: seq<Byte>, at: nat): Word
    requires at + 4 <= |s|
  {
    (s[at] as int) + 0x100 * (s[at + 1] as int) + 0x1_0000 * (s[at + 2] as int) + 0x100_0000 * (s[at + 3] as int)
  }

  /** The base-256 digits of a word add up to it. */
  lemma WordDigits(w: nat)
    ensures w % 0x100 + 0x100 * ((w / 0x100) % 0x100) + 0x1_0000 * ((w / 0x1_0000) % 0x100)
          + 0x100_0000 * (w / 0x100_0000) == w
  {
    assert w / 0x1_0000 == w / 0x100 / 0x100;
    assert w / 0x100_0000 == w / 0x1_0000 / 0x100;
  }

  /** The low byte comes first. */
  lemma LowByteFirst(w: Word)
    ensures var b := WordBytes(w); 
      (b[0] as int) + 0x100 * (b[1] as int) + 0x1_0000 * (b[2] as int) + 0x100_0000 * (b[3] as int) == w
  {
    WordDigits(w);
  }

  lemma WordRoundTrip(s: seq<Byte>, at: nat, w: Word)
    requires at + 4 <= |s| && s[at..at + 4] == WordBytes(w)
    ensures WordAt(s, at) == w
  {
    var t := s[at..at + 4];
    assert s[at] == t[0] && s[at + 1] == t[1] && s[at + 2] == t[2] && s[at + 3] == t[3];
    WordDigits(w);
  }

  /** The eight bytes of a uint64_t. */
  function DoubleBytes(w: DoubleWord): (r: seq<Byte>)
    ensures |r| == 8
  {
    WordBytes(w % 0x1_0000_0000) + WordBytes(w / 0x1_0000_0000)
  }

  function DoubleAt(s: seq<Byte>, at: nat): DoubleWord
    requires at + 8 <= |s|
  {
    (WordAt(s, at) as int) + 0x1_0000_0000 * (WordAt(s, at + 4) as int)
  }

  lemma DoubleRoundTrip(s: seq<Byte>, at: nat, w: DoubleWord)
    requires at + 8 <= |s| && s[at..at + 8] == DoubleBytes(w)
    ensures DoubleAt(s, at) == w
  {
    var t := s[at..at + 8];
    assert s[at..at + 4] == t[..4] == WordBytes(w % 0x1_0000_0000);
    assert s[at + 4..at + 8] == t[4..] == WordBytes(w / 0x1_0000_0000);
    WordRoundTrip(s, at, w % 0x1_0000_0000);
    WordRoundTrip(s, at + 4, w / 0x1_0000_0000);
  }

  /** The bytes of an array of words. */
  function WordsBytes(ws: seq<Word>): (r: seq<Byte>)
    ensures |r| == 4 * |ws|
  {
    if ws == [] then [] else WordsBytes(ws[..|ws| - 1]) + WordBytes(ws[|ws| - 1])
  }

  /** Copies `count` words out of a buffer. */
  function WordsAt(s: seq<Byte>, at: nat, count: nat): (r: seq<Word>)
    requires at + 4 * count <= |s|
    ensures |r| == count
  {
    if count == 0 then [] else WordsAt(s, at, count - 1) + [WordAt(s, at + 4 * (count - 1))]
  }

  /** A buffer that starts with two fields has each of them in its place. */
  lemma TakeField(s: seq<Byte>, before: seq<Byte>, field: seq<Byte>)
    requires |before| + |field| <= |s| && s[..|before| + |field|] == before + field
    ensures s[..|before|] == before
    ensures s[|before|..|before| + |field|] == field
  {
    assert s[..|before|] == s[..|before| + |field|][..|before|];
    assert s[|before|..|before| + |field|] == s[..|before| + |field|][|before|..];
  }

  lemma {:induction false} WordsRoundTrip(s: seq<Byte>, at: nat, ws: seq<Word>)
    requires at + 4 * |ws| <= |s| && s[at..at + 4 * |ws|] == WordsBytes(ws)
    ensures WordsAt(s, at, |ws|) == ws
  {
    if ws != [] {
      var last := |ws| - 1;
      var whole, mid := WordsBytes(ws), at + 4 * last;
      assert s[at..mid] == s[at..at + 4 * |ws|][..4 * last] == whole[..4 * last] == WordsBytes(ws[..last]);
      assert s[mid..mid + 4] == s[at..at + 4 * |ws|][4 * last..] == whole[4 * last..] == WordBytes(ws[last]);
      WordsRoundTrip(s, at, ws[..last]);
      WordRoundTrip(s, at + 4 * last, ws[last]);
    }
  }

  function Zeros(n: nat): (r: seq<Byte>)
    ensures |r| == n
  {
    seq(n, _ => 0)
  }

  // ---------------------------------------------------------------------------------------
  // Blocks filled from the front
  // ---------------------------------------------------------------------------------------

  /** Disk records and log records are one block each. */
  const BLOCK_SIZE: nat := 4096

  /** A block whose used part is followed by zeros. */
  function Padded(used: seq<Byte>): (block: seq<Byte>)
    requires |used| <= BLOCK_SIZE
    ensures |block| == BLOCK_SIZE && block[..|used|] == used
  {
    used + Zeros(BLOCK_SIZE - |used|)
  }

  /** Writing right after the used part of a zeroed block extends the used part. */
  lemma PutAppends(used: seq<Byte>, bytes: seq<Byte>)
    requires |used| + |bytes| <= BLOCK_SIZE
    ensures Splice(Padded(used), |used|, bytes) == Padded(used + bytes)
  {
  }

  // ---------------------------------------------------------------------------------------
  // The number a float's bits denote
  // ---------------------------------------------------------------------------------------

  function Pow2(e: int): real
    decreases if e < 0 then -e else e
  {
    if e == 0 then 1.0 else if e > 0 then 2.0 * Pow2(e - 1) else Pow2(e + 1) / 2.0
  }

  /** The value of an IEEE 754 single: infinities and NaNs, which the model does not
      distinguish, count as zero. */
  function FloatValue(w: Word): real {
    var negative, exponent, fraction := w >= 0x8000_0000, (w / 0x80_0000) % 0x100, w % 0x80_0000;
    var magnitude :=
      if exponent == 255 then 0.0
      else if exponent == 0 then fraction as real * Pow2(-149)
      else (0x80_0000 + fraction) as real * Pow2(exponent - 150);
    if negative then -magnitude else magnitude
  }

  function FloatValues(ws: seq<Word>): (r: seq<real>)
    ensures |r| == |ws|
    ensures forall i :: 0 <= i < |ws| ==> r[i] == FloatValue(ws[i])
  {
    seq(|ws|, i requires 0 <= i < |ws| => FloatValue(ws[i]))
  }
}
