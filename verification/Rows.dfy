/** Rows of equal width laid out one after the other: where each starts, written as a sum so that
    proofs need no multiplication of unknowns, and that rows do not overlap. */
module Rows {
  /** Where a row starts: row * width, as a sum. */
  function RowStart(row: nat, width: nat): nat {
    if row == 0 then 0 else RowStart(row - 1, width) + width
  }

  lemma {:induction false} RowStartIsProduct(row: nat, width: nat)
    ensures RowStart(row, width) == row * width
  {
    if row > 0 {
      RowStartIsProduct(row - 1, width);
      assert row * width == (row - 1) * width + width;
    }
  }

  /** Rows lie inside the array. */
  lemma {:induction false} RowInside(row: nat, rows: nat, width: nat)
    requires row < rows
    ensures RowStart(row, width) + width <= RowStart(rows, width)
  {
    if row + 1 < rows { RowInside(row, rows - 1, width); }
  }

  /** Rows of different nodes do not overlap. */
  lemma RowsApart(a: nat, b: nat, width: nat)
    requires a != b
    ensures RowStart(a, width) + width <= RowStart(b, width) || RowStart(b, width) + width <= RowStart(a, width)
  {
    if a < b { RowInside(a, b, width); } else { RowInside(b, a, width); }
  }
}
