/** The bitmap of visited nodes, one bit a node, and the set it stands for. Ids past its end count as
    visited, so that a search never follows them. */
module VisitedBitmaps {
  import opened Bits

  class VisitedBitmap {
    var size: nat
    var bitmap: array<bv8>

    ghost predicate Valid()
      reads this
    {
      bitmap.Length == (size + 7) / 8
    }

    /** The ids whose bit is set. */
    ghost function Contents(): (s: set<nat>)
      requires Valid()
      reads this, bitmap
      ensures forall id :: id in s ==> id < size
    {
      set id: nat | 0 <= id < size && IsSet(bitmap[id / 8], id % 8)
    }

    constructor (maxNumNodes: nat)
      ensures Valid() && fresh(bitmap)
      ensures size == maxNumNodes && Contents() == {}
    {
      size := maxNumNodes;
      bitmap := new bv8[(maxNumNodes + 7) / 8](_ => 0);
      new;
      assert forall id: nat :: id < size ==> !IsSet(bitmap[id / 8], id % 8) by {
        forall id: nat | id < size ensures !IsSet(bitmap[id / 8], id % 8) { ZeroHasNoBits(id % 8); }
      }
    }

    /** Ids past the end count as visited. */
    method Test(id: nat) returns (visited: bool)
      requires Valid()
      ensures visited <==> id >= size || id in Contents()
    {
      if id >= size { return true; }
      return IsSet(bitmap[id / 8], id % 8);
    }

    method Set(id: nat)
      requires Valid()
      modifies bitmap
      ensures Valid()
      ensures Contents() == old(Contents()) + if id < size then {id} else {}
    {
      if id >= size { return; }
      ghost var before := bitmap[id / 8];
      bitmap[id / 8] := WithBit(bitmap[id / 8], id % 8);
      forall other: nat | other < size
        ensures IsSet(bitmap[other / 8], other % 8) <==> other == id || old(IsSet(bitmap[other / 8], other % 8))
      {
        if other / 8 == id / 8 {
          WithBitSetsOne(before, id % 8, other % 8);
        }
      }
    }

    method Clear()
      requires Valid()
      modifies bitmap
      ensures Valid() && Contents() == {}
    {
      for i := 0 to bitmap.Length
        invariant Valid()
        invariant forall j :: 0 <= j < i ==> bitmap[j] == 0
      {
        bitmap[i] := 0;
      }
      forall id: nat | id < size ensures !IsSet(bitmap[id / 8], id % 8) {
        ZeroHasNoBits(id % 8);
      }
    }

    method Resize(maxNumNodes: nat)
      modifies this
      ensures Valid() && fresh(bitmap)
      ensures size == maxNumNodes && Contents() == {}
    {
      size := maxNumNodes;
      bitmap := new bv8[(maxNumNodes + 7) / 8](_ => 0);
      forall id: nat | id < size ensures !IsSet(bitmap[id / 8], id % 8) {
        ZeroHasNoBits(id % 8);
      }
    }
  }
}
