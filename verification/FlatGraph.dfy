/** The flat adjacency storage of the benchmark graph: one array with a row of `storageDegree` slots
    for each node and a byte that counts the neighbours in it, and the lists this stands for. */
module FlatGraphs {
  import opened Sequences
  import opened Rows
  import opened BestFirst

  predicate RowsFit(flat: seq<nat>, counts: seq<nat>, width: nat) {
    |flat| == RowStart(|counts|, width) && forall i :: 0 <= i < |counts| ==> counts[i] <= width
  }

  /** The used part of a row. */
  function RowOf(flat: seq<nat>, counts: seq<nat>, width: nat, node: nat): (r: seq<nat>)
    requires RowsFit(flat, counts, width) && node < |counts|
    ensures |r| == counts[node]
  {
    RowInside(node, |counts|, width);
    flat[RowStart(node, width) .. RowStart(node, width) + counts[node]]
  }

  /** The adjacency lists a flat array stands for. */
  function ListsOf(flat: seq<nat>, counts: seq<nat>, width: nat): (a: seq<seq<nat>>)
    requires RowsFit(flat, counts, width)
    ensures |a| == |counts|
    ensures forall i :: 0 <= i < |a| ==> a[i] == RowOf(flat, counts, width, i)
  {
    seq(|counts|, i requires 0 <= i < |counts| => RowOf(flat, counts, width, i))
  }

  /** Writing inside one row, and changing its count, changes only that node's list. */
  lemma OnlyRowChanges(flat: seq<nat>, counts: seq<nat>, flat': seq<nat>, width: nat, node: nat, count: nat)
    requires RowsFit(flat, counts, width) && node < |counts| && count <= width
    requires |flat'| == |flat|
    requires forall p :: 0 <= p < |flat| && !(RowStart(node, width) <= p < RowStart(node, width) + width) ==>
      flat'[p] == flat[p]
    ensures RowsFit(flat', counts[node := count], width)
    ensures ListsOf(flat', counts[node := count], width)
         == ListsOf(flat, counts, width)[node := RowOf(flat', counts[node := count], width, node)]
  {
    var counts' := counts[node := count];
    forall i | 0 <= i < |counts| && i != node
      ensures RowOf(flat', counts', width, i) == RowOf(flat, counts, width, i)
    {
      RowsApart(i, node, width);
      RowInside(i, |counts|, width);
    }
  }

  /** Writing the first free slot of a row appends to that node's list. */
  lemma SlotAppends(flat: seq<nat>, counts: seq<nat>, width: nat, node: nat, x: nat)
    requires RowsFit(flat, counts, width) && node < |counts| && counts[node] < width
    ensures RowStart(node, width) + counts[node] < |flat|
    ensures RowsFit(flat[RowStart(node, width) + counts[node] := x], counts[node := counts[node] + 1], width)
    ensures ListsOf(flat[RowStart(node, width) + counts[node] := x], counts[node := counts[node] + 1], width)
         == ListsOf(flat, counts, width)[node := RowOf(flat, counts, width, node) + [x]]
  {
    var at: nat := counts[node];
    RowInside(node, |counts|, width);
    var flat', counts' := flat[RowStart(node, width) + at := x], counts[node := at + 1];
    OnlyRowChanges(flat, counts, flat', width, node, at + 1);
    assert RowOf(flat', counts', width, node) == RowOf(flat, counts, width, node) + [x];
  }

  lemma FrontOfRow(flat: seq<nat>, counts: seq<nat>, width: nat, node: nat, count: nat)
    requires RowsFit(flat, counts, width) && node < |counts| && count <= counts[node]
    ensures RowStart(node, width) + count <= |flat|
    ensures flat[RowStart(node, width)..RowStart(node, width) + count] == ListsOf(flat, counts, width)[node][..count]
  {
    RowInside(node, |counts|, width);
  }

  /** Copies `count` elements, one at a time. */
  method CopySlots(target: seq<nat>, to: nat, source: seq<nat>, from: nat, count: nat) returns (r: seq<nat>)
    requires to + count <= |target| && from + count <= |source|
    ensures r == Splice(target, to, source[from..from + count])
  {
    r := target;
    for j := 0 to count
      invariant r == Splice(target, to, source[from..from + j])
    {
      assert source[from..from + j + 1] == source[from..from + j] + [source[from + j]];
      r := r[to + j := source[from + j]];
    }
  }

  /** Writing a list over the front of a row makes it that node's list. */
  lemma SpliceReplacesRow(flat: seq<nat>, counts: seq<nat>, width: nat, node: nat, list: seq<nat>)
    requires RowsFit(flat, counts, width) && node < |counts| && |list| <= width
    ensures RowStart(node, width) + |list| <= |flat|
    ensures RowsFit(Splice(flat, RowStart(node, width), list), counts[node := |list|], width)
    ensures ListsOf(Splice(flat, RowStart(node, width), list), counts[node := |list|], width)
         == ListsOf(flat, counts, width)[node := list]
  {
    RowInside(node, |counts|, width);
    var start := RowStart(node, width);
    var flat' := Splice(flat, start, list);
    OnlyRowChanges(flat, counts, flat', width, node, |list|);
    assert flat'[start..start + |list|] == list;
  }

  function Cut(list: seq<nat>, length: nat): seq<nat> {
    if |list| < length then list else list[..length]
  }

  /** Every list cut at a length. */
  function CutLists(lists: seq<seq<nat>>, length: nat): (r: seq<seq<nat>>)
    ensures |r| == |lists|
  {
    seq(|lists|, i requires 0 <= i < |lists| => Cut(lists[i], length))
  }

  /** The rows of a flat array, cut at a length and laid out with that width. */
  method CompactRows(flat: seq<nat>, counts: seq<nat>, width: nat, length: nat)
    returns (newFlat: seq<nat>, newCounts: seq<nat>)
    requires RowsFit(flat, counts, width) && length <= 255
    ensures |newCounts| == |counts| && RowsFit(newFlat, newCounts, length)
    ensures ListsOf(newFlat, newCounts, length) == CutLists(ListsOf(flat, counts, width), length)
  {
    newFlat := seq(RowStart(|counts|, length), _ => INVALID_NODE_ID);
    newCounts := seq(|counts|, _ => 0);
    ghost var cut := CutLists(ListsOf(flat, counts, width), length);
    for i := 0 to |counts|
      invariant |newCounts| == |counts| && RowsFit(newFlat, newCounts, length)
      invariant forall p :: 0 <= p < i ==> ListsOf(newFlat, newCounts, length)[p] == cut[p]
    {
      var count: nat := if counts[i] < length then counts[i] else length;
      FrontOfRow(flat, counts, width, i, count);
      SpliceReplacesRow(newFlat, newCounts, length, i, cut[i]);
      assert cut[i] == ListsOf(flat, counts, width)[i][..count];
      ghost var lists := ListsOf(newFlat, newCounts, length)[i := cut[i]];
      assert count % 256 == |cut[i]|;
      newFlat := CopySlots(newFlat, RowStart(i, length), flat, RowStart(i, width), count);
      newCounts := newCounts[i := count % 256];
      assert ListsOf(newFlat, newCounts, length) == lists;
    }
  }

  class FlatGraphIndex {
    const numNodes: nat
    const maxDegree: nat
    var storageDegree: nat
    var neighbors: seq<nat>
    var numNeighbors: seq<nat>
    var entryPoint: nat

    /** Neighbour counts are stored in a byte, so a row may hold at most 255 neighbours. */
    ghost predicate Valid()
      reads this
    {
      && numNodes <= INVALID_NODE_ID
      && storageDegree <= 255
      && |numNeighbors| == numNodes
      && RowsFit(neighbors, numNeighbors, storageDegree)
    }

    ghost function Adj(): (a: seq<seq<nat>>)
      requires Valid()
      reads this
      ensures |a| == numNodes
    {
      ListsOf(neighbors, numNeighbors, storageDegree)
    }

    constructor (numNodes: nat, maxDegree: nat)
      requires numNodes <= INVALID_NODE_ID && maxDegree <= 127
      ensures Valid()
      ensures this.numNodes == numNodes && this.maxDegree == maxDegree
      ensures storageDegree == 2 * maxDegree && entryPoint == 0
      ensures Adj() == seq(numNodes, _ => [])
    {
      this.numNodes := numNodes;
      this.maxDegree := maxDegree;
      storageDegree := maxDegree * 2;
      neighbors := seq(RowStart(numNodes, maxDegree * 2), _ => INVALID_NODE_ID);
      numNeighbors := seq(numNodes, _ => 0);
      entryPoint := 0;
    }

    method GetNumNeighbors(node: nat) returns (count: nat)
      requires Valid() && node < numNodes
      ensures count == |Adj()[node]|
    {
      count := numNeighbors[node];
    }

    method GetNeighbor(node: nat, i: nat) returns (n: nat)
      requires Valid() && node < numNodes && i < |Adj()[node]|
      ensures n == Adj()[node][i]
    {
      RowInside(node, numNodes, storageDegree);
      n := neighbors[RowStart(node, storageDegree) + i];
    }

    /** Appends a neighbour; a full row drops it. */
    method AddNeighbor(node: nat, neighbor: nat)
      requires Valid() && node < numNodes
      modifies this`neighbors, this`numNeighbors
      ensures Valid()
      ensures Adj() == old(Adj())[node :=
                old(Adj())[node] + if |old(Adj())[node]| < storageDegree then [neighbor] else []]
    {
      if numNeighbors[node] < storageDegree {
        SlotAppends(neighbors, numNeighbors, storageDegree, node, neighbor);
        neighbors := neighbors[RowStart(node, storageDegree) + numNeighbors[node] := neighbor];
        numNeighbors := numNeighbors[node := (numNeighbors[node] + 1) % 256];
      } else {
        assert Adj()[node] + [] == Adj()[node];
      }
    }

    /** Replaces a node's list, cutting it at the storage degree. */
    method SetNeighbors(node: nat, neighs: seq<nat>)
      requires Valid() && node < numNodes
      modifies this`neighbors, this`numNeighbors
      ensures Valid()
      ensures Adj() == old(Adj())[node := Cut(neighs, storageDegree)]
    {
      var count: nat := if |neighs| < storageDegree then |neighs| else storageDegree;
      SpliceReplacesRow(neighbors, numNeighbors, storageDegree, node, Cut(neighs, storageDegree));
      assert neighs[0..count] == Cut(neighs, storageDegree);
      assert count % 256 == |Cut(neighs, storageDegree)|;
      neighbors := CopySlots(neighbors, RowStart(node, storageDegree), neighs, 0, count);
      numNeighbors := numNeighbors[node := count % 256];
    }

    /** Halves the storage: every list is cut at the maximum degree. */
    method Compact()
      requires Valid() && maxDegree <= 255
      modifies this`neighbors, this`numNeighbors, this`storageDegree
      ensures Valid()
      ensures storageDegree == maxDegree
      ensures Adj() == CutLists(old(Adj()), maxDegree)
    {
      var newNeighbors, newCounts := CompactRows(neighbors, numNeighbors, storageDegree, maxDegree);
      neighbors, numNeighbors, storageDegree := newNeighbors, newCounts, maxDegree;
    }
  }
}
