/** Choosing diverse neighbours. */
module Selections {
  // The choice that graph construction and pruning share.

  import opened Sequences
  import opened Vectors
  import opened Ranking
  import opened Greedy

  const ALPHA: real := 1.2

  /** Candidates name vectors of the data, at distances that are not negative. */
  predicate AreCandidates(sorted: seq<Scored>, data: seq<Vector>) {
    forall i :: 0 <= i < |sorted| ==> sorted[i].id < |data| && sorted[i].dist >= 0.0
  }

  /** A kept node is so close to the candidate that it stands for it. */
  predicate Dominates(kept: nat, cand: Scored, data: seq<Vector>, dim: nat)
    requires Uniform(data, dim) && kept < |data| && cand.id < |data|
  {
    ALPHA * L2(data[cand.id], data[kept], dim) <= cand.dist
  }

  predicate IsDiverse(cand: Scored, kept: seq<nat>, data: seq<Vector>, dim: nat)
    requires Uniform(data, dim) && Within(kept, |data|) && cand.id < |data|
  {
    forall j :: 0 <= j < |kept| ==> !Dominates(kept[j], cand, data, dim)
  }

  /** Goes through the candidates and keeps each that no kept one dominates, up to cap. */
  function Keep(sorted: seq<Scored>, cap: nat, data: seq<Vector>, dim: nat): (kept: seq<nat>)
    requires Uniform(data, dim) && AreCandidates(sorted, data)
    ensures Within(kept, |data|) && |kept| <= cap
    ensures forall n :: n in kept ==> n in Ids(sorted)
  {
    if sorted == [] then []
    else
      var before, cand := Keep(sorted[..|sorted| - 1], cap, data, dim), sorted[|sorted| - 1];
      assert Ids(sorted) == Ids(sorted[..|sorted| - 1]) + [cand.id];
      if |before| < cap && IsDiverse(cand, before, data, dim) then before + [cand.id] else before
  }

  /** Goes through the candidates again and fills what room is left with those not chosen yet. */
  function Fill(chosen: seq<nat>, sorted: seq<Scored>, cap: nat): (filled: seq<nat>)
    requires |chosen| <= cap
    ensures |filled| <= cap && chosen <= filled
  {
    if sorted == [] then chosen
    else
      var before, cand := Fill(chosen, sorted[..|sorted| - 1], cap), sorted[|sorted| - 1];
      if |before| < cap && cand.id !in before then before + [cand.id] else before
  }

  function Select(sorted: seq<Scored>, cap: nat, data: seq<Vector>, dim: nat): (chosen: seq<nat>)
    requires Uniform(data, dim) && AreCandidates(sorted, data)
    ensures |chosen| <= cap
  {
    Fill(Keep(sorted, cap, data, dim), sorted, cap)
  }

  /** No node is kept twice: a second candidate for it is dominated by the first. */
  lemma {:induction false} KeepNoRepeats(sorted: seq<Scored>, cap: nat, data: seq<Vector>, dim: nat)
    requires Uniform(data, dim) && AreCandidates(sorted, data)
    ensures NoRepeats(Keep(sorted, cap, data, dim))
  {
    if sorted != [] {
      var cand := sorted[|sorted| - 1];
      KeepNoRepeats(sorted[..|sorted| - 1], cap, data, dim);
      L2Self(data[cand.id], dim);
      assert Dominates(cand.id, cand, data, dim);
    }
  }

  lemma {:induction false} FillNoRepeats(chosen: seq<nat>, sorted: seq<Scored>, cap: nat)
    requires |chosen| <= cap && NoRepeats(chosen)
    ensures NoRepeats(Fill(chosen, sorted, cap))
    ensures forall n :: n in Fill(chosen, sorted, cap) ==> n in chosen || n in Ids(sorted)
    ensures |Fill(chosen, sorted, cap)| < cap ==> forall n :: n in Ids(sorted) ==> n in Fill(chosen, sorted, cap)
  {
    if sorted != [] {
      FillNoRepeats(chosen, sorted[..|sorted| - 1], cap);
      assert Ids(sorted) == Ids(sorted[..|sorted| - 1]) + [sorted[|sorted| - 1].id];
    }
  }

  /** The chosen nodes are candidates, none twice, and as many as the cap and the number of
      different candidates allow. */
  lemma SelectCounts(sorted: seq<Scored>, cap: nat, data: seq<Vector>, dim: nat)
    requires Uniform(data, dim) && AreCandidates(sorted, data)
    ensures var chosen, ids := Select(sorted, cap, data, dim), SetOf(Ids(sorted));
      && NoRepeats(chosen)
      && (forall n :: n in chosen ==> n in ids)
      && |chosen| == if cap < |ids| then cap else |ids|
  {
    var kept, chosen, ids := Keep(sorted, cap, data, dim), Select(sorted, cap, data, dim), SetOf(Ids(sorted));
    KeepNoRepeats(sorted, cap, data, dim);
    FillNoRepeats(kept, sorted, cap);
    NoRepeatsCount(chosen);
    SubsetSize(SetOf(chosen), ids);
    if |chosen| < cap {
      assert SetOf(chosen) == ids;
    }
  }

  /** The closest candidate is always chosen, and first. */
  lemma {:induction false} ClosestFirst(sorted: seq<Scored>, cap: nat, data: seq<Vector>, dim: nat)
    requires Uniform(data, dim) && AreCandidates(sorted, data) && sorted != [] && cap >= 1
    ensures Keep(sorted, cap, data, dim) != [] && Keep(sorted, cap, data, dim)[0] == sorted[0].id
    ensures Select(sorted, cap, data, dim) != [] && Select(sorted, cap, data, dim)[0] == sorted[0].id
  {
    if |sorted| > 1 {
      ClosestFirst(sorted[..|sorted| - 1], cap, data, dim);
    } else {
      assert Keep(sorted[..0], cap, data, dim) == [];
    }
  }

  /** Candidate c was kept as the given node, and the earlier kept node did not dominate it. */
  ghost predicate KeptApart(sorted: seq<Scored>, c: int, earlier: nat, id: nat, data: seq<Vector>, dim: nat)
    requires Uniform(data, dim) && AreCandidates(sorted, data) && earlier < |data|
  {
    0 <= c < |sorted| && sorted[c].id == id && !Dominates(earlier, sorted[c], data, dim)
  }

  ghost predicate Apart(sorted: seq<Scored>, earlier: nat, id: nat, data: seq<Vector>, dim: nat)
    requires Uniform(data, dim) && AreCandidates(sorted, data) && earlier < |data|
  {
    exists c :: KeptApart(sorted, c, earlier, id, data, dim)
  }

  ghost predicate AllApart(sorted: seq<Scored>, kept: seq<nat>, data: seq<Vector>, dim: nat)
    requires Uniform(data, dim) && AreCandidates(sorted, data) && Within(kept, |data|)
  {
    forall i, j :: 0 <= i < j < |kept| ==> Apart(sorted, kept[i], kept[j], data, dim)
  }

  /** No node that was kept was dominated, as a candidate, by one kept before it. */
  lemma {:induction false} KeptAreApart(sorted: seq<Scored>, cap: nat, data: seq<Vector>, dim: nat)
    requires Uniform(data, dim) && AreCandidates(sorted, data)
    ensures AllApart(sorted, Keep(sorted, cap, data, dim), data, dim)
  {
    if sorted != [] {
      var before, last := sorted[..|sorted| - 1], |sorted| - 1;
      KeptAreApart(before, cap, data, dim);
      var was, kept := Keep(before, cap, data, dim), Keep(sorted, cap, data, dim);
      forall i, j | 0 <= i < j < |kept| ensures Apart(sorted, kept[i], kept[j], data, dim) {
        if j < |was| {
          assert Apart(before, was[i], was[j], data, dim);
          var c :| KeptApart(before, c, was[i], was[j], data, dim);
          assert KeptApart(sorted, c, kept[i], kept[j], data, dim);
        } else {
          assert KeptApart(sorted, last, kept[i], kept[j], data, dim);
        }
      }
    }
  }

  predicate DominatedBy(cand: Scored, kept: seq<nat>, data: seq<Vector>, dim: nat)
    requires Uniform(data, dim) && Within(kept, |data|) && cand.id < |data|
  {
    exists i :: 0 <= i < |kept| && Dominates(kept[i], cand, data, dim)
  }

  /** Every candidate that was examined is kept or dominated by a kept node. */
  lemma {:induction false} RejectedAreDominated(sorted: seq<Scored>, cap: nat, data: seq<Vector>, dim: nat)
    requires Uniform(data, dim) && AreCandidates(sorted, data) && |Keep(sorted, cap, data, dim)| < cap
    ensures var kept := Keep(sorted, cap, data, dim);
      forall c :: 0 <= c < |sorted| ==> sorted[c].id in kept || DominatedBy(sorted[c], kept, data, dim)
  {
    if sorted != [] {
      var before := sorted[..|sorted| - 1];
      RejectedAreDominated(before, cap, data, dim);
      var was, kept := Keep(before, cap, data, dim), Keep(sorted, cap, data, dim);
      forall c | 0 <= c < |sorted| ensures sorted[c].id in kept || DominatedBy(sorted[c], kept, data, dim) {
        if c < |before| && before[c].id !in was {
          var i :| 0 <= i < |was| && Dominates(was[i], before[c], data, dim);
          assert Dominates(kept[i], sorted[c], data, dim);
        }
      }
    }
  }

  // ---------------------------------------------------------------------------------------
  // The selection as two walks
  // ---------------------------------------------------------------------------------------

  function IdsAt(sorted: seq<Scored>, at: seq<nat>): (r: seq<nat>)
    requires forall j :: 0 <= j < |at| ==> at[j] < |sorted|
    ensures |r| == |at| && forall j :: 0 <= j < |at| ==> r[j] == sorted[at[j]].id
  {
    seq(|at|, j requires 0 <= j < |at| => sorted[at[j]].id)
  }

  lemma IdsAtNext(sorted: seq<Scored>, at: seq<nat>, i: nat)
    requires i < |sorted| && forall j :: 0 <= j < |at| ==> at[j] < |sorted|
    ensures IdsAt(sorted, at + [i]) == IdsAt(sorted, at) + [sorted[i].id]
  {
  }

  ghost function SkipsNone(): int -> bool {
    c => false
  }

  /** Candidate p is at most 1 / 1.2 times as far from candidate c as the node is. */
  ghost function DominatesAt(sorted: seq<Scored>, data: seq<Vector>, dim: nat): (int, int) -> bool
    requires Uniform(data, dim) && AreCandidates(sorted, data)
  {
    (c, p) => 0 <= c < |sorted| && 0 <= p < |sorted|
      && 1.2 * L2(data[sorted[c].id], data[sorted[p].id], dim) <= sorted[c].dist
  }

  ghost function SkipsChosen(sorted: seq<Scored>, chosen: seq<nat>): int -> bool {
    c => 0 <= c < |sorted| && sorted[c].id in chosen
  }

  ghost function SameIdAt(sorted: seq<Scored>): (int, int) -> bool {
    (c, p) => 0 <= c < |sorted| && 0 <= p < |sorted| && sorted[c].id == sorted[p].id
  }

  /** Two walks through the candidates by distance: the first picks those that no earlier pick dominates, the second
      fills what room is left with the nearest of the others, no node twice. */
  ghost predicate SelectsVia(first: seq<nat>, second: seq<nat>, chosen: seq<nat>, sorted: seq<Scored>, cap: nat,
                             data: seq<Vector>, dim: nat)
    requires Uniform(data, dim) && AreCandidates(sorted, data)
  {
    && IsGreedy(first, |sorted|, cap, SkipsNone(), DominatesAt(sorted, data, dim))
    && IsGreedy(second, |sorted|, cap - |first|, SkipsChosen(sorted, IdsAt(sorted, first)), SameIdAt(sorted))
    && chosen == IdsAt(sorted, first) + IdsAt(sorted, second)
  }

  ghost predicate IsSelection(chosen: seq<nat>, sorted: seq<Scored>, cap: nat, data: seq<Vector>, dim: nat)
    requires Uniform(data, dim) && AreCandidates(sorted, data)
  {
    exists first, second :: SelectsVia(first, second, chosen, sorted, cap, data, dim)
  }

  lemma DiverseIsNotBlocked(i: nat, at: seq<nat>, sorted: seq<Scored>, kept: seq<nat>, data: seq<Vector>, dim: nat)
    requires Uniform(data, dim) && AreCandidates(sorted, data) && i < |sorted| && Within(kept, |data|)
    requires (forall j :: 0 <= j < |at| ==> at[j] < i) && IdsAt(sorted, at) == kept
    ensures IsDiverse(sorted[i], kept, data, dim) <==> !Blocked(i, at, DominatesAt(sorted, data, dim))
  {
    var blocks := DominatesAt(sorted, data, dim);
    assert forall j :: 0 <= j < |at| ==>
      kept[j] == sorted[at[j]].id && (Dominates(kept[j], sorted[i], data, dim) <==> blocks(i, at[j]));
  }

  lemma KeepNext(sorted: seq<Scored>, i: nat, cap: nat, data: seq<Vector>, dim: nat)
    requires Uniform(data, dim) && AreCandidates(sorted, data) && i < |sorted|
    ensures var before := Keep(sorted[..i], cap, data, dim);
      Keep(sorted[..i + 1], cap, data, dim)
        == if |before| < cap && IsDiverse(sorted[i], before, data, dim) then before + [sorted[i].id] else before
  {
    assert sorted[..i + 1][..i] == sorted[..i];
  }

  lemma {:induction false} KeepIsGreedy(sorted: seq<Scored>, i: nat, cap: nat, data: seq<Vector>, dim: nat)
    returns (at: seq<nat>)
    requires Uniform(data, dim) && AreCandidates(sorted, data) && i <= |sorted|
    ensures IsGreedy(at, i, cap, SkipsNone(), DominatesAt(sorted, data, dim))
    ensures IdsAt(sorted, at) == Keep(sorted[..i], cap, data, dim)
  {
    hide IsDiverse;
    hide Blocked;
    hide PassedOver;
    hide DominatesAt;
    hide IsGreedy;
    hide IdsAt;
    at := [];
    GreedyStarts(cap, SkipsNone(), DominatesAt(sorted, data, dim));
    if i > 0 {
      KeepNext(sorted, i - 1, cap, data, dim);
      hide Keep;
      var before := KeepIsGreedy(sorted, i - 1, cap, data, dim);
      var skip, blocks := SkipsNone(), DominatesAt(sorted, data, dim);
      GreedyInside(before, i - 1, cap, skip, blocks);
      IdsAtNext(sorted, before, i - 1);
      DiverseIsNotBlocked(i - 1, before, sorted, Keep(sorted[..i - 1], cap, data, dim), data, dim);
      GreedyNext(before, i - 1, cap, skip, blocks);
      at := if |before| < cap && !skip(i - 1) && !Blocked(i - 1, before, blocks) then before + [i - 1] else before;
    }
  }

  lemma FillNext(chosen: seq<nat>, sorted: seq<Scored>, i: nat, cap: nat)
    requires |chosen| <= cap && i < |sorted|
    ensures var before := Fill(chosen, sorted[..i], cap);
      Fill(chosen, sorted[..i + 1], cap)
        == if |before| < cap && sorted[i].id !in before then before + [sorted[i].id] else before
  {
    assert sorted[..i + 1][..i] == sorted[..i];
  }

  lemma FillsNothing(chosen: seq<nat>, sorted: seq<Scored>, cap: nat)
    requires |chosen| <= cap && sorted == []
    ensures Fill(chosen, sorted, cap) == chosen
  {
  }

  lemma NewIsNotBlocked(i: nat, at: seq<nat>, sorted: seq<Scored>)
    requires i < |sorted| && forall j :: 0 <= j < |at| ==> at[j] < i
    ensures sorted[i].id in IdsAt(sorted, at) <==> Blocked(i, at, SameIdAt(sorted))
  {
    var blocks := SameIdAt(sorted);
    assert forall j :: 0 <= j < |at| ==> (IdsAt(sorted, at)[j] == sorted[i].id <==> blocks(i, at[j]));
  }

  lemma {:induction false} FillIsGreedy(chosen: seq<nat>, sorted: seq<Scored>, i: nat, cap: nat)
    returns (at: seq<nat>)
    requires |chosen| <= cap && i <= |sorted|
    ensures IsGreedy(at, i, cap - |chosen|, SkipsChosen(sorted, chosen), SameIdAt(sorted))
    ensures chosen + IdsAt(sorted, at) == Fill(chosen, sorted[..i], cap)
  {
    hide Blocked;
    hide PassedOver;
    hide SameIdAt;
    hide IsGreedy;
    hide IdsAt;
    at := [];
    hide Fill;
    GreedyStarts(cap - |chosen|, SkipsChosen(sorted, chosen), SameIdAt(sorted));
    if i == 0 {
      FillsNothing(chosen, sorted[..0], cap);
    } else {
      FillNext(chosen, sorted, i - 1, cap);
      var before := FillIsGreedy(chosen, sorted, i - 1, cap);
      var skip, blocks := SkipsChosen(sorted, chosen), SameIdAt(sorted);
      GreedyInside(before, i - 1, cap - |chosen|, skip, blocks);
      IdsAtNext(sorted, before, i - 1);
      NewIsNotBlocked(i - 1, before, sorted);
      GreedyNext(before, i - 1, cap - |chosen|, skip, blocks);
      var take := |before| < cap - |chosen| && !skip(i - 1) && !Blocked(i - 1, before, blocks);
      at := if take then before + [i - 1] else before;
      var filled := Fill(chosen, sorted[..i - 1], cap);
      assert sorted[i - 1].id in filled <==> sorted[i - 1].id in chosen || sorted[i - 1].id in IdsAt(sorted, before);
    }
  }

  /** The selection is these two walks. */
  lemma SelectExactly(sorted: seq<Scored>, cap: nat, data: seq<Vector>, dim: nat)
    requires Uniform(data, dim) && AreCandidates(sorted, data)
    ensures IsSelection(Select(sorted, cap, data, dim), sorted, cap, data, dim)
  {
    assert sorted[..|sorted|] == sorted;
    var first := KeepIsGreedy(sorted, |sorted|, cap, data, dim);
    var second := FillIsGreedy(Keep(sorted, cap, data, dim), sorted, |sorted|, cap);
    assert SelectsVia(first, second, Select(sorted, cap, data, dim), sorted, cap, data, dim);
  }

  /** Tests a candidate against the kept nodes, stopping at the first that dominates it. */
  method TestDiverse(cand: Scored, selected: seq<nat>, data: seq<Vector>, dim: nat) returns (isDiverse: bool)
    requires Uniform(data, dim) && Within(selected, |data|) && cand.id < |data|
    ensures isDiverse == IsDiverse(cand, selected, data, dim)
  {
    isDiverse := true;
    for j := 0 to |selected|
      invariant isDiverse && forall i :: 0 <= i < j ==> !Dominates(selected[i], cand, data, dim)
    {
      var distToSelected := L2(data[cand.id], data[selected[j]], dim);
      if ALPHA * distToSelected <= cand.dist {
        assert Dominates(selected[j], cand, data, dim);
        return false;
      }
    }
  }

  /** Once the cap is reached, the rest of the candidates is not looked at. */
  lemma {:induction false} KeepFull(sorted: seq<Scored>, i: nat, cap: nat, data: seq<Vector>, dim: nat)
    requires Uniform(data, dim) && AreCandidates(sorted, data) && i <= |sorted|
    requires |Keep(sorted[..i], cap, data, dim)| == cap
    ensures Keep(sorted, cap, data, dim) == Keep(sorted[..i], cap, data, dim)
  {
    if i < |sorted| {
      assert sorted[..|sorted| - 1][..i] == sorted[..i];
      KeepFull(sorted[..|sorted| - 1], i, cap, data, dim);
    } else {
      assert sorted[..i] == sorted;
    }
  }

  lemma {:induction false} FillFull(chosen: seq<nat>, sorted: seq<Scored>, i: nat, cap: nat)
    requires |chosen| <= cap && i <= |sorted| && |Fill(chosen, sorted[..i], cap)| == cap
    ensures Fill(chosen, sorted, cap) == Fill(chosen, sorted[..i], cap)
  {
    if i < |sorted| {
      assert sorted[..|sorted| - 1][..i] == sorted[..i];
      FillFull(chosen, sorted[..|sorted| - 1], i, cap);
    } else {
      assert sorted[..i] == sorted;
    }
  }

  method KeepDiverse(sorted: seq<Scored>, cap: nat, data: seq<Vector>, dim: nat) returns (selected: seq<nat>)
    requires Uniform(data, dim) && AreCandidates(sorted, data)
    ensures selected == Keep(sorted, cap, data, dim)
  {
    selected := [];
    for i := 0 to |sorted|
      invariant selected == Keep(sorted[..i], cap, data, dim)
    {
      if |selected| >= cap {
        KeepFull(sorted, i, cap, data, dim);
        return;
      }
      assert sorted[..i + 1][..i] == sorted[..i];
      var isDiverse := TestDiverse(sorted[i], selected, data, dim);
      if isDiverse { selected := selected + [sorted[i].id]; }
    }
    assert sorted[..|sorted|] == sorted;
  }

  method SelectNeighbors(sorted: seq<Scored>, cap: nat, data: seq<Vector>, dim: nat) returns (selected: seq<nat>)
    requires Uniform(data, dim) && AreCandidates(sorted, data)
    ensures selected == Select(sorted, cap, data, dim)
  {
    selected := KeepDiverse(sorted, cap, data, dim);
    ghost var kept := selected;
    if |selected| < cap {
      for i := 0 to |sorted|
        invariant selected == Fill(kept, sorted[..i], cap)
      {
        if |selected| >= cap {
          FillFull(kept, sorted, i, cap);
          return;
        }
        assert sorted[..i + 1][..i] == sorted[..i];
        if sorted[i].id !in selected { selected := selected + [sorted[i].id]; }
      }
      assert sorted[..|sorted|] == sorted;
    } else {
      FillFull(kept, sorted, 0, cap);
    }
  }
}
