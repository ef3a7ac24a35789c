/** Picking from a list, front to back. */
module Greedy {
  // Both prunings of neighbours pick candidates in one walk: a candidate is passed over when it is to be skipped, when
  // an earlier pick blocks it, or when the picks are full. Candidates are named by their positions.

  import opened Sequences
  import opened Ranking

  ghost predicate Blocked(c: int, at: seq<nat>, blocks: (int, int) -> bool) {
    exists j :: 0 <= j < |at| && at[j] < c && blocks(c, at[j])
  }

  ghost predicate PassedOver(c: int, at: seq<nat>, cap: nat, skip: int -> bool, blocks: (int, int) -> bool) {
    skip(c) || Blocked(c, at, blocks) || (|at| == cap && forall j :: 0 <= j < |at| ==> at[j] < c)
  }

  /** The picks, in order, from the first n candidates: none is skipped or blocked, and every other candidate is passed
      over for a reason. */
  ghost predicate IsGreedy(at: seq<nat>, n: nat, cap: nat, skip: int -> bool, blocks: (int, int) -> bool) {
    && |at| <= cap
    && (forall j :: 0 <= j < |at| ==> at[j] < n)
    && (forall i, j :: 0 <= i < j < |at| ==> at[i] < at[j])
    && (forall c :: c in at ==> !skip(c) && !Blocked(c, at, blocks))
    && (forall c :: 0 <= c < n && c !in at ==> PassedOver(c, at, cap, skip, blocks))
  }

  /** A further pick is too late to block an earlier candidate, or itself. */
  lemma BlockedStays(c: int, at: seq<nat>, n: nat, blocks: (int, int) -> bool)
    requires c <= n
    ensures Blocked(c, at + [n], blocks) <==> Blocked(c, at, blocks)
  {
    if Blocked(c, at, blocks) {
      var j :| 0 <= j < |at| && at[j] < c && blocks(c, at[j]);
      assert (at + [n])[j] == at[j];
    }
  }

  lemma GreedyStarts(cap: nat, skip: int -> bool, blocks: (int, int) -> bool)
    ensures IsGreedy([], 0, cap, skip, blocks)
  {
  }

  lemma GreedyInside(at: seq<nat>, n: nat, cap: nat, skip: int -> bool, blocks: (int, int) -> bool)
    requires IsGreedy(at, n, cap, skip, blocks)
    ensures |at| <= cap && forall j :: 0 <= j < |at| ==> at[j] < n
  {
  }

  /** The walk goes on by one candidate. */
  lemma GreedyNext(at: seq<nat>, n: nat, cap: nat, skip: int -> bool, blocks: (int, int) -> bool)
    requires IsGreedy(at, n, cap, skip, blocks)
    ensures var take := |at| < cap && !skip(n) && !Blocked(n, at, blocks);
      IsGreedy(if take then at + [n] else at, n + 1, cap, skip, blocks)
  {
    hide Blocked;
    var more := at + [n];
    forall c | 0 <= c <= n
      ensures Blocked(c, more, blocks) <==> Blocked(c, at, blocks)
      ensures c < n && c !in at ==> PassedOver(c, at, cap, skip, blocks)
    {
      BlockedStays(c, at, n, blocks);
    }
    assert forall c :: c in more <==> c in at || c == n;
  }

  /** There is only one such walk: any two pick the same. */
  lemma {:induction false} GreedyUnique(a: seq<nat>, b: seq<nat>, n: nat, cap: nat, skip: int -> bool,
                                        blocks: (int, int) -> bool, c: nat)
    requires IsGreedy(a, n, cap, skip, blocks) && IsGreedy(b, n, cap, skip, blocks) && c <= n
    ensures forall i: nat :: i < c ==> (i in a <==> i in b)
  {
    if c > 0 {
      GreedyUnique(a, b, n, cap, skip, blocks, c - 1);
      if c - 1 in a { AlsoPicked(a, b, n, cap, skip, blocks, c - 1); }
      if c - 1 in b { AlsoPicked(b, a, n, cap, skip, blocks, c - 1); }
    }
  }

  lemma BlockedAlike(a: seq<nat>, b: seq<nat>, blocks: (int, int) -> bool, c: nat)
    requires forall i: nat :: i < c ==> (i in a <==> i in b)
    ensures Blocked(c, b, blocks) ==> Blocked(c, a, blocks)
  {
    if Blocked(c, b, blocks) {
      var j :| 0 <= j < |b| && b[j] < c && blocks(c, b[j]);
      assert b[j] in b;
      var i :| 0 <= i < |a| && a[i] == b[j];
    }
  }

  /** Where two walks have agreed so far, one cannot pass over what the other picks. */
  lemma AlsoPicked(a: seq<nat>, b: seq<nat>, n: nat, cap: nat, skip: int -> bool, blocks: (int, int) -> bool, c: nat)
    requires IsGreedy(a, n, cap, skip, blocks) && IsGreedy(b, n, cap, skip, blocks)
    requires forall i: nat :: i < c ==> (i in a <==> i in b)
    requires c < n && c in a
    ensures c in b
  {
    BlockedAlike(a, b, blocks, c);
    if c !in b {
      assert PassedOver(c, b, cap, skip, blocks);
      NoRepeatsCount(a);
      NoRepeatsCount(b);
      SubsetSize(SetOf(b) + {c}, SetOf(a));
    }
  }
}
