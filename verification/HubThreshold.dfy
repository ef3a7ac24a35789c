/** The in-degree from which a node counts as a hub: a percentile of the in-degrees that are not
    zero, and the nodes that reach it. */
module HubThreshold {
  import opened Sequences

  function CountAbove(s: seq<nat>, t: nat): (n: nat)
    ensures n <= |s|
  {
    if s == [] then 0 else CountAbove(s[..|s| - 1], t) + if s[|s| - 1] > t then 1 else 0
  }

  lemma {:induction false} CountSplits(a: seq<nat>, b: seq<nat>, t: nat)
    ensures CountAbove(a + b, t) == CountAbove(a, t) + CountAbove(b, t)
  {
    if b == [] {
      assert a + b == a;
    } else {
      CountSplits(a, b[..|b| - 1], t);
      assert (a + b)[..|a + b| - 1] == a + b[..|b| - 1];
    }
  }

  /** Sorting does not change how many are above. */
  lemma {:induction false} CountIgnoresOrder(a: seq<nat>, b: seq<nat>, t: nat)
    requires multiset(a) == multiset(b)
    ensures CountAbove(a, t) == CountAbove(b, t)
  {
    if a == [] {
      assert |b| == |multiset(b)| == 0;
    } else {
      var last := a[|a| - 1];
      assert a == a[..|a| - 1] + [last];
      assert last in multiset(b);
      var i :| 0 <= i < |b| && b[i] == last;
      var rest := b[..i] + b[i + 1..];
      assert b == b[..i] + [last] + b[i + 1..];
      assert multiset(rest) == multiset(b) - multiset{last};
      assert multiset(a[..|a| - 1]) == multiset(a) - multiset{last};
      CountIgnoresOrder(a[..|a| - 1], rest, t);
      CountSplits(b[..i], b[i + 1..], t);
      CountSplits(b[..i] + [last], b[i + 1..], t);
      CountSplits(b[..i], [last], t);
      assert [last][..0] == [];
      assert CountAbove([last], t) == if last > t then 1 else 0;
    }
  }

  predicate Ordered(s: seq<nat>) {
    forall i, j :: 0 <= i < j < |s| ==> s[i] <= s[j]
  }

  /** With the first k at most t, at most the others are above. */
  lemma {:induction false} CountAfter(s: seq<nat>, k: nat, t: nat)
    requires k <= |s| && forall i :: 0 <= i < k ==> s[i] <= t
    ensures CountAbove(s, t) <= |s| - k
    ensures (forall i :: k <= i < |s| ==> s[i] > t) ==> CountAbove(s, t) == |s| - k
  {
    if s != [] {
      CountAfter(s[..|s| - 1], if k < |s| then k else k - 1, t);
    }
  }

  lemma InsertOrdered(sorted: seq<nat>, j: nat, x: nat)
    requires Ordered(sorted) && j <= |sorted|
    requires (forall p :: 0 <= p < j ==> sorted[p] <= x) && (j < |sorted| ==> x <= sorted[j])
    ensures Ordered(sorted[..j] + [x] + sorted[j..])
  {
  }

  method SortDegrees(s: seq<nat>) returns (sorted: seq<nat>)
    ensures Ordered(sorted) && multiset(sorted) == multiset(s)
  {
    sorted := [];
    for i := 0 to |s|
      invariant Ordered(sorted) && multiset(sorted) == multiset(s[..i])
    {
      assert s[..i + 1] == s[..i] + [s[i]];
      assert multiset(s[..i + 1]) == multiset(s[..i]) + multiset{s[i]};
      var j := 0;
      while j < |sorted| && sorted[j] <= s[i]
        invariant j <= |sorted| && forall p :: 0 <= p < j ==> sorted[p] <= s[i]
      {
        j := j + 1;
      }
      InsertOrdered(sorted, j, s[i]);
      SplitContents(sorted, j, s[i]);
      sorted := sorted[..j] + [s[i]] + sorted[j..];
    }
    assert s[..|s|] == s;
  }

  function Ceil(x: real): (c: int)
    ensures c as real >= x && c as real < x + 1.0
  {
    -((-x).Floor)
  }

  /** The position among n ordered values that a percentile names. */
  function PercentileIndex(n: nat, percentile: real): (index: nat)
    requires n > 0 && 0.0 <= percentile <= 1.0
    ensures index < n
  {
    assert n as real * percentile >= 0.0;
    var index := Ceil(n as real * percentile);
    if index >= n then n - 1 else index
  }

  /** At most the share of n values that a percentile leaves over. */
  predicate IsLeftOver(count: nat, n: nat, percentile: real) {
    count as real <= (1.0 - percentile) * n as real
  }

  /** No more values come after the named position than the percentile leaves over. */
  lemma FewAfterIndex(count: nat, n: nat, percentile: real)
    requires n > 0 && 0.0 <= percentile <= 1.0 && count <= n - 1 - PercentileIndex(n, percentile)
    ensures IsLeftOver(count, n, percentile)
  {
    var share := n as real * percentile;
    assert (1.0 - percentile) * n as real == n as real - share;
    assert share <= n as real;
  }

  /** What the value at one position of the ordered degrees leaves above it. */
  lemma PositionBounds(sorted: seq<nat>, inDegrees: seq<nat>, start: nat, index: nat)
    requires Ordered(sorted) && multiset(sorted) == multiset(inDegrees) && start + index < |sorted|
    requires (forall i :: 0 <= i < start ==> sorted[i] == 0) && forall i :: start <= i < |sorted| ==> sorted[i] > 0
    ensures CountAbove(inDegrees, 0) == |sorted| - start
    ensures CountAbove(inDegrees, sorted[start + index]) <= |sorted| - start - index - 1
    ensures CountAbove(inDegrees, sorted[start + index] - 1) >= |sorted| - start - index
    ensures sorted[start + index] in inDegrees
  {
    var t := sorted[start + index];
    CountIgnoresOrder(sorted, inDegrees, 0);
    CountAfter(sorted, start, 0);
    CountIgnoresOrder(sorted, inDegrees, t);
    CountAfter(sorted, start + index + 1, t);
    CountIgnoresOrder(sorted, inDegrees, t - 1);
    AtLeastAfter(sorted, start + index, t - 1);
    assert t in multiset(sorted);
    assert t in multiset(inDegrees);
  }

  /** The value at the given percentile of the non-zero in-degrees: at most the remaining share of
      them is larger, and that share of them does reach it. Without non-zero in-degrees it is 1. */
  method ComputeHubThreshold(inDegrees: seq<nat>, percentile: real) returns (threshold: nat)
    requires 0.0 <= percentile <= 1.0
    ensures threshold >= 1
    ensures CountAbove(inDegrees, 0) == 0 ==> threshold == 1
    ensures IsLeftOver(CountAbove(inDegrees, threshold), CountAbove(inDegrees, 0), percentile)
    ensures CountAbove(inDegrees, 0) > 0 ==>
      && threshold in inDegrees
      && CountAbove(inDegrees, threshold - 1)
         >= CountAbove(inDegrees, 0) - PercentileIndex(CountAbove(inDegrees, 0), percentile)
  {
    assert IsLeftOver(0, 0, percentile);
    hide IsLeftOver;
    hide PercentileIndex;
    if inDegrees == [] { return 1; }
    var sorted := SortDegrees(inDegrees);
    var start := 0;
    while start < |sorted| && sorted[start] <= 0
      invariant start <= |sorted| && forall i :: 0 <= i < start ==> sorted[i] == 0
    {
      start := start + 1;
    }
    if start == |sorted| {
      CountIgnoresOrder(sorted, inDegrees, 0);
      CountAfter(sorted, start, 0);
      CountIgnoresOrder(sorted, inDegrees, 1);
      CountAfter(sorted, start, 1);
      return 1;
    }
    var nonZeroCount := |sorted| - start;
    var index := PercentileIndex(nonZeroCount, percentile);
    assert forall i :: start <= i < |sorted| ==> sorted[start] <= sorted[i];
    PositionBounds(sorted, inDegrees, start, index);
    threshold := sorted[start + index];
    FewAfterIndex(CountAbove(inDegrees, threshold), nonZeroCount, percentile);
  }

  /** From position k on, all above t. */
  lemma {:induction false} AtLeastAfter(s: seq<nat>, k: nat, t: nat)
    requires k <= |s| && forall i :: k <= i < |s| ==> s[i] > t
    ensures CountAbove(s, t) >= |s| - k
  {
    if k < |s| { AtLeastAfter(s[..|s| - 1], k, t); }
  }

  /** Every node that reaches the threshold, in order of id. */
  method ClassifyHubNodes(inDegrees: seq<nat>, threshold: nat) returns (hubs: seq<nat>)
    ensures forall i :: 0 <= i < |inDegrees| ==> (i in hubs <==> inDegrees[i] >= threshold)
    ensures forall i, j :: 0 <= i < j < |hubs| ==> hubs[i] < hubs[j] < |inDegrees|
    ensures threshold >= 1 ==> |hubs| == CountAbove(inDegrees, threshold - 1)
  {
    hubs := [];
    for i := 0 to |inDegrees|
      invariant forall j :: 0 <= j < i ==> (j in hubs <==> inDegrees[j] >= threshold)
      invariant forall j :: 0 <= j < |hubs| ==> hubs[j] < i
      invariant forall p, q :: 0 <= p < q < |hubs| ==> hubs[p] < hubs[q]
      invariant threshold >= 1 ==> |hubs| == CountAbove(inDegrees[..i], threshold - 1)
    {
      assert inDegrees[..i + 1][..i] == inDegrees[..i];
      if inDegrees[i] >= threshold {
        hubs := hubs + [i];
      }
    }
    assert inDegrees[..|inDegrees|] == inDegrees;
  }
}
