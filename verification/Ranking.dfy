/** Pairs of distance and node id, their lexicographic order, and the sorted sequences that
    stand for the standard library's priority queues and sort. */
module Ranking {
  import opened Sequences

  datatype Scored = Scored(dist: real, id: nat)

  predicate Before(a: Scored, b: Scored) {
    a.dist < b.dist || (a.dist == b.dist && a.id < b.id)
  }

  predicate AtMost(a: Scored, b: Scored) {
    a == b || Before(a, b)
  }

  predicate Ascending(s: seq<Scored>) {
    forall i, j :: 0 <= i < j < |s| ==> AtMost(s[i], s[j])
  }

  predicate StrictlyAscending(s: seq<Scored>) {
    forall i, j :: 0 <= i < j < |s| ==> Before(s[i], s[j])
  }

  /** Pushes x into a queue kept in ascending order. */
  function Insert(s: seq<Scored>, x: Scored): (r: seq<Scored>)
    ensures |r| == |s| + 1
  {
    if s == [] then [x]
    else if Before(x, s[0]) then [x] + s
    else [s[0]] + Insert(s[1..], x)
  }

  /** Sorts a sequence of pairs: what std::sort does, for a total order. */
  function Sort(s: seq<Scored>): (r: seq<Scored>)
    ensures |r| == |s|
  {
    if s == [] then [] else Insert(Sort(s[..|s| - 1]), s[|s| - 1])
  }

  lemma {:induction false} InsertContents(s: seq<Scored>, x: Scored)
    ensures multiset(Insert(s, x)) == multiset(s) + multiset{x}
    ensures forall y :: y in Insert(s, x) <==> y == x || y in s
  {
    if s == [] {
    } else if Before(x, s[0]) {
      assert multiset([x] + s) == multiset([x]) + multiset(s);
    } else {
      InsertContents(s[1..], x);
      assert s == [s[0]] + s[1..];
      assert multiset(s) == multiset([s[0]]) + multiset(s[1..]);
      assert multiset(Insert(s, x)) == multiset([s[0]]) + multiset(Insert(s[1..], x));
    }
  }

  lemma {:induction false} InsertAscending(s: seq<Scored>, x: Scored)
    requires Ascending(s)
    ensures Ascending(Insert(s, x))
  {
    if s == [] {
    } else if Before(x, s[0]) {
      forall j | 0 <= j < |s| ensures AtMost(x, s[j]) {
        assert j == 0 || AtMost(s[0], s[j]);
      }
    } else {
      InsertAscending(s[1..], x);
      InsertContents(s[1..], x);
      var t := Insert(s[1..], x);
      forall j | 0 <= j < |t| ensures AtMost(s[0], t[j]) {
        assert t[j] in t;
      }
    }
  }

  lemma {:induction false} InsertStrict(s: seq<Scored>, x: Scored)
    requires StrictlyAscending(s) && x !in s
    ensures StrictlyAscending(Insert(s, x))
  {
    if s == [] {
    } else if Before(x, s[0]) {
    } else {
      InsertStrict(s[1..], x);
      InsertContents(s[1..], x);
      var t := Insert(s[1..], x);
      forall j | 0 <= j < |t| ensures Before(s[0], t[j]) {
        assert t[j] in t;
      }
    }
  }

  lemma {:induction false} SortContents(s: seq<Scored>)
    ensures multiset(Sort(s)) == multiset(s)
    ensures forall y :: y in Sort(s) <==> y in s
    ensures Ascending(Sort(s))
  {
    if s != [] {
      var last := |s| - 1;
      assert s == s[..last] + [s[last]];
      SortContents(s[..last]);
      InsertContents(Sort(s[..last]), s[last]);
      InsertAscending(Sort(s[..last]), s[last]);
    }
  }

  /** Distinct elements stay distinct: the sorted order of a duplicate-free list is strict. */
  lemma {:induction false} SortStrict(s: seq<Scored>)
    requires forall i, j :: 0 <= i < j < |s| ==> s[i] != s[j]
    ensures StrictlyAscending(Sort(s))
  {
    if s != [] {
      var last := |s| - 1;
      SortStrict(s[..last]);
      SortContents(s[..last]);
      InsertStrict(Sort(s[..last]), s[last]);
    }
  }

  /** A sorted sequence is determined by its contents. */
  lemma {:induction false} AscendingUnique(s: seq<Scored>, t: seq<Scored>)
    requires Ascending(s) && Ascending(t) && multiset(s) == multiset(t)
    ensures s == t
  {
    assert |multiset(s)| == |s| && |multiset(t)| == |t|;
    if s != [] {
      SameFirst(s, t);
      assert s == [s[0]] + s[1..] && t == [t[0]] + t[1..];
      assert multiset(s[1..]) == multiset(s) - multiset{s[0]};
      assert multiset(t[1..]) == multiset(t) - multiset{t[0]};
      AscendingUnique(s[1..], t[1..]);
    }
  }

  lemma SameFirst(s: seq<Scored>, t: seq<Scored>)
    requires Ascending(s) && Ascending(t) && multiset(s) == multiset(t)
    requires s != [] && t != []
    ensures s[0] == t[0]
  {
    assert t[0] in multiset(t) && s[0] in multiset(s);
    var i :| 0 <= i < |s| && s[i] == t[0];
    var j :| 0 <= j < |t| && t[j] == s[0];
    assert AtMost(s[0], s[i]) && AtMost(t[0], t[j]);
  }

  function Ids(s: seq<Scored>): (r: seq<nat>)
    ensures |r| == |s|
    ensures forall i :: 0 <= i < |s| ==> r[i] == s[i].id
  {
    seq(|s|, i requires 0 <= i < |s| => s[i].id)
  }

  function SetOf(s: seq<nat>): set<nat> {
    set n | n in s
  }

  /** A list without repeats is as long as the set of its members is large. */
  lemma {:induction false} NoRepeatsCount(s: seq<nat>)
    requires NoRepeats(s)
    ensures |SetOf(s)| == |s|
  {
    if s != [] {
      var last := |s| - 1;
      NoRepeatsCount(s[..last]);
      assert s == s[..last] + [s[last]];
      assert SetOf(s) == SetOf(s[..last]) + {s[last]};
    }
  }

  lemma {:induction false} SubsetSize(a: set<nat>, b: set<nat>)
    requires a <= b
    ensures |a| <= |b|
  {
    if a != {} {
      var x :| x in a;
      SubsetSize(a - {x}, b - {x});
    }
  }

  /** The nodes below n. */
  function AllNodes(n: nat): (s: set<nat>)
    ensures forall i: nat :: i in s <==> i < n
    ensures |s| == n
  {
    if n == 0 then {} else AllNodes(n - 1) + {n - 1}
  }

  /** The entry a node has when its distance is read from the table of distances. */
  function Entry(dists: seq<real>, n: nat): Scored
    requires n < |dists|
  {
    Scored(dists[n], n)
  }

  /** r lists the min(k, |nodes|) nodes that come first by (distance, id), in that order. */
  ghost predicate IsTopK(r: seq<nat>, nodes: set<nat>, dists: seq<real>, k: nat)
    requires forall n :: n in nodes ==> n < |dists|
  {
    && |r| == (if k < |nodes| then k else |nodes|)
    && (forall i :: 0 <= i < |r| ==> r[i] in nodes)
    && (forall i, j :: 0 <= i < j < |r| ==> Before(Entry(dists, r[i]), Entry(dists, r[j])))
    && (forall n, i :: n in nodes && n !in r && 0 <= i < |r| ==> Before(Entry(dists, r[i]), Entry(dists, n)))
  }

  /** Where two top-k lists have agreed so far, the next entry of one is at most that of the other. */
  lemma NextAtMost(r: seq<nat>, t: seq<nat>, nodes: set<nat>, dists: seq<real>, k: nat, p: nat)
    requires forall n :: n in nodes ==> n < |dists|
    requires IsTopK(r, nodes, dists, k) && IsTopK(t, nodes, dists, k)
    requires p < |r| == |t| && forall q :: 0 <= q < p ==> r[q] == t[q]
    ensures AtMost(Entry(dists, r[p]), Entry(dists, t[p]))
  {
    assert forall q :: 0 <= q < p ==> Before(Entry(dists, t[q]), Entry(dists, t[p]));
    assert forall q :: 0 <= q < p ==> r[q] != t[p];
    if t[p] in r {
      var q :| 0 <= q < |r| && r[q] == t[p];
      assert q == p || Before(Entry(dists, r[p]), Entry(dists, r[q]));
    }
  }

  lemma {:induction false} TopKPrefixAgrees(r: seq<nat>, t: seq<nat>, nodes: set<nat>, dists: seq<real>, k: nat, i: nat)
    requires forall n :: n in nodes ==> n < |dists|
    requires IsTopK(r, nodes, dists, k) && IsTopK(t, nodes, dists, k)
    requires i <= |r|
    ensures |t| == |r| && forall q :: 0 <= q < i ==> r[q] == t[q]
  {
    if i > 0 {
      TopKPrefixAgrees(r, t, nodes, dists, k, i - 1);
      NextAtMost(r, t, nodes, dists, k, i - 1);
      NextAtMost(t, r, nodes, dists, k, i - 1);
    }
  }

  /** There is only one top-k list, so any two procedures that produce one agree, ties included. */
  lemma TopKUnique(r: seq<nat>, t: seq<nat>, nodes: set<nat>, dists: seq<real>, k: nat)
    requires forall n :: n in nodes ==> n < |dists|
    requires IsTopK(r, nodes, dists, k) && IsTopK(t, nodes, dists, k)
    ensures r == t
  {
    TopKPrefixAgrees(r, t, nodes, dists, k, |r|);
  }

  /** The first k ids of a strictly ascending list of all entries of `nodes` are its top k. */
  lemma TakeIsTopK(s: seq<Scored>, nodes: set<nat>, dists: seq<real>, k: nat)
    requires forall n :: n in nodes ==> n < |dists|
    requires StrictlyAscending(s)
    requires forall n :: n in nodes ==> Entry(dists, n) in s
    requires forall i :: 0 <= i < |s| ==> s[i].id in nodes && s[i] == Entry(dists, s[i].id)
    ensures |s| == |nodes|
    ensures IsTopK(Ids(s)[..if k < |s| then k else |s|], nodes, dists, k)
  {
    EntriesCount(s, nodes, dists);
    var m := if k < |s| then k else |s|;
    var r := Ids(s)[..m];
    forall n, i | n in nodes && n !in r && 0 <= i < |r|
      ensures Before(Entry(dists, r[i]), Entry(dists, n))
    {
      var q :| 0 <= q < |s| && s[q] == Entry(dists, n);
      assert forall j :: 0 <= j < m ==> r[j] == s[j].id;
    }
  }

  lemma {:induction false} EntriesCount(s: seq<Scored>, nodes: set<nat>, dists: seq<real>)
    requires forall n :: n in nodes ==> n < |dists|
    requires StrictlyAscending(s)
    requires forall n :: n in nodes ==> Entry(dists, n) in s
    requires forall i :: 0 <= i < |s| ==> s[i].id in nodes && s[i] == Entry(dists, s[i].id)
    ensures |s| == |nodes|
  {
    if s == [] {
      assert nodes == {};
    } else {
      var x, t, rest := s[0].id, s[1..], nodes - {s[0].id};
      forall i | 0 <= i < |t| ensures t[i].id in rest && t[i] == Entry(dists, t[i].id) {
        assert Before(s[0], s[i + 1]);
      }
      EntriesCount(t, rest, dists);
    }
  }
}
