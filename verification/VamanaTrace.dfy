/** The construction search, step by step. */
module VamanaTraces {
  // Every search is a sequence of states: which node each step expands, what it visits and queues, and
  // when it stops.

  import opened Sequences
  import opened Vectors
  import opened Ranking
  import opened BestFirst
  import opened Vamana

  /** Nodes are queued at their distances, and the results are the visited nodes with the largest ids. */
  ghost predicate IsTourState(s: Tour, dists: seq<real>, k: nat) {
    && LargestIds(s.best, s.visited, k, dists) && s.best != []
    && Queued(s.candidates, s.visited) && TrueQueue(s.candidates, dists)
  }

  ghost predicate HasLargestId(x: Neighbor, s: seq<Neighbor>) {
    x in s && forall y :: y in s ==> y.id <= x.id
  }

  ghost predicate HasSmallestId(x: Neighbor, s: seq<Neighbor>) {
    x in s && forall y :: y in s ==> x.id <= y.id
  }

  /** Nothing is queued, or there are k results and the queued node with the largest id is farther than the result
      with the smallest. */
  ghost predicate TourStops(s: Tour, k: nat) {
    || s.candidates == []
    || (|s.best| >= k && exists head, low ::
          HasLargestId(head, s.candidates) && HasSmallestId(low, s.best) && head.dist > low.dist)
  }

  /** One step takes the node with the largest id off the queue, and visits and queues its unvisited neighbours. */
  ghost predicate TourExpands(s: Tour, t: Tour, head: Neighbor, adj: seq<seq<nat>>, dists: seq<real>) {
    && HasLargestId(head, s.candidates)
    && t.visited == s.visited + (set n | n in Adjacent(adj, head.id) && n < |dists|)
    && IdSet(t.candidates) == IdSet(s.candidates) - {head.id} + (t.visited - s.visited)
  }

  ghost predicate TourTurns(s: Tour, t: Tour, adj: seq<seq<nat>>, dists: seq<real>) {
    exists head :: TourExpands(s, t, head, adj, dists)
  }

  /** The states of a search, from some state to one where it stops, and none before that stops. */
  ghost predicate IsTour(tour: seq<Tour>, adj: seq<seq<nat>>, dists: seq<real>, k: nat) {
    && tour != [] && (forall i :: 0 <= i < |tour| ==> IsTourState(tour[i], dists, k))
    && (forall i :: 0 <= i < |tour| - 1 ==>
          !TourStops(tour[i], k) && TourTurns(tour[i], tour[i + 1], adj, dists))
    && TourStops(tour[|tour| - 1], k)
  }

  lemma CutIsStop(s: Tour, dists: seq<real>, k: nat)
    requires IsTourState(s, dists, k)
    ensures s.candidates == [] || TourCut(s, k) <==> TourStops(s, k)
    ensures s.candidates != [] ==> HasLargestId(s.candidates[|s.candidates| - 1], s.candidates)
  {
    assert HasSmallestId(s.best[0], s.best);
    if s.candidates != [] { assert HasLargestId(s.candidates[|s.candidates| - 1], s.candidates); }
  }

  lemma StepExpands(s: Tour, adj: seq<seq<nat>>, dists: seq<real>, k: nat)
    requires IsTourState(s, dists, k) && s.candidates != []
    ensures IsTourState(TourStep(s, adj, dists, k), dists, k)
    ensures TourExpands(s, TourStep(s, adj, dists, k), s.candidates[|s.candidates| - 1], adj, dists)
  {
    hide LargestIds;
    CutIsStop(s, dists, k);
    var last := |s.candidates| - 1;
    var popped, list := s.(candidates := s.candidates[..last]), Adjacent(adj, s.candidates[last].id);
    PopQueued(s.candidates, s.visited);
    LookAllQueues(popped, list, dists, k);
    LookAllVisits(popped, list, dists, k);
    LookAllTrue(popped, list, dists, k);
    assert s.candidates[last].id !in IdSet(popped.candidates);
  }

  lemma {:induction false} RunIsTour(s: Tour, adj: seq<seq<nat>>, dists: seq<real>, k: nat) returns (tour: seq<Tour>)
    requires IsTourState(s, dists, k)
    ensures IsTour(tour, adj, dists, k) && tour[0] == s && tour[|tour| - 1] == TourRun(s, adj, dists, k)
    decreases |Unseen(s.visited, |dists|)|, |s.candidates|
  {
    hide IsTourState;
    hide TourStops;
    hide TourExpands;
    hide TourCut;
    CutIsStop(s, dists, k);
    tour := [s];
    if s.candidates != [] && !TourCut(s, k) {
      StepExpands(s, adj, dists, k);
      StepShrinks(s, adj, dists, k);
      var rest := RunIsTour(TourStep(s, adj, dists, k), adj, dists, k);
      tour := [s] + rest;
      assert forall i :: 0 < i < |tour| ==> tour[i] == rest[i - 1];
      assert TourTurns(s, rest[0], adj, dists);
      forall i | 0 <= i < |tour| - 1 ensures !TourStops(tour[i], k) && TourTurns(tour[i], tour[i + 1], adj, dists) {
        if i > 0 { assert TourTurns(rest[i - 1], rest[i], adj, dists); }
      }
    }
  }

  /** Every search is such a sequence, from its entry alone, and returns the results of the last state. */
  lemma TourIsTrace(entry: nat, adj: seq<seq<nat>>, dists: seq<real>, k: nat) returns (tour: seq<Tour>)
    requires entry < |dists|
    ensures IsTour(tour, adj, dists, k) && tour[|tour| - 1] == Toured(entry, adj, dists, k)
    ensures var first := Neighbor(entry, dists[entry]); tour[0] == Tour([first], [first], {entry})
  {
    StartOnTour(entry, adj, dists, k);
    tour := RunIsTour(TourStart(entry, dists), adj, dists, k);
  }
}
