/** The two-queue eviction policy: hot LRU, warm FIFO. */
module EvictionPolicy {
  import opened Sequences
  import opened Options

  type PageId = nat

  const TAIL_SCAN: nat := 10

  /** The policy's state. The hash maps of list iterators are represented by membership in the
      lists: an iterator is the position of its page. Most recently used pages come first in
      `hot`; the oldest page comes first in `warm`. */
  datatype Queues = Queues(hot: seq<PageId>, warm: seq<PageId>, degree: map<PageId, nat>,
                           hotMax: nat, hubThreshold: nat)

  /** No page is queued twice, and the hot queue keeps within its capacity. */
  ghost predicate Ordered(q: Queues) {
    && NoRepeats(q.hot) && NoRepeats(q.warm)
    && (forall p :: p in q.hot ==> p !in q.warm)
    && |q.hot| <= q.hotMax
  }

  function Queued(q: Queues): set<PageId> {
    (set p | p in q.hot) + (set p | p in q.warm)
  }

  /** Erases a page from a list through its iterator. */
  function Without(s: seq<PageId>, p: PageId): seq<PageId> {
    if s == [] then [] else if s[0] == p then s[1..] else [s[0]] + Without(s[1..], p)
  }

  lemma {:induction false} WithoutContents(s: seq<PageId>, p: PageId)
    requires NoRepeats(s)
    ensures NoRepeats(Without(s, p))
    ensures forall x :: x in Without(s, p) <==> x in s && x != p
    ensures |Without(s, p)| == if p in s then |s| - 1 else |s|
  {
    if s == [] {
    } else if s[0] == p {
      assert s == [s[0]] + s[1..];
    } else {
      WithoutContents(s[1..], p);
      assert s == [s[0]] + s[1..];
      assert s[0] !in s[1..];
      assert s[0] !in Without(s[1..], p);
    }
  }

  function DegreeOf(q: Queues, p: PageId): nat {
    if p in q.degree then q.degree[p] else 0
  }

  function OnAdd(q: Queues, p: PageId, inDegree: nat): Queues {
    q.(warm := q.warm + [p], degree := q.degree[p := inDegree])
  }

  /** A warm page moves to the front of the hot queue, pushing out the oldest hot page when the
      queue overflows. */
  function Promote(q: Queues, p: PageId): Queues {
    var warm, hot := Without(q.warm, p), [p] + q.hot;
    if |hot| > q.hotMax then q.(hot := hot[..|hot| - 1], warm := warm + [hot[|hot| - 1]])
    else q.(hot := hot, warm := warm)
  }

  function OnAccess(q: Queues, p: PageId, inDegree: nat): Queues {
    var q := q.(degree := q.degree[p := inDegree]);
    if p in q.warm then Promote(q, p)
    else if p in q.hot then q.(hot := [p] + Without(q.hot, p))
    else q
  }

  function OnRemove(q: Queues, p: PageId): Queues {
    var r := if p in q.hot then q.(hot := Without(q.hot, p))
             else if p in q.warm then q.(warm := Without(q.warm, p))
             else q;
    r.(degree := r.degree - {p})
  }

  /** Among the last n hot pages, the position of the best non-hub to evict. */
  function BestOfTail(q: Queues, n: nat): (r: Option<nat>)
    requires n <= |q.hot|
    ensures r.Some? ==> |q.hot| - n <= r.value < |q.hot|
  {
    if n == 0 then None
    else
      var best, at := BestOfTail(q, n - 1), |q.hot| - n;
      var d := DegreeOf(q, q.hot[at]);
      if d >= q.hubThreshold then best
      else if best.None? || d < DegreeOf(q, q.hot[best.value]) then Some(at)
      else best
  }

  function TailLength(q: Queues): nat {
    if |q.hot| < TAIL_SCAN then |q.hot| else TAIL_SCAN
  }

  function HotVictim(q: Queues): PageId
    requires q.hot != []
  {
    var best := BestOfTail(q, TailLength(q));
    q.hot[if best.Some? then best.value else |q.hot| - 1]
  }

  /** The page to evict, or None, and the queues without it. */
  function PickVictim(q: Queues): (Queues, Option<PageId>) {
    if q.warm != [] && |q.hot| < q.hotMax then
      (q.(warm := q.warm[1..], degree := q.degree - {q.warm[0]}), Some(q.warm[0]))
    else if q.hot != [] then
      var v := HotVictim(q);
      (q.(hot := Without(q.hot, v), degree := q.degree - {v}), Some(v))
    else (q, None)
  }

  // ---------------------------------------------------------------------------------------
  // What the policy guarantees
  // ---------------------------------------------------------------------------------------

  lemma OnAddKeeps(q: Queues, p: PageId, inDegree: nat)
    requires Ordered(q) && p !in Queued(q)
    ensures Ordered(OnAdd(q, p, inDegree))
    ensures Queued(OnAdd(q, p, inDegree)) == Queued(q) + {p}
    ensures OnAdd(q, p, inDegree).hot == q.hot && OnAdd(q, p, inDegree).warm == q.warm + [p]
  {
  }

  lemma PromoteKeeps(q: Queues, p: PageId)
    requires Ordered(q) && p in q.warm
    ensures Ordered(Promote(q, p))
    ensures forall x :: x in Promote(q, p).hot || x in Promote(q, p).warm <==> x in q.hot || x in q.warm
  {
    hide Without;
    WithoutContents(q.warm, p);
    var hot, r := [p] + q.hot, Promote(q, p);
    InFront(p, q.hot);
    if |hot| > q.hotMax {
      var demoted := hot[|hot| - 1];
      LastApart(hot);
      NoRepeatsAppend(Without(q.warm, p), demoted);
      assert forall x :: x in r.warm <==> x == demoted || x in Without(q.warm, p);
    }
  }

  lemma InFront(p: PageId, rest: seq<PageId>)
    requires NoRepeats(rest) && p !in rest
    ensures NoRepeats([p] + rest)
    ensures forall x :: x in [p] + rest <==> x == p || x in rest
  {
  }

  lemma LastApart(s: seq<PageId>)
    requires NoRepeats(s) && s != []
    ensures var last := |s| - 1;
      && NoRepeats(s[..last]) && s[last] !in s[..last]
      && forall x :: x in s <==> x in s[..last] || x == s[last]
  {
    var last := |s| - 1;
    assert s == s[..last] + [s[last]];
  }

  lemma OnAccessKeeps(q: Queues, p: PageId, inDegree: nat)
    requires Ordered(q)
    ensures Ordered(OnAccess(q, p, inDegree))
    ensures Queued(OnAccess(q, p, inDegree)) == Queued(q)
  {
    var stamped := q.(degree := q.degree[p := inDegree]);
    if p in q.warm {
      PromoteKeeps(stamped, p);
    } else if p in q.hot {
      WithoutContents(q.hot, p);
      assert forall x :: x in [p] + Without(q.hot, p) <==> x in q.hot;
    }
  }

  lemma OnRemoveKeeps(q: Queues, p: PageId)
    requires Ordered(q)
    ensures Ordered(OnRemove(q, p))
    ensures Queued(OnRemove(q, p)) == Queued(q) - {p}
  {
    WithoutContents(q.warm, p);
    WithoutContents(q.hot, p);
  }

  lemma PickVictimKeeps(q: Queues)
    requires Ordered(q)
    ensures var (r, v) := PickVictim(q);
      && Ordered(r) && r.hotMax == q.hotMax && r.hubThreshold == q.hubThreshold
      && (v.Some? ==> v.value in Queued(q) && Queued(r) == Queued(q) - {v.value})
      && (v.None? ==> r == q)
  {
    if q.warm != [] && |q.hot| < q.hotMax {
      assert q.warm == [q.warm[0]] + q.warm[1..];
    } else if q.hot != [] {
      WithoutContents(q.hot, HotVictim(q));
    }
  }

  /** With room for a hot page, no victim means nothing is queued; with none, a victim is never
      found, however many warm pages there are. */
  lemma NoVictimExactly(q: Queues)
    requires Ordered(q)
    ensures PickVictim(q).1.None? <==> q.hot == [] && (q.warm == [] || q.hotMax == 0)
  {
  }

  /** Some page of the scanned tail is not a hub. */
  predicate TailHasNonHub(q: Queues) {
    exists i :: |q.hot| - TailLength(q) <= i < |q.hot| && DegreeOf(q, q.hot[i]) < q.hubThreshold
  }

  lemma {:induction false} BestOfTailIsLeast(q: Queues, n: nat)
    requires n <= |q.hot|
    ensures var r := BestOfTail(q, n);
      && (r.None? ==> forall i :: |q.hot| - n <= i < |q.hot| ==> DegreeOf(q, q.hot[i]) >= q.hubThreshold)
      && (r.Some? ==>
            && DegreeOf(q, q.hot[r.value]) < q.hubThreshold
            && (forall i :: |q.hot| - n <= i < |q.hot| && DegreeOf(q, q.hot[i]) < q.hubThreshold ==>
                  DegreeOf(q, q.hot[r.value]) <= DegreeOf(q, q.hot[i]))
            && (forall i :: r.value < i < |q.hot| && DegreeOf(q, q.hot[i]) < q.hubThreshold ==>
                  DegreeOf(q, q.hot[r.value]) < DegreeOf(q, q.hot[i])))
  {
    if n > 0 {
      BestOfTailIsLeast(q, n - 1);
    }
  }

  /** A hot victim is a least connected non-hub of the last ten hot pages, the oldest of them
      when several tie; a hub is only taken, the oldest page, when all of those are hubs. */
  lemma HotVictimIsLeast(q: Queues)
    requires q.hot != []
    ensures TailHasNonHub(q) ==>
      exists at ::
        && |q.hot| - TailLength(q) <= at < |q.hot| && HotVictim(q) == q.hot[at]
        && DegreeOf(q, q.hot[at]) < q.hubThreshold
        && (forall i :: |q.hot| - TailLength(q) <= i < |q.hot| && DegreeOf(q, q.hot[i]) < q.hubThreshold ==>
              DegreeOf(q, q.hot[at]) <= DegreeOf(q, q.hot[i]))
        && (forall i :: at < i < |q.hot| && DegreeOf(q, q.hot[i]) < q.hubThreshold ==>
              DegreeOf(q, q.hot[at]) < DegreeOf(q, q.hot[i]))
    ensures !TailHasNonHub(q) ==> HotVictim(q) == q.hot[|q.hot| - 1]
  {
    BestOfTailIsLeast(q, TailLength(q));
    var r := BestOfTail(q, TailLength(q));
    if r.Some? {
      assert HotVictim(q) == q.hot[r.value];
    }
  }

  /** A warm victim is the page that has waited longest. */
  lemma WarmVictimIsFront(q: Queues)
    requires Ordered(q) && PickVictim(q).1.Some? && PickVictim(q).1.value in q.warm
    ensures PickVictim(q).1.value == q.warm[0] && PickVictim(q).0.warm == q.warm[1..] && |q.hot| < q.hotMax
  {
  }

  // ---------------------------------------------------------------------------------------
  // Exactly what each operation does to the queues
  // ---------------------------------------------------------------------------------------

  /** One list is the other without a page, in the same order. */
  ghost predicate Removed(before: seq<PageId>, after: seq<PageId>, p: PageId) {
    exists at :: RemovedAt(before, after, p, at)
  }

  predicate RemovedAt(before: seq<PageId>, after: seq<PageId>, p: PageId, at: int) {
    0 <= at < |before| && before[at] == p && after == before[..at] + before[at + 1..]
  }

  lemma {:induction false} WithoutRemoves(s: seq<PageId>, p: PageId)
    requires p in s
    ensures Removed(s, Without(s, p), p)
  {
    if s[0] == p {
      assert RemovedAt(s, s[1..], p, 0);
    } else {
      assert s == [s[0]] + s[1..];
      WithoutRemoves(s[1..], p);
      var at :| RemovedAt(s[1..], Without(s[1..], p), p, at);
      RemovedBehind(s[0], s[1..], Without(s[1..], p), p, at);
    }
  }

  lemma RemovedBehind(first: PageId, before: seq<PageId>, after: seq<PageId>, p: PageId, at: int)
    requires RemovedAt(before, after, p, at)
    ensures RemovedAt([first] + before, [first] + after, p, at + 1)
  {
    var all := [first] + before;
    assert all[..at + 1] == [first] + before[..at] && all[at + 2..] == before[at + 1..];
  }

  /** Of the last ten hot pages, the page is a non-hub of least in-degree, the last of equals; or all of them
      are hubs, and it is the last. */
  ghost predicate IsHotChoice(q: Queues, p: PageId) {
    var from := if |q.hot| < 10 then 0 else |q.hot| - 10;
    if forall i :: from <= i < |q.hot| ==> DegreeOf(q, q.hot[i]) >= q.hubThreshold
    then q.hot != [] && p == q.hot[|q.hot| - 1]
    else exists at ::
           && from <= at < |q.hot| && p == q.hot[at] && DegreeOf(q, p) < q.hubThreshold
           && forall i :: from <= i < |q.hot| && DegreeOf(q, q.hot[i]) < q.hubThreshold ==>
                DegreeOf(q, p) <= DegreeOf(q, q.hot[i]) && (at < i ==> DegreeOf(q, p) < DegreeOf(q, q.hot[i]))
  }

  lemma HotVictimIsChoice(q: Queues)
    requires q.hot != []
    ensures IsHotChoice(q, HotVictim(q)) && HotVictim(q) in q.hot
  {
    hide BestOfTail;
    BestOfTailIsLeast(q, TailLength(q));
  }

  /** Which queue gives up a page, and which page: the oldest warm one while the hot queue has room, else a hot
      one, else, with the hot queue empty, none. The other pages stay where they are. */
  lemma VictimExactly(q: Queues)
    requires Ordered(q)
    ensures var (r, v) := PickVictim(q);
      && (v.Some? && v.value in q.warm <==> q.warm != [] && |q.hot| < q.hotMax)
      && (v.Some? && v.value in q.hot <==> q.hot != [] && (q.warm == [] || |q.hot| == q.hotMax))
      && (v.Some? && v.value in q.warm ==> q.warm == [v.value] + r.warm && r.hot == q.hot)
      && (v.Some? && v.value in q.hot ==>
            IsHotChoice(q, v.value) && Removed(q.hot, r.hot, v.value) && r.warm == q.warm)
      && (v.Some? ==> v.value in q.warm || v.value in q.hot)
      && (forall p :: p in r.degree <==> p in q.degree && v != Some(p))
      && (forall p :: p in r.degree ==> r.degree[p] == q.degree[p])
  {
    hide HotVictim;
    hide IsHotChoice;
    if q.hot != [] {
      HotVictimIsChoice(q);
      WithoutRemoves(q.hot, HotVictim(q));
    }
  }

  /** What an access moves: a warm page to the front of the hot queue, whose last page makes room at the back of
      the warm queue when it is full; a hot page to the front; and nothing else. */
  lemma AccessExactly(q: Queues, p: PageId, inDegree: nat)
    requires Ordered(q)
    ensures var r := OnAccess(q, p, inDegree);
      && r.hotMax == q.hotMax && r.hubThreshold == q.hubThreshold && r.degree == q.degree[p := inDegree]
      && (p in q.warm && q.hotMax == 0 ==>
            r.hot == [] && exists rest :: Removed(q.warm, rest, p) && r.warm == rest + [p])
      && (p in q.warm && |q.hot| < q.hotMax ==> r.hot == [p] + q.hot && Removed(q.warm, r.warm, p))
      && (p in q.warm && |q.hot| == q.hotMax > 0 ==>
            && r.hot == [p] + q.hot[..|q.hot| - 1]
            && exists rest :: Removed(q.warm, rest, p) && r.warm == rest + [q.hot[|q.hot| - 1]])
      && (p in q.hot ==> r.warm == q.warm && exists rest :: Removed(q.hot, rest, p) && r.hot == [p] + rest)
      && (p !in Queued(q) ==> r.hot == q.hot && r.warm == q.warm)
  {
    hide Removed;
    hide Without;
    if p in q.warm {
      WithoutRemoves(q.warm, p);
      if q.hotMax > 0 { assert ([p] + q.hot)[..|q.hot|] == if q.hot == [] then [] else [p] + q.hot[..|q.hot| - 1]; }
    } else if p in q.hot {
      WithoutRemoves(q.hot, p);
    }
  }

  /** What a removal takes out: the page alone, from the queue it is in. */
  lemma RemoveExactly(q: Queues, p: PageId)
    requires Ordered(q)
    ensures var r := OnRemove(q, p);
      && r == q.(hot := r.hot, warm := r.warm, degree := q.degree - {p})
      && (if p in q.hot then Removed(q.hot, r.hot, p) else r.hot == q.hot)
      && (if p in q.warm then Removed(q.warm, r.warm, p) else r.warm == q.warm)
  {
    if p in q.hot {
      WithoutRemoves(q.hot, p);
    } else if p in q.warm {
      WithoutRemoves(q.warm, p);
    }
  }

  // ---------------------------------------------------------------------------------------
  // The warm queue is in order of arrival
  // ---------------------------------------------------------------------------------------

  /** The clock time at which each page joined the warm queue. */
  ghost predicate ByArrival(warm: seq<PageId>, joined: map<PageId, nat>, now: nat) {
    && (forall p :: p in warm ==> p in joined && joined[p] < now)
    && (forall i, j :: 0 <= i < j < |warm| ==> joined[warm[i]] < joined[warm[j]])
  }

  lemma SameArrival(warm: seq<PageId>, joined: map<PageId, nat>, stamped: map<PageId, nat>, now: nat)
    requires ByArrival(warm, joined, now) && forall x :: x in warm ==> x in stamped && stamped[x] == joined[x]
    ensures ByArrival(warm, stamped, now + 1)
  {
  }

  lemma JoinsNow(warm: seq<PageId>, p: PageId, joined: map<PageId, nat>, stamped: map<PageId, nat>, now: nat)
    requires ByArrival(warm, joined, now) && p in stamped && stamped[p] == now
    requires forall x :: x in warm ==> x in stamped && stamped[x] == joined[x]
    ensures ByArrival(warm + [p], stamped, now + 1)
  {
    var all := warm + [p];
    assert forall i :: 0 <= i < |warm| ==> all[i] == warm[i];
  }

  lemma AddKeepsArrival(q: Queues, p: PageId, inDegree: nat, joined: map<PageId, nat>, now: nat)
    requires Ordered(q) && p !in Queued(q) && ByArrival(q.warm, joined, now)
    ensures ByArrival(OnAdd(q, p, inDegree).warm, joined[p := now], now + 1)
  {
    JoinsNow(q.warm, p, joined, joined[p := now], now);
  }

  lemma RemovedByArrival(before: seq<PageId>, after: seq<PageId>, p: PageId, joined: map<PageId, nat>, now: nat)
    requires NoRepeats(before) && ByArrival(before, joined, now) && Removed(before, after, p)
    ensures ByArrival(after, joined, now) && p !in after && forall x :: x in after ==> x in before
  {
    var at :| RemovedAt(before, after, p, at);
    forall i | 0 <= i < |after| ensures after[i] == before[if i < at then i else i + 1] {
    }
    assert p !in after;
  }

  /** An accessed page leaves the warm queue; a demoted one joins it now, behind those already there. */
  lemma AccessKeepsArrival(q: Queues, p: PageId, inDegree: nat, joined: map<PageId, nat>, stamped: map<PageId, nat>,
                           now: nat)
    requires Ordered(q) && ByArrival(q.warm, joined, now)
    requires forall x :: x in OnAccess(q, p, inDegree).warm ==>
      x in stamped && stamped[x] == if x in q.warm && x != p then joined[x] else now
    ensures ByArrival(OnAccess(q, p, inDegree).warm, stamped, now + 1)
  {
    hide ByArrival;
    hide Removed;
    hide Without;
    if p in q.warm {
      var rest, warm := Without(q.warm, p), OnAccess(q, p, inDegree).warm;
      WithoutRemoves(q.warm, p);
      RemovedByArrival(q.warm, rest, p, joined, now);
      assert forall x :: x in rest ==> x in warm;
      if warm == rest {
        SameArrival(rest, joined, stamped, now);
      } else {
        var demoted := warm[|rest|];
        assert demoted in warm;
        JoinsNow(rest, demoted, joined, stamped, now);
      }
    } else {
      SameArrival(q.warm, joined, stamped, now);
    }
  }

  /** A warm victim has waited longest, and the others keep their places. */
  lemma WarmVictimWaitedLongest(q: Queues, joined: map<PageId, nat>, now: nat)
    requires Ordered(q) && ByArrival(q.warm, joined, now)
    ensures var (r, v) := PickVictim(q);
      && ByArrival(r.warm, joined, now)
      && (v.Some? && v.value in q.warm ==> forall x :: x in q.warm ==> joined[v.value] <= joined[x])
  {
  }

  // ---------------------------------------------------------------------------------------
  // The hot queue is in order of last access
  // ---------------------------------------------------------------------------------------

  /** The clock time of each page's last access. */
  ghost predicate ByRecency(hot: seq<PageId>, last: map<PageId, nat>, now: nat) {
    && (forall p :: p in hot ==> p in last && last[p] < now)
    && (forall i, j :: 0 <= i < j < |hot| ==> last[hot[i]] > last[hot[j]])
  }

  lemma MoreRecent(first: PageId, rest: seq<PageId>, last: map<PageId, nat>, now: nat)
    requires ByRecency(rest, last, now) && first in last && last[first] < now
    requires forall j :: 0 <= j < |rest| ==> rest[j] in last && last[first] > last[rest[j]]
    ensures ByRecency([first] + rest, last, now)
  {
    var all := [first] + rest;
    assert forall i :: 0 < i < |all| ==> all[i] == rest[i - 1];
  }

  lemma {:induction false} WithoutByRecency(hot: seq<PageId>, p: PageId, last: map<PageId, nat>, now: nat)
    requires NoRepeats(hot) && ByRecency(hot, last, now)
    ensures ByRecency(Without(hot, p), last, now)
  {
    if hot == [] {
    } else if hot[0] == p {
    } else {
      var rest, w := hot[1..], Without(hot[1..], p);
      assert forall i :: 0 <= i < |rest| ==> rest[i] == hot[i + 1];
      WithoutByRecency(rest, p, last, now);
      WithoutContents(rest, p);
      forall j | 0 <= j < |w| ensures last[hot[0]] > last[w[j]] {
        assert w[j] in rest;
        var k :| 0 <= k < |rest| && rest[k] == w[j];
        assert last[hot[0]] > last[hot[k + 1]];
      }
      MoreRecent(hot[0], w, last, now);
    }
  }

  /** A page stamped now goes in front of older ones. */
  lemma StampedInFront(hot: seq<PageId>, p: PageId, last: map<PageId, nat>, now: nat)
    requires ByRecency(hot, last, now) && p !in hot
    ensures ByRecency([p] + hot, last[p := now], now + 1) && ByRecency(hot, last[p := now], now + 1)
  {
    var front := [p] + hot;
    assert forall i :: 0 < i < |front| ==> front[i] == hot[i - 1];
  }

  lemma PrefixByRecency(hot: seq<PageId>, n: nat, last: map<PageId, nat>, now: nat)
    requires ByRecency(hot, last, now) && n <= |hot|
    ensures ByRecency(hot[..n], last, now)
  {
  }

  /** An access stamps the page with the current time; the hot queue stays sorted, newest first. */
  lemma AccessKeepsRecency(q: Queues, p: PageId, inDegree: nat, last: map<PageId, nat>, now: nat)
    requires Ordered(q) && ByRecency(q.hot, last, now)
    ensures ByRecency(OnAccess(q, p, inDegree).hot, last[p := now], now + 1)
  {
    hide ByRecency;
    hide Without;
    var kept := Without(q.hot, p);
    WithoutByRecency(q.hot, p, last, now);
    WithoutContents(q.hot, p);
    StampedInFront(kept, p, last, now);
    if p !in q.hot {
      StampedInFront(q.hot, p, last, now);
      PrefixByRecency([p] + q.hot, |q.hot|, last[p := now], now + 1);
    }
  }

  lemma EvictionKeepsRecency(q: Queues, last: map<PageId, nat>, now: nat)
    requires Ordered(q) && ByRecency(q.hot, last, now)
    ensures ByRecency(PickVictim(q).0.hot, last, now)
  {
    if q.hot != [] {
      WithoutByRecency(q.hot, HotVictim(q), last, now);
    }
  }

  // ---------------------------------------------------------------------------------------
  // The policy object
  // ---------------------------------------------------------------------------------------

  class TwoQueueEvictionPolicy {
    const hotQueueMaxSize: nat
    var hotQueue: seq<PageId>
    var warmQueue: seq<PageId>
    var inDegree: map<PageId, nat>
    var hubThreshold: nat

    function State(): Queues
      reads this
    {
      Queues(hotQueue, warmQueue, inDegree, hotQueueMaxSize, hubThreshold)
    }

    /** The hot queue takes a share of the pages, rounded down. */
    constructor (maxPages: nat, hotQueueRatio: real)
      requires hotQueueRatio >= 0.0
      ensures State() == Queues([], [], map[], (maxPages as real * hotQueueRatio).Floor, 2)
    {
      assert maxPages as real * hotQueueRatio >= 0.0;
      hotQueueMaxSize := (maxPages as real * hotQueueRatio).Floor;
      hotQueue, warmQueue, inDegree, hubThreshold := [], [], map[], 2;
    }

    method AddPage(pageId: PageId, degree: nat)
      modifies this
      ensures State() == OnAdd(old(State()), pageId, degree)
    {
      warmQueue := warmQueue + [pageId];
      inDegree := inDegree[pageId := degree];
    }

    method AccessPage(pageId: PageId, degree: nat)
      modifies this
      ensures State() == OnAccess(old(State()), pageId, degree)
    {
      inDegree := inDegree[pageId := degree];
      if pageId in warmQueue {
        PromoteToHotQueue(pageId);
      } else if pageId in hotQueue {
        hotQueue := Without(hotQueue, pageId);
        hotQueue := [pageId] + hotQueue;
      }
    }

    method PromoteToHotQueue(pageId: PageId)
      modifies this
      ensures State() == Promote(old(State()), pageId)
    {
      warmQueue := Without(warmQueue, pageId);
      hotQueue := [pageId] + hotQueue;
      if |hotQueue| > hotQueueMaxSize {
        var demoted := hotQueue[|hotQueue| - 1];
        hotQueue := hotQueue[..|hotQueue| - 1];
        warmQueue := warmQueue + [demoted];
      }
    }

    method RemovePage(pageId: PageId)
      modifies this
      ensures State() == OnRemove(old(State()), pageId)
    {
      if pageId in hotQueue {
        hotQueue := Without(hotQueue, pageId);
      } else if pageId in warmQueue {
        warmQueue := Without(warmQueue, pageId);
      }
      inDegree := inDegree - {pageId};
    }

    method GetEvictionCandidate() returns (victim: Option<PageId>)
      modifies this
      ensures (State(), victim) == PickVictim(old(State()))
    {
      if warmQueue != [] {
        var candidate := warmQueue[0];
        if |hotQueue| >= hotQueueMaxSize {
          victim := EvictFromHotQueue();
          return;
        }
        warmQueue := warmQueue[1..];
        inDegree := inDegree - {candidate};
        return Some(candidate);
      }
      if hotQueue != [] {
        victim := EvictFromHotQueue();
        return;
      }
      return None;
    }

    /** Scans at most ten pages from the back of the hot queue. */
    method EvictFromHotQueue() returns (victim: Option<PageId>)
      modifies this
      ensures old(hotQueue) == [] ==> victim == None && State() == old(State())
      ensures old(hotQueue) != [] ==>
        && victim == Some(HotVictim(old(State())))
        && State() == old(State()).(hot := Without(old(hotQueue), victim.value),
                                         degree := old(inDegree) - {victim.value})
    {
      if hotQueue == [] { return None; }
      var best: Option<nat> := None;
      var scanned := 0;
      while scanned < TAIL_SCAN && scanned < |hotQueue|
        invariant State() == old(State())
        invariant scanned <= |hotQueue| && scanned <= TAIL_SCAN
        invariant best == BestOfTail(State(), scanned)
      {
        scanned := scanned + 1;
        var at := |hotQueue| - scanned;
        var degree := DegreeOf(State(), hotQueue[at]);
        if degree >= hubThreshold { continue; }
        if best.None? || degree < DegreeOf(State(), hotQueue[best.value]) {
          best := Some(at);
        }
      }
      var chosen := hotQueue[if best.Some? then best.value else |hotQueue| - 1];
      hotQueue := Without(hotQueue, chosen);
      inDegree := inDegree - {chosen};
      return Some(chosen);
    }

    method SetInDegree(pageId: PageId, degree: nat)
      modifies this
      ensures State() == old(State()).(degree := old(inDegree)[pageId := degree])
    {
      inDegree := inDegree[pageId := degree];
    }

    method Clear()
      modifies this
      ensures State() == Queues([], [], map[], hotQueueMaxSize, old(hubThreshold))
    {
      hotQueue, warmQueue, inDegree := [], [], map[];
    }
  }
}
