/**
  The generic A* search engine: the operations a searchable state offers,
  the frontier record, the search loop of `find_path` and the rebuilding of
  the path from the predecessor chain.

  Frontier records are kept in an arena (a sequence that only grows), so a
  predecessor is an index into the arena; the heap is the sequence of arena
  indices still waiting to be popped.
 */
module AStar {

  datatype Option<+T> = None | Some(value: T)

  /** The operations a state type provides to the engine (AStarableI).
      Equality is Dafny's equality on T. */
  datatype Domain<!T> = Domain(
    isValid: T -> bool,
    neighbors: T -> seq<T>,
    estDistTo: (T, T) -> nat)

  /** A frontier record. `prev` is the arena index of the record it was
      produced from; only the start record has none. */
  datatype HeapEntry<T> = HeapEntry(payload: T, distFromStart: nat, estDistFromEnd: nat, prev: Option<nat>)
  {
    function EstTotalDist(): nat {
      distFromStart + estDistFromEnd
    }

    /** The heap's ordering. */
    predicate Less(other: HeapEntry<T>) {
      EstTotalDist() < other.EstTotalDist()
    }
  }

  /** `Less` is a strict weak order, so "a least entry" is well defined. */
  lemma LessIsStrictWeakOrder<T>(a: HeapEntry<T>, b: HeapEntry<T>, c: HeapEntry<T>)
    ensures !a.Less(a)
    ensures a.Less(b) && b.Less(c) ==> a.Less(c)
    ensures !a.Less(b) && !b.Less(a) <==> a.EstTotalDist() == b.EstTotalDist()
  {
  }

  // ---------------------------------------------------------------------
  // Walks through the search space

  ghost predicate NoDuplicates<T>(s: seq<T>) {
    forall i, j :: 0 <= i < j < |s| ==> s[i] != s[j]
  }

  /** A walk: every state but the last is valid and is followed by one of
      its neighbours. */
  ghost predicate IsWalk<T>(dom: Domain<T>, w: seq<T>) {
    |w| > 0 &&
    forall k :: 0 <= k < |w| - 1 ==> dom.isValid(w[k]) && w[k + 1] in dom.neighbors(w[k])
  }

  ghost predicate Reachable<T(!new)>(dom: Domain<T>, from: T, to: T) {
    exists w :: IsWalk(dom, w) && w[0] == from && w[|w| - 1] == to
  }

  /** No neighbour of a valid member of `s` lies outside `s`. */
  ghost predicate ClosedUnder<T>(dom: Domain<T>, s: set<T>) {
    forall x, n :: x in s && dom.isValid(x) && n in dom.neighbors(x) ==> n in s
  }

  /** A walk that starts inside a closed set never leaves it. */
  lemma {:induction false} WalkStaysInside<T>(dom: Domain<T>, s: set<T>, w: seq<T>)
    requires ClosedUnder(dom, s) && IsWalk(dom, w) && w[0] in s
    ensures forall k :: 0 <= k < |w| ==> w[k] in s
    decreases |w|
  {
    if |w| > 1 {
      var tail := w[1..];
      assert IsWalk(dom, tail) by {
        forall k | 0 <= k < |tail| - 1
          ensures dom.isValid(tail[k]) && tail[k + 1] in dom.neighbors(tail[k])
        {
          assert tail[k] == w[k + 1] && tail[k + 1] == w[k + 2];
        }
      }
      assert w[1] in dom.neighbors(w[0]);
      WalkStaysInside(dom, s, tail);
      forall k | 1 <= k < |w| ensures w[k] in s {
        assert w[k] == tail[k - 1];
      }
    }
  }

  // ---------------------------------------------------------------------
  // The arena of frontier records

  /** Every predecessor index names an earlier record. */
  ghost predicate Linked<T>(arena: seq<HeapEntry<T>>) {
    forall i :: 0 <= i < |arena| && arena[i].prev.Some? ==> arena[i].prev.value < i
  }

  /** Record `i` was pushed while expanding its predecessor: one step
      further from the start, a neighbour of a valid state that is not the
      goal. */
  ghost predicate ChildOf<T>(dom: Domain<T>, end: T, arena: seq<HeapEntry<T>>, i: nat)
    requires i < |arena|
  {
    arena[i].prev.Some? && arena[i].prev.value < i &&
    arena[i].distFromStart == arena[arena[i].prev.value].distFromStart + 1 &&
    arena[i].payload in dom.neighbors(arena[arena[i].prev.value].payload) &&
    dom.isValid(arena[arena[i].prev.value].payload) && arena[arena[i].prev.value].payload != end
  }

  /** The shape of every arena the search builds: record 0 is the start
      record, the only one without a predecessor; every other record is a
      child of an earlier one; every estimate was taken towards `end`. */
  ghost predicate WellFormed<T>(dom: Domain<T>, start: T, end: T, arena: seq<HeapEntry<T>>) {
    && Linked(arena)
    && |arena| > 0
    && arena[0] == HeapEntry(start, 0, dom.estDistTo(start, end), None)
    && (forall i :: 0 < i < |arena| ==> ChildOf(dom, end, arena, i))
    && (forall i :: 0 <= i < |arena| ==> arena[i].estDistFromEnd == dom.estDistTo(arena[i].payload, end))
  }

  /** The states met when following predecessors from record `i` back to
      the start record, `i`'s own state first. */
  ghost function Trace<T>(arena: seq<HeapEntry<T>>, i: nat): seq<T>
    requires Linked(arena) && i < |arena|
    decreases i
  {
    match arena[i].prev
    case None => [arena[i].payload]
    case Some(p) => [arena[i].payload] + Trace(arena, p)
  }

  /** `t` read backwards is a walk whose states before the last are not `end`. */
  ghost predicate BackwardWalk<T>(dom: Domain<T>, end: T, t: seq<T>) {
    forall k :: 1 <= k < |t| ==> t[k - 1] in dom.neighbors(t[k]) && dom.isValid(t[k]) && t[k] != end
  }

  /** A record's distance is the number of predecessor links back to the
      start record, and the chain is a walk backwards from it to `start`
      through valid states other than the goal. */
  lemma {:induction false} TraceShape<T>(dom: Domain<T>, start: T, end: T, arena: seq<HeapEntry<T>>, i: nat)
    requires WellFormed(dom, start, end, arena) && i < |arena|
    ensures |Trace(arena, i)| == arena[i].distFromStart + 1
    ensures Trace(arena, i)[0] == arena[i].payload
    ensures Trace(arena, i)[|Trace(arena, i)| - 1] == start
    ensures BackwardWalk(dom, end, Trace(arena, i))
    decreases i
  {
    if i == 0 {
      assert Trace(arena, 0) == [start];
    } else {
      assert ChildOf(dom, end, arena, i);
      var p := arena[i].prev.value;
      TraceShape(dom, start, end, arena, p);
      var t, u := Trace(arena, i), Trace(arena, p);
      assert t == [arena[i].payload] + u;
      forall k | 1 <= k < |t|
        ensures t[k - 1] in dom.neighbors(t[k]) && dom.isValid(t[k]) && t[k] != end
      {
        if k > 1 {
          assert t[k - 1] == u[k - 2] && t[k] == u[k - 1];
        }
      }
    }
  }

  /** Every state of the chain after the first is the state of a record
      listed in `parents`, when every predecessor is listed there. */
  lemma {:induction false} TraceThroughParents<T>(arena: seq<HeapEntry<T>>, parents: seq<nat>, i: nat)
    requires Linked(arena) && i < |arena|
    requires forall j :: 0 <= j < |arena| && arena[j].prev.Some? ==> arena[j].prev.value in parents
    ensures forall k :: 1 <= k < |Trace(arena, i)| ==>
      exists x :: x in parents && x < |arena| && arena[x].payload == Trace(arena, i)[k]
    decreases i
  {
    match arena[i].prev
    case None =>
      assert Trace(arena, i) == [arena[i].payload];
    case Some(p) =>
      TraceThroughParents(arena, parents, p);
      var t, u := Trace(arena, i), Trace(arena, p);
      forall k | 1 <= k < |t|
        ensures exists x :: x in parents && x < |arena| && arena[x].payload == t[k]
      {
        if k == 1 {
          assert t[1] == arena[p].payload;
        } else {
          assert t[k] == u[k - 1];
        }
      }
  }

  /** path[::-1] */
  function Reverse<T>(s: seq<T>): (r: seq<T>)
    ensures |r| == |s|
    ensures forall k :: 0 <= k < |s| ==> r[k] == s[|s| - 1 - k]
  {
    if s == [] then [] else Reverse(s[1..]) + [s[0]]
  }

  // Heap operations

  /** Every queued index names a record of the arena. */
  ghost predicate IndicesIn<T>(arena: seq<HeapEntry<T>>, queue: seq<nat>) {
    forall m :: 0 <= m < |queue| ==> queue[m] < |arena|
  }

  predicate IsMinimumAt<T>(arena: seq<HeapEntry<T>>, queue: seq<nat>, k: nat)
    requires k < |queue| && IndicesIn(arena, queue)
  {
    forall m :: 0 <= m < |queue| ==> !arena[queue[m]].Less(arena[queue[k]])
  }

  /** A non-empty queue has a least entry. */
  lemma {:induction false} MinimumExists<T>(arena: seq<HeapEntry<T>>, queue: seq<nat>)
    requires |queue| > 0 && IndicesIn(arena, queue)
    ensures exists k :: 0 <= k < |queue| && IsMinimumAt(arena, queue, k)
    decreases |queue|
  {
    if |queue| == 1 {
      assert IsMinimumAt(arena, queue, 0);
    } else {
      var init := queue[..|queue| - 1];
      MinimumExists(arena, init);
      var k :| 0 <= k < |init| && IsMinimumAt(arena, init, k);
      var last := |queue| - 1;
      assert forall m :: 0 <= m < last ==> queue[m] == init[m];
      if arena[queue[last]].Less(arena[queue[k]]) {
        assert IsMinimumAt(arena, queue, last);
      } else {
        assert IsMinimumAt(arena, queue, k);
      }
    }
  }

  /** heappop: removes one occurrence of an entry that no queued entry is
      `Less` than. Which of several least entries is taken is left open. */
  method PopMin<T>(arena: seq<HeapEntry<T>>, queue: seq<nat>) returns (top: nat, rest: seq<nat>)
    requires |queue| > 0 && IndicesIn(arena, queue)
    ensures top in queue && top < |arena|
    ensures forall m :: 0 <= m < |queue| ==> !arena[queue[m]].Less(arena[top])
    ensures multiset(rest) == multiset(queue) - multiset{top}
    ensures |rest| == |queue| - 1
  {
    MinimumExists(arena, queue);
    var k :| 0 <= k < |queue| && IsMinimumAt(arena, queue, k);
    top := queue[k];
    rest := queue[..k] + queue[k + 1..];
    assert queue == queue[..k] + [top] + queue[k + 1..];
  }

  /** What removing one occurrence of `top` does to membership. */
  lemma RemovedOne(queue: seq<nat>, rest: seq<nat>, top: nat)
    requires multiset(rest) == multiset(queue) - multiset{top}
    ensures forall a :: a in rest ==> a in queue
    ensures forall a :: a in queue && a != top ==> a in rest
  {
    forall a | a in rest ensures a in queue {
      assert multiset(queue)[a] >= multiset(rest)[a];
    }
    forall a | a in queue && a != top ensures a in rest {
      assert multiset(rest)[a] == multiset(queue)[a];
    }
  }

  /** The records pushed for the neighbours of `parent` (arena index
      `parentIdx`), in the order the neighbours are listed. */
  ghost function Children<T>(dom: Domain<T>, end: T, parent: HeapEntry<T>, parentIdx: nat): seq<HeapEntry<T>> {
    var nbrs := dom.neighbors(parent.payload);
    seq(|nbrs|, m requires 0 <= m < |nbrs| =>
      HeapEntry(nbrs[m], parent.distFromStart + 1, dom.estDistTo(nbrs[m], end), Some(parentIdx)))
  }

  /** The indices lo, lo + 1, ..., lo + n - 1. */
  ghost function Span(lo: nat, n: nat): seq<nat> {
    seq(n, k requires 0 <= k < n => lo + k)
  }

  /** The loop that heappushes one record per neighbour of the record at
      `parentIdx`: the arena gains exactly the children, the queue their
      indices. */
  method PushNeighbors<T>(dom: Domain<T>, end: T, arena: seq<HeapEntry<T>>, queue: seq<nat>, parentIdx: nat)
    returns (arena': seq<HeapEntry<T>>, queue': seq<nat>)
    requires parentIdx < |arena|
    ensures arena' == arena + Children(dom, end, arena[parentIdx], parentIdx)
    ensures queue' == queue + Span(|arena|, |arena'| - |arena|)
  {
    var parent := arena[parentIdx];
    var nbrs := dom.neighbors(parent.payload);
    ghost var kids := Children(dom, end, parent, parentIdx);
    arena', queue' := arena, queue;
    for m := 0 to |nbrs|
      invariant arena' == arena + kids[..m]
      invariant queue' == queue + Span(|arena|, m)
    {
      queue' := queue' + [|arena'|];
      arena' := arena' + [HeapEntry(nbrs[m], parent.distFromStart + 1, dom.estDistTo(nbrs[m], end), Some(parentIdx))];
      assert kids[..m + 1] == kids[..m] + [kids[m]];
      assert Span(|arena|, m + 1) == Span(|arena|, m) + [|arena| + m];
    }
    assert kids[..|nbrs|] == kids;
  }

  /** Appending the children of a valid, non-goal record keeps the arena
      well formed. */
  lemma ChildrenKeepWellFormed<T>(dom: Domain<T>, start: T, end: T, arena: seq<HeapEntry<T>>, parentIdx: nat)
    requires WellFormed(dom, start, end, arena) && parentIdx < |arena|
    requires dom.isValid(arena[parentIdx].payload) && arena[parentIdx].payload != end
    ensures WellFormed(dom, start, end, arena + Children(dom, end, arena[parentIdx], parentIdx))
  {
    var arena' := arena + Children(dom, end, arena[parentIdx], parentIdx);
    forall i | 0 < i < |arena'| ensures ChildOf(dom, end, arena', i) {
      if i < |arena| {
        assert ChildOf(dom, end, arena, i);
      }
    }
  }

  // ---------------------------------------------------------------------
  // The search loop's invariant

  /** `x` is the state of some queued record. */
  ghost predicate Queued<T>(arena: seq<HeapEntry<T>>, queue: seq<nat>, x: T) {
    exists a :: a in queue && a < |arena| && arena[a].payload == x
  }

  /** Some record for the goal at distance at most `d` has been pushed. */
  ghost predicate GoalPushedWithin<T>(end: T, arena: seq<HeapEntry<T>>, d: nat) {
    exists i :: 0 <= i < |arena| && arena[i].payload == end && arena[i].distFromStart <= d
  }

  /** `x` is the state of some expanded record. */
  ghost predicate WasExpanded<T>(expanded: seq<HeapEntry<T>>, x: T) {
    exists j :: 0 <= j < |expanded| && expanded[j].payload == x
  }

  /** The arena is well formed, indexed by the queue, and inside the universe. */
  ghost predicate ArenaInv<T>(dom: Domain<T>, universe: set<T>, start: T, end: T,
                              arena: seq<HeapEntry<T>>, queue: seq<nat>)
  {
    && WellFormed(dom, start, end, arena)
    && IndicesIn(arena, queue)
    && (forall i :: 0 <= i < |arena| ==> arena[i].payload in universe)
  }

  /** The visited set: inside the universe, never holding the goal, first
      filled by the start, and listed in order of insertion by `checked`
      (a state is marked visited exactly when its validity is asked). */
  ghost predicate SeenInv<T>(universe: set<T>, start: T, end: T, queue: seq<nat>, seen: set<T>, checked: seq<T>) {
    && seen <= universe
    && end !in seen
    && (seen == {} ==> queue == [0])
    && (seen == {} || start in seen)
    && NoDuplicates(checked)
    && (forall s :: s in checked ==> s in seen)
    && (forall s :: s in seen ==> s in checked)
  }

  /** The expansion log: `expanded` lists the records whose neighbours were
      pushed, at arena indices `expIdx`; these are exactly the valid visited
      states, each once; every predecessor is one of them; the start record
      comes first when it is valid. */
  ghost predicate LogInv<T>(dom: Domain<T>, start: T, arena: seq<HeapEntry<T>>, seen: set<T>,
                            expIdx: seq<nat>, expanded: seq<HeapEntry<T>>)
  {
    LogEntries(dom, arena, seen, expIdx, expanded) && LogCover(dom, start, arena, seen, expIdx, expanded)
  }

  ghost predicate LogEntries<T>(dom: Domain<T>, arena: seq<HeapEntry<T>>, seen: set<T>,
                                expIdx: seq<nat>, expanded: seq<HeapEntry<T>>)
  {
    && |expIdx| == |expanded|
    && (seen == {} ==> expIdx == [])
    && (forall j :: 0 <= j < |expIdx| ==> expIdx[j] < |arena| && arena[expIdx[j]] == expanded[j])
    && (forall j :: 0 <= j < |expanded| ==> expanded[j].payload in seen && dom.isValid(expanded[j].payload))
    && (forall j, k :: 0 <= j < k < |expanded| ==> expanded[j].payload != expanded[k].payload)
  }

  ghost predicate LogCover<T>(dom: Domain<T>, start: T, arena: seq<HeapEntry<T>>, seen: set<T>,
                              expIdx: seq<nat>, expanded: seq<HeapEntry<T>>)
  {
    && (forall s :: s in seen && dom.isValid(s) ==> WasExpanded(expanded, s))
    && (forall i :: 0 < i < |arena| ==> arena[i].prev.Some? && arena[i].prev.value in expIdx)
    && (dom.isValid(start) && start in seen ==> |expIdx| > 0 && expIdx[0] == 0)
  }

  /** Nothing reachable is lost: neighbours of valid visited states are
      visited or queued, the start is visited or queued, and every goal
      record stays queued. */
  ghost predicate FrontierInv<T>(dom: Domain<T>, start: T, end: T, arena: seq<HeapEntry<T>>, queue: seq<nat>, seen: set<T>) {
    && (forall s, n :: s in seen && dom.isValid(s) && n in dom.neighbors(s) ==> n in seen || Queued(arena, queue, n))
    && (start in seen || Queued(arena, queue, start))
    && FrontierInvGoals(end, arena, queue)
  }

  ghost predicate FrontierInvGoals<T>(end: T, arena: seq<HeapEntry<T>>, queue: seq<nat>) {
    forall i :: 0 <= i < |arena| && arena[i].payload == end ==> i in queue
  }

  /** Each expansion of a neighbour of the goal pushed a goal record one step deeper. */
  ghost predicate DepthInv<T>(dom: Domain<T>, end: T, arena: seq<HeapEntry<T>>, expanded: seq<HeapEntry<T>>) {
    forall j :: 0 <= j < |expanded| && end in dom.neighbors(expanded[j].payload) ==>
      GoalPushedWithin(end, arena, expanded[j].distFromStart + 1)
  }

  ghost predicate SearchInv<T>(dom: Domain<T>, universe: set<T>, start: T, end: T,
                               arena: seq<HeapEntry<T>>, queue: seq<nat>, seen: set<T>,
                               expIdx: seq<nat>, expanded: seq<HeapEntry<T>>, checked: seq<T>)
  {
    && ArenaInv(dom, universe, start, end, arena, queue)
    && SeenInv(universe, start, end, queue, seen, checked)
    && LogInv(dom, start, arena, seen, expIdx, expanded)
    && FrontierInv(dom, start, end, arena, queue, seen)
    && DepthInv(dom, end, arena, expanded)
  }

  lemma InitialInvariant<T>(dom: Domain<T>, universe: set<T>, start: T, end: T)
    requires start in universe
    ensures SearchInv(dom, universe, start, end, [HeapEntry(start, 0, dom.estDistTo(start, end), None)],
                      [0], {}, [], [], [])
  {
    var arena := [HeapEntry(start, 0, dom.estDistTo(start, end), None)];
    assert 0 in [0] && arena[0].payload == start;
  }

  // ---------------------------------------------------------------------
  // Popping a record that is visited already, or is not valid

  lemma DiscardFrontier<T>(dom: Domain<T>, start: T, end: T, arena: seq<HeapEntry<T>>,
                           queue: seq<nat>, seen: set<T>, top: nat, rest: seq<nat>)
    requires FrontierInv(dom, start, end, arena, queue, seen)
    requires top < |arena| && arena[top].payload != end
    requires dom.isValid(arena[top].payload) ==> arena[top].payload in seen
    requires multiset(rest) == multiset(queue) - multiset{top}
    ensures FrontierInv(dom, start, end, arena, rest, seen + {arena[top].payload})
  {
    var p := arena[top].payload;
    var seen' := seen + {p};
    RemovedOne(queue, rest, top);
    forall s, n | s in seen' && dom.isValid(s) && n in dom.neighbors(s)
      ensures n in seen' || Queued(arena, rest, n)
    {
      if n !in seen' {
        var a :| a in queue && a < |arena| && arena[a].payload == n;
        assert a in rest;
      }
    }
    if start !in seen' {
      var a :| a in queue && a < |arena| && arena[a].payload == start;
      assert a in rest;
    }
  }

  lemma DiscardKeepsInvariant<T>(dom: Domain<T>, universe: set<T>, start: T, end: T,
                                 arena: seq<HeapEntry<T>>, queue: seq<nat>, seen: set<T>,
                                 expIdx: seq<nat>, expanded: seq<HeapEntry<T>>, checked: seq<T>,
                                 top: nat, rest: seq<nat>, checked': seq<T>)
    requires SearchInv(dom, universe, start, end, arena, queue, seen, expIdx, expanded, checked)
    requires top in queue && multiset(rest) == multiset(queue) - multiset{top}
    requires top < |arena| && arena[top].payload != end
    requires || (arena[top].payload in seen && checked' == checked)
             || (arena[top].payload !in seen && !dom.isValid(arena[top].payload) &&
                 checked' == checked + [arena[top].payload])
    ensures SearchInv(dom, universe, start, end, arena, rest, seen + {arena[top].payload}, expIdx, expanded, checked')
  {
    var p := arena[top].payload;
    RemovedOne(queue, rest, top);
    assert IndicesIn(arena, rest) by {
      forall m | 0 <= m < |rest| ensures rest[m] < |arena| {
        assert rest[m] in queue;
      }
    }
    if seen == {} {
      assert top == 0;
    }
    DiscardFrontier(dom, start, end, arena, queue, seen, top, rest);
  }

  // ---------------------------------------------------------------------
  // Popping a valid record that is not visited and not the goal

  lemma ExpandArena<T>(dom: Domain<T>, universe: set<T>, start: T, end: T,
                       arena: seq<HeapEntry<T>>, queue: seq<nat>, top: nat, rest: seq<nat>)
    requires ClosedUnder(dom, universe)
    requires ArenaInv(dom, universe, start, end, arena, queue)
    requires top < |arena| && arena[top].payload != end && dom.isValid(arena[top].payload)
    requires multiset(rest) == multiset(queue) - multiset{top}
    ensures var kids := Children(dom, end, arena[top], top);
      ArenaInv(dom, universe, start, end, arena + kids, rest + Span(|arena|, |kids|))
  {
    var kids := Children(dom, end, arena[top], top);
    var arena', queue' := arena + kids, rest + Span(|arena|, |kids|);
    ChildrenKeepWellFormed(dom, start, end, arena, top);
    RemovedOne(queue, rest, top);
    forall m | 0 <= m < |queue'| ensures queue'[m] < |arena'| {
      if m < |rest| {
        assert rest[m] in queue;
      }
    }
    forall i | 0 <= i < |arena'| ensures arena'[i].payload in universe {
      if i >= |arena| {
        assert arena'[i].payload in dom.neighbors(arena[top].payload);
      }
    }
  }

  lemma ExpandLogEntries<T>(dom: Domain<T>, arena: seq<HeapEntry<T>>, seen: set<T>,
                            expIdx: seq<nat>, expanded: seq<HeapEntry<T>>, top: nat, kids: seq<HeapEntry<T>>)
    requires LogEntries(dom, arena, seen, expIdx, expanded)
    requires top < |arena| && arena[top].payload !in seen && dom.isValid(arena[top].payload)
    ensures LogEntries(dom, arena + kids, seen + {arena[top].payload}, expIdx + [top], expanded + [arena[top]])
  {
    var p := arena[top].payload;
    var arena', seen', expIdx', expanded' := arena + kids, seen + {p}, expIdx + [top], expanded + [arena[top]];
    forall j | 0 <= j < |expIdx'| ensures expIdx'[j] < |arena'| && arena'[expIdx'[j]] == expanded'[j] {
      if j < |expIdx| {
        assert expIdx'[j] == expIdx[j] && expanded'[j] == expanded[j];
      }
    }
    forall j | 0 <= j < |expanded'| ensures expanded'[j].payload in seen' && dom.isValid(expanded'[j].payload) {
      if j < |expanded| {
        assert expanded'[j] == expanded[j];
      }
    }
    forall j, k | 0 <= j < k < |expanded'| ensures expanded'[j].payload != expanded'[k].payload {
      assert expanded'[j] == expanded[j];
      if k < |expanded| {
        assert expanded'[k] == expanded[k];
      }
    }
  }

  lemma ExpandLogCover<T>(dom: Domain<T>, start: T, arena: seq<HeapEntry<T>>, queue: seq<nat>, seen: set<T>,
                          expIdx: seq<nat>, expanded: seq<HeapEntry<T>>, top: nat, kids: seq<HeapEntry<T>>)
    requires LogCover(dom, start, arena, seen, expIdx, expanded)
    requires forall j :: 0 <= j < |expanded| ==> expanded[j].payload in seen
    requires seen == {} ==> expIdx == []
    requires seen == {} || start in seen
    requires seen == {} ==> queue == [0]
    requires top in queue && top < |arena|
    requires forall m :: 0 <= m < |kids| ==> kids[m].prev == Some(top)
    ensures LogCover(dom, start, arena + kids, seen + {arena[top].payload}, expIdx + [top], expanded + [arena[top]])
  {
    var p := arena[top].payload;
    var arena', seen', expIdx', expanded' := arena + kids, seen + {p}, expIdx + [top], expanded + [arena[top]];
    if seen == {} {
      assert top == 0;
    }
    forall s | s in seen' && dom.isValid(s) ensures WasExpanded(expanded', s) {
      if s == p {
        assert expanded'[|expanded|].payload == p;
      } else {
        var j :| 0 <= j < |expanded| && expanded[j].payload == s;
        assert expanded'[j].payload == s;
      }
    }
    forall i | 0 < i < |arena'| ensures arena'[i].prev.Some? && arena'[i].prev.value in expIdx' {
      if i < |arena| {
        assert arena[i].prev.value in expIdx;
      } else {
        assert arena'[i] == kids[i - |arena|];
      }
    }
  }

  lemma ExpandFrontier<T>(dom: Domain<T>, start: T, end: T, arena: seq<HeapEntry<T>>,
                          queue: seq<nat>, seen: set<T>, top: nat, rest: seq<nat>)
    requires FrontierInv(dom, start, end, arena, queue, seen)
    requires top < |arena| && arena[top].payload != end
    requires multiset(rest) == multiset(queue) - multiset{top}
    ensures var kids := Children(dom, end, arena[top], top);
      FrontierInv(dom, start, end, arena + kids, rest + Span(|arena|, |kids|), seen + {arena[top].payload})
  {
    var p := arena[top].payload;
    var nbrs := dom.neighbors(p);
    var kids := Children(dom, end, arena[top], top);
    var arena', queue', seen' := arena + kids, rest + Span(|arena|, |kids|), seen + {p};
    RemovedOne(queue, rest, top);
    forall m | 0 <= m < |kids| ensures |arena| + m in queue' && arena'[|arena| + m].payload == nbrs[m] {
      assert queue'[|rest| + m] == |arena| + m;
    }
    forall s, n | s in seen' && dom.isValid(s) && n in dom.neighbors(s)
      ensures n in seen' || Queued(arena', queue', n)
    {
      if n !in seen' {
        if s == p {
          var m :| 0 <= m < |nbrs| && nbrs[m] == n;
          assert |arena| + m in queue' && arena'[|arena| + m].payload == n;
        } else {
          var a :| a in queue && a < |arena| && arena[a].payload == n;
          assert a in rest;
          assert a in queue' && arena'[a] == arena[a];
        }
      }
    }
    if start !in seen' {
      var a :| a in queue && a < |arena| && arena[a].payload == start;
      assert a in rest;
      assert a in queue' && arena'[a] == arena[a];
    }
    forall i | 0 <= i < |arena'| && arena'[i].payload == end ensures i in queue' {
      if i < |arena| {
        assert arena[i].payload == end;
        assert i in rest;
      } else {
        assert |arena| + (i - |arena|) in queue';
      }
    }
  }

  lemma ExpandDepth<T>(dom: Domain<T>, end: T, arena: seq<HeapEntry<T>>, expanded: seq<HeapEntry<T>>, top: nat)
    requires DepthInv(dom, end, arena, expanded)
    requires top < |arena|
    ensures var kids := Children(dom, end, arena[top], top);
      DepthInv(dom, end, arena + kids, expanded + [arena[top]])
  {
    var nbrs := dom.neighbors(arena[top].payload);
    var kids := Children(dom, end, arena[top], top);
    var arena', expanded' := arena + kids, expanded + [arena[top]];
    forall j | 0 <= j < |expanded'| && end in dom.neighbors(expanded'[j].payload)
      ensures GoalPushedWithin(end, arena', expanded'[j].distFromStart + 1)
    {
      if j < |expanded| {
        assert expanded'[j] == expanded[j];
        var i :| 0 <= i < |arena| && arena[i].payload == end && arena[i].distFromStart <= expanded[j].distFromStart + 1;
        assert arena'[i] == arena[i];
      } else {
        var m :| 0 <= m < |nbrs| && nbrs[m] == end;
        assert arena'[|arena| + m].payload == end;
      }
    }
  }

  lemma ExpandKeepsInvariant<T>(dom: Domain<T>, universe: set<T>, start: T, end: T,
                                arena: seq<HeapEntry<T>>, queue: seq<nat>, seen: set<T>,
                                expIdx: seq<nat>, expanded: seq<HeapEntry<T>>, checked: seq<T>,
                                top: nat, rest: seq<nat>)
    requires ClosedUnder(dom, universe)
    requires SearchInv(dom, universe, start, end, arena, queue, seen, expIdx, expanded, checked)
    requires top in queue && multiset(rest) == multiset(queue) - multiset{top}
    requires top < |arena| && arena[top].payload != end
    requires arena[top].payload !in seen && dom.isValid(arena[top].payload)
    ensures var kids := Children(dom, end, arena[top], top);
      SearchInv(dom, universe, start, end, arena + kids, rest + Span(|arena|, |kids|),
                seen + {arena[top].payload}, expIdx + [top], expanded + [arena[top]],
                checked + [arena[top].payload])
  {
    var kids := Children(dom, end, arena[top], top);
    ExpandArena(dom, universe, start, end, arena, queue, top, rest);
    if seen == {} {
      assert top == 0;
    }
    ExpandLogEntries(dom, arena, seen, expIdx, expanded, top, kids);
    ExpandLogCover(dom, start, arena, queue, seen, expIdx, expanded, top, kids);
    ExpandFrontier(dom, start, end, arena, queue, seen, top, rest);
    ExpandDepth(dom, end, arena, expanded, top);
  }

  // ---------------------------------------------------------------------
  // Leaving the loop

  /** When the queue runs empty, the visited set holds the start, is closed
      under expansion and misses the goal, so no walk reaches the goal. */
  lemma ExhaustedMeansUnreachable<T(!new)>(dom: Domain<T>, start: T, end: T,
                                           arena: seq<HeapEntry<T>>, seen: set<T>)
    requires FrontierInv(dom, start, end, arena, [], seen) && end !in seen
    ensures !Reachable(dom, start, end)
  {
    assert start in seen;
    assert ClosedUnder(dom, seen);
    if Reachable(dom, start, end) {
      var w :| IsWalk(dom, w) && w[0] == start && w[|w| - 1] == end;
      WalkStaysInside(dom, seen, w);
      assert false;
    }
  }

  /** The rebuilding of the path once the goal record `goal` is popped:
      follow predecessors from it, collecting states, then reverse. */
  method BuildPath<T>(ghost dom: Domain<T>, ghost start: T, end: T, arena: seq<HeapEntry<T>>, goal: nat)
    returns (path: seq<T>)
    requires WellFormed(dom, start, end, arena) && goal < |arena| && arena[goal].payload == end
    ensures path == Reverse(Trace(arena, goal))
    ensures |path| == arena[goal].distFromStart + 1
    ensures path[0] == start && path[|path| - 1] == end
    ensures IsWalk(dom, path)
    ensures forall k :: 0 <= k < |path| - 1 ==> path[k] != end
  {
    var back := [end];
    var cur: nat := goal;
    while arena[cur].prev.Some?
      invariant cur < |arena|
      invariant |back| > 0 && back[|back| - 1] == arena[cur].payload
      invariant back + Trace(arena, cur)[1..] == Trace(arena, goal)
      decreases cur
    {
      ghost var oldCur, oldBack := cur, back;
      cur := arena[cur].prev.value;
      back := back + [arena[cur].payload];
      assert Trace(arena, oldCur) == [arena[oldCur].payload] + Trace(arena, cur);
      assert back + Trace(arena, cur)[1..] == oldBack + Trace(arena, cur);
    }
    assert Trace(arena, cur) == [arena[cur].payload];
    path := Reverse(back);
    TraceShape(dom, start, end, arena, goal);
    assert back == Trace(arena, goal);
    ReversedBackwardWalk(dom, end, back);
  }

  /** Reversing a backward walk gives a walk that meets `end` only at its
      last state, if at all. */
  lemma ReversedBackwardWalk<T>(dom: Domain<T>, end: T, t: seq<T>)
    requires |t| > 0 && BackwardWalk(dom, end, t)
    ensures IsWalk(dom, Reverse(t))
    ensures forall k :: 0 <= k < |t| - 1 ==> Reverse(t)[k] != end
  {
    var path := Reverse(t);
    forall k | 0 <= k < |path| - 1
      ensures dom.isValid(path[k]) && path[k + 1] in dom.neighbors(path[k]) && path[k] != end
    {
      assert path[k] == t[|t| - 1 - k] && path[k + 1] == t[|t| - 1 - k - 1];
    }
  }

  /** The states of a popped goal record's chain, but the goal, were expanded. */
  lemma ChainWasExpanded<T>(arena: seq<HeapEntry<T>>, expIdx: seq<nat>, expanded: seq<HeapEntry<T>>, top: nat, path: seq<T>)
    requires Linked(arena) && top < |arena|
    requires forall j :: 0 <= j < |arena| && arena[j].prev.Some? ==> arena[j].prev.value in expIdx
    requires |expIdx| == |expanded|
    requires forall j :: 0 <= j < |expIdx| ==> expIdx[j] < |arena| && arena[expIdx[j]] == expanded[j]
    requires path == Reverse(Trace(arena, top))
    ensures forall k :: 0 <= k < |path| - 1 ==> WasExpanded(expanded, path[k])
  {
    var t := Trace(arena, top);
    TraceThroughParents(arena, expIdx, top);
    forall k | 1 <= k < |t| ensures WasExpanded(expanded, t[k]) {
      var x :| x in expIdx && x < |arena| && arena[x].payload == t[k];
      var j :| 0 <= j < |expIdx| && expIdx[j] == x;
      assert expanded[j].payload == t[k];
    }
    ExpandedInReverse(expanded, t);
  }

  lemma ExpandedInReverse<T>(expanded: seq<HeapEntry<T>>, t: seq<T>)
    requires forall k :: 1 <= k < |t| ==> WasExpanded(expanded, t[k])
    ensures forall k :: 0 <= k < |t| - 1 ==> WasExpanded(expanded, Reverse(t)[k])
  {
    var path := Reverse(t);
    forall k | 0 <= k < |path| - 1 ensures WasExpanded(expanded, path[k]) {
      assert path[k] == t[|t| - 1 - k];
    }
  }

  /** All goal records carry the same estimate, and all stay queued, so the
      least one popped is no deeper than any of them. */
  lemma GoalNoDeeper<T>(dom: Domain<T>, start: T, end: T, arena: seq<HeapEntry<T>>, queue: seq<nat>,
                        expanded: seq<HeapEntry<T>>, top: nat)
    requires WellFormed(dom, start, end, arena)
    requires FrontierInvGoals(end, arena, queue)
    requires DepthInv(dom, end, arena, expanded)
    requires IndicesIn(arena, queue)
    requires top < |arena| && arena[top].payload == end
    requires forall m :: 0 <= m < |queue| ==> !arena[queue[m]].Less(arena[top])
    ensures forall j :: 0 <= j < |expanded| && end in dom.neighbors(expanded[j].payload) ==>
      arena[top].distFromStart + 1 <= expanded[j].distFromStart + 2
  {
    forall j | 0 <= j < |expanded| && end in dom.neighbors(expanded[j].payload)
      ensures arena[top].distFromStart + 1 <= expanded[j].distFromStart + 2
    {
      var i :| 0 <= i < |arena| && arena[i].payload == end && arena[i].distFromStart <= expanded[j].distFromStart + 1;
      assert i in queue;
      var m :| 0 <= m < |queue| && queue[m] == i;
      assert !arena[i].Less(arena[top]);
    }
  }

  /** Once a goal record is popped, the rebuilt path meets every promise. */
  lemma GoalPoppedOutcome<T(!new)>(dom: Domain<T>, universe: set<T>, start: T, end: T,
                                   arena: seq<HeapEntry<T>>, queue: seq<nat>, seen: set<T>,
                                   expIdx: seq<nat>, expanded: seq<HeapEntry<T>>, checked: seq<T>,
                                   top: nat, path: seq<T>)
    requires SearchInv(dom, universe, start, end, arena, queue, seen, expIdx, expanded, checked)
    requires top in queue && top < |arena| && arena[top].payload == end
    requires forall m :: 0 <= m < |queue| ==> !arena[queue[m]].Less(arena[top])
    requires path == Reverse(Trace(arena, top)) && |path| == arena[top].distFromStart + 1
    requires path[0] == start && path[|path| - 1] == end && IsWalk(dom, path)
    requires forall k :: 0 <= k < |path| - 1 ==> path[k] != end
    ensures SearchOutcome(dom, start, end, Some(path), expanded, checked)
  {
    assert Reachable(dom, start, end);
    if start == end {
      assert top == 0;
      assert path == [end];
    }
    assert forall j :: 0 <= j < |arena| && arena[j].prev.Some? ==> arena[j].prev.value in expIdx;
    ChainWasExpanded(arena, expIdx, expanded, top, path);
    GoalNoDeeper(dom, start, end, arena, queue, expanded, top);
    if dom.isValid(start) && start != end {
      assert expanded[0] == arena[0];
    }
  }

  // ---------------------------------------------------------------------
  // find_path

  /** What one call of `find_path` promises about its result alone. */
  ghost predicate PathOutcome<T(!new)>(dom: Domain<T>, start: T, end: T, r: Option<seq<T>>) {
    // a returned path is a walk from start to end that meets end only at its last state
    && (r.Some? ==> IsWalk(dom, r.value) && r.value[0] == start && r.value[|r.value| - 1] == end)
    && (r.Some? ==> forall k :: 0 <= k < |r.value| - 1 ==> r.value[k] != end)
    // no path exactly when end cannot be reached
    && (r.None? <==> !Reachable(dom, start, end))
    // a start equal to the goal is the whole path
    && (start == end ==> r == Some([end]))
  }

  /** What one call of `find_path` promises, for a result `r`, the log of
      expanded records and the log of validity checks. */
  ghost predicate SearchOutcome<T(!new)>(dom: Domain<T>, start: T, end: T, r: Option<seq<T>>,
                                         expanded: seq<HeapEntry<T>>, checked: seq<T>)
  {
    && PathOutcome(dom, start, end, r)
    // every state of the path but the last was expanded
    && (r.Some? ==> forall k :: 0 <= k < |r.value| - 1 ==> WasExpanded(expanded, r.value[k]))
    // the goal is returned without its validity being asked
    && end !in checked
    // each state's validity is asked at most once; exactly the valid ones are expanded, once each
    && NoDuplicates(checked)
    && (forall j :: 0 <= j < |expanded| ==> expanded[j].payload in checked && dom.isValid(expanded[j].payload))
    && (forall s :: s in checked && dom.isValid(s) ==> WasExpanded(expanded, s))
    && (forall j, k :: 0 <= j < k < |expanded| ==> expanded[j].payload != expanded[k].payload)
    // a valid start other than the goal is expanded first, at distance 0
    && (dom.isValid(start) && start != end ==>
          |expanded| > 0 && expanded[0].payload == start && expanded[0].distFromStart == 0)
    // the goal is reached no deeper than through any expanded neighbour of it
    && (r.Some? ==> forall j :: 0 <= j < |expanded| && end in dom.neighbors(expanded[j].payload) ==>
          |r.value| <= expanded[j].distFromStart + 2)
  }

  /** find_path: searches from `start` for `end`. `universe` is a finite set
      of states containing `start` and every neighbour of its valid members;
      it bounds the number of states the search can mark visited, which is
      what makes the loop terminate. */
  method FindPath<T(==,!new)>(dom: Domain<T>, ghost universe: set<T>, start: T, end: T)
    returns (r: Option<seq<T>>, ghost expanded: seq<HeapEntry<T>>, ghost checked: seq<T>)
    requires start in universe && ClosedUnder(dom, universe)
    ensures PathOutcome(dom, start, end, r)
    ensures SearchOutcome(dom, start, end, r, expanded, checked)
  {
    var seen: set<T> := {};
    var arena := [HeapEntry(start, 0, dom.estDistTo(start, end), None)];
    var queue: seq<nat> := [0];
    ghost var expIdx: seq<nat> := [];
    expanded, checked := [], [];
    InitialInvariant(dom, universe, start, end);
    var goal: Option<nat> := None;
    while |queue| > 0
      invariant SearchInv(dom, universe, start, end, arena, queue, seen, expIdx, expanded, checked)
      invariant goal == None
      decreases |universe - seen|, |queue|
    {
      var top, rest := PopMin(arena, queue);
      var entry := arena[top];
      if entry.payload == end {
        goal := Some(top);
        break;
      }
      if entry.payload in seen {
        DiscardKeepsInvariant(dom, universe, start, end, arena, queue, seen, expIdx, expanded, checked,
                              top, rest, checked);
        queue := rest;
        continue;
      }
      assert universe - (seen + {entry.payload}) == (universe - seen) - {entry.payload};
      if !dom.isValid(entry.payload) {
        DiscardKeepsInvariant(dom, universe, start, end, arena, queue, seen, expIdx, expanded, checked,
                              top, rest, checked + [entry.payload]);
        seen := seen + {entry.payload};
        checked := checked + [entry.payload];
        queue := rest;
        continue;
      }
      ExpandKeepsInvariant(dom, universe, start, end, arena, queue, seen, expIdx, expanded, checked, top, rest);
      seen := seen + {entry.payload};
      checked := checked + [entry.payload];
      expIdx := expIdx + [top];
      expanded := expanded + [entry];
      arena, queue := PushNeighbors(dom, end, arena, rest, top);
    }
    if goal == None {
      ExhaustedMeansUnreachable(dom, start, end, arena, seen);
      return None, expanded, checked;
    }
    var path := BuildPath(dom, start, end, arena, goal.value);
    GoalPoppedOutcome(dom, universe, start, end, arena, queue, seen, expIdx, expanded, checked, goal.value, path);
    r := Some(path);
  }

  // ---------------------------------------------------------------------
  // Consequences of the outcome for every domain

  /** An invalid start other than the goal leads nowhere. */
  lemma InvalidStartFindsNothing<T(!new)>(dom: Domain<T>, start: T, end: T, r: Option<seq<T>>,
                                          expanded: seq<HeapEntry<T>>, checked: seq<T>)
    requires SearchOutcome(dom, start, end, r, expanded, checked)
    requires !dom.isValid(start) && start != end
    ensures r == None
  {
    // a walk out of an invalid state stops there
    forall w | IsWalk(dom, w) && w[0] == start ensures |w| == 1 {
      assert !dom.isValid(w[0]);
    }
  }

  /** A goal that is no valid state's neighbour is found only when it is
      the start. */
  lemma IsolatedGoalFindsNothing<T(!new)>(dom: Domain<T>, start: T, end: T, r: Option<seq<T>>,
                                          expanded: seq<HeapEntry<T>>, checked: seq<T>)
    requires SearchOutcome(dom, start, end, r, expanded, checked)
    requires forall s :: dom.isValid(s) ==> end !in dom.neighbors(s)
    requires start != end
    ensures r == None
  {
    forall w | IsWalk(dom, w) && w[0] == start ensures w[|w| - 1] != end {
      if |w| > 1 {
        var k := |w| - 2;
        assert dom.isValid(w[k]) && w[k + 1] in dom.neighbors(w[k]);
      }
    }
  }

  /** A goal that is a neighbour of a valid start is reached in one step. */
  lemma AdjacentGoalOneStep<T(!new)>(dom: Domain<T>, start: T, end: T, r: Option<seq<T>>,
                                     expanded: seq<HeapEntry<T>>, checked: seq<T>)
    requires SearchOutcome(dom, start, end, r, expanded, checked)
    requires dom.isValid(start) && start != end && end in dom.neighbors(start)
    ensures r.Some? && r.value == [start, end]
  {
    assert IsWalk(dom, [start, end]);
    assert Reachable(dom, start, end);
    var path := r.value;
    assert |path| <= expanded[0].distFromStart + 2;
    assert |path| != 1;
    assert path == [path[0], path[1]];
  }
}
