# Generic A* search, modelled in Dafny

This project models Generic-A-Star, a small generic A* path finder written in
Python.

`a_star.py` defines the search engine `find_path(start, end)`. It works over
any state type that offers four operations: equality, `is_valid`,
`get_neighbors` and the estimate `est_dist_to`. A frontier record
`HeapEntry` holds four things:
- a state;
- its distance from the start;
- the estimate to the goal;
- the record it came from.

The engine runs as follows:
1. It pops the least record by `dist_from_start + est_dist_from_end`.
2. It stops as soon as the popped state equals the goal.
3. It skips states it has already visited.
4. It marks the state visited before asking whether the state is valid.
5. It expands a valid state by pushing one record per neighbour, one step further away.
6. When the goal is popped, it rebuilds the path by following predecessors and then reversing.

`tests/test_2D.py` defines the domain `Point2D`, a 4-connected grid with obstacles, and the scenario tests that run on it.

Module `AStar` (`a_star.dfy`) models the engine generically over a state type `T`:

- **Domain.** The four operations form a `Domain` value. Equality is Dafny's `==`.
- **Records.** Frontier records are `HeapEntry` values kept in an arena, a sequence that only grows. A predecessor is an index into that arena.
- **Heap.** The heap is the sequence of arena indices still waiting to be popped.
- **`FindPath`.** This is the search loop. It is proved against two predicates: `PathOutcome`, about the result alone, and `SearchOutcome`, which adds the logs of expanded records and validity checks. Together they state:
  - a returned path is a walk from `start` to `end` through valid states, and meets `end` only at its last position;
  - the result is `None` exactly when `end` cannot be reached;
  - `start == end` gives `[end]` without `end`'s validity ever being asked;
  - every state's validity is asked at most once, and exactly the valid ones are expanded;
  - the path is no longer than the depth of any expanded neighbour of the goal, plus two.
- **Termination.** The loop terminates because the caller names a finite set of states. That set must contain the start and be closed under the neighbours of its valid members. The set is ghost: nothing at run time uses it.

Module `Test2D` (`test_2d.dfy`) models `Point2D` and instantiates the engine on it (`FindGridPath`). It turns the tests whose outcome does not depend on tie-breaking into verified methods.

## Model

| member | source | states |
|---|---|---|
| `AStar.LessIsStrictWeakOrder` | a_star.py:29-33 | `HeapEntry.EstTotalDist` (`est_total_dist`) is distance plus estimate, and `HeapEntry.Less` (`__lt__`) compares those totals. This order is irreflexive and transitive, and two records are unordered exactly when their totals are equal |
| `AStar.MinimumExists` | a_star.py:38-40 | a non-empty heap has a record that no queued record is less than, so a pop always has something to return |
| `AStar.PopMin` | a_star.py:40 | heappop removes exactly one occurrence of a queued record that no queued record is less than, and leaves every other record queued |
| `AStar.PushNeighbors` | a_star.py:59-60 | the push loop appends one record per neighbour, in the listed order; each is one step further than its parent, carries its own estimate to the goal and points back to the parent; their indices join the heap. The appended records are `AStar.Children`, the records of line 60 |
| `AStar.ChildrenKeepWellFormed` | a_star.py:55-60 | pushing the children of a valid non-goal record keeps every arena invariant: the start record is the only one without a predecessor, and each other record is a neighbour of its valid, non-goal predecessor at distance one more |
| `AStar.TraceShape` | a_star.py:67-71 | `AStar.Trace` lists the states met by following predecessors, as the loop of lines 69-71 does. Following predecessors from any record reaches the start record after exactly `dist_from_start` links; each state on the way is a neighbour of the next, valid, non-goal state |
| `AStar.TraceThroughParents` | a_star.py:69-71 | every state met on a predecessor chain after the first belongs to a record that was expanded |
| `AStar.Reverse` | a_star.py:74 | `path[::-1]`: the same length, with position k holding the element at position len-1-k |
| `AStar.BuildPath` | a_star.py:67-77 | the rebuilt path is the reversed predecessor chain of the goal record. It starts at `start` and ends at `end`, its length is the goal record's distance plus one, it is a walk, and it meets `end` only at its last position |
| `AStar.WalkStaysInside` | a_star.py:59-60 | a walk that starts inside a set closed under the neighbours of valid states never leaves it |
| `AStar.DiscardKeepsInvariant` | a_star.py:47-56 | skipping a visited state, or marking visited and dropping an invalid one, keeps the loop invariant and expands nothing |
| `AStar.ExpandKeepsInvariant` | a_star.py:51-60 | marking a valid state visited and pushing its neighbours keeps the loop invariant and logs the expansion once |
| `AStar.ExhaustedMeansUnreachable` | a_star.py:61-63 | when the heap runs empty without the goal being popped, no walk leads from start to goal |
| `AStar.GoalNoDeeper` | a_star.py:40-45 | all goal records share one estimate and stay queued until popped, so the popped goal record is no deeper than any goal record pushed |
| `AStar.GoalPoppedOutcome` | a_star.py:42-45 | once a goal record is popped, the rebuilt path satisfies the whole search outcome |
| `AStar.FindPath` | a_star.py:35-77 | `find_path`. A returned path is a walk from start to end through expanded valid states. The result is `None` exactly when end is unreachable. `start == end` yields `[end]`. The goal's validity is never asked, no state's validity is asked twice, and exactly the valid visited states are expanded, once each, a valid start first at distance 0. The path is no longer than any expanded neighbour of the goal's depth plus two |
| `AStar.InvalidStartFindsNothing` | tests/test_2D.py:48-56 | for any domain, an invalid start other than the goal gives `None` |
| `AStar.IsolatedGoalFindsNothing` | tests/test_2D.py:58-76 | for any domain, a goal that is no valid state's neighbour gives `None` unless it is the start |
| `AStar.AdjacentGoalOneStep` | tests/test_2D.py:96-112 | for any domain, a valid start with the goal among its neighbours gives exactly `[start, end]` |
| `Test2D.EqualIsIdentityOnSameGrid` | tests/test_2D.py:20-21 | `Test2D.Equal` models `__eq__`, which compares coordinates only; on points of one grid that is value equality |
| `Test2D.SearchEqualityIsEq` | tests/test_2D.py:20-21 | every state of the search space of a start is on the start's grid. On them, `==` against the goal's coordinates on that grid is `__eq__` against the goal, and `==` between two states is `__eq__`. So the engine's goal test and visited-set test behave as Python's do |
| `Test2D.ValidIffFreeCell` | tests/test_2D.py:30-33 | `Test2D.IsValid` models `is_valid`. A point is valid exactly when its coordinates are a cell of its grid that is not an obstacle |
| `Test2D.GetNeighbors` | tests/test_2D.py:35-42 | exactly four neighbours; a point is among them exactly when it is on the same grid at Manhattan distance 1 |
| `Test2D.NeighborsSymmetric` | tests/test_2D.py:35-42 | being a neighbour is symmetric |
| `Test2D.EstDistTo` | tests/test_2D.py:44-46 | the estimate is zero exactly for `__eq__`-equal points, and never below the Manhattan distance |
| `Test2D.EstimateNotAdmissible` | tests/test_2D.py:44-46 | on a 3 by 1 grid the estimate from (0, 0) to (2, 0) is 4, while a walk of two steps joins them |
| `Test2D.UniverseClosed` | tests/test_2D.py:30-42 | the grid with a one-cell margin, plus the start, is closed under the neighbours of its valid points, so the search on a grid always terminates |
| `Test2D.FindGridPath` | a_star.py:35-77 | `find_path` on `Point2D`. The result is `None` exactly when the goal's coordinates cannot be reached on the start's grid. A returned path begins at a point `__eq__`-equal to the start and ends with the `end` object itself. A start `__eq__`-equal to the goal yields `[end]`. The full search outcome holds for the goal's coordinates on the start's grid |
| `Test2D.WalledInGoal` | tests/test_2D.py:58-76 | if the four neighbours of the goal are invalid, no valid point has the goal as a neighbour |
| `Test2D.TestBadStart` | tests/test_2D.py:48-56 | a start that is an obstacle gives `None` |
| `Test2D.TestBlockedEnd` | tests/test_2D.py:58-67 | a goal whose four neighbours are obstacles gives `None` |
| `Test2D.TestExternalEnd` | tests/test_2D.py:69-76 | a goal outside the grid gives `None` |
| `Test2D.TestStartIsEnd` | tests/test_2D.py:78-94 | start equal to goal gives a path of length 1, for any grid size and any obstacles, even when the point itself is invalid |
| `Test2D.TestOneMove` | tests/test_2D.py:96-112 | two vertically adjacent free points of a 10 by 10 grid give the path of length 2 made of exactly those points |

## Left out

- The layout of `heapq` and its tie-break order. A pop takes some record that no queued record is less than; which one among equals is left open.
- Optimality of the returned path. The engine never reopens a visited state, which needs a consistent estimate, and the grid estimate is not even admissible (`EstimateNotAdmissible`). The model proves instead that the path is no longer than the depth of any expanded neighbour of the goal, plus two.
- The exact lengths 17, 13 and 9 expected by `test_many_moves_no_obstacles`, `test_many_moves_req_all_directions`, `test_avoid_traps` and `test_avoid_traps_reflected` (tests/test_2D.py:114-154). They depend on the non-admissible estimate and possibly on heapq's tie order, so they are not modelled.
- `__hash__` and `__repr__`. Sets of states use Dafny's value equality. The model assumes that hash and equality agree, as the source's hash over the `"(x, y)"` text does.
- The printing and pytest plumbing of the tests.
- The `float` annotation on `est_dist_to`. Estimates are natural numbers, which is what the grid estimate computes.
- Adding obstacles to the shared set after points are built. The obstacle set is fixed for a search, and it holds the contents the set has when `find_path` is called.
- FindPath: it requires a finite set containing the start and closed under the neighbours of valid states. Without one, the Python loop can run forever on an unbounded domain with an unreachable goal. The requirement also excludes unbounded domains with finitely many neighbours per state where the goal is reachable. The Python loop does stop there, since only finitely many records are ever cheaper than a queued goal record. The model does not cover either kind of run.
- Equality in the engine is Dafny's `==` on states. For `Point2D`, `FindGridPath` searches for the goal's coordinates on the start's grid, so Dafny's `==` and `__eq__` agree on every state the search meets (`SearchEqualityIsEq`).
- HeapEntry's `prev` is an object reference in the source. Here it is an index into an arena of records. Records are never changed after creation in either form.
- The generic interface class `AStarableI` is represented by the `Domain` datatype. Its operations are total functions that never fail.
