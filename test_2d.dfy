/**
  The 4-connected grid domain of the test suite (`Point2D`), its instance
  of the generic engine, and the test scenarios whose outcome does not
  depend on how the heap breaks ties.

  A point carries its grid's width, height and obstacle set, as the Python
  object does; obstacles are kept as the set of their (x, y) coordinates,
  which is how the Python set is searched (hash and equality both look at
  the coordinates only).
 */
module Test2D {
  import opened AStar

  datatype Point2D = Point2D(x: int, y: int, gridWidth: int, gridHeight: int, obstacles: set<(int, int)>)

  function Key(p: Point2D): (int, int) {
    (p.x, p.y)
  }

  /** __eq__: coordinates only; grid size and obstacles are ignored. */
  predicate Equal(p: Point2D, q: Point2D) {
    p.x == q.x && p.y == q.y
  }

  predicate SameGrid(p: Point2D, q: Point2D) {
    p.gridWidth == q.gridWidth && p.gridHeight == q.gridHeight && p.obstacles == q.obstacles
  }

  /** Points of one grid are equal under __eq__ exactly when they are the
      same value, so the engine's `==` agrees with Python's on them. */
  lemma EqualIsIdentityOnSameGrid(p: Point2D, q: Point2D)
    requires SameGrid(p, q)
    ensures Equal(p, q) <==> p == q
    ensures Equal(p, q) <==> Key(p) == Key(q)
  {
  }

  function Abs(n: int): nat {
    if n < 0 then -n else n
  }

  function Manhattan(p: Point2D, q: Point2D): nat {
    Abs(p.x - q.x) + Abs(p.y - q.y)
  }

  /** is_valid: inside the grid and not an obstacle. */
  predicate IsValid(p: Point2D) {
    0 <= p.x < p.gridWidth && 0 <= p.y < p.gridHeight && Key(p) !in p.obstacles
  }

  /** The free cells of a grid, as a set of coordinates. */
  function FreeCells(width: int, height: int, obstacles: set<(int, int)>): set<(int, int)> {
    set x: int, y: int | 0 <= x < width && 0 <= y < height && (x, y) !in obstacles :: (x, y)
  }

  /** A point is valid exactly when its coordinates are a free cell of its grid. */
  lemma ValidIffFreeCell(p: Point2D)
    ensures IsValid(p) <==> Key(p) in FreeCells(p.gridWidth, p.gridHeight, p.obstacles)
  {
    if IsValid(p) {
      assert (p.x, p.y) in FreeCells(p.gridWidth, p.gridHeight, p.obstacles);
    }
  }

  /** get_neighbors: the four points one step left, right, down and up, on
      the same grid. */
  function GetNeighbors(p: Point2D): (r: seq<Point2D>)
    ensures |r| == 4
    ensures forall q :: q in r <==> SameGrid(p, q) && Manhattan(p, q) == 1
  {
    var r := [Point2D(p.x - 1, p.y, p.gridWidth, p.gridHeight, p.obstacles),
              Point2D(p.x + 1, p.y, p.gridWidth, p.gridHeight, p.obstacles),
              Point2D(p.x, p.y - 1, p.gridWidth, p.gridHeight, p.obstacles),
              Point2D(p.x, p.y + 1, p.gridWidth, p.gridHeight, p.obstacles)];
    assert forall q :: SameGrid(p, q) && Manhattan(p, q) == 1 ==>
      q == r[0] || q == r[1] || q == r[2] || q == r[3];
    r
  }

  /** Being neighbours is symmetric. */
  lemma NeighborsSymmetric(p: Point2D, q: Point2D)
    ensures q in GetNeighbors(p) <==> p in GetNeighbors(q)
  {
  }

  /** est_dist_to: the squared Euclidean distance. */
  function EstDistTo(p: Point2D, q: Point2D): (r: nat)
    ensures r == 0 <==> Equal(p, q)
    ensures r >= Manhattan(p, q)
  {
    var dx, dy := p.x - q.x, p.y - q.y;
    SquareAtLeastAbs(dx);
    SquareAtLeastAbs(dy);
    dx * dx + dy * dy
  }

  lemma SquareAtLeastAbs(n: int)
    ensures n * n >= Abs(n)
  {
    if n < 0 {
      assert n * n == (-n) * (-n);
    }
    if n != 0 {
      assert n * n == Abs(n) * Abs(n) >= Abs(n);
    }
  }

  /** The estimate is not admissible: on a 3 by 1 grid it puts (0, 0) at 4
      from (2, 0), which a walk of two steps reaches. */
  lemma EstimateNotAdmissible()
    ensures var a, b, c := Point2D(0, 0, 3, 1, {}), Point2D(1, 0, 3, 1, {}), Point2D(2, 0, 3, 1, {});
      IsWalk(GridDomain(), [a, b, c]) && EstDistTo(a, c) == 4
  {
    var a, b, c := Point2D(0, 0, 3, 1, {}), Point2D(1, 0, 3, 1, {}), Point2D(2, 0, 3, 1, {});
    assert GetNeighbors(a)[1] == b && GetNeighbors(b)[1] == c;
  }

  function GridDomain(): Domain<Point2D> {
    Domain(IsValid, GetNeighbors, EstDistTo)
  }

  /** The grid of `p` with a one-cell margin: every point the search can
      produce from a start on that grid. */
  function Frame(p: Point2D): set<Point2D> {
    set x: int, y: int | -1 <= x <= p.gridWidth && -1 <= y <= p.gridHeight ::
      Point2D(x, y, p.gridWidth, p.gridHeight, p.obstacles)
  }

  /** The frame and the start itself, which may lie far outside the grid. */
  function Universe(p: Point2D): set<Point2D> {
    Frame(p) + {p}
  }

  lemma UniverseClosed(p: Point2D)
    ensures p in Universe(p)
    ensures ClosedUnder(GridDomain(), Universe(p))
  {
    forall s, n | s in Universe(p) && IsValid(s) && n in GetNeighbors(s) ensures n in Universe(p) {
      assert SameGrid(p, n);
      assert n == Point2D(n.x, n.y, p.gridWidth, p.gridHeight, p.obstacles);
    }
  }

  /** `q`'s coordinates on the grid of `p`. The search only ever meets
      points of its start's grid, and on them `==` is __eq__. */
  function OnGridOf(p: Point2D, q: Point2D): (r: Point2D)
    ensures SameGrid(p, r) && Equal(r, q)
  {
    Point2D(q.x, q.y, p.gridWidth, p.gridHeight, p.obstacles)
  }

  /** Every state the search on `start`'s grid can meet lies on that grid,
      so there the engine's `==` is __eq__: both against the goal as
      searched for, and between any two states (the visited-set test). */
  lemma SearchEqualityIsEq(start: Point2D, end: Point2D)
    ensures forall x :: x in Universe(start) ==> (x == OnGridOf(start, end) <==> Equal(x, end))
    ensures forall x, y :: x in Universe(start) && y in Universe(start) ==> (x == y <==> Equal(x, y))
  {
    assert forall x :: x in Universe(start) ==> SameGrid(start, x);
  }

  /** find_path on Point2D. The engine looks for the goal's coordinates on
      the start's grid; as in the Python code, the last state of a returned
      path is the `end` object itself. `found` is the engine's own result. */
  method FindGridPath(start: Point2D, end: Point2D)
    returns (r: Option<seq<Point2D>>, ghost found: Option<seq<Point2D>>,
             ghost expanded: seq<HeapEntry<Point2D>>, ghost checked: seq<Point2D>)
    ensures r.None? <==> !Reachable(GridDomain(), start, OnGridOf(start, end))
    ensures r.Some? ==> |r.value| > 0 && Equal(r.value[0], start) && r.value[|r.value| - 1] == end
    ensures Equal(start, end) ==> r == Some([end])
    ensures SearchOutcome(GridDomain(), start, OnGridOf(start, end), found, expanded, checked)
    ensures r.None? <==> found.None?
    ensures r.Some? ==> |found.value| > 0 && r.value == found.value[..|found.value| - 1] + [end]
  {
    UniverseClosed(start);
    SearchEqualityIsEq(start, end);
    var res;
    res, expanded, checked := FindPath(GridDomain(), Universe(start), start, OnGridOf(start, end));
    found := res;
    match res
    case None => r := None;
    case Some(path) =>
      r := Some(path[..|path| - 1] + [end]);
      if Equal(start, end) {
        assert path[..0] + [end] == [end];
      }
  }

  // ---------------------------------------------------------------------
  // The test scenarios

  /** When the four neighbours of `end` are invalid, no valid point has
      `end` as a neighbour. */
  lemma WalledInGoal(end: Point2D)
    requires forall q :: q in GetNeighbors(end) ==> !IsValid(q)
    ensures forall s :: IsValid(s) ==> end !in GetNeighbors(s)
  {
    forall s | IsValid(s) ensures end !in GetNeighbors(s) {
      NeighborsSymmetric(s, end);
    }
  }

  /** test_bad_start: the start is an obstacle. */
  method TestBadStart() returns (r: Option<seq<Point2D>>)
    ensures r == None
  {
    var obstacles := {(1, 1)};
    var start := Point2D(1, 1, 10, 10, obstacles);
    var end := Point2D(5, 5, 10, 10, obstacles);
    ghost var found, expanded, checked;
    r, found, expanded, checked := FindGridPath(start, end);
    InvalidStartFindsNothing(GridDomain(), start, end, found, expanded, checked);
  }

  /** test_blocked_end: the four neighbours of the goal are obstacles. */
  method TestBlockedEnd() returns (r: Option<seq<Point2D>>)
    ensures r == None
  {
    var obstacles := {(4, 5), (6, 5), (5, 4), (5, 6)};
    var start := Point2D(1, 1, 10, 10, obstacles);
    var end := Point2D(5, 5, 10, 10, obstacles);
    ghost var found, expanded, checked;
    r, found, expanded, checked := FindGridPath(start, end);
    WalledInGoal(end);
    IsolatedGoalFindsNothing(GridDomain(), start, end, found, expanded, checked);
  }

  /** test_external_end: the goal lies outside the grid, and so do its
      neighbours. */
  method TestExternalEnd() returns (r: Option<seq<Point2D>>)
    ensures r == None
  {
    var obstacles := {};
    var start := Point2D(1, 1, 10, 10, obstacles);
    var end := Point2D(15, 5, 10, 10, obstacles);
    ghost var found, expanded, checked;
    r, found, expanded, checked := FindGridPath(start, end);
    WalledInGoal(end);
    IsolatedGoalFindsNothing(GridDomain(), start, end, found, expanded, checked);
  }

  /** test_start_is_end and test_start_is_end_bigger_grid, for any grid
      and any point, even an invalid one: the goal is returned before its
      validity is asked. */
  method TestStartIsEnd(width: int, height: int, obstacles: set<(int, int)>, x: int, y: int)
    returns (r: Option<seq<Point2D>>)
    ensures r.Some? && |r.value| == 1
    ensures r == Some([Point2D(x, y, width, height, obstacles)])
  {
    var start := Point2D(x, y, width, height, obstacles);
    var end := Point2D(x, y, width, height, obstacles);
    ghost var found, expanded, checked;
    r, found, expanded, checked := FindGridPath(start, end);
    assert OnGridOf(start, end) == end;
    assert r.value == [end][..0] + [end] == [end];
  }

  /** test_one_move_border and test_one_move_interior, for any two
      vertically adjacent points of an obstacle-free 10 by 10 grid. */
  method TestOneMove(x: int, y: int) returns (r: Option<seq<Point2D>>)
    requires 0 <= x < 10 && 0 <= y < 9
    ensures r.Some? && |r.value| == 2
    ensures r == Some([Point2D(x, y, 10, 10, {}), Point2D(x, y + 1, 10, 10, {})])
  {
    var start := Point2D(x, y, 10, 10, {});
    var end := Point2D(x, y + 1, 10, 10, {});
    ghost var found, expanded, checked;
    r, found, expanded, checked := FindGridPath(start, end);
    assert GetNeighbors(start)[3] == end;
    assert OnGridOf(start, end) == end;
    AdjacentGoalOneStep(GridDomain(), start, end, found, expanded, checked);
    assert found.value[..1] + [end] == [start, end];
  }
}
