/**
  FixedMazeEnvironment (maze.py): an agent walks through a fixed maze from a
  start cell towards a goal cell, one action per step, bumping into walls
  where a passage is closed. The environment also finds the shortest
  solution path with Dijkstra's algorithm and draws the maze as text.
*/
module Maze {
  import opened Wrappers
  import opened MazeLayout
  import opened MazeRender
  import opened MazeKruskal
  import opened MazeSolution

  /** A numpy array given as layout: its number of dimensions and, when it has two, its cells. */
  datatype LayoutArg = LayoutArg(ndim: nat, cells: Layout)

  /** What `render` hands back: the text picture, or the graphical window it draws on. */
  datatype Rendering = Ansi(text: string) | Window

  /** The cell rng.randint(0, w), rng.randint(0, h) yields for the raw random draw `r`. */
  function DrawCell(r: (nat, nat), w: nat, h: nat): (p: Pos)
    requires w > 0 && h > 0
    ensures 0 <= p.0 < w && 0 <= p.1 < h
  {
    (r.0 % w, r.1 % h)
  }

  /**
    The entry of a four-entry Python list that index `i` selects: 0..3 from
    the front, -4..-1 from the back, and none (IndexError) otherwise.
  */
  function ActionAt(i: int): (r: Option<Action>)
    ensures r.Some? <==> -4 <= i < 4
    ensures r.Some? ==> r.value % 4 == i % 4
  {
    if 0 <= i < 4 then Some(i) else if -4 <= i < 0 then Some(i + 4) else None
  }

  /** Where action `a` takes the agent from `p`: one cell on, or nowhere when a wall is in the way. */
  function Move(l: Layout, a: Action, p: Pos): Pos
    requires InGrid(l, p)
  {
    if CanMove(l, a, p.0, p.1) then Target(a, p.0, p.1) else p
  }

  /** In a closed layout the agent never leaves the grid. */
  lemma MoveStaysInGrid(l: Layout, a: Action, p: Pos)
    requires Closed(l) && InGrid(l, p)
    ensures InGrid(l, Move(l, a, p))
  {
    if CanMove(l, a, p.0, p.1) {
      MovesStayInBounds(l, a, p.0, p.1);
    }
  }

  /** A move through an open passage is undone by the opposite action. */
  lemma MoveUndone(l: Layout, a: Action, p: Pos)
    requires Closed(l) && InGrid(l, p) && CanMove(l, a, p.0, p.1)
    ensures InGrid(l, Move(l, a, p))
    ensures Move(l, Reverse(a), Move(l, a, p)) == p
  {
    MovesStayInBounds(l, a, p.0, p.1);
    MovesAreReversible(l, a, p.0, p.1);
  }

  /** A move keeps the agent in the part of the maze connected to where it stood. */
  lemma MoveConnects(l: Layout, a: Action, p: Pos)
    requires Closed(l) && InGrid(l, p)
    ensures Connected(l, p, Move(l, a, p))
  {
    var q := Move(l, a, p);
    if q == p {
      ConnectedReflexive(l, p);
    } else {
      MovesStayInBounds(l, a, p.0, p.1);
      NextStatesAreMoves(l, p.0, p.1, q);
      assert IsWalkBetween(l, [p, q], p, q);
    }
  }

  class FixedMaze {
    const layout: Layout
    const start: Pos
    const goal: Pos
    const maxSteps: int
    const goalReward: real
    const stepReward: real
    const hitWallReward: real
    var x: int
    var y: int
    var tick: int

    /** The fields `__init__` sets once its arguments are settled; it ends with `reset`. */
    constructor (layout: Layout, start: Pos, goal: Pos, maxSteps: int,
                 goalReward: real, stepReward: real, hitWallReward: real)
      ensures this.layout == layout && this.start == start && this.goal == goal
      ensures this.maxSteps == maxSteps && this.goalReward == goalReward
      ensures this.stepReward == stepReward && this.hitWallReward == hitWallReward
      ensures (x, y) == start && tick == 0
    {
      this.layout := layout;
      this.start := start;
      this.goal := goal;
      this.maxSteps := maxSteps;
      this.goalReward := goalReward;
      this.stepReward := stepReward;
      this.hitWallReward := hitWallReward;
      new;
      var _ := Reset();
    }

    /**
      `__init__`: checks its arguments, builds or takes the layout, and draws
      the goal and, while it coincides with the goal, the start. The random
      source is given as `order` (the edge order Kruskal's algorithm uses) and
      `draws` (the raw pairs behind each goal or start draw).
    */
    static method Create(layoutArg: Option<LayoutArg>, start: Pos, goal: Option<Pos>, width: int, height: int,
                         algorithm: string, rngGiven: bool, seed: Option<int>, maxSteps: int,
                         goalReward: real, stepReward: real, hitWallReward: real,
                         order: seq<int>, draws: seq<(nat, nat)>)
      returns (r: Result<FixedMaze, MazeError>)
      requires layoutArg.None? && width >= 1 && height >= 1 && algorithm == "kruskal" ==>
        IsPermutation(order, NumEdges(width, height))
      ensures rngGiven && seed.None? ==> r == Failure(RngWithoutSeed)
      ensures !(rngGiven && seed.None?) && layoutArg.Some? && layoutArg.value.ndim != 2 ==>
        r == Failure(NotTwoDimensional)
      ensures !(rngGiven && seed.None?) && layoutArg.None? && width < 1 ==> r == Failure(WidthTooSmall)
      ensures !(rngGiven && seed.None?) && layoutArg.None? && width >= 1 && height < 1 ==>
        r == Failure(HeightTooSmall)
      ensures !(rngGiven && seed.None?) && layoutArg.None? && width >= 1 && height >= 1 && algorithm != "kruskal" ==>
        r == Failure(UnknownAlgorithm(algorithm))
      ensures r == Failure(EmptyRange) ==>
        layoutArg.Some? && (Width(layoutArg.value.cells) == 0 || Height(layoutArg.value.cells) == 0)
      ensures !(rngGiven && seed.None?) && layoutArg.Some? && layoutArg.value.ndim == 2
              && Width(layoutArg.value.cells) == 1 && Height(layoutArg.value.cells) == 1
              && start == (0, 0) && (goal.None? || goal.value == (0, 0)) ==>
        r == Failure(DrawsExhausted)
      ensures r.Failure? ==>
        || (rngGiven && seed.None?)
        || (layoutArg.Some? && layoutArg.value.ndim != 2)
        || (layoutArg.None? && (width < 1 || height < 1 || algorithm != "kruskal"))
        || r == Failure(EmptyRange) || r == Failure(DrawsExhausted)
      ensures r == Failure(EmptyRange) || r == Failure(DrawsExhausted) ==> goal.None? || goal.value == start
      ensures r.Success? ==> fresh(r.value)
      ensures r.Success? ==> var m := r.value;
        && m.start != m.goal && (m.x, m.y) == m.start && m.tick == 0
        && m.maxSteps == maxSteps && m.goalReward == goalReward
        && m.stepReward == stepReward && m.hitWallReward == hitWallReward
        && (layoutArg.Some? ==> m.layout == layoutArg.value.cells)
        && (layoutArg.None? ==>
              && Width(m.layout) == width && Height(m.layout) == height
              && ValuesInRange(m.layout) && Closed(m.layout)
              && forall p, q :: InGrid(m.layout, p) && InGrid(m.layout, q) ==> Connected(m.layout, p, q))
        && (goal.Some? ==> m.goal == goal.value)
        && (goal.None? ==> InGrid(m.layout, m.goal))
        && (start != m.goal ==> m.start == start)
        && (m.start != start ==> InGrid(m.layout, m.start))
    {
      if rngGiven && seed.None? {
        return Failure(RngWithoutSeed);
      }
      var l: Layout;
      if layoutArg.Some? {
        if layoutArg.value.ndim != 2 {
          return Failure(NotTwoDimensional);
        }
        l := layoutArg.value.cells;
      } else if width < 1 {
        return Failure(WidthTooSmall);
      } else if height < 1 {
        return Failure(HeightTooSmall);
      } else {
        var generated := GenerateRandomMaze(width, height, algorithm, order);
        if generated.Failure? {
          return Failure(generated.error);
        }
        l := generated.value;
      }
      var k := 0;
      var g: Pos;
      if goal.None? {
        if Width(l) == 0 || Height(l) == 0 {
          return Failure(EmptyRange);
        }
        if |draws| == 0 {
          return Failure(DrawsExhausted);
        }
        g := DrawCell(draws[0], Width(l), Height(l));
        k := 1;
      } else {
        g := goal.value;
      }
      var s := start;
      while g == s
        invariant 0 <= k <= |draws|
        invariant s == start || InGrid(l, s)
        invariant g != start ==> s == start
        invariant Width(l) == 1 && Height(l) == 1 && start == (0, 0) && g == (0, 0) ==> s == (0, 0)
        decreases |draws| - k
      {
        if Width(l) == 0 || Height(l) == 0 {
          return Failure(EmptyRange);
        }
        if k == |draws| {
          return Failure(DrawsExhausted);
        }
        s := DrawCell(draws[k], Width(l), Height(l));
        k := k + 1;
      }
      var m := new FixedMaze(l, s, g, maxSteps, goalReward, stepReward, hitWallReward);
      return Success(m);
    }

    method Reset() returns (state: Pos)
      modifies this
      ensures (x, y) == start && tick == 0 && state == start
    {
      x, y := start.0, start.1;
      tick := 0;
      state := (x, y);
    }

    /**
      One step: the clock advances; the agent moves unless a wall is in the
      way; reaching the goal ends the episode with the goal reward, and
      otherwise the episode ends once `maxSteps` steps have been taken.
    */
    method Step(action: Action) returns (state: Pos, reward: real, done: bool)
      requires InBounds(layout, x, y)
      modifies this
      ensures tick == old(tick) + 1
      ensures state == (x, y) == Move(layout, action, (old(x), old(y)))
      ensures !CanMove(layout, action, old(x), old(y)) ==> reward == hitWallReward && done == (tick >= maxSteps)
      ensures CanMove(layout, action, old(x), old(y)) && state == goal ==> reward == goalReward && done
      ensures CanMove(layout, action, old(x), old(y)) && state != goal ==>
        reward == stepReward && done == (tick >= maxSteps)
      ensures Closed(layout) ==> InBounds(layout, x, y)
    {
      tick := tick + 1;
      ghost var p := (x, y);
      if Closed(layout) {
        MoveStaysInGrid(layout, action, p);
      }
      if CanMove(layout, action, x, y) {
        x := x + DeltaX[action];
        y := y + DeltaY[action];
        if x == goal.0 && y == goal.1 {
          return (x, y), goalReward, true;
        }
        return (x, y), stepReward, tick >= maxSteps;
      }
      return (x, y), hitWallReward, tick >= maxSteps;
    }

    /**
      `step` on any integer: the action lists are Python lists, so -4..-1
      count from their end and any other value outside 0..3 raises IndexError,
      after the clock has already advanced.
    */
    method StepAny(action: int) returns (r: Result<(Pos, real, bool), MazeError>)
      requires InBounds(layout, x, y)
      modifies this
      ensures tick == old(tick) + 1
      ensures ActionAt(action).None? ==> r == Failure(ActionOutOfRange(action)) && (x, y) == (old(x), old(y))
      ensures ActionAt(action).Some? ==>
        r.Success? && r.value.0 == (x, y) == Move(layout, ActionAt(action).value, (old(x), old(y)))
      ensures ActionAt(action).Some? && !CanMove(layout, ActionAt(action).value, old(x), old(y)) ==>
        r.value.1 == hitWallReward && r.value.2 == (tick >= maxSteps)
      ensures ActionAt(action).Some? && CanMove(layout, ActionAt(action).value, old(x), old(y)) && (x, y) == goal ==>
        r.value.1 == goalReward && r.value.2
      ensures ActionAt(action).Some? && CanMove(layout, ActionAt(action).value, old(x), old(y)) && (x, y) != goal ==>
        r.value.1 == stepReward && r.value.2 == (tick >= maxSteps)
    {
      match ActionAt(action)
      case None =>
        tick := tick + 1;
        r := Failure(ActionOutOfRange(action));
      case Some(a) =>
        var state, reward, done := Step(a);
        r := Success((state, reward, done));
    }

    method Teleport(x': int, y': int)
      modifies this
      ensures x == x' && y == y' && tick == old(tick)
    {
      x := x';
      y := y';
    }

    /** `render`: the text picture for "ansi", the window for "human", an error otherwise. */
    function Render(mode: string): (r: Result<Rendering, MazeError>)
      reads this
      requires ValuesInRange(layout)
      ensures r.Success? <==> mode == "human" || mode == "ansi"
      ensures mode == "ansi" ==>
        && r.Success? && r.value.Ansi?
        && r.value.text == (if Height(layout) == 0 then "\n" else "") + JoinLines(Lines(layout, (x, y), goal))
      ensures r.Failure? ==> r.error == UnknownMode(mode)
    {
      if mode == "human" then Success(Window)
      else if mode == "ansi" then
        RenderMatchesPicture(layout, (x, y), goal);
        Success(Ansi(RenderAnsi(layout, (x, y), goal)))
      else Failure(UnknownMode(mode))
    }

    /**
      `_compute_solution`: Dijkstra's algorithm from the start. It answers the
      length of a shortest walk to the goal and the predecessor of every cell
      reached (the ghost `dist` holds the distances the answer relies on).
    */
    method ComputeSolution() returns (r: Result<(nat, map<Pos, Pos>), MazeError>, ghost dist: map<Pos, nat>)
      ensures r.Success? ==> IsShortest(layout, start, goal, r.value.0)
      ensures r.Success? ==> PriorTree(layout, start, dist, r.value.1) && goal in dist && dist[goal] == r.value.0
      ensures r.Failure? ==> r.error == NoSolution || r.error.OutOfGrid?
      ensures r == Failure(NoSolution) ==> !Connected(layout, start, goal)
      ensures !InGrid(layout, start) <==> r == Failure(OutOfGrid(start))
      ensures InGrid(layout, start) && r.Failure? && r.error.OutOfGrid? ==> !Closed(layout)
    {
      if !InGrid(layout, start) {
        return Failure(OutOfGrid(start)), map[];
      }
      var heap: seq<Entry> := [(0, start)];
      var prior: map<Pos, Pos> := map[];
      var distance: map<Pos, nat> := map[start := 0];
      var visited: set<Pos> := {};
      InitialSettled(layout, start, goal);
      while |heap| > 0
        invariant Settled(layout, start, goal, distance, prior, heap, visited)
        decreases |GridCells(layout) - visited|, |heap|
      {
        var i := LeastIndex(heap);
        ghost var heap0 := heap;
        var (d, current) := heap[i];
        heap := RemoveAt(heap, i);
        if current !in visited {
          if current == goal {
            GoalReached(layout, start, goal, distance, prior, heap0, visited, i);
            assert d == distance[current];
            return Success((d, prior)), distance;
          }
          PopFresh(layout, start, goal, distance, prior, heap0, visited, i);
          assert d == distance[current];
          var d1 := d + 1;
          var ns := NextStates(layout, current.0, current.1);
          var j := 0;
          while j < |ns|
            invariant Expanding(layout, start, goal, distance, prior, heap, visited, current, d, ns, j)
          {
            var next := ns[j];
            if !InGrid(layout, next) {
              LeavesGrid(layout, start, goal, distance, prior, heap, visited, current, d, ns, j);
              return Failure(OutOfGrid(next)), distance;
            }
            if next !in distance || d1 < distance[next] {
              RelaxUpdate(layout, start, goal, distance, prior, heap, visited, current, d, ns, j,
                          distance[next := d1], prior[next := current], heap + [(d1, next)]);
              distance := distance[next := d1];
              prior := prior[next := current];
              heap := heap + [(d1, next)];
            } else {
              RelaxKeep(layout, start, goal, distance, prior, heap, visited, current, d, ns, j);
            }
            j := j + 1;
          }
          FinishExpand(layout, start, goal, distance, prior, heap, visited, current, d, ns);
          VisitShrinks(GridCells(layout), visited, current);
          visited := visited + {current};
        } else {
          PopVisited(layout, start, goal, distance, prior, heap0, visited, i);
        }
      }
      Exhausted(layout, start, goal, distance, prior, visited);
      return Failure(NoSolution), distance;
    }

    /** `compute_solution_path`: the cells of a shortest walk from the start to the goal. */
    method ComputeSolutionPath() returns (r: Result<seq<Pos>, MazeError>)
      ensures r.Success? ==> IsWalkBetween(layout, r.value, start, goal)
      ensures r.Success? ==> IsShortest(layout, start, goal, |r.value| - 1)
      ensures r.Failure? ==> r.error == NoSolution || r.error.OutOfGrid?
      ensures r == Failure(NoSolution) ==> !Connected(layout, start, goal)
      ensures Closed(layout) && InGrid(layout, start) ==> (r.Success? <==> Connected(layout, start, goal))
    {
      var solution, dist := ComputeSolution();
      if solution.Failure? {
        return Failure(solution.error);
      }
      var (d, prior) := solution.value;
      var path := [goal];
      var current := goal;
      while current != start
        invariant current in dist && |path| >= 1
        invariant path[0] == goal && path[|path| - 1] == current
        invariant IsWalk(layout, Reversed(path))
        invariant |path| + dist[current] == d + 1
        decreases dist[current]
      {
        assert PriorOk(layout, dist, prior, current);
        ExtendBackwards(layout, path, prior[current]);
        current := prior[current];
        path := path + [current];
      }
      path := Reversed(path);
      return Success(path);
    }

    /** `compute_solution_length`: the number of moves on a shortest walk from the start to the goal. */
    method ComputeSolutionLength() returns (r: Result<nat, MazeError>)
      ensures r.Success? ==> IsShortest(layout, start, goal, r.value)
      ensures r.Failure? ==> r.error == NoSolution || r.error.OutOfGrid?
      ensures r == Failure(NoSolution) ==> !Connected(layout, start, goal)
      ensures Closed(layout) && InGrid(layout, start) ==> (r.Success? <==> Connected(layout, start, goal))
    {
      var solution, _ := ComputeSolution();
      if solution.Failure? {
        return Failure(solution.error);
      }
      return Success(solution.value.0);
    }
  }

  /** The path and the length the environment reports describe the same walk. */
  lemma PathMatchesLength(l: Layout, p: Pos, q: Pos, path: seq<Pos>, d: nat)
    requires IsWalkBetween(l, path, p, q) && IsShortest(l, p, q, |path| - 1)
    requires IsShortest(l, p, q, d)
    ensures |path| == d + 1
  {
    ShortestIsUnique(l, p, q, |path| - 1, d);
  }

  // ---------------------------------------------------------------------
  // The sample maze of the test suite, start (0, 0) and goal (3, 2)

  /** The solution path the test suite expects. */
  const SamplePath: seq<Pos> := [(0, 0), (1, 0), (2, 0), (2, 1), (2, 2), (3, 2)]

  /** The sample maze has no passage off the grid. */
  lemma SampleClosed()
    ensures Closed(SampleLayout)
  {
    forall x, y | 0 <= x < Width(SampleLayout) && 0 <= y < Height(SampleLayout)
      ensures (EastBit(Cell(SampleLayout, x, y)) ==> x < Width(SampleLayout) - 1)
           && (NorthBit(Cell(SampleLayout, x, y)) ==> y < Height(SampleLayout) - 1)
    {
      assert y == 0 || y == 1 || y == 2;
      assert x == 0 || x == 1 || x == 2 || x == 3;
    }
  }

  /** The moves the step tests make, from the cells they teleport to. */
  lemma SampleSteps()
    ensures Move(SampleLayout, 0, (0, 0)) == (0, 1)
    ensures !CanMove(SampleLayout, 0, 1, 1) && Move(SampleLayout, 0, (1, 1)) == (1, 1)
    ensures Move(SampleLayout, 1, (0, 0)) == (1, 0)
    ensures !CanMove(SampleLayout, 1, 2, 1) && Move(SampleLayout, 1, (2, 1)) == (2, 1)
    ensures Move(SampleLayout, 2, (2, 2)) == (2, 1)
    ensures !CanMove(SampleLayout, 2, 1, 2) && Move(SampleLayout, 2, (1, 2)) == (1, 2)
    ensures !CanMove(SampleLayout, 2, 0, 0) && Move(SampleLayout, 2, (0, 0)) == (0, 0)
    ensures Move(SampleLayout, 3, (2, 2)) == (1, 2)
    ensures !CanMove(SampleLayout, 3, 1, 2) && Move(SampleLayout, 3, (1, 2)) == (1, 2)
    ensures !CanMove(SampleLayout, 3, 0, 0) && Move(SampleLayout, 3, (0, 0)) == (0, 0)
    ensures Move(SampleLayout, 1, (2, 2)) == (3, 2)
    ensures Move(SampleLayout, 0, Move(SampleLayout, 1, Move(SampleLayout, 1, (0, 0)))) == (2, 1)
  {
  }

  /** The cells one move away from the cells near the expected path, in the order north, east, south, west. */
  lemma SampleNeighbours()
    ensures NextStates(SampleLayout, 0, 0) == [(0, 1), (1, 0)]
    ensures NextStates(SampleLayout, 1, 0) == [(1, 1), (2, 0), (0, 0)]
    ensures NextStates(SampleLayout, 2, 0) == [(2, 1), (3, 0), (1, 0)]
    ensures NextStates(SampleLayout, 2, 1) == [(2, 2), (2, 0)]
    ensures NextStates(SampleLayout, 2, 2) == [(3, 2), (2, 1), (1, 2)]
    ensures NextStates(SampleLayout, 0, 1) == [(0, 2), (0, 0)]
    ensures NextStates(SampleLayout, 0, 2) == [(0, 1)]
    ensures NextStates(SampleLayout, 1, 1) == [(1, 0)]
    ensures NextStates(SampleLayout, 3, 0) == [(3, 1), (2, 0)]
    ensures NextStates(SampleLayout, 3, 1) == [(3, 0)]
  {
  }

  /** The expected path is a walk of five moves, and no walk between its ends is shorter. */
  lemma SamplePathIsShortest()
    ensures IsWalkBetween(SampleLayout, SamplePath, (0, 0), (3, 2)) && |SamplePath| == 6
    ensures IsShortest(SampleLayout, (0, 0), (3, 2), 5)
  {
    SamplePathIsWalk();
    forall w | IsWalkBetween(SampleLayout, w, (0, 0), (3, 2))
      ensures |w| >= 6
    {
      WalkCoversDistance(SampleLayout, w);
    }
  }

  /** The expected path is a walk from the start to the goal. */
  lemma SamplePathIsWalk()
    ensures IsWalkBetween(SampleLayout, SamplePath, (0, 0), (3, 2))
  {
    SamplePathStepByStep();
    StepByStepIsWalk(SampleLayout, SamplePath);
  }

  /** Each cell of the expected path is a next state of the one before. */
  lemma SamplePathStepByStep()
    ensures StepByStep(SampleLayout, SamplePath)
  {
    assert (3, 2) in NextStates(SampleLayout, 2, 2);
    assert StepByStep(SampleLayout, SamplePath[4..]);
    assert (2, 2) in NextStates(SampleLayout, 2, 1);
    assert (2, 1) in NextStates(SampleLayout, 2, 0);
    assert StepByStep(SampleLayout, SamplePath[2..]);
    assert (2, 0) in NextStates(SampleLayout, 1, 0);
    assert (1, 0) in NextStates(SampleLayout, 0, 0);
  }

  /** A walk of five moves from (0, 0) to (3, 2): each move comes one closer to (3, 2). */
  ghost predicate SampleShortWalk(w: seq<Pos>) {
    && IsWalkBetween(SampleLayout, w, (0, 0), (3, 2)) && |w| == 6
    && forall i :: 0 <= i < 6 ==> Distance(w[i], (3, 2)) == 5 - i
  }

  /** Its first move goes east: going north leads into the dead end at (0, 2). */
  lemma SampleFirstMove(w: seq<Pos>)
    requires SampleShortWalk(w)
    ensures w[1] == (1, 0)
  {
    SampleNeighbours();
    assert w[1] in NextStates(SampleLayout, 0, 0);
    assert w[2] in NextStates(SampleLayout, w[1].0, w[1].1);
    assert w[3] in NextStates(SampleLayout, w[2].0, w[2].1);
  }

  /** Its second and third moves reach (2, 1): going on east leads into the dead end at (3, 1). */
  lemma SampleMiddleMoves(w: seq<Pos>)
    requires SampleShortWalk(w) && w[1] == (1, 0)
    ensures w[2] == (2, 0) && w[3] == (2, 1)
  {
    SampleNeighbours();
    assert w[2] in NextStates(SampleLayout, 1, 0);
    assert w[3] in NextStates(SampleLayout, w[2].0, w[2].1);
    assert w[4] in NextStates(SampleLayout, w[3].0, w[3].1);
    assert w[5] in NextStates(SampleLayout, w[4].0, w[4].1);
  }

  /** Any walk of five moves from (0, 0) to (3, 2) comes one closer with each move. */
  lemma SampleWalkIsShort(w: seq<Pos>)
    requires IsWalkBetween(SampleLayout, w, (0, 0), (3, 2)) && |w| == 6
    ensures SampleShortWalk(w)
  {
    forall i | 0 <= i < 6
      ensures Distance(w[i], (3, 2)) == 5 - i
    {
      WalkDistances(SampleLayout, w, i);
    }
  }

  /** Its fourth move goes south to (2, 2), the one neighbour of (3, 2) on the way. */
  lemma SampleLastMoves(w: seq<Pos>)
    requires SampleShortWalk(w) && w[3] == (2, 1)
    ensures w[4] == (2, 2)
  {
    SampleNeighbours();
    assert w[4] in NextStates(SampleLayout, 2, 1);
  }

  /** The expected path is the only walk of five moves between its ends. */
  lemma SamplePathIsUnique(w: seq<Pos>)
    requires IsWalkBetween(SampleLayout, w, (0, 0), (3, 2)) && |w| == 6
    ensures w == SamplePath
  {
    SampleWalkIsShort(w);
    SampleFirstMove(w);
    SampleMiddleMoves(w);
    SampleLastMoves(w);
    assert w == [w[0], w[1], w[2], w[3], w[4], w[5]];
  }

  /**
    What the solution tests expect: in the sample maze, from (0, 0) to (3, 2),
    `compute_solution_length` answers 5 and `compute_solution_path` the
    expected path.
  */
  method SolveSample() returns (length: Result<nat, MazeError>, path: Result<seq<Pos>, MazeError>)
    ensures length == Success(5)
    ensures path == Success(SamplePath)
  {
    var maze := new FixedMaze(SampleLayout, (0, 0), (3, 2), 100, 100.0, -1.0, -5.0);
    SampleClosed();
    SamplePathIsShortest();
    length := maze.ComputeSolutionLength();
    ShortestIsUnique(SampleLayout, (0, 0), (3, 2), length.value, 5);
    path := maze.ComputeSolutionPath();
    SamplePathIsUnique(path.value);
  }
}
