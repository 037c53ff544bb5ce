/**
  The facts behind the shortest-path search of the fixed maze (Dijkstra's
  algorithm in maze.py). The search keeps a tentative distance per reached
  cell (a map: an absent cell is at infinity), the predecessor that set it,
  a priority queue of (distance, cell) entries and the set of visited cells.
  The predicates below are the loop invariants of that search; the lemmas
  carry them across one pop and one relaxation, and draw the conclusions the
  search returns: the distance is the length of a shortest walk, the
  predecessors lead back to the start, and an empty queue means the goal is
  unreachable.
*/
module MazeSolution {
  import opened MazeLayout

  /** A queue entry: a tentative distance and a cell. */
  type Entry = (nat, Pos)

  /** The order of Python tuples (d, (x, y)), which heapq pops smallest first. */
  predicate EntryLe(a: Entry, b: Entry) {
    a.0 < b.0 || (a.0 == b.0 && (a.1.0 < b.1.0 || (a.1.0 == b.1.0 && a.1.1 <= b.1.1)))
  }

  /** Where heappop finds its entry: one that no other entry precedes. */
  function LeastIndex(h: seq<Entry>): (i: nat)
    requires |h| > 0
    ensures i < |h|
    ensures forall j :: 0 <= j < |h| ==> EntryLe(h[i], h[j])
  {
    if |h| == 1 then 0
    else
      var k := LeastIndex(h[1..]) + 1;
      assert forall j :: 1 <= j < |h| ==> h[j] == h[1..][j - 1];
      if EntryLe(h[0], h[k]) then 0 else k
  }

  lemma LeastBelowAll(h: seq<Entry>, i: nat)
    requires |h| > 0 && i == LeastIndex(h)
    ensures forall e :: e in h ==> EntryLe(h[i], e)
  {
    forall e | e in h
      ensures EntryLe(h[i], e)
    {
      var k :| 0 <= k < |h| && h[k] == e;
    }
  }

  /** The queue after heappop removed the entry at `i`. */
  function RemoveAt(h: seq<Entry>, i: nat): (r: seq<Entry>)
    requires i < |h|
    ensures |r| == |h| - 1
    ensures multiset(r) + multiset{h[i]} == multiset(h)
    ensures forall e :: e in r ==> e in h
    ensures forall e :: e in h && e != h[i] ==> e in r
  {
    assert h == h[..i] + [h[i]] + h[i + 1..];
    h[..i] + h[i + 1..]
  }

  /** The cells of the grid, the bound on how often a cell can be visited. */
  ghost function GridCells(l: Layout): (r: set<Pos>)
    ensures forall p :: p in r <==> InGrid(l, p)
  {
    set x, y | 0 <= x < Width(l) && 0 <= y < Height(l) :: (x, y)
  }

  lemma VisitShrinks(all: set<Pos>, visited: set<Pos>, c: Pos)
    requires c in all && c !in visited
    ensures |all - (visited + {c})| < |all - visited|
  {
    assert all - (visited + {c}) == (all - visited) - {c};
  }

  lemma NotOwnNeighbour(l: Layout, p: Pos)
    requires InGrid(l, p)
    ensures p !in NextStates(l, p.0, p.1)
  {
  }

  // ---------------------------------------------------------------------
  // Predecessor trees

  /** The predecessor `prior[p]` of `p` is one move away and one step closer to the start. */
  ghost predicate PriorOk(l: Layout, dist: map<Pos, nat>, prior: map<Pos, Pos>, p: Pos) {
    && p in dist && p in prior && prior[p] in dist
    && InGrid(l, prior[p])
    && dist[p] == dist[prior[p]] + 1
    && p in NextStates(l, prior[p].0, prior[p].1)
  }

  /** What the search hands back: predecessors that lead every reached cell back to the start. */
  ghost predicate PriorTree(l: Layout, start: Pos, dist: map<Pos, nat>, prior: map<Pos, Pos>) {
    && start in dist && dist[start] == 0
    && (forall p :: p in dist ==> InGrid(l, p))
    && (forall p :: p in dist && p != start ==> PriorOk(l, dist, prior, p))
  }

  /** The path read off the predecessors, from the start to `p`. */
  ghost function ChainPath(l: Layout, start: Pos, dist: map<Pos, nat>, prior: map<Pos, Pos>, p: Pos): seq<Pos>
    requires PriorTree(l, start, dist, prior) && p in dist
    decreases dist[p]
  {
    if p == start then [start]
    else ChainPath(l, start, dist, prior, prior[p]) + [p]
  }

  lemma {:induction false} ChainWalk(l: Layout, start: Pos, dist: map<Pos, nat>, prior: map<Pos, Pos>, p: Pos)
    requires PriorTree(l, start, dist, prior) && p in dist
    ensures IsWalkBetween(l, ChainPath(l, start, dist, prior, p), start, p)
    ensures |ChainPath(l, start, dist, prior, p)| == dist[p] + 1
    decreases dist[p]
  {
    if p != start {
      var q := prior[p];
      assert PriorOk(l, dist, prior, p);
      ChainWalk(l, start, dist, prior, q);
      var w := ChainPath(l, start, dist, prior, q);
      assert IsWalk(l, [p]);
      ConcatWalk(l, w, [q, p]);
      assert w + [q, p][1..] == ChainPath(l, start, dist, prior, p);
    }
  }

  /** `d` is the number of moves of a shortest walk from `p` to `q`. */
  ghost predicate IsShortest(l: Layout, p: Pos, q: Pos, d: nat) {
    && (exists w :: IsWalkBetween(l, w, p, q) && |w| == d + 1)
    && (forall w :: IsWalkBetween(l, w, p, q) ==> |w| >= d + 1)
  }

  /** The length of a shortest walk is determined by its ends. */
  lemma ShortestIsUnique(l: Layout, p: Pos, q: Pos, d1: nat, d2: nat)
    requires IsShortest(l, p, q, d1) && IsShortest(l, p, q, d2)
    ensures d1 == d2
  {
    var w1 :| IsWalkBetween(l, w1, p, q) && |w1| == d1 + 1;
    var w2 :| IsWalkBetween(l, w2, p, q) && |w2| == d2 + 1;
  }

  /** Adding a predecessor to a path read backwards from the goal. */
  lemma ExtendBackwards(l: Layout, path: seq<Pos>, p: Pos)
    requires |path| > 0 && IsWalk(l, Reversed(path))
    requires InGrid(l, p) && path[|path| - 1] in NextStates(l, p.0, p.1)
    ensures IsWalk(l, Reversed(path + [p]))
  {
    var q := path[|path| - 1];
    var b := Reversed(path);
    assert b[0] == q && InGrid(l, b[0]);
    assert IsWalk(l, [p, q]);
    ConcatWalk(l, [p, q], b);
    assert [p, q] + b[1..] == Reversed(path + [p]);
  }

  // ---------------------------------------------------------------------
  // Loop invariants of the search

  /** Every neighbour of `v` is reached, at most one step further than `v`. */
  ghost predicate Relaxed(l: Layout, dist: map<Pos, nat>, v: Pos) {
    && v in dist && InGrid(l, v)
    && forall n :: n in NextStates(l, v.0, v.1) ==> n in dist && dist[n] <= dist[v] + 1
  }

  /** The facts that hold throughout; `done` holds the cells allowed as predecessors. */
  ghost predicate Base(l: Layout, start: Pos, dist: map<Pos, nat>, prior: map<Pos, Pos>,
                       heap: seq<Entry>, done: set<Pos>)
  {
    && start in dist && dist[start] == 0
    && (forall p :: p in dist ==> InGrid(l, p))
    && (forall e :: e in heap ==> e.1 in dist && dist[e.1] <= e.0)
    && (forall p :: p in dist && p != start ==> PriorOk(l, dist, prior, p) && prior[p] in done)
  }

  /** The invariant at the head of the outer loop. */
  ghost predicate Settled(l: Layout, start: Pos, goal: Pos, dist: map<Pos, nat>, prior: map<Pos, Pos>,
                          heap: seq<Entry>, visited: set<Pos>)
  {
    && visited <= dist.Keys
    && Base(l, start, dist, prior, heap, visited)
    && (forall p :: p in dist && p !in visited ==> (dist[p], p) in heap)
    && (forall v, e :: v in visited && e in heap ==> dist[v] <= e.0)
    && (forall v :: v in visited ==> Relaxed(l, dist, v))
    && goal !in visited
  }

  /** The invariant while the neighbours `ns` of `current` are relaxed, `j` of them so far. */
  ghost predicate Expanding(l: Layout, start: Pos, goal: Pos, dist: map<Pos, nat>, prior: map<Pos, Pos>,
                            heap: seq<Entry>, visited: set<Pos>, current: Pos, d: nat, ns: seq<Pos>, j: int)
  {
    && current in dist && dist[current] == d && current !in visited && current != goal
    && InGrid(l, current) && ns == NextStates(l, current.0, current.1) && 0 <= j <= |ns|
    && visited <= dist.Keys
    && Base(l, start, dist, prior, heap, visited + {current})
    && (forall p :: p in dist && p !in visited && p != current ==> (dist[p], p) in heap)
    && (forall v :: v in visited ==> dist[v] <= d)
    && (forall e :: e in heap ==> d <= e.0)
    && (forall v :: v in visited ==> Relaxed(l, dist, v))
    && (forall m :: 0 <= m < j ==> ns[m] in dist && dist[ns[m]] <= d + 1)
    && goal !in visited
  }

  lemma InitialSettled(l: Layout, start: Pos, goal: Pos)
    requires InGrid(l, start)
    ensures Settled(l, start, goal, map[start := 0], map[], [(0, start)], {})
  {
  }

  /** Popping an entry of a visited cell changes nothing else. */
  lemma PopVisited(l: Layout, start: Pos, goal: Pos, dist: map<Pos, nat>, prior: map<Pos, Pos>,
                   heap: seq<Entry>, visited: set<Pos>, i: nat)
    requires Settled(l, start, goal, dist, prior, heap, visited)
    requires i < |heap| && heap[i].1 in visited
    ensures Settled(l, start, goal, dist, prior, RemoveAt(heap, i), visited)
  {
  }

  /** The least entry of an unvisited cell carries that cell's distance, and its expansion starts. */
  lemma PopFresh(l: Layout, start: Pos, goal: Pos, dist: map<Pos, nat>, prior: map<Pos, Pos>,
                 heap: seq<Entry>, visited: set<Pos>, i: nat)
    requires Settled(l, start, goal, dist, prior, heap, visited)
    requires |heap| > 0 && i == LeastIndex(heap)
    requires heap[i].1 !in visited && heap[i].1 != goal
    ensures heap[i].1 in dist && dist[heap[i].1] == heap[i].0
    ensures InGrid(l, heap[i].1)
    ensures Expanding(l, start, goal, dist, prior, RemoveAt(heap, i), visited, heap[i].1, heap[i].0,
                      NextStates(l, heap[i].1.0, heap[i].1.1), 0)
  {
    var (d, c) := heap[i];
    LeastBelowAll(heap, i);
    assert (dist[c], c) in heap;
    var h' := RemoveAt(heap, i);
    assert forall v :: v in visited ==> dist[v] <= d by {
      assert heap[i] in heap;
    }
  }

  /** Relaxing a neighbour that the current cell brings closer. */
  lemma RelaxUpdate(l: Layout, start: Pos, goal: Pos, dist: map<Pos, nat>, prior: map<Pos, Pos>,
                    heap: seq<Entry>, visited: set<Pos>, c: Pos, d: nat, ns: seq<Pos>, j: nat,
                    dist': map<Pos, nat>, prior': map<Pos, Pos>, heap': seq<Entry>)
    requires Expanding(l, start, goal, dist, prior, heap, visited, c, d, ns, j)
    requires j < |ns| && InGrid(l, ns[j])
    requires ns[j] !in dist || d + 1 < dist[ns[j]]
    requires dist' == dist[ns[j] := d + 1] && prior' == prior[ns[j] := c] && heap' == heap + [(d + 1, ns[j])]
    ensures Expanding(l, start, goal, dist', prior', heap', visited, c, d, ns, j + 1)
  {
    NotOwnNeighbour(l, c);
    RelaxBase(l, start, goal, dist, prior, heap, visited, c, d, ns, j, dist', prior', heap');
    RelaxVisited(l, start, goal, dist, prior, heap, visited, c, d, ns, j, dist');
    RelaxQueue(l, start, goal, dist, prior, heap, visited, c, d, ns, j, dist', heap');
    assert forall m :: 0 <= m < j + 1 ==> ns[m] in dist' && dist'[ns[m]] <= d + 1;
  }

  lemma RelaxBase(l: Layout, start: Pos, goal: Pos, dist: map<Pos, nat>, prior: map<Pos, Pos>,
                  heap: seq<Entry>, visited: set<Pos>, c: Pos, d: nat, ns: seq<Pos>, j: nat,
                  dist': map<Pos, nat>, prior': map<Pos, Pos>, heap': seq<Entry>)
    requires Expanding(l, start, goal, dist, prior, heap, visited, c, d, ns, j)
    requires j < |ns| && InGrid(l, ns[j])
    requires ns[j] !in dist || d + 1 < dist[ns[j]]
    requires dist' == dist[ns[j] := d + 1] && prior' == prior[ns[j] := c] && heap' == heap + [(d + 1, ns[j])]
    ensures Base(l, start, dist', prior', heap', visited + {c})
  {
    RelaxPriors(l, start, goal, dist, prior, heap, visited, c, d, ns, j, dist', prior');
    RelaxVisited(l, start, goal, dist, prior, heap, visited, c, d, ns, j, dist');
    RelaxQueue(l, start, goal, dist, prior, heap, visited, c, d, ns, j, dist', heap');
  }

  lemma RelaxQueue(l: Layout, start: Pos, goal: Pos, dist: map<Pos, nat>, prior: map<Pos, Pos>,
                   heap: seq<Entry>, visited: set<Pos>, c: Pos, d: nat, ns: seq<Pos>, j: nat,
                   dist': map<Pos, nat>, heap': seq<Entry>)
    requires Expanding(l, start, goal, dist, prior, heap, visited, c, d, ns, j)
    requires j < |ns| && InGrid(l, ns[j])
    requires ns[j] !in dist || d + 1 < dist[ns[j]]
    requires dist' == dist[ns[j] := d + 1] && heap' == heap + [(d + 1, ns[j])]
    ensures forall e :: e in heap' ==> e.1 in dist' && dist'[e.1] <= e.0
    ensures forall p :: p in dist' && p !in visited && p != c ==> (dist'[p], p) in heap'
    ensures forall e :: e in heap' ==> d <= e.0
  {
    forall e | e in heap'
      ensures e.1 in dist' && dist'[e.1] <= e.0
    {
      if e != (d + 1, ns[j]) {
        assert e in heap;
      }
    }
  }

  lemma RelaxPriors(l: Layout, start: Pos, goal: Pos, dist: map<Pos, nat>, prior: map<Pos, Pos>,
                    heap: seq<Entry>, visited: set<Pos>, c: Pos, d: nat, ns: seq<Pos>, j: nat,
                    dist': map<Pos, nat>, prior': map<Pos, Pos>)
    requires Expanding(l, start, goal, dist, prior, heap, visited, c, d, ns, j)
    requires j < |ns| && InGrid(l, ns[j])
    requires ns[j] !in dist || d + 1 < dist[ns[j]]
    requires dist' == dist[ns[j] := d + 1] && prior' == prior[ns[j] := c]
    ensures forall p :: p in dist' && p != start ==> PriorOk(l, dist', prior', p) && prior'[p] in visited + {c}
  {
    var next := ns[j];
    NotOwnNeighbour(l, c);
    assert next !in visited;
    forall p | p in dist' && p != start
      ensures PriorOk(l, dist', prior', p) && prior'[p] in visited + {c}
    {
      if p != next {
        assert PriorOk(l, dist, prior, p);
        assert prior[p] != next;
      }
    }
  }

  lemma RelaxVisited(l: Layout, start: Pos, goal: Pos, dist: map<Pos, nat>, prior: map<Pos, Pos>,
                     heap: seq<Entry>, visited: set<Pos>, c: Pos, d: nat, ns: seq<Pos>, j: nat,
                     dist': map<Pos, nat>)
    requires Expanding(l, start, goal, dist, prior, heap, visited, c, d, ns, j)
    requires j < |ns| && InGrid(l, ns[j])
    requires ns[j] !in dist || d + 1 < dist[ns[j]]
    requires dist' == dist[ns[j] := d + 1]
    ensures ns[j] !in visited && ns[j] != start
    ensures forall v :: v in visited ==> Relaxed(l, dist', v)
  {
    forall v | v in visited
      ensures Relaxed(l, dist', v)
    {
      assert Relaxed(l, dist, v);
    }
  }

  /** Leaving a neighbour that is already close enough. */
  lemma RelaxKeep(l: Layout, start: Pos, goal: Pos, dist: map<Pos, nat>, prior: map<Pos, Pos>,
                  heap: seq<Entry>, visited: set<Pos>, c: Pos, d: nat, ns: seq<Pos>, j: nat)
    requires Expanding(l, start, goal, dist, prior, heap, visited, c, d, ns, j)
    requires j < |ns| && ns[j] in dist && dist[ns[j]] <= d + 1
    ensures Expanding(l, start, goal, dist, prior, heap, visited, c, d, ns, j + 1)
  {
  }

  /** Once all neighbours are relaxed, the current cell joins the visited set. */
  lemma FinishExpand(l: Layout, start: Pos, goal: Pos, dist: map<Pos, nat>, prior: map<Pos, Pos>,
                     heap: seq<Entry>, visited: set<Pos>, c: Pos, d: nat, ns: seq<Pos>)
    requires Expanding(l, start, goal, dist, prior, heap, visited, c, d, ns, |ns|)
    ensures Settled(l, start, goal, dist, prior, heap, visited + {c})
  {
    assert Relaxed(l, dist, c);
  }

  /** A neighbour off the grid can only come from a layout that is not closed. */
  lemma LeavesGrid(l: Layout, start: Pos, goal: Pos, dist: map<Pos, nat>, prior: map<Pos, Pos>,
                   heap: seq<Entry>, visited: set<Pos>, c: Pos, d: nat, ns: seq<Pos>, j: nat)
    requires Expanding(l, start, goal, dist, prior, heap, visited, c, d, ns, j)
    requires j < |ns| && !InGrid(l, ns[j])
    ensures !Closed(l)
  {
    if Closed(l) {
      NextStatesAreMoves(l, c.0, c.1, ns[j]);
      var a: Action :| CanMove(l, a, c.0, c.1) && Target(a, c.0, c.1) == ns[j];
      MovesStayInBounds(l, a, c.0, c.1);
    }
  }

  // ---------------------------------------------------------------------
  // What the search concludes

  /** The first cell of `w` outside `s`. */
  ghost function FirstOutside(w: seq<Pos>, s: set<Pos>): (k: nat)
    requires |w| > 0 && w[|w| - 1] !in s
    ensures k < |w| && w[k] !in s
    ensures forall m :: 0 <= m < k ==> w[m] in s
  {
    if w[0] !in s then 0
    else
      var k := FirstOutside(w[1..], s);
      assert forall m :: 1 <= m <= k ==> w[m] == w[1..][m - 1];
      k + 1
  }

  /** Along a walk from the start through visited cells, distances are no longer than the walk. */
  lemma {:induction false} WalkThroughVisited(l: Layout, start: Pos, dist: map<Pos, nat>,
                                              visited: set<Pos>, w: seq<Pos>, j: nat)
    requires start in dist && dist[start] == 0
    requires forall v :: v in visited ==> Relaxed(l, dist, v)
    requires IsWalk(l, w) && w[0] == start && j < |w|
    requires forall m :: 0 <= m < j ==> w[m] in visited
    ensures w[j] in dist && dist[w[j]] <= j
  {
    if j > 0 {
      WalkThroughVisited(l, start, dist, visited, w, j - 1);
      var v := w[j - 1];
      assert Relaxed(l, dist, v);
      assert w[j] in NextStates(l, v.0, v.1);
    }
  }

  /** When the least entry is the unvisited goal, its distance is that of a shortest walk. */
  lemma GoalReached(l: Layout, start: Pos, goal: Pos, dist: map<Pos, nat>, prior: map<Pos, Pos>,
                    heap: seq<Entry>, visited: set<Pos>, i: nat)
    requires Settled(l, start, goal, dist, prior, heap, visited)
    requires |heap| > 0 && i == LeastIndex(heap) && heap[i].1 == goal
    ensures goal in dist && dist[goal] == heap[i].0
    ensures PriorTree(l, start, dist, prior)
    ensures IsShortest(l, start, goal, heap[i].0)
  {
    var d := heap[i].0;
    LeastBelowAll(heap, i);
    assert (dist[goal], goal) in heap;
    assert dist[goal] == d;
    ChainWalk(l, start, dist, prior, goal);
    var path := ChainPath(l, start, dist, prior, goal);
    assert IsWalkBetween(l, path, start, goal) && |path| == d + 1;
    forall w | IsWalkBetween(l, w, start, goal)
      ensures |w| >= d + 1
    {
      var f := FirstOutside(w, visited);
      WalkThroughVisited(l, start, dist, visited, w, f);
      assert (dist[w[f]], w[f]) in heap;
    }
  }

  /** Along a walk from the start, an empty queue leaves no cell unvisited. */
  lemma {:induction false} AllVisited(l: Layout, start: Pos, goal: Pos, dist: map<Pos, nat>, prior: map<Pos, Pos>,
                                      visited: set<Pos>, w: seq<Pos>, j: nat)
    requires Settled(l, start, goal, dist, prior, [], visited)
    requires IsWalk(l, w) && w[0] == start && j < |w|
    ensures w[j] in visited
  {
    if j == 0 {
      assert (dist[start], start) !in [];
    } else {
      AllVisited(l, start, goal, dist, prior, visited, w, j - 1);
      var v := w[j - 1];
      assert Relaxed(l, dist, v);
      assert w[j] in NextStates(l, v.0, v.1);
      assert (dist[w[j]], w[j]) !in [];
    }
  }

  /** An exhausted queue means that the goal cannot be reached. */
  lemma Exhausted(l: Layout, start: Pos, goal: Pos, dist: map<Pos, nat>, prior: map<Pos, Pos>, visited: set<Pos>)
    requires Settled(l, start, goal, dist, prior, [], visited)
    ensures !Connected(l, start, goal)
  {
    forall w | IsWalkBetween(l, w, start, goal)
      ensures false
    {
      AllVisited(l, start, goal, dist, prior, visited, w, |w| - 1);
    }
  }
}
