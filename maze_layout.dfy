/**
  The connectivity encoding of a fixed maze (maze.py). A layout is a
  height-by-width array of integers indexed [y][x]: bit 0 of a cell opens the
  passage east (towards x+1), bit 1 opens the passage north (towards y+1).
  South and west are read from the neighbouring cell, so each passage is
  stored exactly once.
*/
module MazeLayout {

  type Pos = (int, int)

  /**
    The errors the environment raises (ValueError, IndexError, RuntimeError).
    DrawsExhausted stands for a random source that never yields a start cell
    different from the goal, where the environment would keep drawing forever.
  */
  datatype MazeError =
    | RngWithoutSeed
    | NotTwoDimensional
    | WidthTooSmall
    | HeightTooSmall
    | UnknownAlgorithm(name: string)
    | EmptyRange
    | OutOfGrid(at: (int, int))
    | ActionOutOfRange(action: int)
    | NoSolution
    | UnknownMode(mode: string)
    | DrawsExhausted

  /** A numpy 2-D array is rectangular by construction. */
  predicate Rectangular(l: seq<seq<int>>) {
    forall y :: 0 <= y < |l| ==> |l[y]| == |l[0]|
  }

  type Layout = l: seq<seq<int>> | Rectangular(l) witness []

  function Height(l: Layout): nat { |l| }

  function Width(l: Layout): nat { if |l| == 0 then 0 else |l[0]| }

  predicate InBounds(l: Layout, x: int, y: int) {
    0 <= x < Width(l) && 0 <= y < Height(l)
  }

  predicate InGrid(l: Layout, p: Pos) { InBounds(l, p.0, p.1) }

  /** Python's `v & 0x1` and `v & 0x2` on a (two's complement) integer. */
  predicate EastBit(v: int) { v % 2 == 1 }

  predicate NorthBit(v: int) { (v / 2) % 2 == 1 }

  /** Every cell uses only the two connectivity bits. */
  predicate ValuesInRange(l: Layout) {
    forall x, y :: 0 <= x < Width(l) && 0 <= y < Height(l) ==> 0 <= l[y][x] < 4
  }

  function Cell(l: Layout, x: int, y: int): int
    requires InBounds(l, x, y)
  {
    l[y][x]
  }

  predicate CanMoveNorth(l: Layout, x: int, y: int)
    requires InBounds(l, x, y)
  {
    NorthBit(Cell(l, x, y))
  }

  predicate CanMoveEast(l: Layout, x: int, y: int)
    requires InBounds(l, x, y)
  {
    EastBit(Cell(l, x, y))
  }

  predicate CanMoveSouth(l: Layout, x: int, y: int)
    requires InBounds(l, x, y)
  {
    y > 0 && CanMoveNorth(l, x, y - 1)
  }

  predicate CanMoveWest(l: Layout, x: int, y: int)
    requires InBounds(l, x, y)
  {
    x > 0 && CanMoveEast(l, x - 1, y)
  }

  /** The action tables of the environment: 0 north, 1 east, 2 south, 3 west. */
  const DeltaX: seq<int> := [0, 1, 0, -1]
  const DeltaY: seq<int> := [1, 0, -1, 0]

  type Action = a: nat | a < 4

  predicate CanMove(l: Layout, a: Action, x: int, y: int)
    requires InBounds(l, x, y)
  {
    if a == 0 then CanMoveNorth(l, x, y)
    else if a == 1 then CanMoveEast(l, x, y)
    else if a == 2 then CanMoveSouth(l, x, y)
    else CanMoveWest(l, x, y)
  }

  function Target(a: Action, x: int, y: int): Pos {
    (x + DeltaX[a], y + DeltaY[a])
  }

  /** The action that undoes `a`. */
  function Reverse(a: Action): Action { (a + 2) % 4 }

  /** The cells reachable in one move, in the order north, east, south, west. */
  function NextStates(l: Layout, x: int, y: int): seq<Pos>
    requires InBounds(l, x, y)
  {
    (if CanMoveNorth(l, x, y) then [(x, y + 1)] else [])
    + (if CanMoveEast(l, x, y) then [(x + 1, y)] else [])
    + (if CanMoveSouth(l, x, y) then [(x, y - 1)] else [])
    + (if CanMoveWest(l, x, y) then [(x - 1, y)] else [])
  }

  /** The successors used by the shortest-path search are exactly the legal moves of `step`. */
  lemma NextStatesAreMoves(l: Layout, x: int, y: int, p: Pos)
    requires InBounds(l, x, y)
    ensures p in NextStates(l, x, y) <==> exists a: Action :: CanMove(l, a, x, y) && Target(a, x, y) == p
  {
    if p in NextStates(l, x, y) {
      if CanMoveNorth(l, x, y) && p == (x, y + 1) {
        assert CanMove(l, 0, x, y) && Target(0, x, y) == p;
      } else if CanMoveEast(l, x, y) && p == (x + 1, y) {
        assert CanMove(l, 1, x, y) && Target(1, x, y) == p;
      } else if CanMoveSouth(l, x, y) && p == (x, y - 1) {
        assert CanMove(l, 2, x, y) && Target(2, x, y) == p;
      } else {
        assert CanMove(l, 3, x, y) && Target(3, x, y) == p;
      }
    }
  }

  /** No passage leads off the grid: east is closed in the last column, north in the top row. */
  predicate Closed(l: Layout) {
    forall x, y :: 0 <= x < Width(l) && 0 <= y < Height(l) ==>
      (EastBit(Cell(l, x, y)) ==> x < Width(l) - 1) &&
      (NorthBit(Cell(l, x, y)) ==> y < Height(l) - 1)
  }

  /** In a closed layout every legal move stays on the grid. */
  lemma MovesStayInBounds(l: Layout, a: Action, x: int, y: int)
    requires Closed(l) && InBounds(l, x, y) && CanMove(l, a, x, y)
    ensures InGrid(l, Target(a, x, y))
  {
    if a == 0 {
      assert NorthBit(Cell(l, x, y));
    } else if a == 1 {
      assert EastBit(Cell(l, x, y));
    }
  }

  /** Passages are two-way: a legal move is undone by the reverse action. */
  lemma MovesAreReversible(l: Layout, a: Action, x: int, y: int)
    requires InBounds(l, x, y) && CanMove(l, a, x, y)
    requires InGrid(l, Target(a, x, y))
    ensures var (x', y') := Target(a, x, y);
      CanMove(l, Reverse(a), x', y') && Target(Reverse(a), x', y') == (x, y)
  {
  }

  lemma NextStatesSymmetric(l: Layout, p: Pos, q: Pos)
    requires InGrid(l, p) && InGrid(l, q)
    requires q in NextStates(l, p.0, p.1)
    ensures p in NextStates(l, q.0, q.1)
  {
    NextStatesAreMoves(l, p.0, p.1, q);
    var a: Action :| CanMove(l, a, p.0, p.1) && Target(a, p.0, p.1) == q;
    MovesAreReversible(l, a, p.0, p.1);
    NextStatesAreMoves(l, q.0, q.1, p);
  }

  // ---------------------------------------------------------------------
  // Walks through open passages

  predicate IsWalk(l: Layout, w: seq<Pos>) {
    && |w| >= 1
    && (forall i :: 0 <= i < |w| ==> InGrid(l, w[i]))
    && (forall i :: 0 <= i < |w| - 1 ==> w[i + 1] in NextStates(l, w[i].0, w[i].1))
  }

  predicate IsWalkBetween(l: Layout, w: seq<Pos>, p: Pos, q: Pos) {
    IsWalk(l, w) && w[0] == p && w[|w| - 1] == q
  }

  ghost predicate Connected(l: Layout, p: Pos, q: Pos) {
    exists w :: IsWalkBetween(l, w, p, q)
  }

  function Reversed<T>(s: seq<T>): (r: seq<T>)
    ensures |r| == |s|
    ensures forall i :: 0 <= i < |s| ==> r[i] == s[|s| - 1 - i]
  {
    seq(|s|, i requires 0 <= i < |s| => s[|s| - 1 - i])
  }

  lemma ReversedWalk(l: Layout, w: seq<Pos>)
    requires IsWalk(l, w)
    ensures IsWalk(l, Reversed(w))
  {
    var r := Reversed(w);
    forall i | 0 <= i < |r| - 1
      ensures r[i + 1] in NextStates(l, r[i].0, r[i].1)
    {
      var j := |w| - 2 - i;
      assert r[i] == w[j + 1] && r[i + 1] == w[j];
      NextStatesSymmetric(l, w[j], w[j + 1]);
    }
  }

  lemma ConcatWalk(l: Layout, a: seq<Pos>, b: seq<Pos>)
    requires IsWalk(l, a) && IsWalk(l, b) && a[|a| - 1] == b[0]
    ensures IsWalk(l, a + b[1..])
    ensures (a + b[1..])[0] == a[0] && (a + b[1..])[|a + b[1..]| - 1] == b[|b| - 1]
  {
    var c := a + b[1..];
    forall i | 0 <= i < |c| - 1
      ensures c[i + 1] in NextStates(l, c[i].0, c[i].1)
    {
      if i < |a| - 1 {
        assert c[i] == a[i] && c[i + 1] == a[i + 1];
      } else {
        var j := i - (|a| - 1);
        assert c[i] == b[j] && c[i + 1] == b[j + 1];
      }
    }
  }

  /** `w` is a walk, checked one move at a time from its first cell. */
  predicate StepByStep(l: Layout, w: seq<Pos>)
    decreases |w|
  {
    && |w| >= 1 && InGrid(l, w[0])
    && (|w| > 1 ==> w[1] in NextStates(l, w[0].0, w[0].1) && StepByStep(l, w[1..]))
  }

  lemma {:induction false} StepByStepIsWalk(l: Layout, w: seq<Pos>)
    requires StepByStep(l, w)
    ensures IsWalk(l, w)
    decreases |w|
  {
    if |w| > 1 {
      StepByStepIsWalk(l, w[1..]);
      forall i | 0 <= i < |w|
        ensures InGrid(l, w[i])
      {
        if i > 0 {
          assert w[i] == w[1..][i - 1];
        }
      }
      forall i | 0 <= i < |w| - 1
        ensures w[i + 1] in NextStates(l, w[i].0, w[i].1)
      {
        if i > 0 {
          assert w[i] == w[1..][i - 1] && w[i + 1] == w[1..][i];
        }
      }
    }
  }

  /** The number of unit moves between two cells on an open grid: |dx| + |dy|. */
  function Distance(p: Pos, q: Pos): nat {
    (if p.0 <= q.0 then q.0 - p.0 else p.0 - q.0) + (if p.1 <= q.1 then q.1 - p.1 else p.1 - q.1)
  }

  /** Every cell reached in one move lies at distance one. */
  lemma NextStatesAtDistanceOne(l: Layout, x: int, y: int, q: Pos)
    requires InBounds(l, x, y) && q in NextStates(l, x, y)
    ensures Distance((x, y), q) == 1
  {
    NextStatesAreMoves(l, x, y, q);
  }

  /** A walk takes at least as many moves as the distance between its ends. */
  lemma {:induction false} WalkCoversDistance(l: Layout, w: seq<Pos>)
    requires IsWalk(l, w)
    ensures Distance(w[0], w[|w| - 1]) <= |w| - 1
    decreases |w|
  {
    if |w| > 1 {
      var v := w[1..];
      assert IsWalk(l, v) by {
        forall i | 0 <= i < |v| - 1
          ensures v[i + 1] in NextStates(l, v[i].0, v[i].1)
        {
          assert v[i] == w[i + 1] && v[i + 1] == w[i + 2];
        }
      }
      WalkCoversDistance(l, v);
      NextStatesAtDistanceOne(l, w[0].0, w[0].1, w[1]);
      assert v[0] == w[1] && v[|v| - 1] == w[|w| - 1];
    }
  }

  /** Every cell of a walk is no further from either end than the number of moves between them. */
  lemma WalkDistances(l: Layout, w: seq<Pos>, i: nat)
    requires IsWalk(l, w) && i < |w|
    ensures Distance(w[0], w[i]) <= i && Distance(w[i], w[|w| - 1]) <= |w| - 1 - i
  {
    var a, b := w[..i + 1], w[i..];
    assert IsWalk(l, a) by {
      forall j | 0 <= j < |a| - 1
        ensures a[j + 1] in NextStates(l, a[j].0, a[j].1)
      {
        assert a[j] == w[j] && a[j + 1] == w[j + 1];
      }
    }
    assert IsWalk(l, b) by {
      forall j | 0 <= j < |b| - 1
        ensures b[j + 1] in NextStates(l, b[j].0, b[j].1)
      {
        assert b[j] == w[i + j] && b[j + 1] == w[i + j + 1];
      }
    }
    WalkCoversDistance(l, a);
    WalkCoversDistance(l, b);
  }

  lemma ConnectedReflexive(l: Layout, p: Pos)
    requires InGrid(l, p)
    ensures Connected(l, p, p)
  {
    assert IsWalkBetween(l, [p], p, p);
  }

  lemma ConnectedSymmetric(l: Layout, p: Pos, q: Pos)
    requires Connected(l, p, q)
    ensures Connected(l, q, p)
  {
    var w :| IsWalkBetween(l, w, p, q);
    ReversedWalk(l, w);
    assert IsWalkBetween(l, Reversed(w), q, p);
  }

  lemma ConnectedTransitive(l: Layout, p: Pos, q: Pos, r: Pos)
    requires Connected(l, p, q) && Connected(l, q, r)
    ensures Connected(l, p, r)
  {
    var a :| IsWalkBetween(l, a, p, q);
    var b :| IsWalkBetween(l, b, q, r);
    ConcatWalk(l, a, b);
    assert IsWalkBetween(l, a + b[1..], p, r);
  }

  /** `l'` has the same shape as `l` and keeps every passage `l` opens. */
  predicate Widens(l: Layout, l': Layout) {
    && Height(l') == Height(l) && Width(l') == Width(l)
    && forall x, y :: 0 <= x < Width(l) && 0 <= y < Height(l) ==>
         (EastBit(Cell(l, x, y)) ==> EastBit(Cell(l', x, y))) &&
         (NorthBit(Cell(l, x, y)) ==> NorthBit(Cell(l', x, y)))
  }

  lemma WidenedWalk(l: Layout, l': Layout, w: seq<Pos>)
    requires Widens(l, l') && IsWalk(l, w)
    ensures IsWalk(l', w)
  {
    forall i | 0 <= i < |w| - 1
      ensures w[i + 1] in NextStates(l', w[i].0, w[i].1)
    {
      var (x, y) := w[i];
      assert w[i + 1] in NextStates(l, x, y);
    }
  }

  lemma WidenedConnected(l: Layout, l': Layout, p: Pos, q: Pos)
    requires Widens(l, l') && Connected(l, p, q)
    ensures Connected(l', p, q)
  {
    var w :| IsWalkBetween(l, w, p, q);
    WidenedWalk(l, l', w);
    assert IsWalkBetween(l', w, p, q);
  }
}
