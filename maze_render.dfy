/**
  The text rendering of a fixed maze (maze.py, `_render_ansi`). Every maze
  cell becomes a 2x2 block of characters: the upper row shows the wall to the
  north, the lower row the cell's content and the wall to the east. A border
  column of '*' runs down the left side and a bottom border row closes the
  picture. Rows are printed from the top of the maze (y = height-1) down.
*/
module MazeRender {
  import opened MazeLayout

  // `_walls1` and `_walls2` are indexed by the raw cell value, so rendering
  // needs ValuesInRange.

  /** The lower half of a block, indexed by value + 4*agent_here + 8*goal_here. */
  const Walls1: seq<string> := [
    " *", "  ", " *", "  ",
    "#*", "# ", "#*", "# ",
    "$*", "$ ", "$*", "$ ",
    "!*", "! ", "!*", "! "]

  /** The upper half of a block, indexed by the cell value. */
  const Walls2: seq<string> := ["**", "**", " *", " *"]

  function Wall1Index(l: Layout, agent: Pos, goal: Pos, y: int, x: int): int
    requires InBounds(l, x, y)
  {
    Cell(l, x, y) + (if (x, y) == agent then 4 else 0) + (if (x, y) == goal then 8 else 0)
  }

  /** Python's `''.join(...)`. */
  function Concat(ss: seq<string>): string {
    if |ss| == 0 then "" else ss[0] + Concat(ss[1..])
  }

  /** Python's `'\n'.join(...)`. */
  function JoinLines(ss: seq<string>): string {
    if |ss| == 0 then ""
    else if |ss| == 1 then ss[0]
    else ss[0] + "\n" + JoinLines(ss[1..])
  }

  function Repeat(s: string, n: nat): string {
    if n == 0 then "" else s + Repeat(s, n - 1)
  }

  function UpperBlocks(l: Layout, y: int): (ss: seq<string>)
    requires ValuesInRange(l) && 0 <= y < Height(l)
    ensures |ss| == Width(l)
  {
    seq(Width(l), x requires 0 <= x < Width(l) => Walls2[Cell(l, x, y)])
  }

  function LowerBlocks(l: Layout, agent: Pos, goal: Pos, y: int): (ss: seq<string>)
    requires ValuesInRange(l) && 0 <= y < Height(l)
    ensures |ss| == Width(l)
  {
    seq(Width(l), x requires 0 <= x < Width(l) => Walls1[Wall1Index(l, agent, goal, y, x)])
  }

  function UpperRow(l: Layout, y: int): string
    requires ValuesInRange(l) && 0 <= y < Height(l)
  {
    Concat(UpperBlocks(l, y))
  }

  function LowerRow(l: Layout, agent: Pos, goal: Pos, y: int): string
    requires ValuesInRange(l) && 0 <= y < Height(l)
  {
    Concat(LowerBlocks(l, agent, goal, y))
  }

  function Walls(l: Layout, agent: Pos, goal: Pos, y: int): string
    requires ValuesInRange(l) && 0 <= y < Height(l)
  {
    "*" + UpperRow(l, y) + "\n*" + LowerRow(l, agent, goal, y)
  }

  function BottomRow(l: Layout): string {
    "*" + Repeat("**", Width(l))
  }

  /** One `walls(y)` per maze row, top row first. */
  function Blocks(l: Layout, agent: Pos, goal: Pos): (bs: seq<string>)
    requires ValuesInRange(l)
    ensures |bs| == Height(l)
  {
    seq(Height(l), k requires 0 <= k < Height(l) => Walls(l, agent, goal, Height(l) - 1 - k))
  }

  /** `_render_ansi`, as the source builds it. */
  function RenderAnsi(l: Layout, agent: Pos, goal: Pos): string
    requires ValuesInRange(l)
  {
    JoinLines(Blocks(l, agent, goal)) + "\n" + BottomRow(l)
  }

  // ---------------------------------------------------------------------
  // The picture, described character by character

  function Content(isAgent: bool, isGoal: bool): char {
    if isAgent && isGoal then '!' else if isAgent then '#' else if isGoal then '$' else ' '
  }

  /**
    The character at line `r`, column `c` of the picture: line 2k is the
    north wall of maze row height-1-k, line 2k+1 its cells, line 2*height the
    bottom border; column 0 is the left border, columns 2x+1 and 2x+2 belong
    to maze column x.
  */
  function ExpectedChar(l: Layout, agent: Pos, goal: Pos, r: nat, c: nat): char
    requires r <= 2 * Height(l) && c <= 2 * Width(l)
  {
    if r == 2 * Height(l) || c == 0 then '*'
    else
      var y := Height(l) - 1 - r / 2;
      var x := (c - 1) / 2;
      if r % 2 == 0 then
        if c % 2 == 1 && NorthBit(Cell(l, x, y)) then ' ' else '*'
      else if c % 2 == 1 then Content((x, y) == agent, (x, y) == goal)
      else if EastBit(Cell(l, x, y)) then ' ' else '*'
  }

  /** The lines of the picture, built from the reference description. */
  function Lines(l: Layout, agent: Pos, goal: Pos): (ls: seq<string>)
    ensures |ls| == 2 * Height(l) + 1
  {
    seq(2 * Height(l) + 1, r requires 0 <= r <= 2 * Height(l) =>
      seq(2 * Width(l) + 1, c requires 0 <= c <= 2 * Width(l) => ExpectedChar(l, agent, goal, r, c)))
  }

  lemma ConcatOfPairs(ss: seq<string>, x: nat, j: nat)
    requires forall i :: 0 <= i < |ss| ==> |ss[i]| == 2
    requires x < |ss| && j < 2
    ensures |Concat(ss)| == 2 * |ss|
    ensures Concat(ss)[2 * x + j] == ss[x][j]
  {
    if x > 0 {
      ConcatOfPairs(ss[1..], x - 1, j);
    } else if 1 < |ss| {
      ConcatOfPairs(ss[1..], 0, j);
    }
  }

  lemma {:induction false} ConcatLength(ss: seq<string>)
    requires forall i :: 0 <= i < |ss| ==> |ss[i]| == 2
    ensures |Concat(ss)| == 2 * |ss|
  {
    if |ss| > 0 {
      ConcatLength(ss[1..]);
    }
  }

  lemma {:induction false} RepeatStars(n: nat)
    ensures |Repeat("**", n)| == 2 * n
    ensures forall i :: 0 <= i < 2 * n ==> Repeat("**", n)[i] == '*'
  {
    if n > 0 {
      RepeatStars(n - 1);
      assert Repeat("**", n) == "**" + Repeat("**", n - 1);
    }
  }

  /** The upper half of a block: the north wall, open or closed, and the corner. */
  lemma Walls2Entry(v: int)
    requires 0 <= v < 4
    ensures |Walls2[v]| == 2 && Walls2[v][0] == (if NorthBit(v) then ' ' else '*') && Walls2[v][1] == '*'
  {
  }

  /** The lower half of a block: the cell's content, then the east wall, open or closed. */
  lemma Walls1Entry(v: int, isAgent: bool, isGoal: bool)
    requires 0 <= v < 4
    ensures var i := v + (if isAgent then 4 else 0) + (if isGoal then 8 else 0);
      |Walls1[i]| == 2 && Walls1[i][0] == Content(isAgent, isGoal)
      && Walls1[i][1] == (if EastBit(v) then ' ' else '*')
  {
    if isAgent {
      if isGoal {
        assert v in {0, 1, 2, 3};
      } else {
        assert v in {0, 1, 2, 3};
      }
    } else {
      if isGoal {
        assert v in {0, 1, 2, 3};
      } else {
        assert v in {0, 1, 2, 3};
      }
    }
  }

  /** Line r of the picture is 2*width+1 characters, each the one ExpectedChar describes. */
  lemma LineChars(l: Layout, agent: Pos, goal: Pos, r: nat)
    requires r <= 2 * Height(l)
    ensures |Lines(l, agent, goal)[r]| == 2 * Width(l) + 1
    ensures forall c :: 0 <= c <= 2 * Width(l) ==> Lines(l, agent, goal)[r][c] == ExpectedChar(l, agent, goal, r, c)
  {
  }

  /** The two characters of maze cell (x, height-1-k) on the upper line 2k: north wall, corner. */
  lemma UpperChar(l: Layout, agent: Pos, goal: Pos, k: nat, x: nat, j: nat)
    requires k < Height(l) && x < Width(l) && j < 2
    ensures ExpectedChar(l, agent, goal, 2 * k, 2 * x + 1 + j) ==
      if j == 0 && NorthBit(Cell(l, x, Height(l) - 1 - k)) then ' ' else '*'
  {
    assert (2 * k) / 2 == k && (2 * k) % 2 == 0;
    assert (2 * x + j) / 2 == x && (2 * x + 1 + j) % 2 == 1 - j;
  }

  /** The two characters of maze cell (x, height-1-k) on the lower line 2k+1: content, east wall. */
  lemma LowerChar(l: Layout, agent: Pos, goal: Pos, k: nat, x: nat, j: nat)
    requires k < Height(l) && x < Width(l) && j < 2
    ensures var y := Height(l) - 1 - k;
      ExpectedChar(l, agent, goal, 2 * k + 1, 2 * x + 1 + j) ==
      if j == 0 then Content((x, y) == agent, (x, y) == goal)
      else if EastBit(Cell(l, x, y)) then ' ' else '*'
  {
    assert (2 * k + 1) / 2 == k && (2 * k + 1) % 2 == 1;
    assert (2 * x + j) / 2 == x && (2 * x + 1 + j) % 2 == 1 - j;
  }

  /** A border star followed by the blocks of a row, when each block's two characters are the line's. */
  lemma LineFromBlocks(ss: seq<string>, t: string)
    requires forall i :: 0 <= i < |ss| ==> |ss[i]| == 2
    requires |t| == 2 * |ss| + 1 && t[0] == '*'
    requires forall x, j :: 0 <= x < |ss| && 0 <= j < 2 ==> t[2 * x + 1 + j] == ss[x][j]
    ensures "*" + Concat(ss) == t
  {
    ConcatLength(ss);
    var s := "*" + Concat(ss);
    forall c | 0 < c < |s|
      ensures s[c] == t[c]
    {
      var x, j := (c - 1) / 2, (c - 1) % 2;
      ConcatOfPairs(ss, x, j);
      assert c == 2 * x + 1 + j;
    }
  }

  lemma UpperRowChars(l: Layout, agent: Pos, goal: Pos, k: nat)
    requires ValuesInRange(l) && k < Height(l)
    ensures "*" + UpperRow(l, Height(l) - 1 - k) == Lines(l, agent, goal)[2 * k]
  {
    var y := Height(l) - 1 - k;
    var ss := UpperBlocks(l, y);
    var t := Lines(l, agent, goal)[2 * k];
    LineChars(l, agent, goal, 2 * k);
    forall x, j | 0 <= x < |ss| && 0 <= j < 2
      ensures t[2 * x + 1 + j] == ss[x][j]
    {
      UpperChar(l, agent, goal, k, x, j);
      Walls2Entry(Cell(l, x, y));
    }
    forall i | 0 <= i < |ss|
      ensures |ss[i]| == 2
    {
      Walls2Entry(Cell(l, i, y));
    }
    LineFromBlocks(ss, t);
  }

  lemma LowerRowChars(l: Layout, agent: Pos, goal: Pos, k: nat)
    requires ValuesInRange(l) && k < Height(l)
    ensures "*" + LowerRow(l, agent, goal, Height(l) - 1 - k) == Lines(l, agent, goal)[2 * k + 1]
  {
    var y := Height(l) - 1 - k;
    var ss := LowerBlocks(l, agent, goal, y);
    var t := Lines(l, agent, goal)[2 * k + 1];
    LineChars(l, agent, goal, 2 * k + 1);
    forall x, j | 0 <= x < |ss| && 0 <= j < 2
      ensures t[2 * x + 1 + j] == ss[x][j]
    {
      LowerChar(l, agent, goal, k, x, j);
      Walls1Entry(Cell(l, x, y), (x, y) == agent, (x, y) == goal);
    }
    forall i | 0 <= i < |ss|
      ensures |ss[i]| == 2
    {
      Walls1Entry(Cell(l, i, y), (i, y) == agent, (i, y) == goal);
    }
    LineFromBlocks(ss, t);
  }

  lemma BottomRowChars(l: Layout, agent: Pos, goal: Pos)
    ensures BottomRow(l) == Lines(l, agent, goal)[2 * Height(l)]
  {
    RepeatStars(Width(l));
  }

  lemma {:induction false} JoinLinesAppend(a: seq<string>, b: seq<string>)
    requires |a| > 0 && |b| > 0
    ensures JoinLines(a + b) == JoinLines(a) + "\n" + JoinLines(b)
  {
    if |a| == 1 {
      assert (a + b)[1..] == b;
    } else {
      assert (a + b)[1..] == a[1..] + b;
      JoinLinesAppend(a[1..], b);
    }
  }

  lemma BlockIsTwoLines(l: Layout, agent: Pos, goal: Pos, k: nat)
    requires ValuesInRange(l) && k < Height(l)
    ensures Blocks(l, agent, goal)[k] == JoinLines(Lines(l, agent, goal)[2 * k .. 2 * k + 2])
  {
    var ls := Lines(l, agent, goal);
    UpperRowChars(l, agent, goal, k);
    LowerRowChars(l, agent, goal, k);
    var y := Height(l) - 1 - k;
    assert Blocks(l, agent, goal)[k] == Walls(l, agent, goal, y);
    assert Walls(l, agent, goal, y) == ("*" + UpperRow(l, y)) + "\n" + ("*" + LowerRow(l, agent, goal, y));
    var two := ls[2 * k .. 2 * k + 2];
    assert two == [ls[2 * k], ls[2 * k + 1]];
    assert two[1..] == [ls[2 * k + 1]];
    assert JoinLines(two) == ls[2 * k] + "\n" + JoinLines(two[1..]);
  }

  /** The blocks from row index `k` on, joined as the source joins them, are lines 2k.. of the picture. */
  lemma {:induction false} RowsFrom(l: Layout, agent: Pos, goal: Pos, k: nat)
    requires ValuesInRange(l) && k < Height(l)
    ensures JoinLines(Blocks(l, agent, goal)[k..]) == JoinLines(Lines(l, agent, goal)[2 * k .. 2 * Height(l)])
    decreases Height(l) - k
  {
    var h := Height(l);
    var bs := Blocks(l, agent, goal);
    var ls := Lines(l, agent, goal);
    BlockIsTwoLines(l, agent, goal, k);
    if k == h - 1 {
      assert bs[k..] == [bs[k]];
      assert ls[2 * k .. 2 * h] == ls[2 * k .. 2 * k + 2];
    } else {
      RowsFrom(l, agent, goal, k + 1);
      assert bs[k..] == [bs[k]] + bs[k + 1..];
      assert JoinLines(bs[k..]) == bs[k] + "\n" + JoinLines(bs[k + 1..]);
      assert ls[2 * k .. 2 * h] == ls[2 * k .. 2 * k + 2] + ls[2 * (k + 1) .. 2 * h];
      JoinLinesAppend(ls[2 * k .. 2 * k + 2], ls[2 * (k + 1) .. 2 * h]);
    }
  }

  /**
    The string `_render_ansi` builds is the picture described by
    ExpectedChar: 2*height+1 lines of 2*width+1 characters joined by '\n',
    top maze row first, with the bottom border last. A maze without rows
    renders as a line break followed by the bottom border.
  */
  lemma RenderMatchesPicture(l: Layout, agent: Pos, goal: Pos)
    requires ValuesInRange(l)
    ensures RenderAnsi(l, agent, goal) == (if Height(l) == 0 then "\n" else "") + JoinLines(Lines(l, agent, goal))
  {
    var h := Height(l);
    var ls := Lines(l, agent, goal);
    var bs := Blocks(l, agent, goal);
    BottomRowChars(l, agent, goal);
    if h == 0 {
      assert ls == [BottomRow(l)];
      assert bs == [];
    } else {
      RowsFrom(l, agent, goal, 0);
      assert bs[0..] == bs;
      assert ls == ls[0 .. 2 * h] + [ls[2 * h]];
      JoinLinesAppend(ls[0 .. 2 * h], [ls[2 * h]]);
    }
  }

  /** Every line has 2*width+1 characters and none contains a line break. */
  lemma LinesShape(l: Layout, agent: Pos, goal: Pos, r: nat)
    requires r < 2 * Height(l) + 1
    ensures |Lines(l, agent, goal)[r]| == 2 * Width(l) + 1
    ensures '\n' !in Lines(l, agent, goal)[r]
    ensures Lines(l, agent, goal)[r][0] == '*'
  {
  }

  /** The agent's cell shows '#' ('!' when it is also the goal), the goal's '$'. */
  lemma ContentGlyphs(l: Layout, agent: Pos, goal: Pos, x: nat, y: nat)
    requires InBounds(l, x, y)
    ensures var ch := Lines(l, agent, goal)[2 * (Height(l) - 1 - y) + 1][2 * x + 1];
      && (ch == '#' <==> (x, y) == agent && (x, y) != goal)
      && (ch == '$' <==> (x, y) == goal && (x, y) != agent)
      && (ch == '!' <==> (x, y) == agent && (x, y) == goal)
      && (ch == ' ' <==> (x, y) != agent && (x, y) != goal)
  {
    var r := 2 * (Height(l) - 1 - y) + 1;
    assert r / 2 == Height(l) - 1 - y;
    assert (2 * x + 1 - 1) / 2 == x;
  }

  /** The three-by-four maze of the test suite, rows indexed by y. */
  const SampleLayout: Layout := [[3, 3, 3, 2], [2, 0, 2, 0], [0, 1, 1, 0]]

  lemma SampleInRange()
    ensures ValuesInRange(SampleLayout)
  {
  }

  lemma SampleUpperLines()
    ensures Lines(SampleLayout, (0, 0), (3, 2))[..4] == ["*********", "* *    $*", "* *** ***", "* * * * *"]
  {
    var ls := Lines(SampleLayout, (0, 0), (3, 2));
    assert ls[0] == "*********";
    assert ls[1] == "* *    $*";
    assert ls[2] == "* *** ***";
    assert ls[3] == "* * * * *";
  }

  lemma SampleLowerLines()
    ensures Lines(SampleLayout, (0, 0), (3, 2))[4..] == ["* * * * *", "*#      *", "*********"]
  {
    var ls := Lines(SampleLayout, (0, 0), (3, 2));
    assert ls[4] == "* * * * *";
    assert ls[5] == "*#      *";
    assert ls[6] == "*********";
  }

  /**
    The picture the test suite expects for that maze with the agent at (0, 0)
    and the goal at (3, 2), written as its seven lines joined by '\n'.
  */
  lemma SampleRendering()
    ensures ValuesInRange(SampleLayout)
    ensures RenderAnsi(SampleLayout, (0, 0), (3, 2)) == JoinLines([
      "*********",
      "* *    $*",
      "* *** ***",
      "* * * * *",
      "* * * * *",
      "*#      *",
      "*********"])
  {
    SampleInRange();
    RenderMatchesPicture(SampleLayout, (0, 0), (3, 2));
    SampleUpperLines();
    SampleLowerLines();
    var ls := Lines(SampleLayout, (0, 0), (3, 2));
    assert ls == ls[..4] + ls[4..];
    assert Height(SampleLayout) == 3;
    assert ls == ["*********", "* *    $*", "* *** ***", "* * * * *", "* * * * *", "*#      *", "*********"];
  }
}
