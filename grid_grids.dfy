/**
  Cell grids of the generic grid world (grids.py): a rectangular array of
  cells with rows along y and columns along x, a boundary cell that stands for
  everything outside it, and a limbo cell for things that are nowhere.
*/
module Grids {
  import opened Wrappers
  import opened GridCore

  /** numpy raising IndexError for an index past the end of an axis. */
  datatype IndexError = IndexError

  datatype Grid<C> = Grid(cells: seq<seq<C>>, boundary: C, limbo: C) {

    /** A numpy 2-D array: every row has the same length. */
    predicate Rectangular() {
      forall r :: 0 <= r < |cells| ==> |cells[r]| == |cells[0]|
    }

    // `max_y` is declared under a malformed `@property:` decorator; it is modelled as the property it was meant to be.

    /** `shape[0]`: the number of rows. */
    function Height(): nat { |cells| }

    /** `shape[1]`: the number of columns. */
    function Width(): nat { if |cells| == 0 then 0 else |cells[0]| }

    function MinX(): int { 0 }

    function MaxX(): int { Width() }

    function MinY(): int { 0 }

    function MaxY(): int { Height() }

    /** `bounds`: the origin and the array's shape (rows, columns). */
    function Bounds(): ((int, int), (int, int)) { ((0, 0), (Height(), Width())) }

    function Limbo(): C { limbo }

    predicate InBounds(x: int, y: int) {
      0 <= x < Width() && 0 <= y < Height()
    }

    /** `grid[x, y]`, reading the stored cell at row y and column x (the documented layout). */
    function Get(x: int, y: int): C
      requires Rectangular()
    {
      if InBounds(x, y) then cells[y][x] else boundary
    }

    /**
      `grid[x, y]` as written: the bounds test takes x against the columns
      and y against the rows, but the array is then indexed with x as the row.
    */
    function GetAsWritten(x: int, y: int): (r: Result<C, IndexError>)
      requires Rectangular()
    {
      if InBounds(x, y) then
        if x < Height() && y < Width() then Success(cells[x][y]) else Failure(IndexError)
      else Success(boundary)
    }
  }

  /** grids.py's own `_Direction`: a named step (dx, dy), without an opposite. */
  datatype Heading = Heading(name: string, dx: int, dy: int) {
    function Coordinates(x: int, y: int): (int, int) { (x + dx, y + dy) }
  }

  /**
    grids.py's `_Direction.next_cell`.  Both copies of `next_cell` call the
    misspelt `coordindates`; the model calls `coordinates`, as intended.
  */
  function HeadingNextCell<C>(g: Grid<C>, h: Heading, x: int, y: int): C
    requires g.Rectangular()
  {
    var (x', y') := h.Coordinates(x, y);
    g.Get(x', y')
  }

  /** `_Direction.next_cell`: the grid's cell one step away from (x, y). */
  function NextCell<C>(g: Grid<C>, d: Direction, x: int, y: int): C
    requires g.Rectangular()
  {
    var (x', y') := d.Coordinates(x, y);
    g.Get(x', y')
  }

  /** A heading built from a core direction steps, and finds the next cell, exactly as that direction does. */
  lemma HeadingAgrees<C>(g: Grid<C>, d: Direction, x: int, y: int)
    requires g.Rectangular()
    ensures Heading(d.Name(), d.Dx(), d.Dy()).Coordinates(x, y) == d.Coordinates(x, y)
    ensures HeadingNextCell(g, Heading(d.Name(), d.Dx(), d.Dy()), x, y) == NextCell(g, d, x, y)
  {
  }

  /** Looking back the opposite way from the next cell's coordinates finds the cell at the start. */
  lemma NextCellLooksBack<C>(g: Grid<C>, d: Direction, x: int, y: int)
    requires g.Rectangular()
    ensures var (x', y') := d.Coordinates(x, y); NextCell(g, d.Opposite(), x', y') == g.Get(x, y)
  {
    CoordinatesRoundTrip(d, x, y);
  }

  /** Every coordinate off the grid, however far, yields the one shared boundary cell. */
  lemma OutsideIsBoundary<C>(g: Grid<C>, x: int, y: int)
    requires g.Rectangular()
    requires x < g.MinX() || x >= g.MaxX() || y < g.MinY() || y >= g.MaxY()
    ensures g.Get(x, y) == g.boundary
  {
  }

  /** The shape accessors agree with each other. */
  lemma ShapeAccessors<C>(g: Grid<C>)
    ensures g.Width() == g.MaxX() && g.Height() == g.MaxY()
    ensures g.MinX() == 0 && g.MinY() == 0
    ensures g.Bounds() == ((g.MinX(), g.MinY()), (g.MaxY(), g.MaxX()))
    ensures g.InBounds(0, 0) <==> g.Width() > 0 && g.Height() > 0
  {
  }

  /** As written, a cell inside a grid wider than it is high raises IndexError. */
  lemma GetAsWrittenFailsOnWideGrid<C>(a: C, b: C, boundary: C, limbo: C)
    ensures var g := Grid([[a, b]], boundary, limbo);
      g.Rectangular() && g.InBounds(1, 0) && g.GetAsWritten(1, 0) == Failure(IndexError)
  {
  }

  /** As written, a square grid yields the cell at row x, column y, the transposed one. */
  lemma GetAsWrittenTransposes<C>(a: C, b: C, c: C, d: C, boundary: C, limbo: C)
    requires b != c
    ensures var g := Grid([[a, b], [c, d]], boundary, limbo);
      g.Rectangular() && g.GetAsWritten(1, 0) == Success(c) && g.Get(1, 0) == b
  {
  }

  /**
    Corrected: a grid laid out row by row from a description f(x, y) of its
    cells answers f(x, y) at every coordinate inside it and the boundary cell
    everywhere else.
  */
  lemma GetTotalInside<C>(w: nat, h: nat, f: (int, int) -> C, boundary: C, limbo: C, x: int, y: int)
    ensures var g := Grid(seq(h, j => seq(w, i => f(i, j))), boundary, limbo);
      g.Rectangular() && g.Height() == h && (h > 0 ==> g.Width() == w)
      && (0 <= x < w && 0 <= y < h ==> g.Get(x, y) == f(x, y))
      && (!(0 <= x < w && 0 <= y < h) ==> g.Get(x, y) == boundary)
  {
  }
}
