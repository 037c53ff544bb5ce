/**
  Random maze generation by Kruskal's algorithm (maze.py,
  `_generate_random_maze_kruskal`). The cells of a width-by-height maze are
  numbered y*width + x. Each cell starts in a tree of its own; the trees are
  kept as linked lists threaded through the arrays `first` (head of each
  tree's list, -1 when the tree is gone) and `next` (successor of a cell,
  -1 at the end). The candidate passages ("edges") are visited in the order
  of a random permutation; a passage between cells of different trees is
  opened and the larger-numbered tree is relabelled into the smaller.
*/
module MazeKruskal {
  import opened Wrappers
  import opened MazeLayout

  // ---------------------------------------------------------------------
  // Edges and their numbering

  /** The number of candidate passages: (w-1)*h eastward plus w*(h-1) northward. */
  function NumEdges(w: int, h: int): int { 2 * w * h - w - h }

  /** Edge numbers per maze row: w-1 eastward passages, then w northward ones. */
  function RowStride(w: int): int { 2 * w - 1 }

  /** The passage that bit `flag` (1 east, 2 north) of cell (x, y) opens. */
  datatype Edge = Edge(x: int, y: int, flag: int)

  predicate ValidEdge(w: int, h: int, ed: Edge) {
    || (ed.flag == 1 && 0 <= ed.x < w - 1 && 0 <= ed.y < h)
    || (ed.flag == 2 && 0 <= ed.x < w && 0 <= ed.y < h - 1)
  }

  /** How the loop body turns an edge number into a cell and a flag. */
  function DecodeEdge(w: int, e: int): Edge
    requires w >= 1
  {
    var y := e / RowStride(w);
    var x := e % RowStride(w);
    if x < w - 1 then Edge(x, y, 1) else Edge(x - (w - 1), y, 2)
  }

  /** The edge number of a passage, the inverse of DecodeEdge. */
  function EncodeEdge(w: int, ed: Edge): int {
    ed.y * RowStride(w) + (if ed.flag == 1 then ed.x else ed.x + (w - 1))
  }

  /** The two cells an edge joins, as cell numbers: (x, y) and its east or north neighbour. */
  function EdgeFrom(w: int, ed: Edge): int { ed.y * w + ed.x }

  function EdgeTo(w: int, ed: Edge): int { EdgeFrom(w, ed) + (if ed.flag == 1 then 1 else w) }

  /** The position of cell number c. */
  function PosOf(w: int, c: int): Pos
    requires w >= 1
  {
    (c % w, c / w)
  }

  lemma {:induction false} MulAtLeast(a: int, d: int)
    requires a >= 1 && d > 0
    ensures a * d >= d
    decreases a
  {
    if a > 1 {
      MulAtLeast(a - 1, d);
      assert a * d == (a - 1) * d + d;
    }
  }

  lemma DivModUnique(q: int, d: int, r: int)
    requires d > 0 && 0 <= r < d
    ensures (q * d + r) / d == q && (q * d + r) % d == r
  {
    var e := q * d + r;
    var q', r' := e / d, e % d;
    assert q' * d + r' == e;
    if q' > q {
      MulLess(q, q', d);
    } else if q' < q {
      MulLess(q', q, d);
    }
  }

  lemma MulLess(a: int, b: int, d: int)
    requires a < b && d > 0
    ensures a * d + d <= b * d
  {
    MulAtLeast(b - a, d);
    assert (b - a) * d == b * d - a * d;
  }

  lemma MulLe(a: int, b: int, d: int)
    requires a <= b && d > 0
    ensures a * d <= b * d
  {
    if a < b {
      MulLess(a, b, d);
    }
  }

  lemma PosOfCell(w: int, x: int, y: int)
    requires w >= 1 && 0 <= x < w
    ensures PosOf(w, y * w + x) == (x, y)
  {
    DivModUnique(y, w, x);
  }

  /** Every edge number below NumEdges names a passage inside the maze, and encodes back to itself. */
  lemma DecodeEdgeValid(w: int, h: int, e: int)
    requires w >= 1 && h >= 1 && 0 <= e < NumEdges(w, h)
    ensures ValidEdge(w, h, DecodeEdge(w, e))
    ensures EncodeEdge(w, DecodeEdge(w, e)) == e
  {
    var s := RowStride(w);
    var y, x := e / s, e % s;
    RowsTimesStride(w, h);
    RowOfEdge(NumEdges(w, h), w, h, s, e, y, x);
  }

  /** The edge numbers of h rows fill h strides but for the last w northward ones. */
  lemma RowsTimesStride(w: int, h: int)
    ensures h * RowStride(w) == NumEdges(w, h) + w
    ensures (h - 1) * RowStride(w) == NumEdges(w, h) - (w - 1)
  {
  }

  /** Edge number e = y*s + x lies in row y < h, and a northward one in a row below the top. */
  lemma RowOfEdge(m: int, w: int, h: int, s: int, e: int, y: int, x: int)
    requires w >= 1 && s == 2 * w - 1 && 0 <= e < m && e == y * s + x && 0 <= x < s
    requires h * s == m + w && (h - 1) * s == m - (w - 1)
    ensures 0 <= y < h && (x >= w - 1 ==> y < h - 1)
  {
    if y < 0 {
      MulLess(y, 0, s);
    }
    if y >= h {
      MulLe(h, y, s);
    }
    if x >= w - 1 && y >= h - 1 {
      MulLe(h - 1, y, s);
    }
  }

  /** Every passage inside the maze has an edge number below NumEdges that decodes to it. */
  lemma EncodeEdgeValid(w: int, h: int, ed: Edge)
    requires w >= 1 && h >= 1 && ValidEdge(w, h, ed)
    ensures 0 <= EncodeEdge(w, ed) < NumEdges(w, h)
    ensures DecodeEdge(w, EncodeEdge(w, ed)) == ed
  {
    var s := RowStride(w);
    var r := if ed.flag == 1 then ed.x else ed.x + (w - 1);
    DivModUnique(ed.y, s, r);
    RowsTimesStride(w, h);
    NumberOfEdge(NumEdges(w, h), w, h, s, ed.y, r, ed.y * s + r);
  }

  /** The number y*s + r of a passage in row y, at offset r of its row, is below NumEdges. */
  lemma NumberOfEdge(m: int, w: int, h: int, s: int, y: int, r: int, e: int)
    requires w >= 1 && s == 2 * w - 1 && 0 <= r < s && e == y * s + r && 0 <= y < h
    requires r >= w - 1 ==> y < h - 1
    requires (h - 1) * s == m - (w - 1)
    ensures 0 <= e < m
  {
    MulLe(0, y, s);
    if r < w - 1 {
      MulLe(y, h - 1, s);
    } else {
      MulLe(y + 1, h - 1, s);
      assert (y + 1) * s == y * s + s;
    }
  }

  /** Distinct edge numbers decode to distinct passages. */
  lemma DecodeEdgeInjective(w: int, h: int, e: int, e': int)
    requires w >= 1 && h >= 1 && 0 <= e < NumEdges(w, h) && 0 <= e' < NumEdges(w, h)
    requires DecodeEdge(w, e) == DecodeEdge(w, e')
    ensures e == e'
  {
    DecodeEdgeValid(w, h, e);
    DecodeEdgeValid(w, h, e');
  }

  /** The cells an edge joins are neighbours in the maze, east or north of each other. */
  lemma EdgeEnds(w: int, h: int, ed: Edge)
    requires w >= 1 && ValidEdge(w, h, ed)
    ensures 0 <= EdgeFrom(w, ed) < w * h && 0 <= EdgeTo(w, ed) < w * h
    ensures PosOf(w, EdgeFrom(w, ed)) == (ed.x, ed.y)
    ensures PosOf(w, EdgeTo(w, ed)) == if ed.flag == 1 then (ed.x + 1, ed.y) else (ed.x, ed.y + 1)
  {
    var c, d := EdgeFrom(w, ed), EdgeTo(w, ed);
    CellNumber(w, h, ed.x, ed.y, c);
    if ed.flag == 1 {
      CellNumber(w, h, ed.x + 1, ed.y, d);
    } else {
      NextRow(w, ed.y, c, d);
      CellNumber(w, h, ed.x, ed.y + 1, d);
    }
  }

  /** Cell number c = y*w + x of a cell inside the maze is below w*h and names (x, y). */
  lemma CellNumber(w: int, h: int, x: int, y: int, c: int)
    requires 0 <= x < w && 0 <= y < h && c == y * w + x
    ensures 0 <= c < w * h && PosOf(w, c) == (x, y)
  {
    CellBelow(w, h, x, y);
    PosOfCell(w, x, y);
  }

  lemma NextRow(w: int, y: int, c: int, d: int)
    requires d == c + w
    ensures d - ((y + 1) * w) == c - y * w
  {
  }

  lemma CellBelow(w: int, h: int, x: int, y: int)
    requires 0 <= x < w && 0 <= y < h
    ensures 0 <= y * w + x < w * h
  {
    MulAtLeast(h - y, w);
    assert (h - y) * w == w * h - y * w;
  }

  /** `layout[y, x] |= flag` for flag 1 or 2, on a two's-complement integer. */
  function SetBit(v: int, flag: int): int {
    if (flag == 1 && EastBit(v)) || (flag == 2 && NorthBit(v)) then v else v + flag
  }

  lemma SetBitBits(v: int, flag: int)
    requires flag == 1 || flag == 2
    ensures EastBit(SetBit(v, flag)) == (EastBit(v) || flag == 1)
    ensures NorthBit(SetBit(v, flag)) == (NorthBit(v) || flag == 2)
    ensures 0 <= v < 4 ==> 0 <= SetBit(v, flag) < 4
  {
  }

  /** The bit that opens the passage `ed` is set in layout `l`. */
  predicate EdgeOpen(l: Layout, ed: Edge) {
    InBounds(l, ed.x, ed.y) && (if ed.flag == 1 then EastBit(Cell(l, ed.x, ed.y)) else NorthBit(Cell(l, ed.x, ed.y)))
  }

  /** The numbers of the passages `l` opens. */
  ghost function OpenEdges(l: Layout): set<int> {
    set e | 0 <= e < NumEdges(Width(l), Height(l)) && Width(l) >= 1 && EdgeOpen(l, DecodeEdge(Width(l), e))
  }

  // ---------------------------------------------------------------------
  // The trees as linked lists

  /**
    `lists[t]` is the list of the cells of tree t, threaded through `first`
    and `next`; `tree[c]` is the tree of cell c.
  */
  ghost predicate Forest(n: nat, tree: seq<int>, first: seq<int>, next: seq<int>, lists: seq<seq<int>>) {
    && |tree| == n && |first| == n && |next| == n && |lists| == n
    && Heads(n, first, lists)
    && Links(n, tree, next, lists)
    && Distinct(n, lists)
    && Covers(n, tree, lists)
  }

  /** `first[t]` is the head of the list of tree t, or -1 when that list is empty. */
  ghost predicate Heads(n: nat, first: seq<int>, lists: seq<seq<int>>)
    requires |first| == n && |lists| == n
  {
    forall t :: 0 <= t < n ==> first[t] == if lists[t] == [] then -1 else lists[t][0]
  }

  /** Each listed cell carries its tree's label and `next` points to its successor in the list. */
  ghost predicate Links(n: nat, tree: seq<int>, next: seq<int>, lists: seq<seq<int>>)
    requires |tree| == n && |next| == n && |lists| == n
  {
    forall t, k :: 0 <= t < n && 0 <= k < |lists[t]| ==>
      && 0 <= lists[t][k] < n
      && tree[lists[t][k]] == t
      && next[lists[t][k]] == if k + 1 < |lists[t]| then lists[t][k + 1] else -1
  }

  ghost predicate Distinct(n: nat, lists: seq<seq<int>>)
    requires |lists| == n
  {
    forall t, k, k' :: 0 <= t < n && 0 <= k < k' < |lists[t]| ==> lists[t][k] != lists[t][k']
  }

  /** Every cell is in the list of its tree. */
  ghost predicate Covers(n: nat, tree: seq<int>, lists: seq<seq<int>>)
    requires |tree| == n && |lists| == n
  {
    forall c :: 0 <= c < n ==> 0 <= tree[c] < n && c in lists[tree[c]]
  }

  /** The lists after tree `from` is appended in front of tree `into`. */
  function Merged(lists: seq<seq<int>>, from: int, into: int): seq<seq<int>>
    requires 0 <= from < |lists| && 0 <= into < |lists|
  {
    lists[into := lists[from] + lists[into]][from := []]
  }

  /** The tree labels after every cell of tree `from` is moved to tree `into`. */
  function Relabelled(tree: seq<int>, from: int, into: int): (r: seq<int>)
    ensures |r| == |tree|
    ensures forall c :: 0 <= c < |tree| ==> r[c] == if tree[c] == from then into else tree[c]
  {
    seq(|tree|, c requires 0 <= c < |tree| => if tree[c] == from then into else tree[c])
  }

  lemma ForestEntry(n: nat, tree: seq<int>, first: seq<int>, next: seq<int>, lists: seq<seq<int>>, t: int, k: int)
    requires Forest(n, tree, first, next, lists) && 0 <= t < n && 0 <= k < |lists[t]|
    ensures 0 <= lists[t][k] < n && tree[lists[t][k]] == t
    ensures next[lists[t][k]] == if k + 1 < |lists[t]| then lists[t][k + 1] else -1
  {
  }

  lemma InListIsLabelled(n: nat, tree: seq<int>, first: seq<int>, next: seq<int>, lists: seq<seq<int>>, t: int, c: int)
    requires Forest(n, tree, first, next, lists) && 0 <= t < n && 0 <= c < n
    ensures c in lists[t] <==> tree[c] == t
  {
    if c in lists[t] {
      var k :| 0 <= k < |lists[t]| && lists[t][k] == c;
    }
  }

  /** The state of the forest after tree `from` is merged into tree `into`. */
  ghost predicate MergeStep(n: nat, tree: seq<int>, first: seq<int>, next: seq<int>, lists: seq<seq<int>>,
                            from: int, into: int,
                            tree': seq<int>, first': seq<int>, next': seq<int>, lists': seq<seq<int>>)
  {
    && Forest(n, tree, first, next, lists)
    && 0 <= into < n && 0 <= from < n && into != from && lists[from] != []
    && tree' == Relabelled(tree, from, into)
    && first' == first[into := first[from]][from := -1]
    && next' == next[lists[from][|lists[from]| - 1] := first[into]]
    && lists' == Merged(lists, from, into)
  }

  lemma MergeHeads(n: nat, tree: seq<int>, first: seq<int>, next: seq<int>, lists: seq<seq<int>>,
                   from: int, into: int, tree': seq<int>, first': seq<int>, next': seq<int>, lists': seq<seq<int>>)
    requires MergeStep(n, tree, first, next, lists, from, into, tree', first', next', lists')
    ensures |first'| == n && |lists'| == n && Heads(n, first', lists')
  {
    forall t | 0 <= t < n
      ensures first'[t] == if lists'[t] == [] then -1 else lists'[t][0]
    {
      if t == into {
        assert lists'[t] == lists[from] + lists[into];
      } else if t != from {
        assert lists'[t] == lists[t];
      }
    }
  }

  lemma MergeLinks(n: nat, tree: seq<int>, first: seq<int>, next: seq<int>, lists: seq<seq<int>>,
                   from: int, into: int, tree': seq<int>, first': seq<int>, next': seq<int>, lists': seq<seq<int>>)
    requires MergeStep(n, tree, first, next, lists, from, into, tree', first', next', lists')
    ensures |tree'| == n && |next'| == n && |lists'| == n && Links(n, tree', next', lists')
  {
    var lf, li := lists[from], lists[into];
    var last := lf[|lf| - 1];
    ForestEntry(n, tree, first, next, lists, from, |lf| - 1);
    forall t, k | 0 <= t < n && 0 <= k < |lists'[t]|
      ensures 0 <= lists'[t][k] < n && tree'[lists'[t][k]] == t
      ensures next'[lists'[t][k]] == if k + 1 < |lists'[t]| then lists'[t][k + 1] else -1
    {
      if t == into {
        assert lists'[t] == lf + li;
        if k < |lf| {
          ForestEntry(n, tree, first, next, lists, from, k);
          if k + 1 < |lf| {
            assert lf[k] != last;
          } else if li != [] {
            assert lists'[t][k + 1] == li[0];
          }
        } else {
          ForestEntry(n, tree, first, next, lists, into, k - |lf|);
          if k + 1 < |lists'[t]| {
            assert lists'[t][k + 1] == li[k - |lf| + 1];
          }
        }
      } else {
        assert lists'[t] == lists[t];
        ForestEntry(n, tree, first, next, lists, t, k);
      }
    }
  }

  lemma MergeDistinct(n: nat, tree: seq<int>, first: seq<int>, next: seq<int>, lists: seq<seq<int>>,
                      from: int, into: int, tree': seq<int>, first': seq<int>, next': seq<int>, lists': seq<seq<int>>)
    requires MergeStep(n, tree, first, next, lists, from, into, tree', first', next', lists')
    ensures |lists'| == n && Distinct(n, lists')
  {
    var lf, li := lists[from], lists[into];
    forall t, k, k' | 0 <= t < n && 0 <= k < k' < |lists'[t]|
      ensures lists'[t][k] != lists'[t][k']
    {
      if t == into {
        assert lists'[t] == lf + li;
        if k < |lf| && k' >= |lf| {
          ForestEntry(n, tree, first, next, lists, from, k);
          ForestEntry(n, tree, first, next, lists, into, k' - |lf|);
        } else if k >= |lf| {
          assert lists'[t][k] == li[k - |lf|] && lists'[t][k'] == li[k' - |lf|];
        }
      } else {
        assert lists'[t] == lists[t];
      }
    }
  }

  lemma MergeCovers(n: nat, tree: seq<int>, first: seq<int>, next: seq<int>, lists: seq<seq<int>>,
                    from: int, into: int, tree': seq<int>, first': seq<int>, next': seq<int>, lists': seq<seq<int>>)
    requires MergeStep(n, tree, first, next, lists, from, into, tree', first', next', lists')
    ensures |tree'| == n && |lists'| == n && Covers(n, tree', lists')
  {
    forall c | 0 <= c < n
      ensures 0 <= tree'[c] < n && c in lists'[tree'[c]]
    {
      assert c in lists[tree[c]];
      if tree[c] == from || tree[c] == into {
        assert lists'[into] == lists[from] + lists[into];
      } else {
        assert lists'[tree[c]] == lists[tree[c]];
      }
    }
  }

  /** Relabelling tree `from` into `into` and splicing its list in front keeps the forest well formed. */
  lemma MergePreservesForest(n: nat, tree: seq<int>, first: seq<int>, next: seq<int>, lists: seq<seq<int>>,
                             from: int, into: int)
    requires Forest(n, tree, first, next, lists)
    requires 0 <= into < n && 0 <= from < n && into != from && lists[from] != []
    ensures var last := lists[from][|lists[from]| - 1];
      Forest(n, Relabelled(tree, from, into), first[into := first[from]][from := -1],
             next[last := first[into]], Merged(lists, from, into))
  {
    var last := lists[from][|lists[from]| - 1];
    var tree', first', next', lists' := Relabelled(tree, from, into), first[into := first[from]][from := -1],
      next[last := first[into]], Merged(lists, from, into);
    MergeHeads(n, tree, first, next, lists, from, into, tree', first', next', lists');
    MergeLinks(n, tree, first, next, lists, from, into, tree', first', next', lists');
    MergeDistinct(n, tree, first, next, lists, from, into, tree', first', next', lists');
    MergeCovers(n, tree, first, next, lists, from, into, tree', first', next', lists');
  }

  /**
    `renumber_tree(old, new)`: relabel every cell of tree `from` as `into`
    (walking the list of `from`), then splice that list in front of the list
    of `into` and mark `from` as gone.
  */
  method RenumberTree(tree: array<int>, first: array<int>, next: array<int>, from: int, into: int,
                      ghost lists: seq<seq<int>>)
    returns (ghost lists': seq<seq<int>>)
    requires tree != first && tree != next && first != next
    requires Forest(tree.Length, tree[..], first[..], next[..], lists)
    requires 0 <= into < from < tree.Length
    requires first[from] >= 0
    modifies tree, first, next
    ensures lists' == Merged(lists, from, into)
    ensures Forest(tree.Length, tree[..], first[..], next[..], lists')
    ensures tree[..] == Relabelled(old(tree[..]), from, into)
    ensures first[..] == old(first[..])[into := old(first[from])][from := -1]
    ensures next[..] == old(next[..])[lists[from][|lists[from]| - 1] := old(first[into])]
  {
    ghost var n := tree.Length;
    ghost var lf := lists[from];
    ghost var tree0 := tree[..];
    ghost var next0 := next[..];
    assert lf != [];
    var i := first[from];
    var lastOld := i;
    ghost var k := 0;
    while i >= 0
      invariant 0 <= k <= |lf|
      invariant i == if k < |lf| then lf[k] else -1
      invariant 0 < k ==> lastOld == lf[k - 1]
      invariant first[..] == old(first[..]) && next[..] == old(next[..])
      invariant forall c :: 0 <= c < n ==> tree[c] == if c in lf[..k] then into else tree0[c]
      decreases |lf| - k
    {
      ForestEntry(n, tree0, old(first[..]), next0, lists, from, k);
      tree[i] := into;
      lastOld := i;
      i := next[i];
      k := k + 1;
      assert lf[..k] == lf[..k - 1] + [lf[k - 1]];
    }
    assert k == |lf| && lf[..k] == lf;
    forall c | 0 <= c < n
      ensures tree[c] == Relabelled(tree0, from, into)[c]
    {
      InListIsLabelled(n, tree0, first[..], next[..], lists, from, c);
    }
    assert tree[..] == Relabelled(tree0, from, into);
    next[lastOld] := first[into];
    first[into] := first[from];
    first[from] := -1;
    MergePreservesForest(n, tree0, old(first[..]), old(next[..]), lists, from, into);
    lists' := Merged(lists, from, into);
  }

  // ---------------------------------------------------------------------
  // Opening a passage

  /** The layout after `layout[ed.y, ed.x] |= ed.flag`. */
  function Opened(l: Layout, ed: Edge): (l': Layout)
    requires InBounds(l, ed.x, ed.y)
    ensures Height(l') == Height(l) && Width(l') == Width(l)
  {
    var l' := l[ed.y := l[ed.y][ed.x := SetBit(l[ed.y][ed.x], ed.flag)]];
    assert Rectangular(l') by {
      forall y | 0 <= y < |l'|
        ensures |l'[y]| == |l'[0]|
      {
        assert |l[y]| == |l[0]|;
      }
    }
    l'
  }

  /** Opening `ed` opens exactly `ed`: every other passage keeps its state. */
  lemma OpenedEdge(l: Layout, ed: Edge, ed': Edge)
    requires InBounds(l, ed.x, ed.y) && (ed.flag == 1 || ed.flag == 2) && (ed'.flag == 1 || ed'.flag == 2)
    ensures EdgeOpen(Opened(l, ed), ed') == (EdgeOpen(l, ed') || ed' == ed)
  {
    SetBitBits(l[ed.y][ed.x], ed.flag);
  }

  lemma OpenedLayout(l: Layout, ed: Edge)
    requires ValidEdge(Width(l), Height(l), ed) && ValuesInRange(l) && Closed(l)
    ensures ValuesInRange(Opened(l, ed)) && Closed(Opened(l, ed)) && Widens(l, Opened(l, ed))
  {
    var l' := Opened(l, ed);
    forall x, y | 0 <= x < Width(l) && 0 <= y < Height(l)
      ensures 0 <= l'[y][x] < 4
      ensures EastBit(Cell(l', x, y)) ==> x < Width(l) - 1
      ensures NorthBit(Cell(l', x, y)) ==> y < Height(l) - 1
      ensures EastBit(Cell(l, x, y)) ==> EastBit(Cell(l', x, y))
      ensures NorthBit(Cell(l, x, y)) ==> NorthBit(Cell(l', x, y))
    {
      if x == ed.x && y == ed.y {
        SetBitBits(l[y][x], ed.flag);
      } else {
        assert l'[y][x] == l[y][x];
      }
      assert EastBit(Cell(l, x, y)) ==> x < Width(l) - 1;
      assert NorthBit(Cell(l, x, y)) ==> y < Height(l) - 1;
    }
  }

  lemma OpenEdgesGrow(l: Layout, ed: Edge, e: int)
    requires Width(l) >= 1 && Height(l) >= 1
    requires 0 <= e < NumEdges(Width(l), Height(l)) && DecodeEdge(Width(l), e) == ed
    requires !EdgeOpen(l, ed)
    ensures InBounds(l, ed.x, ed.y)
    ensures e !in OpenEdges(l)
    ensures OpenEdges(Opened(l, ed)) == OpenEdges(l) + {e}
  {
    var w, h := Width(l), Height(l);
    DecodeEdgeValid(w, h, e);
    var l' := Opened(l, ed);
    forall e' | 0 <= e' < NumEdges(w, h)
      ensures EdgeOpen(l', DecodeEdge(w, e')) <==> EdgeOpen(l, DecodeEdge(w, e')) || e' == e
    {
      DecodeEdgeValid(w, h, e');
      OpenedEdge(l, ed, DecodeEdge(w, e'));
      if DecodeEdge(w, e') == ed {
        DecodeEdgeInjective(w, h, e, e');
      }
    }
  }

  /** Two cells joined by an open passage are connected. */
  lemma OpenEdgeConnects(l: Layout, ed: Edge)
    requires Width(l) >= 1 && ValidEdge(Width(l), Height(l), ed) && EdgeOpen(l, ed)
    ensures Connected(l, PosOf(Width(l), EdgeFrom(Width(l), ed)), PosOf(Width(l), EdgeTo(Width(l), ed)))
  {
    var w := Width(l);
    EdgeEnds(w, Height(l), ed);
    var p, q := PosOf(w, EdgeFrom(w, ed)), PosOf(w, EdgeTo(w, ed));
    assert q in NextStates(l, p.0, p.1);
    assert IsWalkBetween(l, [p, q], p, q);
  }

  // ---------------------------------------------------------------------
  // The loop invariant of the generator

  ghost predicate SameTree(w: int, tree: seq<int>, ed: Edge) {
    && 0 <= EdgeFrom(w, ed) < |tree| && 0 <= EdgeTo(w, ed) < |tree|
    && tree[EdgeFrom(w, ed)] == tree[EdgeTo(w, ed)]
  }

  /** Every tree still in use contains the cell with its own number. */
  ghost predicate RootsOwn(n: nat, tree: seq<int>, lists: seq<seq<int>>)
    requires |tree| == n && |lists| == n
  {
    forall t :: 0 <= t < n && lists[t] != [] ==> tree[t] == t
  }

  /** An open passage never joins two different trees. */
  ghost predicate OpenJoinsTrees(l: Layout, tree: seq<int>) {
    forall ed :: ValidEdge(Width(l), Height(l), ed) && EdgeOpen(l, ed) ==> SameTree(Width(l), tree, ed)
  }

  /** Every cell is connected, through open passages, to the cell its tree is named after. */
  ghost predicate Linked(l: Layout, tree: seq<int>)
    requires Width(l) >= 1
  {
    forall c :: 0 <= c < |tree| ==> Connected(l, PosOf(Width(l), c), PosOf(Width(l), tree[c]))
  }

  /** `rng.permutation(m)`: every number below m, each exactly once. */
  predicate IsPermutation(order: seq<int>, m: int) {
    && |order| == m
    && (forall i :: 0 <= i < |order| ==> 0 <= order[i] < m)
    && (forall e :: 0 <= e < m ==> e in order)
  }

  ghost predicate KruskalInvariant(w: int, h: int, order: seq<int>, k: int,
                                   tree: seq<int>, first: seq<int>, next: seq<int>, lists: seq<seq<int>>,
                                   roots: set<int>, numTrees: int, l: Layout)
  {
    && w >= 1 && h >= 1 && Width(l) == w && Height(l) == h
    && TreesInvariant(w * h, tree, first, next, lists, roots, numTrees)
    && LayoutInvariant(w, h, l, tree, numTrees)
    && ProcessedInvariant(w, h, order, k, tree)
  }

  /** The trees: a well-formed forest whose non-empty lists are exactly the `roots`, numTrees of them. */
  ghost predicate TreesInvariant(n: nat, tree: seq<int>, first: seq<int>, next: seq<int>, lists: seq<seq<int>>,
                                 roots: set<int>, numTrees: int)
  {
    && Forest(n, tree, first, next, lists)
    && RootsOwn(n, tree, lists)
    && (forall t :: t in roots <==> 0 <= t < n && lists[t] != [])
    && numTrees == |roots|
  }

  /** The layout: closed, each open passage inside one tree, one passage fewer than cells per tree. */
  ghost predicate LayoutInvariant(w: int, h: int, l: Layout, tree: seq<int>, numTrees: int) {
    && w >= 1 && Width(l) == w && Height(l) == h
    && ValuesInRange(l) && Closed(l)
    && OpenJoinsTrees(l, tree)
    && |OpenEdges(l)| == w * h - numTrees
    && Linked(l, tree)
  }

  /** The edges order[..k] already looked at each join cells of one tree. */
  ghost predicate ProcessedInvariant(w: int, h: int, order: seq<int>, k: int, tree: seq<int>) {
    && 0 <= k <= |order|
    && w >= 1
    && (forall m :: 0 <= m < k ==> 0 <= order[m] < NumEdges(w, h) && SameTree(w, tree, DecodeEdge(w, order[m])))
  }

  lemma InitialForest(n: nat)
    ensures Forest(n, seq(n, c => c), seq(n, t => t), seq(n, c => -1), seq(n, t => [t]))
    ensures RootsOwn(n, seq(n, c => c), seq(n, t => [t]))
  {
    var tree, lists := seq(n, c => c), seq(n, t => [t]);
    forall c | 0 <= c < n
      ensures 0 <= tree[c] < n && c in lists[tree[c]]
    {
      assert lists[c] == [c];
    }
  }

  lemma InitialOpenEdges(l: Layout)
    requires forall x, y :: 0 <= x < Width(l) && 0 <= y < Height(l) ==> l[y][x] == 0
    ensures OpenEdges(l) == {}
  {
  }

  lemma InitialLinked(l: Layout, n: nat)
    requires Width(l) >= 1 && Height(l) >= 1 && n == Width(l) * Height(l)
    ensures Linked(l, seq(n, c => c))
  {
    var w := Width(l);
    forall c | 0 <= c < n
      ensures Connected(l, PosOf(w, c), PosOf(w, c))
    {
      CellBelowInverse(w, Height(l), c);
      ConnectedReflexive(l, PosOf(w, c));
    }
  }

  /** Before the first edge: every cell a tree of its own, no passage open. */
  lemma InitialInvariant(w: int, h: int, order: seq<int>, l: Layout)
    requires w >= 1 && h >= 1 && Width(l) == w && Height(l) == h
    requires forall x, y :: 0 <= x < w && 0 <= y < h ==> l[y][x] == 0
    ensures var n := w * h;
      KruskalInvariant(w, h, order, 0, seq(n, c => c), seq(n, t => t), seq(n, c => -1), seq(n, t => [t]),
                       SetBelow(n), n, l)
  {
    var n := w * h;
    InitialTrees(n);
    InitialLayout(w, h, l, n);
  }

  lemma InitialTrees(n: nat)
    ensures TreesInvariant(n, seq(n, c => c), seq(n, t => t), seq(n, c => -1), seq(n, t => [t]), SetBelow(n), n)
  {
    SetBelowSize(n);
    SetBelowMembers(n);
    InitialForest(n);
  }

  lemma InitialLayout(w: int, h: int, l: Layout, n: nat)
    requires w >= 1 && h >= 1 && Width(l) == w && Height(l) == h && n == w * h
    requires forall x, y :: 0 <= x < w && 0 <= y < h ==> l[y][x] == 0
    ensures LayoutInvariant(w, h, l, seq(n, c => c), n)
  {
    InitialOpenEdges(l);
    InitialLinked(l, n);
  }

  /** The tree labels at the start, `range(n)`. */
  function SetBelow(n: nat): set<int> {
    if n == 0 then {} else SetBelow(n - 1) + {n - 1}
  }

  lemma {:induction false} SetBelowMembers(n: nat)
    ensures forall t :: t in SetBelow(n) <==> 0 <= t < n
  {
    if n > 0 {
      SetBelowMembers(n - 1);
    }
  }

  lemma {:induction false} SetBelowSize(n: nat)
    ensures |SetBelow(n)| == n
  {
    if n > 0 {
      SetBelowSize(n - 1);
      SetBelowMembers(n - 1);
      assert n - 1 !in SetBelow(n - 1);
    }
  }

  /** Cell number c of a w-by-h maze lies inside the maze. */
  lemma CellBelowInverse(w: int, h: int, c: int)
    requires w >= 1 && h >= 1 && 0 <= c < w * h
    ensures 0 <= PosOf(w, c).0 < w && 0 <= PosOf(w, c).1 < h
    ensures c == PosOf(w, c).1 * w + PosOf(w, c).0
  {
    var y := c / w;
    if y >= h {
      MulLe(h, y, w);
    }
  }

  // ---------------------------------------------------------------------
  // One iteration of the loop

  /** Relabelling keeps cells that shared a tree together. */
  lemma RelabelKeepsSame(w: int, tree: seq<int>, from: int, into: int, ed: Edge)
    requires SameTree(w, tree, ed)
    ensures SameTree(w, Relabelled(tree, from, into), ed)
  {
  }

  lemma MergeOpenJoins(l: Layout, tree: seq<int>, ed: Edge, from: int, into: int)
    requires Width(l) >= 1 && ValidEdge(Width(l), Height(l), ed) && OpenJoinsTrees(l, tree)
    requires |tree| == Width(l) * Height(l)
    requires var a, b := EdgeFrom(Width(l), ed), EdgeTo(Width(l), ed);
      0 <= a < |tree| && 0 <= b < |tree| &&
      ((tree[a] == from && tree[b] == into) || (tree[a] == into && tree[b] == from))
    ensures OpenJoinsTrees(Opened(l, ed), Relabelled(tree, from, into))
  {
    var l', tree' := Opened(l, ed), Relabelled(tree, from, into);
    forall ed' | ValidEdge(Width(l'), Height(l'), ed') && EdgeOpen(l', ed')
      ensures SameTree(Width(l'), tree', ed')
    {
      OpenedEdge(l, ed, ed');
      if ed' != ed {
        RelabelKeepsSame(Width(l), tree, from, into, ed');
      }
    }
  }

  lemma MergeLinked(l: Layout, tree: seq<int>, ed: Edge, from: int, into: int)
    requires Width(l) >= 1 && ValidEdge(Width(l), Height(l), ed) && ValuesInRange(l) && Closed(l)
    requires Linked(l, tree)
    requires var a, b := EdgeFrom(Width(l), ed), EdgeTo(Width(l), ed);
      0 <= a < |tree| && 0 <= b < |tree| &&
      ((tree[a] == from && tree[b] == into) || (tree[a] == into && tree[b] == from))
    ensures Linked(Opened(l, ed), Relabelled(tree, from, into))
  {
    var w := Width(l);
    var l', tree' := Opened(l, ed), Relabelled(tree, from, into);
    var a, b := EdgeFrom(w, ed), EdgeTo(w, ed);
    OpenedLayout(l, ed);
    OpenedEdge(l, ed, ed);
    OpenEdgeConnects(l', ed);
    var p, q := if tree[a] == from then a else b, if tree[a] == from then b else a;
    // p lies in tree `from`, q in tree `into`, and the new passage joins them.
    assert Connected(l', PosOf(w, p), PosOf(w, q)) by {
      if p == b {
        ConnectedSymmetric(l', PosOf(w, a), PosOf(w, b));
      }
    }
    assert Connected(l', PosOf(w, from), PosOf(w, p)) by {
      WidenedConnected(l, l', PosOf(w, p), PosOf(w, tree[p]));
      ConnectedSymmetric(l', PosOf(w, p), PosOf(w, from));
    }
    assert Connected(l', PosOf(w, q), PosOf(w, into)) by {
      WidenedConnected(l, l', PosOf(w, q), PosOf(w, tree[q]));
    }
    forall c | 0 <= c < |tree'|
      ensures Connected(l', PosOf(w, c), PosOf(w, tree'[c]))
    {
      WidenedConnected(l, l', PosOf(w, c), PosOf(w, tree[c]));
      if tree[c] == from {
        ConnectedTransitive(l', PosOf(w, c), PosOf(w, from), PosOf(w, p));
        ConnectedTransitive(l', PosOf(w, c), PosOf(w, p), PosOf(w, q));
        ConnectedTransitive(l', PosOf(w, c), PosOf(w, q), PosOf(w, into));
      }
    }
  }

  lemma MergeRoots(n: nat, tree: seq<int>, first: seq<int>, next: seq<int>, lists: seq<seq<int>>,
                   roots: set<int>, a: int, b: int, from: int, into: int)
    requires Forest(n, tree, first, next, lists) && RootsOwn(n, tree, lists)
    requires forall t :: t in roots <==> 0 <= t < n && lists[t] != []
    requires 0 <= a < n && 0 <= b < n && tree[a] != tree[b]
    requires into == if tree[a] < tree[b] then tree[a] else tree[b]
    requires from == if tree[a] < tree[b] then tree[b] else tree[a]
    ensures lists[from] != [] && lists[into] != [] && from in roots
    ensures RootsOwn(n, Relabelled(tree, from, into), Merged(lists, from, into))
    ensures forall t :: t in roots - {from} <==> 0 <= t < n && Merged(lists, from, into)[t] != []
    ensures |roots - {from}| == |roots| - 1
  {
    assert a in lists[tree[a]] && b in lists[tree[b]];
  }

  lemma MergeProcessed(w: int, h: int, order: seq<int>, k: int, tree: seq<int>, from: int, into: int)
    requires w >= 1 && 0 <= k < |order| && (forall m :: 0 <= m < k ==> SameTree(w, tree, DecodeEdge(w, order[m])))
    requires var ed := DecodeEdge(w, order[k]);
      var a, b := EdgeFrom(w, ed), EdgeTo(w, ed);
      0 <= a < |tree| && 0 <= b < |tree| &&
      ((tree[a] == from && tree[b] == into) || (tree[a] == into && tree[b] == from))
    ensures forall m :: 0 <= m < k + 1 ==> SameTree(w, Relabelled(tree, from, into), DecodeEdge(w, order[m]))
  {
    forall m | 0 <= m < k + 1
      ensures SameTree(w, Relabelled(tree, from, into), DecodeEdge(w, order[m]))
    {
      if m < k {
        RelabelKeepsSame(w, tree, from, into, DecodeEdge(w, order[m]));
      }
    }
  }

  /** Opening a passage between two trees merges them and keeps the invariant. */
  lemma MergeKeepsInvariant(w: int, h: int, order: seq<int>, k: int,
                            tree: seq<int>, first: seq<int>, next: seq<int>, lists: seq<seq<int>>,
                            roots: set<int>, numTrees: int, l: Layout, ed: Edge, from: int, into: int)
    requires KruskalInvariant(w, h, order, k, tree, first, next, lists, roots, numTrees, l)
    requires k < |order| && 0 <= order[k] < NumEdges(w, h) && ed == DecodeEdge(w, order[k])
    requires var a, b := EdgeFrom(w, ed), EdgeTo(w, ed);
      0 <= a < |tree| && 0 <= b < |tree| && tree[a] != tree[b] &&
      into == (if tree[a] < tree[b] then tree[a] else tree[b]) &&
      from == (if tree[a] < tree[b] then tree[b] else tree[a])
    ensures 0 <= into < from < w * h && lists[from] != []
    ensures InBounds(l, ed.x, ed.y) && (ed.flag == 1 || ed.flag == 2)
    ensures var last := lists[from][|lists[from]| - 1];
      KruskalInvariant(w, h, order, k + 1, Relabelled(tree, from, into),
                       first[into := first[from]][from := -1], next[last := first[into]],
                       Merged(lists, from, into), roots - {from}, numTrees - 1, Opened(l, ed))
  {
    var a, b := EdgeFrom(w, ed), EdgeTo(w, ed);
    DecodeEdgeValid(w, h, order[k]);
    MergeKeepsTrees(w * h, tree, first, next, lists, roots, numTrees, a, b, from, into);
    MergeKeepsLayout(w, h, l, tree, numTrees, order[k], ed, from, into);
    MergeProcessed(w, h, order, k, tree, from, into);
  }

  lemma MergeKeepsTrees(n: nat, tree: seq<int>, first: seq<int>, next: seq<int>, lists: seq<seq<int>>,
                        roots: set<int>, numTrees: int, a: int, b: int, from: int, into: int)
    requires TreesInvariant(n, tree, first, next, lists, roots, numTrees)
    requires 0 <= a < n && 0 <= b < n && tree[a] != tree[b]
    requires into == (if tree[a] < tree[b] then tree[a] else tree[b])
    requires from == (if tree[a] < tree[b] then tree[b] else tree[a])
    ensures 0 <= into < from < n && lists[from] != []
    ensures var last := lists[from][|lists[from]| - 1];
      TreesInvariant(n, Relabelled(tree, from, into), first[into := first[from]][from := -1],
                     next[last := first[into]], Merged(lists, from, into), roots - {from}, numTrees - 1)
  {
    MergeRoots(n, tree, first, next, lists, roots, a, b, from, into);
    MergePreservesForest(n, tree, first, next, lists, from, into);
  }

  lemma MergeKeepsLayout(w: int, h: int, l: Layout, tree: seq<int>, numTrees: int, e: int, ed: Edge,
                         from: int, into: int)
    requires LayoutInvariant(w, h, l, tree, numTrees) && h >= 1 && |tree| == w * h
    requires 0 <= e < NumEdges(w, h) && ed == DecodeEdge(w, e) && ValidEdge(w, h, ed)
    requires var a, b := EdgeFrom(w, ed), EdgeTo(w, ed);
      0 <= a < |tree| && 0 <= b < |tree| &&
      ((tree[a] == from && tree[b] == into) || (tree[a] == into && tree[b] == from)) && from != into
    ensures InBounds(l, ed.x, ed.y) && (ed.flag == 1 || ed.flag == 2)
    ensures LayoutInvariant(w, h, Opened(l, ed), Relabelled(tree, from, into), numTrees - 1)
  {
    OpenedLayout(l, ed);
    assert !EdgeOpen(l, ed);
    OpenEdgesGrow(l, ed, e);
    MergeOpenJoins(l, tree, ed, from, into);
    MergeLinked(l, tree, ed, from, into);
  }

  /** An edge inside one tree is skipped, and the invariant still holds one step on. */
  lemma SkipKeepsInvariant(w: int, h: int, order: seq<int>, k: int,
                           tree: seq<int>, first: seq<int>, next: seq<int>, lists: seq<seq<int>>,
                           roots: set<int>, numTrees: int, l: Layout)
    requires KruskalInvariant(w, h, order, k, tree, first, next, lists, roots, numTrees, l)
    requires k < |order| && 0 <= order[k] < NumEdges(w, h)
    requires SameTree(w, tree, DecodeEdge(w, order[k]))
    ensures KruskalInvariant(w, h, order, k + 1, tree, first, next, lists, roots, numTrees, l)
  {
  }

  // ---------------------------------------------------------------------
  // After the loop

  /** When every passage joins cells of one tree, the whole grid is one tree. */
  lemma AllEdgesSame(w: int, h: int, tree: seq<int>)
    requires w >= 1 && h >= 1 && |tree| == w * h
    requires forall ed :: ValidEdge(w, h, ed) ==> SameTree(w, tree, ed)
    ensures forall c :: 0 <= c < w * h ==> tree[c] == tree[0]
  {
    forall c | 0 <= c < w * h
      ensures tree[c] == tree[0]
    {
      CellBelowInverse(w, h, c);
      var (x, y) := PosOf(w, c);
      CellBelow(w, h, w - 1, y);
      RowSame(w, h, tree, x, y);
      ColumnSame(w, h, tree, y);
    }
  }

  lemma {:induction false} RowSame(w: int, h: int, tree: seq<int>, x: int, y: int)
    requires w >= 1 && h >= 1 && |tree| == w * h && 0 <= x < w && 0 <= y < h
    requires 0 <= y * w && y * w + w <= |tree|
    requires forall ed :: ValidEdge(w, h, ed) ==> SameTree(w, tree, ed)
    ensures tree[y * w + x] == tree[y * w]
    decreases x
  {
    if x > 0 {
      RowSame(w, h, tree, x - 1, y);
      var ed := Edge(x - 1, y, 1);
      assert ValidEdge(w, h, ed);
      assert EdgeFrom(w, ed) == y * w + (x - 1) && EdgeTo(w, ed) == y * w + x;
      assert SameTree(w, tree, ed);
    }
  }

  lemma {:induction false} ColumnSame(w: int, h: int, tree: seq<int>, y: int)
    requires w >= 1 && h >= 1 && |tree| == w * h && 0 <= y < h
    requires 0 <= y * w && y * w + w <= |tree|
    requires forall ed :: ValidEdge(w, h, ed) ==> SameTree(w, tree, ed)
    ensures tree[y * w] == tree[0]
    decreases y
  {
    if y > 0 {
      assert (y - 1) * w + w == y * w;
      ColumnSame(w, h, tree, y - 1);
      var ed := Edge(0, y - 1, 2);
      assert ValidEdge(w, h, ed);
      assert EdgeFrom(w, ed) == (y - 1) * w && EdgeTo(w, ed) == y * w;
      assert SameTree(w, tree, ed);
    }
  }

  /** One label for every cell: every cell reaches every other. */
  lemma SingleTree(l: Layout, tree: seq<int>, r: int)
    requires Width(l) >= 1 && Height(l) >= 1 && |tree| == Width(l) * Height(l) && Linked(l, tree)
    requires forall c :: 0 <= c < |tree| ==> tree[c] == r
    ensures forall p, q :: InGrid(l, p) && InGrid(l, q) ==> Connected(l, p, q)
  {
    var w, h := Width(l), Height(l);
    forall p, q | InGrid(l, p) && InGrid(l, q)
      ensures Connected(l, p, q)
    {
      CellReachesLabel(l, tree, r, p);
      CellReachesLabel(l, tree, r, q);
      ConnectedSymmetric(l, q, PosOf(w, r));
      ConnectedTransitive(l, p, PosOf(w, r), q);
    }
  }

  lemma CellReachesLabel(l: Layout, tree: seq<int>, r: int, p: Pos)
    requires Width(l) >= 1 && Height(l) >= 1 && |tree| == Width(l) * Height(l) && Linked(l, tree)
    requires forall c :: 0 <= c < |tree| ==> tree[c] == r
    requires InGrid(l, p)
    ensures Connected(l, p, PosOf(Width(l), r))
  {
    var w := Width(l);
    var c := p.1 * w + p.0;
    CellBelow(w, Height(l), p.0, p.1);
    PosOfCell(w, p.0, p.1);
    assert Connected(l, PosOf(w, c), PosOf(w, tree[c]));
  }

  lemma SingletonSet(s: set<int>, r: int)
    requires |s| == 1 && r in s
    ensures s == {r}
  {
    assert |s - {r}| == 0;
  }

  /** All cells carry label r: r is the only tree left. */
  lemma OnlyRoot(n: nat, tree: seq<int>, first: seq<int>, next: seq<int>, lists: seq<seq<int>>,
                 roots: set<int>, r: int)
    requires n >= 1 && Forest(n, tree, first, next, lists)
    requires forall t :: t in roots <==> 0 <= t < n && lists[t] != []
    requires forall c :: 0 <= c < n ==> tree[c] == r
    ensures roots == {r}
  {
    assert 0 in lists[tree[0]];
    forall t | t in roots
      ensures t == r
    {
      ForestEntry(n, tree, first, next, lists, t, 0);
    }
  }

  lemma OneTreeLeft(n: nat, tree: seq<int>, first: seq<int>, next: seq<int>, lists: seq<seq<int>>,
                    roots: set<int>) returns (r: int)
    requires n >= 1 && Forest(n, tree, first, next, lists)
    requires forall t :: t in roots <==> 0 <= t < n && lists[t] != []
    requires |roots| == 1
    ensures forall c :: 0 <= c < n ==> tree[c] == r
  {
    r := tree[0];
    assert 0 in lists[r];
    SingletonSet(roots, r);
    forall c | 0 <= c < n
      ensures tree[c] == r
    {
      assert c in lists[tree[c]];
      assert tree[c] in roots;
    }
  }

  /** Once the whole permutation is processed, every passage joins cells of one tree. */
  lemma AllProcessed(w: int, h: int, order: seq<int>, k: int, tree: seq<int>)
    requires w >= 1 && h >= 1 && IsPermutation(order, NumEdges(w, h)) && k == |order|
    requires forall m :: 0 <= m < k ==> 0 <= order[m] < NumEdges(w, h) && SameTree(w, tree, DecodeEdge(w, order[m]))
    ensures forall ed :: ValidEdge(w, h, ed) ==> SameTree(w, tree, ed)
  {
    forall ed | ValidEdge(w, h, ed)
      ensures SameTree(w, tree, ed)
    {
      EncodeEdgeValid(w, h, ed);
      var e := EncodeEdge(w, ed);
      assert e in order;
      var m :| 0 <= m < |order| && order[m] == e;
      assert DecodeEdge(w, order[m]) == ed;
    }
  }

  lemma FinalInvariant(w: int, h: int, order: seq<int>, k: int,
                       tree: seq<int>, first: seq<int>, next: seq<int>, lists: seq<seq<int>>,
                       roots: set<int>, numTrees: int, l: Layout)
    requires KruskalInvariant(w, h, order, k, tree, first, next, lists, roots, numTrees, l)
    requires IsPermutation(order, NumEdges(w, h))
    requires numTrees == 1 || k == |order|
    ensures |OpenEdges(l)| == w * h - 1
    ensures forall p, q :: InGrid(l, p) && InGrid(l, q) ==> Connected(l, p, q)
  {
    var n := w * h;
    CellBelow(w, h, 0, 0);
    var r;
    if k == |order| {
      AllProcessed(w, h, order, k, tree);
      AllEdgesSame(w, h, tree);
      r := tree[0];
    } else {
      r := OneTreeLeft(n, tree, first, next, lists, roots);
    }
    OnlyRoot(n, tree, first, next, lists, roots, r);
    SingleTree(l, tree, r);
  }

  // ---------------------------------------------------------------------
  // The generator

  /** The layout held in a height-by-width numpy array. */
  function Snapshot(a: array2<int>): (l: Layout)
    reads a
    ensures Height(l) == a.Length0 && (a.Length0 > 0 ==> Width(l) == a.Length1)
    ensures forall y, x :: 0 <= y < a.Length0 && 0 <= x < a.Length1 ==> l[y][x] == a[y, x]
  {
    seq(a.Length0, y reads a requires 0 <= y < a.Length0 => seq(a.Length1, x reads a requires 0 <= x < a.Length1 => a[y, x]))
  }

  /** `layout[y, x] |= flag` on the numpy array. */
  method OpenPassage(grid: array2<int>, ed: Edge)
    requires 0 <= ed.y < grid.Length0 && 0 <= ed.x < grid.Length1
    modifies grid
    ensures grid.Length0 > 0 && InBounds(old(Snapshot(grid)), ed.x, ed.y)
    ensures Snapshot(grid) == Opened(old(Snapshot(grid)), ed)
  {
    ghost var before := Snapshot(grid);
    grid[ed.y, ed.x] := SetBit(grid[ed.y, ed.x], ed.flag);
    ghost var after := Snapshot(grid);
    ghost var expected := Opened(before, ed);
    forall r | 0 <= r < grid.Length0
      ensures after[r] == expected[r]
    {
      assert |after[r]| == grid.Length1 == |expected[r]|;
      forall c | 0 <= c < grid.Length1
        ensures after[r][c] == expected[r][c]
      {
      }
    }
  }

  /**
    The loop body's decoding of edge number `neighbor` into the cell (x, y),
    the cell numbers i and j it joins and the bit that opens it.
  */
  method DecodeNeighbor(width: int, neighbor: int) returns (x: int, y: int, i: int, j: int, flag: int)
    requires width >= 1
    ensures Edge(x, y, flag) == DecodeEdge(width, neighbor)
    ensures i == EdgeFrom(width, Edge(x, y, flag)) && j == EdgeTo(width, Edge(x, y, flag))
  {
    var neighborsPerRow := 2 * width - 1;
    var widthLess1 := width - 1;
    y := neighbor / neighborsPerRow;
    x := neighbor % neighborsPerRow;
    if x < widthLess1 {
      i := y * width + x;
      j := i + 1;
      flag := 1;
    } else {
      x := x - widthLess1;
      i := y * width + x;
      j := i + width;
      flag := 2;
    }
  }

  /** The merge branch: renumber tree `from` into `into` and open the passage `ed`. */
  method MergeTrees(width: int, height: int, order: seq<int>, k: int,
                    tree: array<int>, first: array<int>, next: array<int>, grid: array2<int>,
                    numTrees: int, ghost lists: seq<seq<int>>, ghost roots: set<int>,
                    ed: Edge, from: int, into: int)
    returns (ghost lists': seq<seq<int>>)
    requires KruskalInvariant(width, height, order, k, tree[..], first[..], next[..], lists, roots, numTrees,
                              Snapshot(grid))
    requires k < |order| && 0 <= order[k] < NumEdges(width, height) && ed == DecodeEdge(width, order[k])
    requires var a, b := EdgeFrom(width, ed), EdgeTo(width, ed);
      0 <= a < tree.Length && 0 <= b < tree.Length && tree[a] != tree[b] &&
      into == (if tree[a] < tree[b] then tree[a] else tree[b]) &&
      from == (if tree[a] < tree[b] then tree[b] else tree[a])
    requires tree != first && tree != next && first != next
    requires grid.Length0 == height && grid.Length1 == width
    modifies tree, first, next, grid
    ensures KruskalInvariant(width, height, order, k + 1, tree[..], first[..], next[..], lists', roots - {from},
                             numTrees - 1, Snapshot(grid))
  {
    ghost var l0, tree0, first0, next0 := Snapshot(grid), tree[..], first[..], next[..];
    MergeKeepsInvariant(width, height, order, k, tree0, first0, next0, lists, roots, numTrees, l0, ed, from, into);
    lists' := RenumberTree(tree, first, next, from, into, lists);
    OpenPassage(grid, ed);
  }

  /**
    One pass of the loop of `_generate_random_maze_kruskal`: decode edge
    `order[k]`, and when its two cells lie in different trees, renumber the
    larger tree into the smaller and open the passage.
  */
  method ProcessEdge(width: int, height: int, order: seq<int>, k: int,
                     tree: array<int>, first: array<int>, next: array<int>, grid: array2<int>,
                     numTrees: int, ghost lists: seq<seq<int>>, ghost roots: set<int>)
    returns (merged: bool, numTrees': int, ghost lists': seq<seq<int>>, ghost roots': set<int>)
    requires KruskalInvariant(width, height, order, k, tree[..], first[..], next[..], lists, roots, numTrees,
                              Snapshot(grid))
    requires k < |order| && 0 <= order[k] < NumEdges(width, height)
    requires tree != first && tree != next && first != next
    requires grid.Length0 == height && grid.Length1 == width
    modifies tree, first, next, grid
    ensures KruskalInvariant(width, height, order, k + 1, tree[..], first[..], next[..], lists', roots', numTrees',
                             Snapshot(grid))
    ensures numTrees' == if merged then numTrees - 1 else numTrees
    ensures var ed := DecodeEdge(width, order[k]);
      var i, j := EdgeFrom(width, ed), EdgeTo(width, ed);
      0 <= i < tree.Length && 0 <= j < tree.Length && (merged <==> old(tree[i]) != old(tree[j]))
  {
    var x, y, i, j, flag := DecodeNeighbor(width, order[k]);
    var ed := Edge(x, y, flag);
    DecodeEdgeValid(width, height, order[k]);
    EdgeEnds(width, height, ed);
    var ti := tree[i];
    var tj := tree[j];
    if ti != tj {
      var into, from := if ti < tj then ti else tj, if ti < tj then tj else ti;
      lists' := MergeTrees(width, height, order, k, tree, first, next, grid, numTrees, lists, roots, ed, from, into);
      numTrees', roots', merged := numTrees - 1, roots - {from}, true;
    } else {
      SkipKeepsInvariant(width, height, order, k, tree[..], first[..], next[..], lists, roots, numTrees,
                         Snapshot(grid));
      numTrees', lists', roots', merged := numTrees, lists, roots, false;
    }
  }

  /**
    `_generate_random_maze_kruskal(width, height, rng)`, with the permutation
    `rng.permutation(num_neighbors)` passed in as `order`. The result is a
    perfect maze: every cell reaches every other, through exactly
    width*height - 1 open passages, none of which leads off the grid.
  */
  method GenerateKruskal(width: int, height: int, order: seq<int>) returns (layout: Layout)
    requires width >= 1 && height >= 1
    requires IsPermutation(order, NumEdges(width, height))
    ensures Height(layout) == height && Width(layout) == width
    ensures ValuesInRange(layout) && Closed(layout)
    ensures |OpenEdges(layout)| == width * height - 1
    ensures forall p, q :: InGrid(layout, p) && InGrid(layout, q) ==> Connected(layout, p, q)
  {
    var numTrees := width * height;
    var tree, first, next := NewForest(numTrees);
    var grid := NewGrid(width, height);
    InitialInvariant(width, height, order, Snapshot(grid));
    RunKruskal(width, height, order, tree, first, next, grid, numTrees, seq(numTrees, t => [t]), SetBelow(numTrees));
    layout := Snapshot(grid);
  }

  /** The arrays `tree`, `first` and `next` of n one-cell trees: `arange(n)`, `arange(n)`, `full(n, -1)`. */
  method NewForest(n: nat) returns (tree: array<int>, first: array<int>, next: array<int>)
    ensures fresh(tree) && fresh(first) && fresh(next)
    ensures tree != first && tree != next && first != next
    ensures tree[..] == seq(n, c => c) && first[..] == seq(n, t => t) && next[..] == seq(n, c => -1)
  {
    tree := new int[n](c => c);
    first := new int[n](t => t);
    next := new int[n](c => -1);
    assert tree[..] == seq(n, c => c) && first[..] == seq(n, t => t);
    assert next[..] == seq(n, c => -1);
  }

  /** `zeros((height, width))`: a maze with every passage closed. */
  method NewGrid(width: int, height: int) returns (grid: array2<int>)
    requires width >= 1 && height >= 1
    ensures fresh(grid) && grid.Length0 == height && grid.Length1 == width
    ensures Width(Snapshot(grid)) == width && Height(Snapshot(grid)) == height
    ensures forall x, y :: 0 <= x < width && 0 <= y < height ==> Snapshot(grid)[y][x] == 0
  {
    grid := new int[height, width]((y, x) => 0);
  }

  /** The loop of `_generate_random_maze_kruskal`, from the initial forest to one tree. */
  method RunKruskal(width: int, height: int, order: seq<int>,
                    tree: array<int>, first: array<int>, next: array<int>, grid: array2<int>,
                    numTrees: int, ghost lists: seq<seq<int>>, ghost roots: set<int>)
    requires IsPermutation(order, NumEdges(width, height))
    requires KruskalInvariant(width, height, order, 0, tree[..], first[..], next[..], lists, roots, numTrees,
                              Snapshot(grid))
    requires tree != first && tree != next && first != next
    requires grid.Length0 == height && grid.Length1 == width
    modifies tree, first, next, grid
    ensures Height(Snapshot(grid)) == height && Width(Snapshot(grid)) == width
    ensures ValuesInRange(Snapshot(grid)) && Closed(Snapshot(grid))
    ensures |OpenEdges(Snapshot(grid))| == width * height - 1
    ensures forall p, q :: InGrid(Snapshot(grid), p) && InGrid(Snapshot(grid), q) ==> Connected(Snapshot(grid), p, q)
  {
    var k, numTrees, lists, roots := 0, numTrees, lists, roots;
    while k < |order|
      invariant KruskalInvariant(width, height, order, k, tree[..], first[..], next[..], lists, roots, numTrees,
                                 Snapshot(grid))
    {
      var merged;
      merged, numTrees, lists, roots := ProcessEdge(width, height, order, k, tree, first, next, grid,
                                                    numTrees, lists, roots);
      k := k + 1;
      if merged && numTrees == 1 {
        break;
      }
    }
    FinalInvariant(width, height, order, k, tree[..], first[..], next[..], lists, roots, numTrees, Snapshot(grid));
  }

  /** `_generate_random_maze`: only "kruskal" is known. */
  method GenerateRandomMaze(width: int, height: int, algorithm: string, order: seq<int>)
    returns (r: Result<Layout, MazeError>)
    requires width >= 1 && height >= 1
    requires algorithm == "kruskal" ==> IsPermutation(order, NumEdges(width, height))
    ensures algorithm != "kruskal" <==> r == Failure(UnknownAlgorithm(algorithm))
    ensures algorithm == "kruskal" <==> r.Success?
    ensures r.Success? ==> Height(r.value) == height && Width(r.value) == width
    ensures r.Success? ==> ValuesInRange(r.value) && Closed(r.value)
    ensures r.Success? ==> forall p, q :: InGrid(r.value, p) && InGrid(r.value, q) ==> Connected(r.value, p, q)
  {
    if algorithm == "kruskal" {
      var layout := GenerateKruskal(width, height, order);
      return Success(layout);
    }
    return Failure(UnknownAlgorithm(algorithm));
  }
}
