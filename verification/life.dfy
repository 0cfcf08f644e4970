/**
 One step of Conway's Game of Life on a fixed 10x10 board, as the HTTP
 handler computes it.

 The grid is a `seq<seq<bool>>` of any shape: the Go code never checks the
 shape of its input, it only ever compares coordinates against the constant
 board size, so an input of the wrong shape can make an index go out of
 range (a run-time panic, modelled as `None`). Exactly three cases arise: an
 input with no cells returns the initial grid as it is; a 10x10 board,
 possibly followed by empty rows, gives the next generation of the board with
 nothing of the initial grid left; every other input panics.
 */
module Life {
  import opened Wrappers

  /** Side length of the board; every bounds check compares against it. */
  const GridSize: int := 10

  type Grid = seq<seq<bool>>

  /** A grid of exactly GridSize rows of GridSize cells. */
  ghost predicate IsBoard(g: Grid)
  {
    |g| == GridSize && forall i :: 0 <= i < |g| ==> |g[i]| == GridSize
  }

  /** (r, c) lies inside [0, GridSize)^2. */
  predicate InBoard(r: int, c: int)
  {
    0 <= r < GridSize && 0 <= c < GridSize
  }

  /** Indexing `g[r][c]` does not go out of range. */
  predicate Readable(g: Grid, r: int, c: int)
  {
    0 <= r < |g| && 0 <= c < |g[r]|
  }

  /** (r, c) is inside the board, can be read, and holds a live cell. */
  predicate Live(g: Grid, r: int, c: int)
  {
    InBoard(r, c) && Readable(g, r, c) && g[r][c]
  }

  function Abs(x: int): nat
  {
    if x < 0 then -x else x
  }

  /** Chessboard distance between two cells, with no wrap-around. */
  function Chebyshev(row: int, col: int, r: int, c: int): nat
  {
    var dr := Abs(r - row);
    var dc := Abs(c - col);
    if dr < dc then dc else dr
  }

  /** Reference count: the live cells at chessboard distance exactly 1
      from (row, col) that lie inside the board. */
  ghost function LiveNeighbors(g: Grid, row: int, col: int): set<(int, int)>
  {
    set r: int, c: int | row - 1 <= r <= row + 1 && col - 1 <= c <= col + 1
      && Chebyshev(row, col, r, c) == 1 && Live(g, r, c) :: (r, c)
  }

  /** Counting the neighbours of (row, col) reads a cell that the board-size
      check lets through but that is not in `g`: the Go code panics. */
  ghost predicate ReadsOutside(g: Grid, row: int, col: int)
  {
    exists r: int, c: int :: row - 1 <= r <= row + 1 && col - 1 <= c <= col + 1
      && Chebyshev(row, col, r, c) == 1 && InBoard(r, c) && !Readable(g, r, c)
  }

  /** The birth/survival/death rule. */
  predicate Rule(alive: bool, liveNeighbors: int)
  {
    if alive then liveNeighbors == 2 || liveNeighbors == 3 else liveNeighbors == 3
  }

  // ---------------------------------------------------------------------------
  // countLiveNeighbors
  // ---------------------------------------------------------------------------

  /** Position of the offset (dr, dc) in the order the nested offset loops
      visit the 3x3 window: row offset outer, column offset inner. */
  function OffsetIndex(dr: int, dc: int): int
  {
    (dr + 1) * 3 + (dc + 1)
  }

  /** The live neighbours among the first k offsets visited. */
  ghost function LiveAmong(g: Grid, row: int, col: int, k: int): set<(int, int)>
  {
    set r: int, c: int | row - 1 <= r <= row + 1 && col - 1 <= c <= col + 1
      && (r, c) != (row, col) && OffsetIndex(r - row, c - col) < k
      && Live(g, r, c) :: (r, c)
  }

  /** An out-of-range read among the first k offsets visited. */
  ghost predicate ReadsOutsideAmong(g: Grid, row: int, col: int, k: int)
  {
    exists r: int, c: int :: row - 1 <= r <= row + 1 && col - 1 <= c <= col + 1
      && (r, c) != (row, col) && OffsetIndex(r - row, c - col) < k
      && InBoard(r, c) && !Readable(g, r, c)
  }

  /** Visiting offset (dr, dc) adds at most its own cell to the live set. */
  lemma LiveAmongStep(g: Grid, row: int, col: int, dr: int, dc: int)
    requires -1 <= dr <= 1 && -1 <= dc <= 1
    ensures (row + dr, col + dc) !in LiveAmong(g, row, col, OffsetIndex(dr, dc))
    ensures LiveAmong(g, row, col, OffsetIndex(dr, dc) + 1)
      == LiveAmong(g, row, col, OffsetIndex(dr, dc))
         + (if (dr, dc) != (0, 0) && Live(g, row + dr, col + dc) then {(row + dr, col + dc)} else {})
  {
  }

  /** The running count grows by one exactly when the visited neighbour is live. */
  lemma LiveAmongCount(g: Grid, row: int, col: int, dr: int, dc: int, k: int)
    requires -1 <= dr <= 1 && -1 <= dc <= 1 && k == OffsetIndex(dr, dc)
    ensures |LiveAmong(g, row, col, k + 1)|
      == |LiveAmong(g, row, col, k)| + (if (dr, dc) != (0, 0) && Live(g, row + dr, col + dc) then 1 else 0)
  {
    LiveAmongStep(g, row, col, dr, dc);
  }

  /** Visiting offset (dr, dc) adds at most its own out-of-range read. */
  lemma ReadsOutsideAmongStep(g: Grid, row: int, col: int, dr: int, dc: int)
    requires -1 <= dr <= 1 && -1 <= dc <= 1
    requires !ReadsOutsideAmong(g, row, col, OffsetIndex(dr, dc))
    requires (dr, dc) != (0, 0) ==> !InBoard(row + dr, col + dc) || Readable(g, row + dr, col + dc)
    ensures !ReadsOutsideAmong(g, row, col, OffsetIndex(dr, dc) + 1)
  {
  }

  /** Once all nine offsets are visited, the loop's partial results are the
      reference count and the reference panic condition. */
  lemma AmongAllOffsets(g: Grid, row: int, col: int)
    ensures LiveAmong(g, row, col, 9) == LiveNeighbors(g, row, col)
    ensures ReadsOutsideAmong(g, row, col, 9) <==> ReadsOutside(g, row, col)
  {
  }

  /** The guarded read of one neighbour: the bounds check against GridSize,
      short-circuited, then `g[nr][nc]`, which is out of range when `g` is
      smaller than the board. */
  method CheckNeighbor(g: Grid, nr: int, nc: int) returns (outOfRange: bool, alive: bool)
    ensures outOfRange <==> InBoard(nr, nc) && !Readable(g, nr, nc)
    ensures !outOfRange ==> (alive <==> Live(g, nr, nc))
  {
    outOfRange, alive := false, false;
    if 0 <= nr && nr < GridSize && 0 <= nc && nc < GridSize {
      if !(nr < |g| && nc < |g[nr]|) {
        outOfRange := true;
      } else {
        alive := g[nr][nc];
      }
    }
  }

  /** `countLiveNeighbors`: the same nested offset loops, the same skip of
      the centre, the same short-circuit bounds check against GridSize. A
      read the bounds check lets through but `g` cannot serve is a panic. */
  method CountLiveNeighbors(g: Grid, row: int, col: int) returns (r: Option<int>)
    ensures r.None? <==> ReadsOutside(g, row, col)
    ensures r.Some? ==> r.value == |LiveNeighbors(g, row, col)|
    ensures r.Some? ==> 0 <= r.value <= 8
  {
    var live := 0;
    ghost var k := 0;
    var dr := -1;
    while dr <= 1
      invariant -1 <= dr <= 2 && k == OffsetIndex(dr, -1)
      invariant live == |LiveAmong(g, row, col, k)|
      invariant !ReadsOutsideAmong(g, row, col, k)
      invariant 0 <= live <= k - (if dr > 0 then 1 else 0)
    {
      var dc := -1;
      while dc <= 1
        invariant -1 <= dc <= 2 && k == OffsetIndex(dr, dc)
        invariant live == |LiveAmong(g, row, col, k)|
        invariant !ReadsOutsideAmong(g, row, col, k)
        invariant 0 <= live <= k - (if k > 4 then 1 else 0)
      {
        LiveAmongCount(g, row, col, dr, dc, k);
        if !(dr == 0 && dc == 0) {
          var outOfRange, alive := CheckNeighbor(g, row + dr, col + dc);
          if outOfRange {
            assert Chebyshev(row, col, row + dr, col + dc) == 1;
            return None;
          }
          if alive {
            live := live + 1;
          }
        }
        ReadsOutsideAmongStep(g, row, col, dr, dc);
        dc := dc + 1;
        k := k + 1;
      }
      dr := dr + 1;
    }
    AmongAllOffsets(g, row, col);
    return Some(live);
  }

  /** A subset is no larger than its superset. */
  lemma SubsetCard<T>(a: set<T>, b: set<T>)
    requires a <= b
    ensures |a| <= |b|
  {
    assert b == a + (b - a);
  }

  /** A corner cell has at most 3 live neighbours: nothing wraps around. */
  lemma CornerAtMostThree(g: Grid, row: int, col: int)
    requires row == 0 || row == GridSize - 1
    requires col == 0 || col == GridSize - 1
    ensures |LiveNeighbors(g, row, col)| <= 3
  {
    var dr := if row == 0 then 1 else -1;
    var dc := if col == 0 then 1 else -1;
    var window := {(row + dr, col), (row, col + dc), (row + dr, col + dc)};
    forall p | p in LiveNeighbors(g, row, col) ensures p in window {
    }
    SubsetCard(LiveNeighbors(g, row, col), window);
  }

  /** A cell on an edge but not in a corner has at most 5 live neighbours. */
  lemma EdgeAtMostFive(g: Grid, row: int, col: int)
    requires || ((row == 0 || row == GridSize - 1) && 0 < col < GridSize - 1)
             || ((col == 0 || col == GridSize - 1) && 0 < row < GridSize - 1)
    ensures |LiveNeighbors(g, row, col)| <= 5
  {
    var window: set<(int, int)>;
    if row == 0 || row == GridSize - 1 {
      var dr := if row == 0 then 1 else -1;
      window := {(row, col - 1), (row, col + 1), (row + dr, col - 1), (row + dr, col), (row + dr, col + 1)};
    } else {
      var dc := if col == 0 then 1 else -1;
      window := {(row - 1, col), (row + 1, col), (row - 1, col + dc), (row, col + dc), (row + 1, col + dc)};
    }
    forall p | p in LiveNeighbors(g, row, col) ensures p in window {
    }
    SubsetCard(LiveNeighbors(g, row, col), window);
  }

  /** Changing a cell that is not at chessboard distance 1 from (row, col),
      the cell itself included, changes neither the count nor whether
      counting panics. In particular nothing wraps around the board. */
  lemma CountIgnoresNonNeighbor(g: Grid, row: int, col: int, r: int, c: int, b: bool)
    requires Readable(g, r, c)
    requires Chebyshev(row, col, r, c) != 1
    ensures LiveNeighbors(g[r := g[r][c := b]], row, col) == LiveNeighbors(g, row, col)
    ensures ReadsOutside(g[r := g[r][c := b]], row, col) <==> ReadsOutside(g, row, col)
  {
  }

  // ---------------------------------------------------------------------------
  // nextGeneration
  // ---------------------------------------------------------------------------

  /** Processing the visited cell (i, j) panics: either counting its
      neighbours reads out of range, or the write to the 10x10 output grid
      at (i, j) is out of range. */
  ghost predicate CellPanics(g: Grid, i: int, j: int)
  {
    ReadsOutside(g, i, j) || !InBoard(i, j)
  }

  /** Some cell the loops visit (every `g[i][j]` that exists) panics. */
  ghost predicate Panics(g: Grid)
  {
    exists i, j :: Readable(g, i, j) && CellPanics(g, i, j)
  }

  /** Cell (i, j) of the output: the rule applied to the input cell when the
      loops visit (i, j), otherwise whatever the initial grid held. */
  ghost function NextCell(g: Grid, init: Grid, i: int, j: int): bool
    requires IsBoard(init) && InBoard(i, j)
  {
    if Readable(g, i, j) then Rule(g[i][j], |LiveNeighbors(g, i, j)|) else init[i][j]
  }

  /** The output grid when nothing panics. */
  ghost function NextGrid(g: Grid, init: Grid): Grid
    requires IsBoard(init)
  {
    seq(GridSize, i requires 0 <= i < GridSize =>
      seq(GridSize, j requires 0 <= j < GridSize => NextCell(g, init, i, j)))
  }

  /** Functional statement of `nextGeneration`, with the output grid starting
      from an arbitrary 10x10 `init` in place of `initializeGrid`. */
  ghost function NextGenerationOf(g: Grid, init: Grid): Option<Grid>
    requires IsBoard(init)
  {
    if Panics(g) then None
    else Some(NextGrid(g, init))
  }

  /** `nextGeneration`: nested loops over the rows and cells of the input,
      overwriting cells of a grid that starts out as `init`. */
  method NextGeneration(g: Grid, init: Grid) returns (r: Option<Grid>)
    requires IsBoard(init)
    ensures r == NextGenerationOf(g, init)
    ensures IsBoard(g) ==> r.Some? && IsBoard(r.value)
    ensures IsBoard(g) && r.Some? ==> forall i, j :: InBoard(i, j) && g[i][j] ==>
      (r.value[i][j] <==> |LiveNeighbors(g, i, j)| == 2 || |LiveNeighbors(g, i, j)| == 3)
    ensures IsBoard(g) && r.Some? ==> forall i, j :: InBoard(i, j) && !g[i][j] ==>
      (r.value[i][j] <==> |LiveNeighbors(g, i, j)| == 3)
  {
    var newGrid := init;
    var i := 0;
    while i < |g|
      invariant 0 <= i <= |g|
      invariant IsBoard(newGrid)
      invariant forall a, b :: Readable(g, a, b) && a < i ==> !CellPanics(g, a, b)
      invariant forall a, b :: InBoard(a, b) ==>
        newGrid[a][b] == if a < i then NextCell(g, init, a, b) else init[a][b]
    {
      var j := 0;
      while j < |g[i]|
        invariant 0 <= j <= |g[i]|
        invariant IsBoard(newGrid)
        invariant forall a, b :: Readable(g, a, b) && (a < i || (a == i && b < j)) ==> !CellPanics(g, a, b)
        invariant forall a, b :: InBoard(a, b) ==>
          newGrid[a][b] == if a < i || (a == i && b < j) then NextCell(g, init, a, b) else init[a][b]
      {
        var liveNeighbors := CountLiveNeighbors(g, i, j);
        if liveNeighbors.None? || !(i < GridSize && j < GridSize) {
          assert Readable(g, i, j) && CellPanics(g, i, j);
          return None;
        }
        var n := liveNeighbors.value;
        var cell;
        if g[i][j] {
          cell := n == 2 || n == 3;
        } else {
          cell := n == 3;
        }
        newGrid := newGrid[i := newGrid[i][j := cell]];
        j := j + 1;
      }
      i := i + 1;
    }
    var expected := NextGrid(g, init);
    forall a | 0 <= a < GridSize ensures newGrid[a] == expected[a] {
    }
    assert newGrid == expected;
    if IsBoard(g) {
      NextGenerationOnBoard(g, init);
    }
    return Some(newGrid);
  }

  /** One generation of a 10x10 board, with nothing left over from any
      initial grid. */
  ghost function Step(g: Grid): (r: Grid)
    requires IsBoard(g)
    ensures IsBoard(r)
  {
    seq(GridSize, i requires 0 <= i < GridSize =>
      seq(GridSize, j requires 0 <= j < GridSize => Rule(g[i][j], |LiveNeighbors(g, i, j)|)))
  }

  /** A 10x10 board followed by any number of empty rows: the trailing rows
      are never visited, nothing panics, and every cell of the initial grid
      is overwritten, so the result is the next generation of the board. */
  lemma BoardWithEmptyTail(g: Grid, init: Grid)
    requires IsBoard(init)
    requires |g| >= GridSize && IsBoard(g[..GridSize])
    requires forall i :: GridSize <= i < |g| ==> |g[i]| == 0
    ensures NextGenerationOf(g, init) == Some(Step(g[..GridSize]))
  {
    var b := g[..GridSize];
    forall i, j | Readable(g, i, j) ensures !CellPanics(g, i, j) {
    }
    forall i, j | InBoard(i, j) ensures LiveNeighbors(g, i, j) == LiveNeighbors(b, i, j) {
      forall p | p in LiveNeighbors(b, i, j) ensures p in LiveNeighbors(g, i, j) {
        assert b[p.0] == g[p.0];
      }
    }
    var out := NextGrid(g, init);
    forall i | 0 <= i < GridSize ensures out[i] == Step(b)[i] {
      assert b[i] == g[i];
    }
    assert out == Step(b);
  }

  /** On a 10x10 input the result is `Step(g)`, whatever `init` held. */
  lemma NextGenerationOnBoard(g: Grid, init: Grid)
    requires IsBoard(g) && IsBoard(init)
    ensures NextGenerationOf(g, init) == Some(Step(g))
  {
    assert g[..GridSize] == g;
    BoardWithEmptyTail(g, init);
  }

  /** The random contents of the initial grid never reach the result of a
      10x10 input. */
  lemma InitIrrelevantOnBoard(g: Grid, init1: Grid, init2: Grid)
    requires IsBoard(g) && IsBoard(init1) && IsBoard(init2)
    ensures NextGenerationOf(g, init1) == NextGenerationOf(g, init2)
  {
    NextGenerationOnBoard(g, init1);
    NextGenerationOnBoard(g, init2);
  }

  /** An input whose rows are all empty (no rows at all, say) visits no
      cell, so the initial grid is returned as it is. */
  lemma NoCellVisitedReturnsInit(g: Grid, init: Grid)
    requires IsBoard(init)
    requires forall i :: 0 <= i < |g| ==> |g[i]| == 0
    ensures NextGenerationOf(g, init) == Some(init)
  {
    var out := NextGrid(g, init);
    forall i | 0 <= i < GridSize ensures out[i] == init[i] {
    }
    assert out == init;
    assert !Panics(g);
  }

  /** Hence the result is not a function of the input alone: two different
      initial grids give two different results for the empty input. */
  lemma EmptyInputDependsOnInit(init1: Grid, init2: Grid)
    requires IsBoard(init1) && IsBoard(init2) && init1 != init2
    ensures NextGenerationOf([], init1) != NextGenerationOf([], init2)
  {
    NoCellVisitedReturnsInit([], init1);
    NoCellVisitedReturnsInit([], init2);
  }

  /** Without a panic, every row is either empty or a full row of the board:
      a non-empty row at index 10 or beyond, or a row longer than 10, would
      write outside the output grid, and a row shorter than 10 would read
      past its own end when its last cell's right-hand neighbour is counted. */
  lemma NonEmptyRowIsFull(g: Grid, i: int)
    requires !Panics(g)
    requires 0 <= i < |g|
    ensures |g[i]| == 0 || (i < GridSize && |g[i]| == GridSize)
  {
    if |g[i]| > 0 {
      if i >= GridSize {
        assert Readable(g, i, 0) && CellPanics(g, i, 0);
      } else if |g[i]| > GridSize {
        assert Readable(g, i, GridSize) && CellPanics(g, i, GridSize);
      } else if |g[i]| < GridSize {
        var j := |g[i]| - 1;
        assert Chebyshev(i, j, i, j + 1) == 1 && InBoard(i, j + 1) && !Readable(g, i, j + 1);
        assert Readable(g, i, j) && CellPanics(g, i, j);
      }
    }
  }

  /** A non-empty row that is not a row of the board makes the loops panic. */
  lemma OffBoardRowPanics(g: Grid, init: Grid, i: int)
    requires IsBoard(init)
    requires 0 <= i < |g| && |g[i]| > 0
    requires i >= GridSize || |g[i]| != GridSize
    ensures NextGenerationOf(g, init) == None
  {
    if !Panics(g) {
      NonEmptyRowIsFull(g, i);
    }
  }

  /** Without a panic, a non-empty row forces the rows just above and below
      it on the board to be full: counting the neighbours of its first cell
      reads them. */
  lemma NeighborRowIsFull(g: Grid, i: int, d: int)
    requires !Panics(g)
    requires 0 <= i < |g| && |g[i]| > 0
    requires (d == -1 || d == 1) && 0 <= i + d < GridSize
    ensures i + d < |g| && |g[i + d]| == GridSize
  {
    NonEmptyRowIsFull(g, i);
    assert Readable(g, i, 0);
    assert !ReadsOutside(g, i, 0);
    assert Chebyshev(i, 0, i + d, 0) == 1 && InBoard(i + d, 0);
    assert Readable(g, i + d, 0);
    NonEmptyRowIsFull(g, i + d);
  }

  /** Without a panic, one non-empty row makes every row of the board full. */
  lemma {:induction false} RowsFullFrom(g: Grid, i: int, j: int)
    requires !Panics(g)
    requires 0 <= i < |g| && |g[i]| > 0
    requires 0 <= j < GridSize
    ensures j < |g| && |g[j]| == GridSize
    decreases Abs(j - i)
  {
    NonEmptyRowIsFull(g, i);
    if j == i {
      NonEmptyRowIsFull(g, i);
    } else if j > i {
      RowsFullFrom(g, i, j - 1);
      NeighborRowIsFull(g, j - 1, 1);
    } else {
      RowsFullFrom(g, i, j + 1);
      NeighborRowIsFull(g, j + 1, -1);
    }
  }

  /** The exact shape of an input with some cell that does not panic: a
      10x10 board followed only by empty rows. Its result is the next
      generation of that board, so the initial grid does not matter. With
      `NoCellVisitedReturnsInit` and `BoardWithEmptyTail` this sorts every
      input: no cells, a board with an empty tail, or a panic. */
  lemma NoPanicMeansBoard(g: Grid, init: Grid)
    requires IsBoard(init)
    requires NextGenerationOf(g, init) != None
    requires exists i :: 0 <= i < |g| && |g[i]| > 0
    ensures |g| >= GridSize && IsBoard(g[..GridSize])
    ensures forall i :: GridSize <= i < |g| ==> |g[i]| == 0
    ensures NextGenerationOf(g, init) == Some(Step(g[..GridSize]))
  {
    var i0 :| 0 <= i0 < |g| && |g[i0]| > 0;
    forall j | 0 <= j < GridSize ensures j < |g| && |g[j]| == GridSize {
      RowsFullFrom(g, i0, j);
    }
    RowsFullFrom(g, i0, GridSize - 1);
    assert IsBoard(g[..GridSize]);
    forall i | GridSize <= i < |g| ensures |g[i]| == 0 {
      NonEmptyRowIsFull(g, i);
    }
    BoardWithEmptyTail(g, init);
  }

  /** An all-dead board stays all dead: it is a fixed point. */
  lemma AllDeadIsFixedPoint(g: Grid, init: Grid)
    requires IsBoard(g) && IsBoard(init)
    requires forall i, j :: InBoard(i, j) ==> !g[i][j]
    ensures NextGenerationOf(g, init) == Some(g)
  {
    NextGenerationOnBoard(g, init);
    forall i, j | InBoard(i, j) ensures LiveNeighbors(g, i, j) == {} {
      forall p | p in LiveNeighbors(g, i, j) ensures false {
      }
    }
    forall i | 0 <= i < GridSize ensures Step(g)[i] == g[i] {
    }
    assert Step(g) == g;
  }
}
