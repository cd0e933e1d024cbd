// conways-2d-html.ts: the Game of Life drawn as a grid of `div`s. The page's `div`s are
// modelled as a sequence of rows of cell states (`cells[x][y]` is the `div` with id
// `cell-x-y`, its class `cell-on` or `cell-off`); looking a cell up outside that grid
// finds no `div`. Cells beyond the edge count as dead: the board does not wrap.

module LifeHtml {
  import opened Common

  /** The class of a cell `div`. */
  datatype State = On | Off

  /** `document.getElementById('cell-x-y')`: the cell's state, or nothing off the grid. */
  function Lookup(cells: seq<seq<State>>, x: int, y: int): (r: Option<State>)
    ensures r.Some? <==> 0 <= x < |cells| && 0 <= y < |cells[x]|
    ensures r.Some? ==> r.value == cells[x][y]
  {
    if 0 <= x < |cells| && 0 <= y < |cells[x]| then Some(cells[x][y]) else None
  }

  /** 1 for a `div` that exists and has class `cell-on`, else 0. */
  function Alive(cells: seq<seq<State>>, x: int, y: int): int {
    if Lookup(cells, x, y) == Some(On) then 1 else 0
  }

  /** The live cells among the eight around (x, y). */
  function AliveNeighbors(cells: seq<seq<State>>, x: int, y: int): (n: int)
    ensures 0 <= n <= 8
  {
    Alive(cells, x - 1, y - 1) + Alive(cells, x - 1, y) + Alive(cells, x - 1, y + 1) +
    Alive(cells, x, y - 1) + Alive(cells, x, y + 1) +
    Alive(cells, x + 1, y - 1) + Alive(cells, x + 1, y) + Alive(cells, x + 1, y + 1)
  }

  /** The count of the `countAliveNeighbors` loops after the first `c` columns of window
    * row `i` (`j` from `y - 1`), the cell itself skipped. */
  function RowPart(cells: seq<seq<State>>, x: int, y: int, i: int, c: int): int
    requires 0 <= c <= 3
  {
    if c == 0 then 0
    else RowPart(cells, x, y, i, c - 1) + (if i == x && y - 2 + c == y then 0 else Alive(cells, i, y - 2 + c))
  }

  /** The count after the first `r` window rows (`i` from `x - 1`). */
  function Window(cells: seq<seq<State>>, x: int, y: int, r: int): int
    requires 0 <= r <= 3
  {
    if r == 0 then 0 else Window(cells, x, y, r - 1) + RowPart(cells, x, y, x - 2 + r, 3)
  }

  /** The whole 3 by 3 window, the cell itself skipped, is the eight neighbours. */
  lemma WindowIsNeighbors(cells: seq<seq<State>>, x: int, y: int)
    ensures Window(cells, x, y, 3) == AliveNeighbors(cells, x, y)
  {
    RowPartFull(cells, x, y, x - 1);
    RowPartFull(cells, x, y, x);
    RowPartFull(cells, x, y, x + 1);
    assert Window(cells, x, y, 1) == RowPart(cells, x, y, x - 1, 3);
    assert Window(cells, x, y, 2) == Window(cells, x, y, 1) + RowPart(cells, x, y, x, 3);
  }

  lemma RowPartFull(cells: seq<seq<State>>, x: int, y: int, i: int)
    ensures RowPart(cells, x, y, i, 3) ==
      Alive(cells, i, y - 1) + (if i == x then 0 else Alive(cells, i, y)) + Alive(cells, i, y + 1)
  {
    assert RowPart(cells, x, y, i, 1) == Alive(cells, i, y - 1);
  }

  /** `calculateOnOrOff(x, y)`: no `div`, `cell-off`; a live cell stays on with 2 or 3
    * live neighbours; any other cell comes on with exactly 3. */
  function NextCell(cells: seq<seq<State>>, x: int, y: int): (r: State)
    ensures Lookup(cells, x, y).None? ==> r == Off
    ensures Lookup(cells, x, y) == Some(On) ==>
      (r == On <==> AliveNeighbors(cells, x, y) == 2 || AliveNeighbors(cells, x, y) == 3)
    ensures Lookup(cells, x, y) == Some(Off) ==> (r == On <==> AliveNeighbors(cells, x, y) == 3)
  {
    match Lookup(cells, x, y)
    case None => Off
    case Some(state) =>
      var n := AliveNeighbors(cells, x, y);
      if state == On then
        if n > 3 then Off else if n > 1 then On else Off
      else if n == 3 then On else Off
  }

  /** Row `x` of `calculateNextStates()`. */
  function NextRow(cells: seq<seq<State>>, x: int, cols: nat): (row: seq<State>)
    ensures |row| == cols
  {
    seq(cols, y => NextCell(cells, x, y))
  }

  /** `calculateNextStates()`: `rows` by `cols` next states, all read off the current page. */
  function Next(cells: seq<seq<State>>, rows: nat, cols: nat): (states: seq<seq<State>>)
    ensures |states| == rows && forall x :: 0 <= x < rows ==> |states[x]| == cols
  {
    seq(rows, x => NextRow(cells, x, cols))
  }

  /** `applyStates(states)`: every cell that has a state gets it; the others keep theirs. */
  function Apply(cells: seq<seq<State>>, states: seq<seq<State>>): (r: seq<seq<State>>)
    ensures |r| == |cells| && forall x :: 0 <= x < |r| ==> |r[x]| == |cells[x]|
  {
    seq(|cells|, x requires 0 <= x < |cells| =>
      seq(|cells[x]|, y requires 0 <= y < |cells[x]| =>
        if x < |states| && y < |states[x]| then states[x][y] else cells[x][y]))
  }

  predicate Rectangular(cells: seq<seq<State>>, rows: nat, cols: nat) {
    |cells| == rows && forall x :: 0 <= x < rows ==> |cells[x]| == cols
  }

  /** One frame of `animate` on the page `initCells` built is one Life generation: every
    * cell takes the state computed from the board as it was before the frame. */
  lemma FrameIsGeneration(cells: seq<seq<State>>, rows: nat, cols: nat)
    requires Rectangular(cells, rows, cols)
    ensures Apply(cells, Next(cells, rows, cols)) == Next(cells, rows, cols)
  {
    var after, next := Apply(cells, Next(cells, rows, cols)), Next(cells, rows, cols);
    forall x | 0 <= x < rows
      ensures after[x] == next[x]
    {
      assert after[x] == next[x];
    }
  }

  /** Off the grid nothing is alive: a corner cell has only its three in-grid neighbours. */
  lemma CornerNeighbors(cells: seq<seq<State>>)
    requires |cells| >= 2 && |cells[0]| >= 2 && |cells[1]| >= 2
    ensures AliveNeighbors(cells, 0, 0) == Alive(cells, 0, 1) + Alive(cells, 1, 0) + Alive(cells, 1, 1)
    ensures AliveNeighbors(cells, 0, 0) <= 3
  {
  }

  /** The count does not look at the cell itself. */
  lemma NeighborsIgnoreSelf(cells: seq<seq<State>>, x: int, y: int, s: State)
    requires 0 <= x < |cells| && 0 <= y < |cells[x]|
    ensures AliveNeighbors(cells[x := cells[x][y := s]], x, y) == AliveNeighbors(cells, x, y)
  {
  }

  // ---------------------------------------------------------------------------------
  // Sizes

  /** `Math.ceil(a / b)` for a positive divisor. */
  function CeilDiv(a: int, b: int): (r: int)
    requires b > 0
    ensures (r - 1) * b < a <= r * b
  {
    -((-a) / b)
  }

  lemma MulLessCancel(a: int, b: int, s: int)
    requires s > 0 && a * s < b * s
    ensures a < b
  {
    assert (b - a) * s == b * s - a * s;
  }

  /** With `cellSize = ceil(width / cols)`, `ceil(width / cellSize)` columns cover the
    * width and are never more than the `cols` asked for. */
  lemma ColumnsFit(width: int, cols: int)
    requires width > 0 && cols > 0
    ensures CeilDiv(width, cols) > 0
    ensures CeilDiv(width, CeilDiv(width, cols)) <= cols
  {
    var s := CeilDiv(width, cols);
    var r := CeilDiv(width, s);
    assert s * cols == cols * s;
    MulLessCancel(r - 1, cols, s);
  }

  // ---------------------------------------------------------------------------------
  // Seeding

  /** How a cell is seeded from its draw of `Math.random()` and the density. */
  type SeedRule = (real, real) -> State

  /** `initLife` as written: a cell whose draw is below the density (`shouldBeLiving`)
    * is set off, any other cell on. */
  function SeedCellAsWritten(draw: real, density: real): State {
    if draw < density then Off else On
  }

  /** `initLife` as `shouldBeLiving` means it: a draw below the density makes a live cell. */
  function SeedCell(draw: real, density: real): State {
    if draw < density then On else Off
  }

  /** Every cell seeded by `rule` from its own draw. */
  function SeededBy(cells: seq<seq<State>>, draws: seq<seq<real>>, density: real, rule: SeedRule): (r: seq<seq<State>>)
    requires |draws| == |cells| && forall x :: 0 <= x < |cells| ==> |draws[x]| == |cells[x]|
    ensures |r| == |cells| && forall x :: 0 <= x < |r| ==> |r[x]| == |cells[x]|
    ensures forall x, y :: 0 <= x < |r| && 0 <= y < |r[x]| ==> r[x][y] == rule(draws[x][y], density)
  {
    seq(|cells|, x requires 0 <= x < |cells| =>
      seq(|cells[x]|, y requires 0 <= y < |cells[x]| => rule(draws[x][y], density)))
  }

  /** The board `initLife(density)` leaves as written: a cell is alive exactly when its
    * draw is at least the density. */
  function SeededAsWritten(cells: seq<seq<State>>, draws: seq<seq<real>>, density: real): (r: seq<seq<State>>)
    requires |draws| == |cells| && forall x :: 0 <= x < |cells| ==> |draws[x]| == |cells[x]|
    ensures |r| == |cells| && forall x :: 0 <= x < |r| ==> |r[x]| == |cells[x]|
    ensures forall x, y :: 0 <= x < |r| && 0 <= y < |r[x]| ==> (r[x][y] == On <==> draws[x][y] >= density)
  {
    SeededBy(cells, draws, density, SeedCellAsWritten)
  }

  /** The board `initLife(density)` is meant to leave: a cell is alive exactly when its
    * draw is below the density. */
  function Seeded(cells: seq<seq<State>>, draws: seq<seq<real>>, density: real): (r: seq<seq<State>>)
    requires |draws| == |cells| && forall x :: 0 <= x < |cells| ==> |draws[x]| == |cells[x]|
    ensures |r| == |cells| && forall x :: 0 <= x < |r| ==> |r[x]| == |cells[x]|
    ensures forall x, y :: 0 <= x < |r| && 0 <= y < |r[x]| ==> (r[x][y] == On <==> draws[x][y] < density)
  {
    SeededBy(cells, draws, density, SeedCell)
  }

  /** At density 100 every draw is "should be living", yet the page as written comes up
    * with every cell dead, the opposite of the intended full board. */
  lemma FullDensitySeedsNothing(cells: seq<seq<State>>, draws: seq<seq<real>>)
    requires |draws| == |cells| && forall x :: 0 <= x < |cells| ==> |draws[x]| == |cells[x]|
    requires forall x, y :: 0 <= x < |draws| && 0 <= y < |draws[x]| ==> 0.0 <= draws[x][y] < 1.0
    ensures forall x, y :: 0 <= x < |cells| && 0 <= y < |cells[x]| ==>
      SeededAsWritten(cells, draws, 1.0)[x][y] == Off && Seeded(cells, draws, 1.0)[x][y] == On
  {
  }

  // ---------------------------------------------------------------------------------
  // The page

  /** `GameManager` of conways-2d-html.ts: the window size read at construction, the
    * cell size, the animation flag, and the page's cells. */
  class LifePage {
    const width: int
    const height: int
    var cellSize: int
    var playing: bool
    var cells: seq<seq<State>>

    ghost predicate Valid()
      reads this
    {
      width > 0 && height > 0 && cellSize > 0
    }

    /** `calcNumberOfRows()`. */
    function NumRows(): (n: nat)
      requires Valid()
      reads this
      ensures (n - 1) * cellSize < height <= n * cellSize
    {
      CeilDiv(height, cellSize)
    }

    /** `calcNumberOfColumns()`. */
    function NumCols(): (n: nat)
      requires Valid()
      reads this
      ensures (n - 1) * cellSize < width <= n * cellSize
    {
      CeilDiv(width, cellSize)
    }

    /** `new GameManager(target, numberOfCols)` in a window of the given size: the target
      * starts without cells and the animation stopped. */
    constructor (numberOfCols: int, windowWidth: int, windowHeight: int)
      requires numberOfCols > 0 && windowWidth > 0 && windowHeight > 0
      ensures Valid() && !playing && cells == []
      ensures width == windowWidth && height == windowHeight
      ensures cellSize == CeilDiv(windowWidth, numberOfCols)
    {
      width := windowWidth;
      cellSize := CeilDiv(windowWidth, numberOfCols);
      height := windowHeight;
      playing := false;
      cells := [];
    }

    /** `initCells()`: the target is emptied and refilled with `NumRows()` rows of
      * `NumCols()` cells, all off. */
    method InitCells()
      requires Valid()
      modifies this
      ensures Valid() && unchanged(this`cellSize, this`playing)
      ensures Rectangular(cells, NumRows(), NumCols())
      ensures forall x, y :: 0 <= x < |cells| && 0 <= y < |cells[x]| ==> cells[x][y] == Off
    {
      var numRows := NumRows();
      var numCols := NumCols();
      var page := [];
      for x := 0 to numRows
        invariant |page| == x
        invariant forall p :: 0 <= p < x ==> page[p] == seq(numCols, _ => Off)
      {
        var row := [];
        for y := 0 to numCols
          invariant row == seq(y, _ => Off)
        {
          row := row + [Off];
        }
        page := page + [row];
      }
      cells := page;
    }

    /** The loop of `initLife(density)`, with `draws[x][y]` the value `Math.random()`
      * returns for the cell (x, y) and `rule` the state it gives the cell: every cell
      * of the first `NumRows()` rows and `NumCols()` columns that exists is set, and
      * nothing else changes. */
    method SeedPage(draws: seq<seq<real>>, density: real, rule: SeedRule)
      requires Valid()
      requires |draws| == |cells| && forall x :: 0 <= x < |cells| ==> |draws[x]| == |cells[x]|
      modifies this
      ensures Valid() && unchanged(this`cellSize, this`playing)
      ensures |cells| == |old(cells)| && forall p :: 0 <= p < |cells| ==> |cells[p]| == |old(cells)[p]|
      ensures forall p, q :: 0 <= p < |cells| && 0 <= q < |cells[p]| ==>
        cells[p][q] == if p < NumRows() && q < NumCols() then rule(draws[p][q], density) else old(cells)[p][q]
      ensures Rectangular(old(cells), NumRows(), NumCols()) ==> cells == SeededBy(old(cells), draws, density, rule)
    {
      var numRows := NumRows();
      var numCols := NumCols();
      var page := cells;
      for x := 0 to numRows
        invariant |page| == |cells| && forall p :: 0 <= p < |page| ==> |page[p]| == |cells[p]|
        invariant forall p, q :: 0 <= p < |page| && 0 <= q < |page[p]| ==>
          page[p][q] == if p < x && q < numCols then rule(draws[p][q], density) else cells[p][q]
      {
        for y := 0 to numCols
          invariant |page| == |cells| && forall p :: 0 <= p < |page| ==> |page[p]| == |cells[p]|
          invariant forall p, q :: 0 <= p < |page| && 0 <= q < |page[p]| ==>
            page[p][q] == if (p < x && q < numCols) || (p == x && q < y) then rule(draws[p][q], density) else cells[p][q]
        {
          if !(x < |page| && y < |page[x]|) {
            continue;
          }
          var state := rule(draws[x][y], density);
          page := page[x := page[x][y := state]];
        }
      }
      ghost var before := cells;
      cells := page;
      if Rectangular(before, numRows, numCols) {
        assert forall p :: 0 <= p < |cells| ==> cells[p] == SeededBy(before, draws, density, rule)[p];
      }
    }

    /** `initLife(density)` as written: on a page of `NumRows()` by `NumCols()` cells, a
      * cell ends up alive exactly when its draw is at least the density. */
    method InitLife(draws: seq<seq<real>>, density: real)
      requires Valid()
      requires |draws| == |cells| && forall x :: 0 <= x < |cells| ==> |draws[x]| == |cells[x]|
      modifies this
      ensures Valid() && unchanged(this`cellSize, this`playing)
      ensures Rectangular(old(cells), NumRows(), NumCols()) ==> cells == SeededAsWritten(old(cells), draws, density)
      ensures Rectangular(old(cells), NumRows(), NumCols()) ==> forall x, y :: 0 <= x < |cells| && 0 <= y < |cells[x]| ==>
        (cells[x][y] == On <==> draws[x][y] >= density)
    {
      SeedPage(draws, density, SeedCellAsWritten);
    }

    /** `initLife(density)` with the two branches the right way round: a cell ends up
      * alive exactly when its draw is below the density. */
    method InitLifeIntended(draws: seq<seq<real>>, density: real)
      requires Valid()
      requires |draws| == |cells| && forall x :: 0 <= x < |cells| ==> |draws[x]| == |cells[x]|
      modifies this
      ensures Valid() && unchanged(this`cellSize, this`playing)
      ensures Rectangular(old(cells), NumRows(), NumCols()) ==> cells == Seeded(old(cells), draws, density)
      ensures Rectangular(old(cells), NumRows(), NumCols()) ==> forall x, y :: 0 <= x < |cells| && 0 <= y < |cells[x]| ==>
        (cells[x][y] == On <==> draws[x][y] < density)
    {
      SeedPage(draws, density, SeedCell);
    }

    /** `restart(densityInput, columnsInput)` with both inputs already parsed as integers:
      * the animation stops, the cell size is recomputed from the window width, and the
      * page is rebuilt and seeded by `initLife` as written, so a cell is alive exactly
      * when its draw is at least the density. */
    method Restart(densityInput: int, cols: int, windowWidth: int, draws: seq<seq<real>>)
      requires Valid() && cols > 0 && windowWidth > 0
      requires |draws| == CeilDiv(height, CeilDiv(windowWidth, cols))
      requires forall x :: 0 <= x < |draws| ==> |draws[x]| == CeilDiv(width, CeilDiv(windowWidth, cols))
      modifies this
      ensures Valid() && !playing && cellSize == CeilDiv(windowWidth, cols)
      ensures Rectangular(cells, NumRows(), NumCols())
      ensures forall x, y :: 0 <= x < |cells| && 0 <= y < |cells[x]| ==>
        (cells[x][y] == On <==> draws[x][y] >= densityInput as real / 100.0)
    {
      Stop();
      cellSize := CeilDiv(windowWidth, cols);
      cells := [];
      InitCells();
      InitLife(draws, densityInput as real / 100.0);
    }

    /** `restart` seeding through the corrected `initLife`: a cell is alive exactly when
      * its draw is below the density. */
    method RestartIntended(densityInput: int, cols: int, windowWidth: int, draws: seq<seq<real>>)
      requires Valid() && cols > 0 && windowWidth > 0
      requires |draws| == CeilDiv(height, CeilDiv(windowWidth, cols))
      requires forall x :: 0 <= x < |draws| ==> |draws[x]| == CeilDiv(width, CeilDiv(windowWidth, cols))
      modifies this
      ensures Valid() && !playing && cellSize == CeilDiv(windowWidth, cols)
      ensures Rectangular(cells, NumRows(), NumCols())
      ensures forall x, y :: 0 <= x < |cells| && 0 <= y < |cells[x]| ==>
        (cells[x][y] == On <==> draws[x][y] < densityInput as real / 100.0)
    {
      Stop();
      cellSize := CeilDiv(windowWidth, cols);
      cells := [];
      InitCells();
      InitLifeIntended(draws, densityInput as real / 100.0);
    }

    /** `play()`: starts the animation, and asks for a first frame, only when it is not
      * already running. */
    method Play() returns (scheduled: bool)
      modifies this
      ensures playing && scheduled == !old(playing)
      ensures unchanged(this`cells, this`cellSize)
    {
      scheduled := false;
      if !playing {
        playing := true;
        scheduled := true;
      }
    }

    /** `stop()`: the next frame does nothing. */
    method Stop()
      modifies this
      ensures !playing && unchanged(this`cells, this`cellSize)
    {
      playing := false;
    }

    /** One `animate` frame: while playing, the next states of the whole board are
      * computed first and only then applied. */
    method Animate()
      requires Valid()
      modifies this
      ensures unchanged(this`cellSize, this`playing)
      ensures cells == if playing then Apply(old(cells), Next(old(cells), NumRows(), NumCols())) else old(cells)
    {
      if playing {
        var nextStates := CalculateNextStates();
        ApplyStates(nextStates);
      }
    }

    /** `calculateNextStates()`. */
    method CalculateNextStates() returns (states: seq<seq<State>>)
      requires Valid()
      ensures states == Next(cells, NumRows(), NumCols())
    {
      var numRows := NumRows();
      var numCols := NumCols();
      states := [];
      for x := 0 to numRows
        invariant |states| == x && forall p :: 0 <= p < x ==> states[p] == NextRow(cells, p, numCols)
      {
        var row := [];
        for y := 0 to numCols
          invariant |row| == y && forall q :: 0 <= q < y ==> row[q] == NextCell(cells, x, q)
        {
          var nextClass := CalculateOnOrOff(x, y);
          row := row + [nextClass];
        }
        states := states + [row];
      }
    }

    /** `calculateOnOrOff(x, y)`. */
    method CalculateOnOrOff(x: int, y: int) returns (state: State)
      ensures state == NextCell(cells, x, y)
    {
      if !(0 <= x < |cells| && 0 <= y < |cells[x]|) {
        return Off;
      }
      var numberOfLivingNeighbors := CountAliveNeighbors(x, y);
      if cells[x][y] == On {
        if numberOfLivingNeighbors > 3 {
          return Off;
        }
        if numberOfLivingNeighbors > 1 {
          return On;
        }
        return Off;
      }
      if numberOfLivingNeighbors == 3 {
        return On;
      }
      return Off;
    }

    /** `countAliveNeighbors(x, y)`: the live cells of the 3 by 3 window around (x, y),
      * the cell itself skipped and cells off the grid counted as dead. */
    method CountAliveNeighbors(x: int, y: int) returns (count: int)
      ensures count == AliveNeighbors(cells, x, y)
    {
      count := 0;
      for i := x - 1 to x + 2
        invariant count == Window(cells, x, y, i - x + 1)
      {
        for j := y - 1 to y + 2
          invariant count == Window(cells, x, y, i - x + 1) + RowPart(cells, x, y, i, j - y + 1)
        {
          if !(i == x && j == y) {
            if 0 <= i < |cells| && 0 <= j < |cells[i]| && cells[i][j] == On {
              count := count + 1;
            }
          }
        }
      }
      WindowIsNeighbors(cells, x, y);
    }

    /** `applyStates(nextStates)`. */
    method ApplyStates(nextStates: seq<seq<State>>)
      modifies this
      ensures unchanged(this`cellSize, this`playing)
      ensures cells == Apply(old(cells), nextStates)
    {
      var page := cells;
      for x := 0 to |nextStates|
        invariant |page| == |cells| && forall p :: 0 <= p < |page| ==> |page[p]| == |cells[p]|
        invariant forall p, q :: 0 <= p < |page| && 0 <= q < |page[p]| ==>
          page[p][q] == if p < x && p < |nextStates| && q < |nextStates[p]| then nextStates[p][q] else cells[p][q]
      {
        for y := 0 to |nextStates[x]|
          invariant |page| == |cells| && forall p :: 0 <= p < |page| ==> |page[p]| == |cells[p]|
          invariant forall p, q :: 0 <= p < |page| && 0 <= q < |page[p]| ==>
            page[p][q] ==
              if (p < x || (p == x && q < y)) && p < |nextStates| && q < |nextStates[p]| then nextStates[p][q] else cells[p][q]
        {
          if 0 <= x < |page| && 0 <= y < |page[x]| {
            page := page[x := page[x][y := nextStates[x][y]]];
          }
        }
      }
      assert forall p :: 0 <= p < |page| ==> page[p] == Apply(cells, nextStates)[p];
      cells := page;
    }
  }
}
