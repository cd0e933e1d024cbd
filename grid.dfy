// The 2048 board of tile objects (2048ai/grid.ts): a column-major `cells[x][y]`
// table of tiles or nulls. The ghost field `board` is the value view of the table
// that the move rules of move_rules.dfy speak about; `Valid` ties the two together
// and records that every tile sits at the cell its own coordinates name.

module Grids {
  import opened Common
  import opened Tiles
  import opened MoveRules

  type Cells = seq<seq<Tile?>>

  /** `SerializedGrid['cells']`: a tile's position and value, or null. */
  type CellState = seq<seq<Option<SerializedTile>>>

  datatype SerializedGrid = SerializedGrid(cells: CellState, size: int)

  /** The value view of one cell. A tile counts as merged while `mergedFrom` is set. */
  function SlotOf(t: Tile?): (s: Slot)
    reads t
    ensures s.Empty? <==> t == null
    ensures t != null ==> s.value == t.value && (s.merged <==> t.mergedFrom.Some?)
  {
    if t == null then Empty else Occupied(t.value, t.mergedFrom.Some?)
  }

  /** A board with every cell empty. */
  function EmptyBoard(size: nat): (b: Board)
    ensures IsBoard(b) && |b| == size
    ensures forall p :: WithinBounds(p, size) ==> At(b, p) == Empty
  {
    seq(size, x => seq(size, y => Empty))
  }

  /** What `fromState` builds, cell by cell: a row shorter than the grid reads as
    * nulls past its end, and a stored tile is rebuilt by the `Tile` constructor. */
  function StateSlot(state: CellState, x: nat, y: nat): Slot
    requires x < |state|
  {
    if y < |state[x]| && state[x][y].Some? then Occupied(InitialValue(state[x][y].value.value), false)
    else Empty
  }

  function StateBoard(size: nat, state: CellState): (b: Board)
    requires |state| >= size
    ensures IsBoard(b) && |b| == size
    ensures forall p :: WithinBounds(p, size) ==> At(b, p) == StateSlot(state, p.x, p.y)
  {
    seq(size, x requires 0 <= x < size => seq(size, y requires 0 <= y < size => StateSlot(state, x, y)))
  }

  /** Every stored tile carries the position of the cell it is stored in. */
  predicate PositionsAgree(size: nat, state: CellState)
    requires |state| >= size
  {
    forall x, y :: 0 <= x < size && 0 <= y < size && y < |state[x]| && state[x][y].Some? ==>
      state[x][y].value.position == Position(x, y)
  }

  /** The stored form of one cell. */
  function SerializeSlot(s: Slot, x: int, y: int): Option<SerializedTile> {
    match s
    case Empty => None
    case Occupied(value, _) => Some(SerializedTile(Position(x, y), value))
  }

  /** `serialize().cells`, read off the value view. */
  function SerializeBoard(b: Board): (cs: CellState)
    requires IsBoard(b)
    ensures |cs| == |b| && forall x :: 0 <= x < |b| ==> |cs[x]| == |b|
  {
    seq(|b|, x requires 0 <= x < |b| => seq(|b|, y requires 0 <= y < |b| => SerializeSlot(b[x][y], x, y)))
  }

  /** No tile of the board holds 0 (the `Tile` constructor turns 0 into 2). */
  predicate NonZero(b: Board) {
    forall x, y :: 0 <= x < |b| && 0 <= y < |b[x]| && b[x][y].Occupied? ==> b[x][y].value != 0
  }

  /** Reloading a serialized board gives back every tile's position and value; only
    * the merge marks are lost, as `prepareTiles` would clear them. */
  lemma SerializeRoundTrip(b: Board)
    requires IsBoard(b) && NonZero(b)
    ensures var s := SerializeBoard(b);
      PositionsAgree(|b|, s) && StateBoard(|b|, s) == Prepare(b)
  {
    var n := |b|;
    var s := SerializeBoard(b);
    var r := StateBoard(n, s);
    forall x | 0 <= x < n
      ensures r[x] == Prepare(b)[x]
    {
      forall y | 0 <= y < n
        ensures r[x][y] == Prepare(b)[x][y]
      {
        assert At(r, Position(x, y)) == StateSlot(s, x, y);
        assert At(Prepare(b), Position(x, y)) == Unmark(b[x][y]);
      }
    }
  }

  // ---------------------------------------------------------------------------------
  // The free cells, x outer and y inner, as `availableCells` lists them.

  /** The free cells of column `x` with a y below `y`, in increasing y. */
  function ColumnFree(b: Board, x: nat, y: nat): seq<Position>
    requires IsBoard(b) && x < |b| && y <= |b|
  {
    if y == 0 then []
    else ColumnFree(b, x, y - 1) + (if b[x][y - 1] == Empty then [Position(x, y - 1)] else [])
  }

  /** The free cells of the columns before `x`. */
  function FreeBefore(b: Board, x: nat): seq<Position>
    requires IsBoard(b) && x <= |b|
  {
    if x == 0 then [] else FreeBefore(b, x - 1) + ColumnFree(b, x - 1, |b|)
  }

  function FreeCells(b: Board): seq<Position>
    requires IsBoard(b)
  {
    FreeBefore(b, |b|)
  }

  /** `p` comes before `q` in the order x outer, y inner. */
  predicate Before(p: Position, q: Position) {
    p.x < q.x || (p.x == q.x && p.y < q.y)
  }

  predicate Increasing(ps: seq<Position>) {
    forall i, j :: 0 <= i < j < |ps| ==> Before(ps[i], ps[j])
  }

  /** Column `x` below `y` lists its empty cells in increasing y, and only those. */
  lemma {:induction false} ColumnFreeSound(b: Board, x: nat, y: nat)
    requires IsBoard(b) && x < |b| && y <= |b|
    ensures Increasing(ColumnFree(b, x, y))
    ensures forall k :: 0 <= k < |ColumnFree(b, x, y)| ==>
      ColumnFree(b, x, y)[k].x == x && 0 <= ColumnFree(b, x, y)[k].y < y && b[x][ColumnFree(b, x, y)[k].y] == Empty
  {
    if y > 0 {
      ColumnFreeSound(b, x, y - 1);
      var front := ColumnFree(b, x, y - 1);
      var back: seq<Position> := if b[x][y - 1] == Empty then [Position(x, y - 1)] else [];
      var all := front + back;
      assert all == ColumnFree(b, x, y);
      forall i, j | 0 <= i < j < |all|
        ensures Before(all[i], all[j])
      {
        if j < |front| {
          assert all[i] == front[i] && all[j] == front[j];
        } else {
          assert all[i] == front[i] && all[j] == Position(x, y - 1);
        }
      }
      forall k | 0 <= k < |all|
        ensures all[k].x == x && 0 <= all[k].y < y && b[x][all[k].y] == Empty
      {
        if k < |front| {
          assert all[k] == front[k];
        }
      }
    }
  }

  /** Every empty cell of column `x` below `y` is listed. */
  lemma {:induction false} ColumnFreeComplete(b: Board, x: nat, y: nat)
    requires IsBoard(b) && x < |b| && y <= |b|
    ensures forall py :: 0 <= py < y && b[x][py] == Empty ==> Position(x, py) in ColumnFree(b, x, y)
  {
    if y > 0 {
      ColumnFreeComplete(b, x, y - 1);
      var front := ColumnFree(b, x, y - 1);
      var back: seq<Position> := if b[x][y - 1] == Empty then [Position(x, y - 1)] else [];
      assert ColumnFree(b, x, y) == front + back;
      forall py | 0 <= py < y && b[x][py] == Empty
        ensures Position(x, py) in front + back
      {
        if py < y - 1 {
          assert Position(x, py) in front;
        } else {
          assert back == [Position(x, py)];
        }
      }
    }
  }

  /** The columns before `x` list their empty cells in the order x outer, y inner,
    * and only those. */
  lemma {:induction false} FreeBeforeSound(b: Board, x: nat)
    requires IsBoard(b) && x <= |b|
    ensures Increasing(FreeBefore(b, x))
    ensures forall k :: 0 <= k < |FreeBefore(b, x)| ==>
      0 <= FreeBefore(b, x)[k].x < x && 0 <= FreeBefore(b, x)[k].y < |b| && b[FreeBefore(b, x)[k].x][FreeBefore(b, x)[k].y] == Empty
  {
    if x > 0 {
      FreeBeforeSound(b, x - 1);
      ColumnFreeSound(b, x - 1, |b|);
      var front := FreeBefore(b, x - 1);
      var back := ColumnFree(b, x - 1, |b|);
      var all := front + back;
      forall i, j | 0 <= i < j < |all|
        ensures Before(all[i], all[j])
      {
        if j < |front| {
          assert all[i] == front[i] && all[j] == front[j];
        } else if i < |front| {
          assert all[i] == front[i] && all[j] == back[j - |front|];
        } else {
          assert all[i] == back[i - |front|] && all[j] == back[j - |front|];
        }
      }
      forall k | 0 <= k < |all|
        ensures 0 <= all[k].x < x && 0 <= all[k].y < |b| && b[all[k].x][all[k].y] == Empty
      {
        if k < |front| {
          assert all[k] == front[k];
        } else {
          assert all[k] == back[k - |front|];
        }
      }
    }
  }

  /** Every empty cell of the columns before `x` is listed. */
  lemma {:induction false} FreeBeforeComplete(b: Board, x: nat)
    requires IsBoard(b) && x <= |b|
    ensures forall px, py :: 0 <= px < x && 0 <= py < |b| && b[px][py] == Empty ==> Position(px, py) in FreeBefore(b, x)
  {
    if x > 0 {
      FreeBeforeComplete(b, x - 1);
      ColumnFreeComplete(b, x - 1, |b|);
      var front := FreeBefore(b, x - 1);
      var back := ColumnFree(b, x - 1, |b|);
      forall px, py | 0 <= px < x && 0 <= py < |b| && b[px][py] == Empty
        ensures Position(px, py) in front + back
      {
        if px < x - 1 {
          assert Position(px, py) in front;
        } else {
          assert Position(px, py) in back;
        }
      }
    }
  }

  /** The free cells are exactly the empty cells of the board, each listed once, in
    * the order x outer, y inner. */
  lemma FreeCellsExact(b: Board)
    requires IsBoard(b)
    ensures forall p :: p in FreeCells(b) <==> WithinBounds(p, |b|) && At(b, p) == Empty
    ensures Increasing(FreeCells(b))
    ensures forall i, j :: 0 <= i < j < |FreeCells(b)| ==> FreeCells(b)[i] != FreeCells(b)[j]
  {
    var free := FreeCells(b);
    FreeBeforeSound(b, |b|);
    FreeBeforeComplete(b, |b|);
    forall p | p in free
      ensures WithinBounds(p, |b|) && At(b, p) == Empty
    {
      var k :| 0 <= k < |free| && free[k] == p;
    }
    forall p | WithinBounds(p, |b|) && At(b, p) == Empty
      ensures p in free
    {
      assert p == Position(p.x, p.y);
    }
  }

  // ---------------------------------------------------------------------------------
  // The static helpers of `Grid`, which take any table of cells.

  /** `Grid.withinBounds(position, size)`. */
  function WithinBoundsOf(p: Position, size: int): (r: bool)
    ensures r <==> 0 <= p.x < size && 0 <= p.y < size
  {
    p.x >= 0 && p.x < size && p.y >= 0 && p.y < size
  }

  /** `Grid.cellContent(cell, gridCells)`: null outside the table; a cell past the end
    * of a short row reads as `undefined`, which the callers treat as null. */
  function CellContentIn(p: Position, gridCells: Cells): (t: Tile?)
    ensures !WithinBoundsOf(p, |gridCells|) ==> t == null
    ensures WithinBoundsOf(p, |gridCells|) && p.y < |gridCells[p.x]| ==> t == gridCells[p.x][p.y]
  {
    if WithinBoundsOf(p, |gridCells|) && p.y < |gridCells[p.x]| then gridCells[p.x][p.y] else null
  }

  function CellOccupiedIn(p: Position, gridCells: Cells): (r: bool)
    ensures r <==> WithinBoundsOf(p, |gridCells|) && p.y < |gridCells[p.x]| && gridCells[p.x][p.y] != null
  {
    CellContentIn(p, gridCells) != null
  }

  function CellAvailableIn(p: Position, gridCells: Cells): (r: bool)
    ensures r <==> !CellOccupiedIn(p, gridCells)
    ensures WithinBoundsOf(p, |gridCells|) && p.y < |gridCells[p.x]| ==> (r <==> gridCells[p.x][p.y] == null)
  {
    !CellOccupiedIn(p, gridCells)
  }

  /** The table `moveTile` leaves: `t` at `q`, nothing at `p`, every other cell as it was. */
  lemma RelocatedCells(c: Cells, size: nat, p: Position, q: Position, t: Tile?)
    requires |c| == size && (forall x :: 0 <= x < size ==> |c[x]| == size)
    requires WithinBounds(p, size) && WithinBounds(q, size)
    ensures var d := c[p.x := c[p.x][p.y := null]];
      var e := d[q.x := d[q.x][q.y := t]];
      && |e| == size && (forall x :: 0 <= x < size ==> |e[x]| == size)
      && forall x, y :: 0 <= x < size && 0 <= y < size ==>
           e[x][y] == if x == q.x && y == q.y then t else if x == p.x && y == p.y then null else c[x][y]
  {
  }

  // ---------------------------------------------------------------------------------
  // The loops that build the table.

  /** `empty()`. */
  method EmptyCells(size: nat) returns (cells: Cells)
    ensures |cells| == size
    ensures forall x :: 0 <= x < size ==> |cells[x]| == size
    ensures forall x, y :: 0 <= x < size && 0 <= y < size ==> cells[x][y] == null
  {
    cells := [];
    for x := 0 to size
      invariant |cells| == x
      invariant forall i :: 0 <= i < x ==> |cells[i]| == size
      invariant forall i, y :: 0 <= i < x && 0 <= y < size ==> cells[i][y] == null
    {
      var row: seq<Tile?> := [];
      for y := 0 to size
        invariant |row| == y && forall j :: 0 <= j < y ==> row[j] == null
      {
        row := row + [null];
      }
      cells := cells + [row];
    }
  }

  /** `fromState(state)`: a fresh tile for every stored tile. */
  method CellsFromState(size: nat, state: CellState) returns (cells: Cells)
    requires |state| >= size && PositionsAgree(size, state)
    ensures |cells| == size
    ensures forall x :: 0 <= x < size ==> |cells[x]| == size
    ensures forall x, y :: 0 <= x < size && 0 <= y < size ==>
      SlotOf(cells[x][y]) == StateSlot(state, x, y) &&
      (cells[x][y] != null ==> fresh(cells[x][y]) && cells[x][y].x == x && cells[x][y].y == y)
  {
    cells := [];
    for x := 0 to size
      invariant |cells| == x
      invariant forall i :: 0 <= i < x ==> |cells[i]| == size
      invariant forall i, y :: 0 <= i < x && 0 <= y < size ==>
        SlotOf(cells[i][y]) == StateSlot(state, i, y) &&
        (cells[i][y] != null ==> fresh(cells[i][y]) && cells[i][y].x == i && cells[i][y].y == y)
    {
      var row: seq<Tile?> := [];
      for y := 0 to size
        invariant |row| == y
        invariant forall j :: 0 <= j < y ==>
          SlotOf(row[j]) == StateSlot(state, x, j) &&
          (row[j] != null ==> fresh(row[j]) && row[j].x == x && row[j].y == j)
        invariant forall i, j :: 0 <= i < x && 0 <= j < size ==>
          SlotOf(cells[i][j]) == StateSlot(state, i, j) &&
          (cells[i][j] != null ==> fresh(cells[i][j]) && cells[i][j].x == i && cells[i][j].y == j)
      {
        var tile: Tile? := null;
        if y < |state[x]| && state[x][y].Some? {
          var stored := state[x][y].value;
          tile := new Tile(stored.position, stored.value);
        }
        row := row + [tile];
      }
      cells := cells + [row];
    }
  }

  class Grid {
    const size: nat
    var cells: Cells

    /** The value view of `cells`. */
    ghost var board: Board

    /** The tiles the table holds: the ghost footprint of the grid's objects. */
    ghost var tiles: set<Tile>

    ghost predicate Valid()
      reads this, tiles
    {
      && |cells| == size && (forall x :: 0 <= x < size ==> |cells[x]| == size)
      && |board| == size && IsBoard(board)
      && (forall x, y :: 0 <= x < size && 0 <= y < size && cells[x][y] != null ==> cells[x][y] in tiles)
      && (forall x, y :: 0 <= x < size && 0 <= y < size ==> board[x][y] == SlotOf(cells[x][y]))
      && (forall x, y :: 0 <= x < size && 0 <= y < size && cells[x][y] != null ==>
            cells[x][y].x == x && cells[x][y].y == y && cells[x][y].value != 0)
      && (forall t :: t in tiles ==> 0 <= t.x < size && 0 <= t.y < size && cells[t.x][t.y] == t)
    }

    /** `new Grid(size, previousState)`. */
    constructor (size: nat, previousState: Option<CellState>)
      requires previousState.Some? ==> |previousState.value| >= size && PositionsAgree(size, previousState.value)
      ensures Valid() && this.size == size
      ensures previousState.None? ==> board == EmptyBoard(size)
      ensures previousState.Some? ==> board == StateBoard(size, previousState.value)
      ensures fresh(tiles)
    {
      this.size := size;
      var c;
      if previousState.Some? {
        c := CellsFromState(size, previousState.value);
        board := StateBoard(size, previousState.value);
      } else {
        c := EmptyCells(size);
        board := EmptyBoard(size);
      }
      cells := c;
      tiles := set x, y | 0 <= x < size && 0 <= y < size && c[x][y] != null :: c[x][y];
      new;
      forall x, y | 0 <= x < size && 0 <= y < size
        ensures board[x][y] == SlotOf(cells[x][y])
      {
        assert At(board, Position(x, y)) == board[x][y];
      }
    }

    /** `cellContent(cell)`. */
    function CellContent(p: Position): (t: Tile?)
      reads this, tiles
      requires Valid()
      ensures t == null <==> !WithinBounds(p, size) || At(board, p) == Empty
      ensures t != null ==> t.x == p.x && t.y == p.y && SlotOf(t) == At(board, p)
      ensures WithinBounds(p, size) ==> t == cells[p.x][p.y]
    {
      CellContentIn(p, cells)
    }

    /** `cellOccupied(cell)`. */
    function CellOccupied(p: Position): (r: bool)
      reads this, tiles
      requires Valid()
      ensures r <==> WithinBounds(p, size) && At(board, p).Occupied?
    {
      CellOccupiedIn(p, cells)
    }

    /** `cellAvailable(cell)`: outside the board counts as available. */
    function CellAvailable(p: Position): (r: bool)
      reads this, tiles
      requires Valid()
      ensures r <==> !CellOccupied(p)
      ensures r <==> !WithinBounds(p, size) || At(board, p) == Empty
    {
      CellAvailableIn(p, cells)
    }

    /** `withinBounds(position)`. */
    function WithinBoundsHere(p: Position): (r: bool)
      reads this
      ensures r <==> WithinBounds(p, size)
    {
      WithinBoundsOf(p, size)
    }

    /** `availableCells()`. */
    method AvailableCells() returns (free: seq<Position>)
      requires Valid()
      ensures free == FreeCells(board)
    {
      free := [];
      for x := 0 to size
        invariant free == FreeBefore(board, x)
      {
        for y := 0 to size
          invariant free == FreeBefore(board, x) + ColumnFree(board, x, y)
        {
          if cells[x][y] == null {
            free := free + [Position(x, y)];
          }
        }
      }
    }

    /** `cellsAvailable()`. */
    method CellsAvailable() returns (r: bool)
      requires Valid()
      ensures r <==> exists p :: WithinBounds(p, size) && At(board, p) == Empty
    {
      var free := AvailableCells();
      FreeCellsExact(board);
      r := |free| > 0;
      if r {
        assert free[0] in FreeCells(board);
      } else {
        forall p | WithinBounds(p, size)
          ensures At(board, p) != Empty
        {
          assert p !in free;
        }
      }
    }

    /** `randomAvailableCell()`, with the draw of `Math.random()` as `random`. */
    method RandomAvailableCell(random: real) returns (r: Option<Position>)
      requires Valid() && 0.0 <= random < 1.0
      ensures FreeCells(board) == [] ==> r == None
      ensures FreeCells(board) != [] ==> r == Some(FreeCells(board)[Pick(random, |FreeCells(board)|)])
      ensures r.Some? ==> WithinBounds(r.value, size) && At(board, r.value) == Empty
    {
      var free := AvailableCells();
      if |free| == 0 {
        return None;
      }
      FreeCellsExact(board);
      r := Some(free[Pick(random, |free|)]);
      assert r.value in free;
    }

    /** `insertTile(tile)`: the cell named by the tile's own coordinates now holds it,
      * and the tile it held, if any, leaves the grid. */
    method InsertTile(tile: Tile)
      requires Valid() && WithinBounds(Position(tile.x, tile.y), size) && tile.value != 0
      modifies this
      ensures Valid()
      ensures cells == old(cells)[tile.x := old(cells)[tile.x][tile.y := tile]]
      ensures board == Put(old(board), Position(tile.x, tile.y), SlotOf(tile))
      ensures tiles == old(tiles) - {old(cells[tile.x][tile.y])} + {tile}
    {
      var p := tile.GetPosition();
      var gone := cells[p.x][p.y];
      cells := cells[p.x := cells[p.x][p.y := tile]];
      board := Put(board, p, SlotOf(tile));
      tiles := tiles - {gone} + {tile};
      assert forall x, y :: 0 <= x < size && 0 <= y < size ==> board[x][y] == At(board, Position(x, y));
      assert forall x, y :: 0 <= x < size && 0 <= y < size && (x != p.x || y != p.y) ==>
        cells[x][y] == old(cells[x][y]);
    }

    /** While the table and the tiles it holds stay as they were, whatever else changes
      * (a tile it no longer holds, the storage) leaves the table valid. */
    twostate lemma KeepsValid()
      requires old(Valid()) && unchanged(this)
      requires forall u :: u in old(tiles) ==> unchanged(u)
      ensures Valid()
    {
    }

    /** `removeTile(tile)`: the cell named by the tile's own coordinates becomes null. */
    method RemoveTile(tile: Tile)
      requires Valid() && WithinBounds(Position(tile.x, tile.y), size)
      modifies this
      ensures Valid()
      ensures cells == old(cells)[tile.x := old(cells)[tile.x][tile.y := null]]
      ensures board == Put(old(board), Position(tile.x, tile.y), Empty)
      ensures tiles == old(tiles) - {old(cells[tile.x][tile.y])}
      ensures tile !in tiles
    {
      var p := tile.GetPosition();
      var gone := cells[p.x][p.y];
      cells := cells[p.x := cells[p.x][p.y := null]];
      board := Put(board, p, Empty);
      tiles := tiles - {gone};
      assert forall x, y :: 0 <= x < size && 0 <= y < size ==> board[x][y] == At(board, Position(x, y));
      assert forall x, y :: 0 <= x < size && 0 <= y < size && (x != p.x || y != p.y) ==>
        cells[x][y] == old(cells[x][y]);
    }

    /** `serialize()`. */
    method Serialize() returns (s: SerializedGrid)
      requires Valid()
      ensures s == SerializedGrid(SerializeBoard(board), size)
    {
      var state: CellState := [];
      for x := 0 to size
        invariant |state| == x
        invariant forall i :: 0 <= i < x ==> state[i] == SerializeBoard(board)[i]
      {
        var row: seq<Option<SerializedTile>> := [];
        for y := 0 to size
          invariant |row| == y
          invariant forall j :: 0 <= j < y ==> row[j] == SerializeSlot(board[x][j], x, j)
        {
          var t := cells[x][y];
          row := row + [if t == null then None else Some(t.Serialize())];
        }
        state := state + [row];
      }
      s := SerializedGrid(state, size);
    }
  }

  /** `new Grid(size, grid.serialize().cells)`: the reloaded grid has the same size and
    * the same tile at every cell; only the merge marks are cleared. */
  method Reload(g: Grid) returns (h: Grid)
    requires g.Valid()
    ensures h.Valid() && fresh(h) && h.size == g.size && h.board == Prepare(g.board)
  {
    var s := g.Serialize();
    SerializeRoundTrip(g.board);
    h := new Grid(s.size, Some(s.cells));
  }
}
