// The board helpers of the 2048 search agent (2048ai/ai.ts): the `cells` range
// generator, row/column access to the column-major board, the integer heuristics and
// `canMoveInDirection`. The agent works on copies of the game's board, so the board is
// the value view `Board` of the move rules.

module AiBoard {
  import opened Tiles
  import opened MoveRules

  /** `MAX_ROW` and `MAX_COL`: the agent assumes a 4×4 board. */
  const MaxRow: int := 3
  const MaxCol: int := 3

  // ---------------------------------------------------------------------------------
  // `cells(minRow, maxRow, minCol, maxCol)`

  /** The pairs `(row, col)` of one row, `col` ascending. */
  function RowCells(row: int, minCol: int, maxCol: int): (r: seq<(int, int)>)
    decreases maxCol - minCol
  {
    if maxCol < minCol then [] else RowCells(row, minCol, maxCol - 1) + [(row, maxCol)]
  }

  /** The pairs the generator yields, rows ascending and columns ascending within a row. */
  function CellsRange(minRow: int, maxRow: int, minCol: int, maxCol: int): (r: seq<(int, int)>)
    decreases maxRow - minRow
  {
    if maxRow < minRow then [] else CellsRange(minRow, maxRow - 1, minCol, maxCol) + RowCells(maxRow, minCol, maxCol)
  }

  /** Row-major order: each pair comes strictly after the one before it. */
  predicate RowMajor(s: seq<(int, int)>) {
    forall i, j :: 0 <= i < j < |s| ==> Precedes(s[i], s[j])
  }

  predicate Precedes(p: (int, int), q: (int, int)) {
    p.0 < q.0 || (p.0 == q.0 && p.1 < q.1)
  }

  lemma {:induction false} RowCellsExact(row: int, minCol: int, maxCol: int)
    ensures forall p :: p in RowCells(row, minCol, maxCol) <==> p.0 == row && minCol <= p.1 <= maxCol
    ensures RowMajor(RowCells(row, minCol, maxCol))
    decreases maxCol - minCol
  {
    if minCol <= maxCol {
      RowCellsExact(row, minCol, maxCol - 1);
    }
  }

  /** `cells` yields exactly the pairs of the inclusive ranges. */
  lemma CellsRangeMembers(minRow: int, maxRow: int, minCol: int, maxCol: int)
    ensures forall p :: p in CellsRange(minRow, maxRow, minCol, maxCol) <==>
      minRow <= p.0 <= maxRow && minCol <= p.1 <= maxCol
  {
    CellsRangeExact(minRow, maxRow, minCol, maxCol);
  }

  /** `cells` yields every pair of the inclusive ranges, each once, in row-major order. */
  lemma {:induction false} CellsRangeExact(minRow: int, maxRow: int, minCol: int, maxCol: int)
    ensures forall p :: p in CellsRange(minRow, maxRow, minCol, maxCol) <==>
      minRow <= p.0 <= maxRow && minCol <= p.1 <= maxCol
    ensures RowMajor(CellsRange(minRow, maxRow, minCol, maxCol))
    decreases maxRow - minRow
  {
    if minRow <= maxRow {
      CellsRangeExact(minRow, maxRow - 1, minCol, maxCol);
      RowCellsExact(maxRow, minCol, maxCol);
      var a := CellsRange(minRow, maxRow - 1, minCol, maxCol);
      var b := RowCells(maxRow, minCol, maxCol);
      var c := a + b;
      forall i, j | 0 <= i < j < |c|
        ensures Precedes(c[i], c[j])
      {
        if j < |a| {
          assert c[i] == a[i] && c[j] == a[j];
        } else if i < |a| {
          assert c[i] == a[i] && a[i] in a;
          assert c[j] == b[j - |a|] && b[j - |a|] in b;
        } else {
          assert c[i] == b[i - |a|] && c[j] == b[j - |a|];
        }
      }
    }
  }

  /** The generator's two nested loops, collected into a sequence. */
  method Cells(minRow: int, maxRow: int, minCol: int, maxCol: int) returns (r: seq<(int, int)>)
    ensures r == CellsRange(minRow, maxRow, minCol, maxCol)
  {
    r := [];
    var row := minRow;
    while row <= maxRow
      invariant row <= maxRow + 1 || row == minRow
      invariant r == CellsRange(minRow, row - 1, minCol, maxCol)
      decreases maxRow - row
    {
      var col := minCol;
      ghost var before := r;
      while col <= maxCol
        invariant col <= maxCol + 1 || col == minCol
        invariant r == before + RowCells(row, minCol, col - 1)
        decreases maxCol - col
      {
        r := r + [(row, col)];
        col := col + 1;
      }
      row := row + 1;
    }
  }

  // ---------------------------------------------------------------------------------
  // Access by row and column

  predicate InGrid(b: Board, row: int, col: int) {
    IsBoard(b) && 0 <= col < |b| && 0 <= row < |b|
  }

  /** `getCell(grid, row, col)`: the board is stored column by column. */
  function GetCell(b: Board, row: int, col: int): (s: Slot)
    requires InGrid(b, row, col)
    ensures s == At(b, Position(col, row))
  {
    b[col][row]
  }

  /** `setCell(grid, row, col, tile)`. */
  function SetCell(b: Board, row: int, col: int, s: Slot): (r: Board)
    requires InGrid(b, row, col)
    ensures IsBoard(r) && |r| == |b|
    ensures forall row', col' :: InGrid(b, row', col') ==>
      GetCell(r, row', col') == if (row', col') == (row, col) then s else GetCell(b, row', col')
  {
    Put(b, Position(col, row), s)
  }

  /** `getCellValue`: 0 for an empty cell. */
  function CellValue(b: Board, row: int, col: int): (v: int)
    requires InGrid(b, row, col)
    ensures GetCell(b, row, col).Empty? ==> v == 0
    ensures GetCell(b, row, col).Occupied? ==> v == GetCell(b, row, col).value
  {
    match GetCell(b, row, col)
    case Empty => 0
    case Occupied(value, _) => value
  }

  // ---------------------------------------------------------------------------------
  // The integer heuristics

  /** The cells `cells(0, n - 1, 0, n - 1)` of an n×n board are all on it. */
  lemma BoardCellsInGrid(b: Board)
    requires IsBoard(b)
    ensures var cs := CellsRange(0, |b| - 1, 0, |b| - 1);
      forall k :: 0 <= k < |cs| ==> InGrid(b, cs[k].0, cs[k].1)
  {
    var cs := CellsRange(0, |b| - 1, 0, |b| - 1);
    CellsRangeMembers(0, |b| - 1, 0, |b| - 1);
    forall k | 0 <= k < |cs|
      ensures InGrid(b, cs[k].0, cs[k].1)
    {
      assert cs[k] in cs;
    }
  }

  /** How many of the cells `cs` are empty. */
  function EmptyAmong(b: Board, cs: seq<(int, int)>): (n: nat)
    requires forall k :: 0 <= k < |cs| ==> InGrid(b, cs[k].0, cs[k].1)
    ensures n <= |cs|
  {
    if |cs| == 0 then 0
    else EmptyAmong(b, cs[..|cs| - 1]) + (if CellValue(b, cs[|cs| - 1].0, cs[|cs| - 1].1) == 0 then 1 else 0)
  }

  /** `numberOfEmptySquares.func`: 10 points per empty cell. */
  method NumberOfEmptySquares(b: Board) returns (score: int)
    requires IsBoard(b)
    ensures var cs := CellsRange(0, |b| - 1, 0, |b| - 1);
      (forall k :: 0 <= k < |cs| ==> InGrid(b, cs[k].0, cs[k].1)) && score == 10 * EmptyAmong(b, cs)
  {
    var cs := Cells(0, |b| - 1, 0, |b| - 1);
    BoardCellsInGrid(b);
    score := 0;
    for k := 0 to |cs|
      invariant score == 10 * EmptyAmong(b, cs[..k])
    {
      assert cs[..k + 1][..k] == cs[..k];
      var value := CellValue(b, cs[k].0, cs[k].1);
      if value == 0 {
        score := score + 10;
      }
    }
    assert cs[..|cs|] == cs;
  }

  /** No tile holds 0, as the tile constructor guarantees. */
  ghost predicate TilesNonZero(b: Board)
    requires IsBoard(b)
  {
    forall p :: WithinBounds(p, |b|) && At(b, p).Occupied? ==> At(b, p).value != 0
  }

  /** With no zero-valued tile, the count is zero exactly when none of the cells is
    * empty. */
  lemma {:induction false} EmptyAmongZero(b: Board, cs: seq<(int, int)>)
    requires IsBoard(b) && TilesNonZero(b)
    requires forall k :: 0 <= k < |cs| ==> InGrid(b, cs[k].0, cs[k].1)
    ensures EmptyAmong(b, cs) == 0 <==> forall k :: 0 <= k < |cs| ==> GetCell(b, cs[k].0, cs[k].1).Occupied?
  {
    if |cs| > 0 {
      var init := cs[..|cs| - 1];
      EmptyAmongZero(b, init);
      var last := cs[|cs| - 1];
      assert GetCell(b, last.0, last.1).Occupied? <==> CellValue(b, last.0, last.1) != 0;
      assert forall k :: 0 <= k < |cs| - 1 ==> init[k] == cs[k];
    }
  }

  /** `maxTile(grid)`: the largest tile value, or 0 on an empty board. */
  method MaxTile(b: Board) returns (m: int)
    requires IsBoard(b)
    ensures m >= 0
    ensures forall row, col :: InGrid(b, row, col) ==> CellValue(b, row, col) <= m
    ensures m == 0 || exists row, col :: InGrid(b, row, col) && CellValue(b, row, col) == m
  {
    var cs := Cells(0, |b| - 1, 0, |b| - 1);
    CellsRangeMembers(0, |b| - 1, 0, |b| - 1);
    m := 0;
    for k := 0 to |cs|
      invariant m >= 0
      invariant forall j :: 0 <= j < k ==> CellValue(b, cs[j].0, cs[j].1) <= m
      invariant m == 0 || exists row, col :: InGrid(b, row, col) && CellValue(b, row, col) == m
    {
      assert cs[k] in cs;
      var value := CellValue(b, cs[k].0, cs[k].1);
      if value > m {
        m := value;
      }
    }
    forall row, col | InGrid(b, row, col)
      ensures CellValue(b, row, col) <= m
    {
      assert (row, col) in cs;
      var j :| 0 <= j < |cs| && cs[j] == (row, col);
    }
  }

  // ---------------------------------------------------------------------------------
  // `canMoveInDirection`

  /** The rows and columns `canMoveInDirection` scans for `move`: the edge the tiles
    * move towards is skipped. */
  function ScanRange(move: nat): (r: (int, int, int, int)) {
    var lowestRow := if move == 0 then 1 else 0;
    var highestRow := if move == 2 then MaxRow - 1 else MaxRow;
    var lowestCol := if move == 3 then 1 else 0;
    var highestCol := if move == 1 then MaxCol - 1 else MaxCol;
    (lowestRow, highestRow, lowestCol, highestCol)
  }

  predicate InScan(move: nat, row: int, col: int) {
    ScanRange(move).0 <= row <= ScanRange(move).1 && ScanRange(move).2 <= col <= ScanRange(move).3
  }

  /** `getAdjecentCell`: the neighbour in the direction of `move`. */
  function Adjacent(row: int, col: int, move: nat): (r: (int, int))
    ensures move < 4 && InScan(move, row, col) ==> 0 <= r.0 <= MaxRow && 0 <= r.1 <= MaxCol
  {
    if move == 0 then (row - 1, col)
    else if move == 2 then (row + 1, col)
    else if move == 3 then (row, col - 1)
    else (row, col + 1)
  }

  /** The tile at `(row, col)` could go in direction `move`: its neighbour there is
    * empty or holds the same value. */
  predicate HasRoom(b: Board, row: int, col: int, move: nat)
    requires IsBoard(b) && |b| >= 4 && move < 4 && InScan(move, row, col)
  {
    var adjacent := Adjacent(row, col, move);
    GetCell(b, row, col).Occupied? &&
    (GetCell(b, adjacent.0, adjacent.1).Empty? || GetCell(b, adjacent.0, adjacent.1).value == GetCell(b, row, col).value)
  }

  ghost predicate CanMove(b: Board, move: nat)
    requires IsBoard(b) && |b| >= 4 && move < 4
  {
    exists row, col :: InScan(move, row, col) && HasRoom(b, row, col, move)
  }

  /** The cells `canMoveInDirection` visits are exactly those in its scan range. */
  lemma ScanCells(move: nat)
    ensures var range := ScanRange(move);
      var cs := CellsRange(range.0, range.1, range.2, range.3);
      (forall j :: 0 <= j < |cs| ==> InScan(move, cs[j].0, cs[j].1)) &&
      (forall row, col :: InScan(move, row, col) ==> (row, col) in cs)
  {
    var range := ScanRange(move);
    var cs := CellsRange(range.0, range.1, range.2, range.3);
    CellsRangeMembers(range.0, range.1, range.2, range.3);
    forall j | 0 <= j < |cs|
      ensures InScan(move, cs[j].0, cs[j].1)
    {
      assert cs[j] in cs;
    }
  }

  /** `canMoveInDirection(grid, move)`. */
  method CanMoveInDirection(b: Board, move: nat) returns (r: bool)
    requires IsBoard(b) && |b| >= 4 && move < 4
    ensures r <==> CanMove(b, move)
  {
    var range := ScanRange(move);
    var cs := Cells(range.0, range.1, range.2, range.3);
    ScanCells(move);
    assert forall j :: 0 <= j < |cs| ==> InScan(move, cs[j].0, cs[j].1);
    for k := 0 to |cs|
      invariant forall j :: 0 <= j < k ==> !HasRoom(b, cs[j].0, cs[j].1, move)
    {
      var row, col := cs[k].0, cs[k].1;
      assert InScan(move, row, col);
      var tile := GetCell(b, row, col);
      if tile.Occupied? {
        var at := Adjacent(row, col, move);
        var adjacent := GetCell(b, at.0, at.1);
        if adjacent.Empty? || adjacent.value == tile.value {
          assert HasRoom(b, row, col, move);
          return true;
        }
      }
      assert !HasRoom(b, row, col, move);
      forall j | 0 <= j < k + 1
        ensures !HasRoom(b, cs[j].0, cs[j].1, move)
      {
        if j == k {
          assert cs[j] == (row, col);
        }
      }
    }
    forall row, col | InScan(move, row, col)
      ensures !HasRoom(b, row, col, move)
    {
      var j :| 0 <= j < |cs| && cs[j] == (row, col);
    }
    return false;
  }

  /** The neighbour `canMoveInDirection` looks at is the cell one step along the
    * game's vector for that move. */
  lemma AdjacentIsStep(p: Position, move: nat)
    requires move < 4
    ensures var q := Ahead(p, Vector(move)); Adjacent(p.y, p.x, move) == (q.y, q.x)
  {
  }

  /** On the 4×4 board, when `canMoveInDirection` is false the move in that direction
    * moves no tile: the search never misses a move that changes the board. */
  lemma NoRoomNoMove(b: Board, move: nat)
    requires IsBoard(b) && |b| == 4 && move < 4 && !CanMove(b, move)
    ensures MoveBoard(b, 4, move) == MoveState(Prepare(b), 0, false, false, [])
  {
    var v := Vector(move);
    forall p | WithinBounds(p, |b|) && At(b, p).Occupied? && WithinBounds(Ahead(p, v), |b|)
      ensures At(b, Ahead(p, v)).Occupied? && At(b, Ahead(p, v)).value != At(b, p).value
    {
      AdjacentIsStep(p, move);
      assert InScan(move, p.y, p.x);
      assert !HasRoom(b, p.y, p.x, move);
    }
    MoveFrozen(b, 4, move);
  }

  /** On the 4×4 board, `canMoveInDirection` holds exactly when the move in that
    * direction moves some tile: the children the search makes are the moves that
    * change the board. */
  lemma CanMoveIffMoved(b: Board, move: nat)
    requires IsBoard(b) && |b| == 4 && move < 4
    ensures CanMove(b, move) <==> MoveBoard(b, 4, move).moved
  {
    MovedIffThawed(b, move);
    if CanMove(b, move) {
      var row, col :| InScan(move, row, col) && HasRoom(b, row, col, move);
      var p := Position(col, row);
      AdjacentIsStep(p, move);
      assert !Frozen(b, Vector(move)) by {
        assert WithinBounds(p, |b|) && At(b, p).Occupied? && WithinBounds(Ahead(p, Vector(move)), |b|);
      }
    } else {
      NoRoomNoMove(b, move);
    }
  }
}
