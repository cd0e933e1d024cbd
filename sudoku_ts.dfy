// src/lib/utils/experiments/wasm/sudoku.ts: the board checks and conversions of the
// sudoku page, and the loop that builds a new random board with the help of the
// solver. The solver (`wasm.solve`) and `Math.random` are parameters: `solve` maps a
// board line to the line it answers, and `rand(k)` is the k-th draw, in [0, 1). A
// board is a 9 × 9 table of one-character cells; a JavaScript `Set` of positions is a
// sequence without repeats, in insertion order, which is the order it iterates in.

module SudokuBoards {
  import opened Common
  import opened Strings
  import SudokuC

  type Board = seq<seq<char>>

  const Cells := 81

  /** `isNumeric(str)`, the test `/^\d+$/`: at least one character, each an ASCII digit. */
  predicate IsNumeric(s: string) {
    |s| > 0 && AllDigits(s)
  }

  /** `isBoardStringValid(board)`: 81 characters, all digits. */
  predicate IsBoardStringValid(board: string) {
    |board| == Cells && IsNumeric(board)
  }

  /** A board line is accepted here exactly when the C solver accepts it once it has
    * been written to memory with its terminating NUL. */
  lemma ValidBoardIsSolverLine(board: string)
    requires '\0' !in board
    ensures IsBoardStringValid(board) <==> SudokuC.IsBoardLine(board + ['\0'])
  {
    var line := board + ['\0'];
    var n := SudokuC.Len(line);
    assert forall k :: 0 <= k < |board| ==> line[k] == board[k] != '\0';
    assert n == |board| && line[..n] == board;
  }

  // ---------------------------------------------------------------------------------
  // Board and line

  /** Every row holds nine cells. */
  predicate RowsOfNine(m: Board) {
    forall i :: 0 <= i < |m| ==> |m[i]| == 9
  }

  /** A full 9 × 9 board. */
  predicate IsMatrix(m: Board) {
    |m| == 9 && RowsOfNine(m)
  }

  /** The rows of `m` one after the other. */
  function Flat(m: Board): string {
    if m == [] then [] else Flat(m[..|m| - 1]) + m[|m| - 1]
  }

  /** In the flattened rows, cell (i, j) is character 9i + j. */
  lemma {:induction false} FlatAt(m: Board)
    requires RowsOfNine(m)
    ensures |Flat(m)| == 9 * |m|
    ensures forall i, j :: 0 <= i < |m| && 0 <= j < 9 ==> Flat(m)[9 * i + j] == m[i][j]
  {
    if m != [] {
      var front := m[..|m| - 1];
      FlatAt(front);
      forall i, j | 0 <= i < |m| && 0 <= j < 9
        ensures Flat(m)[9 * i + j] == m[i][j]
      {
        if i < |m| - 1 {
          assert front[i] == m[i];
        }
      }
    }
  }

  /** The board `stringToMatrix` reads from an 81-character line. */
  function MatrixOf(s: string): (m: Board)
    requires |s| == Cells
    ensures IsMatrix(m)
  {
    seq(9, i requires 0 <= i < 9 => s[9 * i..9 * i + 9])
  }

  /** Reading a line into a board and writing it back gives the line. */
  lemma FlatOfMatrixOf(s: string)
    requires |s| == Cells
    ensures Flat(MatrixOf(s)) == s
  {
    var m := MatrixOf(s);
    FlatAt(m);
    forall k | 0 <= k < Cells
      ensures Flat(m)[k] == s[k]
    {
      var i, j := k / 9, k % 9;
      assert k == 9 * i + j;
      assert m[i][j] == s[9 * i + j];
    }
  }

  /** Writing a board to a line and reading it back gives the board. */
  lemma MatrixOfFlat(m: Board)
    requires IsMatrix(m)
    ensures |Flat(m)| == Cells && MatrixOf(Flat(m)) == m
  {
    FlatAt(m);
    var back := MatrixOf(Flat(m));
    forall i | 0 <= i < 9
      ensures back[i] == m[i]
    {
      forall j | 0 <= j < 9
        ensures back[i][j] == m[i][j]
      {
        assert back[i][j] == Flat(m)[9 * i + j];
      }
    }
  }

  /** `stringToMatrix(str)`: row i, column j holds character 9i + j. */
  method StringToMatrix(str: string) returns (matrix: Board)
    requires |str| >= Cells
    ensures IsMatrix(matrix)
    ensures forall i, j :: 0 <= i < 9 && 0 <= j < 9 ==> matrix[i][j] == str[9 * i + j]
    ensures |str| == Cells ==> matrix == MatrixOf(str)
  {
    matrix := [];
    for i := 0 to 9
      invariant |matrix| == i && RowsOfNine(matrix)
      invariant forall a, b :: 0 <= a < i && 0 <= b < 9 ==> matrix[a][b] == str[9 * a + b]
    {
      var offset := i * 9;
      var row := [];
      for j := 0 to 9
        invariant |row| == j && forall b :: 0 <= b < j ==> row[b] == str[offset + b]
      {
        row := row + [str[offset + j]];
      }
      matrix := matrix + [row];
    }
    if |str| == Cells {
      var m := MatrixOf(str);
      forall i | 0 <= i < 9
        ensures matrix[i] == m[i]
      {
        assert forall b :: 0 <= b < 9 ==> m[i][b] == str[9 * i + b];
      }
    }
  }

  /** `boardToString(matrix)`: the cells row after row. */
  method BoardToString(matrix: Board) returns (result: string)
    requires IsMatrix(matrix)
    ensures result == Flat(matrix) && |result| == Cells
    ensures forall i, j :: 0 <= i < 9 && 0 <= j < 9 ==> result[9 * i + j] == matrix[i][j]
  {
    result := "";
    for i := 0 to 9
      invariant result == Flat(matrix[..i])
    {
      for j := 0 to 9
        invariant result == Flat(matrix[..i]) + matrix[i][..j]
      {
        assert matrix[i][..j + 1] == matrix[i][..j] + [matrix[i][j]];
        result := result + [matrix[i][j]];
      }
      assert matrix[..i + 1][..i] == matrix[..i];
      assert matrix[i][..9] == matrix[i];
    }
    assert matrix[..9] == matrix;
    FlatAt(matrix);
  }

  /** `getRowCol(position)`: the row and column of a flat position. */
  function GetRowCol(position: nat): (rc: (nat, nat))
    ensures rc.1 < 9 && GetPosition(rc.0, rc.1) == position
  {
    (position / 9, position % 9)
  }

  /** `getPosition(row, col)`: the flat position of a cell. */
  function GetPosition(row: int, col: int): int {
    row * 9 + col
  }

  /** `getRowCol` undoes `getPosition` on every cell with a column in 0..8. */
  lemma RowColOfPosition(row: nat, col: nat)
    requires col < 9
    ensures GetRowCol(GetPosition(row, col)) == (row, col)
  {
    var p := row * 9 + col;
    var q, r := p / 9, p % 9;
    assert q * 9 + r == p && 0 <= r < 9;
    assert q == row && r == col;
  }

  // ---------------------------------------------------------------------------------
  // Sets of positions

  /** No position occurs twice. */
  predicate Distinct(s: seq<nat>) {
    forall i, j :: 0 <= i < j < |s| ==> s[i] != s[j]
  }

  /** `set.delete(p)`: the other positions, in their order. */
  function Remove(s: seq<nat>, p: nat): (r: seq<nat>)
    ensures forall q :: q in r <==> q in s && q != p
    ensures p !in s ==> r == s
    ensures Distinct(s) ==> Distinct(r)
    ensures Distinct(s) && p in s ==> |r| == |s| - 1
  {
    if s == [] then []
    else if s[0] == p then Remove(s[1..], p)
    else
      var rest := Remove(s[1..], p);
      assert Distinct(s) ==> s[0] !in s[1..];
      [s[0]] + rest
  }

  /** `createNewRemainingCells()`: the positions 0..80, in order. */
  method CreateNewRemainingCells() returns (remaining: seq<nat>)
    ensures |remaining| == Cells && Distinct(remaining)
    ensures forall p: nat :: p in remaining <==> p < Cells
    ensures forall i :: 0 <= i < Cells ==> remaining[i] == i
  {
    remaining := [];
    for i := 0 to Cells
      invariant |remaining| == i && forall k :: 0 <= k < i ==> remaining[k] == k
      invariant forall p: nat :: p in remaining <==> p < i
    {
      remaining := remaining + [i];
    }
  }

  /** `getRandomRemainingPosition(set)`: the element at `floor(draw × size)`. */
  function GetRandomRemainingPosition(remaining: seq<nat>, draw: real): (p: nat)
    requires |remaining| > 0 && 0.0 <= draw < 1.0
    ensures p in remaining
  {
    remaining[Pick(draw, |remaining|)]
  }

  /** Positions of a board. */
  predicate OnBoard(s: seq<nat>) {
    forall p :: p in s ==> p < Cells
  }

  /** The board with the cell at `position` set to `value`. */
  function Place(board: Board, position: nat, value: char): (r: Board)
    requires IsMatrix(board) && position < Cells
    ensures IsMatrix(r)
    ensures forall row, col :: 0 <= row < 9 && 0 <= col < 9 ==>
      r[row][col] == if GetPosition(row, col) == position then value else board[row][col]
  {
    var (row, col) := GetRowCol(position);
    board[row := board[row][col := value]]
  }

  // ---------------------------------------------------------------------------------
  // Building a random board

  /** The loop of `fallbackApproach` from the given state, with `solution` the solver's
    * answer and `rand(next)` the next draw of `Math.random()`: the board, the positions
    * left and the next draw when at most 64 positions remain. */
  function FallbackLoop(solution: string, rand: nat -> real, board: Board, remaining: seq<nat>, next: nat)
    : (r: (Board, seq<nat>, nat))
    requires forall k :: 0.0 <= rand(k) < 1.0
    requires IsMatrix(board) && Distinct(remaining) && OnBoard(remaining) && |solution| >= Cells
    decreases |remaining|
  {
    if |remaining| <= 81 - 17 then (board, remaining, next)
    else
      var position := GetRandomRemainingPosition(remaining, rand(next));
      FallbackLoop(solution, rand, Place(board, position, solution[position]), Remove(remaining, position), next + 1)
  }

  /** `fallbackApproach(wasm, currentBoard, remainingCells)`: solves the board once, then
    * copies the solution into random remaining positions, deleting each from the set,
    * until at most 64 remain. Every other cell is left as it was. */
  method FallbackApproach(solve: string -> string, rand: nat -> real, draw: nat,
                          currentBoard: Board, remainingCells: seq<nat>)
    returns (board: Board, remaining: seq<nat>, next: nat)
    requires forall k :: 0.0 <= rand(k) < 1.0
    requires IsMatrix(currentBoard) && Distinct(remainingCells) && OnBoard(remainingCells)
    requires |solve(Flat(currentBoard))| >= Cells
    ensures IsMatrix(board) && Distinct(remaining) && forall p :: p in remaining ==> p in remainingCells
    ensures |remainingCells| > 64 ==> |remaining| == 64
    ensures |remainingCells| <= 64 ==> remaining == remainingCells
    ensures forall row, col :: 0 <= row < 9 && 0 <= col < 9 ==>
      var p := GetPosition(row, col);
      board[row][col] == if p in remainingCells && p !in remaining then solve(Flat(currentBoard))[p] else currentBoard[row][col]
    ensures (board, remaining, next) == FallbackLoop(solve(Flat(currentBoard)), rand, currentBoard, remainingCells, draw)
  {
    var boardString := BoardToString(currentBoard);
    var solution := solve(boardString);
    board, remaining, next := currentBoard, remainingCells, draw;
    while |remaining| > 81 - 17
      invariant IsMatrix(board) && Distinct(remaining) && forall p :: p in remaining ==> p in remainingCells
      invariant |remainingCells| > 64 ==> |remaining| >= 64
      invariant |remainingCells| <= 64 ==> remaining == remainingCells
      invariant OnBoard(remaining)
      invariant FallbackLoop(solution, rand, board, remaining, next) == FallbackLoop(solution, rand, currentBoard, remainingCells, draw)
      invariant forall row, col :: 0 <= row < 9 && 0 <= col < 9 ==>
        var p := GetPosition(row, col);
        board[row][col] == if p in remainingCells && p !in remaining then solution[p] else currentBoard[row][col]
      decreases |remaining|
    {
      var position := GetRandomRemainingPosition(remaining, rand(next));
      next := next + 1;
      var value := solution[position];
      board := Place(board, position, value);
      remaining := Remove(remaining, position);
    }
  }

  /** The answer of the solver that `createNewRandomBoard` accepts: non-empty, different
    * from the line it was given, and without a '0'. */
  predicate Accepted(solution: string, boardString: string) {
    |solution| > 0 && solution != boardString && '0' !in solution
  }

  /** The loop of `createNewRandomBoard` from the given state: while more than 72
    * positions remain and fewer than two placements in a row failed, place the digit
    * `rand(next + 1)` picks at the position `rand(next)` picks; keep the placement, delete
    * the position and reset the failure count when the solver accepts the board, else
    * count one more failure. Then `fallbackApproach` finishes the board: the board and
    * the positions it leaves. */
  function CreateLoop(solve: string -> string, rand: nat -> real, board: Board, remaining: seq<nat>,
                      failures: nat, next: nat): (r: (Board, seq<nat>))
    requires forall k :: 0.0 <= rand(k) < 1.0
    requires forall s :: |s| == Cells ==> |solve(s)| == Cells
    requires IsMatrix(board) && Distinct(remaining) && OnBoard(remaining) && failures <= 2
    decreases 3 * |remaining| + 2 - failures
  {
    FlatAt(board);
    if |remaining| <= 81 - 9 || failures >= 2 then
      var (b, rest, _) := FallbackLoop(solve(Flat(board)), rand, board, remaining, next);
      (b, rest)
    else
      var position := GetRandomRemainingPosition(remaining, rand(next));
      var digit := Pick(rand(next + 1), 9) + 1;
      var newBoard := Place(board, position, DigitChar(digit));
      if Accepted(solve(Flat(newBoard)), Flat(newBoard)) then
        CreateLoop(solve, rand, newBoard, Remove(remaining, position), 0, next + 2)
      else
        CreateLoop(solve, rand, board, remaining, failures + 1, next + 2)
  }

  /** One round of the loop of `createNewRandomBoard` that neither ends it nor hands over
    * to the fallback. */
  lemma CreateLoopStep(solve: string -> string, rand: nat -> real, board: Board, remaining: seq<nat>,
                       failures: nat, next: nat, position: nat, newBoard: Board)
    requires forall k :: 0.0 <= rand(k) < 1.0
    requires forall s :: |s| == Cells ==> |solve(s)| == Cells
    requires IsMatrix(board) && Distinct(remaining) && OnBoard(remaining) && failures < 2 && |remaining| > 81 - 9
    requires position == GetRandomRemainingPosition(remaining, rand(next))
    requires newBoard == Place(board, position, DigitChar(Pick(rand(next + 1), 9) + 1))
    ensures Accepted(solve(Flat(newBoard)), Flat(newBoard)) ==>
      CreateLoop(solve, rand, board, remaining, failures, next) == CreateLoop(solve, rand, newBoard, Remove(remaining, position), 0, next + 2)
    ensures !Accepted(solve(Flat(newBoard)), Flat(newBoard)) ==>
      CreateLoop(solve, rand, board, remaining, failures, next) == CreateLoop(solve, rand, board, remaining, failures + 1, next + 2)
  {
  }

  /** `createNewRandomBoard(wasm)`: from an empty board, places a random digit at a random
    * remaining position and keeps it when the solver accepts the result (deleting the
    * position and resetting the failure count), until 72 positions remain; after two
    * failures in a row, or at the end, the fallback fills the board up to 17 cells. The
    * positions still in the set, 64 of them, hold '0'. */
  method CreateNewRandomBoard(solve: string -> string, rand: nat -> real)
    returns (board: Board, ghost left: seq<nat>)
    requires forall k :: 0.0 <= rand(k) < 1.0
    requires forall s :: |s| == Cells ==> |solve(s)| == Cells
    ensures IsMatrix(board)
    ensures |left| == 64 && Distinct(left) && OnBoard(left)
    ensures forall row, col :: 0 <= row < 9 && 0 <= col < 9 && GetPosition(row, col) in left ==> board[row][col] == '0'
    ensures (board, left) == CreateLoop(solve, rand, seq(9, _ => seq(9, _ => '0')), seq(Cells, i => i), 0, 0)
  {
    board := seq(9, _ => seq(9, _ => '0'));
    var remainingCells := CreateNewRemainingCells();
    assert remainingCells == seq(Cells, i => i);
    var consecutiveFailures := 0;
    var next := 0;
    ghost var goal := CreateLoop(solve, rand, board, remainingCells, 0, 0);
    while |remainingCells| > 81 - 9
      invariant IsMatrix(board) && Distinct(remainingCells) && OnBoard(remainingCells)
      invariant consecutiveFailures <= 2 && CreateLoop(solve, rand, board, remainingCells, consecutiveFailures, next) == goal
      invariant |remainingCells| >= 72 && 0 <= consecutiveFailures <= 2
      invariant forall row, col :: 0 <= row < 9 && 0 <= col < 9 && GetPosition(row, col) in remainingCells ==> board[row][col] == '0'
      decreases 3 * |remainingCells| + 2 - consecutiveFailures
    {
      if consecutiveFailures >= 2 {
        FlatAt(board);
        var fallback, rest, _ := FallbackApproach(solve, rand, next, board, remainingCells);
        return fallback, rest;
      }
      var position := GetRandomRemainingPosition(remainingCells, rand(next));
      var digit := Pick(rand(next + 1), 9) + 1;
      var newBoard := Place(board, position, DigitChar(digit));
      CreateLoopStep(solve, rand, board, remainingCells, consecutiveFailures, next, position, newBoard);
      next := next + 2;
      var boardString := BoardToString(newBoard);
      var solution := solve(boardString);
      if Accepted(solution, boardString) {
        board := newBoard;
        remainingCells := Remove(remainingCells, position);
        consecutiveFailures := 0;
      } else {
        consecutiveFailures := consecutiveFailures + 1;
      }
    }
    FlatAt(board);
    var rest;
    board, rest, next := FallbackApproach(solve, rand, next, board, remainingCells);
    left := rest;
  }
}
