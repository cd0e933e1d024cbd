// The 2048 game manager (2048ai/game.ts): the move loop over the tile objects of the
// grid, the spawning of random tiles, the game-over test and the persistence of the
// game. `Move` is proved to change the grid exactly as `MoveRules.MoveBoard` says,
// followed by the spawn that `Spawn` describes. The DOM actuator and the input
// manager's callbacks are not part of this model.

module Game {
  import opened Common
  import opened Strings
  import opened Tiles
  import opened MoveRules
  import opened Grids
  import opened Storage

  /** The two draws of `Math.random()` made by `addRandomTile`: one picks the cell,
    * the other the value. */
  datatype Draw = Draw(cell: real, value: real)

  predicate IsDraw(d: Draw) {
    0.0 <= d.cell < 1.0 && 0.0 <= d.value < 1.0
  }

  /** `SerializedGameManager`. */
  datatype SerializedGame = SerializedGame(grid: SerializedGrid, score: int, over: bool, won: bool, keepPlaying: bool)

  /** The value of a new random tile: 2 nine times out of ten, else 4. */
  function SpawnValue(d: Draw): (v: int)
    ensures v == 2 || v == 4
    ensures v == 2 <==> d.value < 0.9
  {
    if d.value < 0.9 then 2 else 4
  }

  /** `addRandomTile` on the value view: a new unmerged tile in a free cell, when
    * there is one. */
  function Spawn(b: Board, d: Draw): (r: Board)
    requires IsBoard(b) && IsDraw(d)
    ensures IsBoard(r) && |r| == |b|
  {
    var free := FreeCells(b);
    if |free| == 0 then b
    else
      FreeCellsExact(b);
      Put(b, free[Pick(d.cell, |free|)], Occupied(SpawnValue(d), false))
  }

  /** A new tile is worth 2 or 4, so spawning keeps every tile positive. */
  lemma SpawnKeepsPositive(b: Board, d: Draw)
    requires IsBoard(b) && IsDraw(d) && Positive(b)
    ensures Positive(Spawn(b, d))
  {
  }

  /** `r` is `b` with the free cell `p` filled by an unmerged tile of value `v`. */
  ghost predicate SpawnedAt(b: Board, r: Board, p: Position, v: int)
    requires IsBoard(b) && IsBoard(r) && |r| == |b|
  {
    && WithinBounds(p, |b|) && At(b, p) == Empty && At(r, p) == Occupied(v, false)
    && forall q :: WithinBounds(q, |b|) && q != p ==> At(r, q) == At(b, q)
  }

  /** A spawn fills exactly one free cell with a 2 or a 4 and leaves every other cell
    * as it was; on a full board it changes nothing. */
  lemma SpawnFillsOneFreeCell(b: Board, d: Draw)
    requires IsBoard(b) && IsDraw(d)
    ensures FreeCells(b) == [] ==> Spawn(b, d) == b
    ensures FreeCells(b) != [] ==> exists p :: SpawnedAt(b, Spawn(b, d), p, SpawnValue(d))
  {
    FreeCellsExact(b);
    var free := FreeCells(b);
    if |free| > 0 {
      var p := free[Pick(d.cell, |free|)];
      assert p in free;
      assert SpawnedAt(b, Spawn(b, d), p, SpawnValue(d));
    }
  }

  // ---------------------------------------------------------------------------------
  // The game-over test.

  /** The tile at `p` has an equal neighbour in direction `direction`. */
  predicate MatchAt(b: Board, p: Position, direction: nat)
    requires IsBoard(b) && direction < 4
  {
    var q := Ahead(p, Vector(direction));
    WithinBounds(p, |b|) && WithinBounds(q, |b|) && At(b, p).Occupied? && At(b, q).Occupied? &&
    At(b, q).value == At(b, p).value
  }

  /** `tileMatchesAvailable` over the cells `(x, y)` with `x, y < n`. */
  ghost predicate HasMatch(b: Board, n: int) requires IsBoard(b) {
    exists p: Position, d: nat :: 0 <= p.x < n && 0 <= p.y < n && 0 <= d < 4 && MatchAt(b, p, d)
  }

  ghost predicate HasEmpty(b: Board) requires IsBoard(b) {
    exists p :: WithinBounds(p, |b|) && At(b, p) == Empty
  }

  /** `movesAvailable()`. */
  ghost predicate MovesAvailableOn(b: Board, n: int) requires IsBoard(b) {
    HasEmpty(b) || HasMatch(b, n)
  }

  /** When `movesAvailable()` is false, as `move` then declares the game over, no
    * direction moves a tile: the move only clears the merge marks. */
  lemma NoMoveWhenStuck(b: Board, direction: nat)
    requires IsBoard(b) && direction < 4 && !MovesAvailableOn(b, |b|)
    ensures MoveBoard(b, |b|, direction) == MoveState(Prepare(b), 0, false, false, [])
  {
    var v := Vector(direction);
    forall c | WithinBounds(c, |b|) && At(b, c).Occupied? && WithinBounds(Ahead(c, v), |b|)
      ensures At(b, Ahead(c, v)).Occupied? && At(b, Ahead(c, v)).value != At(b, c).value
    {
      assert At(b, Ahead(c, v)) != Empty;
      assert !MatchAt(b, c, direction);
    }
    MoveFrozen(b, |b|, direction);
  }

  // ---------------------------------------------------------------------------------
  // `JSON.stringify` of a saved game, for the shapes this game stores.

  function JsonBool(b: bool): string {
    if b then "true" else "false"
  }

  function JsonTile(t: Option<SerializedTile>): string {
    match t
    case None => "null"
    case Some(s) =>
      "{\"position\":{\"x\":" + IntToString(s.position.x) + ",\"y\":" + IntToString(s.position.y) +
      "},\"value\":" + IntToString(s.value) + "}"
  }

  function JsonRow(row: seq<Option<SerializedTile>>): string {
    "[" + Join(seq(|row|, i requires 0 <= i < |row| => JsonTile(row[i])), ",") + "]"
  }

  function JsonCells(cells: CellState): string {
    "[" + Join(seq(|cells|, i requires 0 <= i < |cells| => JsonRow(cells[i])), ",") + "]"
  }

  /** The text `setGameState` stores: never empty, so it reads back as a saved game. */
  function JsonGame(g: SerializedGame): (s: string)
    ensures |s| > 0 && s[0] == '{'
  {
    "{\"grid\":{\"size\":" + IntToString(g.grid.size) + ",\"cells\":" + JsonCells(g.grid.cells) +
    "},\"score\":" + IntToString(g.score) + ",\"over\":" + JsonBool(g.over) +
    ",\"won\":" + JsonBool(g.won) + ",\"keepPlaying\":" + JsonBool(g.keepPlaying) + "}"
  }

  /** The store after `actuate`: the best score is raised to the score when it was a
    * number below it, and the saved game is dropped when the game is over, else
    * replaced by `json`. */
  function Actuated(data: map<string, string>, score: int, over: bool, json: string): map<string, string> {
    var data1 := BestRaised(data, score);
    if over then data1 - {GameStateKey} else data1[GameStateKey := json]
  }

  /** The store after the best-score update of `actuate`. */
  function BestRaised(data: map<string, string>, score: int): map<string, string> {
    var best := BestScoreOf(if BestScoreKey in data then Some(data[BestScoreKey]) else None);
    if best.Some? && best.value < score then data[BestScoreKey := IntToString(score)] else data
  }

  /** The spawns of `addStartTiles`, one per draw, on an empty board. */
  function SpawnAll(b: Board, draws: seq<Draw>): (r: Board)
    requires IsBoard(b) && forall i :: 0 <= i < |draws| ==> IsDraw(draws[i])
    ensures IsBoard(r) && |r| == |b|
  {
    if |draws| == 0 then b else Spawn(SpawnAll(b, draws[..|draws| - 1]), draws[|draws| - 1])
  }

  /** The start tiles of a new game are positive, so every board a new game reaches by
    * moves and spawns is too. */
  lemma {:induction false} StartTilesPositive(b: Board, draws: seq<Draw>)
    requires IsBoard(b) && forall i :: 0 <= i < |draws| ==> IsDraw(draws[i])
    requires Positive(b)
    ensures Positive(SpawnAll(b, draws))
  {
    if |draws| > 0 {
      StartTilesPositive(b, draws[..|draws| - 1]);
      SpawnKeepsPositive(SpawnAll(b, draws[..|draws| - 1]), draws[|draws| - 1]);
    }
  }

  /** A saved game `setup` can rebuild its grid from. */
  predicate Loadable(g: SerializedGame) {
    g.grid.size >= 0 && |g.grid.cells| >= g.grid.size && PositionsAgree(g.grid.size, g.grid.cells)
  }

  /** The text `JSON.stringify` makes of a game in this state. */
  function GameJsonOf(board: Board, size: int, score: int, over: bool, won: bool, keepPlaying: bool): string
    requires IsBoard(board)
  {
    JsonGame(SerializedGame(SerializedGrid(SerializeBoard(board), size), score, over, won, keepPlaying))
  }

  /** `buildTraversals` reverses the ascending list in place; as a value. */
  function Reversed(s: seq<int>): (r: seq<int>)
    ensures |r| == |s| && forall k :: 0 <= k < |s| ==> r[k] == s[|s| - 1 - k]
  {
    if |s| == 0 then [] else Reversed(s[1..]) + [s[0]]
  }

  class GameManager {
    const size: nat
    const startTiles: nat := 2
    const storageManager: LocalStorageManager
    var keepPlaying: bool
    var over: bool
    var won: bool
    var grid: Grid
    var score: int

    ghost predicate Valid()
      reads this, grid, grid.tiles
    {
      grid.Valid()
    }

    /** `isGameTerminated()`: lost, or won without the choice to keep playing. */
    function IsGameTerminated(): (r: bool)
      reads this
      ensures r <==> over || (won && !keepPlaying)
    {
      over || (won && !keepPlaying)
    }

    method KeepPlaying()
      modifies this
      ensures keepPlaying && over == old(over) && won == old(won) && score == old(score) && grid == old(grid)
      ensures !over ==> !IsGameTerminated()
    {
      keepPlaying := true;
    }

    /** `serialize()`. */
    method Serialize() returns (s: SerializedGame)
      requires Valid()
      ensures s == SerializedGame(SerializedGrid(SerializeBoard(grid.board), grid.size), score, over, won, keepPlaying)
    {
      var g := grid.Serialize();
      s := SerializedGame(g, score, over, won, keepPlaying);
    }

    /** `actuate()`, without the rendering. */
    method Actuate()
      requires Valid()
      modifies storageManager.storage
      ensures storageManager.storage.data ==
        Actuated(old(storageManager.storage.data), score, over, GameJsonOf(grid.board, grid.size, score, over, won, keepPlaying))
      ensures !over ==> storageManager.GetGameState().Some?
      ensures over ==> storageManager.GetGameState() == None
    {
      var best := storageManager.GetBestScore();
      if best.Some? && best.value < score {
        storageManager.SetBestScore(score);
      }
      assert storageManager.storage.data == BestRaised(old(storageManager.storage.data), score);
      if over {
        storageManager.ClearGameState();
      } else {
        var s := Serialize();
        storageManager.SetGameState(JsonGame(s));
      }
    }

    /** `new GameManager(size, ...)`: `saved` stands for what `JSON.parse` made of the
      * stored game, and `draws` for the calls to `Math.random()` of a new game. */
    constructor (size: nat, storageManager: LocalStorageManager, saved: Option<SerializedGame>, draws: seq<Draw>)
      requires saved.Some? ==> Loadable(saved.value)
      requires saved.None? ==> |draws| == 2 && forall i :: 0 <= i < |draws| ==> IsDraw(draws[i])
      modifies storageManager.storage
      ensures Valid() && this.size == size && this.storageManager == storageManager
      ensures saved.Some? ==> Restored(saved.value)
      ensures saved.None? ==> Started(draws)
    {
      this.size := size;
      this.storageManager := storageManager;
      over := false;
      score := 0;
      won := false;
      grid := new Grid(size, None);
      keepPlaying := false;
      new;
      Setup(saved, draws);
    }

    /** The state `setup` makes of a saved game. */
    ghost predicate Restored(g: SerializedGame)
      reads this, grid, grid.tiles
      requires Loadable(g)
    {
      && Valid() && grid.size == g.grid.size && grid.board == StateBoard(g.grid.size, g.grid.cells)
      && score == g.score && over == g.over && won == g.won && keepPlaying == g.keepPlaying
    }

    /** The state `setup` makes of a new game. */
    ghost predicate Started(draws: seq<Draw>)
      reads this, grid, grid.tiles
      requires forall i :: 0 <= i < |draws| ==> IsDraw(draws[i])
    {
      && Valid() && grid.size == size && grid.board == SpawnAll(EmptyBoard(size), draws)
      && score == 0 && !over && !won && !keepPlaying
    }

    /** `setup(previousState)`. */
    method Setup(previousState: Option<SerializedGame>, draws: seq<Draw>)
      requires previousState.Some? ==> Loadable(previousState.value)
      requires previousState.None? ==> |draws| == startTiles && forall i :: 0 <= i < |draws| ==> IsDraw(draws[i])
      modifies this, storageManager.storage
      ensures fresh(grid) && Valid()
      ensures previousState.Some? ==> Restored(previousState.value)
      ensures previousState.None? ==> Started(draws)
      ensures storageManager.storage.data ==
        Actuated(old(storageManager.storage.data), score, over, GameJsonOf(grid.board, grid.size, score, over, won, keepPlaying))
    {
      if previousState.Some? {
        Load(previousState.value);
      } else {
        Start(draws);
      }
      label actuating:
      Actuate();
      grid.KeepsValid@actuating();
    }

    /** The branch of `setup` that reloads a saved game. */
    method Load(g: SerializedGame)
      requires Loadable(g)
      modifies this
      ensures fresh(grid) && Restored(g)
    {
      grid := new Grid(g.grid.size, Some(g.grid.cells));
      score := g.score;
      over := g.over;
      won := g.won;
      keepPlaying := g.keepPlaying;
    }

    /** The branch of `setup` that starts a new game. */
    method Start(draws: seq<Draw>)
      requires |draws| == startTiles && forall i :: 0 <= i < |draws| ==> IsDraw(draws[i])
      modifies this
      ensures fresh(grid) && Started(draws)
    {
      grid := new Grid(size, None);
      score := 0;
      over := false;
      won := false;
      keepPlaying := false;
      AddStartTiles(draws);
    }

    /** `restart()`: the saved game is dropped, so `setup` starts a new one. */
    method Restart(draws: seq<Draw>)
      requires |draws| == startTiles && forall i :: 0 <= i < |draws| ==> IsDraw(draws[i])
      modifies this, storageManager.storage
      ensures Started(draws) && fresh(grid)
      ensures storageManager.storage.data ==
        Actuated(old(storageManager.storage.data) - {GameStateKey}, score, over,
                 GameJsonOf(grid.board, grid.size, score, over, won, keepPlaying))
    {
      storageManager.ClearGameState();
      var saved := storageManager.GetGameState();
      assert saved == None;
      Setup(None, draws);
    }

    /** `addStartTiles()`. */
    method AddStartTiles(draws: seq<Draw>)
      requires Valid() && |draws| == startTiles && forall i :: 0 <= i < |draws| ==> IsDraw(draws[i])
      modifies grid
      ensures Valid() && grid.board == SpawnAll(old(grid.board), draws)
      ensures forall t :: t in grid.tiles ==> t in old(grid.tiles) || fresh(t)
    {
      for i := 0 to startTiles
        invariant Valid() && grid.board == SpawnAll(old(grid.board), draws[..i])
        invariant forall t :: t in grid.tiles ==> t in old(grid.tiles) || fresh(t)
      {
        assert draws[..i + 1][..i] == draws[..i];
        AddRandomTile(draws[i]);
      }
      assert draws[..startTiles] == draws;
    }

    /** `addRandomTile()`. */
    method AddRandomTile(d: Draw)
      requires Valid() && IsDraw(d)
      modifies grid
      ensures Valid() && grid.board == Spawn(old(grid.board), d)
      ensures forall t :: t in grid.tiles ==> t in old(grid.tiles) || fresh(t)
    {
      var randomCell := grid.RandomAvailableCell(d.cell);
      var available := grid.CellsAvailable();
      if available && randomCell.Some? {
        var value := if d.value < 0.9 then 2 else 4;
        var tile := new Tile(randomCell.value, value);
        grid.InsertTile(tile);
      }
    }

    /** `prepareTiles()`: every tile forgets its merge and records its position. */
    method PrepareTiles()
      requires Valid()
      modifies grid, grid.tiles
      ensures Valid() && grid.cells == old(grid.cells) && grid.board == Prepare(old(grid.board))
      ensures forall x, y :: 0 <= x < grid.size && 0 <= y < grid.size && grid.cells[x][y] != null ==>
        grid.cells[x][y].previousPosition == Some(Position(x, y))
    {
      var g := grid;
      ghost var b0 := g.board;
      for x := 0 to g.size
        invariant g.cells == old(g.cells) && g.board == b0 && grid == g && g.tiles == old(g.tiles)
        invariant forall t :: t in g.tiles ==> t.x == old(t.x) && t.y == old(t.y)
        invariant forall i, j :: 0 <= i < g.size && 0 <= j < g.size && g.cells[i][j] != null ==>
          (i < x ==> g.cells[i][j].mergedFrom == None && g.cells[i][j].previousPosition == Some(Position(i, j))) &&
          (i >= x ==> g.cells[i][j].mergedFrom == old(g.cells[i][j].mergedFrom))
      {
        for y := 0 to g.size
          invariant g.cells == old(g.cells) && g.board == b0 && grid == g && g.tiles == old(g.tiles)
          invariant forall t :: t in g.tiles ==> t.x == old(t.x) && t.y == old(t.y)
          invariant forall i, j :: 0 <= i < g.size && 0 <= j < g.size && g.cells[i][j] != null ==>
            (i < x || (i == x && j < y) ==> g.cells[i][j].mergedFrom == None && g.cells[i][j].previousPosition == Some(Position(i, j))) &&
            (i > x || (i == x && j >= y) ==> g.cells[i][j].mergedFrom == old(g.cells[i][j].mergedFrom))
        {
          var tile := g.cells[x][y];
          if tile != null {
            tile.mergedFrom := None;
            tile.SavePosition();
          }
        }
      }
      g.board := Prepare(b0);
      forall x, y | 0 <= x < g.size && 0 <= y < g.size
        ensures g.board[x][y] == SlotOf(g.cells[x][y])
      {
        assert At(g.board, Position(x, y)) == Unmark(At(b0, Position(x, y)));
      }
    }

    /** `moveTile(tile, cell)`: the tile leaves its cell for `cell`. */
    method MoveTile(tile: Tile, cell: Position)
      requires Valid() && WithinBounds(Position(tile.x, tile.y), grid.size)
      requires grid.cells[tile.x][tile.y] == tile
      requires WithinBounds(cell, grid.size)
      requires cell == Position(tile.x, tile.y) || At(grid.board, cell) == Empty
      modifies grid, tile
      ensures Valid() && tile.x == cell.x && tile.y == cell.y
      ensures grid.board == Put(Put(old(grid.board), Position(old(tile.x), old(tile.y)), Empty), cell,
                                old(At(grid.board, Position(tile.x, tile.y))))
      ensures grid.tiles == old(grid.tiles)
      ensures tile.mergedFrom == old(tile.mergedFrom)
    {
      var p := tile.GetPosition();
      ghost var slot := At(grid.board, p);
      ghost var oldCells := grid.cells;
      RelocatedCells(oldCells, grid.size, p, cell, tile);
      grid.cells := grid.cells[p.x := grid.cells[p.x][p.y := null]];
      grid.cells := grid.cells[cell.x := grid.cells[cell.x][cell.y := tile]];
      tile.UpdatePosition(cell);
      grid.board := Put(Put(grid.board, p, Empty), cell, slot);
      forall x, y | 0 <= x < grid.size && 0 <= y < grid.size
        ensures grid.board[x][y] == SlotOf(grid.cells[x][y])
        ensures grid.cells[x][y] != null ==>
          grid.cells[x][y] in grid.tiles && grid.cells[x][y].x == x && grid.cells[x][y].y == y && grid.cells[x][y].value != 0
      {
        assert grid.board[x][y] == At(grid.board, Position(x, y));
        if (x, y) != (cell.x, cell.y) && (x, y) != (p.x, p.y) {
          assert grid.cells[x][y] == oldCells[x][y];
        }
      }
      forall t | t in grid.tiles
        ensures 0 <= t.x < grid.size && 0 <= t.y < grid.size && grid.cells[t.x][t.y] == t
      {
        if t != tile {
          assert oldCells[t.x][t.y] == t;
        }
      }
    }

    /** `move(direction)`: `direction` is `None` when no direction was given, and `d`
      * stands for the calls to `Math.random()` of the tile added after a move. */
    method Move(direction: Option<nat>, d: Draw)
      requires Valid() && IsDraw(d)
      requires direction.Some? ==> direction.value < 4
      modifies this, grid, grid.tiles, storageManager.storage
      ensures Valid() && grid == old(grid) && keepPlaying == old(keepPlaying)
      ensures direction.None? || old(IsGameTerminated()) ==>
        && grid.board == old(grid.board) && score == old(score) && over == old(over) && won == old(won)
        && storageManager.storage.data == old(storageManager.storage.data)
      ensures direction.Some? && !old(IsGameTerminated()) ==>
        var r := MoveBoard(old(grid.board), size, direction.value);
        && score == old(score) + r.gained && won == (old(won) || r.won)
        && (r.moved ==> grid.board == Spawn(r.board, d) && over == !MovesAvailableOn(grid.board, size))
        && (r.moved ==> (storageManager.storage.data ==
              Actuated(old(storageManager.storage.data), score, over, GameJsonOf(grid.board, grid.size, score, over, won, keepPlaying))))
        && (!r.moved ==> grid.board == r.board && over == old(over))
        && (!r.moved ==> storageManager.storage.data == old(storageManager.storage.data))
      ensures old(Positive(grid.board)) ==> Positive(grid.board) && score >= old(score)
    {
      if direction.None? {
        return;
      }
      if IsGameTerminated() {
        return;
      }
      ghost var before := grid.board;
      var vector := Vector(direction.value);
      var xs, ys := BuildTraversals(vector);
      var didMove := MoveTiles(vector, xs, ys);
      if Positive(before) {
        MoveKeepsPositive(before, size, direction.value);
      }
      if didMove {
        ghost var moved := grid.board;
        FinishMove(d);
        if Positive(moved) {
          SpawnKeepsPositive(moved, d);
        }
      }
    }

    /** What `move` does once a tile has moved: a new tile, the check for the end of
      * the game, and `actuate()`. */
    method FinishMove(d: Draw)
      requires Valid() && IsDraw(d)
      modifies this, grid, storageManager.storage
      ensures Valid() && grid == old(grid) && grid.board == Spawn(old(grid.board), d)
      ensures over == (old(over) || !MovesAvailableOn(grid.board, size))
      ensures score == old(score) && won == old(won) && keepPlaying == old(keepPlaying)
      ensures storageManager.storage.data ==
        Actuated(old(storageManager.storage.data), score, over, GameJsonOf(grid.board, grid.size, score, over, won, keepPlaying))
    {
      AddRandomTile(d);
      var available := MovesAvailable();
      if !available {
        over := true;
      }
      label actuating:
      Actuate();
      grid.KeepsValid@actuating();
    }

    /** The part of `move` from `prepareTiles()` to the end of the traversal. */
    method MoveTiles(v: Position, xs: seq<int>, ys: seq<int>) returns (didMove: bool)
      requires Valid() && IsUnit(v)
      modifies this, grid, grid.tiles
      ensures Valid() && grid == old(grid)
      ensures var r := Sweep(MoveState(Prepare(old(grid.board)), 0, false, false, []), v, xs, ys);
        && grid.board == r.board && score == old(score) + r.gained && won == (old(won) || r.won)
        && didMove == r.moved
      ensures over == old(over) && keepPlaying == old(keepPlaying)
      ensures forall t :: t in grid.tiles ==> t in old(grid.tiles) || fresh(t)
    {
      PrepareTiles();
      ghost var init := MoveState(grid.board, 0, false, false, []);
      ghost var st := init;
      didMove := false;
      for i := 0 to |xs|
        invariant Valid() && grid == old(grid)
        invariant st == Sweep(init, v, xs[..i], ys)
        invariant grid.board == st.board && score == old(score) + st.gained && won == (old(won) || st.won)
        invariant didMove == st.moved
        invariant over == old(over) && keepPlaying == old(keepPlaying)
        invariant forall t :: t in grid.tiles ==> t in old(grid.tiles) || fresh(t)
      {
        ghost var before := st;
        for j := 0 to |ys|
          invariant Valid() && grid == old(grid)
          invariant st == Row(before, v, xs[i], ys[..j])
          invariant grid.board == st.board && score == old(score) + st.gained && won == (old(won) || st.won)
          invariant didMove == st.moved
          invariant over == old(over) && keepPlaying == old(keepPlaying)
          invariant forall t :: t in grid.tiles ==> t in old(grid.tiles) || fresh(t)
        {
          var cell := Position(xs[i], ys[j]);
          var moved := TraverseCell(cell, v, st, old(score), old(won));
          assert ys[..j + 1][..j] == ys[..j];
          st := Step(st, v, cell);
          if moved {
            didMove := true;
          }
        }
        assert ys[..|ys|] == ys;
        assert xs[..i + 1][..i] == xs[..i];
      }
      assert xs[..|xs|] == xs;
    }

    /** The body of the inner `forEach` of `move` for the cell `cell`: the tile there,
      * if any, merges into the tile ahead of it or slides as far as it can. `st` is
      * the move so far, which began from the score `score0` and win flag `won0`. */
    method TraverseCell(cell: Position, v: Position, ghost st: MoveState, ghost score0: int, ghost won0: bool)
      returns (tileMoved: bool)
      requires Valid() && IsUnit(v) && st.board == grid.board
      requires score == score0 + st.gained && won == (won0 || st.won)
      modifies this, grid, grid.tiles
      ensures Valid() && grid == old(grid)
      ensures var r := Step(st, v, cell);
        && grid.board == r.board && score == score0 + r.gained && won == (won0 || r.won)
        && r.moved == (st.moved || tileMoved)
      ensures over == old(over) && keepPlaying == old(keepPlaying)
      ensures forall t :: t in grid.tiles ==> t in old(grid.tiles) || fresh(t)
    {
      tileMoved := false;
      var tile := grid.CellContent(cell);
      if tile == null {
        assert Step(st, v, cell) == st;
        return;
      }
      var farthest, next := FindFarthestPosition(cell, v);
      var nextTile := grid.CellContent(next);
      if nextTile != null && nextTile.value == tile.value && nextTile.mergedFrom.None? {
        tileMoved := MergeStep(cell, v, next, tile, nextTile, st, score0, won0);
      } else {
        tileMoved := SlideStep(cell, v, farthest, next, tile, st, score0, won0);
      }
    }

    /** `TraverseCell` when the tile at `cell` merges into `nextTile`. */
    method MergeStep(cell: Position, v: Position, next: Position, tile: Tile, nextTile: Tile,
                     ghost st: MoveState, ghost score0: int, ghost won0: bool)
      returns (tileMoved: bool)
      requires Valid() && IsUnit(v) && st.board == grid.board
      requires score == score0 + st.gained && won == (won0 || st.won)
      requires WithinBounds(cell, grid.size) && grid.cells[cell.x][cell.y] == tile
      requires next == Ahead(Farthest(st.board, cell, v), v)
      requires WithinBounds(next, grid.size) && grid.cells[next.x][next.y] == nextTile
      requires nextTile.value == tile.value && nextTile.mergedFrom.None?
      modifies this, grid, tile
      ensures Valid() && grid == old(grid)
      ensures var r := Step(st, v, cell);
        && grid.board == r.board && score == score0 + r.gained && won == (won0 || r.won)
        && r.moved == (st.moved || tileMoved)
      ensures over == old(over) && keepPlaying == old(keepPlaying)
      ensures forall t :: t in grid.tiles ==> t in old(grid.tiles) || fresh(t)
    {
      NextLeaves(st.board, cell, v);
      StepMerges(st, v, cell);
      ghost var r := Step(st, v, cell);
      ghost var joined := tile.value * 2;
      assert r == MoveState(Put(Put(st.board, next, Occupied(joined, true)), cell, Empty),
                            st.gained + joined, st.won || joined == 2048, true, st.targets + [next]);
      MergeTiles(tile, nextTile);
      assert grid.board == r.board;
      tileMoved := !PositionsEqual(cell, tile);
    }

    /** `TraverseCell` when the tile at `cell` slides to `farthest`. */
    method SlideStep(cell: Position, v: Position, farthest: Position, next: Position, tile: Tile,
                     ghost st: MoveState, ghost score0: int, ghost won0: bool)
      returns (tileMoved: bool)
      requires Valid() && IsUnit(v) && st.board == grid.board
      requires score == score0 + st.gained && won == (won0 || st.won)
      requires WithinBounds(cell, grid.size) && grid.cells[cell.x][cell.y] == tile
      requires farthest == Farthest(st.board, cell, v) && next == Ahead(farthest, v)
      requires !(WithinBounds(next, grid.size) && At(grid.board, next) == Occupied(tile.value, false))
      modifies grid, tile
      ensures Valid() && grid == old(grid)
      ensures var r := Step(st, v, cell);
        && grid.board == r.board && score == score0 + r.gained && won == (won0 || r.won)
        && r.moved == (st.moved || tileMoved)
      ensures forall t :: t in grid.tiles ==> t in old(grid.tiles) || fresh(t)
    {
      StepSlides(st, v, cell);
      MoveTile(tile, farthest);
      tileMoved := !PositionsEqual(cell, tile);
    }

    /** The merge branch of `move`: a tile of twice the value replaces `nextTile`,
      * `tile` leaves the grid for that cell, and the score gains the new value. */
    method MergeTiles(tile: Tile, nextTile: Tile)
      requires Valid() && WithinBounds(Position(tile.x, tile.y), grid.size) && grid.cells[tile.x][tile.y] == tile
      requires WithinBounds(Position(nextTile.x, nextTile.y), grid.size) && grid.cells[nextTile.x][nextTile.y] == nextTile
      requires tile != nextTile
      modifies this, grid, tile
      ensures Valid() && grid == old(grid)
      ensures var joined := tile.value * 2;
        && grid.board == Put(Put(old(grid.board), Position(nextTile.x, nextTile.y), Occupied(joined, true)),
                             Position(old(tile.x), old(tile.y)), Empty)
        && score == old(score) + joined && won == (old(won) || joined == 2048)
      ensures tile.x == nextTile.x && tile.y == nextTile.y
      ensures over == old(over) && keepPlaying == old(keepPlaying)
      ensures forall t :: t in grid.tiles ==> t in old(grid.tiles) || fresh(t)
    {
      var next := nextTile.GetPosition();
      var merged := new Tile(next, tile.value * 2);
      merged.mergedFrom := Some((tile, nextTile));
      grid.InsertTile(merged);
      grid.RemoveTile(tile);
      label removed:
      tile.UpdatePosition(next);
      grid.KeepsValid@removed();
      score := score + merged.value;
      if merged.value == 2048 {
        won := true;
      }
    }

    /** `positionsEqual(first, tile)`. */
    function PositionsEqual(first: Position, tile: Tile): (r: bool)
      reads tile
      ensures r <==> first == tile.GetPosition()
    {
      var second := tile.GetPosition();
      first.x == second.x && first.y == second.y
    }

    /** `buildTraversals(vector)`: both axes ascending, then reversed on the axis the
      * vector points along positively. */
    method BuildTraversals(v: Position) returns (xs: seq<int>, ys: seq<int>)
      ensures xs == Order(size, v.x == 1) && ys == Order(size, v.y == 1)
    {
      xs, ys := [], [];
      for pos := 0 to size
        invariant xs == Order(pos, false) && ys == xs
      {
        xs := xs + [pos];
        ys := ys + [pos];
      }
      if v.x == 1 {
        xs := Reversed(xs);
      }
      if v.y == 1 {
        ys := Reversed(ys);
      }
    }

    /** `findFarthestPosition(cell, vector)`: step along the vector while the next
      * cell is on the board and free. */
    method FindFarthestPosition(cell: Position, v: Position) returns (farthest: Position, next: Position)
      requires Valid() && IsUnit(v)
      ensures farthest == Farthest(grid.board, cell, v) && next == Ahead(farthest, v)
    {
      var previous := cell;
      var c := Position(previous.x + v.x, previous.y + v.y);
      while grid.WithinBoundsHere(c) && grid.CellAvailable(c)
        invariant c == Ahead(previous, v) && Farthest(grid.board, previous, v) == Farthest(grid.board, cell, v)
        decreases Room(previous, v, grid.size)
      {
        previous := c;
        c := Position(previous.x + v.x, previous.y + v.y);
      }
      farthest, next := previous, c;
    }

    /** `tileMatchesAvailable()`. */
    method TileMatchesAvailable() returns (r: bool)
      requires Valid()
      ensures r <==> HasMatch(grid.board, size)
    {
      for x := 0 to size
        invariant forall p: Position, d: nat :: 0 <= p.x < x && 0 <= p.y < size && d < 4 ==> !MatchAt(grid.board, p, d)
      {
        for y := 0 to size
          invariant forall p: Position, d: nat :: (0 <= p.x < x || (p.x == x && 0 <= p.y < y)) && 0 <= p.y < size && d < 4 ==>
            !MatchAt(grid.board, p, d)
        {
          var tile := grid.CellContent(Position(x, y));
          if tile == null {
            continue;
          }
          for direction := 0 to 4
            invariant forall d: nat :: d < direction ==> !MatchAt(grid.board, Position(x, y), d)
          {
            var vector := Vector(direction);
            var cell := Position(x + vector.x, y + vector.y);
            var other := grid.CellContent(cell);
            if other != null && other.value == tile.value {
              assert MatchAt(grid.board, Position(x, y), direction);
              return true;
            }
          }
        }
      }
      return false;
    }

    /** `movesAvailable()`. */
    method MovesAvailable() returns (r: bool)
      requires Valid()
      ensures r <==> MovesAvailableOn(grid.board, size)
    {
      var free := grid.CellsAvailable();
      if free {
        return true;
      }
      r := TileMatchesAvailable();
    }
  }
}
