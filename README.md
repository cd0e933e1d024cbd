# A verified model of the personal-site experiments

This project models the computational core of a personal web site and its browser experiments, and proves properties of that model. The core covers:

- **2048 and its AI.** The 2048 game: tiles, the grid of tiles, the game manager's move loop, random spawning, the game-over test and persistence. Also its keyboard and touch input, and the alpha-beta search agent with its ring-buffer deque.
- **Sudoku.** The C solver compiled to WebAssembly: parsing, domains, arcs, AC-3 and backtracking search. Also the TypeScript page that converts boards and builds new random puzzles with the solver's help.
- **WebAssembly memory.** The helper that reads and writes strings and 32-bit words through views of a module's memory, and the small `add.c` exports.
- **The experiments menu.** It turns dash-separated experiment paths into a directory tree.
- **Game of Life.** Two versions: a WebGL one on a flat toroidal array, and an HTML one on a grid of `div`s whose edges do not wrap.
- **Notion blog.** Block parsing and grouping of numbered lists, and ordering and mapping of projects.
- **Canvas text painting.** Word wrapping by binary search, line layout of styled spans, and the flattening of a row of spans into words.

Modelling choices:

- **Where the source works by changing state, the model is imperative.** The grid, game manager, deque, storage, input manager, AI engine, sudoku domains, WebAssembly memory and Life pages are classes, and their methods say exactly how their fields change. Loops are `while` loops with invariants.
- **Where the source computes values, the model is functional.** Its properties are lemmas over functions.
- **Where the source does something it evidently did not mean, it is modelled twice.** The member named after the source function does what the code does as written. A member suffixed `Intended` does what was meant. Both are proved; see "## Findings".
- **The outside world becomes parameters.** Randomness is a sequence of draws or a function `rand(k)`. Text measurement is an integer-valued function. The solver `wasm.solve` is a function parameter. The DOM and the canvas are values: a grid of cell states, or a list of the drawing calls made.

Modules, one file each:

- `Common`: Option/Result.
- `Int32`: 32-bit wrap-around.
- `Strings`: `String(n)`, `parseInt`, `split`, `join`.
- `Tiles`, `Grids`, `MoveRules`, `Game`, `Storage`, `Input`, `Deque`: the 2048 game.
- `AiBoard`, `AiNode`, `AiSearch`, `AiEngine`: the 2048 agent.
- `SudokuC`, `SudokuSolver`: sudoku.c.
- `SudokuBoards`: sudoku.ts.
- `WasmLoad`: load.ts.
- `AddC`: add.c.
- `MakeDirectories`: makeDirectories.ts.
- `LifeToroidal`: initWebgl.ts.
- `LifeHtml`: conways-2d-html.ts.
- `NotionServer`, `NotionHelper`: server.ts and helper.ts.
- `FillText`, `RenderTextRow`, `HtmlPaint`: the htmlpaint files.

## Model

| member | source | states |
|---|---|---|
| AddC.Add | archived/wasm/add.c:5-8 | the result is a 32-bit integer congruent to a + b modulo 2^32, and exactly a + b when that does not overflow |
| AddC.SumArray | archived/wasm/add.c:11-19 | 0 when length ≤ 0; otherwise the sum of the first `length` entries wrapped to 32 bits, the array only read |
| Int32.Wrap32 | archived/wasm/add.c:16 | the wrapped value is a 32-bit integer congruent to its argument modulo 2^32, and the argument itself when it is already one |
| Int32.WrapAddLeft | archived/wasm/add.c:14-17 | wrapping after every addition of the loop gives the same as wrapping the whole sum once |
| Common.Pick | src/lib/utils/experiments/2048ai/grid.ts:53-59 | `Math.floor(Math.random() * n)` is an index below n |
| Strings.IntToString | src/lib/utils/experiments/2048ai/storage.ts:40-42 | `String(n)` is a non-empty run of digits, with a leading minus sign for a negative number |
| Strings.ParseIntOfString | src/lib/utils/experiments/2048ai/storage.ts:33-42 | `parseInt(String(n))` gives n back |
| Strings.IntToStringInjective | src/lib/utils/experiments/2048ai/tile.ts:48-50 | two integers with the same decimal text are equal |
| Strings.LeadingDigits | src/lib/utils/experiments/2048ai/storage.ts:38 | the longest run of digits at the start of the text, which `parseInt` reads |
| Strings.Split | src/lib/utils/htmlpaint/fillTextWithWrap.ts:53 | `split(' ')` gives at least one piece, none holding the separator |
| Strings.JoinSplit | src/lib/utils/htmlpaint/fillTextWithWrap.ts:53-60 | joining the pieces of a split with the separator gives the text back |
| Strings.SplitJoin | src/lib/utils/htmlpaint/fillTextWithWrap.ts:53-60 | splitting a join of pieces without the separator gives the pieces back |
| Tiles.InitialValue | src/lib/utils/experiments/2048ai/tile.ts:13 | a value of 0 becomes 2 and any other value is kept, so a tile never holds 0 |
| Tiles.Tile.constructor | src/lib/utils/experiments/2048ai/tile.ts:10-17 | the new tile sits at the given position with the value `value \|\| 2`; `previousPosition` and `mergedFrom` are null |
| Tiles.Tile.GetPosition | src/lib/utils/experiments/2048ai/tile.ts:23-28 | the position returned is the tile's current x and y |
| Tiles.Tile.SavePosition | src/lib/utils/experiments/2048ai/tile.ts:30-32 | `previousPosition` becomes the current (x, y); the position and `mergedFrom` are unchanged |
| Tiles.Tile.UpdatePosition | src/lib/utils/experiments/2048ai/tile.ts:33-36 | x and y become the given position; `previousPosition` and `mergedFrom` are unchanged, and the value cannot change |
| Tiles.Tile.Serialize | src/lib/utils/experiments/2048ai/tile.ts:38-46 | the serialized form carries the tile's position and value |
| Tiles.Tile.ToString | src/lib/utils/experiments/2048ai/tile.ts:48-50 | the key "x,y,value" reads back as exactly the tile's x, y and value |
| Tiles.Rebuild | src/lib/utils/experiments/2048ai/tile.ts:10-46 | a tile rebuilt from a serialized tile has its position and its value, with 0 read as 2 |
| Tiles.TileKeyRoundTrip | src/lib/utils/experiments/2048ai/tile.ts:48-50 | the three numbers of a key "x,y,value" can be read back out of it |
| Tiles.TileKeyInjective | src/lib/utils/experiments/2048ai/tile.ts:48-50 | two tiles with the same key have the same x, y and value |
| Grids.SlotOf | src/lib/utils/experiments/2048ai/grid.ts:4-9 | the value view of a cell is empty exactly for null, and otherwise carries the tile's value and whether it is merged |
| Grids.EmptyBoard | src/lib/utils/experiments/2048ai/grid.ts:24-36 | a size × size board whose every cell is empty |
| Grids.StateBoard | src/lib/utils/experiments/2048ai/grid.ts:38-50 | a size × size board whose every cell is what `fromState` makes of the stored cell |
| Grids.SerializeBoard | src/lib/utils/experiments/2048ai/grid.ts:141-156 | the stored cells have one column per board column and one entry per cell |
| Grids.SerializeRoundTrip | src/lib/utils/experiments/2048ai/grid.ts:38-50 | rebuilding a grid from its serialized cells gives every tile back at its position with its value; only merge marks are lost |
| Grids.ColumnFreeSound | src/lib/utils/experiments/2048ai/grid.ts:61-79 | the free cells listed for column x below y are empty cells of that column, in increasing y |
| Grids.ColumnFreeComplete | src/lib/utils/experiments/2048ai/grid.ts:61-79 | every empty cell of column x below y is listed |
| Grids.FreeBeforeSound | src/lib/utils/experiments/2048ai/grid.ts:61-79 | the cells listed for the columns before x are empty, in the order x outer, y inner |
| Grids.FreeBeforeComplete | src/lib/utils/experiments/2048ai/grid.ts:61-79 | every empty cell of the columns before x is listed |
| Grids.FreeCellsExact | src/lib/utils/experiments/2048ai/grid.ts:61-79 | `availableCells` lists exactly the empty cells of the board, each once, x outer and y inner |
| Grids.WithinBoundsOf | src/lib/utils/experiments/2048ai/grid.ts:137-139 | holds iff 0 ≤ x < size and 0 ≤ y < size |
| Grids.CellContentIn | src/lib/utils/experiments/2048ai/grid.ts:106-112 | null outside the table, and `cells[x][y]` inside it |
| Grids.CellOccupiedIn | src/lib/utils/experiments/2048ai/grid.ts:98-100 | holds iff the cell is inside the table and holds a tile |
| Grids.CellAvailableIn | src/lib/utils/experiments/2048ai/grid.ts:90-92 | holds iff the cell is not occupied; inside the table, iff it is null |
| Grids.RelocatedCells | src/lib/utils/experiments/2048ai/grid.ts:119-131 | removing a tile at p and inserting it at q changes those two cells only |
| Grids.EmptyCells | src/lib/utils/experiments/2048ai/grid.ts:24-36 | `empty()` builds size columns of size nulls |
| Grids.CellsFromState | src/lib/utils/experiments/2048ai/grid.ts:38-50 | `fromState` makes a fresh tile for each stored tile, at the stored position and with its value, and null elsewhere |
| Grids.Grid.constructor | src/lib/utils/experiments/2048ai/grid.ts:11-14 | a new grid holds the stored state when one is given, and an empty board otherwise |
| Grids.Grid.CellContent | src/lib/utils/experiments/2048ai/grid.ts:102-112 | null outside the board or at an empty cell; otherwise the tile of that cell, which sits at that position |
| Grids.Grid.CellOccupied | src/lib/utils/experiments/2048ai/grid.ts:94-96 | holds iff the cell is on the board and holds a tile |
| Grids.Grid.CellAvailable | src/lib/utils/experiments/2048ai/grid.ts:86-88 | holds iff the cell is not occupied: off the board or empty |
| Grids.Grid.WithinBoundsHere | src/lib/utils/experiments/2048ai/grid.ts:133-135 | holds iff the position is on this grid's board |
| Grids.Grid.AvailableCells | src/lib/utils/experiments/2048ai/grid.ts:61-79 | the loop lists the board's free cells, x outer and y inner |
| Grids.Grid.CellsAvailable | src/lib/utils/experiments/2048ai/grid.ts:81-83 | holds iff some cell of the board is empty |
| Grids.Grid.RandomAvailableCell | src/lib/utils/experiments/2048ai/grid.ts:53-59 | nothing when no cell is free; otherwise the free cell at index ⌊random·n⌋ of the list, which is empty and on the board |
| Grids.Grid.InsertTile | src/lib/utils/experiments/2048ai/grid.ts:115-122 | only the cell at the tile's own position changes, and it now holds the tile |
| Grids.Grid.RemoveTile | src/lib/utils/experiments/2048ai/grid.ts:124-131 | only the cell at the tile's own position changes, and it is now null |
| Grids.Grid.Serialize | src/lib/utils/experiments/2048ai/grid.ts:141-156 | the size and the stored form of every cell |
| Grids.Reload | src/lib/utils/experiments/2048ai/grid.ts:11-156 | a grid rebuilt from another's serialized cells has the same size and the same tile value at every cell, merge marks cleared |
| MoveRules.Vector | src/lib/utils/experiments/2048ai/game.ts:9-14 | each of the four directions maps to a unit vector: up (0,-1), right (1,0), down (0,1), left (-1,0) |
| MoveRules.Order | src/lib/utils/experiments/2048ai/game.ts:224-237 | a traversal lists 0..n-1 in order, or reversed when the vector points to +1 on that axis |
| MoveRules.OrderIsPermutation | src/lib/utils/experiments/2048ai/game.ts:224-237 | a traversal visits every coordinate of the board exactly once |
| MoveRules.Farthest | src/lib/utils/experiments/2048ai/game.ts:239-252 | the farthest cell found from an on-board start is on the board and is either the start itself or an empty cell |
| MoveRules.Reach | src/lib/utils/experiments/2048ai/game.ts:239-252 | the cells 1 to r steps ahead are on the board and empty, and the cell r+1 steps ahead is off the board or holds a tile |
| MoveRules.FarthestIsReach | src/lib/utils/experiments/2048ai/game.ts:239-252 | the do-while walk stops exactly Reach steps ahead: `farthest` is the last empty cell in front and `next` the cell after it |
| MoveRules.NextLeaves | src/lib/utils/experiments/2048ai/game.ts:239-252 | the `next` cell is never the starting cell, so a tile never merges with itself |
| MoveRules.Prepare | src/lib/utils/experiments/2048ai/game.ts:145-152 | every tile keeps its value and cell and loses its merge mark |
| MoveRules.Step | src/lib/utils/experiments/2048ai/game.ts:175-205 | handling one cell keeps a square board of the same size |
| MoveRules.StepMerges | src/lib/utils/experiments/2048ai/game.ts:183-197 | when `next` holds an unmerged tile of the same value, the two become one merged tile of twice the value at `next`, the start cell empties, the score grows by the new value and the win flag is raised iff it is 2048 |
| MoveRules.StepSlides | src/lib/utils/experiments/2048ai/game.ts:198-204 | otherwise the tile moves to `farthest`, nothing is scored, and the move counts as moving iff `farthest` differs from the start cell |
| MoveRules.MoveBoard | src/lib/utils/experiments/2048ai/game.ts:160-207 | a move prepares the tiles and folds the cell step over the x traversal outside and the y traversal inside, keeping the board square |
| MoveRules.StillMoveChangesNothing | src/lib/utils/experiments/2048ai/game.ts:202-209 | a move in which no tile left its cell only clears the merge marks: no points, no win, no merge |
| MoveRules.MoveConservesTotal | src/lib/utils/experiments/2048ai/game.ts:183-200 | the sum of the tile values on the board is the same before and after a move |
| MoveRules.MoveKeepsPositive | src/lib/utils/experiments/2048ai/game.ts:184-194 | on a board of positive tiles a move keeps every tile positive and gains no negative points, so the score never decreases |
| MoveRules.MoveFrozen | src/lib/utils/experiments/2048ai/game.ts:175-207 | when no tile has an empty or equal neighbour in the direction, the move leaves the prepared board and scores nothing |
| MoveRules.StepThawed | src/lib/utils/experiments/2048ai/game.ts:183-203 | a tile whose neighbour ahead is empty, or an unmerged tile of its value, leaves its cell by a slide or a merge |
| MoveRules.RowReaches | src/lib/utils/experiments/2048ai/game.ts:175-205 | a column whose traversal reaches a tile that can go makes the move a moving one |
| MoveRules.SweepReaches | src/lib/utils/experiments/2048ai/game.ts:175-205 | a traversal that reaches a tile that can go makes the move a moving one |
| MoveRules.MovedIffThawed | src/lib/utils/experiments/2048ai/game.ts:175-207 | over the whole board, a move moves some tile exactly when some tile has an empty or equal neighbour in that direction |
| MoveRules.MoveMergesOnce | src/lib/utils/experiments/2048ai/game.ts:182-197 | the merge cells are distinct, each holds a merged tile, every merged tile sits on one, the gain is the sum of their values, and the move wins iff one of them holds 2048 |
| Game.SpawnValue | src/lib/utils/experiments/2048ai/game.ts:106 | a new tile is worth 2 when the draw is below 0.9 and 4 otherwise |
| Game.Spawn | src/lib/utils/experiments/2048ai/game.ts:103-111 | adding a random tile keeps a square board of the same size |
| Game.SpawnFillsOneFreeCell | src/lib/utils/experiments/2048ai/game.ts:103-111 | on a full board nothing changes; otherwise exactly one free cell receives an unmerged 2 or 4 and every other cell is unchanged |
| Game.SpawnKeepsPositive | src/lib/utils/experiments/2048ai/game.ts:106-109 | a spawn keeps every tile of the board positive |
| Game.SpawnAll | src/lib/utils/experiments/2048ai/game.ts:97-101 | the start tiles are one spawn per draw, keeping the board square |
| Game.StartTilesPositive | src/lib/utils/experiments/2048ai/game.ts:97-101 | the start tiles of a new game keep every tile positive |
| Game.NoMoveWhenStuck | src/lib/utils/experiments/2048ai/game.ts:212-213 | when `movesAvailable()` is false, which is when the game is declared over, no direction moves a tile or scores |
| Game.JsonGame | src/lib/utils/experiments/2048ai/game.ts:123 | the stored text of a game is non-empty and starts with `{` |
| Game.Reversed | src/lib/utils/experiments/2048ai/game.ts:233-234 | the reversed list has the same length and holds the k-th element from the end at index k |
| Game.GameManager.IsGameTerminated | src/lib/utils/experiments/2048ai/game.ts:69-71 | holds iff the game is over, or won without the choice to keep playing |
| Game.GameManager.KeepPlaying | src/lib/utils/experiments/2048ai/game.ts:63-66 | sets keepPlaying and changes nothing else; a game that is not over is then not terminated |
| Game.GameManager.Serialize | src/lib/utils/experiments/2048ai/game.ts:135-143 | the saved form holds the serialized grid, the score and the three flags |
| Game.GameManager.Actuate | src/lib/utils/experiments/2048ai/game.ts:114-133 | the best score is raised when below the score; the saved game is dropped when the game is over and stored otherwise |
| Game.GameManager.constructor | src/lib/utils/experiments/2048ai/game.ts:33-55 | a new manager is set up from the stored game when there is one, and as a new game with two start tiles otherwise |
| Game.GameManager.Setup | src/lib/utils/experiments/2048ai/game.ts:74-94 | a saved game restores its grid, score and flags; otherwise the grid is empty plus the start tiles, with score 0 and all flags false; then `actuate` runs |
| Game.GameManager.Load | src/lib/utils/experiments/2048ai/game.ts:76-81 | the grid, score and flags come from the saved game |
| Game.GameManager.Start | src/lib/utils/experiments/2048ai/game.ts:82-90 | a fresh grid with the start tiles, score 0 and every flag false |
| Game.GameManager.Restart | src/lib/utils/experiments/2048ai/game.ts:56-60 | the game starts afresh; the store is what `actuate` makes of it once the saved game is removed: the new game saved, the best score raised only when below |
| Game.GameManager.AddStartTiles | src/lib/utils/experiments/2048ai/game.ts:97-101 | the board becomes the spawns of the draws, one after the other |
| Game.GameManager.AddRandomTile | src/lib/utils/experiments/2048ai/game.ts:103-111 | the board becomes `Spawn` of the old board |
| Game.GameManager.PrepareTiles | src/lib/utils/experiments/2048ai/game.ts:145-152 | the table of tiles is unchanged, merge marks are cleared, and every tile records its current cell as its previous position |
| Game.GameManager.MoveTile | src/lib/utils/experiments/2048ai/game.ts:153-158 | the tile leaves its cell for the target cell, which it now holds at its new position; no other cell changes |
| Game.GameManager.Move | src/lib/utils/experiments/2048ai/game.ts:160-218 | no direction or a terminated game: nothing changes. Otherwise the grid changes as `MoveBoard` says and the score and win flag follow it; if a tile moved, a tile is spawned, game over is set iff no move is available, and the game is saved; on a board of positive tiles the score never decreases |
| Game.GameManager.FinishMove | src/lib/utils/experiments/2048ai/game.ts:209-217 | a tile is spawned, game over is set iff no move is available afterwards, and `actuate` stores the game |
| Game.GameManager.MoveTiles | src/lib/utils/experiments/2048ai/game.ts:170-207 | the tile objects end as the `Sweep` of the prepared board says, the score and win flag follow it, and `didMove` is its moved flag |
| Game.GameManager.TraverseCell | src/lib/utils/experiments/2048ai/game.ts:175-205 | one cell of the traversal changes the grid, score and win flag exactly as `Step` does |
| Game.GameManager.MergeStep | src/lib/utils/experiments/2048ai/game.ts:183-197 | the merge branch changes the grid, score and win flag as `Step` does |
| Game.GameManager.SlideStep | src/lib/utils/experiments/2048ai/game.ts:198-204 | the slide branch changes the grid as `Step` does, without scoring |
| Game.GameManager.MergeTiles | src/lib/utils/experiments/2048ai/game.ts:184-197 | a merged tile of twice the value replaces the tile ahead, the moving tile's cell empties and the tile takes the merged position, the score grows by the new value, and the game is won iff it is 2048 |
| Game.GameManager.PositionsEqual | src/lib/utils/experiments/2048ai/game.ts:281-284 | holds iff the position is the tile's position |
| Game.GameManager.BuildTraversals | src/lib/utils/experiments/2048ai/game.ts:224-237 | both traversals are ascending, reversed on an axis where the vector is +1 |
| Game.GameManager.FindFarthestPosition | src/lib/utils/experiments/2048ai/game.ts:239-252 | the loop stops at `Farthest` of the board, and `next` is the cell after it |
| Game.GameManager.TileMatchesAvailable | src/lib/utils/experiments/2048ai/game.ts:258-279 | true iff some tile has a neighbour of the same value |
| Game.GameManager.MovesAvailable | src/lib/utils/experiments/2048ai/game.ts:254-256 | true iff some cell is empty or some tile has an equal neighbour |
| Storage.FakeStorage.constructor | src/lib/utils/experiments/2048ai/storage.ts:3-5 | the fallback store starts with no entries |
| Storage.FakeStorage.SetItem | src/lib/utils/experiments/2048ai/storage.ts:7-9 | the key now maps to the value, every other entry is kept, and the value is returned |
| Storage.FakeStorage.GetItem | src/lib/utils/experiments/2048ai/storage.ts:11-13 | the stored string for a present key, and undefined exactly when the key is absent |
| Storage.FakeStorage.RemoveItem | src/lib/utils/experiments/2048ai/storage.ts:15-17 | the key is gone, every other entry is kept, and the answer is true |
| Storage.FakeStorage.Clear | src/lib/utils/experiments/2048ai/storage.ts:19-21 | the store becomes empty |
| Storage.BestScoreOf | src/lib/utils/experiments/2048ai/storage.ts:33-39 | a missing or empty entry reads as 0; any other entry is `parseInt` of it |
| Storage.GameStateOf | src/lib/utils/experiments/2048ai/storage.ts:43-46 | a missing or empty entry gives null; any other entry is handed on as it is |
| Storage.BestScoreRoundTrip | src/lib/utils/experiments/2048ai/storage.ts:33-42 | a best score stored with `String(score)` reads back as the same number |
| Storage.LocalStorageManager.constructor | src/lib/utils/experiments/2048ai/storage.ts:29-32 | the manager uses the store it is given |
| Storage.LocalStorageManager.GetBestScore | src/lib/utils/experiments/2048ai/storage.ts:33-39 | the best score read from the store's "bestScore" entry, 0 when there is none |
| Storage.LocalStorageManager.SetBestScore | src/lib/utils/experiments/2048ai/storage.ts:40-42 | only the "bestScore" entry changes, and it reads back as the score |
| Storage.LocalStorageManager.GetGameState | src/lib/utils/experiments/2048ai/storage.ts:43-46 | the "gameState" text when present and non-empty, null otherwise |
| Storage.LocalStorageManager.SetGameState | src/lib/utils/experiments/2048ai/storage.ts:47-49 | only the "gameState" entry changes, and non-empty text reads back as itself |
| Storage.LocalStorageManager.ClearGameState | src/lib/utils/experiments/2048ai/storage.ts:50-52 | only the "gameState" entry is removed: no game state reads back, and the best score is unchanged |
| Input.Emitted | src/lib/utils/experiments/2048ai/inputManager.ts:36-43 | `emit` calls every callback registered for the event, in registration order, each with the event's data |
| Input.EmitAfterRegister | src/lib/utils/experiments/2048ai/inputManager.ts:29-43 | after `on(event, callback)`, emitting the event makes the earlier calls and then calls the new callback; other events emit as before |
| Input.EmitUnknown | src/lib/utils/experiments/2048ai/inputManager.ts:36-43 | an event with no registered list calls nothing |
| Input.KeyboardInputManager.constructor | src/lib/utils/experiments/2048ai/inputManager.ts:11-27 | a new manager has no registered events |
| Input.KeyboardInputManager.On | src/lib/utils/experiments/2048ai/inputManager.ts:29-34 | the callback is appended to the event's list, created when missing; no other event's list changes |
| Input.KeyboardInputManager.Emit | src/lib/utils/experiments/2048ai/inputManager.ts:36-43 | the calls made are exactly `Emitted` for the event and data |
| Input.KeyboardInputManager.KeepPlaying | src/lib/utils/experiments/2048ai/inputManager.ts:49-52 | the keep-playing button emits "keepPlaying" with no data |
| Input.KeyboardInputManager.Restart | src/lib/utils/experiments/2048ai/inputManager.ts:54-57 | the restart and retry buttons emit "restart" with no data |
| Input.TouchStart | src/lib/utils/experiments/2048ai/inputManager.ts:65-75 | nothing for a touch with more than one finger; otherwise the first touch's coordinates |
| Input.Swipe | src/lib/utils/experiments/2048ai/inputManager.ts:92-101 | a swipe exists iff it goes more than 10 pixels on some axis; it is horizontal (1 or 3) iff strictly wider than tall, and otherwise vertical |
| Input.SwipeFollowsFinger | src/lib/utils/experiments/2048ai/inputManager.ts:98-100 | the chosen direction's vector is the one the finger moved furthest along, and the finger moved that way |
| Input.TouchEnd | src/lib/utils/experiments/2048ai/inputManager.ts:81-102 | nothing while a finger is still down; otherwise the swipe from the start point, when there is one, is emitted as a move |
| Input.KeyMap | src/lib/utils/experiments/2048ai/inputManager.ts:104-117 | the intended key table: ArrowUp, k and w are up; ArrowRight, l and d right; ArrowDown, j and s down; ArrowLeft, h and a left |
| Input.VimKeysUnmapped | src/lib/utils/experiments/2048ai/inputManager.ts:109-112 | with the table as written, k, l, j and h map to nothing, while the intended table maps them to up, right, down and left |
| Input.RestartKeyThrows | src/lib/utils/experiments/2048ai/inputManager.ts:129-132 | as written, pressing r throws before any restart callback is called |
| Input.HandleKeyDown | src/lib/utils/experiments/2048ai/inputManager.ts:119-133 | as written: a key of the table as written, without a modifier, prevents the default and emits its move; R or r without a modifier throws; with a modifier nothing happens |
| Input.HandleKeyDownIntended | src/lib/utils/experiments/2048ai/inputManager.ts:119-133 | with the Vim keys keyed as intended and R restarting through the manager: a mapped key emits its move, R or r emits "restart", nothing throws, and with a modifier nothing happens |
| Deque.CircularDeque.constructor | src/lib/utils/experiments/2048ai/utils/CircularDeque.ts:7-12 | a deque asked for n elements has a buffer of n + 1 slots and starts empty |
| Deque.CircularDeque.Size | src/lib/utils/experiments/2048ai/utils/CircularDeque.ts:57-59 | the size computed from the two cursors is the number of elements held |
| Deque.CircularDeque.IsEmpty | src/lib/utils/experiments/2048ai/utils/CircularDeque.ts:49-51 | holds iff no element is held |
| Deque.CircularDeque.IsFull | src/lib/utils/experiments/2048ai/utils/CircularDeque.ts:53-55 | holds iff capacity - 1 elements are held, one slot staying free |
| Deque.CircularDeque.PeekFront | src/lib/utils/experiments/2048ai/utils/CircularDeque.ts:39-42 | null when empty, otherwise the first element |
| Deque.CircularDeque.PeekBack | src/lib/utils/experiments/2048ai/utils/CircularDeque.ts:44-47 | null when empty, otherwise the last element |
| Deque.CircularDeque.AddFront | src/lib/utils/experiments/2048ai/utils/CircularDeque.ts:14-18 | a full deque throws "Deque is full" and is unchanged; otherwise the value becomes the first element |
| Deque.CircularDeque.AddBack | src/lib/utils/experiments/2048ai/utils/CircularDeque.ts:20-24 | a full deque throws "Deque is full" and is unchanged; otherwise the value becomes the last element |
| Deque.CircularDeque.RemoveFront | src/lib/utils/experiments/2048ai/utils/CircularDeque.ts:26-31 | an empty deque throws "Deque is empty"; otherwise the first element is returned and removed |
| Deque.CircularDeque.RemoveBack | src/lib/utils/experiments/2048ai/utils/CircularDeque.ts:33-37 | an empty deque throws "Deque is empty"; otherwise the last element is returned and removed |
| Deque.CircularDeque.Clear | src/lib/utils/experiments/2048ai/utils/CircularDeque.ts:61-63 | the deque becomes empty |
| AiBoard.CellsRangeMembers | src/lib/utils/experiments/2048ai/ai.ts:344-355 | the generator yields exactly the pairs of the two inclusive ranges |
| AiBoard.CellsRangeExact | src/lib/utils/experiments/2048ai/ai.ts:344-355 | the generator yields every pair of the inclusive ranges once, rows ascending and columns ascending within a row |
| AiBoard.Cells | src/lib/utils/experiments/2048ai/ai.ts:344-355 | the two nested loops collect exactly the generator's sequence |
| AiBoard.GetCell | src/lib/utils/experiments/2048ai/ai.ts:389-391 | the board is column-major: (row, col) reads the cell at x = col, y = row |
| AiBoard.SetCell | src/lib/utils/experiments/2048ai/ai.ts:393-395 | only the cell (row, col) changes, to the given content |
| AiBoard.CellValue | src/lib/utils/experiments/2048ai/ai.ts:17-23 | 0 for an empty cell, otherwise the tile's value |
| AiBoard.NumberOfEmptySquares | src/lib/utils/experiments/2048ai/ai.ts:50-64 | 10 points for every empty cell of the board |
| AiBoard.EmptyAmongZero | src/lib/utils/experiments/2048ai/ai.ts:56-61 | with no zero-valued tile, the count is zero iff every cell holds a tile |
| AiBoard.MaxTile | src/lib/utils/experiments/2048ai/ai.ts:66-75 | the result is at least 0 and every value, and when non-zero it is the value of some cell |
| AiBoard.Adjacent | src/lib/utils/experiments/2048ai/ai.ts:358-369 | for a cell in the scan range of a move, the neighbour looked at is on the 4×4 board |
| AiBoard.ScanCells | src/lib/utils/experiments/2048ai/ai.ts:320-325 | the cells scanned are exactly those not on the edge the move goes towards |
| AiBoard.CanMoveInDirection | src/lib/utils/experiments/2048ai/ai.ts:320-337 | true iff some scanned tile's neighbour in the move's direction is empty or holds the same value |
| AiBoard.AdjacentIsStep | src/lib/utils/experiments/2048ai/ai.ts:358-369 | the neighbour looked at is one step along the game's vector for that move |
| AiBoard.NoRoomNoMove | src/lib/utils/experiments/2048ai/ai.ts:284-296 | on the 4×4 board, when `canMoveInDirection` is false the game's move in that direction moves no tile and scores nothing |
| AiBoard.CanMoveIffMoved | src/lib/utils/experiments/2048ai/ai.ts:320-337 | on the 4×4 board, `canMoveInDirection` holds exactly when the game's move in that direction moves some tile |
| AiNode.UnitWeightsAgree | src/lib/utils/experiments/2048ai/ai.ts:169-186 | with every weight 1, `scoreNode`'s unweighted total and the score calculator's weighted total agree |
| AiNode.TotalsSplit | src/lib/utils/experiments/2048ai/ai.ts:169-186 | both totals add up over a list of heuristics split in two |
| AiNode.ScoreCalculator | src/lib/utils/experiments/2048ai/ai.ts:175-186 | the closure's total is the sum of each heuristic's value on a copy of the board times its weight |
| AiNode.ScoreNode | src/lib/utils/experiments/2048ai/ai.ts:169-173 | the total added to the node's score is the sum of the heuristics' values on a copy of the board, weights ignored |
| AiNode.NewNode | src/lib/utils/experiments/2048ai/ai.ts:244-251 | a new node has the given depth, board and move, score 0 and no children |
| AiNode.KeyOfCopy | src/lib/utils/experiments/2048ai/ai.ts:298-312 | a copied board has the same `toString` key as the original, merge marks not being part of it |
| AiNode.HumanViewsExact | src/lib/utils/experiments/2048ai/ai.ts:284-296 | the player's children are the directions `canMoveInDirection` allows, in direction order, at depth + 1, each holding the board after that move; a skipped direction would not change the board |
| AiNode.HumanViewsSound | src/lib/utils/experiments/2048ai/ai.ts:286-294 | each player's child comes from a direction that can move and holds the moved board, directions increasing |
| AiNode.HumanViewsComplete | src/lib/utils/experiments/2048ai/ai.ts:286-294 | every direction that can move has its child |
| AiNode.HumanViewsCount | src/lib/utils/experiments/2048ai/ai.ts:286-294 | there are at most four player's children, each one level deeper and on a 4×4 board |
| AiNode.ExpandHumanMoves | src/lib/utils/experiments/2048ai/ai.ts:285-296 | the loop creates exactly the player's children, in order, each scored by the weighted total of its board |
| AiNode.Openings | src/lib/utils/experiments/2048ai/ai.ts:263-264 | the placements of a tile value on one list of cells number at most the cells |
| AiNode.OpeningsExact | src/lib/utils/experiments/2048ai/ai.ts:263-264 | a placement of one tile value is tried iff its cell is in the list and empty |
| AiNode.PlacementsOfExact | src/lib/utils/experiments/2048ai/ai.ts:262-264 | a placement is tried iff its value is one of the tile values and its cell is listed and empty |
| AiNode.PlacementsExact | src/lib/utils/experiments/2048ai/ai.ts:262-264 | the computer tries exactly a 2 and a 4 on exactly the empty cells of the 4×4 board |
| AiNode.FirstMin | src/lib/utils/experiments/2048ai/ai.ts:267-271 | the index the strict `score < lowestScore` scan settles on is within the list |
| AiNode.FirstMinIsFirstMin | src/lib/utils/experiments/2048ai/ai.ts:267-271 | that index holds the smallest score, and no earlier index does |
| AiNode.FirstMinUnique | src/lib/utils/experiments/2048ai/ai.ts:267-271 | there is only one first minimum |
| AiNode.FirstMinSnoc | src/lib/utils/experiments/2048ai/ai.ts:267-271 | one more score moves the first minimum to it only when it is strictly lower |
| AiNode.ComputerViewsWorst | src/lib/utils/experiments/2048ai/ai.ts:257-282 | the computer's turn has a child iff some cell is empty; that child is the placement with the lowest weighted total, the earliest of equals, one level deeper and keeping the parent's move |
| AiNode.UnsetCell | src/lib/utils/experiments/2048ai/ai.ts:266-272 | setting an empty cell and clearing it again gives back the board |
| AiNode.TryPlacement | src/lib/utils/experiments/2048ai/ai.ts:265-272 | one trial scores the board with the tile set, copies that board, and leaves the board as it was |
| AiNode.TryValue | src/lib/utils/experiments/2048ai/ai.ts:263-274 | the inner loop over the cells for one tile value tries exactly that value's openings and keeps the lowest total found so far |
| AiNode.ExpandComputerMove | src/lib/utils/experiments/2048ai/ai.ts:258-282 | the children are the computer's child, if any, with score 0; the node's score ends as the last total tried, or as before when no cell is empty |
| AiSearch.Child | src/lib/utils/experiments/2048ai/ai.ts:144 | every child of a node lies further into the tree than the node itself |
| AiSearch.BestGrows | src/lib/utils/experiments/2048ai/ai.ts:198-201 | looking at more children only raises the best value at a max node and only lowers it at a min node |
| AiSearch.FullWindowExact | src/lib/utils/experiments/2048ai/ai.ts:156-160 | with the window from -Infinity to +Infinity, a fail-soft result is the exact minimax value |
| AiSearch.Maximize | src/lib/utils/experiments/2048ai/ai.ts:193-212 | `maximize` is a fail-soft alpha-beta search: exact strictly inside the window, an upper bound at or below alpha, a lower bound at or above beta |
| AiSearch.Minimize | src/lib/utils/experiments/2048ai/ai.ts:214-231 | `minimize` is the mirror image, with the same fail-soft promise for the min node's value |
| AiSearch.RootValues | src/lib/utils/experiments/2048ai/ai.ts:159-165 | one minimax value per child of the root |
| AiSearch.FirstMax | src/lib/utils/experiments/2048ai/ai.ts:159-165 | the index the strict `score > alpha` scan settles on is within the list |
| AiSearch.FirstMaxIsFirstMax | src/lib/utils/experiments/2048ai/ai.ts:159-165 | that index holds the largest value, and no earlier index does |
| AiSearch.BestIsLargestRootValue | src/lib/utils/experiments/2048ai/ai.ts:198-211 | the best value among the first n children of the root is the first largest of their minimax values |
| AiSearch.BestMoveIsMinimax | src/lib/utils/experiments/2048ai/ai.ts:156-166 | the chosen child carries the minimax value of the root, and the move is that child's move (0 when it has none) |
| AiSearch.ChooseMove | src/lib/utils/experiments/2048ai/ai.ts:156-166 | the loop over the root's children returns the move of the first child of greatest minimax value, or 0 when the root has no child |
| AiSearch.QueueCapacityIsFullTree | src/lib/utils/experiments/2048ai/ai.ts:377-379 | `(c ** (depth + 1) - 1) / (c - 1)` divides exactly and is the number of nodes of a full c-ary tree of that depth |
| AiSearch.ExpansionShape | src/lib/utils/experiments/2048ai/ai.ts:132-136 | expanding a node makes at most four children, each one level deeper and on a 4×4 board |
| AiSearch.Decide | src/lib/utils/experiments/2048ai/ai.ts:144-152 | scoring a child and deciding whether to queue it changes no board, depth or move |
| AiSearch.DecideFromInv | src/lib/utils/experiments/2048ai/ai.ts:144-153 | deciding the new children one after the other keeps the search invariant and decides them all |
| AiSearch.DecideFromQueue | src/lib/utils/experiments/2048ai/ai.ts:146-151 | the loop over the new children only appends to the queue, at most one entry per child, each shallower than the depth limit |
| AiSearch.Kids | src/lib/utils/experiments/2048ai/ai.ts:132-136 | the children created for a node have the views of its expansion, no children of their own, and their creation scores |
| AiSearch.ExpandKids | src/lib/utils/experiments/2048ai/ai.ts:131-136 | a node at even depth gets the player's children and keeps its score; at odd depth the computer's child, the node taking the last total tried |
| AiSearch.ExpandHumanKids | src/lib/utils/experiments/2048ai/ai.ts:132-133 | at even depth the children are `expandHumanMoves`'s |
| AiSearch.ExpandComputerKids | src/lib/utils/experiments/2048ai/ai.ts:134-135 | at odd depth the child is `expandComputerMove`'s, and the node's score is the last total tried |
| AiSearch.ExpandNode | src/lib/utils/experiments/2048ai/ai.ts:131-142 | the tree after expanding node x: its children appended at the end of the arena, and -10000 as its score when it has none |
| AiSearch.RoundWeight | src/lib/utils/experiments/2048ai/ai.ts:128-154 | a round of the loop leaves only nodes of the arena in the queue and makes the queue strictly lighter, so the loop ends |
| AiSearch.RoundInv | src/lib/utils/experiments/2048ai/ai.ts:128-154 | a round keeps the loop invariant |
| AiSearch.StartLoop | src/lib/utils/experiments/2048ai/ai.ts:117-126 | the root alone, queued and with its key seen, satisfies the loop invariant |
| AiSearch.LoopDone | src/lib/utils/experiments/2048ai/ai.ts:128-154 | when the queue runs empty, the arena is the search tree of the board |
| AiEngine.AlphaBetaAI.constructor | src/lib/utils/experiments/2048ai/ai.ts:104-109 | the queue is sized for depth 10 and 4 children a node, which is the size of a full tree of that depth; it starts empty |
| AiEngine.AlphaBetaAI.SetDepthLimit | src/lib/utils/experiments/2048ai/ai.ts:111-113 | only the depth limit changes; the queue keeps its size |
| AiEngine.AlphaBetaAI.SetHeuristics | src/lib/utils/experiments/2048ai/ai.ts:188-190 | only the heuristics change |
| AiEngine.AlphaBetaAI.CalculateBestMove | src/lib/utils/experiments/2048ai/ai.ts:115-167 | "Deque is full" is returned only with the queue holding as many nodes as it was sized for; otherwise the tree searched is the search tree of the board and the move is the first root child of greatest minimax value |
| AiEngine.AlphaBetaAI.Search | src/lib/utils/experiments/2048ai/ai.ts:117-154 | the breadth-first loop leaves the search tree of the board; it fails only with the queue full |
| AiEngine.AlphaBetaAI.QueueRoot | src/lib/utils/experiments/2048ai/ai.ts:116-126 | the queue is cleared and holds the root alone, whose key is seen |
| AiEngine.AlphaBetaAI.NextRound | src/lib/utils/experiments/2048ai/ai.ts:128-154 | a round keeps the loop invariant and makes the queue strictly lighter; it fails only with the queue full |
| AiEngine.AlphaBetaAI.SearchRound | src/lib/utils/experiments/2048ai/ai.ts:129-153 | removeFront, expand, and decide the new children, exactly as `Round` says; it fails only with the queue full |
| AiEngine.AlphaBetaAI.EnqueueChildren | src/lib/utils/experiments/2048ai/ai.ts:144-153 | the children are scored and queued in turn exactly as `DecideFrom` says; it fails only with the queue full |
| AiEngine.AlphaBetaAI.DecideNext | src/lib/utils/experiments/2048ai/ai.ts:144-153 | one pass of the loop over the children takes `DecideFrom` one child further; it fails only with the queue full |
| AiEngine.AlphaBetaAI.DecideChild | src/lib/utils/experiments/2048ai/ai.ts:145-152 | one child is scored and queued exactly as `Decide` says; it fails only when `addBack` finds the queue full |
| SudokuC.Len | archived/wasm/sudoku/sudoku.c:109-116 | the length of a C string is the index of its first NUL |
| SudokuC.IsDigitC | archived/wasm/sudoku/sudoku.c:104-107 | holds iff the character is between '0' and '9' |
| SudokuC.IsNumber | archived/wasm/sudoku/sudoku.c:95-102 | 1 iff every character before the NUL is a digit, the empty string included |
| SudokuC.StrLen | archived/wasm/sudoku/sudoku.c:109-116 | the post-incremented index, less one, is the number of characters before the NUL |
| SudokuC.StrEqual | archived/wasm/sudoku/sudoku.c:118-133 | 1 iff the two strings agree up to and including the NUL |
| SudokuC.StrContainsChar | archived/wasm/sudoku/sudoku.c:135-144 | 1 iff the character occurs before the NUL |
| SudokuC.LineToBoard | archived/wasm/sudoku/sudoku.c:33-53 | the process exits iff the line is not 81 digits; otherwise row x, column y of the board is the character at 9x + y |
| SudokuC.StartDomain | archived/wasm/sudoku/sudoku.c:227-238 | an empty cell '0' may hold any digit 1 to 9; a given digit is its own only value |
| SudokuC.RowDomains | archived/wasm/sudoku/sudoku.c:218-241 | the starting domains of one row, in column order |
| SudokuC.DomainsLength | archived/wasm/sudoku/sudoku.c:216-243 | nine rows give 81 domains |
| SudokuC.DomainsAt | archived/wasm/sudoku/sudoku.c:216-243 | the domain of cell (x, y) sits at index 9x + y |
| SudokuC.InitializeDomains | archived/wasm/sudoku/sudoku.c:208-244 | every cell's domain, at its index, is its starting domain |
| SudokuC.IndexInjective | archived/wasm/sudoku/sudoku.c:226 | two cells of the board with the same index are the same cell |
| SudokuC.IndexInRange | archived/wasm/sudoku/sudoku.c:226 | the index of a cell of the board is between 0 and 80 |
| SudokuC.RowPeers | archived/wasm/sudoku/sudoku.c:293-308 | the arcs of a cell's row are the 8 other cells of the row |
| SudokuC.ColumnPeers | archived/wasm/sudoku/sudoku.c:310-325 | the arcs of a cell's column are the 8 other cells of the column |
| SudokuC.SquarePeers | archived/wasm/sudoku/sudoku.c:327-343 | the arcs of a cell's square are the 8 other cells of the square |
| SudokuC.Peers | archived/wasm/sudoku/sudoku.c:291-345 | a cell has 24 arcs: its row, then its column, then its square |
| SudokuC.PeersAreRelated | archived/wasm/sudoku/sudoku.c:262-349 | a cell is in another's arc list iff it is a different cell of the board in the same row, column or square |
| SudokuC.PeerIsRelated | archived/wasm/sudoku/sudoku.c:291-345 | every arc joins the cell to a different cell of the board that shares a row, column or square with it |
| SudokuC.RelatedIsPeer | archived/wasm/sudoku/sudoku.c:291-345 | every different cell sharing a row, column or square is in the arc list |
| SudokuC.ArcTableShape | archived/wasm/sudoku/sudoku.c:270-349 | every arc joins two different cells of the board, and the arcs are symmetric |
| SudokuC.InitializeArcs | archived/wasm/sudoku/sudoku.c:270-349 | the table holds, at every cell's index, that cell's arc list |
| SudokuC.CellArcs | archived/wasm/sudoku/sudoku.c:291-345 | the three rule loops for one cell build exactly its arc list |
| SudokuSolver.SupportedSnoc | archived/wasm/sudoku/sudoku.c:440-447 | a value has a support in a domain one value longer iff it had one before or the new value differs from it |
| SudokuSolver.Revise | archived/wasm/sudoku/sudoku.c:424-481 | revising never lengthens a domain |
| SudokuSolver.ReviseKeepsSupported | archived/wasm/sudoku/sudoku.c:434-478 | a value stays iff it has a support in the other domain; the domain shortens iff some value has none, and otherwise it is unchanged |
| SudokuSolver.ReviseSnoc | archived/wasm/sudoku/sudoku.c:434-478 | revising keeps the values in order: one more value at the end stays iff it has a support |
| SudokuSolver.TotalSizeUpdate | archived/wasm/sudoku/sudoku.c:449-471 | replacing one domain changes the total number of values by that domain's change in size |
| SudokuSolver.ReviseStep | archived/wasm/sudoku/sudoku.c:394-411 | after the arc at the head of the queue is revised, the rest of the queue plus the arcs into a cell that lost a value again cover every arc that is not consistent |
| SudokuSolver.SolvedIsSolution | archived/wasm/sudoku/sudoku.c:488-499 | in a solved, arc-consistent table, two different cells that share a row, column or square hold different digits |
| SudokuSolver.SingletonsDiffer | archived/wasm/sudoku/sudoku.c:440-449 | two one-value domains, each value supported by the other, hold different values |
| SudokuSolver.AllArcs | archived/wasm/sudoku/sudoku.c:368-390 | the first loop of `AC3` queues every arc of every cell, and nothing else |
| SudokuSolver.Domains.constructor | archived/wasm/sudoku/sudoku.c:208-244 | a table of 81 domains |
| SudokuSolver.Domains.ReviseDomains | archived/wasm/sudoku/sudoku.c:424-481 | only tile1's domain changes, to its revision against tile2's; the result is 1 iff a value was unlinked |
| SudokuSolver.Domains.AC3 | archived/wasm/sudoku/sudoku.c:357-418 | domains only shrink, each keeping values it had; at the end every arc is consistent; every solution the domains admitted (peers differing along every arc) is still admitted |
| SudokuSolver.ReviseKeepsSolution | archived/wasm/sudoku/sudoku.c:424-481 | revising an arc never drops the digit a solution puts in the revised cell |
| SudokuSolver.ReviseKeepsSolutions | archived/wasm/sudoku/sudoku.c:424-481 | revising an arc keeps every solution the starting domains admitted |
| SudokuSolver.GetMinList | archived/wasm/sudoku/sudoku.c:501-506 | the cell chosen is one whose domain does not hold exactly one value, with no more values than any other such cell |
| SudokuSolver.GetNewDomains | archived/wasm/sudoku/sudoku.c:549-592 | NULL, or a copy with the cell assumed to hold the value, narrowed by `AC3`: no domain empty, every arc consistent, and every value taken from the assumed table |
| SudokuSolver.BacktrackingSearch | archived/wasm/sudoku/sudoku.c:488-545 | the search answers only with a solved, arc-consistent table whose values come from the table it started with |
| SudokuSolver.SolvedDomainsToString | archived/wasm/sudoku/sudoku.c:9-30 | the value of every cell is written at its index 9x + y, and the rest of the buffer is untouched |
| SudokuSolver.Solve | archived/wasm/sudoku/sudoku.c:55-92 | the process exits iff the line is not 81 digits; otherwise the line comes back unchanged or as a solution that keeps the given digits and repeats no digit in a row, column or square |
| SudokuBoards.ValidBoardIsSolverLine | src/lib/utils/experiments/wasm/sudoku.ts:58-64 | a board string passes `isBoardStringValid` iff the C solver, given it NUL-terminated, does not exit on it |
| SudokuBoards.FlatAt | src/lib/utils/experiments/wasm/sudoku.ts:149-157 | the flattened rows hold cell (i, j) at character 9i + j |
| SudokuBoards.MatrixOf | src/lib/utils/experiments/wasm/sudoku.ts:128-141 | an 81-character line reads as a full 9 × 9 board |
| SudokuBoards.FlatOfMatrixOf | src/lib/utils/experiments/wasm/sudoku.ts:128-157 | reading a line into a board and writing it back gives the line |
| SudokuBoards.MatrixOfFlat | src/lib/utils/experiments/wasm/sudoku.ts:128-157 | writing a board to a line and reading it back gives the board |
| SudokuBoards.StringToMatrix | src/lib/utils/experiments/wasm/sudoku.ts:128-141 | a 9 × 9 board whose row i, column j holds character 9i + j of the string |
| SudokuBoards.BoardToString | src/lib/utils/experiments/wasm/sudoku.ts:149-157 | the 81 cells row after row, cell (i, j) at character 9i + j |
| SudokuBoards.GetRowCol | src/lib/utils/experiments/wasm/sudoku.ts:161-165 | the column is below 9 and `getPosition` of the pair gives the position back |
| SudokuBoards.RowColOfPosition | src/lib/utils/experiments/wasm/sudoku.ts:161-170 | `getRowCol` undoes `getPosition` for every column from 0 to 8 |
| SudokuBoards.Remove | src/lib/utils/experiments/wasm/sudoku.ts:226 | deleting a position keeps exactly the other positions, in order, one fewer when it was there |
| SudokuBoards.CreateNewRemainingCells | src/lib/utils/experiments/wasm/sudoku.ts:178-184 | the set holds exactly the positions 0 to 80, each once, in order |
| SudokuBoards.GetRandomRemainingPosition | src/lib/utils/experiments/wasm/sudoku.ts:173-176 | the position drawn is one of the remaining positions |
| SudokuBoards.Place | src/lib/utils/experiments/wasm/sudoku.ts:210-215 | only the cell at the position changes, to the given value |
| SudokuBoards.FallbackApproach | src/lib/utils/experiments/wasm/sudoku.ts:239-260 | the board is solved once; exactly the positions deleted take the solution's digit, every other cell is unchanged, and 64 positions remain when there were more; the result is `FallbackLoop`'s |
| SudokuBoards.CreateLoopStep | src/lib/utils/experiments/wasm/sudoku.ts:208-230 | an accepted placement keeps the new board, deletes the position and resets the failure count; a rejected one keeps the board and counts one more failure |
| SudokuBoards.CreateNewRandomBoard | src/lib/utils/experiments/wasm/sudoku.ts:191-234 | the board and the 64 positions left are those of `CreateLoop` from an empty board and all 81 positions, and every position left holds '0' |
| WasmLoad.Encode | src/lib/utils/experiments/wasm/load.ts:86 | `Int32Array` stores a number as four bytes |
| WasmLoad.Decode | src/lib/utils/experiments/wasm/load.ts:128 | a word read back from four bytes is a 32-bit signed integer |
| WasmLoad.DecodeEncode | src/lib/utils/experiments/wasm/load.ts:86-128 | reading back a stored number gives the number wrapped to 32 bits (ToInt32) |
| WasmLoad.PutWord | src/lib/utils/experiments/wasm/load.ts:86 | `view[k] = x` writes the four bytes of word k when the word is inside the buffer, and nothing past the last whole word |
| WasmLoad.PutWords | src/lib/utils/experiments/wasm/load.ts:85-87 | writing the words keeps the buffer's length |
| WasmLoad.Clamp | src/lib/utils/experiments/wasm/load.ts:128 | a `subarray` bound, negative ones counted from the end, is clamped to the view's length |
| WasmLoad.ReadWordsInside | src/lib/utils/experiments/wasm/load.ts:126-129 | from a word-aligned, non-negative pointer with every word inside the buffer, exactly `length` words are read, starting at word ptr / 4 |
| WasmLoad.ReadWordsTruncatesSum | src/lib/utils/experiments/wasm/load.ts:128 | the end bound truncates `ptr / 4 + length` as a whole: over four words, (ptr -2, length 3) reads words 0 and 1, and (ptr 2, length -1) reads nothing |
| WasmLoad.PutWordsHolds | src/lib/utils/experiments/wasm/load.ts:85-87 | after the loop, the bytes of word k are the encoding of element k, for every element that fits |
| WasmLoad.WriteThenRead | src/lib/utils/experiments/wasm/load.ts:81-129 | `readInt32Array(0, n)` after `writeInt32Array(a)` gives `a` with each element wrapped to 32 bits, and `a` itself when every element is a 32-bit integer |
| WasmLoad.EncodeString | src/lib/utils/experiments/wasm/load.ts:114-115 | the encoded text has one byte per character and ends with a zero byte |
| WasmLoad.NonZeroChars | src/lib/utils/experiments/wasm/load.ts:95-101 | the characters kept are no more than the bytes, and none is NUL |
| WasmLoad.NonZeroCharsOfText | src/lib/utils/experiments/wasm/load.ts:95-115 | decoding the encoding of text without NUL, terminator included, gives the text back |
| WasmLoad.WasmMemoryHelper.constructor | src/lib/utils/experiments/wasm/load.ts:71-73 | the helper works on the buffer it is given |
| WasmLoad.WasmMemoryHelper.WriteInt32Array | src/lib/utils/experiments/wasm/load.ts:81-90 | the pointer returned is 0 and the buffer becomes `PutWords` of the old buffer |
| WasmLoad.WasmMemoryHelper.ReadString | src/lib/utils/experiments/wasm/load.ts:92-102 | a RangeError iff the bytes are not inside the buffer; otherwise the characters of the non-zero bytes, in order |
| WasmLoad.WasmMemoryHelper.WriteString | src/lib/utils/experiments/wasm/load.ts:109-123 | a null pointer throws, and so does text that with its zero byte does not fit; otherwise the bytes are copied at the pointer, nothing else changes, and the pointer is returned |
| WasmLoad.WriteStringThenRead | src/lib/utils/experiments/wasm/load.ts:92-123 | reading back the text just written, terminator included, gives the text |
| MakeDirectories.NamesOf | src/lib/utils/experiments/makeDirectories.ts:9-18 | the names of a sequence of paths, one per path, in order |
| MakeDirectories.BreakUpPath | src/lib/utils/experiments/makeDirectories.ts:55-74 | the file is the last '-' piece and the directories are the pieces before it, empty and free of '-'; a path without '-' gives no directories; joining the names with '-' gives the path back |
| MakeDirectories.At | src/lib/utils/experiments/makeDirectories.ts:76-88 | the place a cursor (`parentForFile`) leads to is always a directory |
| MakeDirectories.NamesAlong | src/lib/utils/experiments/makeDirectories.ts:76-88 | a cursor passes through one directory name per step |
| MakeDirectories.CursorStep | src/lib/utils/experiments/makeDirectories.ts:84 | stepping into a sub-directory extends the cursor and its names by that directory |
| MakeDirectories.PushAtShape | src/lib/utils/experiments/makeDirectories.ts:81 | `subs.push` at a cursor appends to that directory only, keeps the cursor and its names, only grows the tree and adds the pushed entry's files to the count |
| MakeDirectories.PushAtUnique | src/lib/utils/experiments/makeDirectories.ts:79-82 | pushing a file, or a directory whose name is not already a sibling directory, keeps sibling directory names distinct |
| MakeDirectories.GrowsTrans | src/lib/utils/experiments/makeDirectories.ts:23-27 | growth across successive loop iterations composes |
| MakeDirectories.GrowsKeepsCursor | src/lib/utils/experiments/makeDirectories.ts:23-27 | a cursor survives later pushes: same names, and its directory still holds every file it held |
| MakeDirectories.ReturnDirFrom | src/lib/utils/experiments/makeDirectories.ts:99-106 | returns the first sub-directory with the target name, or none exactly when no sub-directory has that name (files of that name are skipped) |
| MakeDirectories.AddDirsToRoot | src/lib/utils/experiments/makeDirectories.ts:76-88 | only grows the tree; the returned cursor spells the new directories' names; with empty new directories the file count is unchanged and sibling directory names stay distinct |
| MakeDirectories.WalkSpellsPath | src/lib/utils/experiments/makeDirectories.ts:55-74 | a cursor whose names and file are the '-' pieces of a path spells that path back |
| MakeDirectories.MakeDirectories | src/lib/utils/experiments/makeDirectories.ts:20-31 | the root is the unnamed directory, it holds exactly one file per path, no directory has two sub-directories of one name, and every path is reachable as directories then file |
| MakeDirectories.WalksAfterPush | src/lib/utils/experiments/makeDirectories.ts:24-26 | after the file of path i is pushed at its cursor, paths 0 to i all have walks |
| MakeDirectories.WalksKept | src/lib/utils/experiments/makeDirectories.ts:23-27 | walks that exist before the tree grows still exist after |
| MakeDirectories.NewWalk | src/lib/utils/experiments/makeDirectories.ts:24-26 | the cursor of a broken-up path's directories, holding its file, is a walk of that path |
| MakeDirectories.BrokenParts | src/lib/utils/experiments/makeDirectories.ts:56-68 | the names breakUpPath gives are exactly the '-' pieces of the path |
| LifeToroidal.Neighbors | src/lib/utils/initWebgl.ts:104-115 | `getNeighbors` gives eight neighbour indices |
| LifeToroidal.DivModUnique | src/lib/utils/initWebgl.ts:65-66 | a quotient and remainder with the remainder in range are the ones division gives |
| LifeToroidal.IndexParts | src/lib/utils/initWebgl.ts:65-66 | cell (x, y) at index `x + y * numCellsX` has column `index % numCellsX` and row `floor(index / numCellsX)` |
| LifeToroidal.WrapStep | src/lib/utils/initWebgl.ts:109-110 | `(x + d + n) % n` for a step of at most 1 wraps past either edge to the other |
| LifeToroidal.WrapInjective | src/lib/utils/initWebgl.ts:109-110 | on a ring of at least 3 cells, steps -1, 0 and +1 reach three different cells |
| LifeToroidal.NeighborsInside | src/lib/utils/initWebgl.ts:104-115 | every neighbour index lies in the array; on a board of at least 3 by 3 the eight neighbours are distinct and none is the cell itself |
| LifeToroidal.NeighborsApart | src/lib/utils/initWebgl.ts:106-111 | two different offsets lead to two different cells on a board of at least 3 by 3 |
| LifeToroidal.InsideGrid | src/lib/utils/initWebgl.ts:89 | the index of a cell of the grid lies in the array |
| LifeToroidal.SumAtBounds | src/lib/utils/initWebgl.ts:91 | with every cell 0 or 1, the live neighbours number between 0 and the neighbour count |
| LifeToroidal.Rule | src/lib/utils/initWebgl.ts:93-97 | the next cell is 0 or 1; a live cell survives exactly with 2 or 3 live neighbours; any other cell is born exactly with 3 |
| LifeToroidal.Step | src/lib/utils/initWebgl.ts:85-100 | the next generation has as many cells as the board |
| LifeToroidal.CellOfIndex | src/lib/utils/initWebgl.ts:87-89 | every index of the array is the index of exactly the cell (index % width, index / width) of the grid |
| LifeToroidal.ProcessedNext | src/lib/utils/initWebgl.ts:87-89 | visiting cell (x, y) adds exactly its index to the cells the loops have visited |
| LifeToroidal.DeadStaysDead | src/lib/utils/initWebgl.ts:85-100 | a board without a live cell stays without one |
| LifeToroidal.SumAtZero | src/lib/utils/initWebgl.ts:91 | on a dead board every neighbour sum is 0 |
| LifeToroidal.ToroidalLife.constructor | src/lib/utils/initWebgl.ts:11-15 | 100 columns, `numCellsY` rows, each cell alive exactly when its random draw is below 0.3 |
| LifeToroidal.ToroidalLife.GetNeighbors | src/lib/utils/initWebgl.ts:104-115 | the loops push the eight wrapped neighbour indices in the order of the offsets |
| LifeToroidal.ToroidalLife.Update | src/lib/utils/initWebgl.ts:85-100 | every new cell is computed from the old board into a copy, which then replaces the board: the board becomes the next generation |
| LifeToroidal.ToroidalLife.CellStep | src/lib/utils/initWebgl.ts:87-97 | a cell's index is in the array, its neighbours are in the array, and its next state is the rule applied to its own state and its neighbours' sum |
| LifeToroidal.ToroidalLife.SumNeighbors | src/lib/utils/initWebgl.ts:91 | the `reduce` sums the states of the neighbour cells |
| LifeHtml.Lookup | src/lib/utils/experiments/conways-2d-html.ts:109-112 | `getElementById('cell-x-y')` finds a cell exactly inside the grid, and then its state |
| LifeHtml.AliveNeighbors | src/lib/utils/experiments/conways-2d-html.ts:128-141 | the live neighbours of a cell number between 0 and 8 |
| LifeHtml.WindowIsNeighbors | src/lib/utils/experiments/conways-2d-html.ts:130-139 | the two loops over the 3 by 3 window, the cell itself skipped, count exactly the eight neighbours |
| LifeHtml.RowPartFull | src/lib/utils/experiments/conways-2d-html.ts:131-138 | a full window row counts the cells above and below, and the middle one unless it is the cell itself |
| LifeHtml.NextCell | src/lib/utils/experiments/conways-2d-html.ts:108-127 | no `div` gives off; a live cell stays on exactly with 2 or 3 live neighbours; a dead cell comes on exactly with 3 |
| LifeHtml.NextRow | src/lib/utils/experiments/conways-2d-html.ts:101-104 | one next state per column |
| LifeHtml.Next | src/lib/utils/experiments/conways-2d-html.ts:95-107 | `calculateNextStates` gives rows by columns states |
| LifeHtml.Apply | src/lib/utils/experiments/conways-2d-html.ts:79-94 | `applyStates` keeps the shape of the page |
| LifeHtml.FrameIsGeneration | src/lib/utils/experiments/conways-2d-html.ts:72-94 | on the page `initCells` built, one frame replaces every cell by its next state computed from the board before the frame |
| LifeHtml.CornerNeighbors | src/lib/utils/experiments/conways-2d-html.ts:128-141 | cells off the grid are dead: a corner cell has only its three in-grid neighbours |
| LifeHtml.NeighborsIgnoreSelf | src/lib/utils/experiments/conways-2d-html.ts:132 | the count does not depend on the cell's own state |
| LifeHtml.CeilDiv | src/lib/utils/experiments/conways-2d-html.ts:159-161 | `Math.ceil(a / b)` is the least multiple count of `b` covering `a` |
| LifeHtml.ColumnsFit | src/lib/utils/experiments/conways-2d-html.ts:159-164 | with `cellSize = ceil(width / cols)`, the number of columns drawn is positive and never more than the columns asked for |
| LifeHtml.SeededBy | src/lib/utils/experiments/conways-2d-html.ts:30-46 | every cell is set by the seeding rule from its own draw |
| LifeHtml.SeededAsWritten | src/lib/utils/experiments/conways-2d-html.ts:39-43 | as written, a cell is alive exactly when its draw is at least the density |
| LifeHtml.Seeded | src/lib/utils/experiments/conways-2d-html.ts:145-147 | as `shouldBeLiving` means it, a cell is alive exactly when its draw is below the density |
| LifeHtml.FullDensitySeedsNothing | src/lib/utils/experiments/conways-2d-html.ts:39-43 | at density 1 every draw is "should be living", yet as written every cell comes up dead while the intended board is full |
| LifeHtml.LifePage.NumRows | src/lib/utils/experiments/conways-2d-html.ts:148-150 | `ceil(height / cellSize)` rows just cover the height |
| LifeHtml.LifePage.NumCols | src/lib/utils/experiments/conways-2d-html.ts:162-164 | `ceil(width / cellSize)` columns just cover the width |
| LifeHtml.LifePage.constructor | src/lib/utils/experiments/conways-2d-html.ts:8-14 | the window size is recorded, the cell size is `ceil(width / numberOfCols)`, no cells yet, not playing |
| LifeHtml.LifePage.InitCells | src/lib/utils/experiments/conways-2d-html.ts:15-29 | the target is emptied and refilled with rows by columns cells, all off; the cell size and play flag are unchanged |
| LifeHtml.LifePage.SeedPage | src/lib/utils/experiments/conways-2d-html.ts:30-46 | every existing cell within rows by columns is set by the rule from its draw; every other cell keeps its state |
| LifeHtml.LifePage.InitLife | src/lib/utils/experiments/conways-2d-html.ts:30-46 | as written: on a full page, a cell ends up alive exactly when its draw is at least the density |
| LifeHtml.LifePage.InitLifeIntended | src/lib/utils/experiments/conways-2d-html.ts:30-46 | with the branches the right way round: a cell ends up alive exactly when its draw is below the density |
| LifeHtml.LifePage.Restart | src/lib/utils/experiments/conways-2d-html.ts:57-65 | the animation stops, the cell size is recomputed from the window width and columns, and the page is rebuilt and seeded as written (alive exactly when the draw is at least density/100) |
| LifeHtml.LifePage.RestartIntended | src/lib/utils/experiments/conways-2d-html.ts:57-65 | the same, seeded through the corrected `initLife` (alive exactly when the draw is below density/100) |
| LifeHtml.LifePage.Play | src/lib/utils/experiments/conways-2d-html.ts:66-71 | playing afterwards; a first frame is requested only when it was not already playing; cells unchanged |
| LifeHtml.LifePage.Stop | src/lib/utils/experiments/conways-2d-html.ts:142-144 | not playing afterwards; cells unchanged |
| LifeHtml.LifePage.Animate | src/lib/utils/experiments/conways-2d-html.ts:72-78 | while playing, the whole board's next states are computed first and only then applied; otherwise nothing changes |
| LifeHtml.LifePage.CalculateNextStates | src/lib/utils/experiments/conways-2d-html.ts:95-107 | the loops produce the next state of every cell of the rows by columns grid, read off the current page |
| LifeHtml.LifePage.CalculateOnOrOff | src/lib/utils/experiments/conways-2d-html.ts:108-127 | the branches give the Life rule for the cell |
| LifeHtml.LifePage.CountAliveNeighbors | src/lib/utils/experiments/conways-2d-html.ts:128-141 | the loops count the eight neighbours that exist and are on |
| LifeHtml.LifePage.ApplyStates | src/lib/utils/experiments/conways-2d-html.ts:79-94 | every cell that has a next state takes it; the others keep theirs |
| NotionServer.SortByOrder | src/lib/notion/server.ts:17-20 | the comparator is negative exactly when `a`'s order, with a missing order read as MAX_SAFE_INTEGER, is below `b`'s, and zero exactly when they are equal |
| NotionServer.SortByOrderAscending | src/lib/notion/server.ts:17-20 | the comparator is antisymmetric, so it sorts ascending by order, and an item without an order sorts after every item whose order is below MAX_SAFE_INTEGER |
| NotionServer.ParseRichText | src/lib/notion/server.ts:135-142 | '' when there is no rich text, otherwise the plain texts joined with single spaces |
| NotionServer.PlainTexts | src/lib/notion/server.ts:139-141 | the `plain_text` of every run, one per run, in order |
| NotionServer.RichTextSplitsBack | src/lib/notion/server.ts:135-142 | when no run holds a space, splitting the parsed text at spaces gives the runs' texts back |
| NotionServer.ParseBlock | src/lib/notion/server.ts:98-117 | it throws exactly on a block type it does not handle; otherwise the result is tagged with the block's type (`heading_2` as "h2", `heading_3` as "h3") and a text block's content is the parsed rich text of the payload its type names |
| NotionServer.ParseAll | src/lib/notion/server.ts:79 | `blocks.map(parseBlock)` succeeds exactly when every block's type is handled, and then holds each block's parse, in order |
| NotionServer.FlattenAppend | src/lib/notion/server.ts:80-93 | the blocks of two runs of elements follow one another |
| NotionServer.FlattenClose | src/lib/notion/server.ts:85-88 | closing a run of items into a list gives back its blocks |
| NotionServer.WellGroupedClose | src/lib/notion/server.ts:85-88 | closing the open run of items after elements that end in a single block keeps the elements well grouped |
| NotionServer.WellGroupedBlock | src/lib/notion/server.ts:89 | pushing a block that is not an item keeps the elements well grouped |
| NotionServer.GroupLoopNext | src/lib/notion/server.ts:80-91 | one more round of the loop is one more step over the next parsed block |
| NotionServer.GroupLoopKeepsBlocks | src/lib/notion/server.ts:80-91 | the loop loses no block: the elements so far followed by the open run are the blocks read, and the open run holds only items |
| NotionServer.GroupLoopWellGrouped | src/lib/notion/server.ts:80-91 | the elements the loop emits are non-empty maximal runs of items and single non-item blocks, and do not end in a run |
| NotionServer.GroupedKeepsEveryBlock | src/lib/notion/server.ts:77-93 | with the open run closed after the loop, every block is kept in order and each maximal run of items is one numbered list |
| NotionServer.TrailingItemsDropped | src/lib/notion/server.ts:80-93 | as written, the returned elements hold the blocks up to the last block that is not an item; the items after it are lost |
| NotionServer.EndingListIsLost | src/lib/notion/server.ts:80-93 | a paragraph followed by one numbered item comes back as the paragraph alone, and as the paragraph and a one-item list with the run closed |
| NotionServer.GroupBlocks | src/lib/notion/server.ts:77-91 | the loop's elements and open run are those of the step-by-step grouping of the parsed blocks |
| NotionServer.GetPageBlocks | src/lib/notion/server.ts:74-94 | as written: it throws exactly when some block type is unhandled; otherwise it returns the grouping without the final open run, holding the blocks up to the last non-item block |
| NotionServer.GetPageBlocksIntended | src/lib/notion/server.ts:74-94 | with the final open run closed: it throws exactly when some block type is unhandled; otherwise the elements hold every parsed block in order, every run of items as one numbered list |
| NotionHelper.SortByOrder | src/lib/notion/helper.ts:10-12 | the comparator is negative exactly when `a`'s order (a missing order read as MAX_SAFE_INTEGER) is above `b`'s, and zero exactly when they are equal, so larger orders come first |
| NotionHelper.SortByOrderMirrorsServer | src/lib/notion/helper.ts:10-12 | the comparator is server.ts's with its arguments swapped, it is antisymmetric, and a project without an order goes before every project whose order is below MAX_SAFE_INTEGER |
| NotionHelper.Insert | src/lib/notion/helper.ts:17 | inserting into a sorted sequence keeps it sorted and adds exactly the one project |
| NotionHelper.InsertAfterFirst | src/lib/notion/helper.ts:17 | inserting after a first project that sorts before the new one keeps the sequence sorted and a permutation |
| NotionHelper.Sort | src/lib/notion/helper.ts:17 | `projects.sort(sortByOrder)` is a permutation of the projects, ordered by the comparator |
| NotionHelper.InsertWithKey | src/lib/notion/helper.ts:17 | inserting a project places it before every project of its own order already there, and leaves the other orders' subsequences alone |
| NotionHelper.SortIsStable | src/lib/notion/helper.ts:17 | the sort is stable: the projects of each order keep their relative order |
| NotionHelper.ToProject | src/lib/notion/helper.ts:18-24 | the card exists exactly when the project has a title run, a description run and a thumbnail file; it is made of the first of each, the link and the source |
| NotionHelper.MapProjects | src/lib/notion/helper.ts:17-25 | the `.map` succeeds exactly when every project has a card, and gives one card per project, in order |
| NotionHelper.ExtractRelventPageData | src/lib/notion/helper.ts:16-26 | it throws exactly when some project lacks a title, a description or a thumbnail; otherwise it gives one card per project, in sorted order |
| FillText.SearchLastValid | src/lib/utils/htmlpaint/fillTextWithWrap.ts:73-88 | the binary search stops at an end whose line fits (or at `start`) and whose line with one more word does not fit in `boundingWidth + 10` |
| FillText.SearchFindsLongestLine | src/lib/utils/htmlpaint/fillTextWithWrap.ts:67-94 | when a line's width only grows with its words, no longer line from `start` fits than the one the search returns |
| FillText.GuardAsWritten | src/lib/utils/htmlpaint/fillTextWithWrap.ts:89-93 | as written, the guard throws exactly when `lastValid` is 0 and otherwise passes `lastValid` through |
| FillText.Guard | src/lib/utils/htmlpaint/fillTextWithWrap.ts:89-93 | the intended guard throws exactly when no word was taken (`lastValid == start`) |
| FillText.FindMaxFittingWordsAsWritten | src/lib/utils/htmlpaint/fillTextWithWrap.ts:67-94 | as written: a positive end the search may stop at, which past the first line may equal `start`; it throws only for `start == 0` when even the first word does not fit |
| FillText.FindMaxFittingWords | src/lib/utils/htmlpaint/fillTextWithWrap.ts:67-94 | with the intended guard: an end past `start` the search may stop at, or an error exactly when the word at `start` does not fit on its own |
| FillText.WrapStallsAsWritten | src/lib/utils/htmlpaint/fillTextWithWrap.ts:57-62 | for "a WWWWW" in a box 0 wide, the search from word 1 returns 1, which the as-written guard accepts and the intended one rejects, so the loop never advances |
| FillText.NextLine | src/lib/utils/htmlpaint/fillTextWithWrap.ts:59-60 | the line of words `start..end` joins onto the earlier text, begins with the word at `start`, and plus the next word is the line the search found too wide |
| FillText.WrapStep | src/lib/utils/htmlpaint/fillTextWithWrap.ts:57-62 | pushing the line the search found keeps the wrapping invariant: lines join into the words so far, each fits, none could take the next line's first word |
| FillText.GetWrappedLines | src/lib/utils/htmlpaint/fillTextWithWrap.ts:48-65 | as written: it throws only when the first word does not fit, stalls at a later word that does not fit on its own, and otherwise returns at most one line per word, joining back into the text, each fitting, none able to take the next line's first word |
| FillText.GetWrappedLinesIntended | src/lib/utils/htmlpaint/fillTextWithWrap.ts:48-65 | with the intended guard: the same lines, and an error only when some word does not fit on its own |
| FillText.DrawLines | src/lib/utils/htmlpaint/fillTextWithWrap.ts:14-16 | line i is drawn with `fillText` at `x`, `i` font sizes below `y`, one call per line, in order |
| FillText.FillTextWithWrap | src/lib/utils/htmlpaint/fillTextWithWrap.ts:6-17 | as written: no call for a missing or empty text; throws when the first word does not fit in `boundingWidth + 20`, hangs at a later one that does not; otherwise the drawn lines join back into the text, each fits and sits at its row |
| FillText.FillTextWithWrapIntended | src/lib/utils/htmlpaint/fillTextWithWrap.ts:6-17 | over the intended wrapping: the same drawing, and an error only when some word does not fit on its own |
| FillText.Texts | src/lib/utils/htmlpaint/fillTextWithWrap.ts:15 | the texts of the `fillText` calls, one per call, in order |
| RenderTextRow.MeasureLineWidthAppend | src/lib/utils/htmlpaint/renderTextRow.ts:46-54 | the measured width of a line is the sum of the widths of its parts, each word with its following space |
| RenderTextRow.ProcessWordIntoLines | src/lib/utils/htmlpaint/renderTextRow.ts:25-45 | the result has a last line, and that line ends with the word just placed |
| RenderTextRow.ProcessWordIntoLinesPlaces | src/lib/utils/htmlpaint/renderTextRow.ts:25-45 | a new line is started exactly when there is no line yet or the last line is non-empty and would exceed `boundingWidth + 5` with the word under the word's font; otherwise the word joins the last line; earlier lines are untouched, the words stay in order and no line is left empty |
| RenderTextRow.LinesKeepWords | src/lib/utils/htmlpaint/renderTextRow.ts:14-17 | the `reduce` over the words gives lines that hold every word once, in order, none empty, at most one line per word |
| RenderTextRow.WithinStep | src/lib/utils/htmlpaint/renderTextRow.ts:37-42 | placing a word keeps every line of more than one word within `boundingWidth + 5` |
| RenderTextRow.LinesFit | src/lib/utils/htmlpaint/renderTextRow.ts:14-17 | every line of more than one word is within `boundingWidth + 5` under the font of its last word |
| RenderTextRow.BreaksStep | src/lib/utils/htmlpaint/renderTextRow.ts:37-38 | placing a word keeps every line break at a point where the next word did not fit |
| RenderTextRow.LinesBreakWhenFull | src/lib/utils/htmlpaint/renderTextRow.ts:14-17 | no line but the last could have taken the first word of the next line |
| RenderTextRow.AdvanceStep | src/lib/utils/htmlpaint/renderTextRow.ts:62-65 | each drawn word moves the pen by its width plus a space when one follows |
| RenderTextRow.OneFontAdvance | src/lib/utils/htmlpaint/renderTextRow.ts:46-66 | over a line in one font, the pen moves exactly the width the layout measured |
| RenderTextRow.OneFontLineDrawnWithin | src/lib/utils/htmlpaint/renderTextRow.ts:14-23 | a laid-out line of several words in one font is drawn no further than `boundingWidth + 5` from its start |
| RenderTextRow.LineCalls | src/lib/utils/htmlpaint/renderTextRow.ts:55-67 | one draw call per word of the line |
| RenderTextRow.RenderLine | src/lib/utils/htmlpaint/renderTextRow.ts:55-67 | the loop draws each word, in its font and fill style, at the pen position after the words before it |
| RenderTextRow.RowStep | src/lib/utils/htmlpaint/renderTextRow.ts:20-23 | drawing one more line appends its calls, one first-word font size below the lines before |
| RenderTextRow.RowCallsDrawEveryWord | src/lib/utils/htmlpaint/renderTextRow.ts:19-23 | the row draws every word of the lines once, in order, with its own font and fill style |
| RenderTextRow.RenderLines | src/lib/utils/htmlpaint/renderTextRow.ts:19-23 | the `forEach` draws the lines one below the other, each moved down by its first word's font size |
| RenderTextRow.RenderTextRow | src/lib/utils/htmlpaint/renderTextRow.ts:4-24 | it fails exactly when `flatMapOfText` throws; otherwise it draws every word of the row once, in order, in its own font, along the laid-out lines |
| HtmlPaint.GetTextNodeFromSpan | src/lib/utils/htmlpaint/htmlpaint.ts:120-132 | it succeeds exactly when first children lead through 'a' elements to a text node; it then returns that text node together with the element holding it (the node itself when its first child is text); it throws otherwise, including on an element without children |
| HtmlPaint.SpanWords | src/lib/utils/htmlpaint/htmlpaint.ts:149-156 | one word per `split(' ')` piece, in order, each with the span's styles, and a space after every word but the last |
| HtmlPaint.SpanWordsSpellText | src/lib/utils/htmlpaint/htmlpaint.ts:149-156 | the words of a span, with their spaces, spell its text back |
| HtmlPaint.SpelledParts | src/lib/utils/htmlpaint/htmlpaint.ts:150-156 | words made from pieces, a space after all but the last, spell the pieces joined with ' ' |
| HtmlPaint.ChildWords | src/lib/utils/htmlpaint/htmlpaint.ts:139-157 | a text child of the row gives no words; an element child gives words exactly when its text node can be found, and none when that text is null |
| HtmlPaint.FlatMapOfTextOk | src/lib/utils/htmlpaint/htmlpaint.ts:138-158 | `flatMapOfText` throws exactly when the text node of one of the children cannot be found |
| HtmlPaint.Elements | src/lib/utils/htmlpaint/htmlpaint.ts:140-142 | the element children of the row, and only those |
| HtmlPaint.TextChildrenSkipped | src/lib/utils/htmlpaint/htmlpaint.ts:140-142 | the row's own text children change nothing: the words are those of its element children |
| HtmlPaint.FlatMapCons | src/lib/utils/htmlpaint/htmlpaint.ts:138-158 | the words of a run of children are those of the first child followed by the rest's, and the run throws exactly when one part does |
| HtmlPaint.FlatMapAppend | src/lib/utils/htmlpaint/htmlpaint.ts:138-158 | the words of two runs of children follow one another |
| HtmlPaint.SpanRowFlattens | src/lib/utils/htmlpaint/htmlpaint.ts:134-158 | a row of spans each holding one text node never throws, and its words spell the spans' texts in order |
| HtmlPaint.SpelledAppend | src/lib/utils/htmlpaint/htmlpaint.ts:150-156 | what two runs of words spell follows one another |
| HtmlPaint.AllSpanTextRowFlattens | src/lib/utils/htmlpaint/htmlpaint.ts:169-173 | a list item `isAllSpanTextRow` accepts, whose single-child spans hold text, flattens without throwing into words that spell the spans' texts in order |

## Left out

2048 game and agent:

- `AiNode` children: moving a copy of the board uses the game's move rules (`MoveRules.MoveBoard` after `Prepare`). The agent's own `moveGridCells`/`getCurrentGridCopy` are not in the available source, so they are taken to behave as the game's `move` does on a copy.
- `AiNode.IsGameBoard`: the agent's nodes are 4 × 4 boards, as the game creates them. The search and the move rules for a node's children are proved for that size only.
- `gradientSmoothness` and `scoreTiles` (ai.ts:30-48 and 77-96) use floating-point division and `log2`. They are not modelled. A heuristic is a weight, a name and any integer-valued function of the board.
- `AiSearch.QueueCapacity`: it is computed with integer division. That matches the source only because `(c^(d+1) - 1)` is divisible by `c - 1`, which `DivExact` proves.
- `AiEngine.AlphaBetaAI.CalculateBestMove`: the model proves that "Deque is full" comes only with the queue full, but not that this cannot happen at the default depth limit of 10. That bound needs the size of the whole breadth-first tree, which the model does not count.
- `AiEngine.AlphaBetaAI.SetDepthLimit`: it changes only the depth limit, as the source does. The queue keeps the capacity computed for the default depth. With a larger limit the tree can outgrow the queue; `CalculateBestMove` then returns its "Deque is full" error, which the model captures.
- The JSON text of a saved game is an opaque string. `JSON.stringify`/`JSON.parse` are not modelled: the game builds its text with `GameJsonOf`, and storage hands text back unchanged.
- `Grids.Grid.constructor` requires a consistent serialised state: every saved tile sits at the position it names. `Game.Loadable` carries the same requirement for `Setup`/`Load`. A saved state that the page's own `serialize` did not produce is not modelled.
- `Game.GameManager.Move`: "the score never decreases" is proved only for a grid whose tiles are all positive. Every grid the game builds is positive (`SpawnKeepsPositive`, `StartTilesPositive`, `MoveKeepsPositive`), but a saved state with a non-positive value is not excluded by the source.
- `Math.random` is a parameter everywhere: a `Draw` of two reals in [0, 1) for each spawned tile, a sequence of draws for Life, and `rand(k)` in sudoku.ts. The spawn value rule `< 0.9 ? 2 : 4` and the cell choice `floor(r * n)` are modelled exactly.
- The DOM actuator, `requestAnimationFrame`, `bindButtonPress`, `handleTouchMove` (which only calls `preventDefault`), `isLocalStorageSupported` (a browser probe) and `window.localStorage` itself are not modelled. The storage manager is given its store.
- `Input.TouchStart` requires at least one touch, as a `touchstart` event always carries one.

Sudoku:

- sudoku.h's list and queue helpers (`deep_copy`, `get_unsolved_domain_keys`, the queue of arcs) are not part of this model. Lists are sequences and the arc queue is a sequence.
- `hash_code` is replaced by the index 9x + y of a cell.
- `SudokuSolver.GetMinList`: the hidden `get_min_list` is taken to return the first unsolved cell with the fewest values.
- `malloc`/`free` and the `free_*` functions are not modelled. The unterminated two-character `space` key of `solve` is not modelled either: keys are `Cell` values.
- `SudokuSolver.Domains.ReviseDomains` requires its two cells to be different. `AC3` only passes arcs between distinct peers.
- `SudokuBoards.StringToMatrix` requires at least 81 characters. Every caller passes a line already checked by `isBoardStringValid` or returned by the solver. Cells are single characters.
- `SudokuBoards.CreateNewRandomBoard` and `SudokuBoards.FallbackApproach` take the solver `solve` as a parameter and assume it returns an 81-character line for an 81-character board, as the C `solve` does. The `rand` parameter is assumed to lie in [0, 1).
- The page functions `loadSudoku`, `saveBoard`, `resetNewRandom`, `getInitialBoard`, `createNewWithRetry` and `executeWithTimeout` of sudoku.ts are not modelled: they do local storage, timers and the WebAssembly instantiation.

WebAssembly:

- `loadWasm` (fetch and instantiate) is not modelled.
- `WasmLoad.WasmMemoryHelper.WriteString` requires ASCII text: `TextEncoder`'s UTF-8 is modelled only for ASCII, one byte per character.
- `ptr` and `length` are integers. Non-integer numbers passed to the typed-array views are not modelled.
- `AddC.SumArray` requires `length` to be at most the array's length. Reading past the end is undefined behaviour in C. The 32-bit wrap of `int` addition is modelled with `Int32.Wrap32`.

Game of Life:

- `LifeToroidal.ToroidalLife.constructor`: `numCellsY = Math.round(100 * height / width)` is taken as given. The WebGL set-up, shaders and `draw` are not modelled.
- `LifeHtml.CeilDiv` requires a positive divisor. `LifeHtml.LifePage.Restart` takes both inputs already parsed as integers with a positive column count. The `parseInt` NaN paths (an empty or non-numeric input, for which the source computes a NaN cell size) are not modelled.
- The page's `div`s are a grid of cell states. Inline styles and colours are not modelled.

Notion:

- `NotionServer.SortByOrder` models a missing `order.number` as MAX_SAFE_INTEGER on both sides. When `b.properties.order` itself is missing, server.ts:19 throws a TypeError, because only `a` is guarded with `?.`. The model does not capture that throw.
- `NotionHelper.ExtractRelventPageData`: `projects.sort` sorts the caller's array in place, and the model returns a new sorted sequence. `Array.prototype.sort` is modelled as a stable insertion sort.
- Fetching blocks, pages and databases from the Notion API is not modelled.

Canvas text:

- `measureText` returns integer widths here, where the source uses floating-point ones.
- `FillText.SearchFindsLongestLine` assumes widths grow with the words of a line. Without that, the search finds only a local stopping point (`IsSearchResult`), which is proved for every measure.
- `FillText.GetWrappedLines`: when the as-written search returns its own start, the source loops forever pushing empty lines. The model reports that as the outcome `Stalled`, and `FillText.FillTextWithWrap` reports it as `Hangs`.
- htmlpaint.ts's `getStylesForSpan`, `extractFloat`, `setFont`, `setupCanvas`, `getStartingPosition`, `lastElementRect`, `calculateHeight`, `toCanvas`, `renderRow`, `renderString` and `renderBeforeContent` are not modelled. They are float geometry, CSS parsing and canvas side effects. An element carries its computed styles, and `textBaseline` is not modelled.

General:

- `console.log`/`console.error` output is not modelled.
- JavaScript numbers are modelled as unbounded integers wherever the source only uses them as integers.

## Findings

| source | as written | input that shows it | evidently intended | confidence | as-written member | corrected member |
|---|---|---|---|---|---|---|
| src/lib/utils/experiments/2048ai/inputManager.ts:109-112 | the Vim keys are keyed by the key codes 75, 76, 74, 72, but `handleKeyDown` looks them up by `event.key` | pressing "k" without modifiers | "k", "l", "j", "h" move up, right, down, left | not executed | Input.VimKeysUnmapped | Input.HandleKeyDownIntended |
| src/lib/utils/experiments/2048ai/inputManager.ts:130-131 | `inputManager.restart.call(self, event)` runs `restart` with `this` bound to the window, so `this.emit` is not a function and it throws | pressing "r" without modifiers | the restart event is emitted through the manager | not executed | Input.RestartKeyThrows | Input.HandleKeyDownIntended |
| src/lib/utils/experiments/conways-2d-html.ts:39-43 | a cell that `shouldBeLiving` is set off and any other cell on | density 1.0, every draw below 1 | a cell is alive exactly when its draw is below the density | not executed | LifeHtml.FullDensitySeedsNothing | LifeHtml.LifePage.InitLifeIntended |
| src/lib/notion/server.ts:80-93 | the run of numbered list items still open when the loop ends is never pushed | a paragraph followed by one numbered list item | the trailing list is returned as a numbered list | not executed | NotionServer.EndingListIsLost | NotionServer.GetPageBlocksIntended |
| src/lib/utils/htmlpaint/fillTextWithWrap.ts:89 | the guard throws only when `lastValid === 0`, so past the first line a search that takes no word returns `start` and `getWrappedLines` pushes empty lines forever | "a WWWWW" with `findMaxFittingWords`' bound 0 and widths of 10 per character | throw when no word fits (`lastValid === start`) | not executed | FillText.WrapStallsAsWritten | FillText.GetWrappedLinesIntended |
