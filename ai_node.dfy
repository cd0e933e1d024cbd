// The nodes of the 2048 search tree (2048ai/ai.ts, `GameNode` and the heuristic
// totals of `AlphaBetaAI`). A node is a value here; the tree that links them is an
// arena of nodes in the search module, where `children` holds arena indices.

module AiNode {
  import opened Common
  import opened Tiles
  import opened Strings
  import opened MoveRules
  import opened AiBoard

  // ---------------------------------------------------------------------------------
  // Heuristics and the two ways of adding them up

  /** `Heuristic`: a weight, a label (`name`) and an integer scoring function of a board. */
  datatype Heuristic = Heuristic(weight: int, name: string, func: Board -> int)

  /** The sum of `func(grid) * weight` over the heuristics. */
  function WeightedTotal(hs: seq<Heuristic>, g: Board): int {
    if |hs| == 0 then 0
    else WeightedTotal(hs[..|hs| - 1], g) + hs[|hs| - 1].func(g) * hs[|hs| - 1].weight
  }

  /** The sum of `func(grid)` over the heuristics, weights ignored. */
  function UnweightedTotal(hs: seq<Heuristic>, g: Board): int {
    if |hs| == 0 then 0
    else UnweightedTotal(hs[..|hs| - 1], g) + hs[|hs| - 1].func(g)
  }

  /** With every weight 1 the two totals agree. */
  lemma {:induction false} UnitWeightsAgree(hs: seq<Heuristic>, g: Board)
    requires forall k :: 0 <= k < |hs| ==> hs[k].weight == 1
    ensures WeightedTotal(hs, g) == UnweightedTotal(hs, g)
  {
    if |hs| > 0 {
      UnitWeightsAgree(hs[..|hs| - 1], g);
    }
  }

  /** Both totals add up over a split list of heuristics. */
  lemma {:induction false} TotalsSplit(hs: seq<Heuristic>, more: seq<Heuristic>, g: Board)
    ensures WeightedTotal(hs + more, g) == WeightedTotal(hs, g) + WeightedTotal(more, g)
    ensures UnweightedTotal(hs + more, g) == UnweightedTotal(hs, g) + UnweightedTotal(more, g)
  {
    if |more| == 0 {
      assert hs + more == hs;
    } else {
      var front := more[..|more| - 1];
      TotalsSplit(hs, front, g);
      assert (hs + more)[..|hs + more| - 1] == hs + front;
      assert (hs + more)[|hs + more| - 1] == more[|more| - 1];
    }
  }

  /** The closure `getScoreCalculator` returns, applied to a node's board: the weighted
    * total over a copy of the board. The caller adds it to the node's score. */
  method ScoreCalculator(hs: seq<Heuristic>, grid: Board) returns (total: int)
    requires IsBoard(grid)
    ensures total == WeightedTotal(hs, Prepare(grid))
  {
    total := 0;
    for k := 0 to |hs|
      invariant total == WeightedTotal(hs[..k], Prepare(grid))
    {
      assert hs[..k + 1][..k] == hs[..k];
      var score := hs[k].func(Prepare(grid)) * hs[k].weight;
      total := total + score;
    }
    assert hs[..|hs|] == hs;
  }

  /** `scoreNode`: the unweighted total over a copy of the board, which the caller adds
    * to the node's score. */
  method ScoreNode(hs: seq<Heuristic>, grid: Board) returns (total: int)
    requires IsBoard(grid)
    ensures total == UnweightedTotal(hs, Prepare(grid))
  {
    total := 0;
    for k := 0 to |hs|
      invariant total == UnweightedTotal(hs[..k], Prepare(grid))
    {
      assert hs[..k + 1][..k] == hs[..k];
      total := total + hs[k].func(Prepare(grid));
    }
    assert hs[..|hs|] == hs;
  }

  // ---------------------------------------------------------------------------------
  // Game nodes

  /** `GameNode`: the depth, the board, the score, the move that led here from the
    * parent, and the children as indices into the tree's arena. */
  datatype GameNode = GameNode(depth: nat, grid: Board, score: int, move: Option<nat>, children: seq<nat>)

  /** What stays fixed about a node once it is created: depth, board and move. */
  datatype View = View(depth: nat, grid: Board, move: Option<nat>)

  function ViewOf(n: GameNode): View {
    View(n.depth, n.grid, n.move)
  }

  /** `new GameNode(depth, grid, move)`: score 0 and no children. */
  function NewNode(depth: nat, grid: Board, move: Option<nat>): (n: GameNode)
    ensures ViewOf(n) == View(depth, grid, move) && n.score == 0 && n.children == []
  {
    GameNode(depth, grid, 0, move, [])
  }

  predicate IsGameBoard(g: Board) {
    IsBoard(g) && |g| == 4
  }

  // ---------------------------------------------------------------------------------
  // `toString`: the key under which the search remembers a board

  function SlotKey(x: int, y: int, s: Slot): string {
    match s
    case Empty => "null"
    case Occupied(value, _) => TileKey(x, y, value)
  }

  function ColumnKey(b: Board, x: nat): string
    requires IsBoard(b) && x < |b|
  {
    Join(seq(|b|, y requires 0 <= y < |b| => SlotKey(x, y, b[x][y])), "|")
  }

  /** The columns' keys joined with "||", each the cells' keys joined with "|". */
  function Key(b: Board): string
    requires IsBoard(b)
  {
    Join(seq(|b|, x requires 0 <= x < |b| => ColumnKey(b, x)), "||")
  }

  /** The key ignores merge marks: a board and its copy have the same key. */
  lemma KeyOfCopy(b: Board)
    requires IsBoard(b)
    ensures Key(Prepare(b)) == Key(b)
  {
    var p := Prepare(b);
    forall x | 0 <= x < |b|
      ensures ColumnKey(p, x) == ColumnKey(b, x)
    {
      forall y | 0 <= y < |b|
        ensures SlotKey(x, y, p[x][y]) == SlotKey(x, y, b[x][y])
      {
        assert p[x][y] == At(p, Position(x, y));
      }
      assert seq(|p|, y requires 0 <= y < |p| => SlotKey(x, y, p[x][y]))
        == seq(|b|, y requires 0 <= y < |b| => SlotKey(x, y, b[x][y]));
    }
    assert seq(|p|, x requires 0 <= x < |p| => ColumnKey(p, x))
      == seq(|b|, x requires 0 <= x < |b| => ColumnKey(b, x));
  }

  // ---------------------------------------------------------------------------------
  // `expandHumanMoves`: one child per direction that can move

  /** The children the player's turn creates from `g`, considering the directions
    * `0 .. n - 1` in order. */
  ghost function HumanViews(g: Board, depth: nat, n: nat): (r: seq<View>)
    requires IsGameBoard(g) && n <= 4
  {
    if n == 0 then []
    else
      HumanViews(g, depth, n - 1) +
      (if CanMove(g, n - 1) then [View(depth + 1, MoveBoard(Prepare(g), 4, n - 1).board, Some(n - 1))] else [])
  }

  /** The player's children are the directions `canMoveInDirection` allows, in
    * direction order, each holding the board after that move; every direction it
    * skips would leave the board as it is. */
  lemma HumanViewsExact(g: Board, depth: nat, n: nat)
    requires IsGameBoard(g) && n <= 4
    ensures var r := HumanViews(g, depth, n);
      (forall k :: 0 <= k < |r| ==>
        r[k].depth == depth + 1 && r[k].move.Some? && r[k].move.value < n &&
        CanMove(g, r[k].move.value) && r[k].grid == MoveBoard(Prepare(g), 4, r[k].move.value).board) &&
      (forall k, l :: 0 <= k < l < |r| ==> r[k].move.value < r[l].move.value) &&
      (forall d :: 0 <= d < n && CanMove(g, d) ==> exists k :: 0 <= k < |r| && r[k].move == Some(d)) &&
      (forall d :: 0 <= d < n && !CanMove(g, d) ==>
        MoveBoard(g, 4, d) == MoveState(Prepare(g), 0, false, false, []))
  {
    HumanViewsSound(g, depth, n);
    HumanViewsComplete(g, depth, n);
    forall d | 0 <= d < n && !CanMove(g, d)
      ensures MoveBoard(g, 4, d) == MoveState(Prepare(g), 0, false, false, [])
    {
      NoRoomNoMove(g, d);
    }
  }

  /** Each child comes from a direction that can move, in increasing direction order. */
  lemma {:induction false} HumanViewsSound(g: Board, depth: nat, n: nat)
    requires IsGameBoard(g) && n <= 4
    ensures var r := HumanViews(g, depth, n);
      (forall k :: 0 <= k < |r| ==>
        r[k].depth == depth + 1 && r[k].move.Some? && r[k].move.value < n &&
        CanMove(g, r[k].move.value) && r[k].grid == MoveBoard(Prepare(g), 4, r[k].move.value).board) &&
      (forall k, l :: 0 <= k < l < |r| ==> r[k].move.value < r[l].move.value)
  {
    if n > 0 {
      HumanViewsSound(g, depth, n - 1);
      assert HumanViews(g, depth, n) == HumanViews(g, depth, n - 1) +
        (if CanMove(g, n - 1) then [View(depth + 1, MoveBoard(Prepare(g), 4, n - 1).board, Some(n - 1))] else []);
    }
  }

  /** Every direction that can move has its child. */
  lemma {:induction false} HumanViewsComplete(g: Board, depth: nat, n: nat)
    requires IsGameBoard(g) && n <= 4
    ensures var r := HumanViews(g, depth, n);
      forall d :: 0 <= d < n && CanMove(g, d) ==> exists k :: 0 <= k < |r| && r[k].move == Some(d)
  {
    if n > 0 {
      HumanViewsComplete(g, depth, n - 1);
      assert HumanViews(g, depth, n) == HumanViews(g, depth, n - 1) +
        (if CanMove(g, n - 1) then [View(depth + 1, MoveBoard(Prepare(g), 4, n - 1).board, Some(n - 1))] else []);
      forall d | 0 <= d < n && CanMove(g, d)
        ensures exists k :: 0 <= k < |HumanViews(g, depth, n)| && HumanViews(g, depth, n)[k].move == Some(d)
      {
        if d < n - 1 {
          var k :| 0 <= k < |HumanViews(g, depth, n - 1)| && HumanViews(g, depth, n - 1)[k].move == Some(d);
          assert HumanViews(g, depth, n)[k] == HumanViews(g, depth, n - 1)[k];
        } else {
          assert HumanViews(g, depth, n)[|HumanViews(g, depth, n)| - 1].move == Some(d);
        }
      }
    }
  }

  lemma {:induction false} HumanViewsCount(g: Board, depth: nat, n: nat)
    requires IsGameBoard(g) && n <= 4
    ensures |HumanViews(g, depth, n)| <= n
    ensures forall k :: 0 <= k < |HumanViews(g, depth, n)| ==>
      HumanViews(g, depth, n)[k].depth == depth + 1 && IsGameBoard(HumanViews(g, depth, n)[k].grid)
  {
    if n > 0 {
      HumanViewsCount(g, depth, n - 1);
    }
  }

  /** `expandHumanMoves`: for each direction in order, when `canMoveInDirection` allows
    * it, a child holding the moved copy of the board and scored by the weighted total. */
  method ExpandHumanMoves(node: GameNode, hs: seq<Heuristic>) returns (kids: seq<GameNode>)
    requires IsGameBoard(node.grid)
    ensures |kids| == |HumanViews(node.grid, node.depth, |node.grid|)|
    ensures forall k :: 0 <= k < |kids| ==>
      ViewOf(kids[k]) == HumanViews(node.grid, node.depth, |node.grid|)[k] && kids[k].children == [] &&
      IsGameBoard(kids[k].grid) && kids[k].score == WeightedTotal(hs, Prepare(kids[k].grid))
  {
    kids := [];
    for d := 0 to 4
      invariant |kids| == |HumanViews(node.grid, node.depth, d)|
      invariant forall k :: 0 <= k < |kids| ==>
        ViewOf(kids[k]) == HumanViews(node.grid, node.depth, d)[k] && kids[k].children == [] &&
        IsGameBoard(kids[k].grid) && kids[k].score == WeightedTotal(hs, Prepare(kids[k].grid))
    {
      var can := CanMoveInDirection(node.grid, d);
      if can {
        var stateCopy := Prepare(node.grid);
        stateCopy := MoveBoard(stateCopy, 4, d).board;
        var child := NewNode(node.depth + 1, stateCopy, Some(d));
        var score := ScoreCalculator(hs, child.grid);
        child := child.(score := child.score + score);
        kids := kids + [child];
      }
    }
  }

  // ---------------------------------------------------------------------------------
  // `expandComputerMove`: the computer places the tile that scores worst

  /** Putting a tile of `value` at `(row, col)`. */
  datatype Placement = Placement(value: int, row: int, col: int)

  /** The placements of `value` on the empty cells among `cs`, in the order of `cs`. */
  function Openings(g: Board, value: int, cs: seq<(int, int)>): (r: seq<Placement>)
    ensures |r| <= |cs|
  {
    if |cs| == 0 then []
    else
      var c := cs[|cs| - 1];
      Openings(g, value, cs[..|cs| - 1]) +
      (if InGrid(g, c.0, c.1) && GetCell(g, c.0, c.1).Empty? then [Placement(value, c.0, c.1)] else [])
  }

  /** The placements tried for the tile values `values` over the cells `cs`, value
    * by value. */
  function PlacementsOf(g: Board, values: seq<int>, cs: seq<(int, int)>): seq<Placement> {
    if |values| == 0 then []
    else PlacementsOf(g, values[..|values| - 1], cs) + Openings(g, values[|values| - 1], cs)
  }

  /** Every 2 on an empty cell in row-major order, then every 4. */
  function Placements(g: Board): seq<Placement> {
    PlacementsOf(g, [2, 4], CellsRange(0, |g| - 1, 0, |g| - 1))
  }

  lemma {:induction false} OpeningsExact(g: Board, value: int, cs: seq<(int, int)>)
    ensures forall p :: p in Openings(g, value, cs) <==>
      p.value == value && (p.row, p.col) in cs && InGrid(g, p.row, p.col) && GetCell(g, p.row, p.col).Empty?
  {
    if |cs| > 0 {
      OpeningsExact(g, value, cs[..|cs| - 1]);
      assert cs == cs[..|cs| - 1] + [cs[|cs| - 1]];
    }
  }

  lemma {:induction false} PlacementsOfExact(g: Board, values: seq<int>, cs: seq<(int, int)>)
    ensures forall p :: p in PlacementsOf(g, values, cs) <==>
      p.value in values && (p.row, p.col) in cs && InGrid(g, p.row, p.col) && GetCell(g, p.row, p.col).Empty?
  {
    if |values| > 0 {
      PlacementsOfExact(g, values[..|values| - 1], cs);
      OpeningsExact(g, values[|values| - 1], cs);
      assert values == values[..|values| - 1] + [values[|values| - 1]];
    }
  }

  /** The computer tries exactly the tiles 2 and 4 on exactly the empty cells. */
  lemma PlacementsExact(g: Board)
    requires IsGameBoard(g)
    ensures forall p :: p in Placements(g) <==>
      (p.value == 2 || p.value == 4) && 0 <= p.row <= 3 && 0 <= p.col <= 3 && GetCell(g, p.row, p.col).Empty?
  {
    PlacementsOfExact(g, [2, 4], CellsRange(0, |g| - 1, 0, |g| - 1));
    CellsRangeMembers(0, |g| - 1, 0, |g| - 1);
  }

  /** `Openings` over one more cell. */
  lemma OpeningsStep(g: Board, value: int, cs: seq<(int, int)>, k: nat)
    requires k < |cs|
    ensures InGrid(g, cs[k].0, cs[k].1) && GetCell(g, cs[k].0, cs[k].1).Empty? ==>
      Openings(g, value, cs[..k + 1]) == Openings(g, value, cs[..k]) + [Placement(value, cs[k].0, cs[k].1)]
    ensures !(InGrid(g, cs[k].0, cs[k].1) && GetCell(g, cs[k].0, cs[k].1).Empty?) ==>
      Openings(g, value, cs[..k + 1]) == Openings(g, value, cs[..k])
  {
    assert cs[..k + 1][..k] == cs[..k];
    assert Openings(g, value, cs[..k]) + [] == Openings(g, value, cs[..k]);
  }

  /** `PlacementsOf` over one more tile value. */
  lemma PlacementsOfStep(g: Board, values: seq<int>, cs: seq<(int, int)>, t: nat)
    requires t < |values|
    ensures PlacementsOf(g, values[..t + 1], cs) == PlacementsOf(g, values[..t], cs) + Openings(g, values[t], cs)
  {
    assert values[..t + 1][..t] == values[..t];
  }

  /** The board with the placement's tile set, as `setCell` does. */
  function Place(g: Board, p: Placement): (r: Board)
    requires IsBoard(g)
    ensures IsBoard(r) && |r| == |g|
  {
    if InGrid(g, p.row, p.col) then SetCell(g, p.row, p.col, Occupied(p.value, false)) else g
  }

  /** The weighted total of each placement's board. */
  function PlacementScores(g: Board, hs: seq<Heuristic>, ps: seq<Placement>): (r: seq<int>)
    requires IsBoard(g)
    ensures |r| == |ps|
  {
    seq(|ps|, k requires 0 <= k < |ps| => WeightedTotal(hs, Prepare(Place(g, ps[k]))))
  }

  /** Scoring one more placement. */
  lemma ScoresStep(g: Board, hs: seq<Heuristic>, ps: seq<Placement>, p: Placement)
    requires IsBoard(g)
    ensures PlacementScores(g, hs, ps + [p]) == PlacementScores(g, hs, ps) + [WeightedTotal(hs, Prepare(Place(g, p)))]
  {
  }

  /** `i` holds the smallest value of `s`, and no earlier index does. */
  predicate IsFirstMin(s: seq<int>, i: int) {
    0 <= i < |s| && (forall j :: 0 <= j < |s| ==> s[i] <= s[j]) && (forall j :: 0 <= j < i ==> s[i] < s[j])
  }

  /** The index `score < lowestScore` settles on, scanning left to right. */
  function FirstMin(s: seq<int>): (i: nat)
    requires |s| > 0
    ensures i < |s|
  {
    if |s| == 1 then 0
    else
      var m := FirstMin(s[..|s| - 1]);
      if s[|s| - 1] < s[m] then |s| - 1 else m
  }

  lemma {:induction false} FirstMinIsFirstMin(s: seq<int>)
    requires |s| > 0
    ensures IsFirstMin(s, FirstMin(s))
  {
    if |s| > 1 {
      FirstMinIsFirstMin(s[..|s| - 1]);
    }
  }

  /** There is only one first minimum. */
  lemma FirstMinUnique(s: seq<int>, i: int, j: int)
    requires IsFirstMin(s, i) && IsFirstMin(s, j)
    ensures i == j
  {
    assert s[i] == s[j];
  }

  /** One more value: the first minimum moves to it only when it is strictly lower. */
  lemma FirstMinSnoc(s: seq<int>, x: int)
    requires |s| > 0
    ensures FirstMin(s + [x]) == if x < s[FirstMin(s)] then |s| else FirstMin(s)
  {
    assert (s + [x])[..|s|] == s;
  }

  /** The one child of the computer's turn, when there is an empty cell. */
  ghost function ComputerViews(g: Board, depth: nat, move: Option<nat>, hs: seq<Heuristic>): seq<View>
    requires IsBoard(g)
  {
    var ps := Placements(g);
    if |ps| == 0 then []
    else [View(depth + 1, Prepare(Place(g, ps[FirstMin(PlacementScores(g, hs, ps))])), move)]
  }

  /** The computer's child is the placement with the lowest weighted total, the
    * earliest of equals, and it keeps the parent's move. */
  lemma ComputerViewsWorst(g: Board, depth: nat, move: Option<nat>, hs: seq<Heuristic>)
    requires IsGameBoard(g)
    ensures var ps := Placements(g);
      var r := ComputerViews(g, depth, move, hs);
      (|ps| == 0 <==> |r| == 0) &&
      (|ps| > 0 ==>
        |r| == 1 &&
        (exists i :: IsFirstMin(PlacementScores(g, hs, ps), i) && r[0] == View(depth + 1, Prepare(Place(g, ps[i])), move)))
  {
    var ps := Placements(g);
    if |ps| > 0 {
      FirstMinIsFirstMin(PlacementScores(g, hs, ps));
    }
  }

  /** Clearing the cell just set gives back the board. */
  lemma UnsetCell(g: Board, row: int, col: int, s: Slot)
    requires InGrid(g, row, col) && GetCell(g, row, col).Empty?
    ensures SetCell(SetCell(g, row, col, s), row, col, Empty) == g
  {
    var p := Position(col, row);
    assert At(g, p) == Empty;
    var r := Put(Put(g, p, s), p, Empty);
    forall x | 0 <= x < |g|
      ensures r[x] == g[x]
    {
      forall y | 0 <= y < |g|
        ensures r[x][y] == g[x][y]
      {
        assert r[x][y] == At(r, Position(x, y));
        assert g[x][y] == At(g, Position(x, y));
      }
    }
  }

  lemma AppendAssoc<T>(a: seq<T>, b: seq<T>, c: seq<T>)
    ensures a + b + c == a + (b + c)
  {
  }

  /** What `expandComputerMove` knows after trying the placements `ps`: the lowest
    * total so far, the child it belongs to, and the last total tried. */
  ghost predicate Tracking(node: GameNode, hs: seq<Heuristic>, ps: seq<Placement>, scores: seq<int>,
                           lowest: nat, lowestScore: int, lowestChild: Option<GameNode>, score: int)
  {
    && IsGameBoard(node.grid)
    && scores == PlacementScores(node.grid, hs, ps)
    && (|ps| == 0 ==> lowestChild.None? && score == node.score)
    && (|ps| > 0 ==>
         lowest == FirstMin(scores) && lowestScore == scores[lowest] && score == scores[|ps| - 1] &&
         lowestChild == Some(NewNode(node.depth + 1, Prepare(Place(node.grid, ps[lowest])), node.move)) &&
         IsGameBoard(lowestChild.value.grid))
  }

  /** Trying one more placement keeps `Tracking`, whichever way the comparison goes. */
  lemma TrackingStep(node: GameNode, hs: seq<Heuristic>, ps: seq<Placement>, scores: seq<int>,
                     lowest: nat, lowestScore: int, lowestChild: Option<GameNode>, score: int, p: Placement)
    requires Tracking(node, hs, ps, scores, lowest, lowestScore, lowestChild, score)
    ensures var trial := WeightedTotal(hs, Prepare(Place(node.grid, p)));
      var better := lowestChild.None? || trial < lowestScore;
      Tracking(node, hs, ps + [p], scores + [trial],
               if better then |ps| else lowest,
               if better then trial else lowestScore,
               if better then Some(NewNode(node.depth + 1, Prepare(Place(node.grid, p)), node.move)) else lowestChild,
               trial)
  {
    ScoresStep(node.grid, hs, ps, p);
    if |ps| > 0 {
      FirstMinSnoc(scores, WeightedTotal(hs, Prepare(Place(node.grid, p))));
    }
  }

  /** One trial of `expandComputerMove`: set the tile, score the board with the
    * weighted total, copy it, and clear the cell again. */
  method TryPlacement(grid: Board, hs: seq<Heuristic>, value: int, row: int, col: int)
    returns (trial: int, copy: Board, restored: Board)
    requires IsGameBoard(grid) && InGrid(grid, row, col) && GetCell(grid, row, col).Empty?
    ensures trial == WeightedTotal(hs, Prepare(Place(grid, Placement(value, row, col))))
    ensures copy == Prepare(Place(grid, Placement(value, row, col))) && IsGameBoard(copy)
    ensures restored == grid
  {
    restored := SetCell(grid, row, col, Occupied(value, false));
    trial := ScoreCalculator(hs, restored);
    copy := Prepare(restored);
    UnsetCell(grid, row, col, Occupied(value, false));
    restored := SetCell(restored, row, col, Empty);
  }

  /** The inner loop of `expandComputerMove` for one tile value: every empty cell of
    * `cs` in turn. */
  method TryValue(node: GameNode, hs: seq<Heuristic>, value: int, cs: seq<(int, int)>,
                  ghost ps0: seq<Placement>, ghost scores0: seq<int>, ghost lowest0: nat,
                  lowestScore0: int, lowestChild0: Option<GameNode>, score0: int)
    returns (ghost ps: seq<Placement>, ghost scores: seq<int>, ghost lowest: nat,
             lowestScore: int, lowestChild: Option<GameNode>, score: int)
    requires forall k :: 0 <= k < |cs| ==> InGrid(node.grid, cs[k].0, cs[k].1)
    requires Tracking(node, hs, ps0, scores0, lowest0, lowestScore0, lowestChild0, score0)
    ensures ps == ps0 + Openings(node.grid, value, cs)
    ensures Tracking(node, hs, ps, scores, lowest, lowestScore, lowestChild, score)
  {
    var grid := node.grid;
    ps, scores, lowest, lowestScore, lowestChild, score := ps0, scores0, lowest0, lowestScore0, lowestChild0, score0;
    for k := 0 to |cs|
      invariant grid == node.grid
      invariant ps == ps0 + Openings(grid, value, cs[..k])
      invariant Tracking(node, hs, ps, scores, lowest, lowestScore, lowestChild, score)
    {
      OpeningsStep(grid, value, cs, k);
      var row, col := cs[k].0, cs[k].1;
      if GetCell(grid, row, col).Empty? {
        ghost var p := Placement(value, row, col);
        var trial, copy;
        trial, copy, grid := TryPlacement(grid, hs, value, row, col);
        TrackingStep(node, hs, ps, scores, lowest, lowestScore, lowestChild, score, p);
        score := trial;
        if lowestChild.None? || trial < lowestScore {
          lowestScore := trial;
          lowestChild := Some(NewNode(node.depth + 1, copy, node.move));
          lowest := |ps|;
        }
        AppendAssoc(ps0, Openings(grid, value, cs[..k]), [p]);
        ps, scores := ps + [p], scores + [trial];
      }
    }
    assert cs[..|cs|] == cs;
  }

  /** `expandComputerMove`: tries a 2, then a 4, on every empty cell, scoring each
    * board with the weighted total, and keeps the first lowest as the only child.
    * The node's score is left at the last total tried, or restored when there is no
    * empty cell; its board is left as it was. */
  method ExpandComputerMove(node: GameNode, hs: seq<Heuristic>) returns (kids: seq<GameNode>, score: int)
    requires IsGameBoard(node.grid)
    ensures var ps := Placements(node.grid);
      var scores := PlacementScores(node.grid, hs, ps);
      |kids| == |ComputerViews(node.grid, node.depth, node.move, hs)| &&
      (forall k :: 0 <= k < |kids| ==>
        ViewOf(kids[k]) == ComputerViews(node.grid, node.depth, node.move, hs)[k] &&
        kids[k].score == 0 && kids[k].children == [] && IsGameBoard(kids[k].grid)) &&
      score == if |ps| == 0 then node.score else scores[|ps| - 1]
  {
    ghost var ps: seq<Placement> := [];
    ghost var scores: seq<int> := [];
    ghost var lowest: nat := 0;
    var lowestScore: int := 0;
    var lowestChild: Option<GameNode> := None;
    score := node.score;
    var cs := Cells(0, 3, 0, 3);
    BoardCellsInGrid(node.grid);
    var tileValues := [2, 4];
    for t := 0 to 2
      invariant ps == PlacementsOf(node.grid, tileValues[..t], cs)
      invariant Tracking(node, hs, ps, scores, lowest, lowestScore, lowestChild, score)
    {
      PlacementsOfStep(node.grid, tileValues, cs, t);
      ps, scores, lowest, lowestScore, lowestChild, score :=
        TryValue(node, hs, tileValues[t], cs, ps, scores, lowest, lowestScore, lowestChild, score);
    }
    assert tileValues[..2] == tileValues;
    if lowestChild.Some? {
      kids := [lowestChild.value];
    } else {
      kids := [];
      score := node.score;
    }
  }
}
