// The rules of one 2048 move, stated on a value snapshot of the board
// (2048ai/game.ts, `move` and its helpers). `GameManager.Move` in game.dfy is proved
// to change its grid of tile objects exactly as `MoveBoard` says, and the lemmas here
// state what a move guarantees: tiles slide as far as the empty cells allow, a tile
// takes part in at most one merge, the score gain is the sum of the merged values,
// the sum of the tile values is conserved, and a move that moves nothing changes
// nothing.

module MoveRules {
  import opened Tiles

  /** A cell of the board: empty, or a tile with its value and whether it was created
    * by a merge during the current move (`mergedFrom` is set). */
  datatype Slot = Empty | Occupied(value: int, merged: bool)

  /** Column-major, like the source's `cells[x][y]`. */
  type Board = seq<seq<Slot>>

  predicate IsBoard(b: Board) {
    forall x :: 0 <= x < |b| ==> |b[x]| == |b|
  }

  /** `Grid.withinBounds`. */
  predicate WithinBounds(p: Position, size: int) {
    0 <= p.x < size && 0 <= p.y < size
  }

  function At(b: Board, p: Position): Slot
    requires IsBoard(b) && WithinBounds(p, |b|)
  {
    b[p.x][p.y]
  }

  function Put(b: Board, p: Position, s: Slot): (r: Board)
    requires IsBoard(b) && WithinBounds(p, |b|)
    ensures IsBoard(r) && |r| == |b|
    ensures forall q :: WithinBounds(q, |b|) ==> At(r, q) == if q == p then s else At(b, q)
  {
    b[p.x := b[p.x][p.y := s]]
  }

  /** The four unit vectors of `VECTOR_MAP`. */
  predicate IsUnit(v: Position) {
    v == Position(0, -1) || v == Position(1, 0) || v == Position(0, 1) || v == Position(-1, 0)
  }

  /** 0: up, 1: right, 2: down, 3: left. */
  function Vector(direction: nat): (v: Position)
    requires direction < 4
    ensures IsUnit(v)
  {
    if direction == 0 then Position(0, -1)
    else if direction == 1 then Position(1, 0)
    else if direction == 2 then Position(0, 1)
    else Position(-1, 0)
  }

  /** `0, 1, ..., n - 1`, or the reverse. */
  function Order(n: nat, reverse: bool): (s: seq<int>)
    ensures |s| == n
    ensures forall k :: 0 <= k < n ==> s[k] == if reverse then n - 1 - k else k
  {
    if n == 0 then []
    else if reverse then [n - 1] + Order(n - 1, true)
    else Order(n - 1, false) + [n - 1]
  }

  /** The position of coordinate `c` in `Order(n, reverse)`. */
  function Rank(c: int, n: int, reverse: bool): int {
    if reverse then n - 1 - c else c
  }

  /** Each traversal visits every coordinate of the board exactly once. */
  lemma OrderIsPermutation(n: nat, reverse: bool)
    ensures forall c :: c in Order(n, reverse) <==> 0 <= c < n
    ensures forall i, j :: 0 <= i < j < n ==> Order(n, reverse)[i] != Order(n, reverse)[j]
  {
    var s := Order(n, reverse);
    forall c | 0 <= c < n
      ensures c in s
    {
      assert s[Rank(c, n, reverse)] == c;
    }
  }

  /** The cell one step from `p` along `v`. */
  function Ahead(p: Position, v: Position): Position {
    Position(p.x + v.x, p.y + v.y)
  }

  /** The cell `k` steps from `p` along `v`. */
  function Offset(p: Position, v: Position, k: int): Position {
    Position(p.x + k * v.x, p.y + k * v.y)
  }

  /** How many steps remain before `p` leaves the board in direction `v`. */
  function Room(p: Position, v: Position, size: int): nat
    requires IsUnit(v)
  {
    var r :=
      if v.x == 1 then size - p.x
      else if v.x == -1 then p.x + 1
      else if v.y == 1 then size - p.y
      else p.y + 1;
    if r < 0 then 0 else r
  }

  /** `findFarthestPosition`'s `farthest`: from `p`, step along `v` while the next
    * cell is on the board and empty. Its `next` is `Ahead(Farthest(b, p, v), v)`. */
  function Farthest(b: Board, p: Position, v: Position): (r: Position)
    requires IsBoard(b) && IsUnit(v)
    ensures WithinBounds(p, |b|) ==> WithinBounds(r, |b|) && (r == p || At(b, r) == Empty)
    decreases Room(p, v, |b|)
  {
    var q := Ahead(p, v);
    if WithinBounds(q, |b|) && At(b, q) == Empty then Farthest(b, q, v) else p
  }

  /** The number of empty cells a tile at `p` can slide over in direction `v`, stated
    * by what it counts: the cells 1 to `r` steps ahead are on the board and empty,
    * and the cell `r + 1` steps ahead is off the board or holds a tile. */
  function Reach(b: Board, p: Position, v: Position): (r: nat)
    requires IsBoard(b) && IsUnit(v)
    ensures forall k :: 1 <= k <= r ==> WithinBounds(Offset(p, v, k), |b|) && At(b, Offset(p, v, k)) == Empty
    ensures !WithinBounds(Offset(p, v, r + 1), |b|) || At(b, Offset(p, v, r + 1)).Occupied?
    decreases Room(p, v, |b|)
  {
    var q := Offset(p, v, 1);
    if WithinBounds(q, |b|) && At(b, q) == Empty then
      var r := 1 + Reach(b, q, v);
      OffsetShift(p, v);
      r
    else 0
  }

  lemma OffsetShift(p: Position, v: Position)
    ensures forall k :: Offset(Offset(p, v, 1), v, k - 1) == Offset(p, v, k)
  {
  }

  /** The walk of `findFarthestPosition` stops `Reach` steps ahead: `farthest` is the
    * last of the empty cells in front of `p`, and `next` the cell after them. */
  lemma {:induction false} FarthestIsReach(b: Board, p: Position, v: Position)
    requires IsBoard(b) && IsUnit(v)
    ensures Farthest(b, p, v) == Offset(p, v, Reach(b, p, v))
    ensures Ahead(Farthest(b, p, v), v) == Offset(p, v, Reach(b, p, v) + 1)
    decreases Room(p, v, |b|)
  {
    var q := Ahead(p, v);
    assert q == Offset(p, v, 1);
    if WithinBounds(q, |b|) && At(b, q) == Empty {
      FarthestIsReach(b, q, v);
      OffsetShift(p, v);
      assert Offset(q, v, Reach(b, q, v)) == Offset(p, v, Reach(b, p, v));
      assert Offset(q, v, Reach(b, q, v) + 1) == Offset(p, v, Reach(b, p, v) + 1);
    } else {
      assert Offset(p, v, 0) == p;
    }
  }

  /** A step of one or more along a unit vector leaves the start cell. */
  lemma OffsetLeaves(p: Position, v: Position, k: int)
    requires IsUnit(v) && k >= 1
    ensures Offset(p, v, k) != p
  {
  }

  /** The cell after the farthest one is never the start cell. */
  lemma NextLeaves(b: Board, p: Position, v: Position)
    requires IsBoard(b) && IsUnit(v)
    ensures Ahead(Farthest(b, p, v), v) != p
  {
    FarthestIsReach(b, p, v);
    OffsetLeaves(p, v, Reach(b, p, v) + 1);
  }

  /** What a move has done so far: the board, the points gained, whether a 2048 tile
    * was made, whether any tile left its cell, and the cells merges happened in. */
  datatype MoveState = MoveState(board: Board, gained: int, won: bool, moved: bool, targets: seq<Position>)

  /** The body of the inner `forEach` of `move` for the cell `cell`. */
  function Step(st: MoveState, v: Position, cell: Position): (r: MoveState)
    requires IsBoard(st.board) && IsUnit(v)
    ensures IsBoard(r.board) && |r.board| == |st.board|
  {
    if !WithinBounds(cell, |st.board|) then st
    else match At(st.board, cell)
      case Empty => st
      case Occupied(value, merged) =>
        var farthest := Farthest(st.board, cell, v);
        var next := Ahead(farthest, v);
        if WithinBounds(next, |st.board|) && At(st.board, next) == Occupied(value, false) then
          var joined := value * 2;
          MoveState(Put(Put(st.board, next, Occupied(joined, true)), cell, Empty),
                    st.gained + joined, st.won || joined == 2048, true, st.targets + [next])
        else
          MoveState(Put(Put(st.board, cell, Empty), farthest, Occupied(value, merged)),
                    st.gained, st.won, st.moved || farthest != cell, st.targets)
  }

  /** The inner `forEach` over `traversals.y` for column `x`, as a left fold. */
  function Row(st: MoveState, v: Position, x: int, ys: seq<int>): (r: MoveState)
    requires IsBoard(st.board) && IsUnit(v)
    ensures IsBoard(r.board) && |r.board| == |st.board|
  {
    if |ys| == 0 then st else Step(Row(st, v, x, ys[..|ys| - 1]), v, Position(x, ys[|ys| - 1]))
  }

  /** The outer `forEach` over `traversals.x`, as a left fold. */
  function Sweep(st: MoveState, v: Position, xs: seq<int>, ys: seq<int>): (r: MoveState)
    requires IsBoard(st.board) && IsUnit(v)
    ensures IsBoard(r.board) && |r.board| == |st.board|
  {
    if |xs| == 0 then st else Row(Sweep(st, v, xs[..|xs| - 1], ys), v, xs[|xs| - 1], ys)
  }

  function Unmark(s: Slot): Slot {
    match s
    case Empty => Empty
    case Occupied(value, _) => Occupied(value, false)
  }

  /** `prepareTiles`: every tile forgets the merge it came from. */
  function Prepare(b: Board): (r: Board)
    requires IsBoard(b)
    ensures IsBoard(r) && |r| == |b|
    ensures forall p {:trigger At(r, p)} :: WithinBounds(p, |b|) ==> At(r, p) == Unmark(At(b, p))
  {
    seq(|b|, x requires 0 <= x < |b| => seq(|b|, y requires 0 <= y < |b| => Unmark(b[x][y])))
  }

  /** One move in `direction` on a board, traversing `size` coordinates per axis. */
  function MoveBoard(b: Board, size: nat, direction: nat): (r: MoveState)
    requires IsBoard(b) && direction < 4
    ensures IsBoard(r.board) && |r.board| == |b|
  {
    var v := Vector(direction);
    Sweep(MoveState(Prepare(b), 0, false, false, []), v, Order(size, v.x == 1), Order(size, v.y == 1))
  }

  // ---------------------------------------------------------------------------------
  // A move that moves no tile changes nothing.

  lemma PutBack(b: Board, p: Position)
    requires IsBoard(b) && WithinBounds(p, |b|)
    ensures Put(Put(b, p, Empty), p, At(b, p)) == b
  {
    var r := Put(Put(b, p, Empty), p, At(b, p));
    assert r[p.x] == b[p.x];
    assert forall x :: 0 <= x < |b| ==> r[x] == b[x];
  }

  lemma {:induction false} StepStill(st: MoveState, v: Position, cell: Position)
    requires IsBoard(st.board) && IsUnit(v)
    ensures var r := Step(st, v, cell);
      !r.moved ==> r.board == st.board && r.gained == st.gained && r.won == st.won && r.targets == st.targets && !st.moved
  {
    if WithinBounds(cell, |st.board|) && At(st.board, cell).Occupied? {
      PutBack(st.board, cell);
    }
  }

  lemma {:induction false} RowStill(st: MoveState, v: Position, x: int, ys: seq<int>)
    requires IsBoard(st.board) && IsUnit(v)
    ensures var r := Row(st, v, x, ys);
      !r.moved ==> r.board == st.board && r.gained == st.gained && r.won == st.won && r.targets == st.targets && !st.moved
  {
    if |ys| > 0 {
      RowStill(st, v, x, ys[..|ys| - 1]);
      StepStill(Row(st, v, x, ys[..|ys| - 1]), v, Position(x, ys[|ys| - 1]));
    }
  }

  lemma {:induction false} SweepStill(st: MoveState, v: Position, xs: seq<int>, ys: seq<int>)
    requires IsBoard(st.board) && IsUnit(v)
    ensures var r := Sweep(st, v, xs, ys);
      !r.moved ==> r.board == st.board && r.gained == st.gained && r.won == st.won && r.targets == st.targets && !st.moved
  {
    if |xs| > 0 {
      SweepStill(st, v, xs[..|xs| - 1], ys);
      RowStill(Sweep(st, v, xs[..|xs| - 1], ys), v, xs[|xs| - 1], ys);
    }
  }

  /** If no tile left its cell, the board is the prepared board, nothing was scored
    * and nothing merged. */
  lemma StillMoveChangesNothing(b: Board, size: nat, direction: nat)
    requires IsBoard(b) && direction < 4
    ensures var r := MoveBoard(b, size, direction);
      !r.moved ==> r.board == Prepare(b) && r.gained == 0 && !r.won && r.targets == []
  {
    var v := Vector(direction);
    SweepStill(MoveState(Prepare(b), 0, false, false, []), v, Order(size, v.x == 1), Order(size, v.y == 1));
  }

  // ---------------------------------------------------------------------------------
  // A move conserves the sum of the tile values.

  function SlotValue(s: Slot): int {
    if s.Occupied? then s.value else 0
  }

  function ColumnTotal(c: seq<Slot>): int {
    if |c| == 0 then 0 else ColumnTotal(c[..|c| - 1]) + SlotValue(c[|c| - 1])
  }

  /** The sum of the values of all tiles on the board. */
  function Total(b: Board): int {
    if |b| == 0 then 0 else Total(b[..|b| - 1]) + ColumnTotal(b[|b| - 1])
  }

  lemma {:induction false} ColumnTotalUpdate(c: seq<Slot>, j: nat, s: Slot)
    requires j < |c|
    ensures ColumnTotal(c[j := s]) == ColumnTotal(c) - SlotValue(c[j]) + SlotValue(s)
  {
    if j < |c| - 1 {
      assert c[j := s][..|c| - 1] == c[..|c| - 1][j := s];
      ColumnTotalUpdate(c[..|c| - 1], j, s);
    } else {
      assert c[j := s][..|c| - 1] == c[..|c| - 1];
    }
  }

  lemma {:induction false} TotalUpdate(b: Board, i: nat, c: seq<Slot>)
    requires i < |b|
    ensures Total(b[i := c]) == Total(b) - ColumnTotal(b[i]) + ColumnTotal(c)
  {
    if i < |b| - 1 {
      assert b[i := c][..|b| - 1] == b[..|b| - 1][i := c];
      TotalUpdate(b[..|b| - 1], i, c);
    } else {
      assert b[i := c][..|b| - 1] == b[..|b| - 1];
    }
  }

  lemma TotalPut(b: Board, p: Position, s: Slot)
    requires IsBoard(b) && WithinBounds(p, |b|)
    ensures Total(Put(b, p, s)) == Total(b) - SlotValue(At(b, p)) + SlotValue(s)
  {
    ColumnTotalUpdate(b[p.x], p.y, s);
    TotalUpdate(b, p.x, b[p.x][p.y := s]);
  }

  lemma {:induction false} ColumnTotalUnmark(c: seq<Slot>, u: seq<Slot>)
    requires |u| == |c| && forall y :: 0 <= y < |c| ==> u[y] == Unmark(c[y])
    ensures ColumnTotal(u) == ColumnTotal(c)
  {
    if |c| > 0 {
      ColumnTotalUnmark(c[..|c| - 1], u[..|u| - 1]);
    }
  }

  lemma {:induction false} TotalUnmark(b: Board, u: Board)
    requires IsBoard(b) && IsBoard(u) && |u| == |b|
    requires forall p :: WithinBounds(p, |b|) ==> At(u, p) == Unmark(At(b, p))
    ensures Total(u) == Total(b)
  {
    if |b| > 0 {
      var n := |b|;
      forall x | 0 <= x < n
        ensures ColumnTotal(u[x]) == ColumnTotal(b[x])
      {
        forall y | 0 <= y < n
          ensures u[x][y] == Unmark(b[x][y])
        {
          assert At(u, Position(x, y)) == Unmark(At(b, Position(x, y)));
        }
        ColumnTotalUnmark(b[x], u[x]);
      }
      TotalPrefixes(b, u, n);
      assert u[..n] == u && b[..n] == b;
    }
  }

  lemma {:induction false} TotalPrefixes(b: Board, u: Board, k: nat)
    requires k <= |b| == |u|
    requires forall x :: 0 <= x < k ==> ColumnTotal(u[x]) == ColumnTotal(b[x])
    ensures Total(u[..k]) == Total(b[..k])
  {
    if k > 0 {
      assert u[..k][..k - 1] == u[..k - 1];
      assert b[..k][..k - 1] == b[..k - 1];
      TotalPrefixes(b, u, k - 1);
    }
  }

  lemma MergeConservesTotal(b: Board, cell: Position, next: Position, value: int)
    requires IsBoard(b) && WithinBounds(cell, |b|) && WithinBounds(next, |b|) && cell != next
    requires At(b, cell).Occupied? && At(b, cell).value == value && At(b, next) == Occupied(value, false)
    ensures Total(Put(Put(b, next, Occupied(value * 2, true)), cell, Empty)) == Total(b)
  {
    var b1 := Put(b, next, Occupied(value * 2, true));
    TotalPut(b, next, Occupied(value * 2, true));
    TotalPut(b1, cell, Empty);
  }

  lemma SlideConservesTotal(b: Board, cell: Position, farthest: Position)
    requires IsBoard(b) && WithinBounds(cell, |b|) && WithinBounds(farthest, |b|)
    requires farthest == cell || At(b, farthest) == Empty
    ensures Total(Put(Put(b, cell, Empty), farthest, At(b, cell))) == Total(b)
  {
    var b1 := Put(b, cell, Empty);
    TotalPut(b, cell, Empty);
    TotalPut(b1, farthest, At(b, cell));
  }

  lemma StepConservesTotal(st: MoveState, v: Position, cell: Position)
    requires IsBoard(st.board) && IsUnit(v)
    ensures Total(Step(st, v, cell).board) == Total(st.board)
  {
    var b := st.board;
    if WithinBounds(cell, |b|) && At(b, cell).Occupied? {
      var value := At(b, cell).value;
      var farthest := Farthest(b, cell, v);
      var next := Ahead(farthest, v);
      NextLeaves(b, cell, v);
      if WithinBounds(next, |b|) && At(b, next) == Occupied(value, false) {
        MergeConservesTotal(b, cell, next, value);
      } else {
        SlideConservesTotal(b, cell, farthest);
      }
    }
  }

  lemma {:induction false} RowConservesTotal(st: MoveState, v: Position, x: int, ys: seq<int>)
    requires IsBoard(st.board) && IsUnit(v)
    ensures Total(Row(st, v, x, ys).board) == Total(st.board)
  {
    if |ys| > 0 {
      RowConservesTotal(st, v, x, ys[..|ys| - 1]);
      StepConservesTotal(Row(st, v, x, ys[..|ys| - 1]), v, Position(x, ys[|ys| - 1]));
    }
  }

  lemma {:induction false} SweepConservesTotal(st: MoveState, v: Position, xs: seq<int>, ys: seq<int>)
    requires IsBoard(st.board) && IsUnit(v)
    ensures Total(Sweep(st, v, xs, ys).board) == Total(st.board)
  {
    if |xs| > 0 {
      SweepConservesTotal(st, v, xs[..|xs| - 1], ys);
      RowConservesTotal(Sweep(st, v, xs[..|xs| - 1], ys), v, xs[|xs| - 1], ys);
    }
  }

  /** Sliding and merging neither create nor destroy value: two tiles of value `v`
    * become one of value `2 v`. */
  lemma MoveConservesTotal(b: Board, size: nat, direction: nat)
    requires IsBoard(b) && direction < 4
    ensures Total(MoveBoard(b, size, direction).board) == Total(b)
  {
    var v := Vector(direction);
    TotalUnmark(b, Prepare(b));
    SweepConservesTotal(MoveState(Prepare(b), 0, false, false, []), v, Order(size, v.x == 1), Order(size, v.y == 1));
  }

  // ---------------------------------------------------------------------------------
  // On a board of positive tiles the score never decreases.

  /** Every tile on the board has a positive value, as every tile a game makes does. */
  ghost predicate Positive(b: Board)
    requires IsBoard(b)
  {
    forall p :: WithinBounds(p, |b|) && At(b, p).Occupied? ==> At(b, p).value > 0
  }

  lemma StepPositive(st: MoveState, v: Position, cell: Position)
    requires IsBoard(st.board) && IsUnit(v) && Positive(st.board)
    ensures Positive(Step(st, v, cell).board) && Step(st, v, cell).gained >= st.gained
  {
  }

  lemma {:induction false} RowPositive(st: MoveState, v: Position, x: int, ys: seq<int>)
    requires IsBoard(st.board) && IsUnit(v) && Positive(st.board)
    ensures Positive(Row(st, v, x, ys).board) && Row(st, v, x, ys).gained >= st.gained
  {
    if |ys| > 0 {
      RowPositive(st, v, x, ys[..|ys| - 1]);
      StepPositive(Row(st, v, x, ys[..|ys| - 1]), v, Position(x, ys[|ys| - 1]));
    }
  }

  lemma {:induction false} SweepPositive(st: MoveState, v: Position, xs: seq<int>, ys: seq<int>)
    requires IsBoard(st.board) && IsUnit(v) && Positive(st.board)
    ensures Positive(Sweep(st, v, xs, ys).board) && Sweep(st, v, xs, ys).gained >= st.gained
  {
    if |xs| > 0 {
      SweepPositive(st, v, xs[..|xs| - 1], ys);
      RowPositive(Sweep(st, v, xs[..|xs| - 1], ys), v, xs[|xs| - 1], ys);
    }
  }

  /** A move keeps every tile positive, and then gains no negative points: merging two
    * tiles of value `v` scores `2 v > 0`. */
  lemma MoveKeepsPositive(b: Board, size: nat, direction: nat)
    requires IsBoard(b) && direction < 4 && Positive(b)
    ensures Positive(MoveBoard(b, size, direction).board) && MoveBoard(b, size, direction).gained >= 0
  {
    var v := Vector(direction);
    assert Positive(Prepare(b));
    SweepPositive(MoveState(Prepare(b), 0, false, false, []), v, Order(size, v.x == 1), Order(size, v.y == 1));
  }

  // ---------------------------------------------------------------------------------
  // A direction in which no tile has room changes nothing.

  /** Every tile's neighbour in direction `v` is off the board, or holds a tile of a
    * different value: no tile can slide or merge that way. */
  ghost predicate Frozen(b: Board, v: Position)
    requires IsBoard(b)
  {
    forall p :: WithinBounds(p, |b|) && At(b, p).Occupied? && WithinBounds(Ahead(p, v), |b|) ==>
      At(b, Ahead(p, v)).Occupied? && At(b, Ahead(p, v)).value != At(b, p).value
  }

  lemma StepFrozen(st: MoveState, v: Position, cell: Position)
    requires IsBoard(st.board) && IsUnit(v) && Frozen(st.board, v)
    ensures Step(st, v, cell) == st
  {
    var b := st.board;
    if WithinBounds(cell, |b|) && At(b, cell).Occupied? {
      assert Farthest(b, cell, v) == cell;
      PutBack(b, cell);
    }
  }

  lemma {:induction false} RowFrozen(st: MoveState, v: Position, x: int, ys: seq<int>)
    requires IsBoard(st.board) && IsUnit(v) && Frozen(st.board, v)
    ensures Row(st, v, x, ys) == st
  {
    if |ys| > 0 {
      RowFrozen(st, v, x, ys[..|ys| - 1]);
      StepFrozen(st, v, Position(x, ys[|ys| - 1]));
    }
  }

  lemma {:induction false} SweepFrozen(st: MoveState, v: Position, xs: seq<int>, ys: seq<int>)
    requires IsBoard(st.board) && IsUnit(v) && Frozen(st.board, v)
    ensures Sweep(st, v, xs, ys) == st
  {
    if |xs| > 0 {
      SweepFrozen(st, v, xs[..|xs| - 1], ys);
      RowFrozen(st, v, xs[|xs| - 1], ys);
    }
  }

  /** A move in a frozen direction moves no tile, scores nothing and only clears the
    * merge marks. */
  lemma MoveFrozen(b: Board, size: nat, direction: nat)
    requires IsBoard(b) && direction < 4 && Frozen(b, Vector(direction))
    ensures MoveBoard(b, size, direction) == MoveState(Prepare(b), 0, false, false, [])
  {
    var v := Vector(direction);
    var p := Prepare(b);
    forall c | WithinBounds(c, |p|) && At(p, c).Occupied? && WithinBounds(Ahead(c, v), |p|)
      ensures At(p, Ahead(c, v)).Occupied? && At(p, Ahead(c, v)).value != At(p, c).value
    {
      assert At(b, c).Occupied?;
    }
    SweepFrozen(MoveState(p, 0, false, false, []), v, Order(size, v.x == 1), Order(size, v.y == 1));
  }

  // ---------------------------------------------------------------------------------
  // A move in a direction that is not frozen moves some tile.

  /** On a board of unmarked tiles, the tile at `p` can go one step along `v`: the
    * cell ahead is on the board and empty, or holds an unmerged tile of its value. */
  ghost predicate Thawed(b: Board, v: Position, p: Position)
    requires IsBoard(b)
  {
    && WithinBounds(p, |b|) && At(b, p).Occupied? && WithinBounds(Ahead(p, v), |b|)
    && (At(b, Ahead(p, v)) == Empty || At(b, Ahead(p, v)) == Occupied(At(b, p).value, false))
  }

  /** The step of a tile that can go moves it, by a slide or by a merge. */
  lemma StepThawed(st: MoveState, v: Position, cell: Position)
    requires IsBoard(st.board) && IsUnit(v) && Thawed(st.board, v, cell)
    ensures Step(st, v, cell).moved
  {
    var b := st.board;
    var q := Ahead(cell, v);
    if At(b, q) == Empty {
      assert Farthest(b, cell, v) == Farthest(b, q, v);
    } else {
      assert Farthest(b, cell, v) == cell;
    }
  }

  lemma StepKeepsMoved(st: MoveState, v: Position, cell: Position)
    requires IsBoard(st.board) && IsUnit(v) && st.moved
    ensures Step(st, v, cell).moved
  {
  }

  lemma {:induction false} RowKeepsMoved(st: MoveState, v: Position, x: int, ys: seq<int>)
    requires IsBoard(st.board) && IsUnit(v) && st.moved
    ensures Row(st, v, x, ys).moved
  {
    if |ys| > 0 {
      RowKeepsMoved(st, v, x, ys[..|ys| - 1]);
      StepKeepsMoved(Row(st, v, x, ys[..|ys| - 1]), v, Position(x, ys[|ys| - 1]));
    }
  }

  /** A column whose traversal reaches a tile that can go moves some tile. */
  lemma {:induction false} RowReaches(st: MoveState, v: Position, x: int, ys: seq<int>, y: int)
    requires IsBoard(st.board) && IsUnit(v) && y in ys && Thawed(st.board, v, Position(x, y))
    ensures Row(st, v, x, ys).moved
  {
    var init := ys[..|ys| - 1];
    var last := Position(x, ys[|ys| - 1]);
    var m := Row(st, v, x, init);
    assert ys == init + [ys[|ys| - 1]];
    if y in init {
      RowReaches(st, v, x, init, y);
      StepKeepsMoved(m, v, last);
    } else if m.moved {
      StepKeepsMoved(m, v, last);
    } else {
      RowStill(st, v, x, init);
      StepThawed(m, v, last);
    }
  }

  /** A sweep whose traversal reaches a tile that can go moves some tile. */
  lemma {:induction false} SweepReaches(st: MoveState, v: Position, xs: seq<int>, ys: seq<int>, p: Position)
    requires IsBoard(st.board) && IsUnit(v) && p.x in xs && p.y in ys && Thawed(st.board, v, p)
    ensures Sweep(st, v, xs, ys).moved
  {
    var init := xs[..|xs| - 1];
    var m := Sweep(st, v, init, ys);
    assert xs == init + [xs[|xs| - 1]];
    if p.x in init {
      SweepReaches(st, v, init, ys, p);
      RowKeepsMoved(m, v, xs[|xs| - 1], ys);
    } else if m.moved {
      RowKeepsMoved(m, v, xs[|xs| - 1], ys);
    } else {
      SweepStill(st, v, init, ys);
      RowReaches(m, v, p.x, ys, p.y);
    }
  }

  /** A move over the whole board moves some tile exactly when its direction is not
    * frozen: some tile has an empty neighbour, or one of its own value, that way. */
  lemma MovedIffThawed(b: Board, direction: nat)
    requires IsBoard(b) && direction < 4
    ensures MoveBoard(b, |b|, direction).moved <==> !Frozen(b, Vector(direction))
  {
    var v := Vector(direction);
    if Frozen(b, v) {
      MoveFrozen(b, |b|, direction);
    } else {
      var p :| WithinBounds(p, |b|) && At(b, p).Occupied? && WithinBounds(Ahead(p, v), |b|) &&
        !(At(b, Ahead(p, v)).Occupied? && At(b, Ahead(p, v)).value != At(b, p).value);
      var pb := Prepare(b);
      assert Thawed(pb, v, p);
      OrderIsPermutation(|b|, v.x == 1);
      OrderIsPermutation(|b|, v.y == 1);
      SweepReaches(MoveState(pb, 0, false, false, []), v, Order(|b|, v.x == 1), Order(|b|, v.y == 1), p);
    }
  }

  // ---------------------------------------------------------------------------------
  // Each cell receives at most one merge; the score gain is the sum of the merged tiles.

  /** The sum of the values found at the cells `ts`. */
  function SumAt(b: Board, ts: seq<Position>): int
    requires IsBoard(b) && forall k :: 0 <= k < |ts| ==> WithinBounds(ts[k], |b|)
  {
    if |ts| == 0 then 0 else SumAt(b, ts[..|ts| - 1]) + SlotValue(At(b, ts[|ts| - 1]))
  }

  /** Some cell of `ts` holds a tile of value `value`. */
  predicate HasValueAt(b: Board, ts: seq<Position>, value: int)
    requires IsBoard(b) && forall k :: 0 <= k < |ts| ==> WithinBounds(ts[k], |b|)
  {
    exists k :: 0 <= k < |ts| && SlotValue(At(b, ts[k])) == value
  }

  predicate IsMergedAt(b: Board, p: Position)
    requires IsBoard(b) && WithinBounds(p, |b|)
  {
    At(b, p).Occupied? && At(b, p).merged
  }

  /** `p` comes before the cell at index `(i, j)` of the traversal. */
  predicate Visited(p: Position, n: int, v: Position, i: int, j: int) {
    var rx := Rank(p.x, n, v.x == 1);
    var ry := Rank(p.y, n, v.y == 1);
    rx < i || (rx == i && ry < j)
  }

  /** What holds after the traversal has handled every cell before index `(i, j)`. */
  ghost predicate MergeInv(st: MoveState, n: nat, v: Position, i: int, j: int) {
    && IsBoard(st.board) && |st.board| == n
    && (forall k :: 0 <= k < |st.targets| ==> WithinBounds(st.targets[k], n))
    && (forall p :: WithinBounds(p, n) && IsMergedAt(st.board, p) ==> Visited(p, n, v, i, j) && p in st.targets)
    && (forall k :: 0 <= k < |st.targets| ==> IsMergedAt(st.board, st.targets[k]))
    && (forall k, l :: 0 <= k < l < |st.targets| ==> st.targets[k] != st.targets[l])
    && st.gained == SumAt(st.board, st.targets)
    && (st.won <==> HasValueAt(st.board, st.targets, 2048))
  }

  lemma {:induction false} SumAtFrame(b: Board, b': Board, ts: seq<Position>)
    requires IsBoard(b) && IsBoard(b') && |b| == |b'|
    requires forall k :: 0 <= k < |ts| ==> WithinBounds(ts[k], |b|) && At(b', ts[k]) == At(b, ts[k])
    ensures SumAt(b', ts) == SumAt(b, ts)
    ensures HasValueAt(b', ts, 2048) == HasValueAt(b, ts, 2048)
  {
    if |ts| > 0 {
      SumAtFrame(b, b', ts[..|ts| - 1]);
    }
  }

  lemma SumAtAppend(b: Board, ts: seq<Position>, t: Position)
    requires IsBoard(b) && WithinBounds(t, |b|) && forall k :: 0 <= k < |ts| ==> WithinBounds(ts[k], |b|)
    ensures SumAt(b, ts + [t]) == SumAt(b, ts) + SlotValue(At(b, t))
    ensures HasValueAt(b, ts + [t], 2048) <==> HasValueAt(b, ts, 2048) || SlotValue(At(b, t)) == 2048
  {
    assert (ts + [t])[..|ts|] == ts;
    if HasValueAt(b, ts, 2048) {
      var k :| 0 <= k < |ts| && SlotValue(At(b, ts[k])) == 2048;
      assert (ts + [t])[k] == ts[k];
    }
    if HasValueAt(b, ts + [t], 2048) {
      var k :| 0 <= k < |ts| + 1 && SlotValue(At(b, (ts + [t])[k])) == 2048;
      if k < |ts| {
        assert (ts + [t])[k] == ts[k];
      }
    }
  }

  /** The cells in front of the current cell, in the direction of the move, come
    * earlier in the traversal. */
  lemma AheadIsVisited(n: nat, v: Position, i: int, j: int, cell: Position, r: int)
    requires IsUnit(v) && r >= 1
    requires Rank(cell.x, n, v.x == 1) == i && Rank(cell.y, n, v.y == 1) == j
    requires WithinBounds(Offset(cell, v, r), n)
    ensures Visited(Offset(cell, v, r), n, v, i, j)
  {
  }

  lemma MergeKeepsInv(st: MoveState, n: nat, v: Position, i: int, j: int, cell: Position, next: Position, value: int)
    requires IsUnit(v) && MergeInv(st, n, v, i, j)
    requires WithinBounds(cell, n) && WithinBounds(next, n) && cell != next
    requires !Visited(cell, n, v, i, j) && Visited(next, n, v, i, j)
    requires At(st.board, cell).Occupied? && At(st.board, cell).value == value
    requires At(st.board, next) == Occupied(value, false)
    ensures MergeInv(MoveState(Put(Put(st.board, next, Occupied(value * 2, true)), cell, Empty),
                               st.gained + value * 2, st.won || value * 2 == 2048, true, st.targets + [next]),
                     n, v, i, j + 1)
  {
    var b := st.board;
    var b' := Put(Put(b, next, Occupied(value * 2, true)), cell, Empty);
    var ts := st.targets;
    var ts' := ts + [next];
    assert !IsMergedAt(b, cell);
    TargetsUntouched(b, ts, cell, next, Occupied(value * 2, true), Empty);
    SumAtFrame(b, b', ts);
    SumAtAppend(b', ts, next);
    assert next !in ts;
    forall k | 0 <= k < |ts'|
      ensures WithinBounds(ts'[k], n) && IsMergedAt(b', ts'[k])
    {
      if k < |ts| {
        assert ts'[k] == ts[k];
      }
    }
    forall k, l | 0 <= k < l < |ts'|
      ensures ts'[k] != ts'[l]
    {
      if l < |ts| {
        assert ts'[k] == ts[k] && ts'[l] == ts[l];
      } else {
        assert ts'[k] == ts[k];
      }
    }
    forall p | WithinBounds(p, n) && IsMergedAt(b', p)
      ensures Visited(p, n, v, i, j + 1) && p in ts'
    {
      if p != next {
        assert p != cell;
        assert At(b', p) == At(b, p);
      }
    }
  }

  /** Writing two cells that hold no merged tile leaves every merge cell as it was. */
  lemma TargetsUntouched(b: Board, ts: seq<Position>, p1: Position, p2: Position, s2: Slot, s1: Slot)
    requires IsBoard(b) && WithinBounds(p1, |b|) && WithinBounds(p2, |b|)
    requires forall k :: 0 <= k < |ts| ==> WithinBounds(ts[k], |b|) && IsMergedAt(b, ts[k])
    requires !IsMergedAt(b, p1) && !IsMergedAt(b, p2)
    ensures forall k :: 0 <= k < |ts| ==> At(Put(Put(b, p2, s2), p1, s1), ts[k]) == At(b, ts[k])
  {
    var b' := Put(Put(b, p2, s2), p1, s1);
    forall k | 0 <= k < |ts|
      ensures At(b', ts[k]) == At(b, ts[k])
    {
      assert ts[k] != p1 && ts[k] != p2;
    }
  }

  lemma SlideKeepsInv(st: MoveState, n: nat, v: Position, i: int, j: int, cell: Position, farthest: Position)
    requires IsUnit(v) && MergeInv(st, n, v, i, j)
    requires WithinBounds(cell, n) && WithinBounds(farthest, n)
    requires !Visited(cell, n, v, i, j)
    requires At(st.board, cell).Occupied?
    requires farthest == cell || At(st.board, farthest) == Empty
    ensures !At(st.board, cell).merged
    ensures MergeInv(MoveState(Put(Put(st.board, cell, Empty), farthest, At(st.board, cell)),
                               st.gained, st.won, st.moved || farthest != cell, st.targets),
                     n, v, i, j + 1)
  {
    var b := st.board;
    var b' := Put(Put(b, cell, Empty), farthest, At(b, cell));
    var ts := st.targets;
    TargetsUntouched(b, ts, farthest, cell, Empty, At(b, cell));
    SumAtFrame(b, b', ts);
    forall p | WithinBounds(p, n) && IsMergedAt(b', p)
      ensures Visited(p, n, v, i, j + 1) && p in ts
    {
    }
  }

  lemma StepKeepsInv(st: MoveState, n: nat, v: Position, i: int, j: int)
    requires IsUnit(v) && 0 <= i < n && 0 <= j < n && MergeInv(st, n, v, i, j)
    ensures MergeInv(Step(st, v, Position(Order(n, v.x == 1)[i], Order(n, v.y == 1)[j])), n, v, i, j + 1)
  {
    var cell := Position(Order(n, v.x == 1)[i], Order(n, v.y == 1)[j]);
    assert Rank(cell.x, n, v.x == 1) == i && Rank(cell.y, n, v.y == 1) == j;
    CellKeepsInv(st, n, v, i, j, cell);
  }

  lemma CellKeepsInv(st: MoveState, n: nat, v: Position, i: int, j: int, cell: Position)
    requires IsUnit(v) && MergeInv(st, n, v, i, j) && WithinBounds(cell, n)
    requires Rank(cell.x, n, v.x == 1) == i && Rank(cell.y, n, v.y == 1) == j
    ensures MergeInv(Step(st, v, cell), n, v, i, j + 1)
  {
    var b := st.board;
    if At(b, cell).Occupied? {
      var next := Ahead(Farthest(b, cell, v), v);
      if WithinBounds(next, n) && At(b, next) == Occupied(At(b, cell).value, false) {
        CellMerges(st, n, v, i, j, cell);
      } else {
        CellSlides(st, n, v, i, j, cell);
      }
    } else {
      assert Step(st, v, cell) == st;
    }
  }

  lemma CellMerges(st: MoveState, n: nat, v: Position, i: int, j: int, cell: Position)
    requires IsUnit(v) && MergeInv(st, n, v, i, j) && WithinBounds(cell, n)
    requires Rank(cell.x, n, v.x == 1) == i && Rank(cell.y, n, v.y == 1) == j
    requires At(st.board, cell).Occupied?
    requires var next := Ahead(Farthest(st.board, cell, v), v);
      WithinBounds(next, n) && At(st.board, next) == Occupied(At(st.board, cell).value, false)
    ensures MergeInv(Step(st, v, cell), n, v, i, j + 1)
  {
    var b := st.board;
    var next := Ahead(Farthest(b, cell, v), v);
    FarthestIsReach(b, cell, v);
    AheadIsVisited(n, v, i, j, cell, Reach(b, cell, v) + 1);
    MergeKeepsInv(st, n, v, i, j, cell, next, At(b, cell).value);
    StepMerges(st, v, cell);
  }

  lemma CellSlides(st: MoveState, n: nat, v: Position, i: int, j: int, cell: Position)
    requires IsUnit(v) && MergeInv(st, n, v, i, j) && WithinBounds(cell, n)
    requires Rank(cell.x, n, v.x == 1) == i && Rank(cell.y, n, v.y == 1) == j
    requires At(st.board, cell).Occupied?
    requires var next := Ahead(Farthest(st.board, cell, v), v);
      !(WithinBounds(next, n) && At(st.board, next) == Occupied(At(st.board, cell).value, false))
    ensures MergeInv(Step(st, v, cell), n, v, i, j + 1)
  {
    var b := st.board;
    SlideKeepsInv(st, n, v, i, j, cell, Farthest(b, cell, v));
    StepSlides(st, v, cell);
  }

  /** `Step` on a tile that merges into the tile at `next`. */
  lemma StepMerges(st: MoveState, v: Position, cell: Position)
    requires IsBoard(st.board) && IsUnit(v) && WithinBounds(cell, |st.board|) && At(st.board, cell).Occupied?
    requires var next := Ahead(Farthest(st.board, cell, v), v);
      WithinBounds(next, |st.board|) && At(st.board, next) == Occupied(At(st.board, cell).value, false)
    ensures var value := At(st.board, cell).value;
      var next := Ahead(Farthest(st.board, cell, v), v);
      Step(st, v, cell) == MoveState(Put(Put(st.board, next, Occupied(value * 2, true)), cell, Empty),
                                     st.gained + value * 2, st.won || value * 2 == 2048, true, st.targets + [next])
  {
  }

  /** `Step` on a tile that slides to `farthest`. */
  lemma StepSlides(st: MoveState, v: Position, cell: Position)
    requires IsBoard(st.board) && IsUnit(v) && WithinBounds(cell, |st.board|) && At(st.board, cell).Occupied?
    requires var next := Ahead(Farthest(st.board, cell, v), v);
      !(WithinBounds(next, |st.board|) && At(st.board, next) == Occupied(At(st.board, cell).value, false))
    ensures var farthest := Farthest(st.board, cell, v);
      Step(st, v, cell) == MoveState(Put(Put(st.board, cell, Empty), farthest, At(st.board, cell)),
                                     st.gained, st.won, st.moved || farthest != cell, st.targets)
  {
  }

  lemma NextColumn(st: MoveState, n: nat, v: Position, i: int)
    requires MergeInv(st, n, v, i, n)
    ensures MergeInv(st, n, v, i + 1, 0)
  {
  }

  lemma {:induction false} RowKeepsInv(st: MoveState, n: nat, v: Position, i: int, j: nat)
    requires IsUnit(v) && 0 <= i < n && j <= n && MergeInv(st, n, v, i, 0)
    ensures MergeInv(Row(st, v, Order(n, v.x == 1)[i], Order(n, v.y == 1)[..j]), n, v, i, j)
  {
    var ys := Order(n, v.y == 1);
    if j > 0 {
      assert ys[..j][..j - 1] == ys[..j - 1];
      RowKeepsInv(st, n, v, i, j - 1);
      StepKeepsInv(Row(st, v, Order(n, v.x == 1)[i], ys[..j - 1]), n, v, i, j - 1);
    }
  }

  lemma {:induction false} SweepKeepsInv(st: MoveState, n: nat, v: Position, i: nat)
    requires IsUnit(v) && i <= n && MergeInv(st, n, v, 0, 0)
    ensures MergeInv(Sweep(st, v, Order(n, v.x == 1)[..i], Order(n, v.y == 1)), n, v, i, 0)
  {
    var xs := Order(n, v.x == 1);
    var ys := Order(n, v.y == 1);
    if i > 0 {
      assert xs[..i][..i - 1] == xs[..i - 1];
      SweepKeepsInv(st, n, v, i - 1);
      var mid := Sweep(st, v, xs[..i - 1], ys);
      RowKeepsInv(mid, n, v, i - 1, n);
      assert ys[..n] == ys;
      NextColumn(Row(mid, v, xs[i - 1], ys), n, v, i - 1);
    }
  }

  /** A move on a board of the traversal's size: the merge cells are distinct and each
    * holds a tile made by a merge; every merged tile sits on one of them; the points
    * gained are the sum of their values; and the win flag is raised exactly when one of
    * them holds 2048. */
  lemma MoveMergesOnce(b: Board, direction: nat)
    requires IsBoard(b) && direction < 4
    ensures var r := MoveBoard(b, |b|, direction);
      && (forall k :: 0 <= k < |r.targets| ==> WithinBounds(r.targets[k], |b|) && IsMergedAt(r.board, r.targets[k]))
      && (forall k, l :: 0 <= k < l < |r.targets| ==> r.targets[k] != r.targets[l])
      && (forall p :: WithinBounds(p, |b|) && IsMergedAt(r.board, p) ==> p in r.targets)
      && r.gained == SumAt(r.board, r.targets)
      && (r.won <==> HasValueAt(r.board, r.targets, 2048))
  {
    var n := |b|;
    var v := Vector(direction);
    var init := MoveState(Prepare(b), 0, false, false, []);
    var xs := Order(n, v.x == 1);
    SweepKeepsInv(init, n, v, n);
    assert xs[..n] == xs;
  }
}
