// The Game of Life step of initWebgl.ts: a flat array of 0/1 cells, cell (x, y) at
// index x + y * numCellsX, neighbours taken with wrap-around at every edge. The WebGL
// drawing around it is not part of this model.

module LifeToroidal {

  /** The index of cell (x, y). */
  function Index(x: int, y: int, width: nat): int {
    x + y * width
  }

  /** The eight neighbour offsets in the order of the two `for` loops, `dx` outer and
    * `dy` inner, (0, 0) skipped. */
  const Offsets: seq<(int, int)> := [(-1, -1), (-1, 0), (-1, 1), (0, -1), (0, 1), (1, -1), (1, 0), (1, 1)]

  /** The number of offsets the loops have pushed before reaching (dx, dy). */
  function Done(dx: int, dy: int): nat
    requires -1 <= dx <= 2 && -1 <= dy <= 2
  {
    var k := 3 * (dx + 1) + (dy + 1);
    if dx > 0 || (dx == 0 && dy > 0) then k - 1 else k
  }

  /** The neighbour indices of (x, y) on a `width` by `height` torus. */
  function Neighbors(x: nat, y: nat, width: nat, height: nat): (r: seq<int>)
    requires width > 0 && height > 0
    ensures |r| == 8
  {
    seq(8, k requires 0 <= k < 8 =>
      Index((x + Offsets[k].0 + width) % width, (y + Offsets[k].1 + height) % height, width))
  }

  /** The quotient and remainder of a division are the only split with the remainder
    * in range. */
  lemma DivModUnique(a: int, n: nat, q: int, r: int)
    requires n > 0 && a == q * n + r && 0 <= r < n
    ensures a / n == q && a % n == r
  {
    var q' := a / n;
    var r' := a % n;
    assert (q - q') * n == r' - r;
    if q - q' >= 1 {
      MulAtLeast(q - q', n);
    } else if q - q' <= -1 {
      assert (q' - q) * n == r - r';
      MulAtLeast(q' - q, n);
    }
  }

  lemma MulAtLeast(a: int, b: nat)
    requires a >= 1
    ensures a * b >= b
  {
  }

  /** Cell (x, y) sits at one index: its column and row are the remainder and quotient. */
  lemma IndexParts(x: int, y: int, width: nat)
    requires 0 <= x < width && 0 <= y
    ensures Index(x, y, width) % width == x && Index(x, y, width) / width == y
  {
    DivModUnique(Index(x, y, width), width, y, x);
  }

  /** One step of at most 1 on a ring of `n` cells, written as `(x + d + n) % n`. */
  lemma WrapStep(x: int, d: int, n: nat)
    requires 0 <= x < n && -1 <= d <= 1
    ensures (x + d + n) % n == if x + d < 0 then x + d + n else if x + d >= n then x + d - n else x + d
  {
    if x + d < 0 {
      DivModUnique(x + d + n, n, 0, x + d + n);
    } else if x + d >= n {
      DivModUnique(x + d + n, n, 2, x + d - n);
    } else {
      DivModUnique(x + d + n, n, 1, x + d);
    }
  }

  /** On a ring of at least 3 cells, the steps -1, 0 and +1 reach three different cells. */
  lemma WrapInjective(x: int, d: int, e: int, n: nat)
    requires 0 <= x < n && n >= 3 && -1 <= d <= 1 && -1 <= e <= 1
    requires (x + d + n) % n == (x + e + n) % n
    ensures d == e
  {
    WrapStep(x, d, n);
    WrapStep(x, e, n);
  }

  /** Every neighbour index lies in the array, and on a torus of at least 3 by 3 cells
    * the eight neighbours are distinct cells, none of them the cell itself. */
  lemma NeighborsInside(x: nat, y: nat, width: nat, height: nat)
    requires x < width && y < height
    ensures forall k :: 0 <= k < 8 ==> 0 <= Neighbors(x, y, width, height)[k] < width * height
    ensures width >= 3 && height >= 3 ==>
      && (forall k :: 0 <= k < 8 ==> Neighbors(x, y, width, height)[k] != Index(x, y, width))
      && (forall k, l :: 0 <= k < l < 8 ==> Neighbors(x, y, width, height)[k] != Neighbors(x, y, width, height)[l])
  {
    var ns := Neighbors(x, y, width, height);
    forall k | 0 <= k < 8
      ensures 0 <= ns[k] < width * height
    {
      InsideGrid((x + Offsets[k].0 + width) % width, (y + Offsets[k].1 + height) % height, width, height);
    }
    if width >= 3 && height >= 3 {
      forall k, l | 0 <= k < 8 && 0 <= l < 8 && k != l
        ensures ns[k] != ns[l]
      {
        NeighborsApart(x, y, width, height, Offsets[k], Offsets[l]);
      }
      forall k | 0 <= k < 8
        ensures ns[k] != Index(x, y, width)
      {
        NeighborsApart(x, y, width, height, Offsets[k], (0, 0));
        assert (x + 0 + width) % width == x by { WrapStep(x, 0, width); }
        assert (y + 0 + height) % height == y by { WrapStep(y, 0, height); }
      }
    }
  }

  /** Two different offsets lead to two different cells on a torus of at least 3 by 3. */
  lemma NeighborsApart(x: nat, y: nat, width: nat, height: nat, o: (int, int), p: (int, int))
    requires x < width && y < height && width >= 3 && height >= 3
    requires -1 <= o.0 <= 1 && -1 <= o.1 <= 1 && -1 <= p.0 <= 1 && -1 <= p.1 <= 1 && o != p
    ensures Index((x + o.0 + width) % width, (y + o.1 + height) % height, width) !=
            Index((x + p.0 + width) % width, (y + p.1 + height) % height, width)
  {
    var nx, ny := (x + o.0 + width) % width, (y + o.1 + height) % height;
    var mx, my := (x + p.0 + width) % width, (y + p.1 + height) % height;
    IndexParts(nx, ny, width);
    IndexParts(mx, my, width);
    if nx == mx {
      WrapInjective(x, o.0, p.0, width);
    }
    if ny == my {
      WrapInjective(y, o.1, p.1, height);
    }
  }

  lemma InsideGrid(x: int, y: int, width: nat, height: nat)
    requires 0 <= x < width && 0 <= y < height
    ensures 0 <= Index(x, y, width) < width * height
  {
    assert Index(x, y, width) <= (width - 1) + (height - 1) * width;
  }

  /** `neighbors.reduce((acc, i) => acc + cells[i], 0)`. */
  function SumAt(cells: seq<int>, ns: seq<int>): int
    requires forall k :: 0 <= k < |ns| ==> 0 <= ns[k] < |cells|
  {
    if ns == [] then 0 else SumAt(cells, ns[..|ns| - 1]) + cells[ns[|ns| - 1]]
  }

  /** The number of live neighbours lies in 0..8 when every cell is 0 or 1. */
  lemma {:induction false} SumAtBounds(cells: seq<int>, ns: seq<int>)
    requires forall k :: 0 <= k < |ns| ==> 0 <= ns[k] < |cells|
    requires forall i :: 0 <= i < |cells| ==> cells[i] == 0 || cells[i] == 1
    ensures 0 <= SumAt(cells, ns) <= |ns|
  {
    if ns != [] {
      SumAtBounds(cells, ns[..|ns| - 1]);
    }
  }

  /** The rule of `update`: a live cell (1) survives with 2 or 3 live neighbours, any other
    * cell is born with exactly 3. */
  function Rule(cell: int, alive: int): (r: int)
    ensures r == 0 || r == 1
    ensures cell == 1 ==> (r == 1 <==> alive == 2 || alive == 3)
    ensures cell != 1 ==> (r == 1 <==> alive == 3)
  {
    if cell == 1 then (if alive == 2 || alive == 3 then 1 else 0)
    else if alive == 3 then 1 else 0
  }

  /** The next generation of the whole board, every cell computed from the old board. */
  function Step(cells: seq<int>, width: nat, height: nat): (r: seq<int>)
    requires |cells| == width * height
    ensures |r| == |cells|
  {
    seq(|cells|, i requires 0 <= i < |cells| =>
      var x, y := i % width, i / width;
      assert 0 <= y < height by { CellOfIndex(i, width, height); }
      NeighborsInside(x, y, width, height);
      Rule(cells[i], SumAt(cells, Neighbors(x, y, width, height))))
  }

  lemma CellOfIndex(i: int, width: nat, height: nat)
    requires 0 <= i < width * height
    ensures width > 0 && 0 <= i % width < width && 0 <= i / width < height
    ensures Index(i % width, i / width, width) == i
  {
    if i / width >= height {
      MulMono(height, i / width, width);
    }
  }

  /** Whether the `update` loops, at column `x` and row `y`, have already visited the
    * cell at index `i`: its column is before `x`, or it is column `x` above row `y`. */
  ghost predicate Processed(i: int, x: int, y: int, width: nat) {
    width > 0 && (i % width < x || (i % width == x && i / width < y))
  }

  /** Visiting cell (x, y) adds exactly its index to the visited cells. */
  lemma ProcessedNext(i: int, x: nat, y: nat, width: nat, height: nat)
    requires 0 <= i < width * height && x < width && y < height
    ensures Processed(i, x, y + 1, width) <==> Processed(i, x, y, width) || i == Index(x, y, width)
  {
    CellOfIndex(i, width, height);
    IndexParts(x, y, width);
  }

  lemma MulMono(a: nat, b: nat, c: nat)
    requires a <= b
    ensures a * c <= b * c
  {
  }

  /** A board without a live cell stays without one. */
  lemma DeadStaysDead(cells: seq<int>, width: nat, height: nat)
    requires |cells| == width * height && forall i :: 0 <= i < |cells| ==> cells[i] == 0
    ensures forall i :: 0 <= i < |cells| ==> Step(cells, width, height)[i] == 0
  {
    forall i | 0 <= i < |cells|
      ensures Step(cells, width, height)[i] == 0
    {
      CellOfIndex(i, width, height);
      var ns := Neighbors(i % width, i / width, width, height);
      NeighborsInside(i % width, i / width, width, height);
      SumAtZero(cells, ns);
    }
  }

  lemma {:induction false} SumAtZero(cells: seq<int>, ns: seq<int>)
    requires forall k :: 0 <= k < |ns| ==> 0 <= ns[k] < |cells|
    requires forall i :: 0 <= i < |cells| ==> cells[i] == 0
    ensures SumAt(cells, ns) == 0
  {
    if ns != [] {
      SumAtZero(cells, ns[..|ns| - 1]);
    }
  }

  /** The board of `initWebgl`: `numCellsX` columns, `numCellsY` rows. */
  class ToroidalLife {
    const numCellsX: nat
    const numCellsY: nat
    const cells: array<int>

    ghost predicate Valid()
      reads this
    {
      cells.Length == numCellsX * numCellsY
    }

    /** The initial board: each cell is alive when its draw of `Math.random()` is below 0.3.
      * `numCellsY` is the rounded height-to-width ratio times 100, taken as given. */
    constructor (numCellsY: nat, draws: seq<real>)
      requires |draws| == 100 * numCellsY
      ensures Valid() && numCellsX == 100 && this.numCellsY == numCellsY && fresh(cells)
      ensures forall i :: 0 <= i < cells.Length ==> cells[i] == if draws[i] < 0.3 then 1 else 0
    {
      numCellsX := 100;
      this.numCellsY := numCellsY;
      cells := new int[|draws|](i requires 0 <= i < |draws| => if draws[i] < 0.3 then 1 else 0);
    }

    /** `getNeighbors(x, y)`. */
    method GetNeighbors(x: nat, y: nat) returns (neighbors: seq<int>)
      requires x < numCellsX && y < numCellsY
      ensures neighbors == Neighbors(x, y, numCellsX, numCellsY)
    {
      var all := Neighbors(x, y, numCellsX, numCellsY);
      neighbors := [];
      for dx := -1 to 2
        invariant neighbors == all[..Done(dx, -1)]
      {
        for dy := -1 to 2
          invariant neighbors == all[..Done(dx, dy)]
        {
          if dx == 0 && dy == 0 {
            continue;
          }
          assert Offsets[Done(dx, dy)] == (dx, dy);
          var nx := (x + dx + numCellsX) % numCellsX;
          var ny := (y + dy + numCellsY) % numCellsY;
          neighbors := neighbors + [nx + ny * numCellsX];
          assert all[..Done(dx, dy + 1)] == all[..Done(dx, dy)] + [all[Done(dx, dy)]];
        }
      }
      assert Done(2 - 1, 2) == 8;
    }

    /** `update()`: every new cell is computed from the old board into a copy, which then
      * replaces the board's contents. */
    method Update()
      requires Valid()
      modifies cells
      ensures cells[..] == Step(old(cells[..]), numCellsX, numCellsY)
    {
      ghost var before := cells[..];
      ghost var next := Step(before, numCellsX, numCellsY);
      var newCells := new int[cells.Length](i requires 0 <= i < cells.Length reads cells => cells[i]);
      forall i | 0 <= i < newCells.Length
        ensures !Processed(i, 0, 0, numCellsX)
      {
        CellOfIndex(i, numCellsX, numCellsY);
      }
      for x := 0 to numCellsX
        invariant cells[..] == before
        invariant forall i :: 0 <= i < newCells.Length ==>
          newCells[i] == if Processed(i, x, 0, numCellsX) then next[i] else before[i]
      {
        for y := 0 to numCellsY
          invariant cells[..] == before
          invariant forall i :: 0 <= i < newCells.Length ==>
            newCells[i] == if Processed(i, x, y, numCellsX) then next[i] else before[i]
        {
          var index := x + y * numCellsX;
          CellStep(x, y);
          var neighbors := GetNeighbors(x, y);
          var aliveNeighbors := SumNeighbors(neighbors);
          assert next[index] == Rule(cells[index], aliveNeighbors);
          ghost var prev := newCells[..];
          if cells[index] == 1 {
            newCells[index] := if aliveNeighbors == 2 || aliveNeighbors == 3 then 1 else 0;
          } else {
            newCells[index] := if aliveNeighbors == 3 then 1 else 0;
          }
          forall i | 0 <= i < newCells.Length
            ensures newCells[i] == if Processed(i, x, y + 1, numCellsX) then next[i] else before[i]
          {
            ProcessedNext(i, x, y, numCellsX, numCellsY);
            if i != index {
              assert newCells[i] == prev[i];
            }
          }
        }
        forall i | 0 <= i < newCells.Length
          ensures Processed(i, x, numCellsY, numCellsX) == Processed(i, x + 1, 0, numCellsX)
        {
          CellOfIndex(i, numCellsX, numCellsY);
        }
      }
      forall i | 0 <= i < cells.Length {
        cells[i] := newCells[i];
      }
      forall i | 0 <= i < cells.Length
        ensures cells[i] == next[i]
      {
        CellOfIndex(i, numCellsX, numCellsY);
      }
    }

    /** What the loop body of `update` needs about cell (x, y): its index is in the array,
      * no other cell shares it, its neighbours are in the array, and its next state is
      * the rule applied to them. */
    lemma CellStep(x: nat, y: nat)
      requires Valid() && x < numCellsX && y < numCellsY
      ensures 0 <= Index(x, y, numCellsX) < cells.Length
      ensures forall k :: 0 <= k < 8 ==> 0 <= Neighbors(x, y, numCellsX, numCellsY)[k] < cells.Length
      ensures forall c: seq<int> {:trigger Step(c, numCellsX, numCellsY)} :: |c| == cells.Length ==>
        Step(c, numCellsX, numCellsY)[Index(x, y, numCellsX)] ==
          Rule(c[Index(x, y, numCellsX)], SumAt(c, Neighbors(x, y, numCellsX, numCellsY)))
    {
      IndexParts(x, y, numCellsX);
      InsideGrid(x, y, numCellsX, numCellsY);
      NeighborsInside(x, y, numCellsX, numCellsY);
    }

    /** `neighbors.reduce((acc, i) => acc + cells[i], 0)`. */
    method SumNeighbors(neighbors: seq<int>) returns (acc: int)
      requires forall k :: 0 <= k < |neighbors| ==> 0 <= neighbors[k] < cells.Length
      ensures acc == SumAt(cells[..], neighbors)
    {
      acc := 0;
      for k := 0 to |neighbors|
        invariant acc == SumAt(cells[..], neighbors[..k])
      {
        assert neighbors[..k + 1][..k] == neighbors[..k];
        acc := acc + cells[neighbors[k]];
      }
      assert neighbors[..|neighbors|] == neighbors;
    }
  }
}
