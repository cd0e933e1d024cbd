// archived/wasm/sudoku/sudoku.c, the solving half: `revise_domains`, `AC3`,
// `get_new_domains`, `backtracking_search`, `solved_domains_to_s` and `solve`. The
// domains of the 81 cells live in a `Domains` object that `revise_domains` and `AC3`
// change in place; a domain's linked list is a sequence of digit characters.

module SudokuSolver {
  import opened Common
  import opened Strings
  import opened SudokuC

  type Domain = seq<char>

  /** Some value of `d` differs from `v`, so `v` can stay in a domain constrained by `d`. */
  predicate Supported(v: char, d: Domain) {
    exists w :: w in d && w != v
  }

  /** A domain one value longer supports `v` when the shorter one did or the new value
    * differs from `v`. */
  lemma SupportedSnoc(v: char, d: Domain, w: char)
    ensures Supported(v, d + [w]) <==> Supported(v, d) || w != v
  {
    if Supported(v, d + [w]) && w == v {
      var u :| u in d + [w] && u != v;
      assert u in d;
    }
    if w != v {
      assert w in d + [w];
    }
    if Supported(v, d) {
      var u :| u in d && u != v;
      assert u in d + [w];
    }
  }

  /** The domain `revise_domains` leaves: the values of `d1` with a support in `d2`, in
    * their order. */
  function Revise(d1: Domain, d2: Domain): (r: Domain)
    ensures |r| <= |d1|
  {
    if d1 == [] then []
    else
      var last := d1[|d1| - 1];
      var front := Revise(d1[..|d1| - 1], d2);
      if Supported(last, d2) then front + [last] else front
  }

  /** Revising keeps exactly the values with a support; it shortens the domain exactly
    * when some value has none, and a revision that drops nothing changes nothing. */
  lemma {:induction false} ReviseKeepsSupported(d1: Domain, d2: Domain)
    ensures forall v :: v in Revise(d1, d2) <==> v in d1 && Supported(v, d2)
    ensures |Revise(d1, d2)| == |d1| <==> forall k :: 0 <= k < |d1| ==> Supported(d1[k], d2)
    ensures |Revise(d1, d2)| == |d1| ==> Revise(d1, d2) == d1
    decreases |d1|
  {
    if d1 != [] {
      var front := d1[..|d1| - 1];
      var last := d1[|d1| - 1];
      ReviseKeepsSupported(front, d2);
      assert d1 == front + [last];
      if |Revise(d1, d2)| == |d1| {
        assert Supported(last, d2);
      }
      if forall k :: 0 <= k < |d1| ==> Supported(d1[k], d2) {
        assert forall k :: 0 <= k < |front| ==> Supported(front[k], d2) by {
          forall k | 0 <= k < |front| ensures Supported(front[k], d2) {
            assert front[k] == d1[k];
          }
        }
      }
    }
  }

  /** Revising a domain one more value long keeps that value exactly when it has a
    * support. */
  lemma ReviseSnoc(d1: Domain, d2: Domain, v: char)
    ensures Revise(d1 + [v], d2) == if Supported(v, d2) then Revise(d1, d2) + [v] else Revise(d1, d2)
  {
    assert (d1 + [v])[..|d1|] == d1;
  }

  /** Every value of the domain of `c` has a support in the domain of `p`. */
  ghost predicate Consistent(values: seq<Domain>, c: Cell, p: Cell)
    requires |values| == Cells && OnBoard(c) && OnBoard(p)
  {
    forall v :: v in values[Index(c)] ==> Supported(v, values[Index(p)])
  }

  /** Every arc of the table is consistent. */
  ghost predicate ArcConsistent(values: seq<Domain>, arcs: seq<seq<Cell>>)
    requires |values| == Cells && IsArcTable(arcs)
  {
    forall c, p :: OnBoard(c) && p in arcs[Index(c)] ==> OnBoard(p) && Consistent(values, c, p)
  }

  /** Every value of `values` is still in the domain it came from. */
  ghost predicate Within(values: seq<Domain>, from: seq<Domain>)
    requires |values| == Cells && |from| == Cells
  {
    forall i, v :: 0 <= i < Cells && v in values[i] ==> v in from[i]
  }

  /** The number of values left over all domains. */
  function TotalSize(values: seq<Domain>): nat {
    if values == [] then 0 else TotalSize(values[..|values| - 1]) + |values[|values| - 1]|
  }

  /** Replacing one domain changes the total by the change of that domain's size. */
  lemma {:induction false} TotalSizeUpdate(values: seq<Domain>, i: int, d: Domain)
    requires 0 <= i < |values|
    ensures TotalSize(values[i := d]) == TotalSize(values) - |values[i]| + |d|
    decreases |values|
  {
    var n := |values| - 1;
    if i < n {
      assert values[i := d][..n] == values[..n][i := d];
      TotalSizeUpdate(values[..n], i, d);
    } else {
      assert values[i := d][..n] == values[..n];
    }
  }

  /** A digit for every cell, each from that cell's domain. */
  ghost predicate Admits(values: seq<Domain>, sol: seq<char>)
    requires |values| == Cells
  {
    |sol| == Cells && forall i :: 0 <= i < Cells ==> sol[i] in values[i]
  }

  /** The digits of `sol` differ along every arc: no two peers share a digit. */
  ghost predicate Respects(sol: seq<char>, arcs: seq<seq<Cell>>)
    requires IsArcTable(arcs)
  {
    |sol| == Cells &&
    forall c, p :: OnBoard(c) && OnBoard(p) && p in arcs[Index(c)] ==> sol[Index(c)] != sol[Index(p)]
  }

  /** Revising an arc never drops the digit a solution puts in its cell: the peer's
    * digit in that solution differs from it and is still in the peer's domain. */
  lemma ReviseKeepsSolution(values: seq<Domain>, arcs: seq<seq<Cell>>, c: Cell, p: Cell, sol: seq<char>)
    requires |values| == Cells && IsArcTable(arcs) && OnBoard(c) && p in arcs[Index(c)]
    requires Admits(values, sol) && Respects(sol, arcs)
    ensures OnBoard(p) && Admits(values[Index(c) := Revise(values[Index(c)], values[Index(p)])], sol)
  {
    ArcTableShape(arcs);
    IndexInRange(c);
    IndexInRange(p);
    var d2 := values[Index(p)];
    assert sol[Index(p)] in d2 && sol[Index(p)] != sol[Index(c)];
    assert Supported(sol[Index(c)], d2);
    ReviseKeepsSupported(values[Index(c)], d2);
  }

  /** Every solution the domains `from` admitted, `values` still admits. */
  ghost predicate KeepsSolutions(from: seq<Domain>, values: seq<Domain>, arcs: seq<seq<Cell>>)
    requires |from| == Cells && |values| == Cells && IsArcTable(arcs)
  {
    forall sol :: Admits(from, sol) && Respects(sol, arcs) ==> Admits(values, sol)
  }

  /** Revising one arc keeps every solution. */
  lemma ReviseKeepsSolutions(from: seq<Domain>, values: seq<Domain>, arcs: seq<seq<Cell>>, c: Cell, p: Cell)
    requires |from| == Cells && |values| == Cells && IsArcTable(arcs) && OnBoard(c) && p in arcs[Index(c)]
    requires KeepsSolutions(from, values, arcs)
    ensures OnBoard(p) && KeepsSolutions(from, values[Index(c) := Revise(values[Index(c)], values[Index(p)])], arcs)
  {
    ArcTableShape(arcs);
    IndexInRange(c);
    IndexInRange(p);
    forall sol | Admits(from, sol) && Respects(sol, arcs)
      ensures Admits(values[Index(c) := Revise(values[Index(c)], values[Index(p)])], sol)
    {
      ReviseKeepsSolution(values, arcs, c, p, sol);
    }
  }

  /** The queue of `AC3` leaves out only arcs that are already consistent. */
  ghost predicate Pending(values: seq<Domain>, arcs: seq<seq<Cell>>, queue: seq<(Cell, Cell)>)
    requires |values| == Cells && IsArcTable(arcs)
  {
    forall c, p :: OnBoard(c) && p in arcs[Index(c)] ==> (c, p) in queue || (OnBoard(p) && Consistent(values, c, p))
  }

  ghost predicate ArcsOnly(arcs: seq<seq<Cell>>, queue: seq<(Cell, Cell)>)
    requires IsArcTable(arcs)
  {
    forall e :: e in queue ==> OnBoard(e.0) && e.1 in arcs[Index(e.0)]
  }

  /** After the arc (c, p) at the head of the queue is revised, the rest of the queue
    * followed by the arcs into `c` (when `c` lost a value) again covers every arc that
    * is not consistent. */
  lemma ReviseStep(values: seq<Domain>, arcs: seq<seq<Cell>>, queue: seq<(Cell, Cell)>, added: seq<(Cell, Cell)>)
    requires |values| == Cells && IsArcTable(arcs) && |queue| > 0
    requires Pending(values, arcs, queue) && ArcsOnly(arcs, queue) && OnBoard(queue[0].0) && OnBoard(queue[0].1)
    requires var (c, p) := queue[0];
      |Revise(values[Index(c)], values[Index(p)])| < |values[Index(c)]| ==>
        forall a :: a in arcs[Index(c)] ==> (a, c) in added
    ensures var (c, p) := queue[0];
      Pending(values[Index(c) := Revise(values[Index(c)], values[Index(p)])], arcs, queue[1..] + added)
  {
    ArcTableShape(arcs);
    var (c, p) := queue[0];
    assert OnBoard(c) && OnBoard(p) && p != c;
    IndexInRange(c);
    IndexInRange(p);
    var d := Revise(values[Index(c)], values[Index(p)]);
    ReviseKeepsSupported(values[Index(c)], values[Index(p)]);
    var after := values[Index(c) := d];
    forall a, b | OnBoard(a) && b in arcs[Index(a)]
      ensures (a, b) in queue[1..] + added || (OnBoard(b) && Consistent(after, a, b))
    {
      IndexInRange(a);
      IndexInRange(b);
      if (a, b) == (c, p) {
      } else if (a, b) in queue {
        assert queue == [queue[0]] + queue[1..];
      } else if b == c {
        if |d| < |values[Index(c)]| {
          assert a in arcs[Index(c)];
        } else {
          assert after == values;
        }
      } else if a == c {
        assert forall v :: v in after[Index(a)] ==> v in values[Index(a)];
        if Index(b) == Index(c) {
          IndexInjective(b, c);
        }
      } else {
        if Index(a) == Index(c) {
          IndexInjective(a, c);
        }
        if Index(b) == Index(c) {
          IndexInjective(b, c);
        }
      }
    }
  }

  /** The table `get_new_domains` starts from: one domain set to the assumed value. */
  function Assume(values: seq<Domain>, space: Cell, value: char): seq<Domain>
    requires |values| == Cells && OnBoard(space)
  {
    IndexInRange(space);
    values[Index(space) := [value]]
  }

  /** `board_is_solved`: every domain holds exactly one value. */
  predicate Solved(values: seq<Domain>) {
    forall i :: 0 <= i < |values| ==> |values[i]| == 1
  }

  /** `is_consistent`: no domain has run empty. */
  predicate NoEmptyDomain(values: seq<Domain>) {
    forall i :: 0 <= i < |values| ==> |values[i]| > 0
  }

  /** A solved, arc-consistent table gives different digits to every two cells that
    * constrain each other: it is a solution. */
  lemma SolvedIsSolution(values: seq<Domain>, arcs: seq<seq<Cell>>, c: Cell, p: Cell)
    requires |values| == Cells && IsArcTable(arcs) && Solved(values) && ArcConsistent(values, arcs)
    requires OnBoard(c) && OnBoard(p) && c != p && Related(c, p)
    ensures values[Index(c)][0] != values[Index(p)][0]
  {
    IndexInRange(c);
    IndexInRange(p);
    PeersAreRelated(c, p);
    assert Consistent(values, c, p);
    SingletonsDiffer(values[Index(c)], values[Index(p)]);
  }

  lemma SingletonsDiffer(d1: Domain, d2: Domain)
    requires |d1| == 1 && |d2| == 1 && forall v :: v in d1 ==> Supported(v, d2)
    ensures d1[0] != d2[0]
  {
    assert d1[0] in d1;
    var w :| w in d2 && w != d1[0];
    assert w == d2[0];
  }

  /** The first loop of `AC3`: every arc of every cell, cell by cell. */
  method AllArcs(arcs: seq<seq<Cell>>) returns (queue: seq<(Cell, Cell)>)
    requires IsArcTable(arcs)
    ensures ArcsOnly(arcs, queue)
    ensures forall c, p :: OnBoard(c) && p in arcs[Index(c)] ==> (c, p) in queue
  {
    queue := [];
    for x := 0 to 9
      invariant ArcsOnly(arcs, queue)
      invariant forall c, p :: OnBoard(c) && c.x < x && p in arcs[Index(c)] ==> (c, p) in queue
    {
      for y := 0 to 9
        invariant ArcsOnly(arcs, queue)
        invariant forall c, p :: OnBoard(c) && (c.x < x || (c.x == x && c.y < y)) && p in arcs[Index(c)] ==> (c, p) in queue
      {
        var space := Cell(x, y);
        IndexInRange(space);
        var curr := arcs[Index(space)];
        for k := 0 to |curr|
          invariant ArcsOnly(arcs, queue)
          invariant forall c, p :: OnBoard(c) && (c.x < x || (c.x == x && c.y < y)) && p in arcs[Index(c)] ==> (c, p) in queue
          invariant forall j :: 0 <= j < k ==> (space, curr[j]) in queue
        {
          queue := queue + [(space, curr[k])];
        }
        forall p | p in arcs[Index(space)]
          ensures (space, p) in queue
        {
          var j :| 0 <= j < |curr| && curr[j] == p;
        }
      }
    }
  }

  class Domains {
    var values: seq<Domain>

    ghost predicate Valid()
      reads this
    {
      |values| == Cells
    }

    constructor (values: seq<Domain>)
      requires |values| == Cells
      ensures Valid() && this.values == values
    {
      this.values := values;
    }

    /** `revise_domains(domains, tile1, tile2)`: walks the list of `tile1`, unlinking
      * every value that no value of `tile2` differs from; 1 when it unlinked one. */
    method ReviseDomains(tile1: Cell, tile2: Cell) returns (revised: bool)
      requires Valid() && OnBoard(tile1) && OnBoard(tile2) && tile1 != tile2
      modifies this
      ensures Valid()
      ensures values == old(values)[Index(tile1) := Revise(old(values)[Index(tile1)], old(values)[Index(tile2)])]
      ensures revised <==> |values[Index(tile1)]| < |old(values)[Index(tile1)]|
    {
      IndexInRange(tile1);
      IndexInRange(tile2);
      if Index(tile1) == Index(tile2) {
        IndexInjective(tile1, tile2);
      }
      var domains := values;
      var hash1 := Index(tile1);
      var list1 := domains[hash1];
      var list2 := domains[Index(tile2)];
      var kept := [];
      revised := false;
      for i := 0 to |list1|
        invariant kept == Revise(list1[..i], list2)
        invariant revised <==> |kept| < i
      {
        var value := list1[i];
        var possible := false;
        for j := 0 to |list2|
          invariant possible <==> Supported(value, list2[..j])
        {
          assert list2[..j + 1] == list2[..j] + [list2[j]];
          SupportedSnoc(value, list2[..j], list2[j]);
          if value != list2[j] {
            possible := true;
          }
        }
        assert list2[..|list2|] == list2;
        ReviseSnoc(list1[..i], list2, value);
        assert list1[..i + 1] == list1[..i] + [value];
        if !possible {
          revised := true;
        } else {
          kept := kept + [value];
        }
      }
      assert list1[..|list1|] == list1;
      values := domains[hash1 := kept];
    }

    /** `AC3(domains, arcs)`: queues every arc, then revises arc after arc; when the
      * domain of a cell loses a value, the arcs from its peers into it are queued again.
      * Domains only shrink, and at the end every arc is consistent. */
    method AC3(arcs: seq<seq<Cell>>)
      requires Valid() && IsArcTable(arcs)
      modifies this
      ensures Valid()
      ensures Within(values, old(values)) && TotalSize(values) <= TotalSize(old(values))
      ensures ArcConsistent(values, arcs)
      ensures forall sol :: Admits(old(values), sol) && Respects(sol, arcs) ==> Admits(values, sol)
    {
      ArcTableShape(arcs);
      var queue := AllArcs(arcs);
      while |queue| > 0
        invariant Valid() && ArcsOnly(arcs, queue) && Pending(values, arcs, queue)
        invariant Within(values, old(values)) && TotalSize(values) <= TotalSize(old(values))
        invariant KeepsSolutions(old(values), values, arcs) == true
        decreases TotalSize(values), |queue|
      {
        var pair := queue[0];
        ghost var before := values;
        var revised := ReviseDomains(pair.0, pair.1);
        ReviseKeepsSupported(before[Index(pair.0)], before[Index(pair.1)]);
        TotalSizeUpdate(before, Index(pair.0), values[Index(pair.0)]);
        ReviseKeepsSolutions(old(values), before, arcs, pair.0, pair.1);
        var added: seq<(Cell, Cell)> := [];
        if revised {
          var curr := arcs[Index(pair.0)];
          for k := 0 to |curr|
            invariant |added| == k && forall j :: 0 <= j < k ==> added[j] == (curr[j], pair.0)
          {
            added := added + [(curr[k], pair.0)];
          }
          forall a | a in arcs[Index(pair.0)]
            ensures (a, pair.0) in added
          {
            var j :| 0 <= j < |curr| && curr[j] == a;
            assert added[j] == (a, pair.0);
          }
          forall e | e in added
            ensures OnBoard(e.0) && e.1 in arcs[Index(e.0)]
          {
            var j :| 0 <= j < |added| && added[j] == e;
          }
        }
        ReviseStep(before, arcs, queue, added);
        queue := queue[1..] + added;
      }
      assert forall c, p :: OnBoard(c) && p in arcs[Index(c)] ==> (c, p) !in queue;
    }
  }

  // ---------------------------------------------------------------------------------
  // Search

  /** `get_min_list(domains, get_unsolved_domain_keys(...))`: among the cells whose domain
    * does not hold exactly one value, the first with the fewest values. */
  method GetMinList(values: seq<Domain>) returns (space: Cell)
    requires |values| == Cells && !Solved(values)
    ensures OnBoard(space) && |values[Index(space)]| != 1
    ensures forall c :: OnBoard(c) && |values[Index(c)]| != 1 ==> |values[Index(space)]| <= |values[Index(c)]|
  {
    var found := false;
    var best := 0;
    for i := 0 to Cells
      invariant 0 <= best < Cells && (found ==> |values[best]| != 1)
      invariant !found ==> forall j :: 0 <= j < i ==> |values[j]| == 1
      invariant found ==> forall j :: 0 <= j < i && |values[j]| != 1 ==> |values[best]| <= |values[j]|
    {
      if |values[i]| != 1 && (!found || |values[i]| < |values[best]|) {
        best := i;
        found := true;
      }
    }
    space := Cell(best / 9, best % 9);
    assert Index(space) == best;
    forall c | OnBoard(c) && |values[Index(c)]| != 1
      ensures |values[Index(space)]| <= |values[Index(c)]|
    {
      IndexInRange(c);
    }
  }

  /** `get_new_domains(domains, space, value, arcs)`: a copy with `space` assumed to hold
    * `value`, narrowed by `AC3`; nothing when a domain ran empty. */
  method GetNewDomains(d: Domains, space: Cell, value: char, arcs: seq<seq<Cell>>) returns (r: Option<seq<Domain>>)
    requires d.Valid() && OnBoard(space) && IsArcTable(arcs)
    ensures r.Some? ==> |r.value| == Cells && NoEmptyDomain(r.value) && ArcConsistent(r.value, arcs)
    ensures r.Some? ==> Within(r.value, Assume(d.values, space, value))
    ensures r.Some? ==> TotalSize(r.value) <= TotalSize(Assume(d.values, space, value))
  {
    IndexInRange(space);
    var newDomains := new Domains(d.values[Index(space) := [value]]);
    newDomains.AC3(arcs);
    if forall i :: 0 <= i < Cells ==> |newDomains.values[i]| > 0 {
      return Some(newDomains.values);
    }
    return None;
  }

  /** `backtracking_search(domains, arcs)`: a solved table is returned as it is;
    * otherwise each value of the cell with the fewest is assumed in turn and the
    * search goes on from the narrowed copy. The search only ever answers with a solved,
    * arc-consistent table inside the domains it started from. */
  method BacktrackingSearch(d: Domains, arcs: seq<seq<Cell>>) returns (r: Option<seq<Domain>>)
    requires d.Valid() && IsArcTable(arcs) && ArcConsistent(d.values, arcs)
    ensures r.Some? ==> |r.value| == Cells && Solved(r.value) && ArcConsistent(r.value, arcs)
    ensures r.Some? ==> Within(r.value, d.values)
    decreases TotalSize(d.values)
  {
    if Solved(d.values) {
      return Some(d.values);
    }
    var space := GetMinList(d.values);
    var domain := d.values[Index(space)];
    for k := 0 to |domain|
    {
      IndexInRange(space);
      var newValues := GetNewDomains(d, space, domain[k], arcs);
      if newValues.Some? {
        ghost var assumed := Assume(d.values, space, domain[k]);
        TotalSizeUpdate(d.values, Index(space), [domain[k]]);
        var next := new Domains(newValues.value);
        var result := BacktrackingSearch(next, arcs);
        if result.Some? {
          assert domain[k] in d.values[Index(space)];
          return result;
        }
      }
    }
    return None;
  }

  // ---------------------------------------------------------------------------------
  // solve

  /** A line whose first 81 characters are a solution of the board `line` describes:
    * given digits kept, every other cell a digit 1..9, and no two cells that constrain
    * each other holding the same digit; the rest of the buffer is untouched. */
  ghost predicate SolutionLine(out: seq<char>, line: seq<char>)
    requires |line| >= Cells
  {
    && |out| == |line| && out[Cells..] == line[Cells..]
    && (forall c :: OnBoard(c) ==> out[Index(c)] in StartDomain(line[Index(c)]))
    && (forall c, p :: OnBoard(c) && OnBoard(p) && c != p && Related(c, p) ==> out[Index(c)] != out[Index(p)])
  }

  /** `solved_domains_to_s(domains, line)`: the value of every cell at its place. */
  method SolvedDomainsToString(values: seq<Domain>, line: seq<char>) returns (out: seq<char>)
    requires |values| == Cells && Solved(values) && |line| >= Cells
    ensures |out| == |line| && out[Cells..] == line[Cells..]
    ensures forall c :: OnBoard(c) ==> out[Index(c)] == values[Index(c)][0]
  {
    out := line;
    for x := 0 to 9
      invariant |out| == |line| && out[Cells..] == line[Cells..]
      invariant forall c :: OnBoard(c) && c.x < x ==> out[Index(c)] == values[Index(c)][0]
    {
      for y := 0 to 9
        invariant |out| == |line| && out[Cells..] == line[Cells..]
        invariant forall c :: OnBoard(c) && (c.x < x || (c.x == x && c.y < y)) ==> out[Index(c)] == values[Index(c)][0]
      {
        var value := values[9 * x + y][0];
        out := out[9 * x + y := value];
      }
    }
  }

  /** `solve(line)`: the process exits on a line that is not 81 digits; otherwise the
    * line comes back solved, or unchanged when the search finds no solution. */
  method Solve(line: seq<char>) returns (r: Result<seq<char>>)
    requires IsCString(line)
    ensures r.Err? <==> !IsBoardLine(line)
    ensures r.Ok? ==> r.value == line || SolutionLine(r.value, line)
  {
    var board := LineToBoard(line);
    if board.Err? {
      return Err(board.msg);
    }
    var start := InitializeDomains(board.value);
    var arcs := InitializeArcs();
    var boardDomains := new Domains(start);
    boardDomains.AC3(arcs);
    var solved := BacktrackingSearch(boardDomains, arcs);
    if solved.None? {
      return Ok(line);
    }
    var out := SolvedDomainsToString(solved.value, line);
    forall c | OnBoard(c)
      ensures out[Index(c)] in StartDomain(line[Index(c)])
    {
      IndexInRange(c);
      assert solved.value[Index(c)][0] in solved.value[Index(c)];
      assert board.value[c.x][c.y] == line[Index(c)];
    }
    forall c, p | OnBoard(c) && OnBoard(p) && c != p && Related(c, p)
      ensures out[Index(c)] != out[Index(p)]
    {
      SolvedIsSolution(solved.value, arcs, c, p);
    }
    return Ok(out);
  }
}
