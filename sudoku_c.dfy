// archived/wasm/sudoku/sudoku.c, the set-up half: the C string helpers, the parsing of
// an 81-digit line into a board, and the two tables the solver starts from, the
// domains (possible digits) and the arcs (the peers of every cell). A cell is named
// by its index 9 * x + y, x the row (`ROWS`, 'A'..'I') and y the column (`COLUMNS`,
// '1'..'9'); this index stands for the keys "A1".."I9" and their `hash_code`.

module SudokuC {
  import opened Common
  import opened Strings

  // ---------------------------------------------------------------------------------
  // C strings: a character array that holds a NUL somewhere

  predicate IsCString(s: seq<char>) {
    '\0' in s
  }

  /** The index of the first NUL. */
  function Len(s: seq<char>): (n: nat)
    requires IsCString(s)
    ensures n < |s| && s[n] == '\0'
    ensures forall k :: 0 <= k < n ==> s[k] != '\0'
  {
    if s[0] == '\0' then 0 else 1 + Len(s[1..])
  }

  /** `is_digit(c)`. */
  function IsDigitC(c: char): (r: bool)
    ensures r <==> '0' <= c <= '9'
  {
    c >= '0' && c <= '9'
  }

  /** `is_number(s)`: 1 when every character before the NUL is a digit, the empty
    * string included. */
  method IsNumber(s: seq<char>) returns (r: bool)
    requires IsCString(s)
    ensures r <==> AllDigits(s[..Len(s)])
  {
    var i := 0;
    while s[i] != '\0'
      invariant 0 <= i <= Len(s)
      invariant AllDigits(s[..i])
      decreases Len(s) - i
    {
      var c := s[i];
      i := i + 1;
      if !IsDigitC(c) {
        return false;
      }
    }
    return true;
  }

  /** `str_len(s)`: the post-incremented index stops one past the NUL. */
  method StrLen(s: seq<char>) returns (n: int)
    requires IsCString(s)
    ensures n == Len(s)
  {
    var len := 0;
    while true
      invariant 0 <= len <= Len(s) + 1
      invariant forall k :: 0 <= k < len ==> s[k] != '\0'
      decreases Len(s) + 1 - len
    {
      var c := s[len];
      len := len + 1;
      if c == '\0' {
        break;
      }
    }
    return len - 1;
  }

  /** `str_equal(s1, s2)`: 1 when the two strings agree up to and including the NUL. */
  method StrEqual(s1: seq<char>, s2: seq<char>) returns (r: bool)
    requires IsCString(s1) && IsCString(s2)
    ensures r <==> s1[..Len(s1)] == s2[..Len(s2)]
  {
    var i := 0;
    while true
      invariant 0 <= i <= Len(s1) && i <= Len(s2)
      invariant s1[..i] == s2[..i]
      decreases Len(s1) - i
    {
      if s1[i] != s2[i] {
        if Len(s1) == Len(s2) {
          assert s1[..Len(s1)][i] != s2[..Len(s2)][i];
        } else if Len(s1) < Len(s2) {
          assert s1[..Len(s1)] != s2[..Len(s2)];
        }
        return false;
      }
      if s1[i] == '\0' {
        return true;
      }
      assert s1[..i + 1] == s2[..i + 1];
      i := i + 1;
    }
  }

  /** `str_contains_char(s, c)`: 1 when `c` occurs before the NUL. */
  method StrContainsChar(s: seq<char>, c: char) returns (r: bool)
    requires IsCString(s)
    ensures r <==> c in s[..Len(s)]
  {
    var index := 0;
    while s[index] != '\0'
      invariant 0 <= index <= Len(s)
      invariant c !in s[..index]
      decreases Len(s) - index
    {
      var d := s[index];
      index := index + 1;
      if d == c {
        assert s[..Len(s)][index - 1] == c;
        return true;
      }
    }
    return false;
  }

  // ---------------------------------------------------------------------------------
  // The board

  const Size: nat := 9
  const Cells: nat := 81

  /** A 9 by 9 board of digit characters, '0' for an empty cell. */
  predicate IsBoard(rows: seq<seq<char>>) {
    |rows| == Size && forall x :: 0 <= x < Size ==> |rows[x]| == Size
  }

  /** The condition under which `line_to_board` does not `exit(-1)`. */
  predicate IsBoardLine(line: seq<char>)
    requires IsCString(line)
  {
    AllDigits(line[..Len(line)]) && Len(line) == Cells
  }

  /** `line_to_board(board, line)`: the process exits unless the line is 81 digits;
    * otherwise `rows[x][y]` is the character at 9 * x + y. */
  method LineToBoard(line: seq<char>) returns (r: Result<seq<seq<char>>>)
    requires IsCString(line)
    ensures r.Err? <==> !IsBoardLine(line)
    ensures r.Ok? ==> IsBoard(r.value)
    ensures r.Ok? ==> forall x, y :: 0 <= x < Size && 0 <= y < Size ==> r.value[x][y] == line[9 * x + y]
  {
    var numeric := IsNumber(line);
    if !numeric {
      return Err("exit(-1)");
    }
    var length := StrLen(line);
    if length != 81 {
      return Err("exit(-1)");
    }
    var rows := [];
    for x := 0 to 9
      invariant |rows| == x
      invariant forall p :: 0 <= p < x ==> |rows[p]| == Size && forall q :: 0 <= q < Size ==> rows[p][q] == line[9 * p + q]
    {
      var row := [];
      for y := 0 to 9
        invariant |row| == y && forall q :: 0 <= q < y ==> row[q] == line[9 * x + q]
      {
        row := row + [line[9 * x + y]];
      }
      rows := rows + [row];
    }
    return Ok(rows);
  }

  // ---------------------------------------------------------------------------------
  // Domains

  /** `COLUMNS`, the digits a cell can hold. */
  const AllValues: seq<char> := "123456789"

  /** The starting domain of a cell: every digit when it is '0', else its own digit. */
  function StartDomain(c: char): (d: seq<char>)
    ensures c == '0' ==> d == AllValues
    ensures c != '0' ==> d == [c]
  {
    if c != '0' then [c] else AllValues
  }

  /** The starting domains of a row, in column order. */
  function RowDomains(row: seq<char>): (d: seq<seq<char>>)
    ensures |d| == |row| && forall q :: 0 <= q < |row| ==> d[q] == StartDomain(row[q])
  {
    seq(|row|, q requires 0 <= q < |row| => StartDomain(row[q]))
  }

  /** The starting domains of the cells of `rs`, row after row. */
  function Domains(rs: seq<seq<char>>): seq<seq<char>> {
    if rs == [] then [] else Domains(rs[..|rs| - 1]) + RowDomains(rs[|rs| - 1])
  }

  lemma {:induction false} DomainsLength(rs: seq<seq<char>>)
    requires forall p :: 0 <= p < |rs| ==> |rs[p]| == Size
    ensures |Domains(rs)| == 9 * |rs|
  {
    if rs != [] {
      DomainsLength(rs[..|rs| - 1]);
    }
  }

  /** The domain of cell `(x, y)` sits at index `9 x + y`. */
  lemma {:induction false} DomainsAt(rs: seq<seq<char>>, x: int, y: int)
    requires forall p :: 0 <= p < |rs| ==> |rs[p]| == Size
    requires 0 <= x < |rs| && 0 <= y < Size
    ensures 9 * x + y < |Domains(rs)| && Domains(rs)[9 * x + y] == StartDomain(rs[x][y])
  {
    var init := rs[..|rs| - 1];
    DomainsLength(init);
    DomainsLength(rs);
    if x < |rs| - 1 {
      assert init[x] == rs[x];
      DomainsAt(init, x, y);
    }
  }

  /** `initialize_domains(board, domains, squares)`. */
  method InitializeDomains(rows: seq<seq<char>>) returns (values: seq<seq<char>>)
    requires IsBoard(rows)
    ensures |values| == Cells
    ensures forall c :: OnBoard(c) ==> values[Index(c)] == StartDomain(rows[c.x][c.y])
  {
    values := [];
    for x := 0 to 9
      invariant values == Domains(rows[..x])
    {
      for y := 0 to 9
        invariant values == Domains(rows[..x]) + RowDomains(rows[x][..y])
      {
        var startValue := rows[x][y];
        var domain := if startValue != '0' then [startValue] else AllValues;
        assert RowDomains(rows[x][..y + 1]) == RowDomains(rows[x][..y]) + [domain];
        values := values + [domain];
      }
      assert rows[..x + 1][..x] == rows[..x];
      assert rows[x][..9] == rows[x];
    }
    assert rows[..9] == rows;
    DomainsLength(rows);
    forall c | OnBoard(c)
      ensures values[Index(c)] == StartDomain(rows[c.x][c.y])
    {
      DomainsAt(rows, c.x, c.y);
    }
  }

  // ---------------------------------------------------------------------------------
  // Arcs

  /** A cell by row and column; `Index` is its slot in the tables. */
  datatype Cell = Cell(x: int, y: int)

  predicate OnBoard(c: Cell) {
    0 <= c.x < Size && 0 <= c.y < Size
  }

  function Index(c: Cell): int {
    9 * c.x + c.y
  }

  /** Cells are told apart by their index. */
  lemma IndexInjective(c: Cell, d: Cell)
    requires OnBoard(c) && OnBoard(d) && Index(c) == Index(d)
    ensures c == d
  {
  }

  lemma IndexInRange(c: Cell)
    requires OnBoard(c)
    ensures 0 <= Index(c) < Cells
  {
  }

  /** Which third of the board a row or column lies in: `v / 3` for 0..8. */
  function Band(v: int): int {
    if v < 3 then 0 else if v < 6 then 1 else 2
  }

  /** The `s`-th cell of the square holding `c`, in the order of `SQUARES` (row by row). */
  function SquareCell(c: Cell, s: int): Cell {
    Cell(3 * Band(c.x) + Band(s), 3 * Band(c.y) + s - 3 * Band(s))
  }

  /** The place of `c` in its own square. */
  function SquareSlot(c: Cell): int {
    3 * (c.x - 3 * Band(c.x)) + c.y - 3 * Band(c.y)
  }

  /** The other cells of the row of `c`, in column order. */
  function RowPeers(c: Cell): (ps: seq<Cell>)
    ensures |ps| == 8
  {
    seq(8, k => Cell(c.x, if k < c.y then k else k + 1))
  }

  /** The other cells of the column of `c`, in row order. */
  function ColumnPeers(c: Cell): (ps: seq<Cell>)
    ensures |ps| == 8
  {
    seq(8, k => Cell(if k < c.x then k else k + 1, c.y))
  }

  /** The other cells of the square of `c`. */
  function SquarePeers(c: Cell): (ps: seq<Cell>)
    ensures |ps| == 8
  {
    seq(8, k => SquareCell(c, if k < SquareSlot(c) then k else k + 1))
  }

  /** The arc list `initialize_arcs` builds for `c`: row, then column, then square. */
  function Peers(c: Cell): (ps: seq<Cell>)
    ensures |ps| == 24
  {
    RowPeers(c) + ColumnPeers(c) + SquarePeers(c)
  }

  /** Two cells constrain each other: same row, same column or same square. */
  predicate Related(c: Cell, p: Cell) {
    c.x == p.x || c.y == p.y || (Band(c.x) == Band(p.x) && Band(c.y) == Band(p.y))
  }

  /** The arcs of a cell are exactly the other cells it constrains. */
  lemma PeersAreRelated(c: Cell, p: Cell)
    requires OnBoard(c)
    ensures p in Peers(c) <==> OnBoard(p) && p != c && Related(c, p)
  {
    if p in Peers(c) {
      PeerIsRelated(c, p);
    }
    if OnBoard(p) && p != c && Related(c, p) {
      RelatedIsPeer(c, p);
    }
  }

  lemma PeerIsRelated(c: Cell, p: Cell)
    requires OnBoard(c) && p in Peers(c)
    ensures OnBoard(p) && p != c && Related(c, p)
  {
    if p in RowPeers(c) {
      var k :| 0 <= k < 8 && RowPeers(c)[k] == p;
    } else if p in ColumnPeers(c) {
      var k :| 0 <= k < 8 && ColumnPeers(c)[k] == p;
    } else {
      assert p in SquarePeers(c);
      var k :| 0 <= k < 8 && SquarePeers(c)[k] == p;
      var s := if k < SquareSlot(c) then k else k + 1;
      assert SquareCell(c, s) == p;
    }
  }

  lemma RelatedIsPeer(c: Cell, p: Cell)
    requires OnBoard(c) && OnBoard(p) && p != c && Related(c, p)
    ensures p in Peers(c)
  {
    if p.x == c.x {
      var k := if p.y < c.y then p.y else p.y - 1;
      assert RowPeers(c)[k] == p;
    } else if p.y == c.y {
      var k := if p.x < c.x then p.x else p.x - 1;
      assert ColumnPeers(c)[k] == p;
    } else {
      var s := SquareSlot(p);
      assert SquareCell(c, s) == p;
      var k := if s < SquareSlot(c) then s else s - 1;
      assert SquarePeers(c)[k] == p;
    }
  }

  /** The arc table of `initialize_arcs`: the peers of every cell, at the cell's index. */
  ghost predicate IsArcTable(arcs: seq<seq<Cell>>) {
    |arcs| == Cells && forall c :: OnBoard(c) ==> arcs[Index(c)] == Peers(c)
  }

  /** Every arc of the table joins two different cells of the board, and the arcs are
    * symmetric. */
  lemma ArcTableShape(arcs: seq<seq<Cell>>)
    requires IsArcTable(arcs)
    ensures forall c, p :: OnBoard(c) && p in arcs[Index(c)] ==> OnBoard(p) && p != c
    ensures forall c, p :: OnBoard(c) && OnBoard(p) && p in arcs[Index(c)] ==> c in arcs[Index(p)]
  {
    forall c, p | OnBoard(c) && p in arcs[Index(c)]
      ensures OnBoard(p) && p != c && c in arcs[Index(p)]
    {
      PeersAreRelated(c, p);
      PeersAreRelated(p, c);
    }
  }

  /** `initialize_arcs(arcs, squares)`. */
  method InitializeArcs() returns (arcs: seq<seq<Cell>>)
    ensures IsArcTable(arcs)
  {
    arcs := [];
    for x := 0 to 9
      invariant |arcs| == 9 * x
      invariant forall c :: OnBoard(c) && c.x < x ==> arcs[Index(c)] == Peers(c)
    {
      for y := 0 to 9
        invariant |arcs| == 9 * x + y
        invariant forall c :: OnBoard(c) && (c.x < x || (c.x == x && c.y < y)) ==> arcs[Index(c)] == Peers(c)
      {
        var list := CellArcs(Cell(x, y));
        arcs := arcs + [list];
      }
    }
  }

  /** The three rule loops of `initialize_arcs` for one cell: the cells of its row, of
    * its column and of its square, each time skipping the cell itself. */
  method CellArcs(space: Cell) returns (list: seq<Cell>)
    requires OnBoard(space)
    ensures list == Peers(space)
  {
    list := [];
    for r := 0 to 9
      invariant list == RowPeers(space)[..if r <= space.y then r else r - 1]
    {
      if r != space.y {
        list := list + [Cell(space.x, r)];
      }
    }
    for r := 0 to 9
      invariant list == RowPeers(space) + ColumnPeers(space)[..if r <= space.x then r else r - 1]
    {
      if r != space.x {
        list := list + [Cell(r, space.y)];
      }
    }
    for s := 0 to 9
      invariant list == RowPeers(space) + ColumnPeers(space) + SquarePeers(space)[..if s <= SquareSlot(space) then s else s - 1]
    {
      var cell := SquareCell(space, s);
      if cell != space {
        assert s != SquareSlot(space);
        list := list + [cell];
      } else {
        assert s == SquareSlot(space);
      }
    }
  }
}
