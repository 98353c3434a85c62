/** The 3x3 tic-tac-toe board of `grid.py`: cells addressed as `grid[y][x]`, and the
    `switch_player` flag that reports whether the last move was accepted. */
module Board {

  /** Side length of the board. */
  const Size: nat := 3

  /** A cell holds the integer `0` while empty, otherwise the value stored in it
      (the game only ever stores the strings "X" and "O"). */
  datatype Cell = Empty | Mark(symbol: string)

  const CrossCell: Cell := Mark("X")
  const NoughtCell: Cell := Mark("O")

  /** `rows[y][x]` is the cell in row `y`, column `x`; `switchPlayer` is the flag of the same name. */
  datatype Grid = Grid(rows: seq<seq<Cell>>, switchPlayer: bool)

  predicate WellFormed(g: Grid) {
    |g.rows| == Size && forall y :: 0 <= y < Size ==> |g.rows[y]| == Size
  }

  predicate InRange(x: int, y: int) {
    0 <= x < Size && 0 <= y < Size
  }

  /** The cells in the order `draw` visits them: row by row, left to right. The body
      lists the three rows of grid.py's fixed 3x3 board, so it assumes `Size == 3`. */
  function Flat(g: Grid): (cells: seq<Cell>)
    requires WellFormed(g)
    ensures |cells| == Size * Size
    ensures forall x, y :: InRange(x, y) ==> cells[Size * y + x] == g.rows[y][x]
  {
    g.rows[0] + g.rows[1] + g.rows[2]
  }

  /** How many cells hold `c`. */
  function Count(g: Grid, c: Cell): nat
    requires WellFormed(g)
  {
    multiset(Flat(g))[c]
  }

  /** How many cells are not empty. */
  function Filled(g: Grid): nat
    requires WellFormed(g)
  {
    Size * Size - Count(g, Empty)
  }

  /** Every cell is empty or holds one of the two players' marks. */
  ghost predicate OnlyMarks(g: Grid)
    requires WellFormed(g)
  {
    forall x, y :: InRange(x, y) ==> g.rows[y][x] in {Empty, CrossCell, NoughtCell}
  }

  /** `h` agrees with `g` on every cell `g` has filled: no mark of `g` was overwritten. */
  ghost predicate Extends(g: Grid, h: Grid)
    requires WellFormed(g) && WellFormed(h)
  {
    forall x, y :: InRange(x, y) && g.rows[y][x] != Empty ==> h.rows[y][x] == g.rows[y][x]
  }

  /** `Grid()`: every cell empty and `switch_player` set. */
  function New(): (g: Grid)
    ensures WellFormed(g)
    ensures g.switchPlayer
    ensures forall x, y :: InRange(x, y) ==> Get(g, x, y) == Empty
    ensures Filled(g) == 0
  {
    var row := [Empty, Empty, Empty];
    var g := Grid([row, row, row], true);
    AllEmpty(g);
    g
  }

  /** `get_cell_value(x, y)`: `x` picks the column and `y` the row. */
  function Get(g: Grid, x: int, y: int): (c: Cell)
    requires WellFormed(g) && InRange(x, y)
    ensures c == Flat(g)[Size * y + x]
  {
    g.rows[y][x]
  }

  /** `set_cell_value(x, y, value)`. */
  function Set(g: Grid, x: int, y: int, v: Cell): (h: Grid)
    requires WellFormed(g) && InRange(x, y)
    ensures WellFormed(h)
    ensures Get(h, x, y) == v
    ensures forall i, j :: InRange(i, j) && (i, j) != (x, y) ==> Get(h, i, j) == Get(g, i, j)
    ensures h.switchPlayer == g.switchPlayer
  {
    g.(rows := g.rows[y := g.rows[y][x := v]])
  }

  /** `get_mouse(x, y, player)`: the move rule. */
  function GetMouse(g: Grid, x: int, y: int, player: string): (h: Grid)
    requires WellFormed(g) && InRange(x, y)
    ensures WellFormed(h)
    ensures h.switchPlayer <==> Get(g, x, y) == Empty
    ensures Get(g, x, y) == Empty && (player == "X" || player == "O") ==> Get(h, x, y) == Mark(player)
    ensures Get(g, x, y) == Empty && player != "X" && player != "O" ==> h.rows == g.rows
    ensures Get(g, x, y) != Empty ==> h.rows == g.rows
    ensures forall i, j :: InRange(i, j) && (i, j) != (x, y) ==> Get(h, i, j) == Get(g, i, j)
  {
    if Get(g, x, y) == Empty then
      var g' := g.(switchPlayer := true);
      if player == "X" then Set(g', x, y, CrossCell)
      else if player == "O" then Set(g', x, y, NoughtCell)
      else g'
    else
      g.(switchPlayer := false)
  }

  /** The column and row of the `k`-th cell of the flat view. The row is chosen among
      three, so this assumes `Size == 3`. */
  function Position(k: int): (c: (int, int))
    requires 0 <= k < Size * Size
    ensures InRange(c.0, c.1) && k == Size * c.1 + c.0
  {
    var y := if k < Size then 0 else if k < 2 * Size then 1 else 2;
    (k - Size * y, y)
  }

  /** A sequence whose elements all equal `e` holds `e` once per element. */
  lemma {:induction false} CountUniform(s: seq<Cell>, e: Cell)
    requires forall k :: 0 <= k < |s| ==> s[k] == e
    ensures multiset(s)[e] == |s|
    decreases |s|
  {
    if s != [] {
      var init := s[..|s| - 1];
      assert s == init + [s[|s| - 1]];
      CountUniform(init, e);
    }
  }

  /** A board whose cells are all empty has nothing filled and no mark of any kind. */
  lemma AllEmpty(g: Grid)
    requires WellFormed(g)
    requires forall x, y :: InRange(x, y) ==> g.rows[y][x] == Empty
    ensures Filled(g) == 0
    ensures forall c :: c != Empty ==> Count(g, c) == 0
  {
    var cells := Flat(g);
    forall k | 0 <= k < |cells|
      ensures cells[k] == Empty
    {
      var (i, j) := Position(k);
      assert cells[k] == g.rows[j][i];
    }
    CountUniform(cells, Empty);
    forall c | c != Empty
      ensures Count(g, c) == 0
    {
      assert c !in cells;
    }
  }

  /** Writing one cell replaces exactly one entry of the flat view. */
  lemma FlatOfSet(g: Grid, x: int, y: int, v: Cell)
    requires WellFormed(g) && InRange(x, y)
    ensures Flat(Set(g, x, y, v)) == Flat(g)[Size * y + x := v]
  {
    var h := Set(g, x, y, v);
    var a, b := Flat(h), Flat(g)[Size * y + x := v];
    forall k | 0 <= k < Size * Size
      ensures a[k] == b[k]
    {
      var (i, j) := Position(k);
      if (i, j) == (x, y) {
        assert a[k] == Get(h, x, y);
      } else {
        assert a[k] == Get(h, i, j) == Get(g, i, j) == Flat(g)[k];
      }
    }
  }

  /** Writing `v` over a cell holding `old` moves one cell from `old`'s count to `v`'s. */
  lemma CountOfSet(g: Grid, x: int, y: int, v: Cell, c: Cell)
    requires WellFormed(g) && InRange(x, y)
    ensures Count(Set(g, x, y, v), c)
         == Count(g, c) - (if Get(g, x, y) == c then 1 else 0) + (if v == c then 1 else 0)
  {
    FlatOfSet(g, x, y, v);
    var s, k := Flat(g), Size * y + x;
    assert multiset(s[k := v]) == multiset(s) - multiset{s[k]} + multiset{v};
  }

  /** A move never erases or replaces a mark. */
  lemma GetMouseExtends(g: Grid, x: int, y: int, player: string)
    requires WellFormed(g) && InRange(x, y)
    ensures Extends(g, GetMouse(g, x, y, player))
  {
    var h := GetMouse(g, x, y, player);
    forall i, j | InRange(i, j) && g.rows[j][i] != Empty
      ensures h.rows[j][i] == g.rows[j][i]
    {
      assert Get(g, i, j) == g.rows[j][i];
    }
  }

  /** The number of filled cells never shrinks and grows by at most one per move. */
  lemma GetMouseFilled(g: Grid, x: int, y: int, player: string)
    requires WellFormed(g) && InRange(x, y)
    ensures Filled(g) <= Filled(GetMouse(g, x, y, player)) <= Filled(g) + 1
    ensures Filled(GetMouse(g, x, y, player)) == Filled(g) + 1
        <==> Get(g, x, y) == Empty && (player == "X" || player == "O")
  {
    var h := GetMouse(g, x, y, player);
    if Get(g, x, y) == Empty && (player == "X" || player == "O") {
      assert h == Set(g.(switchPlayer := true), x, y, Mark(player));
      CountOfSet(g.(switchPlayer := true), x, y, Mark(player), Empty);
    } else {
      assert h.rows == g.rows;
      assert Flat(h) == Flat(g);
    }
  }

  /** Moves alone keep every cell within {0, "X", "O"}, whatever the player argument. */
  lemma GetMouseKeepsMarks(g: Grid, x: int, y: int, player: string)
    requires WellFormed(g) && InRange(x, y) && OnlyMarks(g)
    ensures OnlyMarks(GetMouse(g, x, y, player))
  {
    var h := GetMouse(g, x, y, player);
    forall i, j | InRange(i, j)
      ensures h.rows[j][i] in {Empty, CrossCell, NoughtCell}
    {
      assert Get(h, i, j) == h.rows[j][i];
      assert Get(g, i, j) == g.rows[j][i];
    }
  }
}
