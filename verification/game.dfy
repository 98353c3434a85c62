/** The local two-player loop of `game.py`: a left click at a pixel picks a cell, the
    current player tries to mark it, and the turn passes only when the move was accepted. */
module LocalGame {
  import opened Board

  /** The window is `Window` x `Window` pixels; each cell is `CellPixels` wide and tall. */
  const Window: nat := 600
  const CellPixels: nat := 200

  /** The board and the name of the player whose turn it is. */
  datatype Game = Game(grid: Grid, player: string)

  /** pygame reports click positions inside the window. */
  predicate InWindow(px: int, py: int) {
    0 <= px < Window && 0 <= py < Window
  }

  /** The player who moves after `p`: "X" hands over to "O", anything else to "X". */
  function Opponent(p: string): (r: string)
    ensures r == "X" || r == "O"
    ensures (p == "X" || p == "O") ==> r != p && (r == "X" <==> p == "O")
  {
    if p == "X" then "O" else "X"
  }

  /** An empty board with "X" to move. */
  function Start(): (s: Game)
    ensures s.player == "X"
    ensures WellFormed(s.grid) && Filled(s.grid) == 0
    ensures forall x, y :: InRange(x, y) ==> Get(s.grid, x, y) == Empty
  {
    Game(New(), "X")
  }

  /** `pos // 200`: the column (or row) whose pixel band contains the coordinate. */
  function CellIndex(p: int): (i: int)
    ensures CellPixels * i <= p < CellPixels * (i + 1)
    ensures 0 <= p < Window ==> 0 <= i < Size
  {
    p / CellPixels
  }

  /** One left click at pixel `(px, py)`. */
  function Click(s: Game, px: int, py: int): (r: Game)
    requires WellFormed(s.grid) && InWindow(px, py)
    ensures WellFormed(r.grid)
    ensures r.grid == GetMouse(s.grid, CellIndex(px), CellIndex(py), s.player)
    ensures r.player == s.player <==> Get(s.grid, CellIndex(px), CellIndex(py)) != Empty
    ensures Get(s.grid, CellIndex(px), CellIndex(py)) == Empty ==> r.player == Opponent(s.player)
  {
    var g := GetMouse(s.grid, CellIndex(px), CellIndex(py), s.player);
    if g.switchPlayer then Game(g, Opponent(s.player)) else Game(g, s.player)
  }

  /** The clicks in order. */
  function Run(s: Game, clicks: seq<(int, int)>): (r: Game)
    requires WellFormed(s.grid)
    requires forall k :: 0 <= k < |clicks| ==> InWindow(clicks[k].0, clicks[k].1)
    ensures WellFormed(r.grid)
    ensures Extends(s.grid, r.grid)
    ensures Filled(s.grid) <= Filled(r.grid) <= Filled(s.grid) + |clicks|
    decreases |clicks|
  {
    if clicks == [] then s
    else
      assert InWindow(clicks[0].0, clicks[0].1);
      var x, y := CellIndex(clicks[0].0), CellIndex(clicks[0].1);
      GetMouseExtends(s.grid, x, y, s.player);
      GetMouseFilled(s.grid, x, y, s.player);
      Run(Click(s, clicks[0].0, clicks[0].1), clicks[1..])
  }

  /** The player to move is "X" exactly when both have placed the same number of marks,
      and "O" exactly when "X" is one mark ahead. */
  ghost predicate Balanced(s: Game) {
    && WellFormed(s.grid)
    && OnlyMarks(s.grid)
    && (s.player == "X" || s.player == "O")
    && Count(s.grid, CrossCell) == Count(s.grid, NoughtCell) + (if s.player == "X" then 0 else 1)
  }

  /** An empty board with "X" to move is balanced. */
  lemma EmptyBalanced(s: Game)
    requires WellFormed(s.grid) && s.player == "X"
    requires forall x, y :: InRange(x, y) ==> Get(s.grid, x, y) == Empty
    ensures Balanced(s)
  {
    forall x, y | InRange(x, y)
      ensures s.grid.rows[y][x] == Empty
    {
      assert Get(s.grid, x, y) == Empty;
    }
    AllEmpty(s.grid);
  }

  /** A click keeps the balance between the two marks and the player to move. */
  lemma ClickBalanced(s: Game, px: int, py: int)
    requires Balanced(s) && InWindow(px, py)
    ensures Balanced(Click(s, px, py))
  {
    var x, y := CellIndex(px), CellIndex(py);
    GetMouseKeepsMarks(s.grid, x, y, s.player);
    if Get(s.grid, x, y) == Empty {
      var g' := s.grid.(switchPlayer := true);
      assert Click(s, px, py).grid == Set(g', x, y, Mark(s.player));
      CountOfSet(g', x, y, Mark(s.player), CrossCell);
      CountOfSet(g', x, y, Mark(s.player), NoughtCell);
    }
  }

  /** From any balanced game, every click sequence stays balanced. */
  lemma {:induction false} RunBalanced(s: Game, clicks: seq<(int, int)>)
    requires Balanced(s)
    requires forall k :: 0 <= k < |clicks| ==> InWindow(clicks[k].0, clicks[k].1)
    ensures Balanced(Run(s, clicks))
    decreases |clicks|
  {
    if clicks != [] {
      ClickBalanced(s, clicks[0].0, clicks[0].1);
      RunBalanced(Click(s, clicks[0].0, clicks[0].1), clicks[1..]);
    }
  }

  /** From an empty board with "X" to move, the player is always "X" or "O", and the "X"
      marks never trail the "O" marks nor lead them by more than one. */
  lemma PlayFromEmpty(s: Game, clicks: seq<(int, int)>)
    requires WellFormed(s.grid) && s.player == "X"
    requires forall x, y :: InRange(x, y) ==> Get(s.grid, x, y) == Empty
    requires forall k :: 0 <= k < |clicks| ==> InWindow(clicks[k].0, clicks[k].1)
    ensures var r := Run(s, clicks);
      && (r.player == "X" || r.player == "O")
      && Count(r.grid, NoughtCell) <= Count(r.grid, CrossCell) <= Count(r.grid, NoughtCell) + 1
  {
    EmptyBalanced(s);
    RunBalanced(s, clicks);
  }
}
