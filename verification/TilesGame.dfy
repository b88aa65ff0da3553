/** The game as it is played: buttons read from the touch screen drive the board. */
module TilesGame {
  import opened TilesBoard
  import opened TilesParity
  import opened Wrappers

  import Grid

  /** Every touch lies on the screen. */
  ghost predicate OnScreen(s: seq<Grid.Sample>) {
    forall k :: 0 <= k < |s| && Grid.Pressed(s[k]) ==> Grid.OnScreen(s[k])
  }

  /** Whatever is touched on the screen, the button read is a cell of the board. */
  lemma ButtonIsACell(grid: Grid.TouchGrid, s: seq<Grid.Sample>, p: nat, used: nat, code: Grid.Code)
    requires grid.xSide == Grid.WIDTH / 4 && grid.ySide == Grid.HEIGHT / 4
    requires OnScreen(s) && p <= used <= |s| && grid.ReturnedCode(s, p, used, Some(code))
    ensures code.x < 4 && code.y < 4
  {
    var k: nat :| Grid.LastPressed(s, p, used, k) && code == grid.CellOf(s[k]).(option := code.option);
    Grid.FourByFourFits(s[k]);
  }

  /** The stretch holds a button with a code that was set, and it is the given cell. */
  ghost predicate ButtonOf(grid: Grid.TouchGrid, s: seq<Grid.Sample>, cell: int)
    requires grid.xSide > 0 && grid.ySide > 0
    reads grid
  {
    exists p: nat, used: nat, code :: ReadsButton(grid, s, p, used, code) && cell == 4 * code.y + code.x
  }

  ghost predicate ReadsButton(grid: Grid.TouchGrid, s: seq<Grid.Sample>, p: nat, used: nat, code: Grid.Code)
    requires grid.xSide > 0 && grid.ySide > 0
    reads grid
  {
    Grid.PressEnds(s, p) && Grid.ReleaseEnds(s, p, used) && grid.ReturnedCode(s, p, used, Some(code))
  }

  lemma IsAButton(grid: Grid.TouchGrid, s: seq<Grid.Sample>, p: nat, used: nat, code: Grid.Code)
    requires grid.xSide > 0 && grid.ySide > 0
    requires Grid.PressEnds(s, p) && Grid.ReleaseEnds(s, p, used) && grid.ReturnedCode(s, p, used, Some(code))
    ensures ButtonOf(grid, s, 4 * code.y + code.x)
  {
    assert ReadsButton(grid, s, p, used, code);
  }

  /** A code that was never set is no button. */
  lemma NeverSetIsNoButton(grid: Grid.TouchGrid, s: seq<Grid.Sample>, p: nat, used: nat)
    requires grid.xSide > 0 && grid.ySide > 0
    requires Grid.PressEnds(s, p) && Grid.ReleaseEnds(s, p, used) && grid.ReturnedCode(s, p, used, None)
    ensures forall c :: !ButtonOf(grid, s, c)
  {
    forall q: nat, f: nat, code ensures !ReadsButton(grid, s, q, f, code) {
      if ReadsButton(grid, s, q, f, code) {
        Grid.EndsAreUnique(s, p, used, q, f);
        assert false;
      }
    }
  }

  lemma WaitingIsNoButton(grid: Grid.TouchGrid, s: seq<Grid.Sample>)
    requires grid.xSide > 0 && grid.ySide > 0
    requires forall p: nat, e: nat :: Grid.PressEnds(s, p) ==> !Grid.ReleaseEnds(s, p, e)
    ensures forall c :: !ButtonOf(grid, s, c)
  {
  }

  /** The main loop: a button is read from each stretch of samples and pressed on the board.  Play
      ends with a stretch that holds no button, because it runs out or its code was never set.
      Whatever is touched, every button is a cell of the board, the cells pressed are the buttons of
      the stretches in their order, and the board stays in the class of the solved one. */
  method Play(tiles: Tiles, grid: Grid.TouchGrid, stretches: seq<seq<Grid.Sample>>) returns (ghost presses: seq<Cell>)
    requires tiles.Valid() && EvenBoard(tiles.Cells())
    requires grid.xSide == Grid.WIDTH / 4 && grid.ySide == Grid.HEIGHT / 4
    requires forall n :: 0 <= n < |stretches| ==> OnScreen(stretches[n])
    modifies tiles.m
    ensures tiles.Valid() && |presses| <= |stretches|
    ensures forall n :: 0 <= n < |presses| ==> ButtonOf(grid, stretches[n], presses[n])
    ensures |presses| < |stretches| ==> forall c :: !ButtonOf(grid, stretches[|presses|], c)
    ensures tiles.Cells() == Run(old(tiles.Cells()), presses) && EvenBoard(tiles.Cells())
  {
    hide Run, EvenBoard, Press, IsBoard, Grid.PressEnds, ButtonOf, ReadsButton, OnScreen, Grid.TouchGrid.ReturnedCode;
    ghost var start := tiles.Cells();
    presses := [];
    NoRun(start);
    for n := 0 to |stretches|
      invariant tiles.Valid() && |presses| == n
      invariant forall k :: 0 <= k < n ==> ButtonOf(grid, stretches[k], presses[k])
      invariant tiles.Cells() == Run(start, presses)
    {
      var q := grid.ButtonGet(stretches[n]);
      if q.Waiting? {
        WaitingIsNoButton(grid, stretches[n]);
        break;
      }
      ghost var p: nat :| && Grid.PressEnds(stretches[n], p) && Grid.ReleaseEnds(stretches[n], p, q.used)
                          && grid.ReturnedCode(stretches[n], p, q.used, q.code);
      if q.code == None {
        NeverSetIsNoButton(grid, stretches[n], p, q.used);
        break;
      }
      var code := q.code.value;
      ButtonIsACell(grid, stretches[n], p, q.used, code);
      IsAButton(grid, stretches[n], p, q.used, code);
      ghost var c: Cell := 4 * code.y + code.x;
      RunOneMore(start, presses, c);
      tiles.PressAt(code.x, code.y);
      presses := presses + [c];
    }
    RunKeepsParity(start, presses);
  }

  /** The samples of a stretch decide the cell pressed. */
  lemma ButtonIsUnique(grid: Grid.TouchGrid, s: seq<Grid.Sample>, c: int, d: int)
    requires grid.xSide > 0 && grid.ySide > 0 && ButtonOf(grid, s, c) && ButtonOf(grid, s, d)
    ensures c == d
  {
    var p: nat, e: nat, code :| ReadsButton(grid, s, p, e, code) && c == 4 * code.y + code.x;
    var q: nat, f: nat, other :| ReadsButton(grid, s, q, f, other) && d == 4 * other.y + other.x;
    Grid.EndsAreUnique(s, p, e, q, f);
    Grid.CodeIsUnique(grid, s, p, e, code, other);
  }

  lemma NoRun(b: Board)
    requires IsBoard(b)
    ensures Run(b, []) == b
  {
  }

  lemma RunOneMore(b: Board, presses: seq<Cell>, c: Cell)
    requires IsBoard(b)
    ensures Run(b, presses + [c]) == Press(Run(b, presses), c)
  {
    assert (presses + [c])[..|presses|] == presses;
  }
}
