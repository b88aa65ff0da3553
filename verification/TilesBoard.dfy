/** The 15-tiles board of 4.Solution/main.c: a 4x4 matrix changed in place by presses.
    The abstract value of the matrix is the sequence of its sixteen cells read row by row,
    so cell (x, y) is entry 4 * y + x.  Value 15 marks the empty cell. */
module TilesBoard {

  const BLANK: nat := 15

  type Board = seq<nat>

  type Cell = c: nat | c < 16

  /** The board after the start-up loops: every tile in its own cell. */
  function Solved(): (b: Board)
    ensures |b| == 16 && forall i :: 0 <= i < 16 ==> b[i] == i
  {
    seq(16, i requires 0 <= i => i)
  }

  /** A board holds each of 0..15 exactly once. */
  ghost predicate IsBoard(b: Board) {
    multiset(b) == multiset(Solved())
  }

  predicate Adjacent(c: Cell, d: Cell) {
    || (c / 4 == d / 4 && (c == d + 1 || d == c + 1))
    || c == d + 4
    || d == c + 4
  }

  function Swap(s: seq<nat>, i: nat, j: nat): (r: seq<nat>)
    requires i < |s| && j < |s|
    ensures |r| == |s|
  {
    s[i := s[j]][j := s[i]]
  }

  function IndexOf(s: seq<nat>, v: nat): (i: nat)
    requires v in s
    ensures i < |s| && s[i] == v
  {
    if s[0] == v then 0 else 1 + IndexOf(s[1..], v)
  }

  /** What one press does: the pressed tile and the blank trade places when they are
      orthogonal neighbours, and otherwise nothing happens. */
  ghost function Press(b: Board, c: Cell): (r: Board)
    requires IsBoard(b)
    ensures IsBoard(r)
  {
    BoardFacts(b);
    var k := BlankCell(b);
    if Adjacent(c, k) then SwapKeepsMultiset(b, c, k); Swap(b, c, k) else b
  }

  ghost function BlankCell(b: Board): (k: Cell)
    requires IsBoard(b)
    ensures |b| == 16 && b[k] == BLANK
  {
    BoardFacts(b);
    IndexOf(b, BLANK)
  }

  /** The board after a whole run of presses. */
  ghost function Run(b: Board, presses: seq<Cell>): (r: Board)
    requires IsBoard(b)
    ensures IsBoard(r)
  {
    if presses == [] then b
    else Press(Run(b, presses[..|presses| - 1]), presses[|presses| - 1])
  }

  lemma RunStep(b: Board, presses: seq<Cell>, i: nat)
    requires IsBoard(b) && i < |presses|
    ensures Run(b, presses[..i + 1]) == Press(Run(b, presses[..i]), presses[i])
  {
    assert presses[..i + 1][..i] == presses[..i];
  }

  // ---------- multiset facts ----------

  lemma BoardFacts(b: Board)
    requires IsBoard(b)
    ensures |b| == 16 && BLANK in b
    ensures forall i :: 0 <= i < 16 ==> b[i] < 16
    ensures forall i, j :: 0 <= i < j < 16 ==> b[i] != b[j]
  {
    assert |b| == |multiset(b)| == |multiset(Solved())| == 16;
    assert Solved()[15] in multiset(Solved());
    assert BLANK in multiset(b);
    forall i | 0 <= i < 16 ensures b[i] < 16 {
      assert b[i] in multiset(b);
      assert b[i] in multiset(Solved());
    }
    forall i, j | 0 <= i < j < 16 ensures b[i] != b[j] {
      if b[i] == b[j] {
        TwiceInMultiset(b, i, j);
        OnceInSolved(b[i]);
      }
    }
  }

  lemma TwiceInMultiset(s: seq<nat>, i: nat, j: nat)
    requires i < j < |s| && s[i] == s[j]
    ensures multiset(s)[s[i]] >= 2
  {
    assert s == s[..i] + [s[i]] + s[i + 1..j] + [s[j]] + s[j + 1..];
  }

  lemma OnceInSolved(v: nat)
    ensures multiset(Solved())[v] <= 1
  {
    if v < 16 {
      var s := Solved();
      assert s == s[..v] + [v] + s[v + 1..];
      assert v !in s[..v] && v !in s[v + 1..];
    } else {
      assert v !in Solved();
    }
  }

  lemma SwapKeepsMultiset(s: seq<nat>, i: nat, j: nat)
    requires i < |s| && j < |s|
    ensures multiset(Swap(s, i, j)) == multiset(s)
  {
  }

  lemma BlankIsUnique(b: Board, k: Cell)
    requires IsBoard(b)
    requires |b| == 16 && b[k] == BLANK
    ensures BlankCell(b) == k
  {
    BoardFacts(b);
  }

  // ---------- coordinates ----------

  function At(b: Board, x: nat, y: nat): nat
    requires |b| == 16 && x < 4 && y < 4
  {
    b[4 * y + x]
  }

  lemma CellCoordinates(c: Cell)
    ensures c % 4 < 4 && c / 4 < 4 && 4 * (c / 4) + c % 4 == c
  {
  }

  lemma SameCells(a: Board, b: Board)
    requires |a| == |b| == 16
    requires forall x, y :: 0 <= x < 4 && 0 <= y < 4 ==> At(a, x, y) == At(b, x, y)
    ensures a == b
  {
    forall c | 0 <= c < 16 ensures a[c] == b[c] {
      CellCoordinates(c);
      assert At(a, c % 4, c / 4) == At(b, c % 4, c / 4);
    }
  }

  lemma SwapAt(b: Board, x: nat, y: nat, u: nat, v: nat, i: nat, j: nat)
    requires |b| == 16 && x < 4 && y < 4 && u < 4 && v < 4 && i < 4 && j < 4
    ensures At(Swap(b, 4 * y + x, 4 * v + u), i, j)
         == if (i, j) == (x, y) then At(b, u, v)
            else if (i, j) == (u, v) then At(b, x, y)
            else At(b, i, j)
  {
  }

  /** Exactly one cell of a board is blank. */
  lemma BlankElsewhere(b: Board, x: nat, y: nat)
    requires IsBoard(b) && |b| == 16
    requires x < 4 && y < 4 && At(b, x, y) == BLANK
    ensures forall i, j :: 0 <= i < 4 && 0 <= j < 4 && (i, j) != (x, y) ==> At(b, i, j) != BLANK
  {
    BoardFacts(b);
    forall i, j | 0 <= i < 4 && 0 <= j < 4 && (i, j) != (x, y) ensures At(b, i, j) != BLANK {
      assert 4 * j + i != 4 * y + x;
    }
  }

  /** The pressed tile has moved, leaving the blank in its cell. */
  ghost predicate Moved(was: Board, b: Board, x: nat, y: nat)
    requires IsBoard(was) && |b| == 16 && x < 4 && y < 4
  {
    b == Press(was, 4 * y + x) && At(b, x, y) == BLANK
  }

  /** Once the tile has moved no later test can succeed: the only blank is where it was. */
  lemma MovedOnce(was: Board, b: Board, x: nat, y: nat, u: nat, v: nat)
    requires IsBoard(was) && |b| == 16
    requires x < 4 && y < 4 && u < 4 && v < 4 && (u, v) != (x, y) && At(b, u, v) == BLANK
    ensures !Moved(was, b, x, y)
  {
    if Moved(was, b, x, y) {
      BlankElsewhere(b, x, y);
    }
  }

  lemma PressMoves(b: Board, x: nat, y: nat, u: nat, v: nat)
    requires IsBoard(b) && |b| == 16
    requires x < 4 && y < 4 && u < 4 && v < 4 && At(b, u, v) == BLANK
    requires (x == u && (y == v + 1 || v == y + 1)) || (y == v && (x == u + 1 || u == x + 1))
    ensures var c: Cell := 4 * y + x; var k: Cell := 4 * v + u;
            Adjacent(c, k) && BlankCell(b) == k && Press(b, c) == Swap(b, c, k)
    ensures At(Press(b, 4 * y + x), x, y) == BLANK
    ensures Press(b, 4 * y + x) != b
  {
    BoardFacts(b);
    BlankIsUnique(b, 4 * v + u);
    SwapAt(b, x, y, u, v, x, y);
  }

  lemma TestSucceeds(was: Board, b: Board, x: nat, y: nat, u: nat, v: nat)
    requires IsBoard(was) && |b| == 16
    requires x < 4 && y < 4 && u < 4 && v < 4 && At(b, u, v) == BLANK
    requires (x == u && (y == v + 1 || v == y + 1)) || (y == v && (x == u + 1 || u == x + 1))
    requires b == was || Moved(was, b, x, y)
    ensures b == was
    ensures Moved(was, Swap(b, 4 * y + x, 4 * v + u), x, y)
    ensures Swap(b, 4 * y + x, 4 * v + u) != was
  {
    MovedOnce(was, b, x, y, u, v);
    PressMoves(was, x, y, u, v);
  }

  /** The blank is the neighbour of (x, y) in the given direction. */
  ghost predicate BlankToward(b: Board, x: nat, y: nat, dx: int, dy: int)
    requires |b| == 16
  {
    0 <= x + dx < 4 && 0 <= y + dy < 4 && At(b, x + dx, y + dy) == BLANK
  }

  lemma PressMisses(b: Board, x: nat, y: nat)
    requires IsBoard(b) && |b| == 16
    requires x < 4 && y < 4
    requires !BlankToward(b, x, y, -1, 0) && !BlankToward(b, x, y, 1, 0)
    requires !BlankToward(b, x, y, 0, -1) && !BlankToward(b, x, y, 0, 1)
    ensures Press(b, 4 * y + x) == b
  {
    var k := BlankCell(b);
    CellCoordinates(k);
    assert At(b, k % 4, k / 4) == BLANK;
  }

  // ---------- the board as an object ----------

  /** The global matrix `m` and the operations that change it. */
  class Tiles {
    const m: array2<nat>

    ghost predicate Shaped()
      reads this
    {
      m.Length0 == 4 && m.Length1 == 4
    }

    /** The cells read row by row. */
    ghost function Cells(): (b: Board)
      requires Shaped()
      reads this, m
      ensures |b| == 16
      ensures forall x, y :: 0 <= x < 4 && 0 <= y < 4 ==> m[x, y] == At(b, x, y)
    {
      FirstCells(16)
    }

    ghost function FirstCells(n: nat): (b: Board)
      requires Shaped() && n <= 16
      reads this, m
      ensures |b| == n
      ensures forall x, y :: 0 <= x < 4 && 0 <= y < 4 && 4 * y + x < n ==> m[x, y] == b[4 * y + x]
    {
      if n == 0 then [] else FirstCells(n - 1) + [m[(n - 1) % 4, (n - 1) / 4]]
    }

    ghost predicate Valid()
      reads this, m
    {
      Shaped() && IsBoard(Cells())
    }

    /** The start-up loops fill the matrix with an increasing counter. */
    constructor ()
      ensures Valid() && fresh(m)
      ensures Cells() == Solved()
    {
      m := new nat[4, 4];
      new;
      var k := 0;
      var y := 0;
      while y < 4
        invariant 0 <= y <= 4 && k == 4 * y
        invariant forall i, j :: 0 <= i < 4 && 0 <= j < y ==> m[i, j] == 4 * j + i
      {
        var x := 0;
        while x < 4
          invariant 0 <= x <= 4 && k == 4 * y + x
          invariant forall i, j :: 0 <= i < 4 && 0 <= j < y ==> m[i, j] == 4 * j + i
          invariant forall i :: 0 <= i < x ==> m[i, y] == 4 * y + i
        {
          m[x, y] := k;
          k := k + 1;
          x := x + 1;
        }
        y := y + 1;
      }
      SameCells(Cells(), Solved());
    }

    /** Moves the tile at (x, y) into the empty cell at (x + dx, y + dy). */
    method TilesSwap(x: nat, y: nat, dx: int, dy: int)
      requires Shaped()
      requires x < 4 && y < 4 && 0 <= x + dx < 4 && 0 <= y + dy < 4
      requires (dx, dy) != (0, 0) && m[x + dx, y + dy] == BLANK
      modifies m
      ensures Cells() == Swap(old(Cells()), 4 * y + x, 4 * (y + dy) + x + dx)
    {
      ghost var was := Cells();
      ghost var goal := Swap(was, 4 * y + x, 4 * (y + dy) + x + dx);
      m[x + dx, y + dy] := m[x, y];
      m[x, y] := 15;
      forall i, j | 0 <= i < 4 && 0 <= j < 4 ensures m[i, j] == At(goal, i, j) {
        SwapAt(was, x, y, x + dx, y + dy, i, j);
      }
      SameCells(Cells(), goal);
    }

    /** One of the four tests of the main loop: if the cell at (x + dx, y + dy) exists and is
        blank, the tile at (x, y) moves there.  The matrix may already differ from the board
        `was` the press found, because an earlier test may have succeeded. */
    method Test(x: nat, y: nat, dx: int, dy: int, ghost was: Board)
      requires Shaped() && IsBoard(was)
      requires x < 4 && y < 4
      requires (dx == 0 && (dy == 1 || dy == -1)) || (dy == 0 && (dx == 1 || dx == -1))
      requires Cells() == was || Moved(was, Cells(), x, y)
      modifies m
      ensures Cells() == was || Moved(was, Cells(), x, y)
      ensures old(Cells()) != was ==> Cells() == old(Cells())
      ensures Cells() == was ==> !BlankToward(was, x, y, dx, dy)
    {
      if 0 <= x + dx < 4 && 0 <= y + dy < 4 && m[x + dx, y + dy] == 15 {
        TestSucceeds(was, Cells(), x, y, x + dx, y + dy);
        TilesSwap(x, y, dx, dy);
      }
    }

    /** One pass of the main loop: the four tests in the order left, right, up, down. */
    method PressAt(x: nat, y: nat)
      requires Valid()
      requires x < 4 && y < 4
      modifies m
      ensures Valid()
      ensures Cells() == Press(old(Cells()), 4 * y + x)
    {
      ghost var was := Cells();
      Test(x, y, -1, 0, was);
      Test(x, y, 1, 0, was);
      Test(x, y, 0, -1, was);
      Test(x, y, 0, 1, was);
      if Cells() == was {
        PressMisses(was, x, y);
      }
    }

    /** The endless main loop, cut off after the given presses. */
    method Play(presses: seq<Cell>)
      requires Valid()
      modifies m
      ensures Valid()
      ensures Cells() == Run(old(Cells()), presses)
    {
      hide Press, IsBoard, Shaped;
      ghost var start := Cells();
      for i := 0 to |presses|
        invariant Valid()
        invariant Cells() == Run(start, presses[..i])
      {
        CellCoordinates(presses[i]);
        RunStep(start, presses, i);
        PressAt(presses[i] % 4, presses[i] / 4);
      }
      assert presses[..|presses|] == presses;
    }
  }
}
