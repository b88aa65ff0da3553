/** The touch grid of bsp/pic24f_mikromedia/grid.c: the screen divided into cells, and a button
    press found in a stream of noisy touch samples. */
module Grid {
  import opened CInts
  import opened Wrappers

  const WIDTH: nat := 320
  const HEIGHT: nat := 240

  /** One reading of the touch screen; a negative coordinate means it is not touched. */
  datatype Sample = Sample(x: int, y: int)

  /** The two coordinates have four bits each. */
  datatype Code = Code(x: nat, y: nat, option: bool)

  /** A button read from a finite stretch of samples: still waiting when they run out, or returned
      after `used` of them.  The returned code may never have been set. */
  datatype Outcome = Waiting | Returned(used: nat, code: Option<Code>)

  predicate Pressed(s: Sample) {
    s.x >= 0 && s.y >= 0
  }

  // ---------- the declarative reading of a button ----------

  /** The ten samples before e are all pressed. */
  ghost predicate PressWindow(s: seq<Sample>, e: nat) {
    10 <= e <= |s| && forall k :: e - 10 <= k < e ==> Pressed(s[k])
  }

  /** The ten samples before e are all untouched. */
  ghost predicate ReleaseWindow(s: seq<Sample>, e: nat) {
    10 <= e <= |s| && forall k :: e - 10 <= k < e ==> !Pressed(s[k])
  }

  /** e is the end of the first window of ten pressed samples. */
  ghost predicate PressEnds(s: seq<Sample>, e: nat) {
    PressWindow(s, e) && forall d: nat :: PressWindow(s, d) ==> e <= d
  }

  /** e is the end of the first window of ten untouched samples that lies after p. */
  ghost predicate ReleaseEnds(s: seq<Sample>, p: nat, e: nat) {
    && p + 10 <= e && ReleaseWindow(s, e)
    && forall d: nat :: p + 10 <= d && ReleaseWindow(s, d) ==> e <= d
  }

  ghost predicate NonePressed(s: seq<Sample>, from: nat, to: nat)
    requires to <= |s|
  {
    forall k :: from <= k < to ==> !Pressed(s[k])
  }

  function CountPressed(s: seq<Sample>, from: nat, to: nat): nat
    requires from <= to <= |s|
  {
    if from == to then 0 else CountPressed(s, from, to - 1) + if Pressed(s[to - 1]) then 1 else 0
  }

  /** The last pressed sample of a stretch. */
  ghost predicate LastPressed(s: seq<Sample>, from: nat, to: nat, k: nat)
    requires to <= |s|
  {
    from <= k < to && Pressed(s[k]) && NonePressed(s, k + 1, to)
  }

  class TouchGrid {
    var xSide: nat
    var ySide: nat

    constructor (x: nat, y: nat)
      requires 0 < x <= WIDTH && 0 < y <= HEIGHT
      ensures xSide == WIDTH / x && ySide == HEIGHT / y
      ensures xSide > 0 && ySide > 0
    {
      xSide, ySide := 1, 1;
      new;
      SizeSet(x, y);
      SideIsPositive(WIDTH, x);
      SideIsPositive(HEIGHT, y);
    }

    method SizeSet(x: nat, y: nat)
      requires x > 0 && y > 0
      modifies this
      ensures xSide == WIDTH / x && ySide == HEIGHT / y
    {
      xSide := WIDTH / x;
      ySide := HEIGHT / y;
    }

    function CellOf(s: Sample): Code
      requires xSide > 0 && ySide > 0 && Pressed(s)
      reads this
    {
      Code((s.x / xSide) % 16, (s.y / ySide) % 16, false)
    }

    /** The touch lies in the cell: between its sides, columns and rows each by their own size. */
    predicate Holds(c: Code, s: Sample)
      reads this
    {
      && c.x * xSide <= s.x < (c.x + 1) * xSide
      && c.y * ySide <= s.y < (c.y + 1) * ySide
    }

    /** One reading, turned into a cell if the screen is touched. */
    method TouchGet(s: Sample) returns (r: Option<Code>)
      requires xSide > 0 && ySide > 0
      ensures r == if Pressed(s) then Some(CellOf(s)) else None
      ensures r.Some? <==> s.x >= 0 && s.y >= 0
      ensures r.Some? && s.x < 16 * xSide && s.y < 16 * ySide ==> Holds(r.value, s)
    {
      if Pressed(s) {
        CellHolds(this, s);
      }
      if s.x < 0 || s.y < 0 {
        return None;
      }
      r := Some(Code((s.x / xSide) % 16, (s.y / ySide) % 16, false));
    }

    /** What a button read returns between the end p of the press and the end e of the release:
        the cell of the last pressed sample in between, never set if there is none; a long press
        exactly when the 16-bit counter, ten plus the pressed samples in between, exceeds 500. */
    ghost predicate ReturnedCode(s: seq<Sample>, p: nat, e: nat, code: Option<Code>)
      requires xSide > 0 && ySide > 0 && p <= e <= |s|
      reads this
    {
      match code
      case None => NonePressed(s, p, e)
      case Some(c) =>
        exists k: nat ::
          && LastPressed(s, p, e, k)
          && c == CellOf(s[k]).(option := Int16(10 + CountPressed(s, p, e)) > 500)
    }

    /** The first loop: counts pressed samples in a row up to ten. */
    method AwaitPress(s: seq<Sample>) returns (done: bool, i: nat)
      requires xSide > 0 && ySide > 0
      ensures done ==> PressEnds(s, i)
      ensures !done ==> forall p: nat :: !PressEnds(s, p)
    {
      var pressed := 0;
      i := 0;
      while pressed < 10
        invariant 0 <= pressed <= 10 && pressed <= i <= |s|
        invariant forall k :: i - pressed <= k < i ==> Pressed(s[k])
        invariant pressed < i && pressed < 10 ==> !Pressed(s[i - pressed - 1])
        invariant forall d: nat :: d <= i && PressWindow(s, d) ==> d == i && pressed == 10
        decreases |s| - i
      {
        if i == |s| {
          return false, i;
        }
        var code := TouchGet(s[i]);
        if code.Some? {
          pressed := pressed + 1;
        } else {
          pressed := 0;
        }
        i := i + 1;
      }
      done := true;
    }

    /** The second loop: counts untouched samples in a row up to ten, remembers the last cell, and
        goes on counting pressed samples where the first loop stopped, at ten. */
    method AwaitRelease(s: seq<Sample>, p: nat) returns (done: bool, i: nat, code: Option<Code>, pressed: int)
      requires xSide > 0 && ySide > 0 && p <= |s|
      ensures !done ==> forall e: nat :: !ReleaseEnds(s, p, e)
      ensures done ==> ReleaseEnds(s, p, i) && pressed == Int16(10 + CountPressed(s, p, i))
      ensures done && code == None ==> NonePressed(s, p, i)
      ensures done && code.Some? ==> exists k: nat :: LastPressed(s, p, i, k) && code.value == CellOf(s[k])
    {
      hide Int16, CellOf;
      var released := 0;
      ghost var at := 0;
      pressed, i, code := 10, p, None;
      TenFits();
      while released < 10
        invariant 0 <= released <= 10 && p + released <= i <= |s|
        invariant NonePressed(s, i - released, i)
        invariant p + released < i && released < 10 ==> Pressed(s[i - released - 1])
        invariant forall d: nat :: p + 10 <= d <= i && ReleaseWindow(s, d) ==> d == i && released == 10
        invariant pressed == Int16(10 + CountPressed(s, p, i))
        invariant code == None ==> NonePressed(s, p, i)
        invariant code.Some? ==> LastPressed(s, p, i, at) && code.value == CellOf(s[at])
        decreases |s| - i
      {
        if i == |s| {
          done := false;
          return;
        }
        var sample := TouchGet(s[i]);
        if sample.Some? {
          code := sample;
          at := i;
          released := 0;
          Int16Next(10 + CountPressed(s, p, i));
          pressed := Int16(pressed + 1);
        } else {
          released := released + 1;
        }
        i := i + 1;
      }
      done := true;
    }

    /** Waits for a press and its release.  The press ends with the first ten pressed samples in a
        row, the release with the first ten untouched ones in a row after that. */
    method ButtonGet(s: seq<Sample>) returns (r: Outcome)
      requires xSide > 0 && ySide > 0
      ensures r.Waiting? ==> forall p: nat, e: nat :: PressEnds(s, p) ==> !ReleaseEnds(s, p, e)
      ensures r.Returned? ==>
                exists p: nat :: PressEnds(s, p) && ReleaseEnds(s, p, r.used) && ReturnedCode(s, p, r.used, r.code)
    {
      var pressDone, p := AwaitPress(s);
      if !pressDone {
        return Waiting;
      }
      var done, e, code, pressed := AwaitRelease(s, p);
      if !done {
        forall q: nat, f: nat | PressEnds(s, q) ensures !ReleaseEnds(s, q, f) {
          PressEndIsUnique(s, p, q);
        }
        return Waiting;
      }
      if pressed > 500 && code.Some? {
        code := Some(code.value.(option := true));
      }
      r := Returned(e, code);
      assert ReturnedCode(s, p, e, code);
    }
  }

  lemma PressEndIsUnique(s: seq<Sample>, p: nat, q: nat)
    requires PressEnds(s, p) && PressEnds(s, q)
    ensures p == q
  {
    assert PressWindow(s, p) && PressWindow(s, q);
  }

  // ---------- what follows ----------

  /** The ends of press and release are determined by the samples. */
  lemma EndsAreUnique(s: seq<Sample>, p: nat, e: nat, q: nat, f: nat)
    requires PressEnds(s, p) && ReleaseEnds(s, p, e) && PressEnds(s, q) && ReleaseEnds(s, q, f)
    ensures p == q && e == f
  {
    PressEndIsUnique(s, p, q);
    assert ReleaseWindow(s, e) && ReleaseWindow(s, f);
  }

  /** ... and with them the code. */
  lemma CodeIsUnique(grid: TouchGrid, s: seq<Sample>, p: nat, e: nat, c: Code, d: Code)
    requires grid.xSide > 0 && grid.ySide > 0 && p <= e <= |s|
    requires grid.ReturnedCode(s, p, e, Some(c)) && grid.ReturnedCode(s, p, e, Some(d))
    ensures c == d
  {
    hide Int16, CountPressed, TouchGrid.CellOf;
    var long := Int16(10 + CountPressed(s, p, e)) > 500;
    var k: nat :| LastPressed(s, p, e, k) && c == grid.CellOf(s[k]).(option := long);
    var l: nat :| LastPressed(s, p, e, l) && d == grid.CellOf(s[l]).(option := long);
    assert k == l;
  }

  lemma TenFits()
    ensures Int16(10) == 10
  {
  }

  lemma Between(v: nat, side: nat)
    requires side > 0
    ensures (v / side) * side <= v < (v / side + 1) * side
    ensures v < 16 * side ==> (v / side) % 16 == v / side
  {
    Divided(v, side);
    assert side * (v / side) == (v / side) * side;
    if v < 16 * side && v / side >= 16 {
      Larger(side, v / side, 16);
    }
  }

  /** As far as four bits can number them, a touch gives the cell it lies in. */
  lemma CellHolds(grid: TouchGrid, s: Sample)
    requires grid.xSide > 0 && grid.ySide > 0 && Pressed(s)
    ensures s.x < 16 * grid.xSide && s.y < 16 * grid.ySide ==> grid.Holds(grid.CellOf(s), s)
    ensures grid.CellOf(s).x < 16 && grid.CellOf(s).y < 16
  {
    Between(s.x, grid.xSide);
    Between(s.y, grid.ySide);
  }

  /** No touch lies in two cells. */
  lemma HeldByOneCell(grid: TouchGrid, s: Sample, c: Code, d: Code)
    requires grid.xSide > 0 && grid.ySide > 0 && grid.Holds(c, s) && grid.Holds(d, s)
    ensures c.x == d.x && c.y == d.y
  {
    ModUnique(s.x, grid.xSide, c.x, s.x - c.x * grid.xSide);
    ModUnique(s.x, grid.xSide, d.x, s.x - d.x * grid.xSide);
    ModUnique(s.y, grid.ySide, c.y, s.y - c.y * grid.ySide);
    ModUnique(s.y, grid.ySide, d.y, s.y - d.y * grid.ySide);
  }

  /** The button returned is the cell that the last touch before the release lies in. */
  lemma ButtonHoldsLastTouch(grid: TouchGrid, s: seq<Sample>, p: nat, e: nat, code: Code) returns (k: nat)
    requires grid.xSide > 0 && grid.ySide > 0 && p <= e <= |s| && grid.ReturnedCode(s, p, e, Some(code))
    ensures LastPressed(s, p, e, k)
    ensures s[k].x < 16 * grid.xSide && s[k].y < 16 * grid.ySide ==> grid.Holds(code, s[k])
  {
    hide Int16, CountPressed;
    k :| LastPressed(s, p, e, k) && code == grid.CellOf(s[k]).(option := code.option);
    CellHolds(grid, s[k]);
  }

  lemma SideIsPositive(size: nat, n: nat)
    requires 0 < n <= size
    ensures size / n > 0
  {
  }

  lemma LongPressExactly(n: nat)
    ensures Int16(10 + n) > 500 <==> 500 < (10 + n) % 65536 < 32768
  {
  }

  /** The flag of a button says that the pressed samples, ten for the press and those counted while
      waiting for the release, exceed 500, but in sixteen bits: a press so long that the count runs
      past an int is a short one again. */
  lemma LongPressIff(grid: TouchGrid, s: seq<Sample>, p: nat, e: nat, code: Code)
    requires grid.xSide > 0 && grid.ySide > 0 && p <= e <= |s| && grid.ReturnedCode(s, p, e, Some(code))
    ensures code.option <==> 500 < (10 + CountPressed(s, p, e)) % 65536 < 32768
  {
    hide Int16;
    LongPressExactly(CountPressed(s, p, e));
  }

  /** The code returned was never set if and only if the release came at once: the ten samples after
      the press are all untouched. */
  lemma NeverSetIffReleasedAtOnce(s: seq<Sample>, p: nat, e: nat)
    requires PressEnds(s, p) && ReleaseEnds(s, p, e)
    ensures NonePressed(s, p, e) <==> e == p + 10
  {
    if NonePressed(s, p, e) {
      assert ReleaseWindow(s, p + 10);
    }
  }

  /** The screen held for n samples and then left alone for ten. */
  function Held(n: nat): (s: seq<Sample>)
    ensures |s| == n + 10 && forall k :: 0 <= k < n + 10 ==> (Pressed(s[k]) <==> k < n)
  {
    seq(n, _ => Sample(0, 0)) + seq(10, _ => Sample(-1, -1))
  }

  lemma {:induction false} HeldCount(n: nat, end: nat)
    requires 10 <= n && 10 <= end <= n + 10
    ensures CountPressed(Held(n), 10, end) == if end <= n then end - 10 else n - 10
    decreases end
  {
    if end > 10 {
      HeldCount(n, end - 1);
    }
  }

  /** Both failures on such streams: a button held for exactly ten samples returns a code that was
      never set, and one held for n samples is a long press if and only if n, cut to sixteen bits, lies
      above 500 and within an int.  Held for 32768 samples it is short. */
  lemma HeldButton(grid: TouchGrid, n: nat)
    requires grid.xSide > 0 && grid.ySide > 0 && n >= 10
    ensures PressEnds(Held(n), 10) && ReleaseEnds(Held(n), 10, n + 10)
    ensures grid.ReturnedCode(Held(n), 10, n + 10, None) <==> n == 10
    ensures n > 10 ==> exists code :: grid.ReturnedCode(Held(n), 10, n + 10, Some(code))
    ensures forall code :: grid.ReturnedCode(Held(n), 10, n + 10, Some(code))
                           ==> (code.option <==> 500 < n % 65536 < 32768)
    ensures forall code :: n == 32768 && grid.ReturnedCode(Held(n), 10, n + 10, Some(code)) ==> !code.option
  {
    hide Int16, CountPressed;
    var s := Held(n);
    HeldEnds(n);
    HeldCount(n, n + 10);
    NeverSetIffReleasedAtOnce(s, 10, n + 10);
    forall code | grid.ReturnedCode(s, 10, n + 10, Some(code))
      ensures code.option <==> 500 < n % 65536 < 32768
    {
      LongPressIff(grid, s, 10, n + 10, code);
    }
    if n > 10 {
      assert LastPressed(s, 10, n + 10, n - 1);
      var code := grid.CellOf(s[n - 1]).(option := Int16(10 + CountPressed(s, 10, n + 10)) > 500);
      assert grid.ReturnedCode(s, 10, n + 10, Some(code));
    }
  }

  lemma HeldEnds(n: nat)
    requires n >= 10
    ensures PressEnds(Held(n), 10) && ReleaseEnds(Held(n), 10, n + 10)
  {
    var s := Held(n);
    assert PressWindow(s, 10) && ReleaseWindow(s, n + 10);
    forall d: nat | 20 <= d && ReleaseWindow(s, d) ensures n + 10 <= d {
      assert !Pressed(s[d - 10]);
    }
  }

  lemma QuotientBelow(x: nat, side: nat, n: nat)
    requires side > 0 && x < side * n
    ensures x / side < n
  {
    Divided(x, side);
    if x / side >= n {
      Larger(side, x / side, n);
    }
  }

  /** The cell of a pixel along one side, before it is cut to four bits. */
  function CellAlong(size: nat, n: nat, x: nat): nat
    requires 0 < n <= size
  {
    SideIsPositive(size, n);
    x / (size / n)
  }

  lemma CellsFit(size: nat, n: nat, x: nat)
    requires 0 < n <= size && size % n == 0 && x < size
    ensures CellAlong(size, n, x) < n
  {
    SideIsPositive(size, n);
    Divided(size, n);
    var side := size / n;
    assert n * side == side * n;
    QuotientBelow(x, side, n);
  }

  /** Otherwise the cell size is rounded down and some pixel lies in a cell too many. */
  lemma OneCellTooMany(size: nat, n: nat) returns (x: nat)
    requires 0 < n <= size && size % n != 0
    ensures x < size && CellAlong(size, n, x) == n
  {
    SideIsPositive(size, n);
    Divided(size, n);
    x := n * (size / n);
    ModUnique(x, size / n, n, 0);
  }

  /** Along one side of up to sixteen cells, every pixel lies in a cell of the grid if and only if the
      number of cells divides the size. */
  lemma AllFitIffDivides(size: nat, n: nat)
    requires 0 < n <= size
    ensures (forall x: nat :: x < size ==> CellAlong(size, n, x) < n) <==> size % n == 0
  {
    hide CellAlong;
    if size % n == 0 {
      forall x: nat | x < size ensures CellAlong(size, n, x) < n {
        CellsFit(size, n, x);
      }
    } else {
      var x := OneCellTooMany(size, n);
    }
  }

  predicate OnScreen(s: Sample) {
    0 <= s.x < WIDTH && 0 <= s.y < HEIGHT
  }

  /** The code of a touch is a cell of the grid of nx by ny, and the touch lies in it. */
  predicate GoodCell(grid: TouchGrid, nx: nat, ny: nat, s: Sample)
    requires grid.xSide > 0 && grid.ySide > 0 && Pressed(s)
    reads grid
  {
    grid.CellOf(s).x < nx && grid.CellOf(s).y < ny && grid.Holds(grid.CellOf(s), s)
  }

  /** Main theorem, for all grids that four bits can number: every touch of the screen gives a cell of
      the grid, the one it lies in, if and only if the numbers of cells divide the screen exactly.
      Otherwise the cells are rounded down and the last pixels give a cell too many, or with sixteen
      cells the first. */
  lemma CellsFitIffDivides(grid: TouchGrid, nx: nat, ny: nat)
    requires 0 < nx <= 16 && 0 < ny <= 16
    requires grid.xSide == WIDTH / nx && grid.ySide == HEIGHT / ny
    ensures grid.xSide > 0 && grid.ySide > 0
    ensures (forall s: Sample :: OnScreen(s) ==> GoodCell(grid, nx, ny, s)) <==> WIDTH % nx == 0 && HEIGHT % ny == 0
  {
    hide CellAlong, GoodCell, TouchGrid.CellOf;
    SideIsPositive(WIDTH, nx);
    SideIsPositive(HEIGHT, ny);
    AllFitIffDivides(WIDTH, nx);
    AllFitIffDivides(HEIGHT, ny);
    forall s: Sample | OnScreen(s)
      ensures GoodCell(grid, nx, ny, s) <==> CellAlong(WIDTH, nx, s.x) < nx && CellAlong(HEIGHT, ny, s.y) < ny
    {
      GoodIffFits(grid, nx, ny, s);
    }
    if WIDTH % nx != 0 {
      var x: nat :| x < WIDTH && CellAlong(WIDTH, nx, x) >= nx;
      assert OnScreen(Sample(x, 0)) && !GoodCell(grid, nx, ny, Sample(x, 0));
    }
    if HEIGHT % ny != 0 {
      var y: nat :| y < HEIGHT && CellAlong(HEIGHT, ny, y) >= ny;
      assert OnScreen(Sample(0, y)) && !GoodCell(grid, nx, ny, Sample(0, y));
    }
  }

  lemma GoodIffFits(grid: TouchGrid, nx: nat, ny: nat, s: Sample)
    requires 0 < nx <= 16 && 0 < ny <= 16 && OnScreen(s)
    requires grid.xSide == WIDTH / nx > 0 && grid.ySide == HEIGHT / ny > 0
    ensures GoodCell(grid, nx, ny, s) <==> CellAlong(WIDTH, nx, s.x) < nx && CellAlong(HEIGHT, ny, s.y) < ny
  {
    GoodAlong(s.x, grid.xSide, nx);
    GoodAlong(s.y, grid.ySide, ny);
  }

  lemma GoodAlong(v: nat, side: nat, n: nat)
    requires side > 0 && n <= 16
    ensures var c := (v / side) % 16;
            c < n && c * side <= v < (c + 1) * side <==> v / side < n
  {
    Between(v, side);
    var c := (v / side) % 16;
    if c * side <= v < (c + 1) * side {
      ModUnique(v, side, c, v - c * side);
    }
  }

  lemma ThirdColumns(x: nat)
    requires x < WIDTH
    ensures (x / (WIDTH / 3)) % 16 < 3 <==> x < 318
    ensures x >= 318 ==> (x / (WIDTH / 3)) % 16 == 3
  {
    var q := if x < 106 then 0 else if x < 212 then 1 else if x < 318 then 2 else 3;
    ModUnique(x, 106, q, x - 106 * q);
  }

  /** The grid of three by three is such a grid: a touch near the right edge gives a fourth column. */
  lemma ThreeByThreeMisses(grid: TouchGrid, s: Sample)
    requires grid.xSide == WIDTH / 3 && grid.ySide == HEIGHT / 3
    requires Pressed(s) && s.x < WIDTH && s.y < HEIGHT
    ensures grid.CellOf(s).x <= 3 && (grid.CellOf(s).x == 3 <==> s.x >= 318)
    ensures grid.CellOf(s).y < 3
  {
    ThirdColumns(s.x);
    ThirdRows(s.y);
  }

  lemma ThirdRows(y: nat)
    requires y < HEIGHT
    ensures (y / (HEIGHT / 3)) % 16 < 3
  {
    var q := if y < 80 then 0 else if y < 160 then 1 else 2;
    ModUnique(y, 80, q, y - 80 * q);
  }

  /** The game's grid of four by four: a touch on the screen always gives a cell of the board. */
  lemma FourByFourFits(s: Sample)
    requires Pressed(s) && s.x < WIDTH && s.y < HEIGHT
    ensures (s.x / (WIDTH / 4)) % 16 < 4 && (s.y / (HEIGHT / 4)) % 16 < 4
  {
    CellsFit(WIDTH, 4, s.x);
    CellsFit(HEIGHT, 4, s.y);
  }
}
