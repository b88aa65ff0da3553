/** What one character does, cell by cell, in both builds and wherever the cursor is. */
module TtyCells {
  import opened CInts
  import opened Tty
  import opened TtyRuns

  /** A printable character on the grid: it stands in the cursor's cell, every other cell is as it was,
      and the cursor is in the next cell, after the last column at the start of the next row, and after
      the last row in the first.  Only in the last cell of the scrolling build all rows have moved up
      instead, and the last is blank. */
  lemma PrintableCells(b: Build, t: Term, c: char, y: nat, x: nat)
    requires InGrid(b, t) && Printable(c) && y < |t.screen| && x < b.width
    ensures InGrid(b, Typed(b, t, c)) && |Typed(b, t, c).screen| == |t.screen|
    ensures var r, h := Typed(b, t, c), |t.screen|;
            if b.scroll && t.cx + 1 == b.width && t.cy + 1 == h then
              && r.cx == 0 && r.cy == h - 1
              && r.screen[y][x] == r.page[y][x]
              && r.page[y][x] == if y + 1 == h then ' ' else if (y + 1, x) == (t.cy, t.cx) then c else t.page[y + 1][x]
            else
              && r.cx == (if t.cx + 1 < b.width then t.cx + 1 else 0)
              && r.cy == (if t.cx + 1 < b.width then t.cy else if t.cy + 1 < h then t.cy + 1 else 0)
              && r.screen[y][x] == (if (y, x) == (t.cy, t.cx) then c else t.screen[y][x])
              && r.page[y][x] == (if b.scroll && (y, x) == (t.cy, t.cx) then c else t.page[y][x])
  {
    TypedStays(b, t, c);
    SetCellAt(t.screen, t.cy, t.cx, c, y, x);
    SetCellAt(t.page, t.cy, t.cx, c, y, x);
    if y + 1 < |t.screen| {
      SetCellAt(t.page, t.cy, t.cx, c, y + 1, x);
    }
  }

  /** Any other character that is not one of the four control characters does nothing on the grid. */
  lemma UnprintableIgnored(b: Build, t: Term, c: char)
    requires InGrid(b, t) && !Printable(c) && c !in {'\U{0008}', '\t', '\n', '\r'}
    ensures Typed(b, t, c) == t
  {
  }

  /** A new line, from any cursor: the first column of the next row, after the last row of the first;
      in that row the display is blank from the old column on, and every other cell is as it was.  Only
      on the last row of the scrolling build all rows have moved up instead, and the last is blank. */
  lemma NewLineCells(b: Build, t: Term, y: nat, x: nat)
    requires Sized(b, t) && y < |t.screen| && x < b.width
    ensures InGrid(b, Typed(b, t, '\n')) && |Typed(b, t, '\n').screen| == |t.screen|
    ensures var r, h := Typed(b, t, '\n'), |t.screen|;
            && r.cx == 0
            && (if b.scroll && t.cy + 1 >= h then
                  && r.cy == h - 1
                  && r.screen[y][x] == r.page[y][x] == if y + 1 == h then ' ' else t.page[y + 1][x]
                else
                  && r.cy == (if t.cy + 1 < h then t.cy + 1 else 0)
                  && r.screen[y][x] == (if y == r.cy && x >= t.cx then ' ' else t.screen[y][x])
                  && r.page[y][x] == t.page[y][x])
  {
    TypedStays(b, t, '\n');
  }

  /** A return: the first column of the same row; there the display is blank from the old column on,
      and every other cell and the whole matrix are as they were. */
  lemma ReturnCells(b: Build, t: Term, y: nat, x: nat)
    requires Sized(b, t) && y < |t.screen| && x < b.width
    ensures Sized(b, Typed(b, t, '\r')) && |Typed(b, t, '\r').screen| == |t.screen|
    ensures var r := Typed(b, t, '\r');
            && r.cx == 0 && r.cy == t.cy && r.page == t.page
            && r.screen[y][x] == (if y == t.cy && x >= t.cx then ' ' else t.screen[y][x])
  {
    TypedStays(b, t, '\r');
  }

  /** A backspace: nothing in the first column; otherwise one column back, and the cell there blank on
      display and matrix, every other cell as it was. */
  lemma BackspaceCells(b: Build, t: Term, y: nat, x: nat)
    requires CanType(b, t, '\U{0008}') && y < |t.screen| && x < b.width
    ensures Sized(b, Typed(b, t, '\U{0008}')) && |Typed(b, t, '\U{0008}').screen| == |t.screen|
    ensures var r := Typed(b, t, '\U{0008}');
            if t.cx == 0 then r == t
            else
              && r.cx == t.cx - 1 && r.cy == t.cy
              && r.screen[y][x] == (if (y, x) == (t.cy, t.cx - 1) then ' ' else t.screen[y][x])
              && r.page[y][x] == (if b.scroll && (y, x) == (t.cy, t.cx - 1) then ' ' else t.page[y][x])
  {
    TypedStays(b, t, '\U{0008}');
    if t.cx > 0 {
      SetCellAt(t.screen, t.cy, t.cx - 1, ' ', y, x);
      SetCellAt(t.page, t.cy, t.cx - 1, ' ', y, x);
    }
  }

  /** Off the grid every character but the four control characters is lost and sends the cursor home. */
  lemma OffGridGoesHome(b: Build, t: Term, c: char)
    requires Sized(b, t) && !InGrid(b, t) && c !in {'\U{0008}', '\t', '\n', '\r'}
    ensures Typed(b, t, c) == t.(cx := 0, cy := 0)
  {
  }

  // ---------- spaces ----------

  function Repeated(c: char, n: nat): (s: seq<char>)
    ensures |s| == n
  {
    if n == 0 then [] else Repeated(c, n - 1) + [c]
  }

  lemma {:induction false} NoBackspace(c: char, n: nat)
    requires c != '\U{0008}'
    ensures '\U{0008}' !in Repeated(c, n)
  {
    if n > 0 {
      NoBackspace(c, n - 1);
    }
  }

  lemma {:induction false} SpacesAreTyped(b: Build, t: Term, n: nat)
    requires Sized(b, t)
    ensures CanPut(b, t, Repeated(' ', n))
    ensures Spaces(b, t, n) == Puts(b, t, Repeated(' ', n))
  {
    NoBackspace(' ', n);
    AnyTextCanBePut(b, t, Repeated(' ', n));
    if n > 0 {
      var s := Repeated(' ', n - 1);
      SpacesAreTyped(b, t, n - 1);
      assert (s + [' '])[..|s|] == s;
    }
  }

  /** From any cursor a tab types spaces, one fewer than there are columns to the next multiple of
      eight ... */
  lemma TabTypesSpaces(b: Build, t: Term)
    requires Sized(b, t)
    ensures CanPut(b, t, Repeated(' ', 7 - t.cx % 8))
    ensures Typed(b, t, '\t') == Puts(b, t, Repeated(' ', 7 - t.cx % 8))
  {
    hide Spaces, Puts, Repeated, CanPut, InGrid;
    Divided(t.cx, 8);
    SpacesAreTyped(b, t, TabSpaces(t.cx));
  }

  /** ... and clearing to the end of the line types one for every column left. */
  lemma ClearToEolTypesSpaces(b: Build, t: Term)
    requires Sized(b, t)
    ensures var n := if t.cx < b.width then b.width - t.cx else 0;
            CanPut(b, t, Repeated(' ', n)) && EolCleared(b, t) == Puts(b, t, Repeated(' ', n)).(cx := t.cx)
  {
    hide Spaces, Puts, Repeated, CanPut, Sized, InGrid;
    var n := if t.cx < b.width then b.width - t.cx else 0;
    SpacesAreTyped(b, t, n);
    assert EolCleared(b, t) == Spaces(b, t, n).(cx := t.cx);
  }
}
