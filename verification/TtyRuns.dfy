/** What holds of the terminal over every text. */
module TtyRuns {
  import opened CInts
  import opened Tty

  // ---------- scrolling in place refines a page that never scrolls ----------

  /** The first row of the bottom window of height h when the last row used is `row`. */
  function Top(row: nat, h: nat): nat {
    if row < h then 0 else row - h + 1
  }

  /** t shows the bottom window of the taller terminal u, whose rows below the cursor are blank. */
  ghost predicate Window(b: Build, t: Term, u: Term) {
    && InGrid(b, t) && InGrid(b, u) && |t.page| <= |u.page|
    && t.cx == u.cx && t.cy == u.cy - Top(u.cy, |t.page|)
    && t.page == u.page[Top(u.cy, |t.page|)..][..|t.page|]
    && forall j :: u.cy < j < |u.page| ==> u.page[j] == Blank(b.width)
  }

  lemma DownWindow(b: Build, t: Term, u: Term)
    requires b.scroll && Window(b, t, u) && u.cy + 1 < |u.page|
    ensures Window(b, Down(b, t), Down(b, u)) && Down(b, u) == u.(cy := u.cy + 1)
  {
    var h := |t.page|;
    var top := Top(u.cy, h);
    if t.cy + 1 == h {
      assert u.page[top + 1..][..h] == u.page[top..][..h][1..] + [u.page[top + h]];
    }
  }

  lemma StoreWindow(b: Build, t: Term, u: Term, c: char)
    requires b.scroll && Window(b, t, u)
    ensures var t' := t.(page := SetCell(t.page, t.cy, t.cx, c), screen := SetCell(t.screen, t.cy, t.cx, c));
            var u' := u.(page := SetCell(u.page, u.cy, u.cx, c), screen := SetCell(u.screen, u.cy, u.cx, c));
            Window(b, t', u')
  {
    var top, h := Top(u.cy, |t.page|), |t.page|;
    var p, q := SetCell(t.page, t.cy, t.cx, c), SetCell(u.page, u.cy, u.cx, c);
    forall j | 0 <= j < h ensures p[j] == q[top..][..h][j] {
      assert t.page[j] == u.page[top..][..h][j] == u.page[top + j];
    }
    assert p == q[top..][..h];
  }

  lemma PutWindow(b: Build, t: Term, u: Term, c: char)
    requires b.scroll && Window(b, t, u) && u.cy + 1 < |u.page|
    ensures Window(b, Put(b, t, c), Put(b, u, c))
    ensures Put(b, u, c).cy <= u.cy + 1 && |Put(b, u, c).page| == |u.page| && |Put(b, t, c).page| == |t.page|
  {
    if Printable(c) {
      StoreWindow(b, t, u, c);
      var t' := t.(page := SetCell(t.page, t.cy, t.cx, c), screen := SetCell(t.screen, t.cy, t.cx, c));
      var u' := u.(page := SetCell(u.page, u.cy, u.cx, c), screen := SetCell(u.screen, u.cy, u.cx, c));
      if t.cx + 1 == b.width {
        DownWindow(b, t'.(cx := 0), u'.(cx := 0));
      }
    }
  }

  lemma {:induction false} SpacesWindow(b: Build, t: Term, u: Term, n: nat)
    requires b.scroll && Window(b, t, u) && u.cy + n < |u.page|
    ensures Window(b, Spaces(b, t, n), Spaces(b, u, n))
    ensures Spaces(b, u, n).cy <= u.cy + n
    ensures |Spaces(b, u, n).page| == |u.page| && |Spaces(b, t, n).page| == |t.page|
  {
    hide Put, Window, Sized, InGrid;
    WindowSized(b, t, u);
    if n == 0 {
      NoSpaces(b, t);
      NoSpaces(b, u);
    } else {
      SpacesWindow(b, t, u, n - 1);
      PutWindow(b, Spaces(b, t, n - 1), Spaces(b, u, n - 1), ' ');
    }
  }

  lemma NoSpaces(b: Build, t: Term)
    requires Sized(b, t)
    ensures Spaces(b, t, 0) == t
  {
  }

  lemma WindowSized(b: Build, t: Term, u: Term)
    requires Window(b, t, u)
    ensures Sized(b, t) && Sized(b, u)
  {
  }

  /** One character, with eight rows to spare for a tab. */
  lemma TypedWindow(b: Build, t: Term, u: Term, c: char)
    requires b.scroll && Window(b, t, u) && u.cy + 8 < |u.page|
    ensures Window(b, Typed(b, t, c), Typed(b, u, c))
    ensures Typed(b, u, c).cy <= u.cy + 8
    ensures |Typed(b, u, c).page| == |u.page| && |Typed(b, t, c).page| == |t.page|
  {
    TypedStays(b, t, c);
    TypedStays(b, u, c);
    if c == '\U{0008}' {
      if t.cx > 0 {
        BackspaceWindow(b, t, u);
      }
    } else if c == '\t' {
      SpacesWindow(b, t, u, TabSpaces(t.cx));
    } else if c == '\n' {
      DownWindow(b, t, u);
    } else if c != '\r' {
      PutWindow(b, t, u, c);
    }
  }

  lemma BackspaceWindow(b: Build, t: Term, u: Term)
    requires b.scroll && Window(b, t, u) && u.cy + 1 < |u.page| && t.cx > 0
    ensures Window(b, Put(b, t.(cx := t.cx - 1), ' ').(cx := t.cx - 1),
                      Put(b, u.(cx := u.cx - 1), ' ').(cx := u.cx - 1))
    ensures Put(b, u.(cx := u.cx - 1), ' ').cy <= u.cy + 1
    ensures |Put(b, u.(cx := u.cx - 1), ' ').page| == |u.page|
  {
    PutWindow(b, t.(cx := t.cx - 1), u.(cx := u.cx - 1), ' ');
  }

  lemma FreshWindow(b: Build, h: nat, tall: nat)
    requires b.width > 0 && 0 < h <= tall
    ensures Window(b, Fresh(b.width, h), Fresh(b.width, tall))
  {
    assert Blanks(b.width, h) == Blanks(b.width, tall)[0..][..h];
  }

  /** Main theorem: whatever is typed on a cleared scrolling terminal, its matrix is the bottom
      window of the matrix of a terminal tall enough never to scroll, on which the same is typed;
      the cursors agree. */
  lemma {:induction false} ScrollingShowsTheBottom(b: Build, h: nat, tall: nat, s: seq<char>)
    requires b.scroll && b.width > 0 && 0 < h <= tall && 8 * |s| < tall
    ensures InGrid(b, Fresh(b.width, h)) && InGrid(b, Fresh(b.width, tall))
    ensures var t := Puts(b, Fresh(b.width, h), s);
            var u := Puts(b, Fresh(b.width, tall), s);
            && Window(b, t, u)
            && u.cy <= 8 * |s| && |t.page| == h && |u.page| == tall
  {
    FreshWindow(b, h, tall);
    if s != [] {
      var r, c := s[..|s| - 1], s[|s| - 1];
      ScrollingShowsTheBottom(b, h, tall, r);
      TypedWindow(b, Puts(b, Fresh(b.width, h), r), Puts(b, Fresh(b.width, tall), r), c);
    }
  }

  // ---------- the shipped build is a ring of cells ----------

  /** The cursor's cell, counted row by row. */
  function Place(b: Build, t: Term): nat {
    t.cy * b.width + t.cx
  }

  function Cells(b: Build, t: Term): nat {
    |t.screen| * b.width
  }

  /** The character shown in the n-th cell. */
  ghost function Shown(b: Build, t: Term, n: nat): char
    requires Sized(b, t) && n < Cells(b, t)
  {
    CellExists(b, t, n);
    t.screen[n / b.width][n % b.width]
  }

  lemma CellExists(b: Build, t: Term, n: nat)
    requires Sized(b, t) && n < Cells(b, t)
    ensures n / b.width < |t.screen| && n % b.width < b.width
  {
    Divided(n, b.width);
    assert b.width * |t.screen| == |t.screen| * b.width;
    if n / b.width >= |t.screen| {
      Larger(b.width, n / b.width, |t.screen|);
    }
  }

  lemma PlaceInside(b: Build, t: Term)
    requires InGrid(b, t)
    ensures Place(b, t) < Cells(b, t)
    ensures Place(b, t) / b.width == t.cy && Place(b, t) % b.width == t.cx
    ensures Place(b, t) + 1 == Cells(b, t) <==> t.cx + 1 == b.width && t.cy + 1 == |t.screen|
  {
    ModUnique(Place(b, t), b.width, t.cy, t.cx);
    if t.cy + 1 < |t.screen| {
      Larger(b.width, |t.screen|, t.cy + 2);
      assert b.width * (t.cy + 2) == t.cy * b.width + 2 * b.width;
    } else {
      assert |t.screen| * b.width == t.cy * b.width + b.width;
    }
  }

  /** A printable character lands in the cursor's cell and nowhere else, and the cursor moves to the
      next cell around the ring. */
  lemma PutOnRing(b: Build, t: Term, c: char)
    requires !b.scroll && InGrid(b, t) && Printable(c)
    ensures var u := Put(b, t, c);
            && InGrid(b, u) && u.screen == SetCell(t.screen, t.cy, t.cx, c) && u.page == t.page
            && Place(b, u) == if Place(b, t) + 1 == Cells(b, t) then 0 else Place(b, t) + 1
  {
    PutSized(b, t, c);
    PlaceInside(b, t);
    if t.cx + 1 == b.width && t.cy + 1 < |t.screen| {
      assert (t.cy + 1) * b.width == t.cy * b.width + b.width;
    }
  }

  lemma SetCellAt(rows: seq<Row>, y: nat, x: nat, c: char, j: nat, i: nat)
    requires y < |rows| && x < |rows[y]| && j < |rows| && i < |rows[j]|
    ensures SetCell(rows, y, x, c)[j][i] == if j == y && i == x then c else rows[j][i]
  {
  }

  lemma PlaceIs(b: Build, t: Term, n: nat)
    requires InGrid(b, t)
    ensures n == Place(b, t) <==> n / b.width == t.cy && n % b.width == t.cx
  {
    PlaceInside(b, t);
    Divided(n, b.width);
    assert b.width * t.cy == t.cy * b.width;
  }

  lemma SameCells(b: Build, t: Term, u: Term)
    requires |t.screen| == |u.screen|
    ensures Cells(b, t) == Cells(b, u)
  {
  }

  lemma SetCellShows(b: Build, t: Term, u: Term, c: char, n: nat)
    requires InGrid(b, t) && Sized(b, u) && n < Cells(b, t)
    requires u.screen == SetCell(t.screen, t.cy, t.cx, c)
    ensures Cells(b, u) == Cells(b, t)
    ensures Shown(b, u, n) == if n == Place(b, t) then c else Shown(b, t, n)
  {
    hide SetCell, Place, Cells;
    SameCells(b, t, u);
    CellExists(b, t, n);
    CellExists(b, u, n);
    PlaceIs(b, t, n);
    SetCellAt(t.screen, t.cy, t.cx, c, n / b.width, n % b.width);
  }

  lemma PutShows(b: Build, t: Term, c: char, n: nat)
    requires !b.scroll && InGrid(b, t) && Printable(c) && n < Cells(b, t)
    ensures InGrid(b, Put(b, t, c)) && Cells(b, Put(b, t, c)) == Cells(b, t)
    ensures Shown(b, Put(b, t, c), n) == if n == Place(b, t) then c else Shown(b, t, n)
  {
    hide Put, SetCell, Place, Shown, Cells;
    PutOnRing(b, t, c);
    SetCellShows(b, t, Put(b, t, c), c, n);
  }

  predicate Text(s: seq<char>) {
    forall k :: 0 <= k < |s| ==> Printable(s[k])
  }

  lemma PrintableIsPut(b: Build, t: Term, c: char)
    requires InGrid(b, t) && Printable(c)
    ensures Typed(b, t, c) == Put(b, t, c)
  {
  }

  /** Fewer than n steps never lead back to the same place. */
  lemma NotAround(start: nat, j: nat, k: nat, n: nat)
    requires j < k < j + n
    ensures (start + j) % n != (start + k) % n
  {
    Divided(start + j, n);
    Divided(start + k, n);
    if (start + j) % n == (start + k) % n {
      var d := (start + k) / n - (start + j) / n;
      assert d * n == k - j;
      MultipleIsLarge(d, n);
    }
  }

  /** Main theorem: on the shipped build the k-th character of a text lands in the cell k places on
      from the cursor's, counted around the whole screen. */
  lemma {:induction false} TextRunsAround(b: Build, t: Term, s: seq<char>)
    requires !b.scroll && InGrid(b, t) && Text(s)
    ensures Cells(b, t) > 0 && Cells(b, Puts(b, t, s)) == Cells(b, t)
    ensures Place(b, Puts(b, t, s)) == (Place(b, t) + |s|) % Cells(b, t)
  {
    PlaceInside(b, t);
    if s == [] {
      ModUnique(Place(b, t), Cells(b, t), 0, Place(b, t));
    } else {
      var r, c := s[..|s| - 1], s[|s| - 1];
      TextRunsAround(b, t, r);
      PrintableIsPut(b, Puts(b, t, r), c);
      PutOnRing(b, Puts(b, t, r), c);
      ModNext(Place(b, t) + |r|, Cells(b, t));
    }
  }

  /** Where the k-th character of a text goes. */
  function PlaceOf(b: Build, t: Term, k: nat): nat
    requires Cells(b, t) > 0
  {
    (Place(b, t) + k) % Cells(b, t)
  }

  lemma TextStep(b: Build, t: Term, s: seq<char>, n: nat)
    requires !b.scroll && InGrid(b, t) && Text(s) && s != [] && n < Cells(b, t) && Cells(b, t) > 0
    ensures var r := s[..|s| - 1];
            && Cells(b, Puts(b, t, r)) == Cells(b, Puts(b, t, s)) == Cells(b, t)
            && Shown(b, Puts(b, t, s), n)
            == if n == PlaceOf(b, t, |s| - 1) then s[|s| - 1] else Shown(b, Puts(b, t, r), n)
  {
    hide Shown, Put, Typed;
    var r, c := s[..|s| - 1], s[|s| - 1];
    TextRunsAround(b, t, r);
    PrintableIsPut(b, Puts(b, t, r), c);
    PutShows(b, Puts(b, t, r), c, n);
  }

  /** Main theorem: each cell shows the last character written to it.  The last screenful of a text
      stands in its cells ... */
  lemma {:induction false} LastScreenfulStands(b: Build, t: Term, s: seq<char>, k: nat)
    requires !b.scroll && InGrid(b, t) && Text(s) && k < |s| <= k + Cells(b, t)
    ensures Cells(b, t) > 0 && Cells(b, Puts(b, t, s)) == Cells(b, t)
    ensures Shown(b, Puts(b, t, s), PlaceOf(b, t, k)) == s[k]
  {
    hide Shown, Put, Typed;
    TextRunsAround(b, t, s);
    var m := |s| - 1;
    TextStep(b, t, s, PlaceOf(b, t, k));
    if k < m {
      NotAround(Place(b, t), k, m, Cells(b, t));
      LastScreenfulStands(b, t, s[..m], k);
    }
  }

  /** ... and a cell no character was written to shows what it did before. */
  lemma {:induction false} OtherCellsKeep(b: Build, t: Term, s: seq<char>, n: nat)
    requires !b.scroll && InGrid(b, t) && Text(s) && n < Cells(b, t)
    requires forall k: nat :: k < |s| ==> PlaceOf(b, t, k) != n
    ensures Cells(b, Puts(b, t, s)) == Cells(b, t)
    ensures Shown(b, Puts(b, t, s), n) == Shown(b, t, n)
  {
    hide Shown, Put, Typed;
    if s != [] {
      TextStep(b, t, s, n);
      assert PlaceOf(b, t, |s| - 1) != n;
      OtherCellsKeep(b, t, s[..|s| - 1], n);
    }
  }

  // ---------- traps ----------

  /** In either build the cursor of a cleared terminal stays on the grid whatever is typed, so the
      clipping branch of Put is never taken. */
  lemma CursorStaysOnGrid(b: Build, h: nat, s: seq<char>)
    requires b.width > 0 && h > 0
    ensures InGrid(b, Fresh(b.width, h)) && InGrid(b, Puts(b, Fresh(b.width, h), s))
  {
  }

  /** A backspace takes back the character typed before it, as long as that has not wrapped: the
      cursor is where it was and the cell is blank, on the display and in the matrix. */
  lemma BackspaceTakesBack(b: Build, t: Term, c: char)
    requires InGrid(b, t) && Printable(c) && t.cx + 1 < b.width
    ensures InGrid(b, Typed(b, t, c))
    ensures Typed(b, Typed(b, t, c), '\U{0008}')
         == t.(screen := SetCell(t.screen, t.cy, t.cx, ' '),
               page := if b.scroll then SetCell(t.page, t.cy, t.cx, ' ') else t.page)
  {
    TypedStays(b, t, c);
    SetTwice(t.screen, t.cy, t.cx, c, ' ');
    SetTwice(t.page, t.cy, t.cx, c, ' ');
  }

  lemma SetTwice(rows: seq<Row>, y: nat, x: nat, c: char, d: char)
    requires y < |rows| && x < |rows[y]|
    ensures SetCell(SetCell(rows, y, x, c), y, x, d) == SetCell(rows, y, x, d)
  {
    assert rows[y][x := c][x := d] == rows[y][x := d];
  }

  lemma SpaceInRow(b: Build, t: Term)
    requires InGrid(b, t) && t.cx + 1 < b.width
    ensures var r := Put(b, t, ' ');
            && InGrid(b, r) && r.cx == t.cx + 1 && r.cy == t.cy && r.screen == SetCell(t.screen, t.cy, t.cx, ' ')
            && r.page == if b.scroll then SetCell(t.page, t.cy, t.cx, ' ') else t.page
  {
    PutSized(b, t, ' ');
  }

  /** The row with n cells from column x on blanked. */
  function Blanked(rows: seq<Row>, y: nat, x: nat, n: nat): seq<Row>
    requires y < |rows| && x + n <= |rows[y]|
  {
    rows[y := rows[y][..x] + Blank(n) + rows[y][x + n..]]
  }

  lemma NoneBlanked(rows: seq<Row>, y: nat, x: nat)
    requires y < |rows| && x <= |rows[y]|
    ensures Blanked(rows, y, x, 0) == rows
  {
    assert rows[y][..x] + Blank(0) + rows[y][x..] == rows[y];
  }

  lemma OneMoreBlanked(rows: seq<Row>, y: nat, x: nat, n: nat)
    requires y < |rows| && n > 0 && x + n < |rows[y]|
    ensures |Blanked(rows, y, x, n - 1)[y]| == |rows[y]|
    ensures SetCell(Blanked(rows, y, x, n - 1), y, x + n - 1, ' ') == Blanked(rows, y, x, n)
  {
    SpaceAdded(rows[y], x, n);
  }

  /** Spaces that do not reach the end of the row. */
  lemma {:induction false} SpacesInRow(b: Build, t: Term, n: nat)
    requires InGrid(b, t) && t.cx + n < b.width
    ensures var r := Spaces(b, t, n);
            && InGrid(b, r) && r.cx == t.cx + n && r.cy == t.cy && r.screen == Blanked(t.screen, t.cy, t.cx, n)
            && r.page == if b.scroll then Blanked(t.page, t.cy, t.cx, n) else t.page
  {
    hide Put, Blanked, Spaces, SetCell;
    if n == 0 {
      NoSpaces(b, t);
      NoneBlanked(t.screen, t.cy, t.cx);
      NoneBlanked(t.page, t.cy, t.cx);
    } else {
      SpacesInRow(b, t, n - 1);
      OneMoreSpace(b, t, n - 1);
      SpaceInRow(b, Spaces(b, t, n - 1));
      OneMoreBlanked(t.screen, t.cy, t.cx, n);
      OneMoreBlanked(t.page, t.cy, t.cx, n);
    }
  }

  lemma SpaceAdded(row: Row, cx: nat, n: nat)
    requires n > 0 && cx + n < |row|
    ensures var x := cx + n - 1;
            (row[..cx] + Blank(n - 1) + row[x..])[x := ' '] == row[..cx] + Blank(n) + row[x + 1..]
  {
  }

  /** Spaces carry the column on around the row. */
  lemma {:induction false} SpacesColumn(b: Build, t: Term, n: nat)
    requires InGrid(b, t)
    ensures InGrid(b, Spaces(b, t, n)) && Spaces(b, t, n).cx == (t.cx + n) % b.width
  {
    SpacesStay(b, t, n);
    if n == 0 {
      ModUnique(t.cx, b.width, 0, t.cx);
    } else {
      SpacesColumn(b, t, n - 1);
      ModNext(t.cx + n - 1, b.width);
      SpaceColumn(b, Spaces(b, t, n - 1));
    }
  }

  lemma SpaceColumn(b: Build, t: Term)
    requires InGrid(b, t)
    ensures Put(b, t, ' ').cx == if t.cx + 1 == b.width then 0 else t.cx + 1
  {
  }

  /** The tab writes one space fewer than the distance to the next stop, so it never reaches it: it
      ends one column before the stop, counted around the row if the stop lies past the right edge.
      A cursor already there does not move at all. */
  lemma TabStopsShort(b: Build, t: Term)
    requires InGrid(b, t)
    ensures var stop := (t.cx / 8 + 1) * 8;
            var r := Typed(b, t, '\t');
            && r.cx == (stop - 1) % b.width != stop
            && (stop <= b.width ==> r.cx == stop - 1 && r.cy == t.cy)
            && (t.cx % 8 == 7 ==> r == t)
            && (stop <= b.width && r == t ==> t.cx % 8 == 7)
  {
    var stop := (t.cx / 8 + 1) * 8;
    SpacesColumn(b, t, TabSpaces(t.cx));
    Divided(stop - 1, b.width);
    if stop <= b.width {
      SpacesInRow(b, t, TabSpaces(t.cx));
    }
  }

  /** It clears the right cells, but the last space moves the cursor down like any character: it comes
      back to its row if and only if there is one row only, or the last row has scrolled up under it. */
  lemma ClearToEolLeavesTheRow(b: Build, t: Term)
    requires InGrid(b, t)
    ensures EolCleared(b, t)
         == Down(b, t.(screen := ClearTail(t.screen, t.cy, t.cx),
                       page := if b.scroll then ClearTail(t.page, t.cy, t.cx) else t.page))
    ensures EolCleared(b, t).cy == t.cy <==> |t.screen| == 1 || (b.scroll && t.cy + 1 == |t.screen|)
  {
    hide Spaces, Blanked, ClearTail, SetCell;
    var n := b.width - t.cx;
    SpacesInRow(b, t, n - 1);
    OneMoreSpace(b, t, n - 1);
    RowCleared(t.screen, t.cy, t.cx, b.width);
    RowCleared(t.page, t.cy, t.cx, b.width);
  }

  lemma RowCleared(rows: seq<Row>, y: nat, x: nat, w: nat)
    requires y < |rows| && x < w == |rows[y]|
    ensures |Blanked(rows, y, x, w - x - 1)[y]| == w
    ensures SetCell(Blanked(rows, y, x, w - x - 1), y, w - 1, ' ') == ClearTail(rows, y, x)
  {
    RowFilled(rows[y], x, w);
  }

  lemma OneMoreSpace(b: Build, t: Term, n: nat)
    requires Sized(b, t)
    ensures Spaces(b, t, n + 1) == Put(b, Spaces(b, t, n), ' ')
  {
  }

  lemma RowFilled(row: Row, x: nat, w: nat)
    requires x < w == |row|
    ensures (row[..x] + Blank(w - x - 1) + row[w - 1..])[w - 1 := ' '] == row[..x] + Blank(w - x)
  {
  }

  /** In the scrolling build the display never shows a character the matrix does not hold, but it may
      be blank where the matrix is not: new line and return clear the display, not the matrix. */
  ghost predicate DisplayLags(t: Term) {
    |t.page| == |t.screen| && forall j :: 0 <= j < |t.page| ==> RowLags(t.screen[j], t.page[j])
  }

  ghost predicate RowLags(shown: Row, held: Row) {
    |shown| == |held| && forall i :: 0 <= i < |held| ==> shown[i] == held[i] || shown[i] == ' '
  }

  lemma PutLags(b: Build, t: Term, c: char)
    requires b.scroll && Sized(b, t) && DisplayLags(t)
    ensures DisplayLags(Put(b, t, c))
  {
  }

  lemma {:induction false} SpacesLag(b: Build, t: Term, n: nat)
    requires b.scroll && Sized(b, t) && DisplayLags(t)
    ensures DisplayLags(Spaces(b, t, n))
  {
    if n > 0 {
      SpacesLag(b, t, n - 1);
      PutLags(b, Spaces(b, t, n - 1), ' ');
    }
  }

  lemma TypedLags(b: Build, t: Term, c: char)
    requires b.scroll && InGrid(b, t) && DisplayLags(t)
    ensures DisplayLags(Typed(b, t, c))
  {
    if c == '\U{0008}' && t.cx > 0 {
      PutLags(b, t.(cx := t.cx - 1), ' ');
    } else if c == '\t' {
      SpacesLag(b, t, TabSpaces(t.cx));
    } else {
      PutLags(b, t, c);
    }
  }

  lemma {:induction false} DisplayLagsOnlyByBlanks(b: Build, h: nat, s: seq<char>)
    requires b.scroll && b.width > 0 && h > 0
    ensures InGrid(b, Fresh(b.width, h)) && DisplayLags(Puts(b, Fresh(b.width, h), s))
  {
    if s != [] {
      DisplayLagsOnlyByBlanks(b, h, s[..|s| - 1]);
      TypedLags(b, Puts(b, Fresh(b.width, h), s[..|s| - 1]), s[|s| - 1]);
    }
  }

  // ---------- when display and matrix part ----------

  /** The row is blank from column x on. */
  predicate TailBlank(row: Row, x: nat) {
    forall i :: x <= i < |row| ==> row[i] == ' '
  }

  lemma ClearedIsSameIffBlank(rows: seq<Row>, y: nat, x: nat)
    requires y < |rows| && x <= |rows[y]|
    ensures ClearTail(rows, y, x) == rows <==> TailBlank(rows[y], x)
  {
    var row, cleared := rows[y], rows[y][..x] + Blank(|rows[y]| - x);
    assert cleared == row <==> TailBlank(row, x) by {
      if cleared == row {
        forall i | x <= i < |row| ensures row[i] == ' ' {
          assert cleared[i] == ' ';
        }
      }
    }
    assert ClearTail(rows, y, x)[y] == cleared;
    assert rows[y := row] == rows;
  }

  lemma PutAgrees(b: Build, t: Term, c: char)
    requires b.scroll && Sized(b, t) && t.screen == t.page
    ensures Put(b, t, c).screen == Put(b, t, c).page
  {
  }

  lemma {:induction false} SpacesAgree(b: Build, t: Term, n: nat)
    requires b.scroll && Sized(b, t) && t.screen == t.page
    ensures Spaces(b, t, n).screen == Spaces(b, t, n).page
  {
    if n > 0 {
      SpacesAgree(b, t, n - 1);
      PutAgrees(b, Spaces(b, t, n - 1), ' ');
    }
  }

  /** The row a return or a new line clears on the display, as the matrix holds it, is blank from the
      cursor's column on. */
  ghost predicate NothingToClear(b: Build, t: Term, c: char)
    requires InGrid(b, t)
  {
    && (c == '\r' ==> TailBlank(t.page[t.cy], t.cx))
    && (c == '\n' ==> TailBlank(Down(b, t).page[Down(b, t).cy], t.cx))
  }

  lemma LineStartAgreesIff(b: Build, t: Term)
    requires InGrid(b, t) && t.screen == t.page
    ensures LineStart(t).screen == LineStart(t).page <==> TailBlank(t.page[t.cy], t.cx)
  {
    ClearedIsSameIffBlank(t.page, t.cy, t.cx);
  }

  /** Main theorem: in the scrolling build a character makes the display differ from the matrix if and
      only if it is a return or a new line and the row it clears is not blank in the matrix. */
  lemma DisplayAgreesIff(b: Build, t: Term, c: char)
    requires b.scroll && InGrid(b, t) && t.screen == t.page
    ensures Typed(b, t, c).screen == Typed(b, t, c).page <==> NothingToClear(b, t, c)
  {
    hide Put, Spaces, LineStart, TailBlank;
    if c == '\U{0008}' {
      PutAgrees(b, t.(cx := if t.cx > 0 then t.cx - 1 else 0), ' ');
    } else if c == '\t' {
      SpacesAgree(b, t, TabSpaces(t.cx));
    } else if c == '\n' {
      LineStartAgreesIff(b, Down(b, t));
    } else if c == '\r' {
      LineStartAgreesIff(b, t);
    } else {
      PutAgrees(b, t, c);
    }
  }

  /** What is typed on a cleared scrolling terminal leaves the rows below the cursor blank, in the
      matrix and on the display. */
  lemma RowsBelowAreBlank(b: Build, h: nat, s: seq<char>)
    requires b.scroll && b.width > 0 && h > 0
    ensures InGrid(b, Fresh(b.width, h))
    ensures var t := Puts(b, Fresh(b.width, h), s);
            && |t.page| == |t.screen| == h
            && forall j :: t.cy < j < h ==> t.page[j] == t.screen[j] == Blank(b.width)
  {
    hide Puts, Blank;
    var tall := h + 8 * |s| + 1;
    ScrollingShowsTheBottom(b, h, tall, s);
    DisplayLagsOnlyByBlanks(b, h, s);
    var t, u := Puts(b, Fresh(b.width, h), s), Puts(b, Fresh(b.width, tall), s);
    forall j | t.cy < j < h ensures t.page[j] == t.screen[j] == Blank(b.width) {
      var top := Top(u.cy, h);
      assert t.page[j] == u.page[top..][..h][j] == u.page[top + j];
      assert RowLags(t.screen[j], t.page[j]);
      BlankLags(t.screen[j], b.width);
    }
  }

  lemma BlankLags(shown: Row, w: nat)
    requires RowLags(shown, Blank(w))
    ensures shown == Blank(w)
  {
  }

  /** Main theorem: after any text on a cleared scrolling terminal a new line clears nothing: it only
      moves down, to the start of a row that is blank already. */
  lemma NewLineClearsNothing(b: Build, h: nat, s: seq<char>)
    requires b.scroll && b.width > 0 && h > 0
    ensures InGrid(b, Fresh(b.width, h))
    ensures var t := Puts(b, Fresh(b.width, h), s);
            Typed(b, t, '\n') == Down(b, t).(cx := 0) && NothingToClear(b, t, '\n')
  {
    hide Puts;
    var t := Puts(b, Fresh(b.width, h), s);
    RowsBelowAreBlank(b, h, s);
    var d := Down(b, t);
    assert TailBlank(d.screen[d.cy], d.cx) && TailBlank(d.page[d.cy], d.cx);
    ClearedIsSameIffBlank(d.screen, d.cy, d.cx);
  }

  /** Main theorem: so only a return can part them: without one the display of a cleared scrolling
      terminal always shows its matrix ... */
  lemma {:induction false} WithoutReturnDisplayShowsMatrix(b: Build, h: nat, s: seq<char>)
    requires b.scroll && b.width > 0 && h > 0 && '\r' !in s
    ensures InGrid(b, Fresh(b.width, h))
    ensures Puts(b, Fresh(b.width, h), s).screen == Puts(b, Fresh(b.width, h), s).page
  {
    hide Typed, NothingToClear;
    if s != [] {
      var r, c := s[..|s| - 1], s[|s| - 1];
      var t := Puts(b, Fresh(b.width, h), r);
      WithoutReturnDisplayShowsMatrix(b, h, r);
      NewLineClearsNothing(b, h, r);
      if c != '\n' {
        OnlyLineEndsClear(b, t, c);
      }
      DisplayAgreesIff(b, t, c);
    }
  }

  lemma OnlyLineEndsClear(b: Build, t: Term, c: char)
    requires InGrid(b, t) && c != '\r' && c != '\n'
    ensures NothingToClear(b, t, c)
  {
  }

  lemma PutsOneMore(b: Build, t: Term, s: seq<char>, c: char)
    requires InGrid(b, t)
    ensures Puts(b, t, s + [c]) == Typed(b, Puts(b, t, s), c)
  {
    assert (s + [c])[..|s|] == s;
  }

  /** ... and a second return does part them: after two letters and two returns the display is blank
      and the matrix still holds the letters. */
  lemma SecondReturnParts(b: Build, h: nat)
    requires b.scroll && b.width >= 3 && h > 0
    ensures InGrid(b, Fresh(b.width, h))
    ensures var t := Puts(b, Fresh(b.width, h), ['A', 'B', '\r', '\r']);
            && t.screen == Blanks(b.width, h)
            && |t.page| == h && t.page[0][..3] == ['A', 'B', ' ']
  {
    var t := Fresh(b.width, h);
    var letters := ['A', 'B'];
    AfterTwoLetters(b, h);
    assert letters + ['\r'] == ['A', 'B', '\r'] && letters + ['\r'] + ['\r'] == ['A', 'B', '\r', '\r'];
    PutsOneMore(b, t, letters, '\r');
    PutsOneMore(b, t, letters + ['\r'], '\r');
    hide Puts;
    var t2, t4 := Puts(b, t, letters), Puts(b, t, letters + ['\r', '\r']);
    assert letters + ['\r', '\r'] == letters + ['\r'] + ['\r'];
    TwoReturns(b, t2);
    assert t4.screen == Blanks(b.width, h);
  }

  /** Two returns clear the row on the display and nothing in the matrix. */
  lemma TwoReturns(b: Build, t: Term)
    requires InGrid(b, t)
    ensures InGrid(b, Typed(b, t, '\r'))
    ensures Typed(b, Typed(b, t, '\r'), '\r') == t.(cx := 0, screen := t.screen[t.cy := Blank(b.width)])
  {
    TypedStays(b, t, '\r');
    assert Typed(b, t, '\r').screen[t.cy][..0] + Blank(b.width) == Blank(b.width);
  }

  lemma LetterInRow(b: Build, t: Term, c: char)
    requires b.scroll && InGrid(b, t) && 'A' <= c <= 'Z' && t.cx + 1 < b.width
    ensures Typed(b, t, c) == t.(cx := t.cx + 1, page := SetCell(t.page, t.cy, t.cx, c),
                                 screen := SetCell(t.screen, t.cy, t.cx, c))
  {
  }

  lemma AfterTwoLetters(b: Build, h: nat)
    requires b.scroll && b.width >= 3 && h > 0
    ensures InGrid(b, Fresh(b.width, h))
    ensures var t := Puts(b, Fresh(b.width, h), ['A', 'B']);
            && t.cx == 2 && t.cy == 0 && |t.page| == |t.screen| == h
            && |t.page[0]| == b.width && t.page[0][..3] == ['A', 'B', ' ']
            && forall j :: 0 < j < h ==> t.screen[j] == Blank(b.width)
  {
    var t := Fresh(b.width, h);
    PutsOneMore(b, t, [], 'A');
    PutsOneMore(b, t, ['A'], 'B');
    assert ['A'] + ['B'] == ['A', 'B'];
    assert Puts(b, t, []) == t;
    hide Puts, Typed;
    LetterInRow(b, t, 'A');
    LetterInRow(b, Puts(b, t, ['A']), 'B');
  }

  // ---------- a cursor off the grid ----------

  lemma PutsFirst(b: Build, t: Term, c: char, s: seq<char>)
    requires CanType(b, t, c) && InGrid(b, Typed(b, t, c))
    ensures CanPut(b, t, [c] + s)
    ensures Puts(b, t, [c] + s) == Puts(b, Typed(b, t, c), s)
  {
    hide Typed;
    if s == [] {
      assert [c] + s == [c] && [c][..0] == [];
      assert CanPut(b, t, []) && Puts(b, t, []) == t;
    } else {
      var r := s[..|s| - 1];
      assert ([c] + s)[..|s|] == [c] + r && ([c] + s)[|s|] == s[|s| - 1];
      PutsFirst(b, t, c, r);
    }
  }

  /** The cursor set off the grid costs the first character: it is lost, and the rest of the text is
      put from the upper left corner. */
  lemma OffGridLosesOneCharacter(b: Build, t: Term, c: char, s: seq<char>)
    requires Sized(b, t) && !InGrid(b, t) && Printable(c)
    ensures CanPut(b, t, [c] + s) && InGrid(b, t.(cx := 0, cy := 0))
    ensures Puts(b, t, [c] + s) == Puts(b, t.(cx := 0, cy := 0), s)
  {
    PutsFirst(b, t, c, s);
  }

  lemma OtherLetter(c: char) returns (d: char)
    ensures d != c && Printable(d)
  {
    d := if c == 'A' then 'B' else 'A';
  }

  /** And on the grid it is not: wherever the cursor is set, the first character leaves the display as
      it was, whatever character it is, if and only if that place is off the grid.  (Or it is the last
      cell of a scrolling screen of one blank row, which scrolls the character away at once.) */
  lemma FirstCharacterLostIffOffGrid(b: Build, t: Term, x: nat, y: nat)
    requires Sized(b, t)
    ensures var u := t.(cx := x, cy := y);
            (forall c :: Printable(c) ==> Typed(b, u, c).screen == t.screen)
            <==> x >= b.width || y >= |t.screen|
                 || (b.scroll && x + 1 == b.width && t.screen == [Blank(b.width)])
  {
    var u := t.(cx := x, cy := y);
    if x < b.width && y < |t.screen| {
      if b.scroll && x + 1 == b.width && y + 1 == |t.screen| {
        LastCellScrolls(b, u);
      } else {
        var c := OtherLetter(t.screen[y][x]);
        SetCellAt(t.screen, y, x, c, y, x);
        assert Typed(b, u, c).screen == SetCell(t.screen, y, x, c);
      }
    }
  }

  /** In the last cell of the scrolling build a character is scrolled up, or away if there is no row
      above. */
  lemma LastCellScrolls(b: Build, t: Term)
    requires b.scroll && InGrid(b, t) && t.cx + 1 == b.width && t.cy + 1 == |t.screen|
    ensures (forall c :: Printable(c) ==> Typed(b, t, c).screen == t.screen) <==> t.screen == [Blank(b.width)]
  {
    var h := |t.screen|;
    if h == 1 {
      forall c | Printable(c) ensures Typed(b, t, c).screen == [Blank(b.width)] {
        assert SetCell(t.page, 0, t.cx, c)[1..] == [];
      }
      assert Printable('A');
    } else {
      var c := OtherLetter(t.screen[h - 2][t.cx]);
      SetCellAt(t.page, t.cy, t.cx, c, t.cy, t.cx);
      assert Typed(b, t, c).screen[h - 2] == SetCell(t.page, t.cy, t.cx, c)[h - 1];
    }
  }
}
