/** The terminal of bsp/pic24f_mikromedia/tty.c with wrapping on: a cursor, the character matrix of
    the scrolling build, and the characters the display shows.  The shipped build does not scroll:
    past the last row the cursor goes back to the first. */
module Tty {

  type Row = seq<char>

  /** Width, and whether the scrolling build is meant; the height is the number of rows. */
  datatype Build = Build(width: nat, scroll: bool)

  /** The cursor, the matrix `page` (kept by the scrolling build only), and the screen. */
  datatype Term = Term(cx: nat, cy: nat, page: seq<Row>, screen: seq<Row>)

  ghost predicate Grid(b: Build, rows: seq<Row>) {
    forall j :: 0 <= j < |rows| ==> |rows[j]| == b.width
  }

  ghost predicate Sized(b: Build, t: Term) {
    b.width > 0 && |t.page| == |t.screen| > 0 && Grid(b, t.page) && Grid(b, t.screen)
  }

  /** The cursor is on a cell. */
  ghost predicate InGrid(b: Build, t: Term) {
    Sized(b, t) && t.cx < b.width && t.cy < |t.screen|
  }

  function Blank(w: nat): (r: Row)
    ensures |r| == w && forall i :: 0 <= i < w ==> r[i] == ' '
  {
    seq(w, i => ' ')
  }

  function Blanks(w: nat, h: nat): (rows: seq<Row>)
    ensures |rows| == h && forall j :: 0 <= j < h ==> rows[j] == Blank(w)
  {
    seq(h, j => Blank(w))
  }

  function SetCell(rows: seq<Row>, y: nat, x: nat, c: char): (r: seq<Row>)
    requires y < |rows| && x < |rows[y]|
    ensures |r| == |rows|
  {
    rows[y := rows[y][x := c]]
  }

  /** The row from column x on cleared. */
  function ClearTail(rows: seq<Row>, y: nat, x: nat): (r: seq<Row>)
    requires y < |rows| && x <= |rows[y]|
    ensures |r| == |rows|
  {
    rows[y := rows[y][..x] + Blank(|rows[y]| - x)]
  }

  predicate Printable(c: char) {
    ' ' <= c <= '\U{007F}'
  }

  // ---------- the operations, in their simple form ----------

  /** The next row; past the last one all rows move up, or the cursor goes back to the top. */
  function Down(b: Build, t: Term): Term
    requires |t.page| > 0
  {
    if t.cy + 1 < |t.screen| then t.(cy := t.cy + 1)
    else if b.scroll then
      var page := t.page[1..] + [Blank(b.width)];
      t.(cy := |t.page| - 1, page := page, screen := page)
    else t.(cy := 0)
  }

  function Right(b: Build, t: Term): Term
    requires |t.page| > 0
  {
    if t.cx + 1 < b.width then t.(cx := t.cx + 1) else Down(b, t.(cx := 0))
  }

  /** Off the grid the cursor goes home and nothing is written. */
  ghost function Put(b: Build, t: Term, c: char): Term
    requires Sized(b, t)
  {
    if t.cx >= b.width || t.cy >= |t.screen| then t.(cx := 0, cy := 0)
    else if !Printable(c) then t
    else
      Right(b, t.(page := if b.scroll then SetCell(t.page, t.cy, t.cx, c) else t.page,
                  screen := SetCell(t.screen, t.cy, t.cx, c)))
  }

  lemma PutSized(b: Build, t: Term, c: char)
    requires Sized(b, t)
    ensures Sized(b, Put(b, t, c)) && |Put(b, t, c).screen| == |t.screen|
    ensures InGrid(b, t) ==> InGrid(b, Put(b, t, c))
  {
  }

  ghost function Spaces(b: Build, t: Term, n: nat): (r: Term)
    requires Sized(b, t)
    ensures Sized(b, r) && |r.screen| == |t.screen|
  {
    if n == 0 then t
    else
      var s := Spaces(b, t, n - 1);
      PutSized(b, s, ' ');
      Put(b, s, ' ')
  }

  /** How many spaces a tab writes: one fewer than the distance to the tab stop. */
  function TabSpaces(cx: nat): nat {
    (cx / 8 + 1) * 8 - 1 - cx
  }

  /** The display cleared from the cursor to the end of the row, if the cursor is on a cell, and the
      cursor in the first column. */
  function LineStart(t: Term): Term {
    t.(cx := 0, screen := if t.cy < |t.screen| && t.cx < |t.screen[t.cy]| then ClearTail(t.screen, t.cy, t.cx)
                          else t.screen)
  }

  /** A backspace off the grid would make the column negative, except in the first column. */
  ghost predicate CanType(b: Build, t: Term, c: char) {
    Sized(b, t) && (c == '\U{0008}' && t.cx > 0 ==> InGrid(b, t))
  }

  ghost function Typed(b: Build, t: Term, c: char): (r: Term)
    requires CanType(b, t, c)
  {
    if c == '\U{0008}' then
      if t.cx > 0 then
        Put(b, t.(cx := t.cx - 1), ' ').(cx := t.cx - 1)
      else t
    else if c == '\t' then Spaces(b, t, TabSpaces(t.cx))
    else if c == '\n' then LineStart(Down(b, t))
    else if c == '\r' then LineStart(t)
    else Put(b, t, c)
  }

  ghost predicate CanPut(b: Build, t: Term, s: seq<char>)
    decreases |s|, 0
  {
    && Sized(b, t)
    && (s != [] ==> CanPut(b, t, s[..|s| - 1]) && CanType(b, Puts(b, t, s[..|s| - 1]), s[|s| - 1]))
  }

  /** All characters of a text in order; from a cursor on the grid any text can be put. */
  ghost function Puts(b: Build, t: Term, s: seq<char>): (r: Term)
    requires InGrid(b, t) || CanPut(b, t, s)
    ensures Sized(b, r) && |r.screen| == |t.screen|
    ensures InGrid(b, t) ==> InGrid(b, r)
    decreases |s|, 1
  {
    if s == [] then t
    else
      var u := Puts(b, t, s[..|s| - 1]);
      TypedStays(b, u, s[|s| - 1]);
      Typed(b, u, s[|s| - 1])
  }

  lemma {:induction false} SpacesStay(b: Build, t: Term, n: nat)
    requires InGrid(b, t)
    ensures InGrid(b, Spaces(b, t, n))
  {
    if n > 0 {
      SpacesStay(b, t, n - 1);
      PutSized(b, Spaces(b, t, n - 1), ' ');
    }
  }

  /** No character moves the cursor off the grid. */
  lemma TypedStays(b: Build, t: Term, c: char)
    requires CanType(b, t, c)
    ensures Sized(b, Typed(b, t, c)) && |Typed(b, t, c).screen| == |t.screen|
    ensures InGrid(b, t) ==> InGrid(b, Typed(b, t, c))
  {
    if c == '\U{0008}' && t.cx > 0 {
      PutSized(b, t.(cx := t.cx - 1), ' ');
    } else if c == '\t' {
      if InGrid(b, t) {
        SpacesStay(b, t, TabSpaces(t.cx));
      }
    } else {
      PutSized(b, t, c);
    }
  }

  /** Any text can be put from a cursor on the grid, and from anywhere if it has no backspace. */
  lemma {:induction false} AnyTextCanBePut(b: Build, t: Term, s: seq<char>)
    requires Sized(b, t) && (InGrid(b, t) || '\U{0008}' !in s)
    ensures CanPut(b, t, s)
  {
    if s != [] {
      AnyTextCanBePut(b, t, s[..|s| - 1]);
    }
  }

  lemma {:induction false} CanPutPrefix(b: Build, t: Term, s: seq<char>, n: nat)
    requires CanPut(b, t, s) && n <= |s|
    ensures CanPut(b, t, s[..n])
  {
    if n < |s| {
      assert s[..|s| - 1][..n] == s[..n];
      CanPutPrefix(b, t, s[..|s| - 1], n);
    } else {
      assert s[..n] == s;
    }
  }

  /** Clearing to the end of the line writes a space for every column left and sets the column back. */
  ghost function EolCleared(b: Build, t: Term): Term
    requires Sized(b, t)
  {
    Spaces(b, t, if t.cx < b.width then b.width - t.cx else 0).(cx := t.cx)
  }

  // ---------- the terminal as an object ----------

  class Terminal {
    const width: nat
    const height: nat
    const scroll: bool
    var cx: nat
    var cy: nat
    const page: array2<char>
    const screen: array2<char>
    ghost var pageRows: seq<Row>
    ghost var screenRows: seq<Row>

    ghost function Kind(): Build {
      Build(width, scroll)
    }

    ghost predicate Shows(m: array2<char>, rows: seq<Row>)
      reads m
    {
      && m.Length0 == height == |rows| && m.Length1 >= width
      && Grid(Kind(), rows)
      && forall j, i :: 0 <= j < height && 0 <= i < width ==> m[j, i] == rows[j][i]
    }

    ghost predicate Valid()
      reads this, page, screen
    {
      width > 0 && height > 0 && page != screen && Shows(page, pageRows) && Shows(screen, screenRows)
    }

    ghost function State(): Term
      reads this
    {
      Term(cx, cy, pageRows, screenRows)
    }

    /** A cell of the display, background and character. */
    method Draw(y: nat, x: nat, c: char)
      requires Valid() && y < height && x < width
      modifies this`screenRows, screen
      ensures Valid() && State() == old(State()).(screen := SetCell(old(screenRows), y, x, c))
    {
      screen[y, x] := c;
      screenRows := SetCell(screenRows, y, x, c);
    }

    method Store(y: nat, x: nat, c: char)
      requires Valid() && y < height && x < width
      modifies this`pageRows, page
      ensures Valid() && State() == old(State()).(page := SetCell(old(pageRows), y, x, c))
    {
      page[y, x] := c;
      pageRows := SetCell(pageRows, y, x, c);
    }

    /** Scrolls in place: every row takes over the next one, and the last is blanked. */
    method ScrollUp()
      requires Valid()
      modifies this`pageRows, this`screenRows, page, screen
      ensures Valid()
      ensures pageRows == old(pageRows)[1..] + [Blank(width)] && screenRows == pageRows
    {
      ghost var was := pageRows;
      ghost var goal := was[1..] + [Blank(width)];
      var j := 0;
      while j < height - 1
        invariant 0 <= j <= height - 1
        invariant forall y, x :: 0 <= y < j && 0 <= x < width ==> page[y, x] == was[y + 1][x] == screen[y, x]
        invariant forall y, x :: j <= y < height && 0 <= x < width ==> page[y, x] == was[y][x]
      {
        var i := 0;
        while i < width
          invariant 0 <= i <= width
          invariant forall y, x :: 0 <= y < j && 0 <= x < width ==> page[y, x] == was[y + 1][x] == screen[y, x]
          invariant forall x :: 0 <= x < i ==> page[j, x] == was[j + 1][x] == screen[j, x]
          invariant forall x :: i <= x < width ==> page[j, x] == was[j][x]
          invariant forall y, x :: j < y < height && 0 <= x < width ==> page[y, x] == was[y][x]
        {
          page[j, i] := page[j + 1, i];
          screen[j, i] := page[j, i];
          i := i + 1;
        }
        j := j + 1;
      }
      var last, k := height - 1, 0;
      while k < width
        invariant 0 <= k <= width
        invariant forall y, x :: 0 <= y < last && 0 <= x < width ==> page[y, x] == was[y + 1][x] == screen[y, x]
        invariant forall x :: 0 <= x < k ==> page[last, x] == ' ' == screen[last, x]
      {
        page[last, k] := ' ';
        screen[last, k] := ' ';
        k := k + 1;
      }
      pageRows, screenRows := goal, goal;
    }

    method CursorDown()
      requires Valid()
      modifies this`cy, this`pageRows, this`screenRows, page, screen
      ensures Valid() && State() == Down(Kind(), old(State()))
    {
      if cy + 1 >= height {
        if scroll {
          ScrollUp();
          cy := height - 1;
        } else {
          cy := 0;
        }
      } else {
        cy := cy + 1;
      }
    }

    method CursorRight()
      requires Valid()
      modifies this`cx, this`cy, this`pageRows, this`screenRows, page, screen
      ensures Valid() && State() == Right(Kind(), old(State()))
    {
      cx := cx + 1;
      if cx >= width {
        cx := 0;
        CursorDown();
      }
    }

    method PutChar(c: char)
      requires Valid()
      modifies this`cx, this`cy, this`pageRows, this`screenRows, page, screen
      ensures Valid() && State() == Put(Kind(), old(State()), c)
    {
      if cx >= width || cy >= height {
        cx := 0;
        cy := 0;
        return;
      }
      if c < ' ' || c > '\U{007F}' {
        return;
      }
      if scroll {
        Store(cy, cx, c);
      }
      Draw(cy, cx, c);
      CursorRight();
    }

    /** The display cleared from the cursor to the end of its row and the cursor in the first column;
        the matrix is not touched. */
    method ClearRest()
      requires Valid()
      modifies this`cx, this`screenRows, screen
      ensures Valid() && State() == LineStart(old(State()))
    {
      if cy < height && cx < width {
        ghost var was := screenRows;
        var i := cx;
        while i < width
          invariant cx == old(cx) <= i <= width
          invariant forall y, x :: 0 <= y < height && 0 <= x < width ==>
                      screen[y, x] == if y == cy && cx <= x < i then ' ' else was[y][x]
        {
          screen[cy, i] := ' ';
          i := i + 1;
        }
        screenRows := ClearTail(was, cy, cx);
      }
      cx := 0;
    }

    /** The cursor anywhere, on the grid or off it. */
    method CursorSet(x: nat, y: nat)
      modifies this`cx, this`cy
      ensures State() == old(State()).(cx := x, cy := y) && (old(Valid()) ==> Valid())
    {
      cx, cy := x, y;
    }

    method CharPut(c: char)
      requires Valid() && CanType(Kind(), State(), c)
      modifies this`cx, this`cy, this`pageRows, this`screenRows, page, screen
      ensures Valid() && State() == Typed(Kind(), old(State()), c)
    {
      if c == '\U{0008}' {
        if cx > 0 {
          cx := cx - 1;
          PutChar(' ');
          cx := cx - 1;
        }
      } else if c == '\t' {
        var tab := (cx / 8 + 1) * 8;
        ghost var was, n := State(), 0;
        for i := cx to tab - 1
          invariant Valid() && n == i - was.cx && State() == Spaces(Kind(), was, n)
        {
          PutChar(' ');
          n := n + 1;
        }
      } else if c == '\n' {
        CursorDown();
        ClearRest();
      } else if c == '\r' {
        ClearRest();
      } else {
        PutChar(c);
      }
    }

    method ClearToEol()
      requires Valid()
      modifies this`cx, this`cy, this`pageRows, this`screenRows, page, screen
      ensures Valid() && State() == EolCleared(Kind(), old(State()))
    {
      ghost var was := State();
      var t := cx;
      var i := t;
      while i < width
        invariant Valid() && t <= i && (i <= width || i == t) && State() == Spaces(Kind(), was, i - t)
      {
        PutChar(' ');
        i := i + 1;
      }
      cx := t;
    }

    /** Puts every character of a string. */
    method StringPut(s: seq<char>)
      requires Valid() && CanPut(Kind(), State(), s)
      modifies this`cx, this`cy, this`pageRows, this`screenRows, page, screen
      ensures Valid() && State() == Puts(Kind(), old(State()), s)
    {
      ghost var was := State();
      for k := 0 to |s|
        invariant Valid() && CanPut(Kind(), was, s[..k]) && State() == Puts(Kind(), was, s[..k])
      {
        CanPutPrefix(Kind(), was, s, k + 1);
        assert s[..k + 1][..k] == s[..k];
        CharPut(s[k]);
      }
      assert s[..|s|] == s;
    }

    /** Fills the display, and in the scrolling build the matrix, with spaces. */
    method Clear()
      requires width > 0 && height > 0 && page != screen
      requires page.Length0 == screen.Length0 == height && page.Length1 >= width && screen.Length1 >= width
      requires !scroll ==> Shows(page, pageRows)
      modifies this`cx, this`cy, this`pageRows, this`screenRows, page, screen
      ensures Valid()
      ensures State() == Term(0, 0, if scroll then Blanks(width, height) else old(pageRows), Blanks(width, height))
    {
      if scroll {
        forall j, i | 0 <= j < height && 0 <= i < width {
          page[j, i] := ' ';
        }
        pageRows := Blanks(width, height);
      }
      forall j, i | 0 <= j < height && 0 <= i < width {
        screen[j, i] := ' ';
      }
      screenRows := Blanks(width, height);
      cx, cy := 0, 0;
    }

    /** A terminal of the given size, just cleared. */
    constructor (width: nat, height: nat, scroll: bool)
      requires width > 0 && height > 0
      ensures Valid() && fresh(page) && fresh(screen)
      ensures this.width == width && this.height == height && this.scroll == scroll
      ensures State() == Fresh(width, height)
    {
      this.width, this.height, this.scroll := width, height, scroll;
      page := new char[height, width + 1]((j, i) => ' ');
      screen := new char[height, width];
      cx, cy := 0, 0;
      pageRows, screenRows := Blanks(width, height), Blanks(width, height);
      new;
      Clear();
    }
  }

  /** A cleared terminal with the cursor at home. */
  function Fresh(width: nat, height: nat): Term {
    Term(0, 0, Blanks(width, height), Blanks(width, height))
  }
}
