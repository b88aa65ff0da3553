/** Which boards can be reached at all.  Every run can be undone, so reachability is an
    equivalence; and the two parity classes are exactly its classes: a board can be reached from
    the solved one if and only if its parity is even.

    The second half walks the blank along a snake through the four rows.  Moving the blank along
    the snake does not change the order in which the other fifteen entries are met, so a board is
    a line of fifteen tiles plus a place for the blank.  A move between two rows that the snake
    does not follow turns a stretch of the line; those turns generate every turn of three
    neighbouring tiles, and these sort any line up to a last exchange, which parity decides. */
module TilesReach {
  import opened TilesBoard
  import opened TilesParity

  ghost predicate Reaches(a: Board, b: Board)
    requires IsBoard(a)
  {
    exists presses: seq<Cell> :: Run(a, presses) == b
  }

  // ---------- runs can be undone ----------

  lemma {:induction false} RunAppend(a: Board, p: seq<Cell>, q: seq<Cell>)
    requires IsBoard(a)
    ensures Run(a, p + q) == Run(Run(a, p), q)
  {
    if q == [] {
      assert p + q == p;
    } else {
      var n := |q| - 1;
      assert (p + q)[..|p + q| - 1] == p + q[..n];
      RunAppend(a, p, q[..n]);
    }
  }

  /** Pressing the cell the blank has just left takes the last move back. */
  lemma PressTwice(b: Board, c: Cell)
    requires IsBoard(b) && Adjacent(c, BlankCell(b))
    ensures Press(Press(b, c), BlankCell(b)) == b
  {
    BoardFacts(b);
    BlankIsUnique(Press(b, c), c);
  }

  lemma ReachesSelf(a: Board)
    requires IsBoard(a)
    ensures Reaches(a, a)
  {
    assert Run(a, []) == a;
  }

  lemma ReachesPress(a: Board, c: Cell)
    requires IsBoard(a)
    ensures Reaches(a, Press(a, c))
  {
    assert [c][..0] == [];
    assert Run(a, [c]) == Press(a, c);
  }

  lemma ReachesTrans(a: Board, b: Board, c: Board)
    requires IsBoard(a) && IsBoard(b) && Reaches(a, b) && Reaches(b, c)
    ensures Reaches(a, c)
  {
    var p: seq<Cell> :| Run(a, p) == b;
    var q: seq<Cell> :| Run(b, q) == c;
    RunAppend(a, p, q);
  }

  /** The game never gets stuck: whatever was pressed, some presses lead back. */
  lemma {:induction false} RunBack(a: Board, presses: seq<Cell>)
    requires IsBoard(a)
    ensures Reaches(Run(a, presses), a)
  {
    if presses == [] {
      ReachesSelf(a);
    } else {
      var n := |presses| - 1;
      var b := Run(a, presses[..n]);
      var c := presses[n];
      RunBack(a, presses[..n]);
      if Adjacent(c, BlankCell(b)) {
        PressTwice(b, c);
        ReachesPress(Press(b, c), BlankCell(b));
        ReachesTrans(Press(b, c), b, a);
      }
    }
  }

  lemma ReachesSym(a: Board, b: Board)
    requires IsBoard(a) && IsBoard(b) && Reaches(a, b)
    ensures Reaches(b, a)
  {
    var p: seq<Cell> :| Run(a, p) == b;
    RunBack(a, p);
  }

  // ---------- the snake ----------

  /** The cells in the order the snake visits them. */
  const SNAKE: seq<Cell> := [0, 1, 2, 3, 7, 6, 5, 4, 8, 9, 10, 11, 15, 14, 13, 12]

  lemma SnakeTwice(i: nat)
    requires i < 16
    ensures SNAKE[SNAKE[i]] == i
  {
  }

  lemma SnakeSteps(i: nat)
    requires i < 15
    ensures Adjacent(SNAKE[i], SNAKE[i + 1]) && Adjacent(SNAKE[i + 1], SNAKE[i])
  {
  }

  type Line = t: seq<nat> | |t| == 15 witness seq(15, i => 0)

  /** The board that shows the line t along the snake with the blank at its p-th place. */
  ghost function Lay(t: Line, p: nat): (b: Board)
    requires p < 16
    ensures |b| == 16
  {
    seq(16, c requires 0 <= c < 16 => Entry(t, p, SNAKE[c]))
  }

  ghost function Entry(t: Line, p: nat, q: nat): nat
    requires p < 16 && q < 16
  {
    if q < p then t[q] else if q == p then BLANK else t[q - 1]
  }

  /** The line a board shows when its blank is skipped. */
  ghost function LineOf(b: Board, p: nat): (t: Line)
    requires |b| == 16 && p < 16
  {
    seq(15, q requires 0 <= q < 15 => b[SNAKE[if q < p then q else q + 1]])
  }

  lemma LayAt(t: Line, p: nat, q: nat)
    requires p < 16 && q < 16
    ensures Lay(t, p)[SNAKE[q]] == Entry(t, p, q)
  {
    SnakeTwice(q);
  }

  lemma SameLaid(a: Board, b: Board)
    requires |a| == |b| == 16
    requires forall q :: 0 <= q < 16 ==> a[SNAKE[q]] == b[SNAKE[q]]
    ensures a == b
  {
    forall c | 0 <= c < 16 ensures a[c] == b[c] {
      SnakeTwice(c);
      assert a[SNAKE[SNAKE[c]]] == b[SNAKE[SNAKE[c]]];
    }
  }

  lemma LayLineOf(b: Board, p: nat)
    requires |b| == 16 && p < 16 && b[SNAKE[p]] == BLANK
    ensures Lay(LineOf(b, p), p) == b
  {
    forall q | 0 <= q < 16 ensures Lay(LineOf(b, p), p)[SNAKE[q]] == b[SNAKE[q]] {
      LayAt(LineOf(b, p), p, q);
    }
    SameLaid(Lay(LineOf(b, p), p), b);
  }

  /** The stretch of n entries from i on, its last entry taken to the front. */
  function Turn(t: Line, i: nat, n: nat): (u: Line)
    requires 0 < n && i + n <= 15
  {
    t[..i] + [t[i + n - 1]] + t[i..i + n - 1] + t[i + n..]
  }

  function TurnBack(t: Line, i: nat, n: nat): (u: Line)
    requires 0 < n && i + n <= 15
  {
    t[..i] + t[i + 1..i + n] + [t[i]] + t[i + n..]
  }

  lemma SwapAlong(b: Board, i: nat, j: nat, q: nat)
    requires |b| == 16 && i < 16 && j < 16 && q < 16
    ensures Swap(b, SNAKE[i], SNAKE[j])[SNAKE[q]]
         == if q == j then b[SNAKE[i]] else if q == i then b[SNAKE[j]] else b[SNAKE[q]]
  {
    SnakeTwice(q);
    SnakeTwice(i);
    SnakeTwice(j);
  }

  /** Entry by entry: the blank and the tile n places on trade places, the rest stays. */
  lemma JumpAt(t: Line, i: nat, n: nat, q: nat)
    requires 0 < n && i + n <= 15 && q < 16
    ensures Entry(t, i, i) == BLANK
    ensures Entry(Turn(t, i, n), i + n, q)
         == if q == i + n then BLANK else if q == i then Entry(t, i, i + n) else Entry(t, i, q)
  {
  }

  lemma JumpSwaps(t: Line, i: nat, n: nat)
    requires 0 < n && i + n <= 15
    ensures Swap(Lay(t, i), SNAKE[i + n], SNAKE[i]) == Lay(Turn(t, i, n), i + n)
  {
    hide Lay, Turn, Entry;
    var b := Lay(t, i);
    LayAt(t, i, i);
    LayAt(t, i, i + n);
    JumpAt(t, i, n, i);
    var r := Swap(b, SNAKE[i + n], SNAKE[i]);
    forall q | 0 <= q < 16 ensures r[SNAKE[q]] == Lay(Turn(t, i, n), i + n)[SNAKE[q]] {
      LayAt(t, i, q);
      LayAt(Turn(t, i, n), i + n, q);
      SwapAlong(b, i + n, i, q);
      JumpAt(t, i, n, q);
    }
    SameLaid(r, Lay(Turn(t, i, n), i + n));
  }

  /** Pressing the tile n places further along the snake turns the stretch in between.  For
      n = 1 nothing turns: the blank just walks on. */
  lemma BlankJumps(t: Line, i: nat, n: nat)
    requires 0 < n && i + n <= 15 && IsBoard(Lay(t, i))
    requires Adjacent(SNAKE[i + n], SNAKE[i])
    ensures Press(Lay(t, i), SNAKE[i + n]) == Lay(Turn(t, i, n), i + n)
  {
    hide IsBoard, Lay, Turn, Entry, Adjacent;
    LayAt(t, i, i);
    JumpAt(t, i, n, i);
    BlankIsUnique(Lay(t, i), SNAKE[i]);
    JumpSwaps(t, i, n);
  }

  lemma TurnsCancel(t: Line, i: nat, n: nat)
    requires 0 < n && i + n <= 15
    ensures TurnBack(Turn(t, i, n), i, n) == t
    ensures Turn(TurnBack(t, i, n), i, n) == t
  {
  }

  // ---------- lines that reach one another ----------

  /** The line, laid with the blank in the first place, is a proper board. */
  ghost predicate Good(t: Line) {
    IsBoard(Lay(t, 0))
  }

  lemma NoTurn(t: Line, i: nat)
    requires i < 15
    ensures Turn(t, i, 1) == t
  {
  }

  /** The blank can walk the snake without disturbing the line. */
  lemma {:induction false} BlankWalks(t: Line, p: nat)
    requires p < 16 && Good(t)
    ensures IsBoard(Lay(t, p)) && Reaches(Lay(t, 0), Lay(t, p)) && Reaches(Lay(t, p), Lay(t, 0))
  {
    if p == 0 {
      ReachesSelf(Lay(t, 0));
    } else {
      hide Adjacent, Lay, Press, Reaches, IsBoard, Good, Turn;
      BlankWalks(t, p - 1);
      SnakeSteps(p - 1);
      BlankJumps(t, p - 1, 1);
      NoTurn(t, p - 1);
      ReachesPress(Lay(t, p - 1), SNAKE[p]);
      ReachesTrans(Lay(t, 0), Lay(t, p - 1), Lay(t, p));
      ReachesSym(Lay(t, 0), Lay(t, p));
    }
  }

  /** Two lines that can be turned into one another by presses. */
  ghost predicate Sim(t: Line, u: Line) {
    Good(t) && Good(u) && Reaches(Lay(t, 0), Lay(u, 0))
  }

  lemma SimTrans(t: Line, u: Line, w: Line)
    requires Sim(t, u) && Sim(u, w)
    ensures Sim(t, w)
  {
    ReachesTrans(Lay(t, 0), Lay(u, 0), Lay(w, 0));
  }

  lemma SimSym(t: Line, u: Line)
    requires Sim(t, u)
    ensures Sim(u, t)
  {
    ReachesSym(Lay(t, 0), Lay(u, 0));
  }

  lemma {:induction false} WalkHome(t: Line, p: nat)
    requires p < 16 && IsBoard(Lay(t, p))
    ensures Good(t)
  {
    if p > 0 {
      NoTurn(t, p - 1);
      JumpSwaps(t, p - 1, 1);
      SwapKeepsMultiset(Lay(t, p - 1), SNAKE[p], SNAKE[p - 1]);
      WalkHome(t, p - 1);
    }
  }

  lemma SimTurn(t: Line, i: nat, n: nat)
    requires Good(t) && 0 < n && i + n <= 15
    requires Adjacent(SNAKE[i + n], SNAKE[i])
    ensures Sim(t, Turn(t, i, n))
  {
    hide Adjacent, Lay, Press, Reaches, IsBoard;
    var u := Turn(t, i, n);
    BlankWalks(t, i);
    BlankJumps(t, i, n);
    ReachesPress(Lay(t, i), SNAKE[i + n]);
    WalkHome(u, i + n);
    BlankWalks(u, i + n);
    ReachesTrans(Lay(t, 0), Lay(t, i), Lay(u, i + n));
    ReachesTrans(Lay(t, 0), Lay(u, i + n), Lay(u, 0));
  }

  lemma LaySwap(t: Line, i: nat, j: nat)
    requires i < 15 && j < 15
    ensures Lay(Swap(t, i, j), 0) == Swap(Lay(t, 0), SNAKE[i + 1], SNAKE[j + 1])
  {
    var u: Line := Swap(t, i, j);
    var b := Lay(t, 0);
    LayAt(t, 0, i + 1);
    LayAt(t, 0, j + 1);
    forall q | 0 <= q < 16
      ensures Swap(b, SNAKE[i + 1], SNAKE[j + 1])[SNAKE[q]] == Lay(u, 0)[SNAKE[q]]
    {
      LayAt(t, 0, q);
      LayAt(u, 0, q);
      SwapAlong(b, i + 1, j + 1, q);
    }
    SameLaid(Swap(b, SNAKE[i + 1], SNAKE[j + 1]), Lay(u, 0));
  }

  lemma GoodSwap(t: Line, i: nat, j: nat)
    requires Good(t) && i < 15 && j < 15
    ensures Good(Swap(t, i, j))
  {
    LaySwap(t, i, j);
    SwapKeepsMultiset(Lay(t, 0), SNAKE[i + 1], SNAKE[j + 1]);
  }

  lemma GoodTurn3(t: Line, s: nat)
    requires Good(t) && s + 3 <= 15
    ensures Good(Turn(t, s, 3))
  {
    GoodSwap(t, s, s + 2);
    GoodSwap(Swap(t, s, s + 2), s + 1, s + 2);
    assert Turn(t, s, 3) == Swap(Swap(t, s, s + 2), s + 1, s + 2);
  }

  /** Every line can have its three entries from s on turned. */
  ghost predicate Turnable(s: nat)
    requires s + 3 <= 15
  {
    forall t: Line :: Good(t) ==> Sim(t, Turn(t, s, 3))
  }

  /** Where the entry that a turn brings to place k comes from. */
  function TurnSource(i: nat, n: nat, k: nat): (j: nat)
    requires 0 < n && i + n <= 15 && k < 15
    ensures j < 15
  {
    if k == i then i + n - 1 else if i < k < i + n then k - 1 else k
  }

  lemma TurnAt(t: Line, i: nat, n: nat, k: nat)
    requires 0 < n && i + n <= 15 && k < 15
    ensures Turn(t, i, n)[k] == t[TurnSource(i, n, k)]
  {
  }

  /** Between a long turn and its undoing, a short turn one place further on amounts to a short
      turn here. */
  lemma TurnsCommute(t: Line, a: nat, s: nat)
    requires a <= s && s + 4 <= a + 7 <= 15
    ensures Turn(Turn(t, s, 3), a, 7) == Turn(Turn(t, a, 7), s + 1, 3)
  {
    var l, r := Turn(Turn(t, s, 3), a, 7), Turn(Turn(t, a, 7), s + 1, 3);
    forall k | 0 <= k < 15 ensures l[k] == r[k] {
      TurnAt(Turn(t, s, 3), a, 7, k);
      TurnAt(Turn(t, a, 7), s + 1, 3, k);
      TurnAt(t, s, 3, TurnSource(a, 7, k));
      TurnAt(t, a, 7, TurnSource(s + 1, 3, k));
    }
  }

  lemma TurnDown(t: Line, a: nat, s: nat)
    requires a <= s && s + 4 <= a + 7 <= 15
    requires Adjacent(SNAKE[a + 7], SNAKE[a])
    requires Turnable(s + 1) && Good(t)
    ensures Sim(t, Turn(t, s, 3))
  {
    hide Good, Reaches, Adjacent, Turn;
    var u, v := Turn(t, a, 7), Turn(t, s, 3);
    GoodTurn3(t, s);
    SimTurn(t, a, 7);
    SimTurn(v, a, 7);
    TurnsCommute(t, a, s);
    SimTrans(t, u, Turn(u, s + 1, 3));
    SimSym(v, Turn(v, a, 7));
    SimTrans(t, Turn(u, s + 1, 3), v);
  }

  lemma TurnUp(t: Line, a: nat, s: nat)
    requires a <= s && s + 4 <= a + 7 <= 15
    requires Adjacent(SNAKE[a + 7], SNAKE[a])
    requires Turnable(s) && Good(t)
    ensures Sim(t, Turn(t, s + 1, 3))
  {
    hide Good, Reaches, Adjacent, Turn;
    var u := Unturned(t, a);
    var v := Turn(u, s, 3);
    TurnsCommute(u, a, s);
    SimTurn(v, a, 7);
    SimSym(u, t);
    SimTrans(t, u, v);
    SimTrans(t, v, Turn(t, s + 1, 3));
  }

  /** The line whose long turn is t. */
  ghost function Unturned(t: Line, a: nat): (u: Line)
    requires Good(t) && a + 7 <= 15 && Adjacent(SNAKE[a + 7], SNAKE[a])
    ensures Turn(u, a, 7) == t && Sim(u, t)
  {
    TurnsCancel(t, a, 7);
    GoodTurnBack7(t, a);
    SimTurn(TurnBack(t, a, 7), a, 7);
    TurnBack(t, a, 7)
  }

  lemma GoodTurnBack7(t: Line, a: nat)
    requires Good(t) && a + 7 <= 15
    ensures Good(TurnBack(t, a, 7))
  {
    GoodSwap(t, a, a + 1);
    GoodSwap(Swap(t, a, a + 1), a + 1, a + 2);
    var t2: Line := Swap(Swap(t, a, a + 1), a + 1, a + 2);
    GoodSwap(t2, a + 2, a + 3);
    GoodSwap(Swap(t2, a + 2, a + 3), a + 3, a + 4);
    var t4: Line := Swap(Swap(t2, a + 2, a + 3), a + 3, a + 4);
    GoodSwap(t4, a + 4, a + 5);
    GoodSwap(Swap(t4, a + 4, a + 5), a + 5, a + 6);
    assert TurnBack(t, a, 7) == Swap(Swap(t4, a + 4, a + 5), a + 5, a + 6);
  }

  lemma TurnableDown(a: nat, s: nat)
    requires a <= s && s + 4 <= a + 7 <= 15
    requires Adjacent(SNAKE[a + 7], SNAKE[a])
    requires Turnable(s + 1)
    ensures Turnable(s)
  {
    hide Good, Sim, Adjacent, Turn;
    forall t: Line | Good(t) ensures Sim(t, Turn(t, s, 3)) {
      TurnDown(t, a, s);
    }
  }

  lemma TurnableUp(a: nat, s: nat)
    requires a <= s && s + 4 <= a + 7 <= 15
    requires Adjacent(SNAKE[a + 7], SNAKE[a])
    requires Turnable(s)
    ensures Turnable(s + 1)
  {
    hide Good, Sim, Adjacent, Turn;
    forall t: Line | Good(t) ensures Sim(t, Turn(t, s + 1, 3)) {
      TurnUp(t, a, s);
    }
  }

  /** The three short turns a single press performs. */
  lemma TurnableAtCrossings(s: nat)
    requires s == 2 || s == 6 || s == 10
    ensures Turnable(s)
  {
    assert Adjacent(SNAKE[s + 3], SNAKE[s]);
    forall t: Line | Good(t) ensures Sim(t, Turn(t, s, 3)) {
      SimTurn(t, s, 3);
    }
  }

  lemma TurnableEverywhere(s: nat)
    requires s + 3 <= 15
    ensures Turnable(s)
  {
    var a := if s < 4 then 0 else if s < 8 then 4 else 8;
    assert Adjacent(SNAKE[a + 7], SNAKE[a]);
    TurnableAtCrossings(a + 2);
    if s == a {
      TurnableDown(a, a + 1);
      TurnableDown(a, a);
    } else if s == a + 1 {
      TurnableDown(a, a + 1);
    } else if s >= a + 3 {
      TurnableUp(a, a + 2);
      if s == a + 4 {
        TurnableUp(a, a + 3);
      }
    }
  }

  // ---------- sorting a line ----------

  lemma ShortTurn(t: Line, i: nat, k: nat)
    requires k <= i && i + 3 <= 15
    ensures Turn(t, i, 3)[..k] == t[..k]
    ensures Turn(t, i, 3)[i] == t[i + 2] && Turn(t, i, 3)[i + 2] == t[i + 1]
  {
  }

  /** Short turns bring the entry at place j forward to place k. */
  lemma {:induction false} BringForward(t: Line, k: nat, j: nat) returns (u: Line)
    requires Good(t) && k <= j < 15 && k < 13
    ensures Sim(t, u) && u[..k] == t[..k] && u[k] == t[j]
    decreases j
  {
    if j == k {
      u := t;
      ReachesSelf(Lay(t, 0));
    } else if j == k + 1 {
      TurnableEverywhere(k);
      var v := Turn(t, k, 3);
      u := Turn(v, k, 3);
      ShortTurn(t, k, k);
      ShortTurn(v, k, k);
      SimTrans(t, v, u);
    } else {
      TurnableEverywhere(j - 2);
      var v := Turn(t, j - 2, 3);
      ShortTurn(t, j - 2, k);
      u := BringForward(v, k, j - 2);
      SimTrans(t, v, u);
    }
  }

  lemma LineFacts(t: Line)
    requires Good(t)
    ensures Distinct(t) && BLANK !in t
  {
    var b := Lay(t, 0);
    BoardFacts(b);
    LayAt(t, 0, 0);
    forall i | 0 <= i < 15 ensures t[i] != BLANK && t[i] == b[SNAKE[i + 1]] {
      LayAt(t, 0, i + 1);
      SnakeTwice(i + 1);
      SnakeTwice(0);
    }
    forall i, j | 0 <= i < j < 15 ensures t[i] != t[j] {
      SnakeTwice(i + 1);
      SnakeTwice(j + 1);
    }
  }

  /** Every good line holds the same fifteen entries. */
  lemma EntryPresent(t: Line, v: nat) returns (j: nat)
    requires Good(t) && v < 15
    ensures j < 15 && t[j] == v
  {
    var b := Lay(t, 0);
    BoardFacts(b);
    assert Solved()[v] in multiset(Solved());
    assert v in multiset(b);
    var c: Cell :| c < 16 && b[c] == v;
    SnakeTwice(c);
    LayAt(t, 0, SNAKE[c]);
    j := SNAKE[c] - 1;
  }

  lemma LineEntrySmall(t: Line, i: nat)
    requires Good(t) && i < 15
    ensures t[i] < 15
  {
    LineFacts(t);
    BoardFacts(Lay(t, 0));
    LayAt(t, 0, i + 1);
    assert t[i] in t;
  }

  lemma PrefixEntry(t: Line, g: Line, k: nat)
    requires k <= 15 && t[..k] == g[..k]
    ensures forall i :: 0 <= i < k ==> t[i] == g[i]
  {
    assert forall i | 0 <= i < k :: t[..k][i] == t[i] && g[..k][i] == g[i];
  }

  /** Any line can be made to agree with any other in all but its last two places. */
  lemma {:induction false} SortTo(t: Line, g: Line, k: nat) returns (u: Line)
    requires Good(t) && Good(g) && k <= 13 && t[..k] == g[..k]
    ensures Sim(t, u) && u[..13] == g[..13]
    decreases 13 - k
  {
    if k == 13 {
      u := t;
      ReachesSelf(Lay(t, 0));
    } else {
      LineEntrySmall(g, k);
      var j := EntryPresent(t, g[k]);
      LineFacts(g);
      PrefixEntry(t, g, k);
      assert j >= k;
      var v := BringForward(t, k, j);
      assert v[..k + 1] == v[..k] + [v[k]] == g[..k + 1];
      u := SortTo(v, g, k + 1);
      SimTrans(t, v, u);
    }
  }

  /** Two good lines that agree in the first thirteen places are equal or differ by one exchange. */
  lemma LastTwo(u: Line, g: Line)
    requires Good(u) && Good(g) && u[..13] == g[..13]
    ensures u == g || u == Swap(g, 13, 14)
  {
    LineFacts(u);
    LineFacts(g);
    LineEntrySmall(u, 13);
    LineEntrySmall(u, 14);
    var i := EntryPresent(g, u[13]);
    var j := EntryPresent(g, u[14]);
    PrefixEntry(u, g, 13);
    assert i >= 13 && j >= 13;
  }

  // ---------- the characterisation ----------

  /** Every even board leads to the solved one. */
  lemma EvenBoardsAreSolvable(b: Board)
    requires IsBoard(b) && EvenBoard(b)
    ensures Reaches(b, Solved())
  {
    BoardFacts(b);
    var p := SNAKE[BlankCell(b)];
    SnakeTwice(BlankCell(b));
    var t, g := LineOf(b, p), LineOf(Solved(), 12);
    LayLineOf(b, p);
    LayLineOf(Solved(), 12);
    WalkHome(t, p);
    WalkHome(g, 12);
    var u := SortTo(t, g, 0);
    BlankWalks(t, p);
    BlankWalks(u, 12);
    ReachesTrans(b, Lay(t, 0), Lay(u, 0));
    ReachesTrans(b, Lay(u, 0), Lay(u, 12));
    LastTwo(u, g);
    if u != g {
      LaidApart(b, g);
    }
  }

  lemma LayExchanged(g: Line)
    ensures Lay(Swap(g, 13, 14), 12) == Swap(Lay(g, 12), SNAKE[14], SNAKE[15])
  {
    var h: Line := Swap(g, 13, 14);
    var s := Swap(Lay(g, 12), SNAKE[14], SNAKE[15]);
    LayAt(g, 12, 14);
    LayAt(g, 12, 15);
    forall q | 0 <= q < 16 ensures Lay(h, 12)[SNAKE[q]] == s[SNAKE[q]] {
      LayAt(h, 12, q);
      LayAt(g, 12, q);
      SwapAlong(Lay(g, 12), 14, 15, q);
    }
    SameLaid(Lay(h, 12), s);
  }

  lemma OddIsOutOfReach(b: Board, s: Board)
    requires IsBoard(b) && IsBoard(s) && EvenBoard(b) != EvenBoard(s)
    ensures !Reaches(b, s)
  {
    forall presses: seq<Cell> ensures Run(b, presses) != s {
      RunKeepsParity(b, presses);
    }
  }

  /** Laying a line with its last two entries exchanged gives an odd board, which an even board
      cannot reach. */
  lemma LaidApart(b: Board, g: Line)
    requires IsBoard(b) && EvenBoard(b)
    requires Lay(g, 12) == Solved()
    ensures !Reaches(b, Lay(Swap(g, 13, 14), 12))
  {
    SolvedIsEven();
    LayExchanged(g);
    ExchangeFlipsClass(Solved(), SNAKE[14], SNAKE[15]);
    OddIsOutOfReach(b, Swap(Solved(), SNAKE[14], SNAKE[15]));
  }

  /** Main theorem: a position can come up in play if and only if it is a permutation of 0..15
      whose inversions and blank distance agree in parity. */
  lemma ReachableIffEven(b: Board)
    requires IsBoard(b)
    ensures Reaches(Solved(), b) <==> EvenBoard(b)
  {
    SolvedIsEven();
    if EvenBoard(b) {
      EvenBoardsAreSolvable(b);
      ReachesSym(b, Solved());
    }
    if !EvenBoard(b) {
      OddIsOutOfReach(Solved(), b);
    }
  }

  /** The game never gets stuck: from every position reached, some presses lead to any other
      position that can come up, the solved one included. */
  lemma NeverStuck(presses: seq<Cell>, b: Board)
    requires IsBoard(b) && EvenBoard(b)
    ensures Reaches(Run(Solved(), presses), b)
  {
    SolvedIsEven();
    RunBack(Solved(), presses);
    ReachableIffEven(b);
    ReachesTrans(Run(Solved(), presses), Solved(), b);
  }
}
