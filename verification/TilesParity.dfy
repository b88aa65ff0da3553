/** The parity theorem of the 15 tiles: the inversions of the sixteen cells and the distance of
    the blank from its home corner are even or odd together on every board a run can reach. */
module TilesParity {
  import opened TilesBoard

  /** How many entries of s are smaller than v. */
  function Below(s: seq<nat>, v: nat): nat {
    if s == [] then 0 else (if s[0] < v then 1 else 0) + Below(s[1..], v)
  }

  /** How many pairs of entries stand in the wrong order. */
  function Inversions(s: seq<nat>): nat {
    if s == [] then 0 else Below(s[1..], s[0]) + Inversions(s[1..])
  }

  /** Columns plus rows between a cell and the bottom right corner. */
  function HomeDistance(c: Cell): nat {
    (3 - c % 4) + (3 - c / 4)
  }

  ghost predicate EvenBoard(b: Board)
    requires IsBoard(b)
  {
    Inversions(b) % 2 == HomeDistance(BlankCell(b)) % 2
  }

  ghost predicate Distinct(s: seq<nat>) {
    forall i, j :: 0 <= i < j < |s| ==> s[i] != s[j]
  }

  // ---------- inversions and transpositions ----------

  lemma {:induction false} BelowSwap(s: seq<nat>, k: nat, v: nat)
    requires k + 1 < |s|
    ensures Below(Swap(s, k, k + 1), v) == Below(s, v)
  {
    var r := Swap(s, k, k + 1);
    if k == 0 {
      assert r[1..][1..] == s[1..][1..];
    } else {
      assert r[1..] == Swap(s[1..], k - 1, k);
      BelowSwap(s[1..], k - 1, v);
    }
  }

  /** Exchanging neighbours changes the number of inversions by exactly one. */
  lemma {:induction false} AdjacentSwapFlips(s: seq<nat>, k: nat)
    requires k + 1 < |s| && s[k] != s[k + 1]
    ensures Inversions(Swap(s, k, k + 1)) % 2 != Inversions(s) % 2
  {
    var r := Swap(s, k, k + 1);
    if k == 0 {
      var rest := s[2..];
      assert s[1..][1..] == rest && r[1..][1..] == rest;
      assert r[1..][0] == s[0] && s[1..][0] == s[1];
    } else {
      assert r[1..] == Swap(s[1..], k - 1, k);
      BelowSwap(s[1..], k - 1, s[0]);
      AdjacentSwapFlips(s[1..], k - 1);
    }
  }

  /** Exchanging any two entries is an odd number of neighbour exchanges. */
  lemma {:induction false} SwapFlips(s: seq<nat>, i: nat, j: nat)
    requires Distinct(s) && i < j < |s|
    ensures Inversions(Swap(s, i, j)) % 2 != Inversions(s) % 2
    decreases j - i
  {
    if j == i + 1 {
      AdjacentSwapFlips(s, i);
    } else {
      var s1 := Swap(s, i, i + 1);
      var s2 := Swap(s1, i + 1, j);
      AdjacentSwapFlips(s, i);
      SwapFlips(s1, i + 1, j);
      AdjacentSwapFlips(s2, i);
      assert Swap(s2, i, i + 1) == Swap(s, i, j);
    }
  }

  // ---------- runs ----------

  lemma NeighbourDistance(c: Cell, d: Cell)
    requires Adjacent(c, d)
    ensures c != d && HomeDistance(c) % 2 != HomeDistance(d) % 2
  {
    CellCoordinates(c);
    CellCoordinates(d);
  }

  lemma PressKeepsParity(b: Board, c: Cell)
    requires IsBoard(b)
    ensures EvenBoard(Press(b, c)) == EvenBoard(b)
  {
    BoardFacts(b);
    var k := BlankCell(b);
    if Adjacent(c, k) {
      NeighbourDistance(c, k);
      BlankIsUnique(Press(b, c), c);
      if c < k {
        SwapFlips(b, c, k);
      } else {
        SwapFlips(b, k, c);
        assert Swap(b, k, c) == Swap(b, c, k);
      }
    }
  }

  /** No run of presses changes which of the two classes a board is in. */
  lemma {:induction false} RunKeepsParity(b: Board, presses: seq<Cell>)
    requires IsBoard(b)
    ensures EvenBoard(Run(b, presses)) == EvenBoard(b)
  {
    if presses != [] {
      var n := |presses| - 1;
      RunKeepsParity(b, presses[..n]);
      PressKeepsParity(Run(b, presses[..n]), presses[n]);
    }
  }

  lemma {:induction false} CountingUp(s: seq<nat>, from: nat)
    requires forall i :: 0 <= i < |s| ==> s[i] == from + i
    ensures forall v: nat :: v <= from ==> Below(s, v) == 0
    ensures Inversions(s) == 0
  {
    if s != [] {
      CountingUp(s[1..], from + 1);
    }
  }

  lemma SolvedInOrder()
    ensures Inversions(Solved()) == 0
  {
    CountingUp(Solved(), 0);
  }

  lemma InOrderIsEven(b: Board)
    requires IsBoard(b) && |b| == 16 && b[15] == BLANK && Inversions(b) == 0
    ensures BlankCell(b) == 15 && EvenBoard(b)
  {
    hide IsBoard, Inversions;
    BlankIsUnique(b, 15);
    assert HomeDistance(15) == 0;
  }

  lemma SolvedIsEven()
    ensures IsBoard(Solved()) && BlankCell(Solved()) == 15
    ensures EvenBoard(Solved())
  {
    SolvedInOrder();
    InOrderIsEven(Solved());
  }

  /** Main invariant: on every board reached from the solved one, inversions and the distance
      of the blank from home agree in parity. */
  lemma ReachedBoardsAreEven(presses: seq<Cell>)
    ensures EvenBoard(Run(Solved(), presses))
  {
    SolvedIsEven();
    RunKeepsParity(Solved(), presses);
  }

  /** Exchanging two tiles, the blank staying put, moves a board to the other class. */
  lemma ExchangeFlipsClass(b: Board, i: Cell, j: Cell)
    requires IsBoard(b) && i != j && i != BlankCell(b) && j != BlankCell(b)
    ensures IsBoard(Swap(b, i, j)) && EvenBoard(Swap(b, i, j)) != EvenBoard(b)
  {
    BoardFacts(b);
    var r := Swap(b, i, j);
    SwapKeepsMultiset(b, i, j);
    BlankIsUnique(r, BlankCell(b));
    if i < j {
      SwapFlips(b, i, j);
    } else {
      SwapFlips(b, j, i);
      assert Swap(b, j, i) == r;
    }
  }

  /** The classic impossible position: only the last two tiles, 14 and 15 on screen, exchanged. */
  lemma LastTwoExchangedUnreachable(presses: seq<Cell>)
    ensures Run(Solved(), presses) != Swap(Solved(), 13, 14)
  {
    SolvedIsEven();
    ExchangeFlipsClass(Solved(), 13, 14);
    ReachedBoardsAreEven(presses);
  }
}
