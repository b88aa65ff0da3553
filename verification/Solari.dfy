/** The settings arithmetic and the animated display of 6-Alarm/solari.c: packed decimal fields
    stepped up and down by touches, and four digits that flip one value at a time. */
module Solari {
  import opened CInts

  // ---------- packed decimal ----------

  function ToDec(bcd: byte): nat {
    (bcd / 16) * 10 + bcd % 16
  }

  /** The tens shifted up and cut to a byte, the units added, and cut again. */
  function ToBcd(dec: int): byte {
    Byte(Byte(CDiv(dec, 10) * 16) + CMod(dec, 10))
  }

  predicate IsBcd(b: byte) {
    b / 16 <= 9 && b % 16 <= 9
  }

  lemma ToBcdIs(dec: nat)
    requires dec < 160
    ensures ToBcd(dec) == 16 * (dec / 10) + dec % 10
  {
    Divided(dec, 10);
    ModUnique(16 * (dec / 10), 256, 0, 16 * (dec / 10));
    ModUnique(16 * (dec / 10) + dec % 10, 256, 0, 16 * (dec / 10) + dec % 10);
  }

  lemma BcdOfDec(dec: nat)
    requires dec < 100
    ensures IsBcd(ToBcd(dec)) && ToDec(ToBcd(dec)) == dec
  {
    hide ToBcd;
    ToBcdIs(dec);
    Divided(dec, 10);
    ModUnique(ToBcd(dec), 16, dec / 10, dec % 10);
  }

  lemma DecOfBcd(b: byte)
    requires IsBcd(b)
    ensures ToDec(b) < 100 && ToBcd(ToDec(b)) == b
  {
    hide ToBcd;
    Divided(b, 16);
    ModUnique(ToDec(b), 10, b / 16, b % 16);
    ToBcdIs(ToDec(b));
  }

  // ---------- a settings field ----------

  /** A field counts from base to sat in the given step. */
  datatype Field = Field(step: nat, base: nat, sat: nat)

  ghost predicate Proper(f: Field) {
    0 < f.step && f.base <= f.sat < 100 && (f.sat - f.base) % f.step == 0
  }

  /** How many values the field cycles through. */
  ghost function Size(f: Field): (n: nat)
    requires Proper(f)
    ensures n > 0 && f.sat == f.base + f.step * (n - 1)
  {
    var q := (f.sat - f.base) / f.step;
    assert f.sat - f.base == f.step * q;
    q + 1
  }

  /** The packed value of the i-th position of the field. */
  ghost function Notch(f: Field, i: nat): (b: byte)
    requires Proper(f) && i < Size(f)
    ensures IsBcd(b) && ToDec(b) == f.base + f.step * i <= f.sat
  {
    NotchInRange(f, i);
    BcdOfDec(f.base + f.step * i);
    ToBcd(f.base + f.step * i)
  }

  lemma NotchIs(f: Field, i: nat)
    requires Proper(f) && i < Size(f)
    ensures Notch(f, i) == ToBcd(f.base + f.step * i)
  {
    hide ToBcd, ToDec, IsBcd;
  }

  lemma NotchInRange(f: Field, i: nat)
    requires Proper(f) && i < Size(f)
    ensures f.base + f.step * i <= f.sat
    ensures i + 1 < Size(f) ==> f.base + f.step * i < f.sat
    ensures i > 0 ==> f.base + f.step * i > f.base
  {
    if i + 1 < Size(f) {
      OneStepMore(f.step, i, Size(f) - 2 - i);
    }
    if i > 0 {
      OneStepMore(f.step, 0, i - 1);
    }
  }

  function IncBcd(b: byte, f: Field): byte {
    var dec := ToDec(b);
    if dec == f.sat then ToBcd(f.base) else ToBcd(dec + f.step)
  }

  function DecBcd(b: byte, f: Field): byte {
    var dec := ToDec(b);
    if dec == f.base then ToBcd(f.sat) else ToBcd(dec - f.step)
  }

  /** One touch of an arrow: up or down. */
  function Touch(b: byte, f: Field, up: bool): byte {
    if up then IncBcd(b, f) else DecBcd(b, f)
  }

  function Touches(b: byte, f: Field, ups: seq<bool>): byte {
    if ups == [] then b else Touch(Touches(b, f, ups[..|ups| - 1]), f, ups[|ups| - 1])
  }

  /** Up touches less down touches. */
  function Net(ups: seq<bool>): int {
    if ups == [] then 0 else Net(ups[..|ups| - 1]) + if ups[|ups| - 1] then 1 else -1
  }

  /** Up moves one notch on and down one notch back, around the cycle. */
  lemma TouchMovesOneNotch(f: Field, i: nat)
    requires Proper(f) && i < Size(f)
    ensures IncBcd(Notch(f, i), f) == Notch(f, if i + 1 == Size(f) then 0 else i + 1)
    ensures DecBcd(Notch(f, i), f) == Notch(f, if i == 0 then Size(f) - 1 else i - 1)
  {
    hide ToBcd, ToDec, IsBcd;
    NotchInRange(f, i);
    assert f.base + f.step * i + f.step == f.base + f.step * (i + 1);
    assert f.base + f.step * i - f.step == f.base + f.step * (i - 1);
  }

  /** Main theorem: a settings field is a cyclic counter.  After any touches it shows the notch that
      many places away from where it started, counted around the cycle. */
  lemma {:induction false} FieldIsCyclic(f: Field, start: nat, ups: seq<bool>)
    requires Proper(f) && start < Size(f)
    ensures Touches(Notch(f, start), f, ups) == Notch(f, (start + Net(ups)) % Size(f))
  {
    hide Notch, IncBcd, DecBcd;
    var n := Size(f);
    if ups == [] {
      ModUnique(start, n, 0, start);
    } else {
      var before := ups[..|ups| - 1];
      var at := start + Net(before);
      var i: nat := at % n;
      FieldIsCyclic(f, start, before);
      ModNext(at, n);
      ModPrevious(at, n);
      TouchMovesOneNotch(f, i);
      assert Touches(Notch(f, start), f, ups) == Touch(Notch(f, i), f, ups[|ups| - 1]);
    }
  }

  /** Down takes up back, and up takes down back. */
  lemma DownUndoesUp(f: Field, i: nat)
    requires Proper(f) && i < Size(f)
    ensures DecBcd(IncBcd(Notch(f, i), f), f) == Notch(f, i)
    ensures IncBcd(DecBcd(Notch(f, i), f), f) == Notch(f, i)
  {
    hide Notch, IncBcd, DecBcd;
    TouchMovesOneNotch(f, i);
    TouchMovesOneNotch(f, if i + 1 == Size(f) then 0 else i + 1);
    TouchMovesOneNotch(f, if i == 0 then Size(f) - 1 else i - 1);
  }

  /** Any packed value, in range or not: up and down add and take away the step, unless the value is
      the limit, and from the limit they go to the other one. */
  lemma TouchAnyValue(f: Field, b: byte)
    requires f.base < 100 && f.sat < 100 && IsBcd(b)
    ensures ToDec(b) == f.sat ==> IsBcd(IncBcd(b, f)) && ToDec(IncBcd(b, f)) == f.base
    ensures ToDec(b) != f.sat && ToDec(b) + f.step < 100
            ==> IsBcd(IncBcd(b, f)) && ToDec(IncBcd(b, f)) == ToDec(b) + f.step
    ensures ToDec(b) == f.base ==> IsBcd(DecBcd(b, f)) && ToDec(DecBcd(b, f)) == f.sat
    ensures ToDec(b) != f.base && ToDec(b) >= f.step
            ==> IsBcd(DecBcd(b, f)) && ToDec(DecBcd(b, f)) == ToDec(b) - f.step
  {
    hide ToBcd, ToDec, IsBcd;
    DecOfBcd(b);
    BcdOfDec(f.base);
    BcdOfDec(f.sat);
    if ToDec(b) + f.step < 100 {
      BcdOfDec(ToDec(b) + f.step);
    }
    if ToDec(b) >= f.step {
      BcdOfDec(ToDec(b) - f.step);
    }
  }

  /** A value the field can be stepped to: valid, in range, and a whole number of steps up. */
  ghost predicate OnGrid(f: Field, b: byte)
    requires Proper(f)
  {
    IsBcd(b) && f.base <= ToDec(b) <= f.sat && (ToDec(b) - f.base) % f.step == 0
  }

  lemma NotchIsOnGrid(f: Field, i: nat)
    requires Proper(f) && i < Size(f)
    ensures OnGrid(f, Notch(f, i))
  {
    NotchInRange(f, i);
    var d := f.step * i;
    ModUnique(d, f.step, i, 0);
    assert ToDec(Notch(f, i)) - f.base == d;
  }

  /** The notches are exactly the values on the grid. */
  lemma NotchOf(f: Field, b: byte) returns (i: nat)
    requires Proper(f) && OnGrid(f, b)
    ensures i < Size(f) && Notch(f, i) == b
  {
    var d := ToDec(b) - f.base;
    i := d / f.step;
    Divided(d, f.step);
    NotchByIndex(f, b, i);
  }

  lemma NotchByIndex(f: Field, b: byte, i: nat)
    requires Proper(f) && OnGrid(f, b) && ToDec(b) - f.base == f.step * i
    ensures i < Size(f) && Notch(f, i) == b
  {
    hide ToDec, ToBcd, IsBcd;
    Cancel(f.step, i, Size(f) - 1);
    DecOfBcd(b);
  }

  // ---------- leaving the grid ----------

  ghost predicate InRange(f: Field, b: byte) {
    IsBcd(b) && f.base <= ToDec(b) <= f.sat
  }

  lemma {:induction false} TouchFirst(b: byte, f: Field, up: bool, ups: seq<bool>)
    ensures Touches(b, f, [up] + ups) == Touches(Touch(b, f, up), f, ups)
  {
    if ups == [] {
      assert [up] + ups == [up];
      assert [up][..0] == [];
    } else {
      var n := |ups| - 1;
      assert ([up] + ups)[..n + 1] == [up] + ups[..n];
      TouchFirst(b, f, up, ups[..n]);
    }
  }

  lemma ToBcdOver(dec: nat)
    requires 100 <= dec < 160
    ensures !IsBcd(ToBcd(dec))
  {
    hide ToBcd;
    ToBcdIs(dec);
    Divided(dec, 10);
    ModUnique(ToBcd(dec), 16, dec / 10, dec % 10);
  }

  lemma ToBcdUnder(dec: int)
    requires -60 <= dec < 0
    ensures !IsBcd(ToBcd(dec))
  {
    assert ToBcd(dec) == 256 - 16 * (-dec / 10) - -dec % 10;
  }

  /** Off the grid, at the base or above, the wrap-around test never succeeds: up touches climb past
      the packed values. */
  lemma {:induction false} ClimbsOut(f: Field, b: byte) returns (ups: seq<bool>)
    requires Proper(f) && f.step <= 60 && IsBcd(b) && !OnGrid(f, b) && ToDec(b) >= f.base
    ensures !IsBcd(Touches(b, f, ups))
    decreases 100 - ToDec(b)
  {
    hide Touches, OnGrid, IsBcd, ToDec;
    DecOfBcd(b);
    var c := IncBcd(b, f);
    OneClimb(f, b);
    if IsBcd(c) {
      var rest := ClimbsOut(f, c);
      TouchFirst(b, f, true, rest);
      ups := [true] + rest;
    } else {
      ups := [true];
      OneTouch(b, f, true);
    }
  }

  /** Below the base down touches sink past the packed values. */
  lemma {:induction false} SinksOut(f: Field, b: byte) returns (ups: seq<bool>)
    requires Proper(f) && f.step <= 60 && IsBcd(b) && ToDec(b) < f.base
    ensures !IsBcd(Touches(b, f, ups))
    decreases ToDec(b)
  {
    hide Touches, IsBcd, ToDec;
    var c := DecBcd(b, f);
    if ToDec(b) >= f.step {
      BcdOfDec(ToDec(b) - f.step);
      var rest := SinksOut(f, c);
      TouchFirst(b, f, false, rest);
      ups := [false] + rest;
    } else {
      ToBcdUnder(ToDec(b) - f.step);
      ups := [false];
      OneTouch(b, f, false);
    }
  }

  lemma OneTouch(b: byte, f: Field, up: bool)
    ensures Touches(b, f, [up]) == Touch(b, f, up)
  {
    TouchFirst(b, f, up, []);
    assert [up] + [] == [up];
    NoTouches(Touch(b, f, up), f);
  }

  lemma NoTouches(b: byte, f: Field)
    ensures Touches(b, f, []) == b
  {
  }

  lemma OneClimb(f: Field, b: byte)
    requires Proper(f) && f.step <= 60 && IsBcd(b) && !OnGrid(f, b) && ToDec(b) >= f.base
    ensures var c := IncBcd(b, f); IsBcd(c) ==> !OnGrid(f, c) && ToDec(c) == ToDec(b) + f.step
  {
    hide ToBcd, ToDec, IsBcd;
    var dec := ToDec(b);
    DecOfBcd(b);
    if dec + f.step < 100 {
      BcdOfDec(dec + f.step);
      SameResidue(dec - f.base, f.step);
      assert dec + f.step - f.base == dec - f.base + f.step;
    } else {
      ToBcdOver(dec + f.step);
    }
  }

  lemma SameResidue(d: nat, step: nat)
    requires step > 0
    ensures (d + step) % step == d % step
  {
    ModUnique(d + step, step, d / step + 1, d % step);
  }

  lemma StaysInRange(f: Field, b: byte, ups: seq<bool>)
    requires Proper(f) && OnGrid(f, b)
    ensures InRange(f, Touches(b, f, ups))
  {
    hide Touches, Notch, Net, ToDec, IsBcd, Size, Proper, OnGrid;
    var i := NotchOf(f, b);
    FieldIsCyclic(f, i, ups);
    NotchIsInRange(f, (i + Net(ups)) % Size(f));
  }

  lemma NotchIsInRange(f: Field, i: nat)
    requires Proper(f) && i < Size(f)
    ensures InRange(f, Notch(f, i))
  {
    hide ToDec, IsBcd, Notch, Size;
    Larger(f.step, i, 0);
  }

  /** Main theorem: a field stays a packed decimal whatever is touched if and only if it starts on the
      grid: in range and a whole number of steps from the base.  The tests for the limits are
      equalities, so above the range up touches climb out, below it down touches sink out. */
  lemma PackedForeverIffOnGrid(f: Field, b: byte)
    requires Proper(f) && f.step <= 60
    ensures OnGrid(f, b) <==> forall ups: seq<bool> :: IsBcd(Touches(b, f, ups))
  {
    if OnGrid(f, b) {
      forall ups: seq<bool> ensures IsBcd(Touches(b, f, ups)) {
        StaysInRange(f, b, ups);
      }
    } else {
      NoTouches(b, f);
      if IsBcd(b) {
        if ToDec(b) >= f.base {
          var ups := ClimbsOut(f, b);
        } else {
          var ups := SinksOut(f, b);
        }
      }
    }
  }

  /** The same of the range: it is kept whatever is touched from the grid and from nowhere else. */
  lemma InRangeForeverIffOnGrid(f: Field, b: byte)
    requires Proper(f) && f.step <= 60
    ensures OnGrid(f, b) <==> forall ups: seq<bool> :: InRange(f, Touches(b, f, ups))
  {
    hide IsBcd, ToDec, Touches;
    PackedForeverIffOnGrid(f, b);
    if OnGrid(f, b) {
      forall ups: seq<bool> ensures InRange(f, Touches(b, f, ups)) {
        StaysInRange(f, b, ups);
      }
    } else {
      var ups: seq<bool> :| !IsBcd(Touches(b, f, ups));
      assert !InRange(f, Touches(b, f, ups));
    }
  }

  // ---------- one digit ----------

  datatype Time = Time(hour: byte, min: byte, sec: byte)

  /** A digit shows a value below its modulus; states 1 to 3 are the flip to the next value. */
  datatype Digit = Digit(value: nat, state: nat, mod: nat)

  predicate SafeDigit(d: Digit) {
    d.value < d.mod && d.state < 4
  }

  /** One animation call for one digit whose target is b. */
  function RollDigit(d: Digit, b: nat): Digit
    requires d.mod > 0
  {
    if d.state != 0 || d.value != b then
      var state := Byte(d.state + 1);
      if state == 4 then d.(state := 0, value := (d.value + 1) % d.mod) else d.(state := state)
    else d
  }

  function Rolled(d: Digit, b: nat, k: nat): (r: Digit)
    requires d.mod > 0
    ensures r.mod == d.mod
  {
    if k == 0 then d else RollDigit(Rolled(d, b, k - 1), b)
  }

  /** How many values the digit has to flip through: a full round if it has just left its target. */
  function Flips(d: Digit, b: nat): (n: nat)
    requires SafeDigit(d) && b < d.mod
    ensures 1 <= n <= d.mod
  {
    if d.value < b then b - d.value else d.mod + b - d.value
  }

  /** How many calls until the digit stands still on its target. */
  function Calls(d: Digit, b: nat): nat
    requires SafeDigit(d) && b < d.mod
  {
    if d.state == 0 && d.value == b then 0 else 4 * Flips(d, b) - d.state
  }

  lemma NextValue(v: nat, mod: nat)
    requires v < mod <= 255
    ensures (v + 1) % mod == if v + 1 == mod then 0 else v + 1
  {
    if v + 1 == mod {
      ModUnique(v + 1, mod, 1, 0);
    } else {
      ModUnique(v + 1, mod, 0, v + 1);
    }
  }

  lemma OneCallLess(d: Digit, b: nat)
    requires SafeDigit(d) && b < d.mod <= 255
    ensures SafeDigit(RollDigit(d, b))
    ensures Calls(RollDigit(d, b), b) == if Calls(d, b) == 0 then 0 else Calls(d, b) - 1
  {
    NextValue(d.value, d.mod);
  }

  lemma {:induction false} CallsCountDown(d: Digit, b: nat, k: nat)
    requires SafeDigit(d) && b < d.mod <= 255
    ensures SafeDigit(Rolled(d, b, k))
    ensures Calls(Rolled(d, b, k), b) == if k <= Calls(d, b) then Calls(d, b) - k else 0
  {
    if k > 0 {
      CallsCountDown(d, b, k - 1);
      OneCallLess(Rolled(d, b, k - 1), b);
    }
  }

  /** Main theorem: with the target held, a digit stands still on it after exactly that many calls,
      not one earlier, and stays there. */
  lemma DigitSettles(d: Digit, b: nat, k: nat)
    requires SafeDigit(d) && b < d.mod <= 255
    ensures Rolled(d, b, k) == Digit(b, 0, d.mod) <==> k >= Calls(d, b)
  {
    CallsCountDown(d, b, k);
  }

  /** Whatever targets follow one another, the digit never leaves its range, so its bitmap index is
      always good. */
  function Chased(d: Digit, targets: seq<nat>): (r: Digit)
    requires SafeDigit(d)
    ensures SafeDigit(r) && r.mod == d.mod
  {
    if targets == [] then d
    else RollDigit(Chased(d, targets[..|targets| - 1]), targets[|targets| - 1])
  }

  // ---------- the display ----------

  function Unpack(t: Time): (b: seq<nat>)
    ensures |b| == 4
  {
    [t.hour / 16, t.hour % 16, t.min / 16, t.min % 16]
  }

  const MODULI: seq<nat> := [3, 10, 6, 10]

  ghost predicate ValidTime(t: Time) {
    IsBcd(t.hour) && ToDec(t.hour) <= 23 && IsBcd(t.min) && ToDec(t.min) <= 59
  }

  lemma ValidTimeFits(t: Time)
    requires ValidTime(t)
    ensures forall j :: 0 <= j < 4 ==> Unpack(t)[j] < MODULI[j]
  {
  }

  ghost predicate SafeDisplay(ds: seq<Digit>) {
    |ds| == 4 && forall j :: 0 <= j < 4 ==> SafeDigit(ds[j]) && ds[j].mod == MODULI[j]
  }

  function RollAll(ds: seq<Digit>, t: Time): (r: seq<Digit>)
    requires |ds| == 4 && forall j :: 0 <= j < 4 ==> ds[j].mod > 0
    ensures |r| == 4 && forall j :: 0 <= j < 4 ==> r[j] == RollDigit(ds[j], Unpack(t)[j])
  {
    seq(4, j requires 0 <= j < 4 => RollDigit(ds[j], Unpack(t)[j]))
  }

  /** The display stands still on the given time. */
  function Standing(t: Time): seq<Digit> {
    seq(4, j requires 0 <= j < 4 => Digit(Unpack(t)[j], 0, MODULI[j]))
  }

  /** Four digits that stand still, in range, and read as the given time: tens and units of the hour,
      then tens and units of the minute. */
  ghost predicate ReadsAs(ds: seq<Digit>, t: Time) {
    && |ds| == 4
    && (forall j :: 0 <= j < 4 ==> ds[j].state == 0)
    && ds[0].value < 3 && ds[1].value < 10 && ds[2].value < 6 && ds[3].value < 10
    && 10 * ds[0].value + ds[1].value == ToDec(t.hour)
    && 10 * ds[2].value + ds[3].value == ToDec(t.min)
  }

  lemma StandingReads(t: Time)
    requires ValidTime(t)
    ensures ReadsAs(Standing(t), t)
  {
    ValidTimeFits(t);
  }

  /** The digits determine the time they read as. */
  lemma OnlyStandingReads(ds: seq<Digit>, t: Time)
    requires SafeDisplay(ds) && ValidTime(t) && ReadsAs(ds, t)
    ensures ds == Standing(t)
  {
    hide ToDec;
    ValidTimeFits(t);
    SameDigits(ds[0].value, ds[1].value, t.hour);
    SameDigits(ds[2].value, ds[3].value, t.min);
  }

  lemma SameDigits(tens: nat, units: nat, b: byte)
    requires IsBcd(b) && units < 10 && 10 * tens + units == ToDec(b)
    ensures tens == b / 16 && units == b % 16
  {
  }

  class Display {
    const dgt: array<Digit>

    ghost predicate Valid()
      reads this, dgt
    {
      dgt.Length == 4 && SafeDisplay(dgt[..])
    }

    /** The digits as the program starts with them. */
    constructor ()
      ensures Valid() && fresh(dgt)
      ensures dgt[..] == [Digit(0, 0, 3), Digit(0, 0, 10), Digit(0, 0, 6), Digit(0, 0, 10)]
    {
      dgt := new Digit[4](j requires 0 <= j < 4 => Digit(0, 0, MODULI[j]));
    }

    /** Shows a time at once. */
    method Set(t: Time)
      requires Valid() && ValidTime(t)
      modifies dgt
      ensures Valid() && dgt[..] == Standing(t) && ReadsAs(dgt[..], t)
    {
      ValidTimeFits(t);
      StandingReads(t);
      dgt[0] := dgt[0].(value := t.hour / 16);
      dgt[1] := dgt[1].(value := t.hour % 16);
      dgt[2] := dgt[2].(value := t.min / 16);
      dgt[3] := dgt[3].(value := t.min % 16);
      dgt[0] := dgt[0].(state := 0);
      dgt[1] := dgt[1].(state := 0);
      dgt[2] := dgt[2].(state := 0);
      dgt[3] := dgt[3].(state := 0);
    }

    /** One animation call: every digit not standing on its target moves on by one state. */
    method Roll(t: Time)
      requires Valid()
      modifies dgt
      ensures Valid() && dgt[..] == RollAll(old(dgt[..]), t)
    {
      var b := Unpack(t);
      for j := 0 to 4
        invariant forall i :: 0 <= i < j ==> dgt[i] == RollDigit(old(dgt[i]), b[i])
        invariant forall i :: j <= i < 4 ==> dgt[i] == old(dgt[i])
      {
        assert SafeDigit(old(dgt[..])[j]) && old(dgt[..])[j].mod == MODULI[j];
        if dgt[j].state != 0 || dgt[j].value != b[j] {
          dgt[j] := dgt[j].(state := Byte(dgt[j].state + 1));
          if dgt[j].state == 4 {
            dgt[j] := dgt[j].(state := 0, value := (dgt[j].value + 1) % dgt[j].mod);
          }
        }
      }
      RollKeepsSafe(old(dgt[..]), t);
      assert dgt[..] == RollAll(old(dgt[..]), t);
    }
  }

  lemma RollKeepsSafe(ds: seq<Digit>, t: Time)
    requires SafeDisplay(ds)
    ensures SafeDisplay(RollAll(ds, t))
  {
  }

  function RolledAll(ds: seq<Digit>, t: Time, k: nat): (r: seq<Digit>)
    requires |ds| == 4 && forall j :: 0 <= j < 4 ==> ds[j].mod > 0
    ensures |r| == 4 && forall j :: 0 <= j < 4 ==> r[j] == Rolled(ds[j], Unpack(t)[j], k)
  {
    if k == 0 then ds else RollAll(RolledAll(ds, t, k - 1), t)
  }

  lemma {:induction false} RolledStaysSafe(ds: seq<Digit>, t: Time, k: nat)
    requires SafeDisplay(ds)
    ensures SafeDisplay(RolledAll(ds, t, k))
  {
    if k > 0 {
      RolledStaysSafe(ds, t, k - 1);
      RollKeepsSafe(RolledAll(ds, t, k - 1), t);
    }
  }

  lemma SettledReads(ds: seq<Digit>, t: Time, k: nat)
    requires SafeDisplay(ds) && ValidTime(t)
    ensures RolledAll(ds, t, k) == Standing(t) <==> ReadsAs(RolledAll(ds, t, k), t)
  {
    hide ReadsAs, Standing, RolledAll;
    RolledStaysSafe(ds, t, k);
    StandingReads(t);
    if ReadsAs(RolledAll(ds, t, k), t) {
      OnlyStandingReads(RolledAll(ds, t, k), t);
    }
  }

  function Slowest(ds: seq<Digit>, t: Time): (n: nat)
    requires SafeDisplay(ds) && ValidTime(t)
    ensures forall j :: 0 <= j < 4 ==> (ValidTimeFits(t); Calls(ds[j], Unpack(t)[j])) <= n
    ensures exists j :: 0 <= j < 4 && (ValidTimeFits(t); Calls(ds[j], Unpack(t)[j])) == n
  {
    ValidTimeFits(t);
    var c := seq(4, j requires 0 <= j < 4 => Calls(ds[j], Unpack(t)[j]));
    var a := if c[0] < c[1] then c[1] else c[0];
    var b := if c[2] < c[3] then c[3] else c[2];
    assert forall j :: 0 <= j < 4 ==> c[j] == Calls(ds[j], Unpack(t)[j]);
    if a < b then b else a
  }

  /** Main theorem: with a valid time held, the display stands still on it from the moment its
      slowest digit has arrived, at most thirty-nine calls away, and not before; and standing still on
      it its four digits read as the hour and the minute. */
  lemma DisplaySettles(ds: seq<Digit>, t: Time, k: nat)
    requires SafeDisplay(ds) && ValidTime(t)
    ensures RolledAll(ds, t, k) == Standing(t) <==> k >= Slowest(ds, t)
    ensures ReadsAs(RolledAll(ds, t, k), t) <==> k >= Slowest(ds, t)
    ensures Slowest(ds, t) <= 39
  {
    hide ReadsAs;
    ValidTimeFits(t);
    SettledReads(ds, t, k);
    forall j | 0 <= j < 4
      ensures RolledAll(ds, t, k)[j] == Standing(t)[j] <==> k >= Calls(ds[j], Unpack(t)[j])
    {
      DigitSettles(ds[j], Unpack(t)[j], k);
    }
  }
}
