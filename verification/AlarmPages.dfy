/** The settings pages over whole visits: what is saved, as a function of what was there on entering. */
module AlarmPages {
  import opened CInts
  import opened Solari
  import opened Alarm
  import opened AlarmRuns
  import opened Wrappers

  import Grid

  /** The columns of a page whose arrows reach a field. */
  datatype Pick = Only(col: nat) | AllBut(col: nat)

  predicate Picks(p: Pick, x: nat) {
    match p
    case Only(col) => x == col
    case AllBut(col) => x != col
  }

  /** The arrow touches that reach a field: true for up. */
  function Arrows(inputs: seq<Input>, n: nat, p: Pick): seq<bool>
    requires n <= |inputs|
  {
    if n == 0 then [] else Arrows(inputs, n - 1, p) + Arrow(inputs[n - 1], p)
  }

  function Arrow(i: Input, p: Pick): seq<bool> {
    match i.touch
    case None => []
    case Some(c) => if Picks(p, c.x) && (c.y == 0 || c.y == 2) then [c.y == 0] else []
  }

  /** No touch of the centre bar. */
  predicate NoBar(inputs: seq<Input>, n: nat)
    requires n <= |inputs|
  {
    forall k :: 0 <= k < n ==> inputs[k].touch.Some? ==> inputs[k].touch.value.y != 1
  }

  /** No touch of anything but arrows. */
  predicate OnlyArrows(inputs: seq<Input>, n: nat)
    requires n <= |inputs|
  {
    forall k :: 0 <= k < n ==> inputs[k].touch.Some? ==> inputs[k].touch.value.y == 0 || inputs[k].touch.value.y == 2
  }

  /** What the arrow touches make of a time: each field runs through its own cycle. */
  function Edited(t: Time, inputs: seq<Input>, n: nat, minutes: Field): Time
    requires n <= |inputs|
  {
    t.(hour := Touches(t.hour, HOURS, Arrows(inputs, n, Only(0))),
       min := Touches(t.min, minutes, Arrows(inputs, n, AllBut(0))))
  }

  function EditedDate(d: Date, inputs: seq<Input>, n: nat): Date
    requires n <= |inputs|
  {
    Date(Touches(d.wday, WEEKDAYS, Arrows(inputs, n, Only(0))),
         Touches(d.mday, DAYS, Arrows(inputs, n, Only(1))),
         Touches(d.mon, MONTHS, Arrows(inputs, n, Only(2))),
         Touches(d.year, YEARS, Arrows(inputs, n, Only(3))))
  }

  lemma TouchesAppend(b: byte, f: Field, ups: seq<bool>, up: bool)
    ensures Touches(b, f, ups + [up]) == Touch(Touches(b, f, ups), f, up)
    ensures Touches(b, f, ups + []) == Touches(b, f, ups)
  {
    assert (ups + [up])[..|ups|] == ups;
    assert ups + [] == ups;
  }

  lemma FieldStep(b: byte, f: Field, inputs: seq<Input>, n: nat, p: Pick)
    requires n < |inputs|
    ensures Touches(b, f, Arrows(inputs, n + 1, p))
         == (if Arrow(inputs[n], p) == [] then Touches(b, f, Arrows(inputs, n, p))
             else Touch(Touches(b, f, Arrows(inputs, n, p)), f, inputs[n].touch.value.y == 0))
  {
    hide Touch, Touches;
    if inputs[n].touch.Some? {
      TouchesAppend(b, f, Arrows(inputs, n, p), inputs[n].touch.value.y == 0);
    } else {
      TouchesAppend(b, f, Arrows(inputs, n, p), true);
    }
  }

  lemma EditedStep(t: Time, inputs: seq<Input>, n: nat, minutes: Field)
    requires n < |inputs|
    ensures Edited(t, inputs, n + 1, minutes)
         == match inputs[n].touch
            case None => Edited(t, inputs, n, minutes)
            case Some(c) => if c.y == 0 || c.y == 2 then EditTime(Edited(t, inputs, n, minutes), c, minutes)
                            else Edited(t, inputs, n, minutes)
  {
    hide Touch, Touches, Arrows;
    FieldStep(t.hour, HOURS, inputs, n, Only(0));
    FieldStep(t.min, minutes, inputs, n, AllBut(0));
  }

  lemma EditedDateStep(d: Date, inputs: seq<Input>, n: nat)
    requires n < |inputs|
    ensures EditedDate(d, inputs, n + 1)
         == match inputs[n].touch
            case None => EditedDate(d, inputs, n)
            case Some(c) => if c.y == 0 || c.y == 2 then EditDate(EditedDate(d, inputs, n), c)
                            else EditedDate(d, inputs, n)
  {
    hide Touch, Touches, Arrows;
    FieldStep(d.wday, WEEKDAYS, inputs, n, Only(0));
    FieldStep(d.mday, DAYS, inputs, n, Only(1));
    FieldStep(d.mon, MONTHS, inputs, n, Only(2));
    FieldStep(d.year, YEARS, inputs, n, Only(3));
  }

  lemma NothingEdited(t: Time, d: Date, inputs: seq<Input>, minutes: Field)
    ensures Edited(t, inputs, 0, minutes) == t && EditedDate(d, inputs, 0) == d
  {
  }

  lemma {:induction false} AlarmPageEdits(a: App, inputs: seq<Input>, n: nat)
    requires a.mode == AlarmSet && a.entered && n <= |inputs| && NoBar(inputs, n)
    ensures StateAt(a, inputs, n) == a.(edit := Edited(a.edit, inputs, n, TENS_OF_MINUTES))
  {
    hide Touch, Edited, EditTime;
    NothingEdited(a.edit, a.date, inputs, TENS_OF_MINUTES);
    if n > 0 {
      AlarmPageEdits(a, inputs, n - 1);
      EditedStep(a.edit, inputs, n - 1, TENS_OF_MINUTES);
    }
  }

  lemma {:induction false} ClockPageEdits(a: App, inputs: seq<Input>, n: nat)
    requires a.mode == ClockSet && a.entered && n <= |inputs| && OnlyArrows(inputs, n)
    ensures StateAt(a, inputs, n) == a.(edit := Edited(a.edit, inputs, n, MINUTES))
  {
    hide Touch, Edited, EditTime;
    NothingEdited(a.edit, a.date, inputs, MINUTES);
    if n > 0 {
      ClockPageEdits(a, inputs, n - 1);
      EditedStep(a.edit, inputs, n - 1, MINUTES);
    }
  }

  lemma {:induction false} DatePageEdits(a: App, inputs: seq<Input>, n: nat)
    requires a.mode == DateSet && a.entered && n <= |inputs| && NoBar(inputs, n)
    ensures StateAt(a, inputs, n) == a.(date := EditedDate(a.date, inputs, n))
  {
    hide Touch, EditedDate, EditDate;
    NothingEdited(a.edit, a.date, inputs, MINUTES);
    if n > 0 {
      DatePageEdits(a, inputs, n - 1);
      EditedDateStep(a.date, inputs, n - 1);
    }
  }

  // ---------- a field over a visit ----------

  /** The value a field shows the given number of places on from b. */
  ghost function Turned(f: Field, b: byte, net: int): byte
    requires Proper(f)
  {
    ToBcd(f.base + f.step * (((ToDec(b) - f.base) / f.step + net) % Size(f)))
  }

  lemma FieldTurns(f: Field, b: byte, ups: seq<bool>)
    requires Proper(f) && OnGrid(f, b)
    ensures Touches(b, f, ups) == Turned(f, b, Net(ups))
  {
    hide Touches, Net, ToBcd, ToDec, IsBcd, OnGrid, Notch, Size, Turned, Proper;
    var i := NotchOf(f, b);
    FieldIsCyclic(f, i, ups);
    TurnedFrom(f, i, Net(ups));
  }

  lemma TurnedFrom(f: Field, i: nat, net: int)
    requires Proper(f) && i < Size(f)
    ensures Turned(f, Notch(f, i), net) == Notch(f, (i + net) % Size(f))
  {
    hide ToBcd, ToDec, IsBcd, Notch, Size;
    assert f.step * i == i * f.step;
    ModUnique(f.step * i, f.step, i, 0);
    NotchIs(f, (i + net) % Size(f));
  }

  /** The places written out: hours, minutes, tens of minutes ... */
  lemma TurnedTime(b: byte, net: int)
    ensures Proper(HOURS) && Turned(HOURS, b, net) == ToBcd((ToDec(b) + net) % 24)
    ensures Proper(MINUTES) && Turned(MINUTES, b, net) == ToBcd((ToDec(b) + net) % 60)
    ensures Proper(TENS_OF_MINUTES) && Turned(TENS_OF_MINUTES, b, net) == ToBcd(10 * ((ToDec(b) / 10 + net) % 6))
  {
    hide ToBcd, ToDec;
  }

  /** ... and the fields of a date. */
  lemma TurnedDate(b: byte, net: int)
    ensures Proper(WEEKDAYS) && Turned(WEEKDAYS, b, net) == ToBcd((ToDec(b) + net) % 7)
    ensures Proper(DAYS) && Turned(DAYS, b, net) == ToBcd(1 + (ToDec(b) - 1 + net) % 31)
    ensures Proper(MONTHS) && Turned(MONTHS, b, net) == ToBcd(1 + (ToDec(b) - 1 + net) % 12)
    ensures Proper(YEARS) && Turned(YEARS, b, net) == ToBcd((ToDec(b) + net) % 51)
  {
    hide ToBcd, ToDec;
  }

  lemma EditedTurns(t: Time, inputs: seq<Input>, n: nat, minutes: Field)
    requires n <= |inputs| && Proper(HOURS) && Proper(minutes) && OnGrid(HOURS, t.hour) && OnGrid(minutes, t.min)
    ensures var e := Edited(t, inputs, n, minutes);
            && e.hour == Turned(HOURS, t.hour, Net(Arrows(inputs, n, Only(0))))
            && e.min == Turned(minutes, t.min, Net(Arrows(inputs, n, AllBut(0))))
  {
    hide Touches, Net, Arrows, Turned, OnGrid, Proper;
    FieldTurns(HOURS, t.hour, Arrows(inputs, n, Only(0)));
    FieldTurns(minutes, t.min, Arrows(inputs, n, AllBut(0)));
  }

  lemma EditedDateTurns(d: Date, inputs: seq<Input>, n: nat)
    requires n <= |inputs|
    ensures var e := EditedDate(d, inputs, n);
            && (OnGrid(WEEKDAYS, d.wday) ==> e.wday == ToBcd((ToDec(d.wday) + Net(Arrows(inputs, n, Only(0)))) % 7))
            && (OnGrid(DAYS, d.mday) ==> e.mday == ToBcd(1 + (ToDec(d.mday) - 1 + Net(Arrows(inputs, n, Only(1)))) % 31))
            && (OnGrid(MONTHS, d.mon) ==> e.mon == ToBcd(1 + (ToDec(d.mon) - 1 + Net(Arrows(inputs, n, Only(2)))) % 12))
            && (OnGrid(YEARS, d.year) ==> e.year == ToBcd((ToDec(d.year) + Net(Arrows(inputs, n, Only(3)))) % 51))
  {
    hide Touches, Net, Arrows, Turned, OnGrid, ToBcd, ToDec;
    TurnedDate(d.wday, Net(Arrows(inputs, n, Only(0))));
    TurnedDate(d.mday, Net(Arrows(inputs, n, Only(1))));
    TurnedDate(d.mon, Net(Arrows(inputs, n, Only(2))));
    TurnedDate(d.year, Net(Arrows(inputs, n, Only(3))));
    if OnGrid(WEEKDAYS, d.wday) {
      FieldTurns(WEEKDAYS, d.wday, Arrows(inputs, n, Only(0)));
    }
    if OnGrid(DAYS, d.mday) {
      FieldTurns(DAYS, d.mday, Arrows(inputs, n, Only(1)));
    }
    if OnGrid(MONTHS, d.mon) {
      FieldTurns(MONTHS, d.mon, Arrows(inputs, n, Only(2)));
    }
    if OnGrid(YEARS, d.year) {
      FieldTurns(YEARS, d.year, Arrows(inputs, n, Only(3)));
    }
  }

  lemma TimeIsOnGrid(t: Time)
    requires ValidTime(t)
    ensures Proper(HOURS) && Proper(MINUTES) && OnGrid(HOURS, t.hour) && OnGrid(MINUTES, t.min)
  {
    hide ToDec, IsBcd;
  }

  // ---------- whole visits ----------

  lemma AlarmPageVisit(a: App, inputs: seq<Input>, n: nat, c: Code)
    requires a.mode == AlarmSet && !a.entered && n + 1 < |inputs| && NoBar(inputs[1..], n)
    requires inputs[n + 1].touch == Some(c) && c.y == 1
    ensures var e := Edited(a.alarm, inputs[1..], n, TENS_OF_MINUTES);
            StateAt(a, inputs, n + 2) == a.(mode := ClockFace, edit := e, alarm := if c.option then e else a.alarm,
                                            bell := if c.option then On else a.bell)
  {
    hide Edited, EditTime;
    StateShift(a, inputs, n);
    AlarmPageEdits(Step(a, inputs[0]), inputs[1..], n);
  }

  lemma DatePageVisit(a: App, inputs: seq<Input>, n: nat, c: Code)
    requires a.mode == DateSet && !a.entered && n + 1 < |inputs| && NoBar(inputs[1..], n)
    requires inputs[n + 1].touch == Some(c) && c.y == 1
    ensures var e := EditedDate(inputs[0].date, inputs[1..], n);
            StateAt(a, inputs, n + 2)
            == a.(mode := ClockFace, date := e, calendar := if c.option then Some(e) else a.calendar)
  {
    hide EditedDate, EditDate;
    StateShift(a, inputs, n);
    DatePageEdits(Step(a, inputs[0]), inputs[1..], n);
  }

  /** Main theorem: the alarm page is two cyclic counters.  Entered with any alarm time, after any
      arrow touches, a long press of the bar saves the hour and the tens of minutes that many places
      round from the old ones and turns the alarm on; a short press leaves alarm and bell alone. */
  lemma AlarmPageSaves(a: App, inputs: seq<Input>, n: nat, c: Code)
    requires a.mode == AlarmSet && !a.entered && n + 1 < |inputs| && NoBar(inputs[1..], n)
    requires inputs[n + 1].touch == Some(c) && c.y == 1
    ensures var r := StateAt(a, inputs, n + 2);
            var e := Edited(a.alarm, inputs[1..], n, TENS_OF_MINUTES);
            && r == a.(mode := ClockFace, edit := e, alarm := if c.option then e else a.alarm,
                       bell := if c.option then On else a.bell)
            && (GridTime(a.alarm) ==>
                  var hours, tens := Net(Arrows(inputs[1..], n, Only(0))), Net(Arrows(inputs[1..], n, AllBut(0)));
                  && e.hour == ToBcd((ToDec(a.alarm.hour) + hours) % 24)
                  && e.min == ToBcd(10 * ((ToDec(a.alarm.min) / 10 + tens) % 6)))
  {
    hide Net, Arrows, ToBcd, ToDec, OnGrid, Edited, Turned, Proper, StateAt, NoBar;
    var rest := inputs[1..];
    AlarmPageVisit(a, inputs, n, c);
    if GridTime(a.alarm) {
      FieldsProper();
      EditedTurns(a.alarm, rest, n, TENS_OF_MINUTES);
      TurnedTime(a.alarm.hour, Net(Arrows(rest, n, Only(0))));
      TurnedTime(a.alarm.min, Net(Arrows(rest, n, AllBut(0))));
    }
  }

  /** Main theorem: the clock page edits a copy of the time read on entering it, hour and minute each
      around its own cycle, and any touch that is not an arrow ends it; a long one writes the edited
      time to the clock.  The alarm is not touched. */
  lemma ClockPageSaves(a: App, inputs: seq<Input>, n: nat, c: Code)
    requires a.mode == ClockSet && !a.entered && n + 1 < |inputs| && OnlyArrows(inputs[1..], n)
    requires inputs[n + 1].touch == Some(c) && c.y != 0 && c.y != 2
    ensures var r := StateAt(a, inputs, n + 2);
            var now := inputs[0].now;
            var e := Edited(now, inputs[1..], n, MINUTES);
            && r == a.(mode := ClockFace, edit := e, clock := if c.option then Some(e) else a.clock)
            && (ValidTime(now) ==>
                  && e.hour == ToBcd((ToDec(now.hour) + Net(Arrows(inputs[1..], n, Only(0)))) % 24)
                  && e.min == ToBcd((ToDec(now.min) + Net(Arrows(inputs[1..], n, AllBut(0)))) % 60))
  {
    hide Net, Arrows, ToBcd, ToDec, OnGrid, Edited, Turned, Proper, ValidTime;
    var rest, now := inputs[1..], inputs[0].now;
    StateShift(a, inputs, n);
    ClockPageEdits(Step(a, inputs[0]), rest, n);
    if ValidTime(now) {
      TimeIsOnGrid(now);
      EditedTurns(now, rest, n, MINUTES);
      TurnedTime(now.hour, Net(Arrows(rest, n, Only(0))));
      TurnedTime(now.min, Net(Arrows(rest, n, AllBut(0))));
    }
  }

  /** Main theorem: the date page edits a copy of the date read on entering it, its four fields each
      around its own cycle; a long press of the bar writes it to the calendar.  The alarm is not
      touched. */
  lemma DatePageSaves(a: App, inputs: seq<Input>, n: nat, c: Code)
    requires a.mode == DateSet && !a.entered && n + 1 < |inputs| && NoBar(inputs[1..], n)
    requires inputs[n + 1].touch == Some(c) && c.y == 1
    ensures var r := StateAt(a, inputs, n + 2);
            var d := inputs[0].date;
            var e := EditedDate(d, inputs[1..], n);
            && r == a.(mode := ClockFace, date := e, calendar := if c.option then Some(e) else a.calendar)
            && (OnGrid(WEEKDAYS, d.wday) ==>
                  e.wday == ToBcd((ToDec(d.wday) + Net(Arrows(inputs[1..], n, Only(0)))) % 7))
            && (OnGrid(DAYS, d.mday) ==>
                  e.mday == ToBcd(1 + (ToDec(d.mday) - 1 + Net(Arrows(inputs[1..], n, Only(1)))) % 31))
            && (OnGrid(MONTHS, d.mon) ==>
                  e.mon == ToBcd(1 + (ToDec(d.mon) - 1 + Net(Arrows(inputs[1..], n, Only(2)))) % 12))
            && (OnGrid(YEARS, d.year) ==>
                  e.year == ToBcd((ToDec(d.year) + Net(Arrows(inputs[1..], n, Only(3)))) % 51))
  {
    hide Net, Arrows, ToBcd, ToDec, EditedDate, OnGrid, StateAt, NoBar;
    DatePageVisit(a, inputs, n, c);
    EditedDateTurns(inputs[0].date, inputs[1..], n);
  }

  /** A run is its first pass followed by the rest. */
  lemma {:induction false} StateShift(a: App, inputs: seq<Input>, n: nat)
    requires n < |inputs|
    ensures StateAt(a, inputs, n + 1) == StateAt(Step(a, inputs[0]), inputs[1..], n)
  {
    hide Step;
    if n > 0 {
      StateShift(a, inputs, n - 1);
    }
  }

  // ---------- dates the page cannot edit safely ----------

  /** A date whose fields are all on their grids: in particular no year after 2050. */
  ghost predicate ValidDate(d: Date) {
    OnGrid(WEEKDAYS, d.wday) && OnGrid(DAYS, d.mday) && OnGrid(MONTHS, d.mon) && OnGrid(YEARS, d.year)
  }

  predicate Packed(d: Date) {
    IsBcd(d.wday) && IsBcd(d.mday) && IsBcd(d.mon) && IsBcd(d.year)
  }

  /** A visit of the date page: entered with the given date, arrows, and a long press of the bar. */
  ghost predicate Visit(inputs: seq<Input>, n: nat, d: Date) {
    && |inputs| == n + 2 && NoBar(inputs[1..], n) && inputs[0].date == d
    && inputs[n + 1].touch.Some? && inputs[n + 1].touch.value.y == 1 && inputs[n + 1].touch.value.option
  }

  /** The visit ends with packed decimals written to the calendar. */
  ghost predicate WritesPacked(a: App, inputs: seq<Input>, n: nat) {
    && n + 2 <= |inputs|
    && StateAt(a, inputs, n + 2).calendar.Some? && Packed(StateAt(a, inputs, n + 2).calendar.value)
  }

  lemma WrittenIsEdited(a: App, inputs: seq<Input>, n: nat, d: Date)
    requires a.mode == DateSet && !a.entered && Visit(inputs, n, d)
    ensures |inputs| == n + 2
    ensures WritesPacked(a, inputs, n) <==> Packed(EditedDate(d, inputs[1..], n))
  {
    hide EditedDate, StateAt, NoBar, Packed;
    DatePageVisit(a, inputs, n, inputs[n + 1].touch.value);
  }

  /** A visit that touches the arrows of one column in the given order. */
  function ArrowsOf(ups: seq<bool>, col: nat): (inputs: seq<Input>)
    ensures |inputs| == |ups|
    ensures forall k :: 0 <= k < |ups| ==> inputs[k].touch == Some(Grid.Code(col, if ups[k] then 0 else 2, false))
  {
    seq(|ups|, k requires 0 <= k < |ups| =>
      Input(Some(Grid.Code(col, if ups[k] then 0 else 2, false)), Time(0, 0, 0), Time(0, 0, 0), Date(0, 0, 0, 0)))
  }

  lemma {:induction false} ArrowsGiven(inputs: seq<Input>, ups: seq<bool>, col: nat, n: nat)
    requires n <= |ups| <= |inputs|
    requires forall k :: 0 <= k < |ups| ==> inputs[k].touch == Some(Grid.Code(col, if ups[k] then 0 else 2, false))
    ensures Arrows(inputs, n, Only(col)) == ups[..n]
  {
    if n > 0 {
      ArrowsGiven(inputs, ups, col, n - 1);
      assert ups[..n] == ups[..n - 1] + [ups[n - 1]];
    }
  }

  /** Every order of arrow touches of one column is made by some visit. */
  lemma VisitWith(ups: seq<bool>, col: nat, d: Date) returns (inputs: seq<Input>)
    ensures Visit(inputs, |ups|, d) && Arrows(inputs[1..], |ups|, Only(col)) == ups
  {
    var t, n := Time(0, 0, 0), |ups|;
    var arrows := ArrowsOf(ups, col);
    var bar := Input(Some(Grid.Code(0, 1, true)), t, t, d);
    inputs := [Input(None, t, t, d)] + arrows + [bar];
    assert inputs[1..] == arrows + [bar];
    ArrowsGiven(inputs[1..], ups, col, n);
    assert ups[..n] == ups;
  }

  /** Main theorem: whatever is touched, the date page writes packed decimals to the calendar if and
      only if the date it read on entering has every field on its grid. */
  lemma WritesPackedIffValidDate(a: App, d: Date)
    requires a.mode == DateSet && !a.entered
    ensures ValidDate(d) <==>
            forall inputs: seq<Input>, n: nat :: Visit(inputs, n, d) ==>
              WritesPacked(a, inputs, n)
  {
    hide OnGrid, Visit, WritesPacked, EditedDate, Packed;
    if ValidDate(d) {
      forall inputs: seq<Input>, n: nat | Visit(inputs, n, d) ensures WritesPacked(a, inputs, n) {
        WrittenIsEdited(a, inputs, n, d);
        EditedStaysPacked(d, inputs[1..], n);
      }
    } else if !OnGrid(WEEKDAYS, d.wday) {
      SpoiltBy(a, d, WEEKDAYS, d.wday, 0);
    } else if !OnGrid(DAYS, d.mday) {
      SpoiltBy(a, d, DAYS, d.mday, 1);
    } else if !OnGrid(MONTHS, d.mon) {
      SpoiltBy(a, d, MONTHS, d.mon, 2);
    } else {
      SpoiltBy(a, d, YEARS, d.year, 3);
    }
  }

  lemma EditedStaysPacked(d: Date, inputs: seq<Input>, n: nat)
    requires n <= |inputs| && ValidDate(d)
    ensures Packed(EditedDate(d, inputs, n))
  {
    hide OnGrid, Touches, IsBcd, ToDec, Arrows, Proper;
    FieldsProper();
    StaysInRange(WEEKDAYS, d.wday, Arrows(inputs, n, Only(0)));
    StaysInRange(DAYS, d.mday, Arrows(inputs, n, Only(1)));
    StaysInRange(MONTHS, d.mon, Arrows(inputs, n, Only(2)));
    StaysInRange(YEARS, d.year, Arrows(inputs, n, Only(3)));
  }

  /** A field off its grid can be spoilt by touches of its own column. */
  lemma SpoiltBy(a: App, d: Date, f: Field, b: byte, col: nat)
    requires a.mode == DateSet && !a.entered && Proper(f) && !OnGrid(f, b)
    requires (f, b, col) in [(WEEKDAYS, d.wday, 0), (DAYS, d.mday, 1), (MONTHS, d.mon, 2), (YEARS, d.year, 3)]
    ensures exists inputs: seq<Input>, n: nat ::
              Visit(inputs, n, d) && !WritesPacked(a, inputs, n)
  {
    hide OnGrid, Touches, IsBcd, Visit, WritesPacked, Arrows, Proper;
    PackedForeverIffOnGrid(f, b);
    var ups: seq<bool> :| !IsBcd(Touches(b, f, ups));
    var inputs := VisitWith(ups, col, d);
    WrittenIsEdited(a, inputs, |ups|, d);
    assert !Packed(EditedDate(d, inputs[1..], |ups|));
  }

  /** It happens: a calendar that says 2099, one up touch of the year and a long press of the bar write
      a year that is not packed decimal, on a run from power-up. */
  lemma YearWrittenOutOfRange(a: App) returns (inputs: seq<Input>)
    requires Initial(a)
    ensures |inputs| == 5 && inputs[2].date == Date(0x04, 0x31, 0x12, 0x99)
    ensures StateAt(a, inputs, 5).calendar == Some(Date(0x04, 0x31, 0x12, 0xA0)) && !IsBcd(0xA0)
  {
    var t, d := Time(0x06, 0x29, 0), Date(0x04, 0x31, 0x12, 0x99);
    var face, hold := Input(None, t, t, d), Input(Some(Grid.Code(0, 0, true)), t, t, d);
    var up, bar := Input(Some(Grid.Code(3, 0, false)), t, t, d), Input(Some(Grid.Code(0, 1, true)), t, t, d);
    inputs := [face, hold, face, up, bar];
    NoPass(a, inputs);
    StateNext(a, inputs, 0);
    StateNext(a, inputs, 1);
    StateNext(a, inputs, 2);
    StateNext(a, inputs, 3);
    StateNext(a, inputs, 4);
    hide StateAt;
    YearUp();
  }

  lemma NoPass(a: App, inputs: seq<Input>)
    ensures StateAt(a, inputs, 0) == a
  {
  }

  lemma YearUp()
    ensures IncBcd(0x99, YEARS) == 0xA0 && !IsBcd(0xA0)
  {
    assert ToDec(0x99) == 99;
  }
}
