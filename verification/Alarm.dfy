/** The alarm clock of 6-Alarm/Alarm.c: the clock face with its five-state alarm, the three
    settings pages, and the main loop that switches between them.  Clock readings and touches are
    inputs; drawing, sound and the real-time clock itself are outside. */
module Alarm {
  import opened CInts
  import opened Solari
  import opened Wrappers

  import Grid

  type Code = Grid.Code

  datatype Mode = ClockFace | ClockSet | AlarmSet | DateSet

  datatype Bell = Off | On | Ring | Snooze | Ack

  datatype Date = Date(wday: byte, mday: byte, mon: byte, year: byte)

  const SNOOZE_TIME: int := 8

  const HOURS: Field := Field(1, 0, 23)
  const MINUTES: Field := Field(1, 0, 59)
  const TENS_OF_MINUTES: Field := Field(10, 0, 50)
  const WEEKDAYS: Field := Field(1, 0, 6)
  const DAYS: Field := Field(1, 1, 31)
  const MONTHS: Field := Field(1, 1, 12)
  const YEARS: Field := Field(1, 0, 50)

  /** What one pass of whatever loop is running can read: a touch, the clock when the digits are
      animated, the clock again when the seconds have moved on, and the date. */
  datatype Input = Input(touch: Option<Code>, next: Time, now: Time, date: Date)

  /** The globals, the locals of the running task, and what was last written to the backlight, the
      clock and the calendar.  `entered` is false while a task still has its first lines to run. */
  datatype App = App(mode: Mode, entered: bool, bell: Bell, snooze: int, night: bool, bright: int,
                     alarm: Time, time: Time, edit: Time, date: Date,
                     clock: Option<Time>, calendar: Option<Date>)

  // ---------- the clock face ----------

  function Return(a: App, mode: Mode): App {
    a.(mode := mode, entered := false)
  }

  /** A touch of the bell icon. */
  function Toggled(bell: Bell): Bell {
    match bell
    case On => Off
    case Off => On
    case Ring => Snooze
    case Snooze => Ack
    case Ack => Ack
  }

  function FaceTouch(a: App, c: Code): App {
    if a.bell == Ring then
      a.(bell := Snooze, bright := if a.night then 2 else a.bright)
    else if c.option then
      Return(a, if c.y > 0 then ClockSet else DateSet)
    else if c.y > 0 then
      Return(a, AlarmSet)
    else if c.x == 0 then
      a.(bell := Toggled(a.bell))
    else if c.x == 3 then
      a.(night := !a.night, bright := if a.night then 100 else 2)
    else a
  }

  /** The time the alarm looks at is read again only when the seconds have changed. */
  function Sample(a: App, i: Input): App {
    if a.time.sec != i.next.sec then a.(time := i.now) else a
  }

  /** The minute a snoozing alarm waits for, in the machine's integers. */
  function SnoozeTarget(a: App): int {
    CMod(Int16(ToDec(a.alarm.min) + a.snooze), 60)
  }

  predicate Triggers(a: App) {
    match a.bell
    case On => a.time.hour == a.alarm.hour && a.time.min == a.alarm.min
    case Snooze => a.time.hour == a.alarm.hour && ToDec(a.time.min) == SnoozeTarget(a)
    case _ => false
  }

  function Check(a: App): App {
    if Triggers(a) then
      a.(bell := Ring, bright := 100,
         snooze := if a.bell == On then SNOOZE_TIME else Int16(a.snooze + SNOOZE_TIME))
    else if a.bell == Ack && a.time.min != a.alarm.min then
      a.(bell := On)
    else a
  }

  // ---------- the settings pages ----------

  /** A touch of the hour or minute arrows. */
  function EditTime(t: Time, c: Code, minutes: Field): Time {
    if c.x == 0 then t.(hour := Touch(t.hour, HOURS, c.y == 0))
    else t.(min := Touch(t.min, minutes, c.y == 0))
  }

  function ClockTouch(a: App, c: Code): App {
    if c.y == 0 || c.y == 2 then a.(edit := EditTime(a.edit, c, MINUTES))
    else Return(if c.option then a.(clock := Some(a.edit)) else a, ClockFace)
  }

  function AlarmTouch(a: App, c: Code): App {
    if c.y == 0 || c.y == 2 then a.(edit := EditTime(a.edit, c, TENS_OF_MINUTES))
    else if c.y == 1 then
      Return(if c.option then a.(alarm := a.edit, bell := On) else a, ClockFace)
    else a
  }

  function EditDate(d: Date, c: Code): Date {
    var up := c.y == 0;
    match c.x
    case 0 => d.(wday := Touch(d.wday, WEEKDAYS, up))
    case 1 => d.(mday := Touch(d.mday, DAYS, up))
    case 2 => d.(mon := Touch(d.mon, MONTHS, up))
    case 3 => d.(year := Touch(d.year, YEARS, up))
    case _ => d
  }

  function DateTouch(a: App, c: Code): App {
    if c.y == 0 || c.y == 2 then a.(date := EditDate(a.date, c))
    else if c.y == 1 then
      Return(if c.option then a.(calendar := Some(a.date)) else a, ClockFace)
    else a
  }

  // ---------- one pass ----------

  /** What a page does first. */
  function Prologue(a: App, i: Input): App {
    match a.mode
    case ClockFace => a.(entered := true, time := i.now)
    case ClockSet => a.(entered := true, edit := i.now)
    case AlarmSet => a.(entered := true, edit := a.alarm)
    case DateSet => a.(entered := true, date := i.date)
  }

  function Touched(a: App, i: Input): App {
    match i.touch
    case None => a
    case Some(c) =>
      match a.mode
      case ClockFace => FaceTouch(a, c)
      case ClockSet => ClockTouch(a, c)
      case AlarmSet => AlarmTouch(a, c)
      case DateSet => DateTouch(a, c)
  }

  /** What the alarm looks at in this pass: on the face, the state after touch and sampling. */
  function Sampled(a: App, i: Input): App {
    if !a.entered then Prologue(a, i)
    else
      var t := Touched(a, i);
      if a.mode == ClockFace && t.entered then Sample(t, i) else t
  }

  /** The alarm is looked at only by the clock face, in a pass that no touch has ended. */
  predicate Looks(a: App, i: Input) {
    a.mode == ClockFace && a.entered && Touched(a, i).entered
  }

  function Step(a: App, i: Input): App {
    if Looks(a, i) then Check(Sampled(a, i)) else Sampled(a, i)
  }

  /** The state after the first n passes. */
  function StateAt(a: App, inputs: seq<Input>, n: nat): App
    requires n <= |inputs|
  {
    if n == 0 then a else Step(StateAt(a, inputs, n - 1), inputs[n - 1])
  }

  /** Power-up: the face comes first, the alarm is on and set to half past six. */
  predicate Initial(a: App) {
    && a.mode == ClockFace && !a.entered
    && a.bell == On && a.snooze == 0 && !a.night && a.bright == 100
    && a.alarm.hour == 0x06 && a.alarm.min == 0x30
  }

  // ---------- the program ----------

  /** The program fed with a finite stretch of inputs, read one pass at a time. */
  class AlarmClock {
    const inputs: seq<Input>
    ghost const start: App
    var at: nat
    var mode: Mode
    var entered: bool
    var bell: Bell
    var snooze: int
    var night: bool
    var bright: int
    var alarm: Time
    var time: Time
    var edit: Time
    var date: Date
    var clock: Option<Time>
    var calendar: Option<Date>

    ghost function State(): App
      reads this
    {
      App(mode, entered, bell, snooze, night, bright, alarm, time, edit, date, clock, calendar)
    }

    ghost predicate Valid()
      reads this
    {
      at <= |inputs| && State() == StateAt(start, inputs, at)
    }

    constructor (inputs: seq<Input>)
      ensures Valid() && at == 0 && this.inputs == inputs
      ensures Initial(State()) && start == State()
    {
      this.inputs := inputs;
      at, mode, entered := 0, ClockFace, false;
      bell, snooze, night, bright := On, 0, false, 100;
      var zero := Time(0, 0, 0);
      var six := Time(0x06, 0x30, 0);
      var day := Date(0, 0, 0, 0);
      alarm, time, edit, date := six, zero, zero, day;
      clock, calendar := None, None;
      start := App(ClockFace, false, On, 0, false, 100, six, zero, zero, day, None, None);
    }

    /** Takes the next input. */
    method Next() returns (i: Input)
      requires at < |inputs|
      modifies this`at
      ensures at == old(at) + 1 && i == inputs[old(at)]
    {
      i := inputs[at];
      at := at + 1;
    }

    /** A touch of the clock face; the outcome says whether it leaves the page. */
    method TouchFace(c: Code) returns (leave: bool)
      requires mode == ClockFace && entered
      modifies this`mode, this`entered, this`bell, this`night, this`bright
      ensures State() == FaceTouch(old(State()), c) && leave == !entered
    {
      leave := false;
      if bell == Ring {
        bell := Snooze;
        if night {
          bright := 2;
        }
      } else if c.option {
        if c.y > 0 {
          mode := ClockSet;
        } else {
          mode := DateSet;
        }
        entered := false;
        leave := true;
      } else {
        if c.y > 0 {
          mode := AlarmSet;
          entered := false;
          leave := true;
        } else {
          if c.x == 0 {
            bell := Toggled(bell);
          } else if c.x == 3 {
            if night {
              night := false;
              bright := 100;
            } else {
              night := true;
              bright := 2;
            }
          }
        }
      }
    }

    /** The switch at the end of the face loop. */
    method CheckAlarm()
      modifies this`bell, this`snooze, this`bright
      ensures State() == Check(old(State()))
    {
      match bell {
        case On =>
          if time.hour == alarm.hour {
            if time.min == alarm.min {
              bell := Ring;
              snooze := SNOOZE_TIME;
              bright := 100;
            }
          }
        case Snooze =>
          if time.hour == alarm.hour {
            if ToDec(time.min) == CMod(Int16(ToDec(alarm.min) + snooze), 60) {
              bell := Ring;
              snooze := Int16(snooze + SNOOZE_TIME);
              bright := 100;
            }
          }
        case Ack =>
          if time.min != alarm.min {
            bell := On;
          }
        case _ =>
      }
    }

    /** One pass of the face loop. */
    method FacePass() returns (leave: bool)
      requires Valid() && at < |inputs| && mode == ClockFace && entered
      modifies this`at, this`mode, this`entered, this`bell, this`night, this`bright, this`time, this`snooze
      ensures Valid() && at == old(at) + 1
      ensures leave == !entered && (entered ==> mode == ClockFace)
    {
      hide ClockTouch, AlarmTouch, DateTouch, Prologue, Check;
      ghost var was := State();
      var i := Next();
      leave := false;
      if i.touch.Some? {
        leave := TouchFace(i.touch.value);
        if leave {
          assert State() == Step(was, i);
          return;
        }
      }
      if time.sec != i.next.sec {
        time := i.now;
      }
      assert Looks(was, i) && State() == Sampled(was, i);
      CheckAlarm();
      assert State() == Step(was, i);
    }

    /** A touch of the page that sets the clock. */
    method ClockTouched(c: Code) returns (leave: bool)
      requires mode == ClockSet && entered
      modifies this`mode, this`entered, this`edit, this`clock
      ensures State() == ClockTouch(old(State()), c)
      ensures leave == !entered && (if leave then mode == ClockFace else mode == ClockSet)
    {
      leave := false;
      if c.y == 0 {
        if c.x == 0 {
          edit := edit.(hour := IncBcd(edit.hour, HOURS));
        } else {
          edit := edit.(min := IncBcd(edit.min, MINUTES));
        }
      } else if c.y == 2 {
        if c.x == 0 {
          edit := edit.(hour := DecBcd(edit.hour, HOURS));
        } else {
          edit := edit.(min := DecBcd(edit.min, MINUTES));
        }
      } else {
        if c.option {
          clock := Some(edit);
        }
        mode, entered := ClockFace, false;
        leave := true;
      }
    }

    /** A touch of the page that sets the alarm. */
    method AlarmTouched(c: Code) returns (leave: bool)
      requires mode == AlarmSet && entered
      modifies this`mode, this`entered, this`edit, this`alarm, this`bell
      ensures State() == AlarmTouch(old(State()), c)
      ensures leave == !entered && (if leave then mode == ClockFace else mode == AlarmSet)
    {
      leave := false;
      if c.y == 0 {
        if c.x == 0 {
          edit := edit.(hour := IncBcd(edit.hour, HOURS));
        } else {
          edit := edit.(min := IncBcd(edit.min, TENS_OF_MINUTES));
        }
      } else if c.y == 2 {
        if c.x == 0 {
          edit := edit.(hour := DecBcd(edit.hour, HOURS));
        } else {
          edit := edit.(min := DecBcd(edit.min, TENS_OF_MINUTES));
        }
      } else if c.y == 1 {
        if c.option {
          alarm := edit;
          bell := On;
        }
        mode, entered := ClockFace, false;
        leave := true;
      }
    }

    /** A touch of the page that sets the date. */
    method DateTouched(c: Code) returns (leave: bool)
      requires mode == DateSet && entered
      modifies this`mode, this`entered, this`date, this`calendar
      ensures State() == DateTouch(old(State()), c)
      ensures leave == !entered && (if leave then mode == ClockFace else mode == DateSet)
    {
      leave := false;
      if c.y == 0 {
        match c.x {
          case 0 => date := date.(wday := IncBcd(date.wday, WEEKDAYS));
          case 1 => date := date.(mday := IncBcd(date.mday, DAYS));
          case 2 => date := date.(mon := IncBcd(date.mon, MONTHS));
          case 3 => date := date.(year := IncBcd(date.year, YEARS));
          case _ =>
        }
      } else if c.y == 2 {
        match c.x {
          case 0 => date := date.(wday := DecBcd(date.wday, WEEKDAYS));
          case 1 => date := date.(mday := DecBcd(date.mday, DAYS));
          case 2 => date := date.(mon := DecBcd(date.mon, MONTHS));
          case 3 => date := date.(year := DecBcd(date.year, YEARS));
          case _ =>
        }
      } else if c.y == 1 {
        if c.option {
          calendar := Some(date);
        }
        mode, entered := ClockFace, false;
        leave := true;
      }
    }

    method ClockPass() returns (leave: bool)
      requires Valid() && at < |inputs| && mode == ClockSet && entered
      modifies this`at, this`mode, this`entered, this`edit, this`clock
      ensures Valid() && at == old(at) + 1
      ensures leave == !entered && (if leave then mode == ClockFace else mode == ClockSet)
    {
      hide AlarmTouch, DateTouch, FaceTouch, Prologue, Sample, Check;
      ghost var was := State();
      var i := Next();
      leave := false;
      if i.touch.Some? {
        leave := ClockTouched(i.touch.value);
      }
      assert State() == Step(was, i);
    }

    method AlarmPass() returns (leave: bool)
      requires Valid() && at < |inputs| && mode == AlarmSet && entered
      modifies this`at, this`mode, this`entered, this`edit, this`alarm, this`bell
      ensures Valid() && at == old(at) + 1
      ensures leave == !entered && (if leave then mode == ClockFace else mode == AlarmSet)
    {
      hide ClockTouch, DateTouch, FaceTouch, Prologue, Sample, Check;
      ghost var was := State();
      var i := Next();
      leave := false;
      if i.touch.Some? {
        leave := AlarmTouched(i.touch.value);
      }
      assert State() == Step(was, i);
    }

    method DatePass() returns (leave: bool)
      requires Valid() && at < |inputs| && mode == DateSet && entered
      modifies this`at, this`mode, this`entered, this`date, this`calendar
      ensures Valid() && at == old(at) + 1
      ensures leave == !entered && (if leave then mode == ClockFace else mode == DateSet)
    {
      hide ClockTouch, AlarmTouch, FaceTouch, Prologue, Sample, Check;
      ghost var was := State();
      var i := Next();
      leave := false;
      if i.touch.Some? {
        leave := DateTouched(i.touch.value);
      }
      assert State() == Step(was, i);
    }

    /** What the current page does first. */
    method Enter()
      requires Valid() && !entered && at < |inputs|
      modifies this`at, this`entered, this`time, this`edit, this`date
      ensures Valid() && at == old(at) + 1 && entered
    {
      hide ClockTouch, AlarmTouch, DateTouch, FaceTouch, Sample, Check;
      var i := Next();
      match mode {
        case ClockFace => time := i.now;
        case ClockSet => edit := i.now;
        case AlarmSet => edit := alarm;
        case DateSet => date := i.date;
      }
      entered := true;
    }

    method ClockFaceTask()
      requires Valid() && mode == ClockFace && !entered && at < |inputs|
      modifies this
      ensures Valid() && at > old(at)
      ensures at == |inputs| || !entered
    {
      Enter();
      while at < |inputs|
        invariant Valid() && at > old(at) && mode == ClockFace && entered
      {
        var leave := FacePass();
        if leave {
          return;
        }
      }
    }

    method ClockSetTask()
      requires Valid() && mode == ClockSet && !entered && at < |inputs|
      modifies this
      ensures Valid() && at > old(at)
      ensures at == |inputs| || (mode == ClockFace && !entered)
    {
      Enter();
      while at < |inputs|
        invariant Valid() && at > old(at) && mode == ClockSet && entered
      {
        var leave := ClockPass();
        if leave {
          return;
        }
      }
    }

    method AlarmSetTask()
      requires Valid() && mode == AlarmSet && !entered && at < |inputs|
      modifies this
      ensures Valid() && at > old(at)
      ensures at == |inputs| || (mode == ClockFace && !entered)
    {
      Enter();
      while at < |inputs|
        invariant Valid() && at > old(at) && mode == AlarmSet && entered
      {
        var leave := AlarmPass();
        if leave {
          return;
        }
      }
    }

    method DateSetTask()
      requires Valid() && mode == DateSet && !entered && at < |inputs|
      modifies this
      ensures Valid() && at > old(at)
      ensures at == |inputs| || (mode == ClockFace && !entered)
    {
      Enter();
      while at < |inputs|
        invariant Valid() && at > old(at) && mode == DateSet && entered
      {
        var leave := DatePass();
        if leave {
          return;
        }
      }
    }

    /** The main loop, until the inputs run out. */
    method MainLoop()
      requires Valid() && !entered
      modifies this
      ensures Valid() && State() == StateAt(start, inputs, |inputs|)
    {
      while at < |inputs|
        invariant Valid() && (at == |inputs| || !entered)
        decreases |inputs| - at
      {
        match mode {
          case ClockSet => ClockSetTask();
          case AlarmSet => AlarmSetTask();
          case DateSet => DateSetTask();
          case ClockFace => ClockFaceTask();
        }
      }
    }
  }
}
