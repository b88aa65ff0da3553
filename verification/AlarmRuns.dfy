/** What holds over every run of the alarm clock, whatever the clock reads and whatever is touched. */
module AlarmRuns {
  import opened CInts
  import opened Solari
  import opened Alarm
  import opened Wrappers

  import Grid

  // ---------- where and how it rings ----------

  /** Ringing happens only on the running clock face, and the backlight is dim exactly in a quiet
      night. */
  ghost predicate Orderly(a: App) {
    && (a.bell == Ring ==> a.mode == ClockFace && a.entered)
    && a.bright == (if a.bell == Ring || !a.night then 100 else 2)
  }

  lemma StepKeepsOrder(a: App, i: Input)
    requires Orderly(a)
    ensures Orderly(Step(a, i))
  {
  }

  /** Main theorem: in every reachable state the last brightness set is 2 if night mode is on and
      nothing rings, and 100 otherwise; and ringing is never carried into a settings page. */
  lemma {:induction false} BrightnessFollowsMode(a: App, inputs: seq<Input>, n: nat)
    requires Initial(a) && n <= |inputs|
    ensures Orderly(StateAt(a, inputs, n))
  {
    if n > 0 {
      BrightnessFollowsMode(a, inputs, n - 1);
      StepKeepsOrder(StateAt(a, inputs, n - 1), inputs[n - 1]);
    }
  }

  /** Ringing is left by a touch and by nothing else: no clock reading ends it, and any touch
      snoozes. */
  lemma OnlyTouchEndsRinging(a: App, i: Input)
    requires Orderly(a) && a.bell == Ring
    ensures i.touch == None <==> Touched(a, i).bell == Ring
    ensures i.touch == None ==> Step(a, i).bell == Ring
    ensures i.touch != None ==> Touched(a, i).bell == Snooze
  {
  }

  /** Every touch of the running face, and all it changes.  While it rings a touch anywhere snoozes.
      Otherwise a long one opens the page that sets the clock, or on the top row the date; a short one
      the page that sets the alarm, or on the top row changes the bell (first column) or night mode
      (last column). */
  lemma TouchOfTheFace(a: App, c: Code)
    requires a.mode == ClockFace && a.entered && Orderly(a)
    ensures var r := FaceTouch(a, c);
            if a.bell == Ring then r == a.(bell := Snooze, bright := if a.night then 2 else 100)
            else if c.y > 0 then r == a.(mode := if c.option then ClockSet else AlarmSet, entered := false)
            else if c.option then r == a.(mode := DateSet, entered := false)
            else if c.x == 0 then
              && r == a.(bell := r.bell)
              && (r.bell == Off <==> a.bell == On) && (r.bell == On <==> a.bell == Off)
              && (r.bell == Ack <==> a.bell == Snooze || a.bell == Ack)
            else if c.x == 3 then r == a.(night := !a.night, bright := if a.night then 100 else 2)
            else r == a
  {
  }

  /** The alarm and moon icons: a second touch undoes the first, unless the alarm is snoozing, which
      is acknowledged once and for all. */
  lemma IconsToggle(a: App, c: Code)
    requires a.mode == ClockFace && a.entered && Orderly(a) && a.bell != Ring
    requires !c.option && c.y == 0 && (c.x == 0 || c.x == 3)
    ensures FaceTouch(FaceTouch(a, c), c)
         == if c.x == 0 && (a.bell == Snooze || a.bell == Ack) then a.(bell := Ack) else a
  {
  }

  // ---------- no double ring ----------

  /** In this pass the alarm starts to ring. */
  predicate Rings(a: App, i: Input) {
    Looks(a, i) && Triggers(Sampled(a, i))
  }

  /** In this pass a new alarm time is saved. */
  predicate Commits(a: App, i: Input) {
    a.mode == AlarmSet && a.entered && i.touch.Some? && i.touch.value.y == 1 && i.touch.value.option
  }

  /** The alarm cannot ring as long as the minute stays m. */
  ghost predicate QuietAt(a: App, m: byte) {
    match a.bell
    case Ring => SnoozeTarget(a) != ToDec(m)
    case Snooze => SnoozeTarget(a) != ToDec(m)
    case Ack => true
    case On => m != a.alarm.min
    case Off => false
  }

  /** Eight minutes on is another minute of the hour, even when the counter wraps around. */
  lemma NextTargetDiffers(min: nat, snooze: int)
    requires min <= 255
    ensures CMod(Int16(min + snooze), 60) >= 0
            ==> CMod(Int16(min + Int16(snooze + 8)), 60) != CMod(Int16(min + snooze), 60)
  {
    var u := Int16(min + snooze);
    WrapTwice(min, snooze);
    assert Int16(min + Int16(snooze + 8)) == Int16(u + 8);
  }

  lemma WrapTwice(x: int, y: int)
    ensures Int16(x + Int16(y + 8)) == Int16(Int16(x + y) + 8)
  {
    Int16Sum(x, y + 8);
    Int16Sum(8, x + y);
    assert x + (y + 8) == 8 + (x + y);
  }

  lemma Int16Sum(x: int, y: int)
    ensures Int16(x + Int16(y)) == Int16(x + y)
  {
    var q := (y + 32768) / 65536;
    assert Int16(y) == y - 65536 * q;
    ModShift(x + y + 32768, q);
  }

  lemma ModShift(v: int, q: int)
    ensures (v - 65536 * q) % 65536 == v % 65536
  {
  }

  lemma RingMakesQuiet(a: App, i: Input)
    requires Rings(a, i)
    ensures QuietAt(Step(a, i), Sampled(a, i).time.min)
  {
    var t := Sampled(a, i);
    if t.bell == Snooze {
      NextTargetDiffers(ToDec(t.alarm.min), t.snooze);
    }
  }

  lemma QuietStays(a: App, i: Input, m: byte)
    requires QuietAt(a, m) && Sampled(a, i).time.min == m
    requires !Commits(a, i) && Step(a, i).bell != Off
    ensures !Rings(a, i) && QuietAt(Step(a, i), m)
  {
    hide ToDec, EditTime, EditDate, CMod, Int16;
  }

  lemma StateNext(a: App, inputs: seq<Input>, n: nat)
    requires n < |inputs|
    ensures StateAt(a, inputs, n + 1) == Step(StateAt(a, inputs, n), inputs[n])
  {
  }

  /** The n-th pass starts a ring. */
  ghost predicate RingsAt(a: App, inputs: seq<Input>, n: nat)
    requires n < |inputs|
  {
    Rings(StateAt(a, inputs, n), inputs[n])
  }

  /** The n-th pass saves a new alarm or ends with the alarm switched off. */
  ghost predicate ResetAt(a: App, inputs: seq<Input>, n: nat)
    requires n < |inputs|
  {
    Commits(StateAt(a, inputs, n), inputs[n]) || StateAt(a, inputs, n + 1).bell == Off
  }

  /** The minute the alarm is compared with in the n-th pass. */
  ghost function MinuteAt(a: App, inputs: seq<Input>, n: nat): byte
    requires n < |inputs|
  {
    Sampled(StateAt(a, inputs, n), inputs[n]).time.min
  }

  lemma {:induction false} QuietWhileMinuteHolds(a: App, inputs: seq<Input>, j: nat, k: nat)
    requires j < k <= |inputs| && RingsAt(a, inputs, j)
    requires forall n :: j < n < k ==> !ResetAt(a, inputs, n) && MinuteAt(a, inputs, n) == MinuteAt(a, inputs, j)
    ensures QuietAt(StateAt(a, inputs, k), MinuteAt(a, inputs, j))
    decreases k
  {
    hide QuietAt, Step, Sampled, Rings, Commits;
    var b, i := StateAt(a, inputs, k - 1), inputs[k - 1];
    StateNext(a, inputs, k - 1);
    if k == j + 1 {
      RingMakesQuiet(b, i);
    } else {
      QuietWhileMinuteHolds(a, inputs, j, k - 1);
      assert !ResetAt(a, inputs, k - 1);
      QuietStays(b, i, MinuteAt(a, inputs, j));
    }
  }

  /** Main theorem: the alarm does not ring twice in the same minute.  Between two rings, unless it
      has been switched off or set anew in between, the minute read from the clock has changed,
      whatever path through on, snooze and acknowledge the alarm has taken. */
  lemma NoDoubleRing(a: App, inputs: seq<Input>, j: nat, k: nat)
    requires j < k < |inputs| && RingsAt(a, inputs, j) && RingsAt(a, inputs, k)
    requires forall n :: j < n <= k ==> !ResetAt(a, inputs, n)
    ensures exists n :: j < n <= k && MinuteAt(a, inputs, n) != MinuteAt(a, inputs, j)
  {
    hide QuietAt, Step, Sampled, Rings, Commits, StateAt;
    if forall n :: j < n <= k ==> MinuteAt(a, inputs, n) == MinuteAt(a, inputs, j) {
      QuietWhileMinuteHolds(a, inputs, j, k);
      StateNext(a, inputs, k);
      assert !ResetAt(a, inputs, k) && MinuteAt(a, inputs, k) == MinuteAt(a, inputs, j);
      QuietStays(StateAt(a, inputs, k), inputs[k], MinuteAt(a, inputs, j));
      assert false;
    }
  }

  // ---------- after acknowledging ----------

  /** A minute other than the alarm's has been looked at since the j-th pass. */
  ghost predicate OtherMinuteSeen(a: App, inputs: seq<Input>, j: nat, k: nat, m: byte)
    requires k <= |inputs|
  {
    exists n :: j <= n < k && MinuteAt(a, inputs, n) != m
  }

  lemma AckStep(a: App, i: Input)
    requires a.mode == ClockFace && a.entered && (a.bell == Ack || a.bell == On) && i.touch == None
    ensures Rings(a, i) <==> a.bell == On && Sampled(a, i).time.hour == a.alarm.hour
                                          && Sampled(a, i).time.min == a.alarm.min
    ensures var r := Step(a, i);
            && r.mode == ClockFace && r.entered && r.alarm == a.alarm
            && (!Rings(a, i) ==> r.bell == if a.bell == On || Sampled(a, i).time.min != a.alarm.min then On else Ack)
  {
  }

  lemma {:induction false} AckUntilOtherMinute(a: App, inputs: seq<Input>, j: nat, k: nat)
    requires j <= k <= |inputs|
    requires var b := StateAt(a, inputs, j); b.mode == ClockFace && b.entered && b.bell == Ack
    requires forall n :: j <= n < k ==> inputs[n].touch == None && !RingsAt(a, inputs, n)
    ensures var b, r := StateAt(a, inputs, j), StateAt(a, inputs, k);
            && r.mode == ClockFace && r.entered && r.alarm == b.alarm
            && r.bell == if OtherMinuteSeen(a, inputs, j, k, b.alarm.min) then On else Ack
    decreases k
  {
    hide StateAt, Rings, Sampled, Step;
    if k > j {
      AckUntilOtherMinute(a, inputs, j, k - 1);
      AckStep(StateAt(a, inputs, k - 1), inputs[k - 1]);
      StateNext(a, inputs, k - 1);
      assert !RingsAt(a, inputs, k - 1);
      var m := StateAt(a, inputs, j).alarm.min;
      assert OtherMinuteSeen(a, inputs, j, k, m)
          <==> OtherMinuteSeen(a, inputs, j, k - 1, m) || MinuteAt(a, inputs, k - 1) != m;
    }
  }

  /** Main theorem: an acknowledged alarm, left alone on the face, rings next when its time is looked
      at and another minute has been looked at in between, and not before. */
  lemma AcknowledgedAlarmReturns(a: App, inputs: seq<Input>, j: nat, k: nat)
    requires j <= k < |inputs|
    requires var b := StateAt(a, inputs, j); b.mode == ClockFace && b.entered && b.bell == Ack
    requires forall n :: j <= n <= k ==> inputs[n].touch == None
    requires forall n :: j <= n < k ==> !RingsAt(a, inputs, n)
    ensures var alarm := StateAt(a, inputs, j).alarm;
            var t := Sampled(StateAt(a, inputs, k), inputs[k]).time;
            RingsAt(a, inputs, k) <==> t.hour == alarm.hour && t.min == alarm.min
                                       && OtherMinuteSeen(a, inputs, j, k, alarm.min)
  {
    hide StateAt, Rings, Sampled, Step;
    AckUntilOtherMinute(a, inputs, j, k);
    AckStep(StateAt(a, inputs, k), inputs[k]);
  }

  // ---------- alarm times ----------

  ghost predicate GridTime(t: Time) {
    OnGrid(HOURS, t.hour) && OnGrid(TENS_OF_MINUTES, t.min)
  }

  /** The alarm, and the copy being edited, hold an hour of the day and a multiple of ten minutes. */
  ghost predicate AlarmOnGrid(a: App) {
    GridTime(a.alarm) && (a.mode == AlarmSet && a.entered ==> GridTime(a.edit))
  }

  /** All fields of the settings pages are proper cyclic counters, of these sizes. */
  lemma FieldsProper()
    ensures Proper(HOURS) && Proper(MINUTES) && Proper(TENS_OF_MINUTES)
    ensures Proper(WEEKDAYS) && Proper(DAYS) && Proper(MONTHS) && Proper(YEARS)
    ensures Size(HOURS) == 24 && Size(MINUTES) == 60 && Size(TENS_OF_MINUTES) == 6
    ensures Size(WEEKDAYS) == 7 && Size(DAYS) == 31 && Size(MONTHS) == 12 && Size(YEARS) == 51
  {
  }

  lemma TouchKeepsGrid(f: Field, b: byte, up: bool)
    requires Proper(f) && OnGrid(f, b)
    ensures OnGrid(f, Touch(b, f, up))
  {
    var i := NotchOf(f, b);
    TouchMovesOneNotch(f, i);
    NotchIsOnGrid(f, if i + 1 == Size(f) then 0 else i + 1);
    NotchIsOnGrid(f, if i == 0 then Size(f) - 1 else i - 1);
  }

  lemma EditKeepsGrid(t: Time, c: Code)
    requires GridTime(t)
    ensures GridTime(EditTime(t, c, TENS_OF_MINUTES))
  {
    hide OnGrid, Touch;
    FieldsProper();
    TouchKeepsGrid(HOURS, t.hour, c.y == 0);
    TouchKeepsGrid(TENS_OF_MINUTES, t.min, c.y == 0);
  }

  lemma StepKeepsGrid(a: App, i: Input)
    requires AlarmOnGrid(a)
    ensures AlarmOnGrid(Step(a, i))
  {
    if a.mode == AlarmSet && a.entered && i.touch.Some? {
      EditKeepsGrid(a.edit, i.touch.value);
    }
  }

  lemma {:induction false} AlarmStaysOnGrid(a: App, inputs: seq<Input>, n: nat)
    requires Initial(a) && n <= |inputs|
    ensures AlarmOnGrid(StateAt(a, inputs, n))
  {
    if n > 0 {
      AlarmStaysOnGrid(a, inputs, n - 1);
      StepKeepsGrid(StateAt(a, inputs, n - 1), inputs[n - 1]);
    }
  }

  // ---------- the snooze counter ----------

  /** How often it has rung since the alarm last went off from being on. */
  function RingsSince(a: App, inputs: seq<Input>, n: nat): nat
    requires n <= |inputs|
  {
    if n == 0 then 0
    else
      var b, i := StateAt(a, inputs, n - 1), inputs[n - 1];
      var before := RingsSince(a, inputs, n - 1);
      if Rings(b, i) then if Sampled(b, i).bell == On then 1 else before + 1
      else before
  }

  /** The counter holds eight minutes for every ring, in the machine's integers. */
  ghost predicate Counts(a: App, rings: nat) {
    a.bell == Ring || a.bell == Snooze ==> rings > 0 && a.snooze == Int16(8 * rings)
  }

  lemma CountStep(a: App, i: Input, rings: nat)
    requires Counts(a, rings)
    ensures Counts(Step(a, i), if !Rings(a, i) then rings
                               else if Sampled(a, i).bell == On then 1 else rings + 1)
    ensures Rings(a, i) && Sampled(a, i).bell == Snooze ==> rings > 0 && Sampled(a, i).snooze == Int16(8 * rings)
  {
    Int16Sum(8, 8 * rings);
    assert 8 + 8 * rings == 8 * (rings + 1);
  }

  /** Main theorem: whenever it rings or snoozes, the counter is eight times the number of rings
      since the alarm was triggered. */
  lemma {:induction false} SnoozeCountsRings(a: App, inputs: seq<Input>, n: nat)
    requires Initial(a) && n <= |inputs|
    ensures Counts(StateAt(a, inputs, n), RingsSince(a, inputs, n))
  {
    if n > 0 {
      SnoozeCountsRings(a, inputs, n - 1);
      CountStep(StateAt(a, inputs, n - 1), inputs[n - 1], RingsSince(a, inputs, n - 1));
    }
  }

  lemma GridMinute(t: Time)
    requires GridTime(t)
    ensures ToDec(t.min) <= 50
  {
  }

  /** Within the range of an int nothing wraps. */
  lemma PlainMinute(v: nat)
    requires v < 32768
    ensures CMod(Int16(v), 60) == v % 60
  {
  }

  lemma AlarmUntouched(a: App, i: Input)
    requires Looks(a, i)
    ensures Sampled(a, i).alarm == a.alarm
  {
  }

  lemma RingTime(a: App, i: Input, rings: nat)
    requires Rings(a, i) && Counts(a, rings) && GridTime(a.alarm)
    ensures var t := Sampled(a, i);
            var earlier := if t.bell == On then 0 else rings;
            t.time.hour == a.alarm.hour && ToDec(t.time.min) == CMod(Int16(ToDec(a.alarm.min) + 8 * earlier), 60)
  {
    hide Sampled, Looks, Counts, GridTime, ToDec, Step, CMod, Int16;
    AlarmUntouched(a, i);
    CountStep(a, i, rings);
    var t := Sampled(a, i);
    GridMinute(a.alarm);
    if t.bell == Snooze {
      Int16Sum(ToDec(a.alarm.min), 8 * rings);
    } else {
      PlainMinute(ToDec(a.alarm.min));
    }
  }

  /** Main theorem: the k-th ring since the trigger comes in the hour of the alarm, at eight minutes
      times k - 1 past the alarm's minute, added up in the machine's integers and counted around the
      hour; as long as the sum fits an int, it is the sum.  The alarm's minute is a multiple of ten,
      so the first ring after a snooze is always eight minutes later, inside the same hour. */
  lemma RingSchedule(a: App, inputs: seq<Input>, n: nat)
    requires Initial(a) && n < |inputs| && RingsAt(a, inputs, n)
    ensures var b := StateAt(a, inputs, n);
            var t := Sampled(b, inputs[n]).time;
            var k := RingsSince(a, inputs, n + 1);
            var v := ToDec(b.alarm.min) + 8 * (k - 1);
            && k > 0 && t.hour == b.alarm.hour
            && ToDec(t.min) == CMod(Int16(v), 60)
            && (v < 32768 ==> ToDec(t.min) == v % 60)
            && (k == 2 ==> ToDec(t.min) == ToDec(b.alarm.min) + 8 < 60)
  {
    hide Sampled, Rings, Counts, StateAt, GridTime, ToDec, Initial, CMod, Int16;
    var b := StateAt(a, inputs, n);
    SnoozeCountsRings(a, inputs, n);
    AlarmStaysOnGrid(a, inputs, n);
    RingTime(b, inputs[n], RingsSince(a, inputs, n));
    GridMinute(b.alarm);
    var v := ToDec(b.alarm.min) + 8 * (RingsSince(a, inputs, n + 1) - 1);
    if v < 32768 {
      PlainMinute(v);
    }
  }

  // ---------- snoozing past the hour ----------

  function DayMinute(t: Time): nat {
    60 * ToDec(t.hour) + ToDec(t.min)
  }

  /** v minutes after the start of an hour it is minute v % 60, and it is that hour again only in the
      first sixty minutes of a day. */
  lemma HourLater(hour: nat, v: nat, h: nat, m: nat)
    requires hour < 24 && h < 24 && m < 60 && 60 * h + m == (60 * hour + v) % 1440
    ensures m == v % 60
    ensures h == hour <==> v % 1440 < 60
  {
    var r := v % 1440;
    Divided(v, 1440);
    var carry := if 60 * hour + r >= 1440 then 1 else 0;
    ModUnique(60 * hour + v, 1440, v / 1440 + carry, 60 * hour + r - 1440 * carry);
    Divided(r, 60);
    assert v == 60 * (24 * (v / 1440) + r / 60) + r % 60;
    ModUnique(v, 60, 24 * (v / 1440) + r / 60, r % 60);
    ModUnique(60 * h + m, 60, h, m);
    ModUnique(60 * h + m, 60, hour + r / 60 - 24 * carry, r % 60);
  }

  /** A snoozing alarm that has rung so often looks at the clock when it is due: eight minutes past
      the alarm time for every ring. */
  ghost predicate Due(t: App, rings: nat) {
    t.bell == Snooze && ValidTime(t.time) && DayMinute(t.time) == (DayMinute(t.alarm) + 8 * rings) % 1440
  }

  /** The bytes of two hours agree as their values do. */
  lemma SameHour(t: Time, u: Time)
    requires GridTime(t) && ValidTime(u)
    ensures t.hour == u.hour <==> ToDec(t.hour) == ToDec(u.hour)
    ensures ToDec(t.hour) < 24 && ToDec(u.hour) < 24 && ToDec(u.min) < 60
  {
    hide ToDec;
    DecOfBcd(t.hour);
    DecOfBcd(u.hour);
  }

  lemma DueTriggersIff(t: App, rings: nat)
    requires Due(t, rings) && GridTime(t.alarm) && t.snooze == Int16(8 * rings)
    ensures var v := ToDec(t.alarm.min) + 8 * rings;
            Triggers(t) <==> v % 1440 < 60 && v % 60 == CMod(Int16(v), 60)
  {
    hide ToDec, CMod, Int16, GridTime, ValidTime;
    var v := ToDec(t.alarm.min) + 8 * rings;
    SameHour(t.alarm, t.time);
    HourLater(ToDec(t.alarm.hour), v, ToDec(t.time.hour), ToDec(t.time.min));
    Int16Sum(ToDec(t.alarm.min), 8 * rings);
  }

  lemma SampledCounts(a: App, i: Input, rings: nat)
    requires Looks(a, i) && Counts(a, rings)
    ensures Counts(Sampled(a, i), rings)
  {
  }

  /** Main theorem: when a snoozing alarm is due it rings if and only if that is still in the alarm's
      hour.  So an alarm snoozed past the hour does not ring eight minutes later.  (For more rings than
      fill a day, or an int, the minutes are counted around the day and the sum must not have wrapped.) */
  lemma DueRingsIffSameHour(a: App, inputs: seq<Input>, n: nat)
    requires Initial(a) && n < |inputs| && Looks(StateAt(a, inputs, n), inputs[n])
    requires Due(Sampled(StateAt(a, inputs, n), inputs[n]), RingsSince(a, inputs, n))
    ensures var v := ToDec(StateAt(a, inputs, n).alarm.min) + 8 * RingsSince(a, inputs, n);
            && (RingsAt(a, inputs, n) <==> v % 1440 < 60 && v % 60 == CMod(Int16(v), 60))
            && (v < 32768 ==> (RingsAt(a, inputs, n) <==> v % 1440 < 60))
            && (v < 1440 ==> (RingsAt(a, inputs, n) <==> v < 60))
  {
    hide Sampled, Looks, StateAt, RingsSince, Triggers, Initial, CMod, Int16, ToDec, GridTime;
    var b, k := StateAt(a, inputs, n), RingsSince(a, inputs, n);
    AlarmUntouched(b, inputs[n]);
    AlarmStaysOnGrid(a, inputs, n);
    SnoozeCountsRings(a, inputs, n);
    SampledCounts(b, inputs[n], k);
    DueTriggersIff(Sampled(b, inputs[n]), k);
    var v := ToDec(b.alarm.min) + 8 * k;
    if v < 32768 {
      PlainMinute(v);
    }
  }

  // ---------- the time looked at is the time last read ----------

  /** The n-th pass reads the time: it enters the face, or finds the seconds moved on. */
  ghost predicate ReadsAt(a: App, inputs: seq<Input>, n: nat)
    requires n < |inputs|
  {
    var b := StateAt(a, inputs, n);
    b.mode == ClockFace && (!b.entered || b.time.sec != inputs[n].next.sec)
  }

  /** Of the first n passes the k-th was the last to read the time. */
  ghost predicate LastReading(a: App, inputs: seq<Input>, k: nat, n: nat)
    requires n <= |inputs|
  {
    k < n && ReadsAt(a, inputs, k) && forall j :: k < j < n ==> !ReadsAt(a, inputs, j)
  }

  lemma ReadingStep(a: App, i: Input)
    ensures var r := Step(a, i);
            r.mode == ClockFace && r.entered ==>
              a.mode == ClockFace
              && r.time == if !a.entered || a.time.sec != i.next.sec then i.now else a.time
  {
    hide EditTime, EditDate, Triggers;
  }

  /** Main theorem: on the running face of every run, the time held is the one last read from the
      clock, on entering the face or when the seconds had moved on. */
  lemma {:induction false} HeldTimeIsLastReading(a: App, inputs: seq<Input>, n: nat) returns (k: nat)
    requires Initial(a) && n <= |inputs|
    requires StateAt(a, inputs, n).mode == ClockFace && StateAt(a, inputs, n).entered
    ensures LastReading(a, inputs, k, n) && StateAt(a, inputs, n).time == inputs[k].now
  {
    hide Step;
    StateNext(a, inputs, n - 1);
    ReadingStep(StateAt(a, inputs, n - 1), inputs[n - 1]);
    if ReadsAt(a, inputs, n - 1) {
      k := n - 1;
    } else {
      k := HeldTimeIsLastReading(a, inputs, n - 1);
    }
  }

  /** A pass starts a ring exactly when it leaves the bell ringing without having found it so, or with
      a touch that has just snoozed it; and only the running face does that. */
  lemma RingsIffBellStarts(a: App, inputs: seq<Input>, n: nat)
    requires Initial(a) && n < |inputs|
    ensures var b, r := StateAt(a, inputs, n), StateAt(a, inputs, n + 1);
            && (RingsAt(a, inputs, n) <==> r.bell == Ring && (b.bell != Ring || inputs[n].touch.Some?))
            && (RingsAt(a, inputs, n) ==> b.mode == r.mode == ClockFace && b.entered && r.entered)
  {
    BrightnessFollowsMode(a, inputs, n);
    StateNext(a, inputs, n);
    hide StateAt, SnoozeTarget, EditTime, EditDate, Initial;
    BellStarts(StateAt(a, inputs, n), inputs[n]);
  }

  lemma BellStarts(a: App, i: Input)
    requires Orderly(a)
    ensures var r := Step(a, i);
            && (Rings(a, i) <==> r.bell == Ring && (a.bell != Ring || i.touch.Some?))
            && (Rings(a, i) ==> a.mode == r.mode == ClockFace && a.entered && r.entered)
  {
    hide SnoozeTarget, EditTime, EditDate;
  }

  lemma StaysLooks(a: App, i: Input)
    requires a.mode == ClockFace && a.entered && Touched(a, i).mode == ClockFace
    ensures Looks(a, i)
  {
  }

  lemma LooksAtHeldOrNew(a: App, i: Input)
    requires Looks(a, i)
    ensures Sampled(a, i).time == if a.time.sec != i.next.sec then i.now else a.time
    ensures Sampled(a, i).bell == Touched(a, i).bell && Sampled(a, i).alarm == a.alarm
    ensures Sampled(a, i).snooze == a.snooze
  {
  }

  lemma SnoozeCounted(a: App, i: Input, rings: nat)
    requires Looks(a, i) && Counts(a, rings) && Sampled(a, i).bell == Snooze
    ensures SnoozeTarget(Sampled(a, i)) == CMod(Int16(ToDec(a.alarm.min) + 8 * rings), 60)
  {
    hide CMod, Int16, ToDec, Sampled, Looks;
    SampledCounts(a, i, rings);
    LooksAtHeldOrNew(a, i);
    Int16Sum(ToDec(a.alarm.min), 8 * rings);
  }

  /** Main theorem: when it rings.  In every pass of every run in which the face looks at the alarm,
      with t the time last read from the clock: if the alarm is on, it rings if and only if t has its
      hour and minute; snoozing, if and only if t has its hour and the minute is the alarm's plus eight
      for every ring so far, around the hour, on whatever day; and in no other state of the alarm. */
  lemma RingsIffItsTime(a: App, inputs: seq<Input>, n: nat) returns (k: nat)
    requires Initial(a) && n < |inputs|
    requires var b := StateAt(a, inputs, n);
             b.mode == ClockFace && b.entered && Touched(b, inputs[n]).mode == ClockFace
    ensures LastReading(a, inputs, k, n + 1)
    ensures var b, t := StateAt(a, inputs, n), inputs[k].now;
            var target := CMod(Int16(ToDec(b.alarm.min) + 8 * RingsSince(a, inputs, n)), 60);
            RingsAt(a, inputs, n) <==>
              match Touched(b, inputs[n]).bell
              case On => t.hour == b.alarm.hour && t.min == b.alarm.min
              case Snooze => t.hour == b.alarm.hour && ToDec(t.min) == target
              case _ => false
  {
    var b, i := StateAt(a, inputs, n), inputs[n];
    if ReadsAt(a, inputs, n) {
      k := n;
    } else {
      k := HeldTimeIsLastReading(a, inputs, n);
    }
    StaysLooks(b, i);
    LooksAtHeldOrNew(b, i);
    SnoozeCountsRings(a, inputs, n);
    hide StateAt, Sampled, Counts, SnoozeTarget, RingsSince, Initial, CMod, Int16, ToDec, Touched;
    if Sampled(b, i).bell == Snooze {
      SnoozeCounted(b, i, RingsSince(a, inputs, n));
    }
  }

  // ---------- a run that snoozes past the hour ----------

  /** The face is running and the alarm, set to half past six, rings for the given time. */
  predicate Ringing(a: App, rings: nat) {
    && a.mode == ClockFace && a.entered && a.alarm.hour == 0x06 && a.alarm.min == 0x30
    && a.bell == Ring && a.snooze == 8 * rings
  }

  /** A touch, and the clock read eight minutes after the last of so many rings. */
  ghost predicate TouchedAfter(i: Input, rings: nat) {
    i.touch.Some? && i.next.sec == i.now.sec == rings && DayMinute(i.now) == 390 + 8 * rings && ValidTime(i.now)
  }

  lemma FirstRing(a: App, i: Input)
    requires a.mode == ClockFace && a.entered && a.alarm.hour == 0x06 && a.alarm.min == 0x30 && a.bell == On
    requires i.touch == None && i.next.sec != a.time.sec && i.now.hour == 0x06 && i.now.min == 0x30
    ensures Rings(a, i) && Sampled(a, i).bell == On
    ensures Ringing(Step(a, i), 1) && Step(a, i).time == i.now
  {
  }

  lemma LaterRing(a: App, i: Input, rings: nat)
    requires 0 < rings <= 4 && Ringing(a, rings) && TouchedAfter(i, rings) && a.time.sec != i.now.sec
    ensures Looks(a, i) && Due(Sampled(a, i), rings)
    ensures rings < 4 ==> Rings(a, i) && Ringing(Step(a, i), rings + 1) && Step(a, i).time == i.now
    ensures rings == 4 ==> !Rings(a, i)
  {
  }

  /** One pass without a touch, in which the alarm goes off, and four with one. */
  ghost predicate Script(inputs: seq<Input>) {
    && |inputs| == 6 && inputs[0].now.sec != 0
    && inputs[1].touch == None && inputs[1].next.sec == 0 && inputs[1].now == Time(0x06, 0x30, 0)
    && forall n :: 2 <= n < 6 ==> TouchedAfter(inputs[n], n - 1)
  }

  lemma FirstPass(a: App, inputs: seq<Input>)
    requires Initial(a) && Script(inputs)
    ensures StateAt(a, inputs, 1) == a.(entered := true, time := inputs[0].now) && RingsSince(a, inputs, 1) == 0
  {
    assert StateAt(a, inputs, 0) == a && RingsSince(a, inputs, 0) == 0;
    StateNext(a, inputs, 0);
  }

  lemma OneMoreRing(a: App, inputs: seq<Input>, n: nat)
    requires n < |inputs| && RingsAt(a, inputs, n)
    ensures RingsSince(a, inputs, n + 1)
         == if Sampled(StateAt(a, inputs, n), inputs[n]).bell == On then 1 else RingsSince(a, inputs, n) + 1
  {
  }

  lemma {:induction false} ScriptRings(a: App, inputs: seq<Input>, n: nat)
    requires Initial(a) && Script(inputs) && 1 <= n <= 4
    ensures RingsAt(a, inputs, n) && RingsSince(a, inputs, n + 1) == n
    ensures Ringing(StateAt(a, inputs, n + 1), n) && StateAt(a, inputs, n + 1).time == inputs[n].now
    decreases n
  {
    hide StateAt, Rings, Sampled, Step, RingsSince, ToDec, ValidTime;
    StateNext(a, inputs, n);
    if n == 1 {
      FirstPass(a, inputs);
      FirstRing(StateAt(a, inputs, 1), inputs[1]);
    } else {
      ScriptRings(a, inputs, n - 1);
      assert TouchedAfter(inputs[n], n - 1);
      LaterRing(StateAt(a, inputs, n), inputs[n], n - 1);
    }
    OneMoreRing(a, inputs, n);
  }

  /** It happens: from power-up the alarm rings at 6:30, 6:38, 6:46 and 6:54, every ring but the first
      after a touch and without a reset in between, and snoozed once more it is due at 7:02 and silent. */
  lemma SnoozedPastTheHour(a: App) returns (inputs: seq<Input>)
    requires Initial(a)
    ensures |inputs| == 6 && forall n :: 1 <= n < 6 ==> inputs[n].touch.Some? == (n > 1)
    ensures forall n :: 1 <= n <= 4 ==> RingsAt(a, inputs, n) && !ResetAt(a, inputs, n)
    ensures inputs[1].now.min == 0x30 && inputs[2].now.min == 0x38 && inputs[3].now.min == 0x46 && inputs[4].now.min == 0x54
    ensures inputs[5].now.hour == 0x07 && inputs[5].now.min == 0x02
    ensures Looks(StateAt(a, inputs, 5), inputs[5])
    ensures Due(Sampled(StateAt(a, inputs, 5), inputs[5]), RingsSince(a, inputs, 5))
    ensures !RingsAt(a, inputs, 5)
  {
    hide StateAt, Rings, Looks, Sampled, Step, RingsSince, Script, Due, Initial, ResetAt, ToDec, TouchedAfter;
    var day, t0, t1 := Date(0, 0, 0, 0), Time(0x06, 0x29, 59), Time(0x06, 0x30, 0);
    var touch := Some(Grid.Code(0, 0, false));
    var t2, t3, t4, t5 := Time(0x06, 0x38, 1), Time(0x06, 0x46, 2), Time(0x06, 0x54, 3), Time(0x07, 0x02, 4);
    inputs := [Input(None, t0, t0, day), Input(None, t1, t1, day), Input(touch, t2, t2, day),
               Input(touch, t3, t3, day), Input(touch, t4, t4, day), Input(touch, t5, t5, day)];
    ScriptOf(inputs);
    forall n | 1 <= n <= 4 ensures RingsAt(a, inputs, n) && !ResetAt(a, inputs, n) {
      ScriptRings(a, inputs, n);
      RingingIsNoReset(a, inputs, n);
    }
    ScriptRings(a, inputs, 4);
    LaterRing(StateAt(a, inputs, 5), inputs[5], 4);
  }

  lemma ScriptOf(inputs: seq<Input>)
    requires |inputs| == 6 && inputs[0].now.sec == 59
    requires inputs[1].touch == None && inputs[1].next == inputs[1].now == Time(0x06, 0x30, 0)
    requires forall n :: 2 <= n < 6 ==> inputs[n].touch.Some? && inputs[n].next == inputs[n].now
    requires inputs[2].now == Time(0x06, 0x38, 1) && inputs[3].now == Time(0x06, 0x46, 2)
    requires inputs[4].now == Time(0x06, 0x54, 3) && inputs[5].now == Time(0x07, 0x02, 4)
    ensures Script(inputs) && TouchedAfter(inputs[5], 4)
  {
    hide DayMinute, ValidTime;
    Packed(inputs[2].now, 6, 38);
    Packed(inputs[3].now, 6, 46);
    Packed(inputs[4].now, 6, 54);
    Packed(inputs[5].now, 7, 2);
  }

  lemma Packed(t: Time, hour: nat, min: nat)
    requires hour < 24 && min < 60
    requires t.hour == 16 * (hour / 10) + hour % 10 && t.min == 16 * (min / 10) + min % 10
    ensures DayMinute(t) == 60 * hour + min && ValidTime(t)
  {
    Divided(hour, 10);
    Divided(min, 10);
    ModUnique(t.hour, 16, hour / 10, hour % 10);
    ModUnique(t.min, 16, min / 10, min % 10);
  }

  lemma RingingIsNoReset(a: App, inputs: seq<Input>, n: nat)
    requires n < |inputs| && RingsAt(a, inputs, n) && StateAt(a, inputs, n + 1).bell == Ring
    ensures !ResetAt(a, inputs, n)
  {
  }
}
