# Verification of the Mikromedia firmware

A Dafny model of the stateful parts of the firmware that accompanies *Graphics, Touch, Sound and USB*
for the PIC24 Mikromedia board, with proofs of what these parts do over whole runs.  Each source file
that changes state is a class whose methods have the loops and branches of the source; every method is
proved equal to a function of the old state, and the properties are proved about that function, for
every input and every run.

| file | models | main results |
|---|---|---|
| `TilesBoard`, `TilesParity`, `TilesReach`, `TilesGame` | the 15-tiles game | a board can come up if and only if its parity is even; every run can be undone; the four tests of a press make at most one move |
| `Pond` | the drop list of the pond animation | the in-place two-pointer pass is grow-and-filter; the list is the window of the last eleven frames, so it never fills; the screen shows exactly the live drops |
| `Audio` | the timer callback that feeds the codec | the byte stream is conserved under every pin and card behaviour; one burst per request; every tick feeds until the pin refuses; every song ends, with the whole file sent unless a read failed |
| `Solari`, `Alarm`, `AlarmRuns`, `AlarmPages` | the alarm clock | settings fields are cyclic counters; the digits settle after an exact number of calls; no double ring; the time looked at is the time last read, and exactly when the alarm rings and when a snoozed one fails to; brightness and mode safety |
| `Tty`, `TtyRuns`, `TtyCells` | the terminal | scrolling in place shows the bottom of a page that never scrolls; without scrolling the screen is a ring; exactly when display and matrix part; what every character does to every cell, in both builds |
| `Flash` | copying a file to serial flash | the file comes back if and only if a stated condition on file and old contents holds; up to one sector always |
| `Grid` | the debounced touch grid | a button read is the first press window and the first release window after it |
| `CInts`, `Wrappers` | 16-bit machine integers; values that may be missing | |

Check everything with `dafny verify dfyconfig.toml`.

## Reading the model

- The touch screen, the real-time clock, the codec's request pin, the card and the previous flash
  contents are inputs with arbitrary values.  Endless loops are cut off after an arbitrary finite number
  of inputs, so a statement about the result is a statement about every point of every run.
- `int` is 16 bits wide on this processor.  Where a counter can leave that range (the press counter of
  `Grid`, the snooze counter of `Alarm`) the model wraps it in two's complement, as the processor does;
  C itself leaves the overflow undefined.
- Codec: the wait for the pin inside the flush is taken as fair, that is, the pin asks again and again.
  A read of the card may deliver fewer bytes than asked, or none.  Only the law of one burst per request
  needs a card that always delivers (`GoodCard`); that every song ends does not.
- Flash: a cell is a `bv8`; programming is a bitwise and, erasing sets a 64 KiB sector to 0xFF.  The
  driver's page splitting and its giving up after the first page that fails to verify are modelled.  The
  file fits on the chip and its reads succeed.

## What turned out not to hold, and exactly when it does

- **Flash round trip.**  The sector counter is compared with `>` where `>=` was meant, so erases come
  69632 bytes apart.  `RoundTripIff` gives the exact condition; `OneSectorRoundTrips`,
  `TailComesBackIffOldFits` and `ChunkAfterSectorIsLost` spell it out for files up to 65536 bytes, up to
  69632 bytes, and longer.
- **Long presses.**  The press counter is a 16-bit `int`: `LongPressIff` says for any samples when the
  option flag is set, and `HeldButton` gives the stream, 32768 samples long, of a long press read as short.
- **Codes never set.**  The code returned was never set if and only if the ten samples after the press are
  all untouched, `NeverSetIffReleasedAtOnce`; `HeldButton` with ten samples is such a stream.
- **Grid cells.**  A touch can give a cell one past the grid; `CellsFitIffDivides` says for which grids it
  cannot.  The three by three grid of 5.4-Storage_Flash/main.c:30 is one where it can: by
  `ThreeByThreeMisses` pixels from x = 318 on lie in a fourth column.
- **Settings fields.**  The limits are tested with equality, so a field stays packed decimal, and in range,
  under all touches if and only if it starts on its grid: `PackedForeverIffOnGrid`, `InRangeForeverIffOnGrid`.
  A calendar year from 51 to 99 does not.  `WritesPackedIffValidDate` is the condition for the date page, and
  `YearWrittenOutOfRange` a run from power-up that writes year 0xA0 to a calendar that said 0x99.
- **Snooze past the hour.**  A snoozing alarm rings eight minutes after its last ring only in the alarm's
  hour.  `DueRingsIffSameHour`: on every run, when it is due it rings if and only if the alarm's minute and
  the minutes snoozed make less than sixty; `SnoozedPastTheHour` is a run from power-up that rings at 6:30,
  6:38, 6:46 and 6:54 and not at 7:02.
- **Tab.**  It never reaches the stop: it ends one column before it, and does nothing on that column;
  `TabStopsShort`.
- **Clear to end of line.**  Its comment says the cursor returns to its position; the last space wraps, so
  it comes back to its row if and only if the screen has one row, or the scrolling build has moved the last
  row up; `ClearToEolLeavesTheRow`.
- **Return in the scrolling build** clears the display and not the matrix.  `DisplayAgreesIff` says exactly
  when a character makes the two differ; by `NewLineClearsNothing` and `WithoutReturnDisplayShowsMatrix` only
  a return ever does, and `SecondReturnParts` is a text that ends with them apart.
- **Cursor off the grid.**  `CursorSet` takes any place, and the first character put there is lost if and
  only if the place is off the grid: `FirstCharacterLostIffOffGrid`, `OffGridLosesOneCharacter`.

## Model

| member | source | states |
|---|---|---|
| TilesBoard.Tiles.constructor | 4.Solution/main.c:105-112 | the nested loops with one running counter leave every tile in its own cell |
| TilesBoard.Tiles.TilesSwap | 4.Solution/main.c:67-75 | the tile at (x, y) and the blank at the target trade places, no other cell changes |
| TilesBoard.Tiles.PressAt | 4.Solution/main.c:120-132 | the four tests, run one after another on the changing matrix, make exactly one exchange if the pressed cell is next to the blank and none otherwise, and keep a permutation of 0..15 |
| TilesBoard.MovedOnce | 4.Solution/main.c:125-132 | after one test has succeeded no later one can: the blank is unique |
| TilesBoard.PressMoves | 4.Solution/main.c:125-132 | a press next to the blank moves that tile and leaves the blank in its cell |
| TilesBoard.PressMisses | 4.Solution/main.c:125-132 | a press with no blank in the four directions changes nothing |
| TilesBoard.Tiles.Play | 4.Solution/main.c:118-135 | after any presses the matrix is the fold of single presses |
| TilesParity.SwapFlips | 4.Solution/main.c:67-75 | exchanging any two entries of a sequence without repetition changes the parity of its inversions |
| TilesParity.PressKeepsParity | 4.Solution/main.c:120-132 | a press keeps the board in its parity class |
| TilesParity.ReachedBoardsAreEven | 4.Solution/main.c:105-133 | on every board of every run, inversions and the blank's distance from home agree in parity |
| TilesParity.LastTwoExchangedUnreachable | 4.Solution/main.c:105-133 | no run reaches the board with only the last two tiles exchanged |
| TilesReach.PressTwice | 4.Solution/main.c:125-132 | pressing the cell the blank has just left undoes the move |
| TilesReach.RunBack | 4.Solution/main.c:118-133 | from the end of any run some presses lead back to its start |
| TilesReach.EvenBoardsAreSolvable | 4.Solution/main.c:105-133 | from every permutation of even parity some presses lead to the solved board |
| TilesReach.ReachableIffEven | 4.Solution/main.c:105-133 | a permutation can come up in play if and only if its parity is even |
| TilesReach.NeverStuck | 4.Solution/main.c:118-133 | from every position reached, every even position can still be reached |
| TilesGame.Play | 4.Solution/main.c:87-133 | whatever is touched on the screen, the cells pressed are the buttons of the stretches of samples in their order, up to the first that holds none; every one is a cell of the board, and the board stays even |
| TilesGame.ButtonIsUnique | bsp/pic24f_mikromedia/grid.c:43-84 | a stretch of samples decides the cell pressed |
| Grid.TouchGrid.ButtonGet | bsp/pic24f_mikromedia/grid.c:43-84 | returns after the first ten valid samples in a row and then the first ten invalid ones in a row, and waits if there are none; the code is the cell of the last valid sample in between, never set if there is none; the option flag is the 16-bit counter exceeding 500 |
| Grid.EndsAreUnique | bsp/pic24f_mikromedia/grid.c:51-75 | the samples determine where press and release end |
| Grid.LongPressIff | bsp/pic24f_mikromedia/grid.c:69-79 | for any samples, a returned code is long exactly when ten and the pressed samples until the release, cut to 16 bits, lie above 500 and below 32768 |
| Grid.NeverSetIffReleasedAtOnce | bsp/pic24f_mikromedia/grid.c:45-75 | the code was never set if and only if the ten samples after the press are all untouched |
| Grid.HeldButton | bsp/pic24f_mikromedia/grid.c:51-79 | a screen held for n samples and left alone for ten: never set for n = 10, otherwise long if and only if n cut to 16 bits lies above 500 and below 32768, so short for n = 32768 |
| Grid.TouchGrid.TouchGet | bsp/pic24f_mikromedia/grid.c:19-40 | a reading gives a code exactly when both coordinates are valid, and as far as four bits can number the cells the touch lies between the sides of its cell, columns by the cell's width and rows by its height |
| Grid.ButtonHoldsLastTouch | bsp/pic24f_mikromedia/grid.c:58-83 | the button returned is the cell that the last touch before the release lies in |
| Grid.CellsFitIffDivides | bsp/pic24f_mikromedia/grid.c:33-36 | for grids of up to sixteen by sixteen, every touch of the screen gives a code inside the grid, of the cell it lies in, if and only if both numbers of cells divide the screen |
| Grid.ThreeByThreeMisses | 5.4-Storage_Flash/main.c:30 | on the three by three grid a touch gives a column outside the grid exactly from x = 318 on |
| Pond.DropList.Append | 4.Pond/main.c:50-59 | a touch appends a ring of radius 20 at the coordinates read, unless the array is full |
| Pond.DropList.Advance | 4.Pond/main.c:61-94 | for any array contents the in-place pass leaves the old list grown and filtered, in order, and makes an erase for every drop and a paint for every survivor |
| Pond.DropList.Animate | 4.Pond/main.c:46-95 | any number of frames is the fold of append, grow and filter |
| Pond.SurvivorsOfOne | 4.Pond/main.c:70-91 | of any drop a frame keeps it twenty larger, in 16 bits, exactly if that is below 256 |
| Pond.PondIsAWindow | 4.Pond/main.c:46-95 | after any run the list is exactly the taps of the last eleven frames, with the radius of their age |
| Pond.CapacityNeverHit | 4.Pond/main.c:11-13 | at most eleven drops, radii strictly decreasing multiples of 20 in 40..240, and the guard never refuses a tap |
| Pond.FrameRetiresAtMostOldest | 4.Pond/main.c:62-94 | a frame drops at most one ring, the oldest, and grows all the others |
| Pond.ScreenShowsTheDrops | 4.Pond/main.c:67-90 | after every frame the circles showing are exactly the live drops, and each was painted once in a colour other than black |
| Pond.TapLivesElevenFrames | 4.Pond/main.c:50-94 | a tap is painted in exactly eleven consecutive frames, with radii 40 to 240 |
| Pond.RingFades | 4.Pond/main.c:83-87 | a tap's ring is painted with radius 20 + 20 age in the blue of 236 - 20 age, cut to five bits, exactly up to the age of eleven frames |
| Audio.Player.Read | 6.4-Sound_Interrupt/main.c:30 | at most one buffer is loaded from the file position on, which moves by as much |
| Audio.Player.Feed | bsp/pic24f_mikromedia/vs1053.c:179-192 | sends the next 32 unsent bytes, or all that are left, and is never entered with none |
| Audio.Player.Flush | bsp/pic24f_mikromedia/vs1053.c:165-176 | sends 2048 zeros, during which the pin has asked exactly 2048 times, the last time at the last look |
| Audio.WaitedForRequests | bsp/pic24f_mikromedia/vs1053.c:168-175 | bytes sent with a wait take one request of the pin each, and the last look is a request |
| Audio.Player.CallBack | 6.4-Sound_Interrupt/main.c:17-49 | one tick is: load when empty, stop at the end of the file, otherwise feed while the pin asks; it terminates |
| Audio.TickFollowsPin | 6.4-Sound_Interrupt/main.c:25-48 | a tick that goes on playing was asked at every look but the last; one that stops was asked at every look up to the flush and then exactly once per byte of it; once stopped nothing happens |
| Audio.StreamConserved | 6.4-Sound_Interrupt/main.c:17-49 | for every file, pin and card, what the codec got followed by what is unsent is what has been read; once stopped it got that and one flush |
| Audio.AtMostABurstPerPoll | bsp/pic24f_mikromedia/vs1053.c:184-190 | a callback sends at most 32 bytes for every look at the pin |
| Audio.OneBurstPerRequest | 6.4-Sound_Interrupt/main.c:25-48 | with a card that always delivers, the codec has exactly the first 32 bytes of the file per request so far; it stops only at the end, with the whole file sent |
| Audio.SongEnds | 6.4-Sound_Interrupt/main.c:33-38 | whatever the card delivers, if the pin asks again and again, playing stops after finitely many ticks |
| Audio.WholeFileUnlessAReadFails | 6.4-Sound_Interrupt/main.c:28-38 | a song that has ended was sent whole, with one flush, if and only if the card delivers at least one byte to every read it is asked for before the end of the file; otherwise the last read got nothing |
| Audio.SongEndsWhole | 6.4-Sound_Interrupt/main.c:28-38 | every song ends, and with the whole file sent if and only if no read before the end comes back empty |
| Solari.DecOfBcd | 6-Alarm/solari.c:97-105 | packing undoes unpacking on packed decimal bytes |
| Solari.TouchMovesOneNotch | 6-Alarm/solari.c:108-120 | up and down move a field one place around its cycle |
| Solari.DownUndoesUp | 6-Alarm/solari.c:108-120 | down takes up back and up takes down back |
| Solari.TouchAnyValue | 6-Alarm/solari.c:108-120 | from any packed value, in range or not, up and down add and take away the step unless the value is the limit, from which they go to the other limit |
| Solari.FieldIsCyclic | 6-Alarm/solari.c:108-120 | after any touches a field shows base plus step times (start plus ups less downs) modulo its size |
| Solari.PackedForeverIffOnGrid | 6-Alarm/solari.c:97-119 | from any byte, a field stays packed decimal under all touches if and only if it starts in range and a whole number of steps from its base |
| Solari.InRangeForeverIffOnGrid | 6-Alarm/solari.c:108-119 | from any byte, a field keeps to its range under all touches under the same condition |
| Solari.Display.Set | 6-Alarm/solari.c:241-252 | the display stands still and its four digits read as the hour and the minute set |
| Solari.Display.Roll | 6-Alarm/solari.c:255-279 | every digit not standing on its target moves on one state, and every value stays below its modulus |
| Solari.Chased | 6-Alarm/solari.c:265-278 | values and states stay in range whatever targets follow one another |
| Solari.DigitSettles | 6-Alarm/solari.c:265-278 | with the target held a digit stands on it after exactly 4 times its distance less its state calls, not earlier, and stays |
| Solari.DisplaySettles | 6-Alarm/solari.c:255-279 | with a valid time held, the four digits stand still and read as its hour and minute exactly from the arrival of the slowest digit on, at most 39 calls away |
| Alarm.AlarmClock.TouchFace | 6-Alarm/Alarm.c:325-384 | what a touch of the clock face does to alarm state, night mode, backlight and page |
| Alarm.AlarmClock.CheckAlarm | 6-Alarm/Alarm.c:416-446 | when the alarm starts to ring and when acknowledging ends, with snooze counter and backlight |
| Alarm.AlarmClock.ClockTouched | 6-Alarm/Alarm.c:165-194 | the clock page: arrows edit, anything else returns and a long press writes the clock |
| Alarm.AlarmClock.AlarmTouched | 6-Alarm/Alarm.c:211-243 | the alarm page: arrows edit, the bar returns and a long press saves and turns the alarm on |
| Alarm.AlarmClock.DateTouched | 6-Alarm/Alarm.c:261-294 | the date page: arrows edit four fields, the bar returns and a long press writes the date |
| Alarm.AlarmClock.ClockFaceTask | 6-Alarm/Alarm.c:298-448 | the face loop follows the one-pass description until a touch leaves it |
| Alarm.AlarmClock.MainLoop | 6-Alarm/Alarm.c:459-484 | the program with its four tasks follows the one-pass description over any inputs |
| AlarmRuns.BrightnessFollowsMode | 6-Alarm/Alarm.c:322-384 | in every reachable state the backlight is 2 exactly in night mode without ringing and 100 otherwise, and ringing never leaves the clock face |
| AlarmRuns.OnlyTouchEndsRinging | 6-Alarm/Alarm.c:330-336 | ringing ends by a touch, which snoozes, and by nothing else |
| AlarmRuns.TouchOfTheFace | 6-Alarm/Alarm.c:324-384 | every touch of the running face and all it changes: snooze while ringing, otherwise which page opens, or which step the bell or night mode takes |
| AlarmRuns.HeldTimeIsLastReading | 6-Alarm/Alarm.c:312-403 | on the running face of every run the time held is the reading of the last pass that entered the face or found the seconds moved on |
| AlarmRuns.RingsIffItsTime | 6-Alarm/Alarm.c:418-437 | in every pass of every run in which the face looks at the alarm, with the time last read: on, it rings if and only if hour and minute match; snoozing, if and only if the hour matches and the minute is the alarm's plus eight for every ring so far, around the hour, on whatever day; otherwise never |
| AlarmRuns.RingsIffBellStarts | 6-Alarm/Alarm.c:416-437 | a ring starts in a pass if and only if the bell rings after it and did not before, or was touched in it; only on the running face |
| AlarmRuns.AcknowledgedAlarmReturns | 6-Alarm/Alarm.c:418-443 | an acknowledged alarm, left untouched on the face, next rings in the first pass that looks at the alarm's hour and minute after a pass that looked at another minute |
| AlarmRuns.NoDoubleRing | 6-Alarm/Alarm.c:324-446 | between two rings, unless switched off or set anew in between, the minute read has changed |
| AlarmRuns.IconsToggle | 6-Alarm/Alarm.c:354-381 | a second touch of the bell or moon icon undoes the first, backlight included, except that snoozing is acknowledged for good |
| AlarmRuns.SnoozeCountsRings | 6-Alarm/Alarm.c:418-437 | ringing or snoozing, the counter is eight times the rings since the trigger, in 16-bit arithmetic |
| AlarmRuns.AlarmStaysOnGrid | 6-Alarm/Alarm.c:146-149 | every alarm reachable through the page has an hour of the day and minutes 0, 10, ... 50 |
| AlarmRuns.RingSchedule | 6-Alarm/Alarm.c:418-437 | the k-th ring, for every k, comes in the alarm hour at the alarm minute plus 8(k-1) around the hour, added in 16 bits and so exactly that as long as the sum fits an int; the second is always eight minutes after the first, in the same hour |
| AlarmRuns.DueRingsIffSameHour | 6-Alarm/Alarm.c:428-437 | on every run, when a snoozing alarm is looked at with the clock eight minutes past the alarm time for every ring so far, it rings if and only if that is in the alarm's hour, that is, the alarm's minute plus those minutes is less than sixty |
| AlarmRuns.SnoozedPastTheHour | 6-Alarm/Alarm.c:324-437 | a run from power-up: the alarm rings at 6:30 and, touched each time, at 6:38, 6:46 and 6:54, without a reset in between; touched again it is due at 7:02 and silent |
| AlarmPages.AlarmPageSaves | 6-Alarm/Alarm.c:198-244 | the alarm page edits a copy of the alarm time: after any arrow touches a long press saves the old hour and tens of minutes moved by ups less downs around 24 and 6, and turns the alarm on; a short press changes neither |
| AlarmPages.ClockPageSaves | 6-Alarm/Alarm.c:152-195 | the clock page edits a copy of the time read on entering, moved by ups less downs around 24 hours and 60 minutes; a long press of anything but an arrow writes it, and the alarm stays as it was |
| AlarmPages.DatePageSaves | 6-Alarm/Alarm.c:247-295 | the date page moves every field that starts in its range by ups less downs around 7, 31, 12 and 51 values, a long press of the bar writes them, and the alarm stays as it was; years 51 to 99 are outside the cyclic form |
| AlarmPages.WritesPackedIffValidDate | 6-Alarm/Alarm.c:247-295 | whatever is touched, the date page writes packed decimals if and only if the date read on entering has every field in its range, the year at most 50 |
| AlarmPages.YearWrittenOutOfRange | 6-Alarm/Alarm.c:247-295 | a run from power-up: with year 0x99 in the calendar, one up touch and a long press of the bar write year 0xA0 |
| AlarmRuns.FieldsProper | 6-Alarm/Alarm.c:168-283 | all seven fields of the pages are cyclic counters, of 24, 60, 6, 7, 31, 12 and 51 values |
| Tty.Terminal.ScrollUp | bsp/pic24f_mikromedia/tty.c:134-159 | the nested copy loop leaves the old rows one place up and a blank last row, on matrix and display |
| Tty.Terminal.CursorDown | bsp/pic24f_mikromedia/tty.c:127-168 | the next row; past the last one, scroll or back to the top |
| Tty.Terminal.CursorRight | bsp/pic24f_mikromedia/tty.c:171-181 | the next column, wrapping to the next row |
| Tty.Terminal.PutChar | bsp/pic24f_mikromedia/tty.c:184-211 | off the grid home and nothing written; unprintable ignored; otherwise the cell is set on display and matrix and the cursor moves on |
| Tty.Terminal.CharPut | bsp/pic24f_mikromedia/tty.c:214-256 | backspace, tab, new line, return and printable characters, on the grid and off it |
| TtyCells.PrintableCells | bsp/pic24f_mikromedia/tty.c:127-211 | a printable character: every cell of display and matrix, and the cursor, in both builds |
| TtyCells.UnprintableIgnored | bsp/pic24f_mikromedia/tty.c:194-195 | other characters change nothing on the grid |
| TtyCells.NewLineCells | bsp/pic24f_mikromedia/tty.c:236-249 | a new line, in both builds and from any cursor: first column of the next row, after the last row of the first or of a row scrolled in; the display is blank there from the old column on, every other cell as it was |
| TtyCells.ReturnCells | bsp/pic24f_mikromedia/tty.c:241-249 | a return: first column of the same row, blank on the display from the old column on, every other cell and the matrix as they were |
| TtyCells.BackspaceCells | bsp/pic24f_mikromedia/tty.c:220-227 | a backspace: nothing in the first column, otherwise one column back and that cell blank, every other cell as it was |
| TtyCells.OffGridGoesHome | bsp/pic24f_mikromedia/tty.c:186-192 | off the grid a character that is not a control character is lost and sends the cursor home |
| TtyCells.TabTypesSpaces | bsp/pic24f_mikromedia/tty.c:229-234 | a tab types 7 - column mod 8 spaces |
| Tty.Terminal.StringPut | bsp/pic24f_mikromedia/tty.c:259-275 | a string is its characters in order, from any cursor |
| Tty.AnyTextCanBePut | bsp/pic24f_mikromedia/tty.c:214-256 | any string can be put from a cursor on the grid, and one without backspaces from anywhere: the column never turns negative |
| Tty.Terminal.CursorSet | bsp/pic24f_mikromedia/tty.c:67-70 | the cursor goes to any place, on the grid or off it, and nothing else changes |
| Tty.Terminal.Clear | bsp/pic24f_mikromedia/tty.c:91-104 | blank display, blank matrix in the scrolling build, cursor home |
| Tty.Terminal.ClearToEol | bsp/pic24f_mikromedia/tty.c:78-89 | writes a space for every column left, from any cursor, and sets the column back |
| TtyCells.ClearToEolTypesSpaces | bsp/pic24f_mikromedia/tty.c:78-89 | the same as typing that many spaces, the column aside |
| TtyRuns.ScrollingShowsTheBottom | bsp/pic24f_mikromedia/tty.c:127-256 | whatever is typed on a cleared scrolling terminal, its matrix is the bottom window of a terminal tall enough never to scroll, and the cursors agree |
| TtyRuns.CursorStaysOnGrid | bsp/pic24f_mikromedia/tty.c:186-192 | from a cleared terminal the cursor never leaves the grid, so the clipping branch is never taken |
| TtyRuns.TextRunsAround | bsp/pic24f_mikromedia/tty.c:161-181 | without scrolling, a text moves the cursor as many cells on around the whole screen |
| TtyRuns.LastScreenfulStands | bsp/pic24f_mikromedia/tty.c:184-211 | without scrolling, the k-th character stands in the cell k places on unless a later one has come round to it |
| TtyRuns.OtherCellsKeep | bsp/pic24f_mikromedia/tty.c:184-211 | a cell no character lands in keeps what it showed |
| TtyRuns.BackspaceTakesBack | bsp/pic24f_mikromedia/tty.c:220-227 | a backspace after a character that has not wrapped puts the cursor back and blanks the cell |
| TtyRuns.TabStopsShort | bsp/pic24f_mikromedia/tty.c:229-234 | from any column a tab never reaches the stop: it ends one column before it, counted around the row, and does nothing there |
| TtyRuns.ClearToEolLeavesTheRow | bsp/pic24f_mikromedia/tty.c:78-89 | in either build the right cells are cleared, on display and matrix, and the cursor goes down; it is in its row again if and only if there is one row or the last row has scrolled |
| TtyRuns.DisplayLagsOnlyByBlanks | bsp/pic24f_mikromedia/tty.c:236-249 | in the scrolling build each display cell shows the matrix or a blank |
| TtyRuns.DisplayAgreesIff | bsp/pic24f_mikromedia/tty.c:214-256 | with display and matrix equal, a character makes them differ if and only if it is a return or a new line and the matrix row it stands for is not blank from the cursor's column on |
| TtyRuns.NewLineClearsNothing | bsp/pic24f_mikromedia/tty.c:236-249 | after any text on a cleared scrolling terminal a new line only moves down: the row it clears is blank already |
| TtyRuns.WithoutReturnDisplayShowsMatrix | bsp/pic24f_mikromedia/tty.c:214-256 | on a cleared scrolling terminal any text without a return leaves display and matrix equal |
| TtyRuns.SecondReturnParts | bsp/pic24f_mikromedia/tty.c:241-249 | two letters and two returns leave a blank display over a matrix that holds the letters |
| TtyRuns.OffGridLosesOneCharacter | bsp/pic24f_mikromedia/tty.c:186-192 | from a cursor set off the grid a text is put from the upper left corner without its first character |
| TtyRuns.FirstCharacterLostIffOffGrid | bsp/pic24f_mikromedia/tty.c:184-211 | wherever the cursor is set, the first character cannot change the display if and only if the place is off the grid, or the last cell of a scrolling screen of one blank row |
| Flash.Storage.WriteSector | framework/driver/nvm/src/drv_nvm_flash_spi_m25p80.c:312-361 | programs within one page and reports exactly whether it reads back as sent |
| Flash.Storage.Write | framework/driver/nvm/src/drv_nvm_flash_spi_m25p80.c:386-427 | no page program crosses a page end; pages are written in order up to the first that fails |
| Flash.WrittenExactly | framework/driver/nvm/src/drv_nvm_flash_spi_m25p80.c:386-427 | a write programs every cell of its range, unless some cell of an earlier 256-byte page does not take its data: it gives up at the end of the first such page |
| Flash.Storage.SectorErase | framework/driver/nvm/src/drv_nvm_flash_spi_m25p80.c:528-554 | the sector of the address becomes 0xFF, nothing else changes |
| Flash.Storage.CopyAndReadBack | 5.4-Storage_Flash/main.c:63-102 | the copy loop with its sector counter, and the output of the read-back loop |
| Flash.FittingWriteStores | framework/driver/nvm/src/drv_nvm_flash_spi_m25p80.c:386-427 | where clearing bits can give the data, the data is stored |
| Flash.EraseEverySeventeenthPass | 5.4-Storage_Flash/main.c:85-88 | in every pass of the copy loop the sector counter is the address modulo 69632, so an erase is issued in every seventeenth pass |
| Flash.AfterCopy | 5.4-Storage_Flash/main.c:63-89 | what every cell of the chip holds after the copy: the file, 0xFF or, where its sector is not erased, the old contents programmed up to the page that does not take its data; beyond the file 0xFF or as it was |
| Flash.RoundTripIff | 5.4-Storage_Flash/main.c:63-102 | the file comes back if and only if it is 0xFF wherever its sector is erased late and the old contents leave room wherever it is not erased |
| Flash.OneSectorRoundTrips | 5.4-Storage_Flash/main.c:63-102 | up to 65536 bytes every file comes back from every previous contents |
| Flash.TailComesBackIffOldFits | 5.4-Storage_Flash/main.c:87-88 | up to 69632 bytes it comes back if and only if the old second sector leaves room for the tail |
| Flash.ChunkAfterSectorIsLost | 5.4-Storage_Flash/main.c:87-88 | beyond 69632 bytes, bytes 65536 to 69631 read back as 0xFF |

## Left out

- Tty.Terminal.CharPut: asks that a backspace be typed with the cursor on the grid or in the first column, because elsewhere the source makes the column negative and the next character is written outside the matrix.
- Tty.Terminal.StringPut: asks the same of every backspace in the string; on the grid that always holds.
- Tty.Terminal.CursorSet: takes no negative coordinates, for the same reason.
- Flash.Storage.CopyAndReadBack: asks for a file that fits on the chip and whose reads succeed, because beyond the chip the hardware decides and a failing read makes the source loop forever.
- Solari.PackedForeverIffOnGrid: asks for a step of at most 60, because a longer one can leap over the bytes that are not packed decimals; the firmware's steps are 1 and 10.
- Solari.InRangeForeverIffOnGrid: asks the same.
- Solari.Display.Set: asks for a valid time, because the source would index past its bitmaps otherwise.
- Grid.TouchGrid.SizeSet: asks for positive numbers of cells, because the source divides by them.
- Drawing of digits, tiles, fonts, icons and dates; circles are kept as a set, terminal cells as characters.
- Strings are sequences of characters without the terminating zero.
- Colours, centring and single cursor steps of the terminal, and the builds without wrapping or with overlay.
- Registers, pins, SPI framing, timers and delays, and the real-time clock itself.
- Background playback in the alarm clock: the same stream as in `Audio`, with leftovers kept across a rewind.
- Splash screens, file selection, calibration of the touch screen, and the remaining example programs.
- The graphics, file system, network, USB and cryptography libraries.
