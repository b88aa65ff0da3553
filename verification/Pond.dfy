/** The drop list of 4.Pond/main.c: rings grow from the places touched, in a bounded array that
    every frame updates and compacts in place. */
module Pond {
  import opened CInts

  const RADIUS: nat := 20
  const SPEED: nat := 20
  const MAX_LIST: nat := 20

  datatype Drop = Drop(x: nat, y: nat, r: nat)

  /** One call of the circle routine; colour 0 is black, the background. */
  datatype Circle = Circle(drop: Drop, colour: nat)

  /** The three touch readings a frame may take: the test, then the two coordinates. */
  datatype Sample = Sample(seen: int, x: int, y: int)

  predicate Touched(s: Sample) {
    s.seen != -1
  }

  function Fresh(s: Sample): Drop {
    Drop(Word(s.x), Word(s.y), RADIUS)
  }

  // ---------- one frame, in its simple form ----------

  function Arrive(list: seq<Drop>, s: Sample): seq<Drop> {
    if Touched(s) && |list| < MAX_LIST then list + [Fresh(s)] else list
  }

  function Grown(d: Drop): Drop {
    d.(r := Word(d.r + SPEED))
  }

  /** What is left of a drop once it has grown: nothing when it no longer fits. */
  function Surviving(d: Drop): seq<Drop> {
    if Grown(d).r < 256 then [Grown(d)] else []
  }

  /** Every drop grown, and those still visible kept in order. */
  function Survivors(list: seq<Drop>): (kept: seq<Drop>)
    ensures |kept| <= |list|
  {
    if list == [] then []
    else Survivors(list[..|list| - 1]) + Surviving(list[|list| - 1])
  }

  /** Black erases, any other colour paints; the blue of a ring fades as it grows and is stored
      in five bits. */
  function Repaint(d: Drop): seq<Circle> {
    if Grown(d).r < 256
    then [Circle(d, 0), Circle(Grown(d), (256 - Grown(d).r) / 8)]
    else [Circle(d, 0)]
  }

  /** The circle calls of a frame that finds the given list. */
  function FrameLog(list: seq<Drop>): seq<Circle> {
    if list == [] then []
    else FrameLog(list[..|list| - 1]) + Repaint(list[|list| - 1])
  }

  function Next(list: seq<Drop>, s: Sample): seq<Drop> {
    Survivors(Arrive(list, s))
  }

  lemma NoPrefix(list: seq<Drop>)
    ensures Survivors(list[..0]) == [] && FrameLog(list[..0]) == []
  {
  }

  lemma PrefixStep(list: seq<Drop>, i: nat)
    requires i < |list|
    ensures Survivors(list[..i + 1]) == Survivors(list[..i]) + Surviving(list[i])
    ensures FrameLog(list[..i + 1]) == FrameLog(list[..i]) + Repaint(list[i])
  {
    assert list[..i + 1][..i] == list[..i];
  }

  // ---------- the array and its two-pointer pass ----------

  class DropList {
    const drop: array<Drop>
    var listLen: nat
    ghost var log: seq<Circle>

    ghost predicate Valid()
      reads this
    {
      drop.Length == MAX_LIST && listLen <= MAX_LIST
    }

    ghost function List(): seq<Drop>
      requires Valid()
      reads this, drop
    {
      drop[..listLen]
    }

    constructor ()
      ensures Valid() && fresh(drop) && List() == [] && log == []
    {
      drop := new Drop[MAX_LIST](_ => Drop(0, 0, 0));
      listLen := 0;
      log := [];
    }

    /** The first half of a frame: a touch appends a drop unless the array is full. */
    method Append(s: Sample)
      requires Valid()
      modifies this`listLen, drop
      ensures Valid()
      ensures List() == Arrive(old(List()), s)
      ensures List() == old(List()) + if s.seen != -1 && |old(List())| < 20 then [Drop(Word(s.x), Word(s.y), 20)] else []
    {
      if s.seen != -1 {
        if listLen < MAX_LIST {
          drop[listLen] := Drop(Word(s.x), Word(s.y), RADIUS);
          listLen := listLen + 1;
        }
      }
    }

    method Enlarge(p: nat)
      requires p < drop.Length
      modifies drop
      ensures drop[p] == Grown(old(drop[p]))
      ensures forall j :: 0 <= j < drop.Length && j != p ==> drop[j] == old(drop[j])
    {
      drop[p] := drop[p].(r := Word(drop[p].r + SPEED));
    }

    /** Copies the fields of slot p down to slot t, unless they are the same slot. */
    method MoveDown(t: nat, p: nat)
      requires t <= p < drop.Length
      modifies drop
      ensures drop[t] == old(drop[p])
      ensures forall j :: 0 <= j < drop.Length && j != t ==> drop[j] == old(drop[j])
    {
      if t != p {
        drop[t] := Drop(drop[p].x, drop[p].y, drop[p].r);
      }
    }

    /** The second half of a frame.  For any contents of the array, updating in place while two
        pointers run over it does what growing and filtering the list does. */
    method Advance() returns (ghost calls: seq<Circle>)
      requires Valid()
      modifies this`listLen, drop
      ensures Valid()
      ensures List() == Survivors(old(List()))
      ensures calls == FrameLog(old(List()))
    {
      hide Survivors, FrameLog;
      ghost var list, kept := List(), [];
      var tempLen, p, t := 0, 0, 0;
      calls := [];
      NoPrefix(list);
      for i := 0 to listLen
        invariant Valid() && listLen == |list|
        invariant p == i && tempLen == t == |kept| <= i
        invariant kept == Survivors(list[..i]) && calls == FrameLog(list[..i])
        invariant forall j :: 0 <= j < t ==> drop[j] == kept[j]
        invariant forall j :: i <= j < listLen ==> drop[j] == list[j]
      {
        ghost var painted := [Circle(drop[p], 0)];
        Enlarge(p);
        if drop[p].r < 256 {
          MoveDown(t, p);
          painted := painted + [Circle(drop[t], (256 - drop[t].r) / 8)];
          t := t + 1;
          tempLen := tempLen + 1;
        }
        p := p + 1;
        kept := kept + Surviving(list[i]);
        assert painted == Repaint(list[i]);
        calls := calls + painted;
        PrefixStep(list, i);
      }
      assert list[..listLen] == list;
      listLen := tempLen;
      assert drop[..listLen] == kept;
    }

    /** One pass of the main loop. */
    method Frame(s: Sample)
      requires Valid()
      modifies this, drop
      ensures Valid()
      ensures List() == Next(old(List()), s)
      ensures log == old(log) + FrameLog(Arrive(old(List()), s))
    {
      Append(s);
      ghost var calls := Advance();
      log := log + calls;
    }

    /** The endless main loop, cut off after the given samples. */
    method Animate(samples: seq<Sample>)
      requires Valid() && List() == [] && log == []
      modifies this, drop
      ensures Valid()
      ensures List() == After(samples) && log == LogAfter(samples)
    {
      for i := 0 to |samples|
        invariant Valid()
        invariant List() == After(samples[..i]) && log == LogAfter(samples[..i])
      {
        assert samples[..i + 1][..i] == samples[..i];
        Frame(samples[i]);
      }
      assert samples[..|samples|] == samples;
    }
  }

  // ---------- whole runs ----------

  /** The list after a run of frames that starts with an empty pond. */
  function After(samples: seq<Sample>): seq<Drop> {
    if samples == [] then []
    else Next(After(samples[..|samples| - 1]), samples[|samples| - 1])
  }

  /** The list the last frame of the run works on. */
  function Arrived(samples: seq<Sample>): seq<Drop>
    requires samples != []
  {
    Arrive(After(samples[..|samples| - 1]), samples[|samples| - 1])
  }

  function LogAfter(samples: seq<Sample>): seq<Circle> {
    if samples == [] then []
    else LogAfter(samples[..|samples| - 1]) + FrameLog(Arrived(samples))
  }

  /** The ring of a tap, grown in each of the given number of frames. */
  function Ring(s: Sample, frames: nat): Drop {
    Drop(Word(s.x), Word(s.y), RADIUS + SPEED * frames)
  }

  /** The ring frame k's tap has become, if there was one; `late` is 1 before the last frame has
      grown it and 0 after. */
  function RingOf(samples: seq<Sample>, k: nat, late: nat): seq<Drop>
    requires late <= 1 && k < |samples|
  {
    if Touched(samples[k]) then [Ring(samples[k], |samples| - k - late)] else []
  }

  /** The rings of the taps from frame `from` on, in order of arrival. */
  function Rings(samples: seq<Sample>, from: nat, late: nat): (rings: seq<Drop>)
    requires late <= 1
    ensures |rings| <= if from <= |samples| then |samples| - from else 0
    decreases |samples| - from
  {
    if from >= |samples| then [] else RingOf(samples, from, late) + Rings(samples, from + 1, late)
  }

  /** The first frame whose tap can still be seen after n frames: eleven frames back. */
  function Oldest(n: nat): nat {
    if n <= 11 then 0 else n - 11
  }

  lemma {:induction false} SurvivorsAppend(a: seq<Drop>, b: seq<Drop>)
    ensures Survivors(a + b) == Survivors(a) + Survivors(b)
  {
    if b == [] {
      assert a + b == a;
    } else {
      var n := |b| - 1;
      assert (a + b)[..|a + b| - 1] == a + b[..n];
      SurvivorsAppend(a, b[..n]);
    }
  }

  /** With SurvivorsAppend this says for any list what a frame keeps of it: each drop, in its place,
      twenty larger in the machine's integers, if that is below 256. */
  lemma SurvivorsOfOne(d: Drop)
    ensures Survivors([d]) == if Word(d.r + 20) < 256 then [Drop(d.x, d.y, Word(d.r + 20))] else []
  {
    assert [d][..0] == [];
  }

  /** A new frame ages every ring by one and lets the new tap in. */
  lemma {:induction false} RingsAge(samples: seq<Sample>, s: Sample, from: nat)
    requires from <= |samples|
    ensures Rings(samples + [s], from, 1)
         == Rings(samples, from, 0) + if Touched(s) then [Fresh(s)] else []
    decreases |samples| - from
  {
    var all := samples + [s];
    if from < |samples| {
      RingsAge(samples, s, from + 1);
      assert all[from] == samples[from];
    } else {
      assert all[from] == s;
      assert Rings(all, from + 1, 1) == [];
    }
  }

  /** A ring is still visible as long as it has been grown at most eleven times. */
  lemma RingSurvives(samples: seq<Sample>, k: nat)
    requires k < |samples|
    ensures |samples| <= k + 11 ==> Survivors(RingOf(samples, k, 1)) == RingOf(samples, k, 0)
    ensures |samples| == k + 12 ==> Survivors(RingOf(samples, k, 1)) == []
  {
    var list := RingOf(samples, k, 1);
    if list != [] {
      assert list[..0] == [];
    }
  }

  /** All rings young enough survive. */
  lemma {:induction false} RingsSurvive(samples: seq<Sample>, from: nat)
    requires from <= |samples| <= from + 11
    ensures Survivors(Rings(samples, from, 1)) == Rings(samples, from, 0)
    decreases |samples| - from
  {
    if from < |samples| {
      RingsSurvive(samples, from + 1);
      RingSurvives(samples, from);
      SurvivorsAppend(RingOf(samples, from, 1), Rings(samples, from + 1, 1));
    }
  }

  /** The ring grown for the twelfth time, if there is one, goes; the others stay. */
  lemma OldestRetires(samples: seq<Sample>, from: nat)
    requires |samples| == from + 12
    ensures Survivors(Rings(samples, from, 1)) == Rings(samples, from + 1, 0)
  {
    RingsSurvive(samples, from + 1);
    RingSurvives(samples, from);
    SurvivorsAppend(RingOf(samples, from, 1), Rings(samples, from + 1, 1));
  }

  lemma ArrivedRings(before: seq<Sample>, s: Sample)
    requires After(before) == Rings(before, Oldest(|before|), 0)
    ensures Arrived(before + [s]) == Rings(before + [s], Oldest(|before|), 1)
  {
    assert (before + [s])[..|before|] == before;
    RingsAge(before, s, Oldest(|before|));
  }

  /** Main theorem: after any run the list holds, in order of arrival, the taps of the last
      eleven frames, each with the radius its age gives it.  In particular no tap is refused. */
  lemma {:induction false} PondIsAWindow(samples: seq<Sample>)
    ensures After(samples) == Rings(samples, Oldest(|samples|), 0)
  {
    if samples != [] {
      var n := |samples| - 1;
      assert samples == samples[..n] + [samples[n]];
      PondIsAWindow(samples[..n]);
      WindowMoves(samples[..n], samples[n]);
    }
  }

  lemma AfterSurvives(samples: seq<Sample>)
    requires samples != []
    ensures After(samples) == Survivors(Arrived(samples))
  {
  }

  lemma WindowMoves(before: seq<Sample>, s: Sample)
    requires After(before) == Rings(before, Oldest(|before|), 0)
    ensures After(before + [s]) == Rings(before + [s], Oldest(|before| + 1), 0)
  {
    hide After, Arrived, Rings, Survivors;
    var samples := before + [s];
    ArrivedRings(before, s);
    AfterSurvives(samples);
    if |before| < 11 {
      RingsSurvive(samples, Oldest(|before|));
    } else {
      OldestRetires(samples, Oldest(|before|));
    }
  }

  // ---------- what follows for the list ----------

  /** Radii are multiples of the speed, at least `low` and at most 240, and strictly decrease from
      the oldest drop on. */
  ghost predicate Spread(list: seq<Drop>, low: nat) {
    && (forall i :: 0 <= i < |list| ==> low <= list[i].r <= 240 && list[i].r % 20 == 0)
    && (forall i, j :: 0 <= i < j < |list| ==> list[i].r > list[j].r)
  }

  lemma SpreadPrepend(head: seq<Drop>, rest: seq<Drop>, low: nat, r: nat)
    requires Spread(rest, low) && forall d :: d in rest ==> d.r < r
    requires |head| <= 1 && low <= r <= 240 && r % 20 == 0 && forall d :: d in head ==> d.r == r
    ensures Spread(head + rest, low)
  {
    var all := head + rest;
    assert forall i :: |head| <= i < |all| ==> all[i] in rest;
    forall i, j | 0 <= i < j < |all| ensures all[i].r > all[j].r {
      if i >= |head| {
        assert rest[i - |head|].r > rest[j - |head|].r;
      }
    }
  }

  lemma RingOfRadius(samples: seq<Sample>, k: nat, late: nat)
    requires late <= 1 && k < |samples|
    ensures |RingOf(samples, k, late)| <= 1
    ensures forall d :: d in RingOf(samples, k, late) ==> d.r == 20 + 20 * (|samples| - k - late)
  {
  }

  lemma {:induction false} RingsSpread(samples: seq<Sample>, from: nat, late: nat)
    requires late <= 1 && from <= |samples| <= from + 11 + late
    ensures Spread(Rings(samples, from, late), 40 - 20 * late)
    ensures forall d :: d in Rings(samples, from, late) ==> d.r <= 20 + 20 * (|samples| - from - late)
    decreases |samples| - from
  {
    hide Spread, RingOf, Rings;
    RingsFrom(samples, from, late);
    if from < |samples| {
      RingOfRadius(samples, from, late);
      RingsSpread(samples, from + 1, late);
      var r := 20 + 20 * (|samples| - from - late);
      SpreadPrepend(RingOf(samples, from, late), Rings(samples, from + 1, late), 40 - 20 * late, r);
    } else {
      NoneSpread(40 - 20 * late);
    }
  }

  lemma RingsFrom(samples: seq<Sample>, from: nat, late: nat)
    requires late <= 1
    ensures Rings(samples, from, late)
         == if from >= |samples| then [] else RingOf(samples, from, late) + Rings(samples, from + 1, late)
  {
  }

  lemma NoneSpread(low: nat)
    ensures Spread([], low)
  {
  }

  /** In every reachable state at the top of the loop there are at most eleven drops, so the guard
      on the list length never refuses a tap, and the radii are strictly decreasing multiples of 20
      between 40 and 240. */
  lemma CapacityNeverHit(samples: seq<Sample>, tap: Sample)
    ensures Spread(After(samples), 40)
    ensures |After(samples)| <= 11 < MAX_LIST
    ensures Touched(tap) ==> Arrive(After(samples), tap) == After(samples) + [Fresh(tap)]
  {
    PondIsAWindow(samples);
    RingsSpread(samples, Oldest(|samples|), 0);
  }

  lemma ArrivedSpread(samples: seq<Sample>)
    requires samples != []
    ensures Spread(Arrived(samples), 20)
  {
    var n := |samples| - 1;
    assert samples == samples[..n] + [samples[n]];
    PondIsAWindow(samples[..n]);
    ArrivedRings(samples[..n], samples[n]);
    RingsSpread(samples, Oldest(n), 1);
  }

  function GrowAll(list: seq<Drop>): seq<Drop> {
    if list == [] then [] else GrowAll(list[..|list| - 1]) + [Grown(list[|list| - 1])]
  }

  lemma {:induction false} SmallOnesSurvive(list: seq<Drop>)
    requires forall d :: d in list ==> d.r < 236
    ensures Survivors(list) == GrowAll(list)
  {
    if list != [] {
      SmallOnesSurvive(list[..|list| - 1]);
    }
  }

  lemma HeadRetires(d: Drop, rest: seq<Drop>)
    requires d.r == 240 && forall e :: e in rest ==> e.r < 236
    ensures Survivors([d] + rest) == GrowAll(rest)
  {
    SurvivorsAppend([d], rest);
    assert [d][..0] == [];
    assert Survivors([d]) == [];
    SmallOnesSurvive(rest);
  }

  lemma OnlyOldestRetires(list: seq<Drop>)
    requires Spread(list, 20)
    ensures list != [] && list[0].r == 240 ==> Survivors(list) == GrowAll(list[1..])
    ensures list == [] || list[0].r < 240 ==> Survivors(list) == GrowAll(list)
  {
    if list != [] && list[0].r == 240 {
      HeadRetires(list[0], list[1..]);
      assert list == [list[0]] + list[1..];
    } else {
      SmallOnesSurvive(list);
    }
  }

  /** A frame retires at most one drop, the oldest, and grows all the others. */
  lemma FrameRetiresAtMostOldest(samples: seq<Sample>)
    requires samples != []
    ensures var list := Arrived(samples);
            || After(samples) == GrowAll(list)
            || (list != [] && list[0].r == 240 && After(samples) == GrowAll(list[1..]))
  {
    ArrivedSpread(samples);
    OnlyOldestRetires(Arrived(samples));
  }

  // ---------- what is on the screen ----------

  /** The circles showing after some more circle calls. */
  function ShowOn(screen: set<Drop>, log: seq<Circle>): set<Drop> {
    if log == [] then screen
    else
      var c := log[|log| - 1];
      var s := ShowOn(screen, log[..|log| - 1]);
      if c.colour == 0 then s - {c.drop} else s + {c.drop}
  }

  /** The drops painted, in order. */
  function Painted(log: seq<Circle>): seq<Drop> {
    if log == [] then []
    else
      var c := log[|log| - 1];
      Painted(log[..|log| - 1]) + if c.colour == 0 then [] else [c.drop]
  }

  ghost function Members(list: seq<Drop>): set<Drop> {
    set d | d in list
  }

  /** The drops that an earlier frame has drawn. */
  ghost function Drawn(list: seq<Drop>): set<Drop> {
    set d | d in list && d.r >= 40
  }

  lemma {:induction false} ShowOnAppend(screen: set<Drop>, a: seq<Circle>, b: seq<Circle>)
    ensures ShowOn(screen, a + b) == ShowOn(ShowOn(screen, a), b)
  {
    if b == [] {
      assert a + b == a;
    } else {
      var n := |b| - 1;
      assert (a + b)[..|a + b| - 1] == a + b[..n];
      ShowOnAppend(screen, a, b[..n]);
    }
  }

  lemma {:induction false} PaintedAppend(a: seq<Circle>, b: seq<Circle>)
    ensures Painted(a + b) == Painted(a) + Painted(b)
  {
    if b == [] {
      assert a + b == a;
    } else {
      var n := |b| - 1;
      assert (a + b)[..|a + b| - 1] == a + b[..n];
      PaintedAppend(a, b[..n]);
    }
  }

  /** A ring that survives is erased at its old size and painted, never black, at its new one. */
  lemma RepaintShows(screen: set<Drop>, d: Drop)
    requires d.r <= 240 && d.r % 20 == 0
    ensures ShowOn(screen, Repaint(d)) == (screen - {d}) + Members(Surviving(d))
    ensures Painted(Repaint(d)) == Surviving(d)
  {
    hide ShowOn, Painted;
    var erase := [Circle(d, 0)];
    OneCall(screen, Circle(d, 0));
    if Grown(d).r < 256 {
      var paint := Circle(Grown(d), (256 - Grown(d).r) / 8);
      assert paint.colour >= 2;
      OneCall(screen - {d}, paint);
      assert Repaint(d) == erase + [paint];
      ShowOnAppend(screen, erase, [paint]);
      PaintedAppend(erase, [paint]);
    }
  }

  lemma OneCall(screen: set<Drop>, c: Circle)
    ensures ShowOn(screen, [c]) == if c.colour == 0 then screen - {c.drop} else screen + {c.drop}
    ensures Painted([c]) == if c.colour == 0 then [] else [c.drop]
  {
    assert [c][..0] == [];
  }

  lemma SurvivingIsBigger(d: Drop, r: nat)
    requires r < d.r <= 240
    ensures forall e :: e in Surviving(d) ==> e.r > r + 20
  {
  }

  lemma SpreadLast(list: seq<Drop>, low: nat)
    requires Spread(list, low) && list != []
    ensures Spread(list[..|list| - 1], low) && list[|list| - 1].r <= 240
  {
  }

  lemma {:induction false} SurvivorsAreBigger(list: seq<Drop>, r: nat)
    requires Spread(list, 20) && forall d :: d in list ==> d.r > r
    ensures forall d :: d in Survivors(list) ==> d.r > r + 20
  {
    hide Spread, Surviving;
    if list != [] {
      SpreadLast(list, 20);
      SurvivorsAreBigger(list[..|list| - 1], r);
      SurvivingIsBigger(list[|list| - 1], r);
    }
  }

  /** Erasing a drop that is not among the kept ones nor among the rest, and painting what is
      left of it, moves it from the rest to the kept. */
  lemma ScreenStep(kept: seq<Drop>, d: Drop, rest: seq<Drop>)
    requires d !in kept && d !in rest
    ensures ((Members(kept) + Drawn([d] + rest)) - {d}) + Members(Surviving(d))
         == Members(kept + Surviving(d)) + Drawn(rest)
  {
  }

  lemma DropIsNew(list: seq<Drop>, i: nat)
    requires Spread(list, 20) && i < |list|
    ensures list[i..] == [list[i]] + list[i + 1..]
    ensures list[i] !in list[i + 1..] && list[i] !in Survivors(list[..i])
  {
    SurvivorsAreBigger(list[..i], list[i].r);
  }

  lemma FrameStep(list: seq<Drop>, i: nat)
    requires Spread(list, 20) && i < |list|
    ensures ShowOn(Drawn(list), FrameLog(list[..i + 1]))
         == (ShowOn(Drawn(list), FrameLog(list[..i])) - {list[i]}) + Members(Surviving(list[i]))
  {
    PrefixStep(list, i);
    ShowOnAppend(Drawn(list), FrameLog(list[..i]), Repaint(list[i]));
    RepaintShows(ShowOn(Drawn(list), FrameLog(list[..i])), list[i]);
  }

  lemma NothingShown(list: seq<Drop>)
    ensures ShowOn(Drawn(list), FrameLog(list[..0])) == Members(Survivors(list[..0])) + Drawn(list[0..])
  {
    assert list[0..] == list;
  }

  lemma {:induction false} FrameShows(list: seq<Drop>, i: nat)
    requires Spread(list, 20) && i <= |list|
    ensures ShowOn(Drawn(list), FrameLog(list[..i])) == Members(Survivors(list[..i])) + Drawn(list[i..])
  {
    hide ShowOn, FrameLog, Survivors, Spread, Drawn, Members, Surviving;
    if i == 0 {
      NothingShown(list);
    } else {
      var d, kept := list[i - 1], Survivors(list[..i - 1]);
      FrameShows(list, i - 1);
      FrameStep(list, i - 1);
      PrefixStep(list, i - 1);
      DropIsNew(list, i - 1);
      ScreenStep(kept, d, list[i..]);
    }
  }

  lemma {:induction false} FramePaints(list: seq<Drop>)
    requires Spread(list, 20)
    ensures Painted(FrameLog(list)) == Survivors(list)
  {
    if list != [] {
      var n := |list| - 1;
      FramePaints(list[..n]);
      PaintedAppend(FrameLog(list[..n]), Repaint(list[n]));
      RepaintShows({}, list[n]);
    }
  }

  /** A frame that starts with exactly the drawn drops on the screen ends with exactly the
      survivors there. */
  lemma FrameKeepsScreen(list: seq<Drop>)
    requires Spread(list, 20)
    ensures ShowOn(Drawn(list), FrameLog(list)) == Members(Survivors(list))
  {
    FrameShows(list, |list|);
    assert list[..|list|] == list && list[|list|..] == [];
  }

  lemma NewDropNotDrawn(before: seq<Drop>, s: Sample)
    requires Spread(before, 40)
    ensures Drawn(Arrive(before, s)) == Members(before)
  {
  }

  /** Main theorem: after every frame of every run the circles on the screen are exactly the live
      drops, and the frame has painted each of them once, oldest first. */
  lemma {:induction false} ScreenShowsTheDrops(samples: seq<Sample>)
    ensures ShowOn({}, LogAfter(samples)) == Members(After(samples))
    ensures samples != [] ==> Painted(FrameLog(Arrived(samples))) == After(samples)
  {
    if samples != [] {
      var n := |samples| - 1;
      var list := Arrived(samples);
      ScreenShowsTheDrops(samples[..n]);
      ArrivedSpread(samples);
      CapacityNeverHit(samples[..n], samples[n]);
      NewDropNotDrawn(After(samples[..n]), samples[n]);
      FrameKeepsScreen(list);
      FramePaints(list);
      ShowOnAppend({}, LogAfter(samples[..n]), FrameLog(list));
    }
  }

  lemma {:induction false} RingPresent(samples: seq<Sample>, from: nat, k: nat)
    requires from <= k < |samples| && Touched(samples[k])
    ensures Ring(samples[k], |samples| - k) in Rings(samples, from, 0)
    decreases k - from
  {
    if from < k {
      RingPresent(samples, from + 1, k);
    }
  }

  /** Main theorem: the tap of frame k is painted in exactly eleven consecutive frames, its own and
      the ten after it, with radii 40, 60, ... up to 240. */
  lemma TapLivesElevenFrames(samples: seq<Sample>, k: nat)
    requires k < |samples| && Touched(samples[k])
    ensures Ring(samples[k], |samples| - k) in Painted(FrameLog(Arrived(samples)))
        <==> |samples| - k <= 11
  {
    ScreenShowsTheDrops(samples);
    PondIsAWindow(samples);
    CapacityNeverHit(samples, samples[k]);
    if |samples| - k <= 11 {
      RingPresent(samples, Oldest(|samples|), k);
    }
  }

  // ---------- fading ----------

  /** The blue of a ring of radius r, as the display stores it: 256 less the radius, in five bits. */
  ghost predicate Faded(c: Circle) {
    c.colour != 0 ==> c.drop.r < 256 && c.colour == (256 - c.drop.r) / 8
  }

  lemma {:induction false} FrameFades(list: seq<Drop>)
    ensures forall c :: c in FrameLog(list) ==> Faded(c)
  {
    if list != [] {
      FrameFades(list[..|list| - 1]);
    }
  }

  lemma {:induction false} PaintedByCall(log: seq<Circle>, d: Drop)
    ensures d in Painted(log) <==> exists c :: c in log && c.drop == d && c.colour != 0
  {
    if log != [] {
      var rest, last := log[..|log| - 1], log[|log| - 1];
      PaintedByCall(rest, d);
      assert log == rest + [last];
      if d in Painted(log) && d !in Painted(rest) {
        assert last in log && last.drop == d && last.colour != 0;
      }
    }
  }

  lemma FadedColour(log: seq<Circle>, d: Drop, colour: nat)
    requires forall c :: c in log ==> Faded(c)
    requires colour != 0
    ensures Circle(d, colour) in log <==> d in Painted(log) && colour == (256 - d.r) / 8
  {
    hide Painted;
    PaintedByCall(log, d);
    if Circle(d, colour) in log {
      assert Faded(Circle(d, colour));
    }
    if d in Painted(log) {
      var c :| c in log && c.drop == d && c.colour != 0;
      assert Faded(c) && c == Circle(d, (256 - d.r) / 8);
    }
  }

  /** Main theorem: a tap's ring fades as it grows.  Painted for the age-th time, it is the ring of
      radius 20 + 20 * age in the blue of 236 - 20 * age, and it is painted like that exactly up to the
      age of eleven frames. */
  lemma RingFades(samples: seq<Sample>, k: nat, colour: nat)
    requires k < |samples| && Touched(samples[k]) && colour != 0
    ensures var age := |samples| - k;
            Circle(Drop(Word(samples[k].x), Word(samples[k].y), 20 + 20 * age), colour) in FrameLog(Arrived(samples))
            <==> age <= 11 && colour == (236 - 20 * age) / 8
  {
    hide Painted, FrameLog, Arrived, Faded, Word, Touched;
    TapLivesElevenFrames(samples, k);
    FrameFades(Arrived(samples));
    FadedColour(FrameLog(Arrived(samples)), Ring(samples[k], |samples| - k), colour);
  }
}
