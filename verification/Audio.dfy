/** Interrupt-driven playback: the timer callback of 6.4-Sound_Interrupt/main.c that feeds a file
    to the audio codec, with CODEC_Feed and CODEC_Flush of bsp/pic24f_mikromedia/vs1053.c.
    The data-request pin and the card are the environment: the pin's value each time it is looked
    at, and how many bytes each read of the card can deliver, are arbitrary. */
module Audio {
  import opened CInts

  const CHUNK: nat := 512
  const BURST: nat := 32
  const FLUSH: nat := 2048

  /** The song, the request pin at its n-th sampling, and the most the n-th read can deliver. */
  datatype Env = Env(file: seq<byte>, dreq: nat -> bool, card: nat -> nat)

  /** What persists between two callbacks: the file position, the loaded bytes not yet sent, the
      play flag, all the codec has received, and how often pin and card have been used. */
  datatype Stream = Stream(pos: nat, unsent: seq<byte>, playing: bool, received: seq<byte>,
                           polls: nat, loads: nat)

  /** The pin asks for data again and again. */
  ghost predicate Fair(dreq: nat -> bool) {
    forall n: nat :: AsksAfter(dreq, n)
  }

  ghost predicate AsksAfter(dreq: nat -> bool, n: nat) {
    exists m: nat :: n <= m && dreq(m)
  }

  /** Every read delivers all it is asked for, short only at the end of the file. */
  ghost predicate GoodCard(e: Env) {
    forall n: nat :: e.card(n) >= CHUNK
  }

  // ---------- one callback, in its simple form ----------

  function ReadSize(e: Env, s: Stream): nat
    requires s.pos <= |e.file|
  {
    Min(Min(CHUNK, |e.file| - s.pos), e.card(s.loads))
  }

  /** An empty buffer is loaded from the card. */
  function Loaded(e: Env, s: Stream): (t: Stream)
    requires s.pos <= |e.file|
    ensures t.pos <= |e.file|
  {
    if s.unsent == [] then
      var n := ReadSize(e, s);
      s.(pos := s.pos + n, unsent := e.file[s.pos..s.pos + n], loads := s.loads + 1)
    else s
  }

  /** The pin asked: one burst goes out. */
  function Fed(s: Stream): Stream {
    var n := Min(BURST, |s.unsent|);
    s.(unsent := s.unsent[n..], received := s.received + s.unsent[..n], polls := s.polls + 1)
  }

  function Zeros(n: nat): (z: seq<byte>)
    ensures |z| == n && forall i :: 0 <= i < n ==> z[i] == 0
  {
    seq(n, i => 0)
  }

  /** The first time from n on that the pin asks. */
  ghost function NextRequest(dreq: nat -> bool, n: nat): (m: nat)
    requires Fair(dreq)
    ensures n <= m && dreq(m) && forall k: nat :: n <= k < m ==> !dreq(k)
  {
    assert AsksAfter(dreq, n);
    var w: nat :| n <= w && dreq(w);
    FirstRequest(dreq, n, w)
  }

  ghost function FirstRequest(dreq: nat -> bool, n: nat, w: nat): (m: nat)
    requires n <= w && dreq(w)
    ensures n <= m <= w && dreq(m) && forall k: nat :: n <= k < m ==> !dreq(k)
    decreases w - n
  {
    if dreq(n) then n else FirstRequest(dreq, n + 1, w)
  }

  /** How often the pin has been sampled once a number of bytes has been sent, each after a wait. */
  ghost function WaitedFor(dreq: nat -> bool, polls: nat, bytes: nat): nat
    requires Fair(dreq)
  {
    if bytes == 0 then polls else NextRequest(dreq, WaitedFor(dreq, polls, bytes - 1)) + 1
  }

  /** The end of the file: the codec is flushed and playing stops. */
  ghost function Stopped(e: Env, s: Stream): Stream
    requires Fair(e.dreq)
  {
    s.(playing := false, received := s.received + Zeros(FLUSH), polls := WaitedFor(e.dreq, s.polls, FLUSH))
  }

  ghost function Feeding(e: Env, s: Stream): (t: Stream)
    requires Fair(e.dreq) && s.pos <= |e.file|
    ensures t.pos <= |e.file|
    decreases |e.file| - s.pos + |s.unsent|
  {
    var l := Loaded(e, s);
    if l.unsent == [] then Stopped(e, l)
    else if e.dreq(l.polls) then Feeding(e, Fed(l))
    else l.(polls := l.polls + 1)
  }

  ghost function Tick(e: Env, s: Stream): (t: Stream)
    requires Fair(e.dreq) && s.pos <= |e.file|
    ensures t.pos <= |e.file|
  {
    if s.playing then Feeding(e, s) else s
  }

  // ---------- the callback and its persistent variables ----------

  class Player {
    ghost const e: Env
    const file: seq<byte>
    const dreq: nat -> bool
    const card: nat -> nat
    var pos: nat
    var loads: nat
    var polls: nat
    var received: seq<byte>
    var fPlay: bool
    var length: nat
    const buffer: array<byte>
    var p: nat

    ghost predicate Valid()
      reads this
    {
      && e == Env(file, dreq, card) && Fair(dreq)
      && buffer.Length == CHUNK && p + length <= CHUNK && pos <= |file|
    }

    ghost function State(): Stream
      requires Valid()
      reads this, buffer
    {
      Stream(pos, buffer[p..p + length], fPlay, received, polls, loads)
    }

    /** Power-up: the statics are zero, the file has been opened, playing has been switched on. */
    constructor (file: seq<byte>, dreq: nat -> bool, card: nat -> nat)
      requires Fair(dreq)
      ensures Valid() && fresh(buffer) && e == Env(file, dreq, card)
      ensures State() == Stream(0, [], true, [], 0, 0)
    {
      this.e := Env(file, dreq, card);
      this.file, this.dreq, this.card := file, dreq, card;
      pos, loads, polls, length, p := 0, 0, 0, 0, 0;
      received := [];
      fPlay := true;
      buffer := new byte[CHUNK](_ => 0);
    }

    /** The card read: copies the next bytes of the file to the front of the buffer. */
    method Read() returns (n: nat)
      requires Valid()
      modifies this`pos, this`loads, buffer
      ensures Valid()
      ensures n == ReadSize(e, old(State())) && pos == old(pos) + n <= |file| && loads == old(loads) + 1
      ensures buffer[..n] == file[old(pos)..pos]
    {
      n := Min(Min(CHUNK, |file| - pos), card(loads));
      for i := 0 to n
        modifies buffer
        invariant buffer[..i] == file[pos..pos + i]
      {
        buffer[i] := file[pos + i];
      }
      pos := pos + n;
      loads := loads + 1;
    }

    method Write(b: byte)
      modifies this`received
      ensures received == old(received) + [b]
    {
      received := received + [b];
    }

    method Dreq() returns (high: bool)
      modifies this`polls
      ensures polls == old(polls) + 1 && high == dreq(old(polls))
    {
      high := dreq(polls);
      polls := polls + 1;
    }

    /** Sends one burst.  The loop sends before it looks at the counter, so it must not be entered
        with nothing to send. */
    method Feed()
      requires Valid() && length > 0
      modifies this`p, this`length, this`received
      ensures Valid()
      ensures State() == Fed(old(State())).(polls := polls) && length < old(length)
      ensures length == old(length) - Min(32, old(length))
      ensures received == old(received) + old(buffer[p..p + Min(32, length)])
    {
      ghost var unsent := State().unsent;
      var i := 0;
      while i < 32
        invariant Valid()
        invariant 0 <= i <= 32 && i < |unsent| && p == old(p) + i && length == |unsent| - i
        invariant received == old(received) + unsent[..i]
      {
        assert unsent[..i] + [buffer[p]] == unsent[..i + 1];
        Write(buffer[p]);
        p := p + 1;
        length := length - 1;
        i := i + 1;
        if length == 0 {
          break;
        }
      }
      assert i == Min(BURST, |unsent|);
      assert State().unsent == unsent[i..];
    }

    method Flush()
      requires Valid()
      modifies this`received, this`polls
      ensures Valid()
      ensures State() == Stopped(e, old(State())).(playing := fPlay)
      ensures received == old(received) + Zeros(2048)
      ensures Requests(dreq, polls) == Requests(dreq, old(polls)) + 2048 && polls > old(polls) && dreq(polls - 1)
    {
      hide Requests, NextRequest;
      ghost var zeros := [];
      for i := 0 to 2048
        invariant zeros == Zeros(i) && received == old(received) + zeros
        invariant polls == WaitedFor(dreq, old(polls), i)
      {
        WaitForRequest();
        Write(0);
        zeros := zeros + [0];
      }
      WaitedForRequests(dreq, old(polls), FLUSH);
    }

    /** The busy wait on the pin. */
    method WaitForRequest()
      requires Valid()
      modifies this`polls
      ensures polls == NextRequest(dreq, old(polls)) + 1
    {
      ghost var next := NextRequest(dreq, polls);
      var ready := Dreq();
      while !ready
        invariant polls <= next + 1 && (ready <==> polls == next + 1)
        decreases next + 1 - polls
      {
        ready := Dreq();
      }
    }

    /** Makes sure something is loaded, unless the card has nothing more to give. */
    method Load()
      requires Valid()
      modifies this`pos, this`loads, this`length, this`p, buffer
      ensures Valid()
      ensures State() == Loaded(e, old(State())) && length - pos == old(length - pos)
    {
      if length == 0 {
        length := Read();
        p := 0;
      }
    }

    /** One look at the pin by the callback itself. */
    method Hungry() returns (high: bool)
      requires Valid()
      modifies this`polls
      ensures Valid()
      ensures State() == old(State()).(polls := old(polls) + 1) && high == dreq(old(polls))
    {
      high := Dreq();
    }

    method StopPlaying()
      requires Valid()
      modifies this`fPlay
      ensures Valid() && !fPlay
      ensures State() == old(State()).(playing := false)
    {
      fPlay := false;
    }

    /** One timer tick. */
    method CallBack()
      requires Valid()
      modifies this, buffer
      ensures Valid()
      ensures State() == Tick(e, old(State()))
    {
      hide Loaded, Zeros, WaitedFor;
      if !fPlay {
        return;
      }
      while true
        invariant Valid() && fPlay
        invariant Feeding(e, State()) == Feeding(e, old(State()))
        decreases |file| - pos + length
      {
        ghost var s := State();
        Load();
        ghost var l := State();
        if length == 0 {
          Flush();
          StopPlaying();
          return;
        }
        var hungry := Hungry();
        if hungry {
          Feed();
          assert State() == Fed(l);
        } else {
          return;
        }
      }
    }
  }

  // ---------- whole playbacks ----------

  const START: Stream := Stream(0, [], true, [], 0, 0)

  ghost function Ticks(e: Env, n: nat): (s: Stream)
    requires Fair(e.dreq)
    ensures s.pos <= |e.file|
  {
    if n == 0 then START else Tick(e, Ticks(e, n - 1))
  }

  /** What the codec has received, followed by what waits in the buffer, is what has been read of
      the file; once stopped, that is followed by the flush and nothing waits. */
  ghost predicate Conserved(e: Env, s: Stream) {
    && s.pos <= |e.file|
    && (s.playing ==> s.received + s.unsent == e.file[..s.pos])
    && (!s.playing ==> s.unsent == [] && s.received == e.file[..s.pos] + Zeros(FLUSH))
  }

  lemma LoadConserves(e: Env, s: Stream)
    requires Conserved(e, s) && s.playing
    ensures Conserved(e, Loaded(e, s)) && Loaded(e, s).playing
  {
    if s.unsent == [] {
      var n := ReadSize(e, s);
      assert e.file[..s.pos + n] == e.file[..s.pos] + e.file[s.pos..s.pos + n];
      assert s.received + [] == s.received;
    }
  }

  lemma FeedConserves(e: Env, s: Stream)
    requires Conserved(e, s) && s.playing
    ensures Conserved(e, Fed(s)) && Fed(s).playing
  {
    var n := Min(BURST, |s.unsent|);
    assert s.unsent == s.unsent[..n] + s.unsent[n..];
    assert s.received + s.unsent == (s.received + s.unsent[..n]) + s.unsent[n..];
  }

  lemma {:induction false} FeedingConserves(e: Env, s: Stream)
    requires Fair(e.dreq) && Conserved(e, s) && s.playing
    ensures Conserved(e, Feeding(e, s))
    decreases |e.file| - s.pos + |s.unsent|
  {
    LoadConserves(e, s);
    var l := Loaded(e, s);
    if l.unsent == [] {
      assert l.received + [] == l.received;
    } else if e.dreq(l.polls) {
      FeedConserves(e, l);
      FeedingConserves(e, Fed(l));
    }
  }

  /** Main theorem, for every file, pin schedule and card: no byte is lost, repeated or reordered,
      and when playing has stopped the codec got what was read plus one flush of zeros. */
  lemma {:induction false} StreamConserved(e: Env, n: nat)
    requires Fair(e.dreq)
    ensures Conserved(e, Ticks(e, n))
  {
    if n > 0 {
      StreamConserved(e, n - 1);
      var s := Ticks(e, n - 1);
      if s.playing {
        FeedingConserves(e, s);
      }
    }
  }

  // ---------- rate ----------

  /** A callback sends at most one burst for every look at the pin. */
  lemma {:induction false} AtMostABurstPerPoll(e: Env, s: Stream)
    requires Fair(e.dreq) && s.pos <= |e.file|
    ensures var t := Feeding(e, s);
            |s.received| <= |t.received| <= |s.received| + 32 * (t.polls - s.polls)
    decreases |e.file| - s.pos + |s.unsent|
  {
    var l := Loaded(e, s);
    if l.unsent == [] {
      WaitedForRequests(e.dreq, l.polls, FLUSH);
    } else if e.dreq(l.polls) {
      AtMostABurstPerPoll(e, Fed(l));
    }
  }

  /** How often the pin has asked in the first n samplings. */
  function Requests(dreq: nat -> bool, n: nat): nat {
    if n == 0 then 0 else Requests(dreq, n - 1) + if dreq(n - 1) then 1 else 0
  }

  /** All looks at the pin from p up to q were requests. */
  predicate AllRequests(dreq: nat -> bool, p: nat, q: nat) {
    forall k: nat :: p <= k < q ==> dreq(k)
  }

  lemma {:induction false} NoRequestBetween(dreq: nat -> bool, m: nat, n: nat)
    requires m <= n && forall k: nat :: m <= k < n ==> !dreq(k)
    ensures Requests(dreq, n) == Requests(dreq, m)
    decreases n
  {
    if m < n {
      NoRequestBetween(dreq, m, n - 1);
    }
  }

  /** Every byte sent with a wait has its own request of the pin, and the last look is one. */
  lemma {:induction false} WaitedForRequests(dreq: nat -> bool, polls: nat, bytes: nat)
    requires Fair(dreq)
    ensures WaitedFor(dreq, polls, bytes) >= polls + bytes
    ensures Requests(dreq, WaitedFor(dreq, polls, bytes)) == Requests(dreq, polls) + bytes
    ensures bytes > 0 ==> dreq(WaitedFor(dreq, polls, bytes) - 1)
  {
    if bytes > 0 {
      WaitedForRequests(dreq, polls, bytes - 1);
      var before := WaitedFor(dreq, polls, bytes - 1);
      NoRequestBetween(dreq, before, NextRequest(dreq, before));
    }
  }

  /** What the pin said during a callback that started at look p and left off at look q: it asked
      every time but the last, if playing goes on.  If it has stopped, the pin asked every time up to
      some look m, and then exactly as often as the flush has bytes, the last time for the last byte. */
  ghost predicate FollowsPin(e: Env, p: nat, t: Stream) {
    if t.playing then p < t.polls && AllRequests(e.dreq, p, t.polls - 1) && !e.dreq(t.polls - 1)
    else exists m: nat :: FlushedFrom(e, p, m, t.polls)
  }

  ghost predicate FlushedFrom(e: Env, p: nat, m: nat, q: nat) {
    && p <= m < q && AllRequests(e.dreq, p, m)
    && Requests(e.dreq, q) == Requests(e.dreq, m) + 2048 && e.dreq(q - 1)
  }

  lemma {:induction false} FeedingFollowsPin(e: Env, s: Stream)
    requires Fair(e.dreq) && s.pos <= |e.file| && s.playing
    ensures FollowsPin(e, s.polls, Feeding(e, s))
    decreases |e.file| - s.pos + |s.unsent|
  {
    hide Zeros, WaitedFor, Requests;
    var l := Loaded(e, s);
    if l.unsent == [] {
      WaitedForRequests(e.dreq, l.polls, FLUSH);
      assert FlushedFrom(e, s.polls, l.polls, Feeding(e, s).polls);
    } else if e.dreq(l.polls) {
      FeedingFollowsPin(e, Fed(l));
      PinAskedBefore(e, s.polls, Feeding(e, Fed(l)));
    }
  }

  lemma PinAskedBefore(e: Env, p: nat, t: Stream)
    requires e.dreq(p) && FollowsPin(e, p + 1, t)
    ensures FollowsPin(e, p, t)
  {
    if !t.playing {
      var m: nat :| FlushedFrom(e, p + 1, m, t.polls);
      assert FlushedFrom(e, p, m, t.polls);
    }
  }

  /** Main theorem: every tick that plays feeds the codec until the pin refuses, and no further; the
      tick that ends the song sends each byte of the flush for a request of its own.  Once stopped,
      nothing happens any more. */
  lemma TickFollowsPin(e: Env, n: nat)
    requires Fair(e.dreq)
    ensures var s, t := Ticks(e, n), Ticks(e, n + 1);
            if s.playing then FollowsPin(e, s.polls, t) else t == s
  {
    hide Feeding, FollowsPin;
    if Ticks(e, n).playing {
      FeedingFollowsPin(e, Ticks(e, n));
    }
  }

  /** With a card that always delivers, the buffer is a whole number of bursts until the end of the
      file is loaded, and the codec has got one burst for every request so far. */
  ghost predicate Steady(e: Env, s: Stream) {
    && Conserved(e, s)
    && (s.playing ==>
          && (|s.unsent| % BURST == 0 || s.pos == |e.file|)
          && |s.received| == Min(BURST * Requests(e.dreq, s.polls), |e.file|))
    && (!s.playing ==> s.pos == |e.file|)
  }

  lemma LoadSteady(e: Env, s: Stream)
    requires GoodCard(e) && Steady(e, s) && s.playing
    ensures Steady(e, Loaded(e, s))
    ensures Loaded(e, s).unsent == [] ==> Loaded(e, s).pos == |e.file|
  {
    LoadConserves(e, s);
    assert e.card(s.loads) >= CHUNK;
  }

  lemma FeedSteady(e: Env, l: Stream)
    requires Steady(e, l) && l.playing && l.unsent != [] && e.dreq(l.polls)
    ensures Steady(e, Fed(l))
  {
    FeedConserves(e, l);
    assert |l.received| + |l.unsent| == l.pos by {
      assert |l.received + l.unsent| == |e.file[..l.pos]|;
    }
  }

  lemma {:induction false} FeedingSteady(e: Env, s: Stream)
    requires Fair(e.dreq) && GoodCard(e) && Steady(e, s) && s.playing
    ensures var t := Feeding(e, s);
            Steady(e, t) && (t.playing ==> t.unsent != [] && t.polls > s.polls)
    decreases |e.file| - s.pos + |s.unsent|
  {
    LoadSteady(e, s);
    var l := Loaded(e, s);
    if l.unsent == [] {
      FeedingConserves(e, s);
    } else if e.dreq(l.polls) {
      FeedSteady(e, l);
      FeedingSteady(e, Fed(l));
    }
  }

  /** Main theorem: as long as it plays, the codec has received exactly the first 32 bytes of the
      file per request of the pin; it stops only at the end of the file, and then has received the
      whole file and the flush. */
  lemma {:induction false} OneBurstPerRequest(e: Env, n: nat)
    requires Fair(e.dreq) && GoodCard(e)
    ensures var s := Ticks(e, n);
            && Steady(e, s)
            && (s.playing ==>
                  s.received == e.file[..Min(32 * Requests(e.dreq, s.polls), |e.file|)])
            && (!s.playing ==> s.received == e.file + Zeros(2048))
            && (s.playing && n > 0 ==> s.unsent != [] && s.polls >= n)
  {
    if n > 0 {
      OneBurstPerRequest(e, n - 1);
      var s := Ticks(e, n - 1);
      if s.playing {
        FeedingSteady(e, s);
      }
    }
    ReceivedIsPrefix(e, Ticks(e, n));
  }

  lemma ReceivedIsPrefix(e: Env, s: Stream)
    requires Steady(e, s)
    ensures s.playing ==> |s.received| <= |e.file| && s.received == e.file[..|s.received|]
    ensures !s.playing ==> s.received == e.file + Zeros(FLUSH)
  {
    if s.playing {
      assert s.received == (s.received + s.unsent)[..|s.received|] == e.file[..s.pos][..|s.received|];
    } else {
      assert e.file[..s.pos] == e.file;
    }
  }

  lemma {:induction false} RequestsGrow(dreq: nat -> bool, m: nat, n: nat)
    requires m <= n
    ensures Requests(dreq, m) <= Requests(dreq, n)
    decreases n
  {
    if m < n {
      RequestsGrow(dreq, m, n - 1);
    }
  }

  lemma {:induction false} RequestsUnbounded(dreq: nat -> bool, k: nat) returns (n: nat)
    requires Fair(dreq)
    ensures Requests(dreq, n) >= k
  {
    if k == 0 {
      n := 0;
    } else {
      var m := RequestsUnbounded(dreq, k - 1);
      var r := NextRequest(dreq, m);
      RequestsGrow(dreq, m, r);
      n := r + 1;
    }
  }

  /** Every request of the pin has brought the codec at least one byte. */
  ghost predicate Fruitful(e: Env, s: Stream) {
    Conserved(e, s) && (s.playing ==> |s.received| >= Requests(e.dreq, s.polls))
  }

  lemma {:induction false} FeedingFruitful(e: Env, s: Stream)
    requires Fair(e.dreq) && Fruitful(e, s) && s.playing
    ensures var t := Feeding(e, s);
            Fruitful(e, t) && (t.playing ==> t.polls > s.polls)
    decreases |e.file| - s.pos + |s.unsent|
  {
    LoadConserves(e, s);
    FeedingConserves(e, s);
    var l := Loaded(e, s);
    if l.unsent != [] && e.dreq(l.polls) {
      FeedConserves(e, l);
      FeedingFruitful(e, Fed(l));
    }
  }

  lemma {:induction false} TicksFruitful(e: Env, n: nat)
    requires Fair(e.dreq)
    ensures Fruitful(e, Ticks(e, n)) && (Ticks(e, n).playing ==> Ticks(e, n).polls >= n)
  {
    if n > 0 {
      TicksFruitful(e, n - 1);
      var s := Ticks(e, n - 1);
      if s.playing {
        FeedingFruitful(e, s);
      }
    }
  }

  /** Main theorem: every song ends.  Whatever the card delivers, once there have been as many ticks
      as it takes the pin to ask more often than the file has bytes, playing has stopped. */
  lemma SongEnds(e: Env) returns (n: nat)
    requires Fair(e.dreq)
    ensures !Ticks(e, n).playing
  {
    n := RequestsUnbounded(e.dreq, |e.file| + 1);
    TicksFruitful(e, n);
    var s := Ticks(e, n);
    assert s.playing ==> |s.received + s.unsent| == s.pos;
    if s.playing {
      RequestsGrow(e.dreq, n, s.polls);
      assert false;
    }
  }

  // ---------- how it ends ----------

  /** Where the k-th read finds the file position, if there are that many. */
  function PosAt(e: Env, k: nat): (pos: nat)
    ensures pos <= |e.file|
  {
    if k == 0 then 0
    else
      var before := PosAt(e, k - 1);
      before + Min(Min(512, |e.file| - before), e.card(k - 1))
  }

  lemma {:induction false} PosGrows(e: Env, j: nat, k: nat)
    requires j <= k
    ensures PosAt(e, j) <= PosAt(e, k)
    decreases k
  {
    if j < k {
      PosGrows(e, j, k - 1);
    }
  }

  /** The card delivers at least one byte to every read before the end of the file. */
  ghost predicate DeliversToTheEnd(e: Env) {
    forall k: nat :: PosAt(e, k) < |e.file| ==> e.card(k) > 0
  }

  /** The reads so far: none came back empty, except the last one if that has stopped the song. */
  ghost predicate ReadsOf(e: Env, s: Stream) {
    && s.pos == PosAt(e, s.loads)
    && (!s.playing ==> s.loads > 0 && PosAt(e, s.loads - 1) == s.pos)
    && forall k: nat :: k < (if s.playing then s.loads else s.loads - 1) ==> PosAt(e, k) < PosAt(e, k + 1)
  }

  lemma LoadReads(e: Env, s: Stream)
    requires s.pos <= |e.file| && s.playing && ReadsOf(e, s)
    ensures var l := Loaded(e, s);
            if l.unsent == [] then ReadsOf(e, l.(playing := false)) else ReadsOf(e, l) && l.playing
  {
  }

  lemma {:induction false} FeedingReads(e: Env, s: Stream)
    requires Fair(e.dreq) && s.pos <= |e.file| && s.playing && ReadsOf(e, s)
    ensures ReadsOf(e, Feeding(e, s))
    decreases |e.file| - s.pos + |s.unsent|
  {
    hide PosAt, Zeros, WaitedFor;
    LoadReads(e, s);
    var l := Loaded(e, s);
    if l.unsent != [] && e.dreq(l.polls) {
      FeedingReads(e, Fed(l));
    }
  }

  lemma {:induction false} TicksRead(e: Env, n: nat)
    requires Fair(e.dreq)
    ensures ReadsOf(e, Ticks(e, n))
  {
    if n > 0 {
      TicksRead(e, n - 1);
      var s := Ticks(e, n - 1);
      if s.playing {
        FeedingReads(e, s);
      }
    }
  }

  lemma AtTheEndIffDelivered(e: Env, s: Stream)
    requires ReadsOf(e, s) && !s.playing
    ensures s.pos == |e.file| <==> DeliversToTheEnd(e)
    ensures s.pos < |e.file| ==> e.card(s.loads - 1) == 0
  {
    if s.pos == |e.file| {
      forall k: nat | PosAt(e, k) < |e.file| ensures e.card(k) > 0 {
        if k >= s.loads {
          PosGrows(e, s.loads, k);
        }
        assert k < s.loads - 1 && PosAt(e, k) < PosAt(e, k + 1);
      }
    }
  }

  /** Main theorem: a song that has ended was sent whole, with one flush, if and only if the card
      delivered something to every read before the end of the file; otherwise the read that ended
      it got nothing. */
  lemma WholeFileUnlessAReadFails(e: Env, n: nat)
    requires Fair(e.dreq) && !Ticks(e, n).playing
    ensures var s := Ticks(e, n);
            && (s.received == e.file + Zeros(FLUSH) <==> DeliversToTheEnd(e))
            && (s.received == e.file + Zeros(FLUSH) <==> s.pos == |e.file|)
            && (s.pos < |e.file| ==> s.loads > 0 && e.card(s.loads - 1) == 0)
  {
    hide DeliversToTheEnd;
    StreamConserved(e, n);
    TicksRead(e, n);
    var s := Ticks(e, n);
    AtTheEndIffDelivered(e, s);
    if s.pos == |e.file| {
      assert e.file[..s.pos] == e.file;
    } else {
      assert |s.received| == s.pos + FLUSH;
    }
  }

  /** Every song is played to its end with a card on which no read before the end comes back empty,
      however short, and with no other card. */
  lemma SongEndsWhole(e: Env) returns (n: nat)
    requires Fair(e.dreq)
    ensures !Ticks(e, n).playing
    ensures Ticks(e, n).received == e.file + Zeros(FLUSH) <==> DeliversToTheEnd(e)
  {
    n := SongEnds(e);
    WholeFileUnlessAReadFails(e, n);
  }
}
