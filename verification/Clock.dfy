/** The uptime clock (bsp/demo/time.c): two 16-bit halves advanced by an interrupt handler and
read, without masking interrupts, by a retry loop.  The handler itself runs with interrupts
masked, so a tick is one step; any number of ticks may come between two reads. */
module Clock {
  import opened Bits

  /** The static counters. */
  datatype Counters = Counters(low: u16, high: u16, lastFrame: u16, secondFrames: u16) {
    /** The 32-bit count of seconds. */
    function Seconds(): nat { high * 0x1_0000 + low }

    /** RISCC_TICK_HZ, the display frames in a second of a board, is 60 throughout. */
    predicate Valid() { secondFrames < 60 }
  }

  /** An interrupt: on a board at a display frame, elsewhere every second. */
  datatype Tick = Frame(now: u16) | Second

  /** Frames since the last whole second, at frame `now`. */
  function Elapsed(c: Counters, now: u16): (f: nat)
    ensures f == (now - c.lastFrame) % 0x1_0000 + c.secondFrames
  {
    (now - c.lastFrame) % 0x1_0000 + c.secondFrames
  }

  /** Whole seconds that a tick adds. */
  function Advance(c: Counters, t: Tick): (n: nat) {
    if t.Frame? then Elapsed(c, t.now) / 60 else 1
  }

  /** riscc_time_tick */
  function Ticked(c: Counters, t: Tick): Counters {
    var next := (c.low + Advance(c, t)) % 0x1_0000;
    var high := if next < c.low then (c.high + 1) % 0x1_0000 else c.high;
    if t.Frame? then Counters(next, high, t.now, Elapsed(c, t.now) % 60) else c.(low := next, high := high)
  }

  function After(c: Counters, ticks: seq<Tick>): Counters {
    if ticks == [] then c else Ticked(After(c, ticks[..|ticks| - 1]), ticks[|ticks| - 1])
  }

  /** A tick increments the high half. */
  predicate Carries(c: Counters, t: Tick) {
    (c.low + Advance(c, t)) % 0x1_0000 < c.low
  }

  /** How many of the ticks increment the high half. */
  function Carried(c: Counters, ticks: seq<Tick>): nat {
    if ticks == [] then 0
    else
      var before := ticks[..|ticks| - 1];
      Carried(c, before) + if Carries(After(c, before), ticks[|ticks| - 1]) then 1 else 0
  }

  // ----- the handler -----

  /** One tick advances the 32-bit count as a whole, and keeps the frames within the second. */
  lemma TickCounts(c: Counters, t: Tick)
    requires c.Valid()
    ensures Ticked(c, t).Valid()
    ensures Ticked(c, t).Seconds() == (c.Seconds() + Advance(c, t)) % 0x1_0000_0000
    ensures t.Frame? ==> 60 * Advance(c, t) + Ticked(c, t).secondFrames == (t.now - c.lastFrame) % 0x1_0000 + c.secondFrames
  {
    var n := Advance(c, t);
    assert n < 0x1_0000;
    var sum := c.low + n;
    if sum < 0x1_0000 {
      assert sum % 0x1_0000 == sum;
    } else {
      assert sum % 0x1_0000 == sum - 0x1_0000;
      HighStep(c.high);
    }
    WholeCount(c.high, c.low, n);
  }

  /** A timer tick is one second, modulo the size of the count, and leaves the frames alone. */
  lemma SecondCounts(c: Counters, t: Tick)
    requires t.Second?
    ensures var c' := Ticked(c, t);
            c'.Seconds() == (c.Seconds() + 1) % 0x1_0000_0000 && c'.lastFrame == c.lastFrame && c'.secondFrames == c.secondFrames
  {
    HighStep(c.high);
    WholeCount(c.high, c.low, 1);
  }

  /** n timer ticks are n seconds. */
  lemma {:induction false} SecondsCounted(c: Counters, ticks: seq<Tick>)
    requires forall k :: 0 <= k < |ticks| ==> ticks[k].Second?
    ensures var c' := After(c, ticks);
            c'.Seconds() == (c.Seconds() + |ticks|) % 0x1_0000_0000 && c'.lastFrame == c.lastFrame && c'.secondFrames == c.secondFrames
  {
    hide Ticked, Counters.Seconds;
    if ticks == [] {
      WithinCount(c);
    } else {
      var before := ticks[..|ticks| - 1];
      SecondsCounted(c, before);
      SecondCounts(After(c, before), ticks[|ticks| - 1]);
      OneMoreSecond(c.Seconds(), |before|);
    }
  }

  lemma WithinCount(c: Counters)
    ensures c.Seconds() % 0x1_0000_0000 == c.Seconds()
  {
  }

  lemma OneMoreSecond(seconds: nat, n: nat)
    ensures ((seconds + n) % 0x1_0000_0000 + 1) % 0x1_0000_0000 == (seconds + (n + 1)) % 0x1_0000_0000
  {
  }

  lemma HighStep(high: u16)
    ensures (high + 1) % 0x1_0000 == if high == 0xffff then 0 else high + 1
  {
  }

  lemma WholeCount(high: u16, low: u16, n: nat)
    requires n < 0x1_0000
    ensures (high * 0x1_0000 + low + n) % 0x1_0000_0000 ==
              if low + n < 0x1_0000 then high * 0x1_0000 + low + n
              else if high == 0xffff then low + n - 0x1_0000
              else (high + 1) * 0x1_0000 + (low + n - 0x1_0000)
  {
  }

  /** Ticks in the order of their frames, less than 2^16 apart. */
  ghost predicate Spaced(start: nat, frames: seq<nat>) {
    forall i :: 0 <= i < |frames| ==> Before(start, frames, i) <= frames[i] < Before(start, frames, i) + 0x1_0000
  }

  /** The seconds counted and the frames left over are the frames that passed. */
  ghost predicate Conserved(c: Counters, c': Counters, seconds: nat, start: nat, last: nat) {
    && c'.Valid() && c'.lastFrame == last % 0x1_0000
    && c'.Seconds() == (c.Seconds() + seconds) % 0x1_0000_0000
    && 60 * seconds + c'.secondFrames == last - start + c.secondFrames
  }

  /** Frames are conserved, up to the wrap of the 32-bit count of seconds. */
  lemma {:induction false} FramesConserved(c: Counters, start: nat, frames: seq<nat>) returns (seconds: nat)
    requires c.Valid() && c.lastFrame == start % 0x1_0000 && Spaced(start, frames)
    ensures Conserved(c, After(c, AsTicks(frames)), seconds, start, Before(start, frames, |frames|))
    decreases |frames|
  {
    hide Ticked, Advance, Conserved, Spaced, Counters.Seconds;
    if frames == [] {
      seconds := 0;
      NoFrames(c, start);
    } else {
      var m := |frames| - 1;
      var rest := frames[..m];
      SpacedRest(start, frames);
      var before := FramesConserved(c, start, rest);
      assert AsTicks(frames)[..m] == AsTicks(rest) && AsTicks(frames)[m] == Frame(frames[m] % 0x1_0000);
      var d := After(c, AsTicks(rest));
      seconds := before + Advance(d, Frame(frames[m] % 0x1_0000));
      OneFrame(c, d, before, start, Before(start, rest, m), frames[m]);
    }
  }

  lemma NoFrames(c: Counters, start: nat)
    requires c.Valid() && c.lastFrame == start % 0x1_0000
    ensures Conserved(c, After(c, AsTicks([])), 0, start, start)
  {
  }

  lemma SpacedRest(start: nat, frames: seq<nat>)
    requires Spaced(start, frames) && frames != []
    ensures var m := |frames| - 1;
            && Spaced(start, frames[..m]) && Before(start, frames[..m], m) == Before(start, frames, m)
            && Before(start, frames, m) <= frames[m] < Before(start, frames, m) + 0x1_0000
  {
    var m := |frames| - 1;
    var rest := frames[..m];
    forall i | 0 <= i < m ensures Before(start, rest, i) <= rest[i] < Before(start, rest, i) + 0x1_0000 {
      assert Before(start, rest, i) == Before(start, frames, i) && frames[i] == rest[i];
    }
  }

  lemma OneFrame(c: Counters, d: Counters, before: nat, start: nat, last: nat, frame: nat)
    requires Conserved(c, d, before, start, last) && last <= frame < last + 0x1_0000
    ensures Conserved(c, Ticked(d, Frame(frame % 0x1_0000)), before + Advance(d, Frame(frame % 0x1_0000)), start, frame)
  {
    hide Advance, Counters.Seconds;
    var t := Frame(frame % 0x1_0000);
    TickCounts(d, t);
    FrameGap(last, frame);
    SumWraps(c.Seconds(), before, Advance(d, t));
  }

  /** The frame before tick i. */
  function Before(start: nat, frames: seq<nat>, i: nat): nat
    requires i <= |frames|
  {
    if i == 0 then start else frames[i - 1]
  }

  function AsTicks(frames: seq<nat>): (ts: seq<Tick>)
    ensures |ts| == |frames| && forall i :: 0 <= i < |frames| ==> ts[i] == Frame(frames[i] % 0x1_0000)
  {
    seq(|frames|, i requires 0 <= i < |frames| => Frame(frames[i] % 0x1_0000))
  }

  lemma FrameGap(a: nat, b: nat)
    requires a <= b < a + 0x1_0000
    ensures (b % 0x1_0000 - a % 0x1_0000) % 0x1_0000 == b - a
  {
    DivModBasic(a, 0x1_0000);
    DivModBasic(b, 0x1_0000);
    DivModUnique(b % 0x1_0000 - a % 0x1_0000, 0x1_0000, a / 0x1_0000 - b / 0x1_0000, b - a);
  }

  lemma SumWraps(a: nat, b: nat, c: nat)
    ensures ((a + b) % 0x1_0000_0000 + c) % 0x1_0000_0000 == (a + (b + c)) % 0x1_0000_0000
  {
    DivModBasic(a + b, 0x1_0000_0000);
    var q, r := (a + b) / 0x1_0000_0000, (a + b) % 0x1_0000_0000;
    DivModBasic(r + c, 0x1_0000_0000);
    DivModUnique(a + (b + c), 0x1_0000_0000, q + (r + c) / 0x1_0000_0000, (r + c) % 0x1_0000_0000);
  }

  // ----- the reader -----

  /** The high half counts the carries. */
  lemma {:induction false} HighCounts(c: Counters, ticks: seq<Tick>)
    ensures After(c, ticks).high == (c.high + Carried(c, ticks)) % 0x1_0000
  {
    if ticks != [] {
      var before := ticks[..|ticks| - 1];
      HighCounts(c, before);
      HighWraps(c.high, Carried(c, before));
    }
  }

  lemma HighWraps(high: u16, n: nat)
    ensures ((high + n) % 0x1_0000 + 1) % 0x1_0000 == (high + (n + 1)) % 0x1_0000
  {
    var s := high + n;
    DivModBasic(s, 0x1_0000);
    DivModUnique(s + 1, 0x1_0000, if s % 0x1_0000 == 0xffff then s / 0x1_0000 + 1 else s / 0x1_0000,
                 if s % 0x1_0000 == 0xffff then 0 else s % 0x1_0000 + 1);
  }

  lemma {:induction false} AfterBoth(c: Counters, a: seq<Tick>, b: seq<Tick>)
    ensures After(c, a + b) == After(After(c, a), b)
    ensures Carried(c, a + b) == Carried(c, a) + Carried(After(c, a), b)
    decreases |b|
  {
    if b == [] {
      assert a + b == a;
    } else {
      var m := |b| - 1;
      assert (a + b)[..|a + b| - 1] == a + b[..m];
      AfterBoth(c, a, b[..m]);
    }
  }

  /** What one pass of the loop reads: high0, ticks a, low, ticks b, high1. */
  function Attempt(c: Counters, a: seq<Tick>, b: seq<Tick>): (value: nat) {
    After(After(c, a), b).high * 0x1_0000 + After(c, a).low
  }

  /** The loop ends with this pass. */
  predicate Accepted(c: Counters, a: seq<Tick>, b: seq<Tick>) {
    c.high == After(After(c, a), b).high
  }

  /** A pass that is accepted gives the count at the moment low was read exactly when the carries
  after that moment are a multiple of 2^16. */
  lemma AttemptExact(c: Counters, a: seq<Tick>, b: seq<Tick>)
    requires Accepted(c, a, b)
    ensures Attempt(c, a, b) == After(c, a).Seconds() <==> Carried(After(c, a), b) % 0x1_0000 == 0
  {
    HighCounts(After(c, a), b);
    SameHigh(After(c, a).high, Carried(After(c, a), b));
  }

  lemma SameHigh(high: u16, n: nat)
    ensures (high + n) % 0x1_0000 == high <==> n % 0x1_0000 == 0
  {
    DivModBasic(n, 0x1_0000);
    var q, r := n / 0x1_0000, n % 0x1_0000;
    if high + r < 0x1_0000 {
      DivModUnique(high + n, 0x1_0000, q, high + r);
    } else {
      DivModUnique(high + n, 0x1_0000, q + 1, high + r - 0x1_0000);
    }
  }

  /** With fewer than 2^16 carries during the pass, equal high halves mean there was none. */
  lemma AttemptCorrect(c: Counters, a: seq<Tick>, b: seq<Tick>)
    requires Accepted(c, a, b) && Carried(c, a + b) < 0x1_0000
    ensures Attempt(c, a, b) == After(c, a).Seconds()
  {
    hide *;
    AcceptedMeans(c, a, b);
    AfterBoth(c, a, b);
    HighCounts(c, a + b);
    SameHigh(c.high, Carried(c, a + b));
    NoWrap(Carried(c, a + b));
    AttemptExact(c, a, b);
  }

  lemma AcceptedMeans(c: Counters, a: seq<Tick>, b: seq<Tick>)
    ensures Accepted(c, a, b) <==> c.high == After(After(c, a), b).high
  {
    hide After;
  }

  lemma NoWrap(n: nat)
    requires n < 0x1_0000
    ensures n % 0x1_0000 == n
  {
  }

  // ----- the counters in place -----

  /** The ticks that arrive around the reads of one pass. */
  datatype Gap = Gap(beforeHigh: seq<Tick>, beforeLow: seq<Tick>, beforeHighAgain: seq<Tick>)

  /** The ticks of the first k passes. */
  function AllTicks(schedule: seq<Gap>, k: nat): seq<Tick>
    requires k <= |schedule|
  {
    if k == 0 then []
    else
      var g := schedule[k - 1];
      AllTicks(schedule, k - 1) + g.beforeHigh + g.beforeLow + g.beforeHighAgain
  }

  /** The ticks around the reads of pass k; none arrive after the schedule runs out. */
  function GapAt(schedule: seq<Gap>, k: nat): Gap {
    if k < |schedule| then schedule[k] else Gap([], [], [])
  }

  /** The ticks up to the moment when pass k reads the low half. */
  function UntilLow(schedule: seq<Gap>, k: nat): seq<Tick>
    requires k <= |schedule|
  {
    AllTicks(schedule, k) + GapAt(schedule, k).beforeHigh + GapAt(schedule, k).beforeLow
  }

  /** The counters when pass k reads the high half for the first time. */
  function AtPass(start: Counters, schedule: seq<Gap>, k: nat): Counters
    requires k <= |schedule|
  {
    After(After(start, AllTicks(schedule, k)), GapAt(schedule, k).beforeHigh)
  }

  /** Pass k sees the same high half twice. */
  predicate Accepts(start: Counters, schedule: seq<Gap>, k: nat)
    requires k <= |schedule|
  {
    Accepted(AtPass(start, schedule, k), GapAt(schedule, k).beforeLow, GapAt(schedule, k).beforeHighAgain)
  }

  /** During pass k the high half does not go round. */
  predicate FewCarries(start: Counters, schedule: seq<Gap>, k: nat)
    requires k <= |schedule|
  {
    Carried(AtPass(start, schedule, k), GapAt(schedule, k).beforeLow + GapAt(schedule, k).beforeHighAgain) < 0x1_0000
  }

  lemma NoTicks(start: Counters, schedule: seq<Gap>)
    ensures After(start, []) == start && AllTicks(schedule, 0) == []
  {
  }

  lemma PassParts(start: Counters, schedule: seq<Gap>, k: nat)
    requires k <= |schedule|
    ensures var g := GapAt(schedule, k);
            && (k < |schedule| ==> g == schedule[k]) && (k == |schedule| ==> g == Gap([], [], []))
            && UntilLow(schedule, k) == AllTicks(schedule, k) + g.beforeHigh + g.beforeLow
            && AtPass(start, schedule, k) == After(After(start, AllTicks(schedule, k)), g.beforeHigh)
            && (Accepts(start, schedule, k) <==> Accepted(AtPass(start, schedule, k), g.beforeLow, g.beforeHighAgain))
            && (FewCarries(start, schedule, k) <==> Carried(AtPass(start, schedule, k), g.beforeLow + g.beforeHighAgain) < 0x1_0000)
            && (k < |schedule| ==> AllTicks(schedule, k + 1) == AllTicks(schedule, k) + g.beforeHigh + g.beforeLow + g.beforeHighAgain)
  {
    hide After, Carried, Accepted;
  }

  /** What one pass of the reader does. */
  lemma OnePass(start: Counters, schedule: seq<Gap>, k: nat)
    requires k <= |schedule|
    ensures var g, c, past := GapAt(schedule, k), AtPass(start, schedule, k), UntilLow(schedule, k);
            && After(c, g.beforeLow) == After(start, past)
            && After(After(c, g.beforeLow), g.beforeHighAgain) == After(start, past + g.beforeHighAgain)
            && (k == |schedule| ==> Accepts(start, schedule, k))
            && (k < |schedule| ==> past + g.beforeHighAgain == AllTicks(schedule, k + 1))
            && (Accepts(start, schedule, k) ==>
                  (Attempt(c, g.beforeLow, g.beforeHighAgain) == After(start, past).Seconds()
                   <==> Carried(After(start, past), g.beforeHighAgain) % 0x1_0000 == 0))
            && (Accepts(start, schedule, k) && FewCarries(start, schedule, k) ==>
                  Attempt(c, g.beforeLow, g.beforeHighAgain) == After(start, past).Seconds())
  {
    hide *;
    var g, c, from := GapAt(schedule, k), AtPass(start, schedule, k), AllTicks(schedule, k);
    PassParts(start, schedule, k);
    AfterBoth(start, from, g.beforeHigh);
    AfterBoth(start, from + g.beforeHigh, g.beforeLow);
    AfterBoth(start, from + g.beforeHigh + g.beforeLow, g.beforeHighAgain);
    if k == |schedule| { NothingHappens(c); }
    if Accepts(start, schedule, k) {
      AttemptExact(c, g.beforeLow, g.beforeHighAgain);
      if FewCarries(start, schedule, k) { AttemptCorrect(c, g.beforeLow, g.beforeHighAgain); }
    }
  }

  lemma NothingHappens(c: Counters)
    ensures Accepted(c, [], [])
  {
  }

  lemma AttemptParts(c: Counters, a: seq<Tick>, b: seq<Tick>)
    ensures Attempt(c, a, b) == After(After(c, a), b).high * 0x1_0000 + After(c, a).low
    ensures Accepted(c, a, b) <==> c.high == After(After(c, a), b).high
  {
  }

  class UptimeClock {
    var secondsLow: u16
    var secondsHigh: u16
    var lastFrame: u16
    var secondFrames: u16
    var timeStarted: bool

    function State(): Counters
      reads this
    {
      Counters(secondsLow, secondsHigh, lastFrame, secondFrames)
    }

    lemma Parts()
      ensures State() == Counters(secondsLow, secondsHigh, lastFrame, secondFrames)
    {
    }

    method TickHandler(t: Tick)
      modifies this`secondsLow, this`secondsHigh, this`lastFrame, this`secondFrames
      ensures State() == Ticked(old(State()), t)
      ensures t.Second? ==> State().Seconds() == (old(State()).Seconds() + 1) % 0x1_0000_0000
      ensures t.Second? ==> State().lastFrame == old(State()).lastFrame && State().secondFrames == old(State()).secondFrames
      ensures t.Frame? && old(State()).Valid() ==> State().Valid() && State().lastFrame == t.now
    {
      ghost var before := State();
      var next: u16;
      if t.Frame? {
        var elapsed := (t.now - lastFrame) % 0x1_0000 + secondFrames;
        lastFrame := t.now;
        secondFrames := elapsed % 60;
        next := (secondsLow + elapsed / 60) % 0x1_0000;
      } else {
        next := (secondsLow + 1) % 0x1_0000;
      }
      var previous := secondsLow;
      secondsLow := next;
      if next < previous {
        secondsHigh := (secondsHigh + 1) % 0x1_0000;
      }
      if t.Second? { SecondCounts(before, t); }
    }

    /** Interrupts that arrive at one point. */
    method Interrupts(ticks: seq<Tick>)
      modifies this`secondsLow, this`secondsHigh, this`lastFrame, this`secondFrames
      ensures State() == After(old(State()), ticks)
    {
      hide Ticked;
      ghost var start := State();
      for i := 0 to |ticks|
        invariant State() == After(start, ticks[..i])
      {
        TickHandler(ticks[i]);
        assert ticks[..i + 1][..i] == ticks[..i];
      }
      assert ticks[..|ticks|] == ticks;
    }

    /** riscc_time_init: starts the clock once. */
    method Init(now: u16)
      modifies this
      ensures timeStarted
      ensures old(timeStarted) ==> State() == old(State())
      ensures !old(timeStarted) ==> State() == Counters(0, 0, now, 0)
    {
      if timeStarted {
        return;
      }
      secondsLow := 0;
      secondsHigh := 0;
      lastFrame := now;
      secondFrames := 0;
      timeStarted := true;
    }

    /** riscc_time_seconds, with the interrupts that the schedule gives for each pass, and none
    after it runs out.  Pass `last` is the first that sees the same high half twice, and `past`
    are the ticks up to its read of the low half.  The value is the count at that moment exactly
    when the carries after it are a multiple of 2^16, so always when fewer than 2^16 carries fall
    into that pass. */
    method Seconds(schedule: seq<Gap>) returns (value: nat, ghost last: nat, ghost past: seq<Tick>)
      modifies this`secondsLow, this`secondsHigh, this`lastFrame, this`secondFrames
      ensures last <= |schedule| && past == UntilLow(schedule, last)
      ensures Accepts(old(State()), schedule, last) && forall k :: 0 <= k < last ==> !Accepts(old(State()), schedule, k)
      ensures value == After(old(State()), past).Seconds()
         <==> Carried(After(old(State()), past), GapAt(schedule, last).beforeHighAgain) % 0x1_0000 == 0
      ensures FewCarries(old(State()), schedule, last) ==> value == After(old(State()), past).Seconds()
      ensures State() == After(old(State()), past + GapAt(schedule, last).beforeHighAgain)
    {
      hide *;
      ghost var start := State();
      last, past := 0, [];
      var pass := 0;
      NoTicks(start, schedule);
      while true
        invariant 0 <= pass <= |schedule| && last == pass && State() == After(start, AllTicks(schedule, pass))
        invariant forall k :: 0 <= k < pass ==> !Accepts(start, schedule, k)
        decreases |schedule| - pass
      {
        var gap := if pass < |schedule| then schedule[pass] else Gap([], [], []);
        PassParts(start, schedule, pass);
        Interrupts(gap.beforeHigh);
        Parts();
        var high0 := secondsHigh;
        Interrupts(gap.beforeLow);
        Parts();
        var low := secondsLow;
        past := UntilLow(schedule, pass);
        Interrupts(gap.beforeHighAgain);
        Parts();
        var high1 := secondsHigh;
        OnePass(start, schedule, pass);
        AttemptParts(AtPass(start, schedule, pass), gap.beforeLow, gap.beforeHighAgain);
        if high0 == high1 {
          value := high1 as int * 0x1_0000 + low;
          return;
        }
        pass, last := pass + 1, pass + 1;
      }
    }
  }
}
