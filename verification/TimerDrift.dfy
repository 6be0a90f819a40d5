/** The jitter correction at the end of a tick, in the 32-bit arithmetic it is done in. */
module TimerDrift {
  import opened Words
  import opened TimerSpec
  import opened TimerRuns

  // (uint)OSCL_ABS(a)
  function UAbs(a: int): int {
    if a > 0 then a else U32(-a)
  }

  /** The new iExpectedTimeout, and the delay to ask for, at time `now` with cycle period p. */
  datatype Plan = Plan(expected: int, wait: int)

  function Jitter(now: int, expected: int): int {
    I32(now - expected)
  }

  function Adjust(now: int, expected: int, p: int): Plan {
    var jitter := Jitter(now, expected);
    var wait := I32(p - jitter);
    Plan(if UAbs(jitter) > p then now else U32(expected + p), if wait > 0 then wait else 0)
  }

  predicate InBand(now: int, expected: int, p: int) {
    -p <= Jitter(now, expected) <= p
  }

  /** In band the delay is the period less the jitter exactly when that fits in 31 bits; it then
      runs out at the new expected time, modulo 2^32. */
  lemma InBandIff(now: int, expected: int, p: int)
    requires 0 <= p < TWO_32 && 0 <= now < TWO_32 && InBand(now, expected, p)
    ensures Adjust(now, expected, p).expected == U32(expected + p)
    ensures Adjust(now, expected, p).wait == p - Jitter(now, expected) <==> p - Jitter(now, expected) < TWO_31
    ensures p - Jitter(now, expected) < TWO_31 ==>
      U32(now + Adjust(now, expected, p).wait) == Adjust(now, expected, p).expected
  {
  }

  /** Out of band the expected time restarts at the wakeup.  A late one is followed by another at once;
      after an early one the delay is the period less the jitter, or nothing if that takes more than 31 bits. */
  lemma OutOfBand(now: int, expected: int, p: int)
    requires 0 <= p < 0x4000_0000 && 0 <= now < TWO_32 && !InBand(now, expected, p)
    ensures Adjust(now, expected, p).expected == now
    ensures Jitter(now, expected) > p ==> Adjust(now, expected, p).wait == 0
    ensures Jitter(now, expected) < -p ==>
      Adjust(now, expected, p).wait == if p - Jitter(now, expected) < TWO_31 then p - Jitter(now, expected) else 0
  {
  }

  /** The jitter is how late the wakeup is, as far as 31 bits tell. */
  lemma JitterIs(expected: int, late: int)
    requires 0 <= expected < TWO_32 && -TWO_31 <= late < TWO_31
    ensures Jitter(U32(expected + late), expected) == late
  {
    Recover(expected, late);
  }

  /** For periods below 2^30 the delay is always right, and lies between 0 and two periods. */
  lemma InBandExact(now: int, expected: int, p: int)
    requires 0 <= p < 0x4000_0000 && 0 <= now < TWO_32 && InBand(now, expected, p)
    ensures var a := Adjust(now, expected, p);
      0 <= a.wait <= 2 * p && a.expected == U32(expected + p) && U32(now + a.wait) == a.expected
  {
    InBandIff(now, expected, p);
  }

  /** At a period of 2^30 a wakeup one full period early gets no delay at all. */
  lemma LongPeriodFails()
    ensures var p := 0x4000_0000; InBand(0, p, p) && Adjust(0, p, p).wait == 0 && U32(0 + 0) != Adjust(0, p, p).expected
  {
  }

  /** The next jitter is the lateness of the next wakeup alone. */
  lemma NextJitter(now: int, expected: int, p: int, late: int)
    requires 0 <= p < 0x4000_0000 && 0 <= now < TWO_32 && InBand(now, expected, p) && -TWO_31 <= late < TWO_31
    ensures var a := Adjust(now, expected, p); Jitter(U32(now + a.wait + late), a.expected) == late
  {
    hide U32, I32, Adjust;
    InBandExact(now, expected, p);
    var a := Adjust(now, expected, p);
    U32Plus(now + a.wait, late);
    Recover(a.expected, late);
  }

  lemma Recover(x: int, late: int)
    requires 0 <= x < TWO_32 && -TWO_31 <= late < TWO_31
    ensures I32(U32(x + late) - x) == late
  {
  }

  // ---------------------------------------------------------------- many rounds

  /** The expected time after rounds whose wakeups come lates[0], lates[1], ... after the delay asked for. */
  function Rounds(now: int, expected: int, p: int, lates: seq<int>): int
    decreases |lates|
  {
    var a := Adjust(now, expected, p);
    if lates == [] then a.expected else Rounds(U32(now + a.wait + lates[0]), a.expected, p, lates[1..])
  }

  /** Lateness never accumulates: k in-band rounds move the expected time by exactly k periods. */
  lemma {:induction false} DriftFree(now: int, expected: int, p: int, lates: seq<int>)
    requires 0 <= p < 0x4000_0000 && 0 <= now < TWO_32 && InBand(now, expected, p)
    requires forall i :: 0 <= i < |lates| ==> -p <= lates[i] <= p
    ensures Rounds(now, expected, p, lates) == U32(expected + (|lates| + 1) * p)
    decreases |lates|
  {
    hide U32, I32, Adjust;
    InBandExact(now, expected, p);
    var a := Adjust(now, expected, p);
    if lates != [] {
      NextJitter(now, expected, p, lates[0]);
      DriftFree(U32(now + a.wait + lates[0]), a.expected, p, lates[1..]);
      WholePeriods(expected, p, |lates|);
    }
  }

  lemma WholePeriods(expected: int, p: int, k: nat)
    ensures U32(U32(expected + p) + k * p) == U32(expected + (k + 1) * p)
  {
    assert (k + 1) * p == k * p + p;
    U32Plus(expected + p, k * p);
  }

  /** A wakeup 10 late with a request replayed: the next one is asked for 10 past the new expected time. */
  lemma ReplayedDelayLate()
    ensures InBand(1010, 1000, 1000) && Adjust(1010, 1000, 1000).expected == 2000 && U32(1010 + 1000) == 2010
  {
  }

  /** A request replayed at the end of a tick asks for a full period first, and the delay worked out
      then is ignored: the wakeup comes at the new expected time exactly when there was no jitter. */
  lemma ReplayedDelayIff(now: int, expected: int, p: int)
    requires 0 <= p < 0x4000_0000 && 0 <= now < TWO_32 && 0 <= expected < TWO_32 && InBand(now, expected, p)
    ensures U32(now + p) == Adjust(now, expected, p).expected <==> Jitter(now, expected) == 0
  {
    InBandIff(now, expected, p);
  }

  // ---------------------------------------------------------------- the timer object over a run

  /** iExpectedTimeout, and the scheduler's timer object: whether a wakeup is pending, after what delay. */
  datatype Clock = Clock(expected: int, ready: bool, delay: int)

  /** iCyclePeriod and iTickCountPeriod. */
  datatype Pace = Pace(period: int, tick: int)

  // The time at tick count `now`.
  function TimeAt(pace: Pace, now: int): (t: int)
    ensures 0 <= t < TWO_32
  {
    U32(now * pace.tick)
  }

  /** What a request does to the clock. */
  function Started(c: Clock, pace: Pace, now: int): Clock {
    Clock(if c.expected == 0 then U32(now * pace.tick + pace.period) else c.expected,
          true, if c.ready then c.delay else pace.period)
  }

  lemma StartedOnce(c: Clock, pace: Pace, now: int)
    ensures Started(Started(c, pace, now), pace, now) == Started(c, pace, now)
  {
  }

  /** What the end of a tick does to it, when timers are left. */
  function Rearmed(c: Clock, pace: Pace, now: int): Clock {
    var plan := Adjust(TimeAt(pace, now), c.expected, pace.period);
    Clock(plan.expected, true, if c.ready then c.delay else plan.wait)
  }

  /** A whole tick: asked says whether a callback made a request, none whether no timer is left. */
  function Elapsed(c: Clock, asked: bool, none: bool, pace: Pace, now: int): Clock {
    var c1 := if asked then Started(c.(ready := false), pace, now) else c.(ready := false);
    if none then c1.(expected := 0) else Rearmed(c1, pace, now)
  }

  // A tick starts with the pending wakeup gone.
  lemma ElapsedUnready(c: Clock)
    ensures forall asked, none, pace, now ::
      Elapsed(c.(ready := false), asked, none, pace, now) == Elapsed(c, asked, none, pace, now)
  {
  }

  predicate Asks(g: Observer, es: seq<Entry>, cb: nat -> seq<Action>) {
    Requests(TickActions(g, es, cb)) > 0
  }

  function ClockAfter(g: Observer, es: seq<Entry>, next: nat, c: Clock, pace: Pace, ev: Event, now: int): Clock {
    match ev
    case Ticked(cb) => Elapsed(c, Asks(g, es, cb), After(g, es, next, ev).0 == [], pace, now)
    case Called(Request(_, _, _, _, _)) => Started(c, pace, now)
    case Called(Cancel(_, _)) => c
  }

  /** The clock after a run whose i-th event comes at tick count nows[i]. */
  function ClockAfterAll(g: Observer, es: seq<Entry>, next: nat, c: Clock, pace: Pace, evs: seq<Event>,
                         nows: seq<int>): Clock
    requires |nows| == |evs|
    decreases |evs|
  {
    if evs == [] then c
    else
      var s := After(g, es, next, evs[0]);
      ClockAfterAll(g, s.0, s.1, ClockAfter(g, es, next, c, pace, evs[0], nows[0]), pace, evs[1..], nows[1..])
  }

  /** The pending wakeup, asked for at time last, is due at the expected time. */
  predicate OnCourse(c: Clock, last: int) {
    c.ready && U32(last + c.delay) == c.expected
  }

  /** No tick comes more than a period before or after the delay asked for, asks for a timer or
      leaves none pending; no request restarts the expected time. */
  ghost predicate Steady(g: Observer, es: seq<Entry>, next: nat, c: Clock, pace: Pace, last: int,
                         evs: seq<Event>, nows: seq<int>)
    requires |nows| == |evs|
    decreases |evs|
  {
    evs == [] ||
    var s := After(g, es, next, evs[0]);
    var c' := ClockAfter(g, es, next, c, pace, evs[0], nows[0]);
    match evs[0]
    case Ticked(cb) =>
      && !Asks(g, es, cb) && s.0 != []
      && -pace.period <= I32(TimeAt(pace, nows[0]) - (last + c.delay)) <= pace.period
      && Steady(g, s.0, s.1, c', pace, TimeAt(pace, nows[0]), evs[1..], nows[1..])
    case Called(act) =>
      (act.Request? ==> c.expected != 0) && Steady(g, s.0, s.1, c', pace, last, evs[1..], nows[1..])
  }

  lemma SameLateness(time: int, due: int)
    ensures I32(time - due) == I32(time - U32(due))
  {
    U32Plus(due, -time);
    assert U32(time - due) == U32(time - U32(due));
  }

  lemma SteadyTick(c: Clock, pace: Pace, last: int, now: int)
    requires 0 <= pace.period < 0x4000_0000 && OnCourse(c, last)
    requires -pace.period <= I32(TimeAt(pace, now) - (last + c.delay)) <= pace.period
    ensures var r := Elapsed(c, false, false, pace, now);
      r.expected == U32(c.expected + pace.period) && OnCourse(r, TimeAt(pace, now))
  {
    SameLateness(TimeAt(pace, now), last + c.delay);
    hide U32, I32, Adjust;
    InBandExact(TimeAt(pace, now), c.expected, pace.period);
  }

  /** Over a whole run of the timer each tick moves the expected time by one period exactly,
      however early or late, by up to a period, every wakeup comes. */
  lemma {:induction false} DriftFreeRun(g: Observer, es: seq<Entry>, next: nat, c: Clock, pace: Pace, last: int,
                                        evs: seq<Event>, nows: seq<int>)
    requires |nows| == |evs| && 0 <= pace.period < 0x4000_0000 && OnCourse(c, last)
    requires Steady(g, es, next, c, pace, last, evs, nows)
    ensures var r := ClockAfterAll(g, es, next, c, pace, evs, nows);
      r.ready && r.expected == U32(c.expected + Ticks(evs) * pace.period)
    decreases |evs|
  {
    hide U32, I32, Adjust, After, Asks;
    if evs == [] {
      U32Plus(last + c.delay, 0);
    } else {
      var s := After(g, es, next, evs[0]);
      var c' := ClockAfter(g, es, next, c, pace, evs[0], nows[0]);
      if evs[0].Ticked? {
        SteadyTick(c, pace, last, nows[0]);
        DriftFreeRun(g, s.0, s.1, c', pace, TimeAt(pace, nows[0]), evs[1..], nows[1..]);
        WholePeriods(c.expected, pace.period, Ticks(evs[1..]));
      } else {
        DriftFreeRun(g, s.0, s.1, c', pace, last, evs[1..], nows[1..]);
      }
    }
  }

  // ---------------------------------------------------------------- restarts

  /** A tick that comes more than a period after the delay asked for restarts the count: the next is due at once. */
  lemma LateTick(c: Clock, pace: Pace, last: int, now: int)
    requires 0 <= pace.period < 0x4000_0000 && OnCourse(c, last)
    requires I32(TimeAt(pace, now) - (last + c.delay)) > pace.period
    ensures Elapsed(c, false, false, pace, now) == Clock(TimeAt(pace, now), true, 0)
    ensures OnCourse(Elapsed(c, false, false, pace, now), TimeAt(pace, now))
  {
    SameLateness(TimeAt(pace, now), last + c.delay);
    hide U32, I32, Adjust;
    OutOfBand(TimeAt(pace, now), c.expected, pace.period);
    U32Plus(TimeAt(pace, now), 0);
    Word(TimeAt(pace, now));
  }

  lemma Word(x: int)
    requires 0 <= x < TWO_32
    ensures U32(x) == x
  {
  }

  /** One that comes more than a period before it leaves the clock off course: the next wakeup is asked for a period
      after the one that this one was early for.  When that one comes to time it counts as late, the count restarts
      once more, and the clock is on course again. */
  lemma EarlyTick(c: Clock, pace: Pace, last: int, now: int, now2: int)
    requires 0 <= pace.period < 0x4000_0000 && OnCourse(c, last)
    requires var early := I32(TimeAt(pace, now) - (last + c.delay));
      early < -pace.period && pace.period - early < TWO_31
    requires TimeAt(pace, now2) == U32(c.expected + pace.period)
    ensures var r := Elapsed(c, false, false, pace, now);
      && r.expected == TimeAt(pace, now) && U32(TimeAt(pace, now) + r.delay) == U32(c.expected + pace.period)
      && !OnCourse(r, TimeAt(pace, now))
      && var r2 := Elapsed(r, false, false, pace, now2);
        r2 == Clock(TimeAt(pace, now2), true, 0) && OnCourse(r2, TimeAt(pace, now2))
  {
    var time, time2, p := TimeAt(pace, now), TimeAt(pace, now2), pace.period;
    var early := I32(time - (last + c.delay));
    SameLateness(time, last + c.delay);
    Word(time);
    Word(time2);
    hide U32, I32, Adjust, Elapsed;
    EarlyDelay(time, c.expected, p, early);
    OutTick(c, pace, now);
    OutTick(Elapsed(c, false, false, pace, now), pace, now2);
  }

  lemma OutTick(c: Clock, pace: Pace, now: int)
    requires 0 <= pace.period < 0x4000_0000 && !InBand(TimeAt(pace, now), c.expected, pace.period)
    ensures var r, jitter := Elapsed(c, false, false, pace, now), Jitter(TimeAt(pace, now), c.expected);
      && r.ready && r.expected == TimeAt(pace, now)
      && (jitter > pace.period ==> r.delay == 0)
      && (jitter < -pace.period && pace.period - jitter < TWO_31 ==> r.delay == pace.period - jitter)
  {
    OutOfBand(TimeAt(pace, now), c.expected, pace.period);
  }

  lemma EarlyDelay(time: int, expected: int, p: int, early: int)
    requires 0 <= p && Jitter(time, expected) == early < -p && p - early < TWO_31
    ensures U32(time + (p - early)) == U32(expected + p) && Jitter(U32(expected + p), time) == p - early
    ensures U32(time + (p - early)) != U32(time)
  {
    SameWord(time - expected);
    SumWord(time - expected, early, expected + p - early);
    Ahead(time, p - early);
  }

  lemma SameWord(x: int)
    ensures U32(x) == U32(I32(x))
  {
  }

  lemma SumWord(x: int, y: int, z: int)
    requires U32(x) == U32(y)
    ensures U32(x + z) == U32(y + z)
  {
    U32Plus(x, z);
    U32Plus(y, z);
  }

  lemma Ahead(time: int, d: int)
    requires 0 < d < TWO_31
    ensures I32(U32(time + d) - time) == d && U32(time + d) != U32(time)
  {
  }

  /** Where the count of periods last restarted, and how many ticks have come since. */
  datatype Base = Base(from: int, ticks: nat)

  /** What a run makes of it: a tick more than a period late restarts it, any other tick counts. */
  ghost function Counted(g: Observer, es: seq<Entry>, next: nat, c: Clock, pace: Pace, last: int,
                         evs: seq<Event>, nows: seq<int>, b: Base): Base
    requires |nows| == |evs|
    decreases |evs|
  {
    if evs == [] then b
    else
      var s, c' := After(g, es, next, evs[0]), ClockAfter(g, es, next, c, pace, evs[0], nows[0]);
      if evs[0].Called? then Counted(g, s.0, s.1, c', pace, last, evs[1..], nows[1..], b)
      else
        var time := TimeAt(pace, nows[0]);
        Counted(g, s.0, s.1, c', pace, time, evs[1..], nows[1..],
                if I32(time - (last + c.delay)) > pace.period then Base(time, 0) else Base(b.from, b.ticks + 1))
  }

  /** Steady, but that ticks may come as late as they like. */
  ghost predicate Lasting(g: Observer, es: seq<Entry>, next: nat, c: Clock, pace: Pace, last: int,
                          evs: seq<Event>, nows: seq<int>)
    requires |nows| == |evs|
    decreases |evs|
  {
    evs == [] ||
    var s := After(g, es, next, evs[0]);
    var c' := ClockAfter(g, es, next, c, pace, evs[0], nows[0]);
    match evs[0]
    case Ticked(cb) =>
      && !Asks(g, es, cb) && s.0 != []
      && -pace.period <= I32(TimeAt(pace, nows[0]) - (last + c.delay))
      && Lasting(g, s.0, s.1, c', pace, TimeAt(pace, nows[0]), evs[1..], nows[1..])
    case Called(act) =>
      (act.Request? ==> c.expected != 0) && Lasting(g, s.0, s.1, c', pace, last, evs[1..], nows[1..])
  }

  /** Over a whole run with late ticks in it, however late, the expected time is as many periods after the last
      of them, or after where it began, as ticks have come since. */
  lemma {:induction false} RestartRun(g: Observer, es: seq<Entry>, next: nat, c: Clock, pace: Pace, last: int,
                                      evs: seq<Event>, nows: seq<int>, b: Base)
    requires |nows| == |evs| && 0 <= pace.period < 0x4000_0000 && OnCourse(c, last)
    requires Lasting(g, es, next, c, pace, last, evs, nows) && c.expected == U32(b.from + b.ticks * pace.period)
    ensures var r, b' := ClockAfterAll(g, es, next, c, pace, evs, nows),
                         Counted(g, es, next, c, pace, last, evs, nows, b);
      r.ready && r.expected == U32(b'.from + b'.ticks * pace.period)
    decreases |evs|
  {
    hide U32, I32, Adjust, After, Asks, OnCourse, Elapsed;
    if evs == [] {
      OnCourseReady(c, last);
    } else {
      var s := After(g, es, next, evs[0]);
      var c' := ClockAfter(g, es, next, c, pace, evs[0], nows[0]);
      if evs[0].Called? {
        if evs[0].act.Request? {
          CallOnCourse(c, pace, last, nows[0]);
        }
        RestartRun(g, s.0, s.1, c', pace, last, evs[1..], nows[1..], b);
      } else {
        var time := TimeAt(pace, nows[0]);
        if I32(time - (last + c.delay)) > pace.period {
          LateTick(c, pace, last, nows[0]);
          Word(time);
          RestartRun(g, s.0, s.1, c', pace, time, evs[1..], nows[1..], Base(time, 0));
        } else {
          SteadyTick(c, pace, last, nows[0]);
          NextPeriod(b.from, b.ticks, pace.period);
          RestartRun(g, s.0, s.1, c', pace, time, evs[1..], nows[1..], Base(b.from, b.ticks + 1));
        }
      }
    }
  }

  lemma OnCourseReady(c: Clock, last: int)
    requires OnCourse(c, last)
    ensures c.ready
  {
  }

  lemma CallOnCourse(c: Clock, pace: Pace, last: int, now: int)
    requires OnCourse(c, last) && c.expected != 0
    ensures Started(c, pace, now) == c
  {
  }

  lemma NextPeriod(from: int, ticks: nat, p: int)
    ensures U32(U32(from + ticks * p) + p) == U32(from + (ticks + 1) * p)
  {
    U32Plus(from + ticks * p, p);
    assert (ticks + 1) * p == ticks * p + p;
  }

  /** Two ticks of period 1000 from expected time 1000: at 4500 the count restarts, at 4510 it goes on from there. */
  lemma RestartAt()
    ensures Adjust(4500, 1000, 1000) == Plan(4500, 0) && Adjust(4510, 4500, 1000) == Plan(5500, 990)
  {
  }

  /** A tick that leaves no timer stops the clock: the next request starts it again from its own time. */
  lemma StoppedThenStarted(c: Clock, pace: Pace, now: int, later: int)
    ensures var r := Started(Elapsed(c, false, true, pace, now), pace, later);
      OnCourse(r, TimeAt(pace, later)) && r.delay == pace.period
  {
    U32Plus(later * pace.tick, pace.period);
  }

  /** A tick in which a callback asked for a timer leaves the clock off course unless it came to time. */
  lemma ReplayedOnCourseIff(c: Clock, pace: Pace, now: int)
    requires 0 <= pace.period < 0x4000_0000 && 0 <= c.expected < TWO_32
    requires InBand(TimeAt(pace, now), Started(c, pace, now).expected, pace.period)
    ensures OnCourse(Elapsed(c, true, false, pace, now), TimeAt(pace, now)) <==>
            Jitter(TimeAt(pace, now), Started(c, pace, now).expected) == 0
  {
    ReplayedDelayIff(TimeAt(pace, now), Started(c, pace, now).expected, pace.period);
  }

  /** The first request after an idle spell puts the clock on course. */
  lemma FirstOnCourse(c: Clock, pace: Pace, now: int)
    requires c.expected == 0 && !c.ready
    ensures OnCourse(Started(c, pace, now), TimeAt(pace, now))
  {
    U32Plus(now * pace.tick, pace.period);
  }
}
