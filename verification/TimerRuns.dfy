/** Runs of OsclTimer: at which ticks one timer fires, whatever else happens. */
module TimerRuns {
  import opened TimerSpec

  // ---------------------------------------------------------------- what each step keeps

  /** Timers are listed in the order of their requests, and the next serial number is new. */
  ghost predicate Numbered(es: seq<Entry>, next: nat) {
    && (forall e :: e in es ==> e.serial < next)
    && (forall i, j :: 0 <= i < j < |es| ==> es[i].serial < es[j].serial)
  }

  lemma HitIn(es: seq<Entry>, e: Entry)
    requires e in es
    ensures Hit(e) in HitAll(es)
  {
    var i :| 0 <= i < |es| && es[i] == e;
    assert HitAll(es)[i] == Hit(e);
  }

  lemma HitFrom(es: seq<Entry>, h: Entry) returns (e: Entry)
    requires h in HitAll(es)
    ensures e in es && h == Hit(e)
  {
    var i :| 0 <= i < |es| && HitAll(es)[i] == h;
    e := es[i];
  }

  lemma {:induction false} RunningIs(es: seq<Entry>, e: Entry)
    ensures e in Running(es) <==> e in es && e.counter > 0
  {
    if es != [] {
      RunningIs(es[1..], e);
      assert e in es <==> e == es[0] || e in es[1..];
    }
  }

  lemma {:induction false} RunningNumbered(es: seq<Entry>, next: nat)
    requires Numbered(es, next)
    ensures Numbered(Running(es), next)
  {
    if es != [] {
      TailNumbered(es, next);
      RunningNumbered(es[1..], next);
      var r := Running(es[1..]);
      forall e | e in r
        ensures e in es[1..]
      {
        RunningIs(es[1..], e);
      }
      if es[0].counter > 0 {
        HeadNumbered(es, r, next);
      }
    }
  }

  lemma {:induction false} CancelIs(es: seq<Entry>, id: int, param: int, next: nat)
    requires Numbered(es, next)
    ensures Numbered(CancelFirst(es, id, param), next)
    ensures forall e :: e in CancelFirst(es, id, param) ==> e in es
  {
    if es != [] {
      TailNumbered(es, next);
      if !Matches(es[0], id, param) {
        CancelIs(es[1..], id, param, next);
        HeadNumbered(es, CancelFirst(es[1..], id, param), next);
      }
    }
  }

  lemma TailNumbered(es: seq<Entry>, next: nat)
    requires Numbered(es, next) && es != []
    ensures Numbered(es[1..], next) && forall e :: e in es[1..] ==> e in es
  {
  }

  lemma HeadNumbered(es: seq<Entry>, r: seq<Entry>, next: nat)
    requires Numbered(es, next) && es != [] && Numbered(r, next) && forall e :: e in r ==> e in es[1..]
    ensures Numbered([es[0]] + r, next) && forall e :: e in [es[0]] + r ==> e in es
  {
    forall i | 0 <= i < |r|
      ensures r[i].serial > es[0].serial
    {
      assert r[i] in es[1..];
      var k :| 0 <= k < |es[1..]| && es[1..][k] == r[i];
      assert es[k + 1] == r[i];
    }
    forall e | e in [es[0]] + r
      ensures e in es && e.serial < next
    {
      assert e == es[0] || e in r;
    }
  }

  lemma {:induction false} CancelAllIs(es: seq<Entry>, acts: seq<Action>, next: nat)
    requires Numbered(es, next)
    ensures Numbered(CancelAll(es, acts), next)
    ensures forall e :: e in CancelAll(es, acts) ==> e in es
    decreases |acts|
  {
    if acts != [] {
      if acts[0].Cancel? {
        CancelIs(es, acts[0].id, acts[0].param, next);
        CancelAllIs(CancelFirst(es, acts[0].id, acts[0].param), acts[1..], next);
      } else {
        CancelAllIs(es, acts[1..], next);
      }
    }
  }

  lemma {:induction false} AddAllIs(es: seq<Entry>, acts: seq<Action>, next: nat)
    requires Numbered(es, next)
    ensures Numbered(AddAll(es, acts, next), next + Requests(acts))
    ensures forall e: Entry :: e.serial < next ==> (e in AddAll(es, acts, next) <==> e in es)
    decreases |acts|
  {
    if acts != [] {
      if acts[0].Request? {
        var n := NewEntry(next, acts[0].id, acts[0].param, acts[0].cycles, acts[0].obs, false);
        AddAllIs(es + [n], acts[1..], next + 1);
      } else {
        AddAllIs(es, acts[1..], next);
      }
    }
  }

  lemma SweptNumbered(es: seq<Entry>, next: nat)
    requires Numbered(es, next)
    ensures Numbered(Swept(es), next)
  {
    assert Numbered(HitAll(es), next) by {
      forall h | h in HitAll(es)
        ensures h.serial < next
      {
        var e := HitFrom(es, h);
      }
    }
    RunningNumbered(HitAll(es), next);
  }

  /** A tick takes an entry off the list, cancels aside, exactly when its counter stays spent and
      some one-shot timer is due: a recurring timer with a positive period never goes. */
  lemma SweptIff(es: seq<Entry>, next: nat, e: Entry)
    requires Numbered(es, next) && e in es
    ensures Hit(e) in Swept(es) <==> Hit(e).counter > 0 || !OneShotDue(es)
    ensures (forall h :: h in Swept(es) ==> h.serial != e.serial) <==> Hit(e).counter <= 0 && OneShotDue(es)
  {
    HitIn(es, e);
    RunningIs(HitAll(es), Hit(e));
    forall h | h in Swept(es) && h.serial == e.serial
      ensures h == Hit(e) && (OneShotDue(es) ==> h.counter > 0)
    {
      RunningIs(HitAll(es), h);
      var e' := HitFrom(es, h);
      var i :| 0 <= i < |es| && es[i] == e;
      var j :| 0 <= j < |es| && es[j] == e';
      assert i == j;
    }
  }

  // ---------------------------------------------------------------- firing

  function Count(fs: seq<Fired>, q: nat): nat {
    if fs == [] then 0 else Count(fs[..|fs| - 1], q) + if fs[|fs| - 1].serial == q then 1 else 0
  }

  lemma CountPlus(a: seq<Fired>, f: Fired, q: nat)
    ensures Count(a + [f], q) == Count(a, q) + if f.serial == q then 1 else 0
  {
    assert (a + [f])[..|a|] == a;
  }

  lemma {:induction false} NoFire(g: Observer, es: seq<Entry>, q: nat)
    requires forall e :: e in es ==> e.serial != q
    ensures Count(Fires(g, es), q) == 0
  {
    if es != [] {
      var n := |es| - 1;
      NoFire(g, es[..n], q);
      if Due(es[n]) && Target(g, es[n]) != 0 {
        CountPlus(Fires(g, es[..n]), Fired(es[n].serial, Target(g, es[n]), es[n].id, es[n].param), q);
      }
    }
  }

  /** In one tick a pending timer with an observer is called back once if it is due, else never. */
  lemma {:induction false} FireOnce(g: Observer, es: seq<Entry>, next: nat, e: Entry)
    requires Numbered(es, next) && e in es
    ensures Count(Fires(g, es), e.serial) == if Due(e) && Target(g, e) != 0 then 1 else 0
  {
    var n := |es| - 1;
    var f := Fired(es[n].serial, Target(g, es[n]), es[n].id, es[n].param);
    CountPlus(Fires(g, es[..n]), f, e.serial);
    if es[n] == e {
      NoFire(g, es[..n], e.serial);
    } else {
      assert e in es[..n] by {
        var i :| 0 <= i < |es| && es[i] == e;
        assert es[..n][i] == e;
      }
      FireOnce(g, es[..n], next, e);
      assert es[n].serial != e.serial;
    }
  }

  // ---------------------------------------------------------------- runs

  /** A tick with what its callbacks do, or a call from outside any callback. */
  datatype Event = Ticked(cb: nat -> seq<Action>) | Called(act: Action)

  function After(g: Observer, es: seq<Entry>, next: nat, ev: Event): (seq<Entry>, nat) {
    match ev
    case Ticked(cb) => (Tick(g, es, cb, next), next + Requests(TickActions(g, es, cb)))
    case Called(Request(id, param, cycles, obs, rec)) => (es + [NewEntry(next, id, param, cycles, obs, rec)], next + 1)
    case Called(Cancel(id, param)) => (CancelFirst(es, id, param), next)
  }

  /** The callbacks that an event makes. */
  function CalledBack(g: Observer, es: seq<Entry>, ev: Event): seq<Fired> {
    if ev.Ticked? then Fires(g, es) else []
  }

  function AfterAll(g: Observer, es: seq<Entry>, next: nat, evs: seq<Event>): (seq<Entry>, nat)
    decreases |evs|
  {
    if evs == [] then (es, next)
    else var s := After(g, es, next, evs[0]); AfterAll(g, s.0, s.1, evs[1..])
  }

  function AllCalledBack(g: Observer, es: seq<Entry>, next: nat, evs: seq<Event>): seq<Fired>
    decreases |evs|
  {
    if evs == [] then []
    else var s := After(g, es, next, evs[0]); CalledBack(g, es, evs[0]) + AllCalledBack(g, s.0, s.1, evs[1..])
  }

  lemma AfterNumbered(g: Observer, es: seq<Entry>, next: nat, ev: Event)
    requires Numbered(es, next)
    ensures Numbered(After(g, es, next, ev).0, After(g, es, next, ev).1) && next <= After(g, es, next, ev).1
  {
    match ev
    case Ticked(cb) =>
      var acts := TickActions(g, es, cb);
      SweptNumbered(es, next);
      CancelAllIs(Swept(es), acts, next);
      AddAllIs(CancelAll(Swept(es), acts), acts, next);
    case Called(Request(id, param, cycles, obs, rec)) =>
    case Called(Cancel(id, param)) =>
      CancelIs(es, id, param, next);
  }

  /** No Cancel, queued or direct, takes the timer with serial q off the list. */
  ghost predicate Spared(g: Observer, es: seq<Entry>, next: nat, evs: seq<Event>, q: nat)
    decreases |evs|
  {
    evs == [] || (SparedBy(g, es, evs[0], q)
                  && Spared(g, After(g, es, next, evs[0]).0, After(g, es, next, evs[0]).1, evs[1..], q))
  }

  ghost predicate SparedBy(g: Observer, es: seq<Entry>, ev: Event, q: nat) {
    match ev
    case Ticked(cb) => forall e :: e in Swept(es) && e.serial == q ==> e in CancelAll(Swept(es), TickActions(g, es, cb))
    case Called(Request(_, _, _, _, _)) => true
    case Called(Cancel(id, param)) => forall e :: e in es && e.serial == q ==> e in CancelFirst(es, id, param)
  }

  function Ticks(evs: seq<Event>): nat {
    if evs == [] then 0 else Ticks(evs[1..]) + if evs[0].Ticked? then 1 else 0
  }

  /** How often the timer with serial q is called back in the t-th tick of the run, counting from 1. */
  function FiredAt(g: Observer, es: seq<Entry>, next: nat, evs: seq<Event>, q: nat, t: nat): nat
    decreases |evs|
  {
    if evs == [] then 0
    else
      var s := After(g, es, next, evs[0]);
      if evs[0].Ticked? then
        if t <= 1 then Count(Fires(g, es), q) else FiredAt(g, s.0, s.1, evs[1..], q, t - 1)
      else FiredAt(g, s.0, s.1, evs[1..], q, t)
  }

  ghost predicate Gone(es: seq<Entry>, q: nat) {
    forall e :: e in es ==> e.serial != q
  }

  lemma {:induction false} GoneStays(g: Observer, es: seq<Entry>, next: nat, evs: seq<Event>, q: nat, t: nat)
    requires Numbered(es, next) && Gone(es, q) && q < next && t >= 1
    ensures FiredAt(g, es, next, evs, q, t) == 0
    decreases |evs|
  {
    if evs != [] {
      AfterNumbered(g, es, next, evs[0]);
      var s := After(g, es, next, evs[0]);
      GoneAfter(g, es, next, evs[0], q);
      NoFire(g, es, q);
      if evs[0].Called? || t > 1 {
        GoneStays(g, s.0, s.1, evs[1..], q, if evs[0].Ticked? then t - 1 else t);
      }
    }
  }

  lemma GoneAfter(g: Observer, es: seq<Entry>, next: nat, ev: Event, q: nat)
    requires Numbered(es, next) && q < next
    requires Gone(es, q) || (ev.Ticked? && Gone(Swept(es), q))
    ensures Gone(After(g, es, next, ev).0, q)
  {
    match ev
    case Ticked(cb) =>
      var acts := TickActions(g, es, cb);
      SweptNumbered(es, next);
      forall h | h in Swept(es)
        ensures h.serial != q
      {
        RunningIs(HitAll(es), h);
        var e := HitFrom(es, h);
      }
      CancelAllIs(Swept(es), acts, next);
      AddAllIs(CancelAll(Swept(es), acts), acts, next);
    case Called(Request(id, param, cycles, obs, rec)) =>
    case Called(Cancel(id, param)) =>
      CancelIs(es, id, param, next);
  }

  // A spared timer that is not spent is still there after the event, one tick nearer if it was one.
  lemma StaysAfter(g: Observer, es: seq<Entry>, next: nat, ev: Event, e: Entry)
    requires Numbered(es, next) && e in es && SparedBy(g, es, ev, e.serial)
    requires ev.Ticked? ==> Hit(e).counter > 0
    ensures (if ev.Ticked? then Hit(e) else e) in After(g, es, next, ev).0
  {
    match ev
    case Ticked(cb) =>
      var acts := TickActions(g, es, cb);
      SweptIff(es, next, e);
      SweptNumbered(es, next);
      CancelAllIs(Swept(es), acts, next);
      AddAllIs(CancelAll(Swept(es), acts), acts, next);
    case Called(Request(id, param, cycles, obs, rec)) =>
    case Called(Cancel(id, param)) =>
  }

  lemma SerialBelow(es: seq<Entry>, next: nat, e: Entry)
    requires Numbered(es, next) && e in es
    ensures e.serial < next
  {
  }

  // What the first event of a run says about the rest.
  lemma OneEvent(g: Observer, es: seq<Entry>, next: nat, evs: seq<Event>, q: nat, t: nat)
    requires evs != [] && t >= 1 && Spared(g, es, next, evs, q)
    ensures var s := After(g, es, next, evs[0]);
      && SparedBy(g, es, evs[0], q)
      && Spared(g, s.0, s.1, evs[1..], q)
      && Ticks(evs) == Ticks(evs[1..]) + (if evs[0].Ticked? then 1 else 0)
      && FiredAt(g, es, next, evs, q, t) ==
        if !evs[0].Ticked? then FiredAt(g, s.0, s.1, evs[1..], q, t)
        else if t == 1 then Count(Fires(g, es), q)
        else FiredAt(g, s.0, s.1, evs[1..], q, t - 1)
  {
  }

  /** A one-shot timer that nobody cancels fires once, at the max(1, counter)-th tick from here. */
  lemma {:induction false} OneShotFires(g: Observer, es: seq<Entry>, next: nat, evs: seq<Event>, e: Entry, t: nat)
    requires Numbered(es, next) && e in es && !e.recurring && Target(g, e) != 0
    requires Spared(g, es, next, evs, e.serial) && 1 <= t <= Ticks(evs)
    ensures FiredAt(g, es, next, evs, e.serial, t) == if t == (if e.counter >= 1 then e.counter else 1) then 1 else 0
    decreases |evs|
  {
    hide Numbered, After, Spared, SparedBy, FiredAt, Count, Fires, Swept;
    var q := e.serial;
    OneEvent(g, es, next, evs, q, t);
    AfterNumbered(g, es, next, evs[0]);
    var s := After(g, es, next, evs[0]);
    FireOnce(g, es, next, e);
    if evs[0].Ticked? && Due(e) {
      SerialBelow(es, next, e);
      var i :| 0 <= i < |es| && es[i] == e;
      assert OneShotDue(es);
      SweptIff(es, next, e);
      GoneAfter(g, es, next, evs[0], q);
      if t > 1 {
        GoneStays(g, s.0, s.1, evs[1..], q, t - 1);
      }
    } else {
      StaysAfter(g, es, next, evs[0], e);
      if evs[0].Ticked? {
        if t > 1 {
          OneShotFires(g, s.0, s.1, evs[1..], Hit(e), t - 1);
        }
      } else {
        OneShotFires(g, s.0, s.1, evs[1..], e, t);
      }
    }
  }

  /** A recurring timer with period n >= 1, counter ticks from firing, fires at that tick and at
      every n-th tick after it, and at no other. */
  lemma {:induction false} RecurringFires(g: Observer, es: seq<Entry>, next: nat, evs: seq<Event>, e: Entry, t: nat)
    requires Numbered(es, next) && e in es && e.recurring && Target(g, e) != 0 && 1 <= e.counter <= e.orig
    requires Spared(g, es, next, evs, e.serial) && 1 <= t <= Ticks(evs)
    ensures FiredAt(g, es, next, evs, e.serial, t) == if RunsOut(e.counter, e.orig, t) then 1 else 0
    decreases |evs|
  {
    hide Numbered, After, Spared, SparedBy, FiredAt, Count, Fires;
    OneEvent(g, es, next, evs, e.serial, t);
    AfterNumbered(g, es, next, evs[0]);
    var s := After(g, es, next, evs[0]);
    FireOnce(g, es, next, e);
    StaysAfter(g, es, next, evs[0], e);
    if evs[0].Ticked? {
      if t > 1 {
        RecurringFires(g, s.0, s.1, evs[1..], Hit(e), t - 1);
      }
    } else {
      RecurringFires(g, s.0, s.1, evs[1..], e, t);
    }
  }

  // Whether a counter that stands at c, and restarts at n, runs out at tick t.
  ghost predicate RunsOut(c: int, n: int, t: nat)
    decreases t
  {
    if t <= 1 then t == 1 && c == 1 else RunsOut(if c == 1 then n else c - 1, n, t - 1)
  }

  lemma {:induction false} RunsOutIs(c: int, n: int, t: nat)
    requires 1 <= c <= n && t >= 1
    ensures RunsOut(c, n, t) <==> t >= c && (t - c) % n == 0
    decreases t
  {
    if t == 1 {
      if c == 1 {
        SmallRemainder(0, n);
      }
    } else {
      RunsOutIs(if c == 1 then n else c - 1, n, t - 1);
      if c == 1 {
        if t - 1 >= n {
          SameRemainder(t - 1, n);
        } else {
          SmallRemainder(t - 1, n);
        }
      }
    }
  }

  lemma SmallRemainder(d: int, n: int)
    requires 0 <= d < n
    ensures d % n == d
  {
  }

  lemma SameRemainder(d: int, n: int)
    requires n >= 1
    ensures d % n == (d - n) % n
  {
    var q, r, q', r' := d / n, d % n, (d - n) / n, (d - n) % n;
    assert d == q * n + r && d - n == q' * n + r';
    var k := q - q' - 1;
    assert k * n == q * n - q' * n - n;
    assert k * n == r' - r;
    Multiple(k, n);
  }

  lemma Multiple(k: int, n: int)
    requires n >= 1 && -n < k * n < n
    ensures k == 0
  {
    if k >= 1 {
      AtLeast(k, n);
    } else if k <= -1 {
      AtLeast(-k, n);
    }
  }

  lemma AtLeast(k: int, n: int)
    requires k >= 1 && n >= 1
    ensures k * n >= n && -k * n <= -n
  {
    assert (k - 1) * n >= 0;
  }

  /** Some one-shot timer is due in a tick before the t-th. */
  ghost predicate SweptBefore(g: Observer, es: seq<Entry>, next: nat, evs: seq<Event>, t: nat)
    decreases |evs|
  {
    if evs == [] then false
    else
      var s := After(g, es, next, evs[0]);
      if evs[0].Ticked? then t > 1 && (OneShotDue(es) || SweptBefore(g, s.0, s.1, evs[1..], t - 1))
      else SweptBefore(g, s.0, s.1, evs[1..], t)
  }

  /** A recurring timer without a positive period fires at every tick, up to and including the
      first one in which some one-shot timer is due: that tick takes it off the list. */
  lemma {:induction false} SpentFires(g: Observer, es: seq<Entry>, next: nat, evs: seq<Event>, e: Entry, t: nat)
    requires Numbered(es, next) && e in es && e.recurring && Target(g, e) != 0 && e.counter == e.orig <= 0
    requires Spared(g, es, next, evs, e.serial) && 1 <= t <= Ticks(evs)
    ensures FiredAt(g, es, next, evs, e.serial, t) == if SweptBefore(g, es, next, evs, t) then 0 else 1
    decreases |evs|
  {
    hide Numbered, After, Spared, SparedBy, FiredAt, Count, Fires, Swept, OneShotDue;
    OneEvent(g, es, next, evs, e.serial, t);
    AfterNumbered(g, es, next, evs[0]);
    var s := After(g, es, next, evs[0]);
    FireOnce(g, es, next, e);
    if evs[0].Ticked? && OneShotDue(es) {
      SerialBelow(es, next, e);
      SweptIff(es, next, e);
      GoneAfter(g, es, next, evs[0], e.serial);
      if t > 1 {
        GoneStays(g, s.0, s.1, evs[1..], e.serial, t - 1);
      }
    } else if evs[0].Ticked? {
      SpentStays(g, es, next, evs[0], e);
      if t > 1 {
        SpentFires(g, s.0, s.1, evs[1..], e, t - 1);
      }
    } else {
      StaysAfter(g, es, next, evs[0], e);
      SpentFires(g, s.0, s.1, evs[1..], e, t);
    }
  }

  // A tick in which no one-shot timer is due sweeps nothing.
  lemma SpentStays(g: Observer, es: seq<Entry>, next: nat, ev: Event, e: Entry)
    requires Numbered(es, next) && e in es && SparedBy(g, es, ev, e.serial) && ev.Ticked?
    requires e.recurring && e.counter == e.orig <= 0 && !OneShotDue(es)
    ensures e in After(g, es, next, ev).0
  {
    var acts := TickActions(g, es, ev.cb);
    SweptIff(es, next, e);
    SweptNumbered(es, next);
    CancelAllIs(Swept(es), acts, next);
    AddAllIs(CancelAll(Swept(es), acts), acts, next);
  }

  /** How often the timer that act asks for fires in the t-th tick after it, if it is not cancelled. */
  ghost function FiresOf(g: Observer, es: seq<Entry>, next: nat, act: Action, evs: seq<Event>, t: nat): nat
    requires act.Request?
  {
    if !act.recurring then if t == (if act.cycles >= 1 then act.cycles else 1) then 1 else 0
    else if act.cycles >= 1 then if t % act.cycles == 0 then 1 else 0
    else if SweptBefore(g, es, next, [Called(act)] + evs, t) then 0 else 1
  }

  /** Counting from the request: a timer asked for with cycles = n outside a callback. */
  lemma RequestFires(g: Observer, es: seq<Entry>, next: nat, act: Action, evs: seq<Event>, t: nat)
    requires Numbered(es, next) && act.Request? && (act.obs != 0 || g != 0)
    requires Spared(g, es, next, [Called(act)] + evs, next) && 1 <= t <= Ticks(evs)
    ensures FiredAt(g, es, next, [Called(act)] + evs, next, t) == FiresOf(g, es, next, act, evs, t)
  {
    var e := NewEntry(next, act.id, act.param, act.cycles, act.obs, act.recurring);
    var all := [Called(act)] + evs;
    AfterNumbered(g, es, next, all[0]);
    var s := After(g, es, next, all[0]);
    assert all[1..] == evs && s == (es + [e], next + 1);
    if !act.recurring {
      OneShotFires(g, s.0, s.1, evs, e, t);
    } else if act.cycles >= 1 {
      RecurringFires(g, s.0, s.1, evs, e, t);
      RunsOutIs(act.cycles, act.cycles, t);
      if t >= act.cycles {
        SameRemainder(t, act.cycles);
      } else {
        SmallRemainder(t, act.cycles);
      }
    } else {
      SpentFires(g, s.0, s.1, evs, e, t);
    }
  }

  // ---------------------------------------------------------------- the callbacks of a whole run

  /** The calls of the timer with serial q in the first n ticks, added up. */
  function FiredBy(g: Observer, es: seq<Entry>, next: nat, evs: seq<Event>, q: nat, n: nat): nat {
    if n == 0 then 0 else FiredBy(g, es, next, evs, q, n - 1) + FiredAt(g, es, next, evs, q, n)
  }

  lemma {:induction false} FiredByShift(g: Observer, es: seq<Entry>, next: nat, evs: seq<Event>, q: nat, n: nat)
    requires evs != []
    ensures var s := After(g, es, next, evs[0]);
      && (evs[0].Called? ==> FiredBy(g, es, next, evs, q, n) == FiredBy(g, s.0, s.1, evs[1..], q, n))
      && (evs[0].Ticked? && n >= 1 ==>
            FiredBy(g, es, next, evs, q, n) == Count(Fires(g, es), q) + FiredBy(g, s.0, s.1, evs[1..], q, n - 1))
  {
    hide After, Fires, Count;
    if n > 0 {
      FiredByShift(g, es, next, evs, q, n - 1);
    }
  }

  lemma {:induction false} CountJoin(a: seq<Fired>, b: seq<Fired>, q: nat)
    ensures Count(a + b, q) == Count(a, q) + Count(b, q)
  {
    if b == [] {
      assert a + b == a;
    } else {
      var n := |b| - 1;
      assert (a + b)[..|a| + n] == a + b[..n];
      CountJoin(a, b[..n], q);
    }
  }

  /** Every callback of a run happens in one of its ticks, and FiredAt counts them tick by tick. */
  lemma {:induction false} AllFired(g: Observer, es: seq<Entry>, next: nat, evs: seq<Event>, q: nat)
    ensures Count(AllCalledBack(g, es, next, evs), q) == FiredBy(g, es, next, evs, q, Ticks(evs))
    decreases |evs|
  {
    hide After, Fires, Count;
    if evs == [] {
      CountNothing(q);
    } else {
      var s := After(g, es, next, evs[0]);
      AllFired(g, s.0, s.1, evs[1..], q);
      FiredByShift(g, es, next, evs, q, Ticks(evs));
      CountJoin(CalledBack(g, es, evs[0]), AllCalledBack(g, s.0, s.1, evs[1..]), q);
      CountNothing(q);
    }
  }

  lemma CountNothing(q: nat)
    ensures Count([], q) == 0
  {
  }

  ghost function FiresOfBy(g: Observer, es: seq<Entry>, next: nat, act: Action, evs: seq<Event>, n: nat): nat
    requires act.Request?
  {
    if n == 0 then 0 else FiresOfBy(g, es, next, act, evs, n - 1) + FiresOf(g, es, next, act, evs, n)
  }

  lemma {:induction false} RequestFiresBy(g: Observer, es: seq<Entry>, next: nat, act: Action, evs: seq<Event>, n: nat)
    requires Numbered(es, next) && act.Request? && (act.obs != 0 || g != 0)
    requires Spared(g, es, next, [Called(act)] + evs, next) && n <= Ticks(evs)
    ensures FiredBy(g, es, next, [Called(act)] + evs, next, n) == FiresOfBy(g, es, next, act, evs, n)
  {
    hide Numbered, Spared, FiredAt, FiresOf, Ticks;
    if n > 0 {
      RequestFiresBy(g, es, next, act, evs, n - 1);
      RequestFires(g, es, next, act, evs, n);
    }
  }

  /** The ticks of a run up to and including the first in which some one-shot timer is due. */
  ghost function UntilSwept(g: Observer, es: seq<Entry>, next: nat, evs: seq<Event>): nat
    decreases |evs|
  {
    if evs == [] then 0
    else
      var s := After(g, es, next, evs[0]);
      if evs[0].Ticked? then 1 + (if OneShotDue(es) then 0 else UntilSwept(g, s.0, s.1, evs[1..]))
      else UntilSwept(g, s.0, s.1, evs[1..])
  }

  ghost function Unswept(g: Observer, es: seq<Entry>, next: nat, evs: seq<Event>, n: nat): nat {
    if n == 0 then 0 else Unswept(g, es, next, evs, n - 1) + if SweptBefore(g, es, next, evs, n) then 0 else 1
  }

  lemma {:induction false} UnsweptShift(g: Observer, es: seq<Entry>, next: nat, evs: seq<Event>, n: nat)
    requires evs != []
    ensures var s := After(g, es, next, evs[0]);
      && (evs[0].Called? ==> Unswept(g, es, next, evs, n) == Unswept(g, s.0, s.1, evs[1..], n))
      && (evs[0].Ticked? && n >= 1 ==>
            Unswept(g, es, next, evs, n) == 1 + if OneShotDue(es) then 0 else Unswept(g, s.0, s.1, evs[1..], n - 1))
  {
    hide After, OneShotDue;
    if n > 0 {
      UnsweptShift(g, es, next, evs, n - 1);
    }
  }

  lemma {:induction false} UnsweptIs(g: Observer, es: seq<Entry>, next: nat, evs: seq<Event>)
    ensures Unswept(g, es, next, evs, Ticks(evs)) == UntilSwept(g, es, next, evs)
    decreases |evs|
  {
    hide After, OneShotDue;
    if evs != [] {
      var s := After(g, es, next, evs[0]);
      UnsweptShift(g, es, next, evs, Ticks(evs));
      UnsweptIs(g, s.0, s.1, evs[1..]);
    }
  }

  lemma {:induction false} OftenOf(g: Observer, es: seq<Entry>, next: nat, act: Action, evs: seq<Event>, n: nat)
    requires act.Request?
    ensures !act.recurring ==>
      FiresOfBy(g, es, next, act, evs, n) == if n >= (if act.cycles >= 1 then act.cycles else 1) then 1 else 0
    ensures act.recurring && act.cycles >= 1 ==> FiresOfBy(g, es, next, act, evs, n) == n / act.cycles
    ensures act.recurring && act.cycles < 1 ==>
      FiresOfBy(g, es, next, act, evs, n) == Unswept(g, es, next, [Called(act)] + evs, n)
  {
    hide SweptBefore;
    if n > 0 {
      OftenOf(g, es, next, act, evs, n - 1);
    }
    if act.recurring && act.cycles >= 1 {
      if n == 0 {
        Quotient(0, 0, act.cycles);
      } else {
        NextQuotient(n, act.cycles);
      }
    }
  }

  lemma Quotient(q: int, r: int, n: int)
    requires 0 <= r < n
    ensures (q * n + r) / n == q && (q * n + r) % n == r
  {
    var d := q * n + r;
    assert d == d / n * n + d % n;
    var k := d / n - q;
    assert k * n == r - d % n;
    Multiple(k, n);
  }

  lemma NextQuotient(d: int, n: int)
    requires d >= 1 && n >= 1
    ensures d / n == (d - 1) / n + if d % n == 0 then 1 else 0
  {
    var q, r := d / n, d % n;
    assert d == q * n + r;
    if r == 0 {
      assert d - 1 == (q - 1) * n + (n - 1);
      Quotient(q - 1, n - 1, n);
    } else {
      Quotient(q, r - 1, n);
    }
  }

  /** What a run logs of a timer asked for outside a callback: a one-shot timer is called back once
      from its tick on, a recurring one with period n once for every n ticks, and one without a
      positive period at every tick until it is swept. */
  lemma RequestCount(g: Observer, es: seq<Entry>, next: nat, act: Action, evs: seq<Event>)
    requires Numbered(es, next) && act.Request? && (act.obs != 0 || g != 0)
    requires Spared(g, es, next, [Called(act)] + evs, next)
    ensures Count(AllCalledBack(g, es, next, [Called(act)] + evs), next) ==
            if !act.recurring then if Ticks(evs) >= (if act.cycles >= 1 then act.cycles else 1) then 1 else 0
            else if act.cycles >= 1 then Ticks(evs) / act.cycles
            else UntilSwept(g, es, next, [Called(act)] + evs)
  {
    hide Numbered, Spared, FiredBy, FiresOfBy, AllCalledBack, Count, Unswept, UntilSwept;
    var all := [Called(act)] + evs;
    AllFired(g, es, next, all, next);
    assert all[1..] == evs && Ticks(all) == Ticks(evs);
    RequestFiresBy(g, es, next, act, evs, Ticks(evs));
    OftenOf(g, es, next, act, evs, Ticks(evs));
    UnsweptIs(g, es, next, all);
  }

  // ---------------------------------------------------------------- cancels that name no such timer

  // Cancel(id, param) does not name a timer with this ID and parameter, directly or by the parameter -1.
  predicate Spares(a: Action, id: int, param: int)
    requires a.Cancel?
  {
    a.id != id || (a.param != param && a.param != -1)
  }

  ghost predicate Unnamed(acts: seq<Action>, id: int, param: int) {
    forall a :: a in acts && a.Cancel? ==> Spares(a, id, param)
  }

  ghost predicate EventUnnamed(ev: Event, id: int, param: int) {
    match ev
    case Ticked(cb) => forall n: nat :: Unnamed(cb(n), id, param)
    case Called(act) => act.Cancel? ==> Spares(act, id, param)
  }

  /** No Cancel anywhere in the run, in a callback or outside, names this timer ID and parameter. */
  ghost predicate NeverNamed(evs: seq<Event>, id: int, param: int) {
    forall i :: 0 <= i < |evs| ==> EventUnnamed(evs[i], id, param)
  }

  lemma {:induction false} CancelOther(es: seq<Entry>, a: Action, e: Entry)
    requires e in es && a.Cancel? && Spares(a, e.id, e.param)
    ensures e in CancelFirst(es, a.id, a.param)
  {
    if !Matches(es[0], a.id, a.param) && e != es[0] {
      CancelOther(es[1..], a, e);
    }
  }

  lemma {:induction false} CancelAllOther(es: seq<Entry>, acts: seq<Action>, e: Entry)
    requires e in es && Unnamed(acts, e.id, e.param)
    ensures e in CancelAll(es, acts)
    decreases |acts|
  {
    if acts != [] {
      if acts[0].Cancel? {
        CancelOther(es, acts[0], e);
        CancelAllOther(CancelFirst(es, acts[0].id, acts[0].param), acts[1..], e);
      } else {
        CancelAllOther(es, acts[1..], e);
      }
    }
  }

  lemma {:induction false} AskedUnnamed(cb: nat -> seq<Action>, n: nat, id: int, param: int)
    requires forall i: nat :: Unnamed(cb(i), id, param)
    ensures Unnamed(Asked(cb, n), id, param)
  {
    if n > 0 {
      AskedUnnamed(cb, n - 1, id, param);
      assert Unnamed(cb(n - 1), id, param);
    }
  }

  lemma UnnamedSparedBy(g: Observer, es: seq<Entry>, ev: Event, q: nat, id: int, param: int)
    requires EventUnnamed(ev, id, param) && forall e :: e in es && e.serial == q ==> e.id == id && e.param == param
    ensures SparedBy(g, es, ev, q)
  {
    match ev
    case Ticked(cb) =>
      var acts := TickActions(g, es, cb);
      AskedUnnamed(cb, |Fires(g, es)|, id, param);
      forall h | h in Swept(es) && h.serial == q
        ensures h in CancelAll(Swept(es), acts)
      {
        RunningIs(HitAll(es), h);
        var e := HitFrom(es, h);
        CancelAllOther(Swept(es), acts, h);
      }
    case Called(Request(_, _, _, _, _)) =>
    case Called(Cancel(cid, p)) =>
      forall e | e in es && e.serial == q
        ensures e in CancelFirst(es, cid, p)
      {
        CancelOther(es, ev.act, e);
      }
  }

  /** A caller can see to it that a timer is spared: never cancel its ID with its parameter or with -1. */
  lemma {:induction false} UnnamedSpared(g: Observer, es: seq<Entry>, next: nat, evs: seq<Event>, q: nat, id: int,
                                         param: int)
    requires Numbered(es, next) && q < next && NeverNamed(evs, id, param)
    requires forall e :: e in es && e.serial == q ==> e.id == id && e.param == param
    ensures Spared(g, es, next, evs, q)
    decreases |evs|
  {
    hide Numbered, After, SparedBy, EventUnnamed;
    if evs != [] {
      var s := After(g, es, next, evs[0]);
      AfterNumbered(g, es, next, evs[0]);
      assert EventUnnamed(evs[0], id, param);
      UnnamedSparedBy(g, es, evs[0], q, id, param);
      FieldsKept(g, es, next, evs[0], q);
      UnnamedSpared(g, s.0, s.1, evs[1..], q, id, param);
    }
  }

  /** Whatever happens, a timer that is still pending is what was asked for: only its counter changes. */
  lemma FieldsKept(g: Observer, es: seq<Entry>, next: nat, ev: Event, q: nat)
    requires Numbered(es, next) && q < next
    ensures forall h :: h in After(g, es, next, ev).0 && h.serial == q ==>
      exists e :: e in es && h == e.(counter := h.counter)
  {
    match ev
    case Ticked(cb) =>
      var acts := TickActions(g, es, cb);
      SweptNumbered(es, next);
      CancelAllIs(Swept(es), acts, next);
      AddAllIs(CancelAll(Swept(es), acts), acts, next);
      forall h | h in Swept(es)
        ensures exists e :: e in es && h == e.(counter := h.counter)
      {
        RunningIs(HitAll(es), h);
        var e := HitFrom(es, h);
        assert h == e.(counter := h.counter);
      }
    case Called(Request(id, param, cycles, obs, rec)) =>
      forall h | h in es
        ensures h == h.(counter := h.counter)
      {
      }
    case Called(Cancel(id, param)) =>
      CancelIs(es, id, param, next);
      forall h | h in es
        ensures h == h.(counter := h.counter)
      {
      }
  }

  // ---------------------------------------------------------------- queued calls against direct ones

  /** The requests of acts made directly, one after the other. */
  function DirectAdd(es: seq<Entry>, acts: seq<Action>, next: nat): seq<Entry>
    decreases |acts|
  {
    if acts == [] then es
    else if acts[0].Request? then
      DirectAdd(es + [NewEntry(next, acts[0].id, acts[0].param, acts[0].cycles, acts[0].obs, acts[0].recurring)],
                acts[1..], next + 1)
    else DirectAdd(es, acts[1..], next)
  }

  ghost predicate AllOneShot(acts: seq<Action>) {
    forall a :: a in acts && a.Request? ==> !a.recurring
  }

  // r begins with es.
  lemma {:induction false} AddExtends(es: seq<Entry>, acts: seq<Action>, next: nat)
    ensures es <= AddAll(es, acts, next) && es <= DirectAdd(es, acts, next)
    decreases |acts|
  {
    if acts != [] {
      if acts[0].Request? {
        var a := acts[0];
        AddExtends(es + [NewEntry(next, a.id, a.param, a.cycles, a.obs, false)], acts[1..], next + 1);
        AddExtends(es + [NewEntry(next, a.id, a.param, a.cycles, a.obs, a.recurring)], acts[1..], next + 1);
      } else {
        AddExtends(es, acts[1..], next);
      }
    }
  }

  /** Whichever was called first, a cancel made in a callback takes off no timer requested in the same tick. */
  lemma RequestsSurvive(g: Observer, es: seq<Entry>, cb: nat -> seq<Action>, next: nat)
    ensures var acts := TickActions(g, es, cb); var kept := CancelAll(Swept(es), acts);
      kept <= Tick(g, es, cb, next) && |Tick(g, es, cb, next)| == |kept| + Requests(acts)
  {
    hide Swept, TickActions, AddAll, Requests;
    var acts := TickActions(g, es, cb);
    AddExtends(CancelAll(Swept(es), acts), acts, next);
    AddsAll(CancelAll(Swept(es), acts), acts, next);
  }

  /** Requests queued in callbacks end up as direct requests would exactly when none of them asked
      for a recurring timer: the replay does not pass that flag on. */
  lemma {:induction false} QueuedAsDirectIff(es: seq<Entry>, acts: seq<Action>, next: nat)
    ensures AddAll(es, acts, next) == DirectAdd(es, acts, next) <==> AllOneShot(acts)
    decreases |acts|
  {
    if acts != [] {
      var a, rest := acts[0], acts[1..];
      assert AllOneShot(acts) <==> (a.Request? ==> !a.recurring) && AllOneShot(rest);
      if a.Request? {
        var f := NewEntry(next, a.id, a.param, a.cycles, a.obs, false);
        var d := NewEntry(next, a.id, a.param, a.cycles, a.obs, a.recurring);
        if a.recurring {
          AddExtends(es + [f], rest, next + 1);
          AddExtends(es + [d], rest, next + 1);
          assert AddAll(es, acts, next)[|es|] == f && DirectAdd(es, acts, next)[|es|] == d;
        } else {
          QueuedAsDirectIff(es + [f], rest, next + 1);
        }
      } else {
        QueuedAsDirectIff(es, rest, next);
      }
    }
  }

  /** A recurring request made in a callback: the first input on which queueing shows. */
  lemma QueuedRecurringIsLost()
    ensures var acts := [Request(1, 0, 5, 0, true)];
      AddAll([], acts, 0) == [Entry(0, 1, 0, 5, 5, 0, false)] != DirectAdd([], acts, 0)
  {
    var acts := [Request(1, 0, 5, 0, true)];
    assert acts[1..] == [];
    assert DirectAdd([], acts, 0) == [Entry(0, 1, 0, 5, 5, 0, true)];
  }
}
