/** What a tick, a request and a cancel of OsclTimer do, said of the entries themselves, and what a
    timer tells whom whenever it fires. */
module TimerLaws {
  import opened TimerSpec
  import opened TimerRuns

  // ---------------------------------------------------------------- callbacks

  /** f is what e tells its own observer, or the global one g if it has none, when it is due. */
  ghost predicate CallsBack(g: Observer, e: Entry, f: Fired) {
    && e.counter <= 1
    && f.serial == e.serial && f.id == e.id && f.param == e.param
    && f.to == (if e.obs != 0 then e.obs else g) && f.to != 0
  }

  lemma FiredLast(g: Observer, e: Entry, f: Fired)
    ensures CallsBack(g, e, f) <==>
      Due(e) && Target(g, e) != 0 && f == Fired(e.serial, Target(g, e), e.id, e.param)
  {
  }

  /** The callbacks of a tick are those of the due timers that have an observer, and no others. */
  lemma {:induction false} FiredIs(g: Observer, es: seq<Entry>, f: Fired)
    ensures f in Fires(g, es) <==> exists e :: e in es && CallsBack(g, e, f)
  {
    if es != [] {
      var n := |es| - 1;
      FiredIs(g, es[..n], f);
      FiredLast(g, es[n], f);
      assert es == es[..n] + [es[n]];
      assert f in Fires(g, es) <==> f in Fires(g, es[..n]) || CallsBack(g, es[n], f);
    }
  }

  /** They come in the order in which the timers were requested. */
  lemma {:induction false} FiredInOrder(g: Observer, es: seq<Entry>, next: nat)
    requires Numbered(es, next)
    ensures forall i, j :: 0 <= i < j < |Fires(g, es)| ==> Fires(g, es)[i].serial < Fires(g, es)[j].serial
  {
    if es != [] {
      var n := |es| - 1;
      FiredInOrder(g, es[..n], next);
      forall f | f in Fires(g, es[..n])
        ensures f.serial < es[n].serial
      {
        FiredIs(g, es[..n], f);
        var e :| e in es[..n] && CallsBack(g, e, f);
        var i :| 0 <= i < n && es[..n][i] == e;
        assert es[i].serial < es[n].serial;
      }
    }
  }

  /** The timer with serial q, while it is pending, is the one asked for with these arguments. */
  ghost predicate Bears(es: seq<Entry>, q: nat, id: int, param: int, obs: Observer) {
    forall e :: e in es && e.serial == q ==> e.id == id && e.param == param && e.obs == obs
  }

  /** Over a whole run it tells its own observer, or the global one if it has none, its ID and parameter. */
  lemma {:induction false} CalledAs(g: Observer, es: seq<Entry>, next: nat, evs: seq<Event>, q: nat, id: int,
                                    param: int, obs: Observer)
    requires Numbered(es, next) && q < next && Bears(es, q, id, param, obs)
    ensures forall f :: f in AllCalledBack(g, es, next, evs) && f.serial == q ==>
      f == Fired(q, if obs != 0 then obs else g, id, param)
    decreases |evs|
  {
    hide Numbered, After, Fires;
    if evs != [] {
      var s := After(g, es, next, evs[0]);
      AfterNumbered(g, es, next, evs[0]);
      FieldsKept(g, es, next, evs[0], q);
      CalledAs(g, s.0, s.1, evs[1..], q, id, param, obs);
      forall f | f in CalledBack(g, es, evs[0]) && f.serial == q
        ensures f == Fired(q, if obs != 0 then obs else g, id, param)
      {
        FiredIs(g, es, f);
      }
    }
  }

  /** A timer asked for outside a callback with an observer of its own always calls that one. */
  lemma RequestCalls(g: Observer, es: seq<Entry>, next: nat, act: Action, evs: seq<Event>)
    requires Numbered(es, next) && act.Request?
    ensures forall f :: f in AllCalledBack(g, es, next, [Called(act)] + evs) && f.serial == next ==>
      f == Fired(next, if act.obs != 0 then act.obs else g, act.id, act.param)
  {
    var all := [Called(act)] + evs;
    AfterNumbered(g, es, next, all[0]);
    var s := After(g, es, next, all[0]);
    assert all[1..] == evs;
    CalledAs(g, s.0, s.1, evs, next, act.id, act.param, act.obs);
  }

  // ---------------------------------------------------------------- the list after a tick

  /** Cancels and requests aside, a tick counts every timer down by one, or a recurring one that is due
      back to its period, and takes off those with nothing left to count when a one-shot timer is due. */
  lemma SweptIs(es: seq<Entry>, h: Entry)
    ensures h in Swept(es) <==>
      && (exists e :: e in es && h == e.(counter := if e.counter <= 1 && e.recurring then e.orig else e.counter - 1))
      && (h.counter > 0 || forall o :: o in es && o.counter <= 1 ==> o.recurring)
  {
    RunningIs(HitAll(es), h);
    if h in HitAll(es) {
      var e := HitFrom(es, h);
    }
    if e :| e in es && h == e.(counter := if e.counter <= 1 && e.recurring then e.orig else e.counter - 1) {
      HitIn(es, e);
    }
    if o :| o in es && o.counter <= 1 && !o.recurring {
      var i :| 0 <= i < |es| && es[i] == o;
      assert OneShotDue(es);
    }
  }

  /** What is left is in the order of the requests, as before. */
  lemma SweptInOrder(es: seq<Entry>, next: nat)
    requires Numbered(es, next)
    ensures forall i, j :: 0 <= i < j < |Swept(es)| ==> Swept(es)[i].serial < Swept(es)[j].serial
  {
    SweptNumbered(es, next);
  }

  // ---------------------------------------------------------------- cancels

  /** A cancel changes nothing exactly when no timer has the ID, and the parameter unless that is -1. */
  lemma {:induction false} CancelIff(es: seq<Entry>, id: int, param: int)
    ensures CancelFirst(es, id, param) == es <==>
      forall e :: e in es ==> !(e.id == id && (param == -1 || e.param == param))
  {
    if forall e :: e in es ==> !(e.id == id && (param == -1 || e.param == param)) {
      CancelNone(es, id, param);
    } else {
      var k := CancelTakes(es, id, param);
      assert |CancelFirst(es, id, param)| == |es| - 1;
    }
  }

  /** Otherwise the first such timer goes, and no other. */
  lemma {:induction false} CancelTakes(es: seq<Entry>, id: int, param: int) returns (k: nat)
    requires exists e :: e in es && e.id == id && (param == -1 || e.param == param)
    ensures k < |es| && es[k].id == id && (param == -1 || es[k].param == param)
    ensures forall j :: 0 <= j < k ==> !(es[j].id == id && (param == -1 || es[j].param == param))
    ensures CancelFirst(es, id, param) == es[..k] + es[k + 1..]
  {
    if Matches(es[0], id, param) {
      k := 0;
    } else {
      k := CancelTakes(es[1..], id, param);
      k := k + 1;
      assert es[..k] == [es[0]] + es[1..][..k - 1] && es[k + 1..] == es[1..][k..];
    }
  }

  // ---------------------------------------------------------------- calls made in callbacks

  function Lengths(cb: nat -> seq<Action>, n: nat): nat {
    if n == 0 then 0 else Lengths(cb, n - 1) + |cb(n - 1)|
  }

  lemma {:induction false} AskedAt(cb: nat -> seq<Action>, n: nat, i: nat)
    requires i < n
    ensures |Asked(cb, n)| == Lengths(cb, n) && Lengths(cb, i) + |cb(i)| <= Lengths(cb, n)
    ensures Asked(cb, n)[Lengths(cb, i)..Lengths(cb, i) + |cb(i)|] == cb(i)
  {
    if i < n - 1 {
      AskedAt(cb, n - 1, i);
      var a, b := Lengths(cb, i), Lengths(cb, i) + |cb(i)|;
      assert Asked(cb, n)[a..b] == Asked(cb, n - 1)[a..b];
    } else {
      AskedLength(cb, i);
    }
  }

  lemma {:induction false} AskedLength(cb: nat -> seq<Action>, n: nat)
    ensures |Asked(cb, n)| == Lengths(cb, n)
  {
    if n > 0 {
      AskedLength(cb, n - 1);
    }
  }

  /** The i-th callback of a tick makes the i-th batch of calls, and there are no calls but those. */
  lemma CallsInOrder(g: Observer, es: seq<Entry>, cb: nat -> seq<Action>, i: nat)
    requires i < |Fires(g, es)|
    ensures var acts := TickActions(g, es, cb); var at := Lengths(cb, i);
      |acts| == Lengths(cb, |Fires(g, es)|) && at + |cb(i)| <= |acts| && acts[at..at + |cb(i)|] == cb(i)
  {
    AskedAt(cb, |Fires(g, es)|, i);
  }

  function AsCalls(acts: seq<Action>): (r: seq<Event>)
    ensures |r| == |acts| && forall i :: 0 <= i < |acts| ==> r[i] == Called(acts[i])
  {
    seq(|acts|, i requires 0 <= i < |acts| => Called(acts[i]))
  }

  /** acts, with every request for a one-shot timer. */
  function OneShot(acts: seq<Action>): (r: seq<Action>)
    ensures |r| == |acts|
    ensures forall i :: 0 <= i < |acts| ==> r[i] == if acts[i].Request? then acts[i].(recurring := false) else acts[i]
  {
    seq(|acts|, i requires 0 <= i < |acts| => if acts[i].Request? then acts[i].(recurring := false) else acts[i])
  }

  lemma {:induction false} AfterJoin(g: Observer, es: seq<Entry>, next: nat, a: seq<Event>, b: seq<Event>)
    ensures var s := AfterAll(g, es, next, a); AfterAll(g, es, next, a + b) == AfterAll(g, s.0, s.1, b)
    decreases |a|
  {
    hide After;
    if a == [] {
      assert a + b == b;
    } else {
      var s := After(g, es, next, a[0]);
      assert (a + b)[1..] == a[1..] + b;
      AfterJoin(g, s.0, s.1, a[1..], b);
    }
  }

  lemma {:induction false} CancelsAsCalls(g: Observer, es: seq<Entry>, next: nat, acts: seq<Action>)
    requires forall a :: a in acts ==> a.Cancel?
    ensures AfterAll(g, es, next, AsCalls(acts)) == (CancelAll(es, acts), next)
    decreases |acts|
  {
    if acts != [] {
      assert AsCalls(acts)[1..] == AsCalls(acts[1..]);
      CancelsAsCalls(g, CancelFirst(es, acts[0].id, acts[0].param), next, acts[1..]);
    }
  }

  lemma {:induction false} RequestsAsCalls(g: Observer, es: seq<Entry>, next: nat, acts: seq<Action>)
    requires forall a :: a in acts ==> a.Request?
    ensures AfterAll(g, es, next, AsCalls(OneShot(acts))) == (AddAll(es, acts, next), next + |acts|)
    decreases |acts|
  {
    if acts != [] {
      var a := acts[0];
      assert AsCalls(OneShot(acts))[1..] == AsCalls(OneShot(acts[1..]));
      RequestsAsCalls(g, es + [NewEntry(next, a.id, a.param, a.cycles, a.obs, false)], next + 1, acts[1..]);
    }
  }

  lemma {:induction false} QueuesAre(acts: seq<Action>)
    ensures (forall a :: a in RequestsOf(acts) ==> a.Request?) && forall a :: a in CancelsOf(acts) ==> a.Cancel?
  {
    if acts != [] {
      QueuesAre(acts[..|acts| - 1]);
    }
  }

  /** What callbacks call takes effect when the tick is over, as if called then: first the cancels, in the order
      they were made, and then the requests, in theirs, each for a one-shot timer. */
  lemma TickReplays(g: Observer, es: seq<Entry>, cb: nat -> seq<Action>, next: nat)
    ensures var acts := TickActions(g, es, cb);
      After(g, es, next, Ticked(cb)) ==
      AfterAll(g, Swept(es), next, AsCalls(CancelsOf(acts)) + AsCalls(OneShot(RequestsOf(acts))))
  {
    hide Swept, TickActions, AddAll, CancelAll;
    var acts := TickActions(g, es, cb);
    var kept := CancelAll(Swept(es), acts);
    QueuesAre(acts);
    OnlyCancels(Swept(es), acts);
    OnlyRequests(kept, acts, next);
    CancelsAsCalls(g, Swept(es), next, CancelsOf(acts));
    RequestsAsCalls(g, kept, next, RequestsOf(acts));
    AfterJoin(g, Swept(es), next, AsCalls(CancelsOf(acts)), AsCalls(OneShot(RequestsOf(acts))));
  }

  /** The two queues hold the calls of their kind, each in its place. */
  lemma QueuesHold(before: seq<Action>, a: Action, after: seq<Action>)
    ensures RequestsOf(before + [a] + after) ==
      RequestsOf(before) + (if a.Request? then [a] else []) + RequestsOf(after)
    ensures CancelsOf(before + [a] + after) == CancelsOf(before) + (if a.Cancel? then [a] else []) + CancelsOf(after)
    ensures RequestsOf([]) == [] == CancelsOf([])
  {
    QueuesJoin(before + [a], after);
    QueuesJoin(before, [a]);
    assert [a][..0] == [];
  }

  // ---------------------------------------------------------------- timers requested in callbacks

  lemma {:induction false} AddedAt(es: seq<Entry>, acts: seq<Action>, next: nat, i: nat)
    requires i < |acts| && acts[i].Request?
    ensures var a, k := acts[i], Requests(acts[..i]);
      && |es| + k < |AddAll(es, acts, next)|
      && AddAll(es, acts, next)[|es| + k] ==
         Entry(next + k, a.id, a.param, a.cycles, a.cycles, a.obs, false)
    decreases |acts|
  {
    var a := acts[0];
    var es1 := if a.Request? then es + [NewEntry(next, a.id, a.param, a.cycles, a.obs, false)] else es;
    var next1 := if a.Request? then next + 1 else next;
    AddExtends(es1, acts[1..], next1);
    if i > 0 {
      assert acts[..i][1..] == acts[1..][..i - 1];
      AddedAt(es1, acts[1..], next1, i - 1);
    }
  }

  /** A timer asked for in a callback, by the i-th call of the tick, is pending after it as a one-shot timer. */
  lemma QueuedIs(g: Observer, es: seq<Entry>, next: nat, cb: nat -> seq<Action>, i: nat)
    requires i < |TickActions(g, es, cb)| && TickActions(g, es, cb)[i].Request?
    ensures var acts := TickActions(g, es, cb); var a, q := acts[i], next + Requests(acts[..i]);
      && Entry(q, a.id, a.param, a.cycles, a.cycles, a.obs, false) in After(g, es, next, Ticked(cb)).0
      && q < After(g, es, next, Ticked(cb)).1
  {
    hide Swept, TickActions, AddAll, CancelAll;
    var acts := TickActions(g, es, cb);
    AddedAt(CancelAll(Swept(es), acts), acts, next, i);
    RequestsBelow(acts, i);
  }

  lemma {:induction false} RequestsBelow(acts: seq<Action>, i: nat)
    requires i < |acts| && acts[i].Request?
    ensures Requests(acts[..i]) < Requests(acts)
    decreases |acts|
  {
    if i > 0 {
      assert acts[..i][1..] == acts[1..][..i - 1];
      RequestsBelow(acts[1..], i - 1);
    }
  }

  /** It fires once, max(1, n) ticks later for n cycles, and tells the observer, ID and parameter asked for. */
  lemma QueuedFires(g: Observer, es: seq<Entry>, next: nat, cb: nat -> seq<Action>, i: nat, evs: seq<Event>, t: nat)
    requires Numbered(es, next) && i < |TickActions(g, es, cb)| && TickActions(g, es, cb)[i].Request?
    requires TickActions(g, es, cb)[i].obs != 0 || g != 0
    requires var s := After(g, es, next, Ticked(cb));
      Spared(g, s.0, s.1, evs, next + Requests(TickActions(g, es, cb)[..i])) && 1 <= t <= Ticks(evs)
    ensures var acts := TickActions(g, es, cb); var s := After(g, es, next, Ticked(cb));
      var a, q := acts[i], next + Requests(acts[..i]);
      && FiredAt(g, s.0, s.1, evs, q, t) == (if t == (if a.cycles >= 1 then a.cycles else 1) then 1 else 0)
      && forall f :: f in AllCalledBack(g, s.0, s.1, evs) && f.serial == q ==>
         f == Fired(q, if a.obs != 0 then a.obs else g, a.id, a.param)
  {
    hide TickActions, After, Spared, FiredAt, AllCalledBack, Requests, Ticks;
    var acts, s := TickActions(g, es, cb), After(g, es, next, Ticked(cb));
    var a, q := acts[i], next + Requests(acts[..i]);
    var e := Entry(q, a.id, a.param, a.cycles, a.cycles, a.obs, false);
    QueuedIs(g, es, next, cb, i);
    AfterNumbered(g, es, next, Ticked(cb));
    OneShotFires(g, s.0, s.1, evs, e, t);
    OneOf(s.0, s.1, e);
    CalledAs(g, s.0, s.1, evs, q, a.id, a.param, a.obs);
  }

  lemma OneOf(es: seq<Entry>, next: nat, e: Entry)
    requires Numbered(es, next) && e in es
    ensures Bears(es, e.serial, e.id, e.param, e.obs)
  {
    var i :| 0 <= i < |es| && es[i] == e;
    forall h | h in es && h.serial == e.serial
      ensures h == e
    {
      var j :| 0 <= j < |es| && es[j] == h;
      assert i == j;
    }
  }
}
