/** OsclTimer: many timers counted down by the ticks of one, with the calls made in callbacks
    queued until the tick is over. */
module OsclTimer {
  import opened SeqEdits
  import opened TimerSpec
  import opened TimerRuns
  import opened Words
  import opened TimerDrift

  class TimerEntry {
    var iCounter: int
    var iTimerID: int
    var iParam: int
    var iObserver: Observer
    var iRecurring: bool
    var iOrigCounter: int
    ghost var serial: nat

    constructor ()
    {
    }
  }

  ghost function ViewOf(e: TimerEntry): Entry
    reads e
  {
    Entry(e.serial, e.iTimerID, e.iParam, e.iCounter, e.iOrigCounter, e.iObserver, e.iRecurring)
  }

  ghost function View(es: seq<TimerEntry>): (r: seq<Entry>)
    reads es
    ensures |r| == |es| && forall i :: 0 <= i < |es| ==> r[i] == ViewOf(es[i])
  {
    seq(|es|, i requires 0 <= i < |es| reads es => ViewOf(es[i]))
  }

  // The queued requests and cancels, as the actions that queued them.
  ghost function AsRequests(es: seq<TimerEntry>): (r: seq<Action>)
    reads es
    ensures |r| == |es|
    ensures forall i :: 0 <= i < |es| ==>
      r[i] == Request(es[i].iTimerID, es[i].iParam, es[i].iCounter, es[i].iObserver, es[i].iRecurring)
  {
    seq(|es|, i requires 0 <= i < |es| reads es =>
      Request(es[i].iTimerID, es[i].iParam, es[i].iCounter, es[i].iObserver, es[i].iRecurring))
  }

  ghost function AsCancels(es: seq<TimerEntry>): (r: seq<Action>)
    reads es
    ensures |r| == |es|
    ensures forall i :: 0 <= i < |es| ==> r[i] == Cancel(es[i].iTimerID, es[i].iParam)
  {
    seq(|es|, i requires 0 <= i < |es| reads es => Cancel(es[i].iTimerID, es[i].iParam))
  }

  ghost predicate Named(e: TimerEntry, id: int, param: int)
    reads e
  {
    e.iTimerID == id && (param == -1 || e.iParam == param)
  }

  /** left is es without its first entry that has this ID, and this parameter unless it is -1. */
  ghost predicate FirstGone(es: seq<TimerEntry>, left: seq<TimerEntry>, id: int, param: int)
    reads es
  {
    if forall e :: e in es ==> !Named(e, id, param) then left == es
    else exists k :: FirstGoneAt(es, left, id, param, k)
  }

  ghost predicate FirstGoneAt(es: seq<TimerEntry>, left: seq<TimerEntry>, id: int, param: int, k: int)
    reads es
  {
    && 0 <= k < |es| && Named(es[k], id, param)
    && (forall j :: 0 <= j < k ==> !Named(es[j], id, param))
    && left == RemoveAt(es, k)
  }

  lemma NoDupInsert<T>(s: seq<T>, k: int, x: T)
    requires NoDup(s) && x !in s && 0 <= k <= |s|
    ensures NoDup(InsertAt(s, k, x)) && Elems(InsertAt(s, k, x)) == Elems(s) + {x}
  {
    var r := InsertAt(s, k, x);
    assert r[k] == x && (forall i :: 0 <= i < |s| ==> s[i] == r[if i < k then i else i + 1]);
    forall e
      ensures e in r <==> e in s || e == x
    {
    }
  }

  lemma NoDupRemove<T>(s: seq<T>, k: int)
    requires NoDup(s) && 0 <= k < |s|
    ensures NoDup(RemoveAt(s, k)) && Elems(RemoveAt(s, k)) == Elems(s) - {s[k]}
  {
    var r := RemoveAt(s, k);
    assert forall i :: 0 <= i < |s| && i != k ==> s[i] == r[if i < k then i else i - 1];
    forall e
      ensures e in r <==> e in s && e != s[k]
    {
    }
  }

  lemma InOneVector<T>(a: seq<T>, b: seq<T>, c: seq<T>, k: int)
    requires NoDup(a + b + c) && 0 <= k < |a|
    ensures a[k] !in b && a[k] !in c
  {
    var all := a + b + c;
    assert all[k] == a[k];
    assert forall j :: 0 <= j < |b| ==> all[|a| + j] == b[j];
    assert forall j :: 0 <= j < |c| ==> all[|a| + |b| + j] == c[j];
  }

  lemma EachOnce<T>(a: seq<T>, b: seq<T>, c: seq<T>)
    requires NoDup(a + b + c)
    ensures NoDup(a)
  {
    assert forall j :: 0 <= j < |a| ==> (a + b + c)[j] == a[j];
  }

  lemma DropThird<T>(a: seq<T>, b: seq<T>, c: seq<T>)
    requires NoDup(a + b + c)
    ensures NoDup(a + b + []) && Elems(a + b + []) == Elems(a + b + c) - Elems(c)
  {
    var all := a + b + c;
    assert a + b + [] == a + b && all[..|a + b|] == a + b && all[|a + b|..] == c;
    forall e
      ensures e in a + b <==> e in all && e !in c
    {
      if e in a + b {
        var i :| 0 <= i < |a + b| && (a + b)[i] == e;
        assert all[i] == e;
        assert forall j :: 0 <= j < |c| ==> all[|a + b| + j] == c[j];
      }
    }
  }

  lemma LaterOnce<T>(a: seq<T>, b: seq<T>, c: seq<T>)
    requires NoDup(a + b + c)
    ensures NoDup(b) && NoDup(c)
  {
    assert forall j :: 0 <= j < |b| ==> (a + b + c)[|a| + j] == b[j];
    assert forall j :: 0 <= j < |c| ==> (a + b + c)[|a| + |b| + j] == c[j];
  }

  lemma NoElems<T>(q: seq<T>)
    requires q == []
    ensures Elems(q) == {}
  {
  }

  lemma NextElem<T>(q: seq<T>, i: nat)
    requires NoDup(q) && i < |q|
    ensures Elems(q[..i + 1]) == Elems(q[..i]) + {q[i]} && q[i] !in Elems(q[..i])
  {
    assert q[..i + 1] == q[..i] + [q[i]];
  }

  lemma DropSecond<T>(a: seq<T>, b: seq<T>)
    requires NoDup(a + b + [])
    ensures NoDup(a + [] + []) && Elems(a + [] + []) == Elems(a + b + []) - Elems(b)
  {
    assert a + [] + b == a + b + [] && a + [] + [] == a;
    DropThird(a, [], b);
  }

  lemma DropFirst<T>(a: seq<T>, b: seq<T>, c: seq<T>)
    requires NoDup(a + b + c)
    ensures NoDup([] + b + c) && Elems([] + b + c) == Elems(b) + Elems(c) == Elems(a + b + c) - Elems(a)
  {
    var all := a + b + c;
    assert [] + b + c == b + c && all[|a|..] == b + c && all[..|a|] == a;
    forall e
      ensures e in b + c <==> e in b || e in c
      ensures e in b + c <==> e in all && e !in a
    {
      if e in b + c {
        var i :| 0 <= i < |b + c| && (b + c)[i] == e;
        assert all[|a| + i] == e;
        assert forall j :: 0 <= j < |a| ==> all[j] == a[j];
      }
    }
  }

  class Timer {
    var iObserver: Observer
    var iEntries: seq<TimerEntry>
    var iEntriesWaitingToAdd: seq<TimerEntry>
    var iEntriesWaitingToCancel: seq<TimerEntry>
    var iInCallback: bool
    var iCyclePeriod: int
    var iTickCountPeriod: int
    var iExpectedTimeout: int
    // the scheduler's timer object: whether a wakeup is pending, and after what delay
    var ready: bool
    var delay: int
    // ghost: allocated entries, the serial of the next timer, and the callbacks so far
    ghost var live: set<TimerEntry>
    ghost var stale: set<TimerEntry>
    ghost var issued: nat
    ghost var log: seq<Fired>

    function ClockNow(): Clock
      reads `iExpectedTimeout, `ready, `delay
    {
      Clock(iExpectedTimeout, ready, delay)
    }

    function Rate(): Pace
      reads `iCyclePeriod, `iTickCountPeriod
    {
      Pace(iCyclePeriod, iTickCountPeriod)
    }

    ghost function All(): seq<TimerEntry>
      reads `iEntries, `iEntriesWaitingToAdd, `iEntriesWaitingToCancel
    {
      iEntries + iEntriesWaitingToAdd + iEntriesWaitingToCancel
    }

    /** Every allocated entry is in exactly one of the three vectors, once; `stale` are the
        entries already freed whose pointers a waiting vector still holds while it is replayed. */
    ghost predicate Ledger()
      reads `iEntries, `iEntriesWaitingToAdd, `iEntriesWaitingToCancel, `live, `stale
    {
      && NoDup(All()) && live == Elems(All()) - stale
      && stale <= Elems(iEntriesWaitingToAdd) + Elems(iEntriesWaitingToCancel)
    }

    // Ledger, but for the entry e, allocated and in no vector yet.
    ghost predicate LedgerBut(e: TimerEntry)
      reads `iEntries, `iEntriesWaitingToAdd, `iEntriesWaitingToCancel, `live, `stale
    {
      && NoDup(All()) && e !in All() && live == Elems(All()) - stale + {e}
      && stale <= Elems(iEntriesWaitingToAdd) + Elems(iEntriesWaitingToCancel)
    }

    method Allocate(id: int, param: int, cycles: int, obs: Observer, recurring: bool) returns (e: TimerEntry)
      requires Ledger()
      modifies `live
      ensures fresh(e) && LedgerBut(e) && live == old(live) + {e}
      ensures ViewOf(e) == NewEntry(e.serial, id, param, cycles, obs, recurring)
    {
      e := new TimerEntry();
      e.iTimerID := id;
      e.iParam := param;
      e.iCounter := cycles;
      e.iObserver := obs;
      e.iRecurring := recurring;
      e.iOrigCounter := e.iCounter;
      live := live + {e};
    }

    method PushEntry(e: TimerEntry)
      requires LedgerBut(e)
      modifies `iEntries, `issued, e`serial
      ensures Ledger() && iEntries == old(iEntries) + [e] && e.serial == old(issued) && issued == old(issued) + 1
    {
      e.serial := issued;
      issued := issued + 1;
      ghost var all, k := All(), |iEntries|;
      NoDupInsert(all, k, e);
      iEntries := iEntries + [e];
      assert All() == InsertAt(all, k, e);
    }

    method PushWaitingToAdd(e: TimerEntry)
      requires LedgerBut(e)
      modifies `iEntriesWaitingToAdd
      ensures Ledger() && iEntriesWaitingToAdd == old(iEntriesWaitingToAdd) + [e]
    {
      ghost var all, k := All(), |iEntries| + |iEntriesWaitingToAdd|;
      NoDupInsert(all, k, e);
      iEntriesWaitingToAdd := iEntriesWaitingToAdd + [e];
      assert All() == InsertAt(all, k, e);
    }

    method PushWaitingToCancel(e: TimerEntry)
      requires LedgerBut(e)
      modifies `iEntriesWaitingToCancel
      ensures Ledger() && iEntriesWaitingToCancel == old(iEntriesWaitingToCancel) + [e]
    {
      ghost var all, k := All(), |All()|;
      NoDupInsert(all, k, e);
      iEntriesWaitingToCancel := iEntriesWaitingToCancel + [e];
      assert All() == InsertAt(all, k, e);
    }

    // Only an allocated entry may be deallocated, and it is not allocated any more.
    method Deallocate(e: TimerEntry)
      requires e in live
      modifies `live
      ensures live == old(live) - {e}
    {
      live := live - {e};
    }

    method RunIfNotReady(d: int)
      modifies `ready, `delay
      ensures ready && delay == if old(ready) then old(delay) else d
    {
      if !ready {
        ready, delay := true, d;
      }
    }

    // The part of Request for calls from outside a callback.
    method RequestNow(id: int, param: int, cycles: int, obs: Observer, recurring: bool, now: int)
      requires Ledger() && !iInCallback
      modifies `iEntries, `iExpectedTimeout, `ready, `delay, `live, `issued
      ensures Ledger() && issued == old(issued) + 1
      ensures |iEntries| == |old(iEntries)| + 1 && iEntries[..|old(iEntries)|] == old(iEntries)
        && fresh(iEntries[|old(iEntries)|])
      ensures View(iEntries) == old(View(iEntries)) + [NewEntry(old(issued), id, param, cycles, obs, recurring)]
      ensures ClockNow() == Started(old(ClockNow()), Rate(), now) && ready
      ensures fresh(live - old(live))
    {
      hide Ledger, LedgerBut, Elems, NoDup, View, Started;
      var entry := Allocate(id, param, cycles, obs, recurring);
      PushEntry(entry);
      ArmFor(now);
    }

    // The wakeup for a request, and when it is expected.
    method ArmFor(now: int)
      modifies `iExpectedTimeout, `ready, `delay
      ensures ClockNow() == Started(old(ClockNow()), Rate(), now) && ready
    {
      RunIfNotReady(iCyclePeriod);
      if iExpectedTimeout == 0 {
        iExpectedTimeout := U32(now * iTickCountPeriod + iCyclePeriod);
      }
    }

    // The part of Request for calls from inside a callback.
    method QueueRequest(id: int, param: int, cycles: int, obs: Observer, recurring: bool)
      requires Ledger() && iInCallback
      modifies `iEntriesWaitingToAdd, `live
      ensures Ledger()
      ensures |iEntriesWaitingToAdd| == |old(iEntriesWaitingToAdd)| + 1
      ensures iEntriesWaitingToAdd[..|old(iEntriesWaitingToAdd)|] == old(iEntriesWaitingToAdd)
      ensures fresh(iEntriesWaitingToAdd[|old(iEntriesWaitingToAdd)|])
      ensures AsRequests(iEntriesWaitingToAdd) ==
        old(AsRequests(iEntriesWaitingToAdd)) + [TimerSpec.Request(id, param, cycles, obs, recurring)]
      ensures fresh(live - old(live))
    {
      hide Ledger, LedgerBut, Elems, NoDup, AsRequests;
      var entry := Allocate(id, param, cycles, obs, recurring);
      PushWaitingToAdd(entry);
    }

    // The part of Cancel for calls from inside a callback.
    method QueueCancel(id: int, param: int)
      requires Ledger() && iInCallback
      modifies `iEntriesWaitingToCancel, `live
      ensures Ledger()
      ensures |iEntriesWaitingToCancel| == |old(iEntriesWaitingToCancel)| + 1
      ensures iEntriesWaitingToCancel[..|old(iEntriesWaitingToCancel)|] == old(iEntriesWaitingToCancel)
      ensures fresh(iEntriesWaitingToCancel[|old(iEntriesWaitingToCancel)|])
      ensures AsCancels(iEntriesWaitingToCancel) ==
        old(AsCancels(iEntriesWaitingToCancel)) + [TimerSpec.Cancel(id, param)]
      ensures fresh(live - old(live))
    {
      hide Ledger, LedgerBut, Elems, NoDup, AsCancels;
      var entry := Allocate(id, param, 0, 0, false);
      PushWaitingToCancel(entry);
    }

    // it and the vector element it names go: deallocate(*it); iEntries.erase(it);
    method EraseEntry(k: nat)
      requires Ledger() && k < |iEntries|
      modifies `iEntries, `live
      ensures Ledger() && iEntries == RemoveAt(old(iEntries), k) && View(iEntries) == RemoveAt(old(View(iEntries)), k)
      ensures live <= old(live)
    {
      ghost var all := All();
      NoDupRemove(all, k);
      assert all[k] == iEntries[k];
      InOneVector(iEntries, iEntriesWaitingToAdd, iEntriesWaitingToCancel, k);
      Deallocate(iEntries[k]);
      iEntries := RemoveAt(iEntries, k);
      assert All() == RemoveAt(all, k);
    }

    // The part of Cancel for calls from outside a callback.
    method CancelNow(id: int, param: int)
      requires Ledger() && !iInCallback
      modifies `iEntries, `live
      ensures Ledger() && Elems(iEntries) <= old(Elems(iEntries))
      ensures View(iEntries) == CancelFirst(old(View(iEntries)), id, param)
      ensures FirstGone(old(iEntries), iEntries, id, param)
      ensures fresh(live - old(live))
    {
      var k := 0;
      while k < |iEntries|
        invariant k <= |iEntries|
        invariant forall j :: 0 <= j < k ==> !Matches(View(iEntries)[j], id, param)
      {
        if iEntries[k].iTimerID == id && (iEntries[k].iParam == param || param == -1) {
          CancelAt(View(iEntries), id, param, k);
          EraseEntry(k);
          assert FirstGoneAt(old(iEntries), iEntries, id, param, k);
          return;
        }
        k := k + 1;
      }
      CancelNone(View(iEntries), id, param);
    }

    /** Request: inside a callback it is only queued. */
    method Request(id: int, param: int, cycles: int, obs: Observer, recurring: bool, now: int)
      requires Ledger()
      modifies `iEntries, `iEntriesWaitingToAdd, `iExpectedTimeout, `ready, `delay, `live, `issued
      ensures Ledger()
      ensures iInCallback ==>
        && iEntries == old(iEntries) && View(iEntries) == old(View(iEntries)) && issued == old(issued)
        && ClockNow() == old(ClockNow())
        && AsRequests(iEntriesWaitingToAdd) ==
           old(AsRequests(iEntriesWaitingToAdd)) + [TimerSpec.Request(id, param, cycles, obs, recurring)]
      ensures !iInCallback ==>
        && iEntriesWaitingToAdd == old(iEntriesWaitingToAdd) && issued == old(issued) + 1
        && View(iEntries) == old(View(iEntries)) + [NewEntry(old(issued), id, param, cycles, obs, recurring)]
        && ClockNow() == Started(old(ClockNow()), Rate(), now) && ready
        && delay == (if old(ready) then old(delay) else iCyclePeriod)
        && iExpectedTimeout == if old(iExpectedTimeout) != 0 then old(iExpectedTimeout)
                               else U32(now * iTickCountPeriod + iCyclePeriod)
      ensures fresh(live - old(live))
    {
      if iInCallback {
        QueueRequest(id, param, cycles, obs, recurring);
      } else {
        RequestNow(id, param, cycles, obs, recurring, now);
      }
    }

    /** Cancel: inside a callback it is only queued. */
    method Cancel(id: int, param: int)
      requires Ledger()
      modifies `iEntries, `iEntriesWaitingToCancel, `live
      ensures Ledger()
      ensures iInCallback ==>
        && iEntries == old(iEntries) && View(iEntries) == old(View(iEntries))
        && AsCancels(iEntriesWaitingToCancel) == old(AsCancels(iEntriesWaitingToCancel)) + [TimerSpec.Cancel(id, param)]
      ensures !iInCallback ==>
        && iEntriesWaitingToCancel == old(iEntriesWaitingToCancel) && Elems(iEntries) <= old(Elems(iEntries))
        && View(iEntries) == CancelFirst(old(View(iEntries)), id, param)
        && FirstGone(old(iEntries), iEntries, id, param)
      ensures fresh(live - old(live))
    {
      if iInCallback {
        QueueCancel(id, param);
      } else {
        CancelNow(id, param);
      }
    }

    // ---------------------------------------------------------------- callbacks

    ghost predicate Queued(acts: seq<Action>)
      reads `iEntriesWaitingToAdd, `iEntriesWaitingToCancel, iEntriesWaitingToAdd, iEntriesWaitingToCancel
    {
      AsRequests(iEntriesWaitingToAdd) == RequestsOf(acts) && AsCancels(iEntriesWaitingToCancel) == CancelsOf(acts)
    }

    method PerformOne(act: Action, ghost before: seq<Action>)
      requires Ledger() && iInCallback && Queued(before)
      modifies `iEntriesWaitingToAdd, `iEntriesWaitingToCancel, `live
      ensures Ledger() && Queued(before + [act])
      ensures fresh(live - old(live))
    {
      QueuesJoin(before, [act]);
      ghost var adds, cancels := AsRequests(iEntriesWaitingToAdd), AsCancels(iEntriesWaitingToCancel);
      match act
      case Request(id, param, cycles, obs, recurring) =>
        QueueRequest(id, param, cycles, obs, recurring);
        assert RequestsOf([act]) == [act] && CancelsOf([act]) == [];
      case Cancel(id, param) =>
        QueueCancel(id, param);
        assert RequestsOf([act]) == [] && CancelsOf([act]) == [act];
    }

    // TimeoutOccurred: the observer makes its calls, which see iInCallback set.
    method Perform(acts: seq<Action>, ghost before: seq<Action>)
      requires Ledger() && iInCallback && Queued(before)
      modifies `iEntriesWaitingToAdd, `iEntriesWaitingToCancel, `live
      ensures Ledger() && Queued(before + acts)
      ensures fresh(live - old(live))
    {
      hide *;
      assert before + acts[..0] == before;
      for i := 0 to |acts|
        invariant Ledger() && Queued(before + acts[..i]) && fresh(live - old(live))
      {
        assert before + acts[..i + 1] == (before + acts[..i]) + [acts[i]];
        PerformOne(acts[i], before + acts[..i]);
      }
      assert acts[..|acts|] == acts;
    }

    // The body of the counting loop, but for the callback.
    method CountEntry(entry: TimerEntry) returns (due: bool)
      modifies entry`iCounter
      ensures ViewOf(entry) == Hit(old(ViewOf(entry))) && due == Due(old(ViewOf(entry)))
    {
      entry.iCounter := entry.iCounter - 1;
      due := entry.iCounter <= 0;
      if due && entry.iRecurring {
        entry.iCounter := entry.iOrigCounter;
      }
    }

    lemma NotQueued(entry: TimerEntry)
      requires Ledger() && entry in iEntries
      ensures entry !in iEntriesWaitingToAdd && entry !in iEntriesWaitingToCancel
    {
      var k :| 0 <= k < |iEntries| && iEntries[k] == entry;
      InOneVector(iEntries, iEntriesWaitingToAdd, iEntriesWaitingToCancel, k);
    }

    lemma ListedOnce()
      requires Ledger()
      ensures NoDup(iEntries) && NoDup(iEntriesWaitingToAdd) && NoDup(iEntriesWaitingToCancel)
    {
      EachOnce(iEntries, iEntriesWaitingToAdd, iEntriesWaitingToCancel);
      LaterOnce(iEntries, iEntriesWaitingToAdd, iEntriesWaitingToCancel);
    }

    lemma NothingQueued()
      requires iEntriesWaitingToAdd == [] && iEntriesWaitingToCancel == []
      ensures forall cb: nat -> seq<Action> :: Queued(Asked(cb, 0))
    {
    }

    // One round of the counting loop; n callbacks have been made before it.
    method CountOne(cb: nat -> seq<Action>, entry: TimerEntry, n: nat) returns (n': nat, oneShot: bool)
      requires Ledger() && !iInCallback && entry in iEntries && Queued(Asked(cb, n))
      modifies `iInCallback, `iEntriesWaitingToAdd, `iEntriesWaitingToCancel, `live, `log, entry`iCounter
      ensures Ledger() && !iInCallback && ViewOf(entry) == Hit(old(ViewOf(entry)))
      ensures oneShot == (old(Due(ViewOf(entry))) && !entry.iRecurring)
      ensures var e := old(ViewOf(entry)); var g := Target(iObserver, e);
        if Due(e) && g != 0 then n' == n + 1 && log == old(log) + [Fired(e.serial, g, e.id, e.param)]
        else n' == n && log == old(log)
      ensures Queued(Asked(cb, n'))
      ensures fresh(live - old(live))
    {
      hide Ledger, Elems, RequestsOf, CancelsOf, Queued;
      n' := n;
      NotQueued(entry);
      var due := CountEntry(entry);
      oneShot := due && !entry.iRecurring;
      if due {
        var obs := if entry.iObserver != 0 then entry.iObserver else iObserver;
        if obs != 0 {
          iInCallback := true;
          log := log + [Fired(entry.serial, obs, entry.iTimerID, entry.iParam)];
          Perform(cb(n), Asked(cb, n));
          iInCallback := false;
          n' := n + 1;
        }
      }
    }

    method CountDown(cb: nat -> seq<Action>) returns (expiredFound: bool)
      requires Ledger() && !iInCallback && iEntriesWaitingToAdd == [] && iEntriesWaitingToCancel == []
      modifies `iInCallback, `iEntriesWaitingToAdd, `iEntriesWaitingToCancel, `live, `log, Elems(iEntries)`iCounter
      ensures Ledger() && !iInCallback && View(iEntries) == HitAll(old(View(iEntries)))
      ensures log == old(log) + Fires(iObserver, old(View(iEntries)))
      ensures Queued(TickActions(iObserver, old(View(iEntries)), cb))
      ensures expiredFound == OneShotDue(old(View(iEntries)))
      ensures fresh(live - old(live))
    {
      hide Ledger, Queued, Fires, OneShotDue, Asked, Hit, Due;
      ghost var v := View(iEntries);
      ghost var g, log0 := iObserver, log;
      NoFires(g, v);
      NothingQueued();
      expiredFound := false;
      var n := 0;
      for k := 0 to |iEntries|
        invariant Ledger() && !iInCallback && fresh(live - old(live))
        invariant forall j :: 0 <= j < |v| ==> ViewOf(iEntries[j]) == if j < k then Hit(v[j]) else v[j]
        invariant n == |Fires(g, v[..k])| && log == log0 + Fires(g, v[..k])
        invariant Queued(Asked(cb, n))
        invariant expiredFound == OneShotDue(v[..k])
      {
        FiresMore(g, v, k);
        ListedOnce();
        var oneShot;
        n, oneShot := CountOne(cb, iEntries[k], n);
        expiredFound := expiredFound || oneShot;
      }
      assert v[..|v|] == v;
    }

    // ---------------------------------------------------------------- the rest of the tick

    method FindSpent() returns (k: nat)
      ensures k <= |iEntries|
      ensures forall j :: 0 <= j < k ==> iEntries[j].iCounter > 0
      ensures k < |iEntries| ==> iEntries[k].iCounter <= 0
    {
      k := 0;
      while k < |iEntries| && iEntries[k].iCounter > 0
        invariant k <= |iEntries|
        invariant forall j :: 0 <= j < k ==> iEntries[j].iCounter > 0
      {
        k := k + 1;
      }
    }

    // Each pass removes the first spent entry; the pass that finds none is the last.
    method Sweep(found: bool)
      requires Ledger()
      modifies `iEntries, `live
      ensures Ledger() && Elems(iEntries) <= old(Elems(iEntries))
      ensures View(iEntries) == if found then Running(old(View(iEntries))) else old(View(iEntries))
      ensures fresh(live - old(live))
    {
      var expiredFound := found;
      while expiredFound
        invariant Ledger() && Elems(iEntries) <= old(Elems(iEntries)) && fresh(live - old(live))
        invariant found ==> Running(View(iEntries)) == Running(old(View(iEntries)))
        invariant !found ==> View(iEntries) == old(View(iEntries)) && !expiredFound
        invariant found && !expiredFound ==> View(iEntries) == Running(View(iEntries))
        decreases |iEntries|, expiredFound
      {
        expiredFound := false;
        var k := FindSpent();
        if k < |iEntries| {
          expiredFound := true;
          RunningSkip(View(iEntries), k);
          EraseEntry(k);
        } else {
          RunningAll(View(iEntries));
        }
      }
    }

    method ReplayCancels()
      requires Ledger() && !iInCallback && stale == {}
      modifies `iEntries, `iEntriesWaitingToCancel, `live, `stale
      ensures Ledger() && iEntriesWaitingToCancel == [] && stale == {} && Elems(iEntries) <= old(Elems(iEntries))
      ensures View(iEntries) == CancelAll(old(View(iEntries)), old(AsCancels(iEntriesWaitingToCancel)))
      ensures fresh(live - old(live))
    {
      ghost var v, acts, q := View(iEntries), AsCancels(iEntriesWaitingToCancel), iEntriesWaitingToCancel;
      hide Ledger, Elems, NoDup, CancelFirst, FirstGone, View;
      ListedOnce();
      NoElems(q[..0]);
      for i := 0 to |iEntriesWaitingToCancel|
        invariant Ledger() && iEntriesWaitingToCancel == q && stale == Elems(q[..i])
        invariant Elems(iEntries) <= old(Elems(iEntries)) && fresh(live - old(live))
        invariant View(iEntries) == CancelAll(v, acts[..i])
      {
        var entry := iEntriesWaitingToCancel[i];
        NextElem(q, i);
        CancelNow(entry.iTimerID, entry.iParam);
        CancelOneMore(v, acts, i);
        FreeWaiting(entry, |iEntries| + |iEntriesWaitingToAdd| + i);
      }
      assert acts[..|acts|] == acts && q[..|q|] == q;
      ForgetWaitingToCancel();
    }

    // iEntriesWaitingToCancel.clear(), when all its entries are freed.
    method ForgetWaitingToCancel()
      requires Ledger() && stale == Elems(iEntriesWaitingToCancel)
      modifies `iEntriesWaitingToCancel, `stale
      ensures Ledger() && iEntriesWaitingToCancel == [] && stale == {}
    {
      DropThird(iEntries, iEntriesWaitingToAdd, iEntriesWaitingToCancel);
      iEntriesWaitingToCancel := [];
      stale := {};
    }

    // Frees an entry that stays in its waiting vector until that is cleared.
    method FreeWaiting(e: TimerEntry, ghost k: nat)
      requires Ledger() && |iEntries| <= k < |All()| && All()[k] == e && e !in stale
      modifies `live, `stale
      ensures Ledger() && stale == old(stale) + {e}
      ensures live <= old(live)
    {
      Deallocate(e);
      stale := stale + {e};
    }

    // Replays the i-th queued request; the recurring flag is not passed on.
    method ReplayRequest(i: nat, now: int)
      requires Ledger() && !iInCallback && i < |iEntriesWaitingToAdd| && iEntriesWaitingToAdd[i] !in stale
      modifies `iEntries, `iExpectedTimeout, `ready, `delay, `live, `stale, `issued
      ensures Ledger() && stale == old(stale) + {iEntriesWaitingToAdd[i]} && issued == old(issued) + 1
      ensures var a := AsRequests(iEntriesWaitingToAdd)[i];
        View(iEntries) == old(View(iEntries)) + [NewEntry(old(issued), a.id, a.param, a.cycles, a.obs, false)]
      ensures ClockNow() == Started(old(ClockNow()), Rate(), now) && ready
      ensures fresh(live - old(live))
    {
      var entry := iEntriesWaitingToAdd[i];
      RequestNow(entry.iTimerID, entry.iParam, entry.iCounter, entry.iObserver, false, now);
      FreeWaiting(entry, |iEntries| + i);
    }

    // What the calls of ReplayRequest so far have done to the timer object.
    twostate predicate Armed(any: bool, now: int)
      reads this
    {
      ClockNow() == if any then Started(old(ClockNow()), Rate(), now) else old(ClockNow())
    }

    method ReplayRequests(now: int)
      requires Ledger() && !iInCallback && stale == {} && iEntriesWaitingToCancel == []
      modifies `iEntries, `iEntriesWaitingToAdd, `iExpectedTimeout, `ready, `delay, `live, `stale, `issued
      ensures Ledger() && iEntriesWaitingToAdd == [] && iEntriesWaitingToCancel == [] && stale == {}
      ensures View(iEntries) == AddAll(old(View(iEntries)), old(AsRequests(iEntriesWaitingToAdd)), old(issued))
      ensures issued == old(issued) + |old(iEntriesWaitingToAdd)|
      ensures Armed(old(iEntriesWaitingToAdd) != [], now)
      ensures fresh(live - old(live))
    {
      ghost var v, acts, q, next := View(iEntries), AsRequests(iEntriesWaitingToAdd), iEntriesWaitingToAdd, issued;
      hide Ledger, Started, Elems, NoDup, View, AddAll, AsRequests;
      ListedOnce();
      AddNothing(v, next);
      NoElems(q[..0]);
      StartedOnce(ClockNow(), Rate(), now);
      for i := 0 to |iEntriesWaitingToAdd|
        invariant Ledger() && iEntriesWaitingToAdd == q && iEntriesWaitingToCancel == [] && stale == Elems(q[..i])
        invariant AsRequests(q) == acts && issued == next + i
        invariant View(iEntries) == AddAll(v, acts[..i], next)
        invariant Armed(i > 0, now) && fresh(live - old(live))
      {
        AddOneMore(v, acts, i, next);
        NextElem(q, i);
        ReplayRequest(i, now);
      }
      assert acts[..|acts|] == acts && q[..|q|] == q;
      ForgetWaitingToAdd();
    }

    // iEntriesWaitingToAdd.clear(), when all its entries are freed.
    method ForgetWaitingToAdd()
      requires Ledger() && iEntriesWaitingToCancel == [] && stale == Elems(iEntriesWaitingToAdd)
      modifies `iEntriesWaitingToAdd, `stale
      ensures Ledger() && iEntriesWaitingToAdd == [] && stale == {}
    {
      DropSecond(iEntries, iEntriesWaitingToAdd);
      iEntriesWaitingToAdd := [];
      stale := {};
    }

    // The jitter adjustment, and asking for the next wakeup.
    method Rearm(now: int)
      requires 0 <= iCyclePeriod < TWO_32
      modifies `iExpectedTimeout, `ready, `delay
      ensures ClockNow() ==
        if iEntries == [] then old(ClockNow()).(expected := 0) else Rearmed(old(ClockNow()), Rate(), now)
    {
      if iEntries != [] {
        var time := U32(now * iTickCountPeriod);
        var jitter := I32(time - iExpectedTimeout);
        var waitperiod := I32(iCyclePeriod - jitter);
        if UAbs(jitter) > iCyclePeriod {
          iExpectedTimeout := time;
        } else {
          iExpectedTimeout := U32(iExpectedTimeout + iCyclePeriod);
        }
        waitperiod := if waitperiod > 0 then waitperiod else 0;
        RunIfNotReady(waitperiod);
      } else {
        iExpectedTimeout := 0;
      }
    }

    /** Between ticks nothing is queued and exactly the pending entries are allocated. */
    ghost predicate Idle()
      reads this, iEntries
    {
      && Ledger() && !iInCallback && stale == {} && Numbered(View(iEntries), issued)
      && iEntriesWaitingToAdd == [] && iEntriesWaitingToCancel == []
      && 0 <= iCyclePeriod < TWO_32
    }

    /** While timers are pending a wakeup is, too. */
    ghost predicate Awake()
      reads `iEntries, `ready
    {
      iEntries != [] ==> ready
    }

    lemma IdleExact()
      requires Idle()
      ensures live == Elems(iEntries) && NoDup(iEntries)
    {
      assert All() == iEntries;
    }

    /** One tick at tick count `now`; the i-th callback of the tick does cb(i). */
    method TimerBaseElapsed(cb: nat -> seq<Action>, now: int)
      requires Idle() && !ready
      modifies this, Elems(iEntries)`iCounter
      ensures Idle()
      ensures iObserver == old(iObserver) && Rate() == old(Rate())
      ensures View(iEntries) == Tick(iObserver, old(View(iEntries)), cb, old(issued))
      ensures issued == old(issued) + Requests(TickActions(iObserver, old(View(iEntries)), cb))
      ensures log == old(log) + Fires(iObserver, old(View(iEntries)))
      ensures var asked := Asks(iObserver, old(View(iEntries)), cb);
        ClockNow() == Elapsed(old(ClockNow()), asked, iEntries == [], Rate(), now) && Awake()
          && (iEntries == [] ==> !ready)
      ensures fresh(live - old(live))
    {
      hide Ledger, View, Fires, Tick, TickActions, Requests, Adjust, Numbered;
      ghost var v, g := View(iEntries), iObserver;
      AfterNumbered(g, v, issued, Ticked(cb));
      AskedLeaves(g, v, cb, issued);
      CallAndSettle(cb, now);
      Rearm(now);
    }

    // A timer asked for in a callback is there at the end of the tick.
    lemma AskedLeaves(g: Observer, v: seq<Entry>, cb: nat -> seq<Action>, next: nat)
      ensures Asks(g, v, cb) ==> Tick(g, v, cb, next) != []
    {
      var acts := TickActions(g, v, cb);
      AddsAll(CancelAll(Swept(v), acts), acts, next);
    }

    // The tick but for the jitter adjustment.
    method CallAndSettle(cb: nat -> seq<Action>, now: int)
      requires Ledger() && !iInCallback && stale == {} && iEntriesWaitingToAdd == [] && iEntriesWaitingToCancel == []
      modifies `iInCallback, `iEntries, `iEntriesWaitingToAdd, `iEntriesWaitingToCancel, `iExpectedTimeout
      modifies `ready, `delay, `live, `stale, `issued, `log, Elems(iEntries)`iCounter
      ensures Ledger() && !iInCallback && stale == {} && iEntriesWaitingToAdd == [] && iEntriesWaitingToCancel == []
      ensures View(iEntries) == Tick(iObserver, old(View(iEntries)), cb, old(issued))
      ensures issued == old(issued) + Requests(TickActions(iObserver, old(View(iEntries)), cb))
      ensures log == old(log) + Fires(iObserver, old(View(iEntries)))
      ensures Armed(Asks(iObserver, old(View(iEntries)), cb), now)
      ensures fresh(live - old(live))
    {
      hide Ledger, Queued, View, Fires, HitAll, Running, CancelAll, AddAll, Asked, OneShotDue, Requests, Started;
      ghost var acts := TickActions(iObserver, View(iEntries), cb);
      var expiredFound := CountDown(cb);
      Settle(expiredFound, acts, now);
    }

    // Removing the spent entries and replaying the two queues.
    method Settle(expiredFound: bool, ghost acts: seq<Action>, now: int)
      requires Ledger() && !iInCallback && stale == {} && Queued(acts)
      modifies `iEntries, `iEntriesWaitingToAdd, `iEntriesWaitingToCancel, `iExpectedTimeout
      modifies `ready, `delay, `live, `stale, `issued
      ensures Ledger() && iEntriesWaitingToAdd == [] && iEntriesWaitingToCancel == [] && stale == {}
      ensures var kept := if expiredFound then Running(old(View(iEntries))) else old(View(iEntries));
        View(iEntries) == AddAll(CancelAll(kept, acts), acts, old(issued))
      ensures issued == old(issued) + Requests(acts) && Armed(Requests(acts) > 0, now)
      ensures fresh(live - old(live))
    {
      hide Ledger, View, Running, CancelAll, AddAll, Requests, CancelsOf, RequestsOf;
      ghost var next := issued;
      Sweep(expiredFound);
      OnlyCancels(View(iEntries), acts);
      ReplayCancels();
      OnlyRequests(View(iEntries), acts, next);
      ReplayRequests(now);
    }

    // ---------------------------------------------------------------- whole runs

    /** A wakeup, or a call from outside any callback, at tick count `now`. */
    method Apply(ev: Event, now: int)
      requires Idle() && Awake()
      modifies this, Elems(iEntries)`iCounter
      ensures Idle() && Awake() && iObserver == old(iObserver) && Rate() == old(Rate())
      ensures fresh(live - old(live))
      ensures (View(iEntries), issued) == After(iObserver, old(View(iEntries)), old(issued), ev)
      ensures log == old(log) + CalledBack(iObserver, old(View(iEntries)), ev)
      ensures ClockNow() == ClockAfter(iObserver, old(View(iEntries)), old(issued), old(ClockNow()), Rate(), ev, now)
    {
      ElapsedUnready(ClockNow());
      hide View, Ledger, Tick, CancelFirst, FirstGone, Requests, TickActions, Fires, Adjust, Numbered, Elapsed, Started,
        Asks;
      AfterNumbered(iObserver, View(iEntries), issued, ev);
      match ev
      case Ticked(cb) =>
        ready := false;
        TimerBaseElapsed(cb, now);
      case Called(Request(id, param, cycles, obs, recurring)) =>
        Request(id, param, cycles, obs, recurring, now);
      case Called(Cancel(id, param)) =>
        Cancel(id, param);
        assert iEntries != [] ==> iEntries[0] in old(Elems(iEntries));
    }

    /** A run of wakeups and calls, in any order, the i-th of them at tick count nows[i]. */
    method Run(evs: seq<Event>, nows: seq<int>)
      requires Idle() && Awake() && |nows| == |evs|
      modifies this, Elems(iEntries)`iCounter
      ensures Idle() && Awake() && iObserver == old(iObserver) && Rate() == old(Rate())
      ensures fresh(live - old(live))
      ensures (View(iEntries), issued) == AfterAll(iObserver, old(View(iEntries)), old(issued), evs)
      ensures log == old(log) + AllCalledBack(iObserver, old(View(iEntries)), old(issued), evs)
      ensures ClockNow() ==
        ClockAfterAll(iObserver, old(View(iEntries)), old(issued), old(ClockNow()), Rate(), evs, nows)
      decreases |evs|
    {
      hide View, Ledger, After, CalledBack, ClockAfter, Numbered;
      if evs != [] {
        IdleExact();
        Apply(evs[0], nows[0]);
        IdleExact();
        Run(evs[1..], nows[1..]);
      }
    }

    /** Clear: every pending entry is freed, whatever is queued. */
    method Clear()
      requires Ledger()
      modifies `iEntries, `live
      ensures Ledger() && iEntries == [] && live == old(live) - old(Elems(iEntries))
      ensures old(Idle()) ==> Idle() && live == {}
    {
      DropFirst(iEntries, iEntriesWaitingToAdd, iEntriesWaitingToCancel);
      FreeAll();
      iEntries := [];
    }

    // deallocate(*it) for every entry of iEntries.
    method FreeAll()
      requires Ledger()
      modifies `live
      ensures live == old(live) - Elems(iEntries)
    {
      var i := 0;
      ListedOnce();
      DropFirst(iEntries, iEntriesWaitingToAdd, iEntriesWaitingToCancel);
      while i < |iEntries|
        invariant i <= |iEntries| && live == old(live) - Elems(iEntries[..i])
      {
        NextElem(iEntries, i);
        assert iEntries[i] in Elems(All()) - Elems(iEntriesWaitingToAdd) - Elems(iEntriesWaitingToCancel);
        Deallocate(iEntries[i]);
        i := i + 1;
      }
    }

    /** The destructor frees the pending entries alone: between ticks nothing stays allocated, and
        during one exactly what the callbacks have queued. */
    method Destroy()
      requires Ledger()
      modifies `live
      ensures live == old(live) - Elems(iEntries)
      ensures stale == {} ==> live == Elems(iEntriesWaitingToAdd) + Elems(iEntriesWaitingToCancel)
    {
      DropFirst(iEntries, iEntriesWaitingToAdd, iEntriesWaitingToCancel);
      FreeAll();
    }

    /** SetFrequency, for a frequency in cycles per second. */
    method SetFrequency(frequency: int, tickCountPeriod: int)
      requires 0 < frequency < TWO_32
      modifies `iCyclePeriod, `iTickCountPeriod
      ensures iCyclePeriod == 1000000 / frequency && iTickCountPeriod == tickCountPeriod
      ensures 0 <= iCyclePeriod <= 1000000 < 0x4000_0000
    {
      iCyclePeriod := 1000000 / frequency;
      iTickCountPeriod := tickCountPeriod;
    }

    constructor (frequency: int, tickCountPeriod: int)
      requires 0 < frequency < TWO_32
      ensures Idle() && iEntries == [] && live == {} && log == [] && !ready && iExpectedTimeout == 0 && iObserver == 0
    {
      iObserver, iInCallback, iExpectedTimeout, ready, delay := 0, false, 0, false, 0;
      iEntries, iEntriesWaitingToAdd, iEntriesWaitingToCancel := [], [], [];
      live, stale, issued, log := {}, {}, 0, [];
      new;
      hide Idle;
      SetFrequency(frequency, tickCountPeriod);
      NothingPending();
    }

    lemma NothingPending()
      requires iEntries == [] && iEntriesWaitingToAdd == [] && iEntriesWaitingToCancel == []
      requires live == {} && stale == {} && !iInCallback && 0 <= iCyclePeriod < TWO_32
      ensures Idle()
    {
    }
  }
}
