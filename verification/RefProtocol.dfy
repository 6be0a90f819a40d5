/** OsclRefCounterMTDA and OsclRefCounterMTSA: many threads that take and drop references under the
    lock of the counter, one small step at a time, in any order. */
module RefProtocol {

  /** Where a thread is: outside, or in addRef or removeRef before the step named. */
  datatype Pc =
    | Outside
    | AddLock | AddCount | AddUnlock
    | RemoveLock | RemoveCount | RemoveUnlock
    | DestroyBuffer | DeleteCounter

  datatype Thread = Thread(pc: Pc, owned: nat)

  datatype Lock = Free | HeldBy(t: nat)

  datatype State = State(threads: seq<Thread>, refcnt: int, lock: Lock, alive: bool, destroyed: nat)

  datatype Step =
    | CallAdd(t: nat)
    | CallRemove(t: nat)
    | Give(t: nat, u: nat)
    | Advance(t: nat)

  // One reference, owned by whoever made the counter.
  function Init(threads: nat): State
    requires threads > 0
  {
    State([Thread(Outside, 1)] + seq(threads - 1, i => Thread(Outside, 0)), 1, Free, true, 0)
  }

  /** A thread calls with a reference of its own, and waits only for the lock. */
  predicate Enabled(s: State, step: Step) {
    match step
    case CallAdd(t) => t < |s.threads| && s.threads[t].pc == Outside && s.threads[t].owned > 0
    case CallRemove(t) => t < |s.threads| && s.threads[t].pc == Outside && s.threads[t].owned > 0
    case Give(t, u) =>
      t < |s.threads| && u < |s.threads| && t != u && s.threads[t].pc == Outside && s.threads[t].owned > 0
    case Advance(t) =>
      && t < |s.threads|
      && s.threads[t].pc != Outside
      && (s.threads[t].pc in {AddLock, RemoveLock} ==> s.lock == Free)
  }

  function At(s: State, t: nat, pc: Pc, owned: nat): State
    requires t < |s.threads|
  {
    s.(threads := s.threads[t := Thread(pc, owned)])
  }

  function Advanced(s: State, t: nat): State
    requires Enabled(s, Advance(t))
  {
    var th := s.threads[t];
    match th.pc
    case AddLock => At(s, t, AddCount, th.owned).(lock := HeldBy(t))
    case AddCount => At(s, t, AddUnlock, th.owned).(refcnt := s.refcnt + 1)
    case AddUnlock => At(s, t, Outside, th.owned + 1).(lock := Free)
    case RemoveLock => At(s, t, RemoveCount, th.owned).(lock := HeldBy(t))
    case RemoveCount =>
      var pc := if s.refcnt - 1 == 0 then DestroyBuffer else RemoveUnlock;
      At(s, t, pc, th.owned).(refcnt := s.refcnt - 1)
    case RemoveUnlock => At(s, t, Outside, th.owned).(lock := Free)
    case DestroyBuffer => At(s, t, DeleteCounter, th.owned).(destroyed := s.destroyed + 1)
    case DeleteCounter => At(s, t, Outside, th.owned).(alive := false, lock := Free)
  }

  /** A caller of removeRef gives up its reference at once; addRef yields one when it returns. */
  function Next(s: State, step: Step): State
    requires Enabled(s, step)
  {
    match step
    case CallAdd(t) => At(s, t, AddLock, s.threads[t].owned)
    case CallRemove(t) => At(s, t, RemoveLock, s.threads[t].owned - 1)
    case Give(t, u) =>
      var giver, taker := s.threads[t], s.threads[u];
      s.(threads := s.threads[t := giver.(owned := giver.owned - 1)][u := taker.(owned := taker.owned + 1)])
    case Advance(t) => Advanced(s, t)
  }

  predicate Legal(s: State, steps: seq<Step>)
    decreases |steps|
  {
    steps == [] || (Enabled(s, steps[0]) && Legal(Next(s, steps[0]), steps[1..]))
  }

  function Run(s: State, steps: seq<Step>): State
    requires Legal(s, steps)
    decreases |steps|
  {
    if steps == [] then s else Run(Next(s, steps[0]), steps[1..])
  }

  // ---------------------------------------------------------------- the invariant

  predicate Inside(pc: Pc) {
    pc in {AddCount, AddUnlock, RemoveCount, RemoveUnlock, DestroyBuffer, DeleteCounter}
  }

  // A reference the count includes though nobody owns it: given up and not yet subtracted, or added and not yet
  // returned.
  function InFlight(pc: Pc): nat {
    if pc in {AddUnlock, RemoveLock, RemoveCount} then 1 else 0
  }

  function Weight(th: Thread): nat {
    th.owned + InFlight(th.pc)
  }

  function Outstanding(ths: seq<Thread>): nat {
    if ths == [] then 0 else Outstanding(ths[..|ths| - 1]) + Weight(ths[|ths| - 1])
  }

  predicate ThreadOk(s: State, t: nat)
    requires t < |s.threads|
  {
    var th := s.threads[t];
    && (Inside(th.pc) <==> s.lock == HeldBy(t))
    && (th.pc in {AddLock, AddCount, AddUnlock} ==> th.owned > 0)
    && (th.pc == RemoveUnlock ==> s.refcnt > 0)
    && (th.pc in {DestroyBuffer, DeleteCounter} ==> s.refcnt == 0)
    && (th.pc == DestroyBuffer ==> s.destroyed == 0)
    && (th.pc == DeleteCounter ==> s.destroyed == 1)
    && (th.pc != Outside ==> s.alive)
  }

  // Which states have the buffer still, and which the counter.
  predicate Lifetime(s: State) {
    && (s.lock.HeldBy? ==> s.lock.t < |s.threads|)
    && (!s.alive ==> s.refcnt == 0 && s.destroyed == 1)
    && (s.alive && s.refcnt == 0 ==> s.lock.HeldBy? && s.threads[s.lock.t].pc in {DestroyBuffer, DeleteCounter})
    && (s.alive && s.refcnt > 0 ==> s.destroyed == 0)
  }

  ghost predicate Inv(s: State) {
    && s.refcnt == Outstanding(s.threads)
    && Lifetime(s)
    && forall t :: 0 <= t < |s.threads| ==> ThreadOk(s, t)
  }

  lemma {:induction false} OutstandingAt(ths: seq<Thread>, t: nat, th: Thread)
    requires t < |ths|
    ensures Outstanding(ths[t := th]) == Outstanding(ths) - Weight(ths[t]) + Weight(th)
    ensures Weight(ths[t]) <= Outstanding(ths)
  {
    var n := |ths| - 1;
    if t < n {
      OutstandingAt(ths[..n], t, th);
      assert ths[t := th][..n] == ths[..n][t := th];
    } else {
      assert ths[t := th][..n] == ths[..n];
    }
  }

  lemma {:induction false} InitOk(threads: nat)
    requires threads > 0
    ensures Inv(Init(threads))
  {
    NoneOwned([Thread(Outside, 1)], threads - 1);
  }

  lemma {:induction false} NoneOwned(ths: seq<Thread>, n: nat)
    ensures Outstanding(ths + seq(n, i => Thread(Outside, 0))) == Outstanding(ths)
  {
    var more := seq(n, i => Thread(Outside, 0));
    if n == 0 {
      assert ths + more == ths;
    } else {
      NoneOwned(ths, n - 1);
      assert (ths + more)[..|ths + more| - 1] == ths + seq(n - 1, i => Thread(Outside, 0));
    }
  }

  // A thread that is not outside, not in the locked part and does not count for anything does not exist.
  lemma Weighs(s: State, t: nat)
    requires Inv(s) && t < |s.threads|
    ensures Weight(s.threads[t]) <= s.refcnt
    ensures s.refcnt == 0 && s.threads[t].pc != Outside ==> s.lock == HeldBy(t)
  {
    OutstandingAt(s.threads, t, s.threads[t]);
    assert ThreadOk(s, t);
  }

  // Changing one thread keeps what is known of the others, while the lock, the count and the lifetime are theirs too.
  lemma CallOk(s: State, t: nat, th: Thread)
    requires Inv(s) && t < |s.threads| && s.threads[t].pc == Outside && s.threads[t].owned > 0
    requires th.pc in {AddLock, RemoveLock} && Weight(th) == Weight(s.threads[t]) && (th.pc == AddLock ==> th.owned > 0)
    ensures Inv(s.(threads := s.threads[t := th]))
  {
    var r := s.(threads := s.threads[t := th]);
    OutstandingAt(s.threads, t, th);
    assert ThreadOk(s, t);
    forall u | 0 <= u < |r.threads|
      ensures ThreadOk(r, u)
    {
      assert ThreadOk(s, u);
    }
  }

  lemma GiveOk(s: State, t: nat, u: nat)
    requires Inv(s) && Enabled(s, Give(t, u))
    ensures Inv(Next(s, Give(t, u)))
  {
    var r := Next(s, Give(t, u));
    var less, more := s.threads[t].(owned := s.threads[t].owned - 1), s.threads[u].(owned := s.threads[u].owned + 1);
    OutstandingAt(s.threads, t, less);
    OutstandingAt(s.threads[t := less], u, more);
    hide ThreadOk;
    forall v | 0 <= v < |r.threads|
      ensures ThreadOk(r, v)
    {
      GiveThread(s, t, u, v);
    }
  }

  lemma GiveThread(s: State, t: nat, u: nat, v: nat)
    requires Enabled(s, Give(t, u)) && v < |s.threads| && ThreadOk(s, v)
    ensures ThreadOk(Next(s, Give(t, u)), v)
  {
  }

  lemma AdvanceOk(s: State, t: nat)
    requires Inv(s) && Enabled(s, Advance(t))
    ensures Inv(Advanced(s, t))
  {
    var r := Advanced(s, t);
    OutstandingAt(s.threads, t, r.threads[t]);
    assert r.threads == s.threads[t := r.threads[t]];
    assert ThreadOk(s, t);
    forall u | 0 <= u < |r.threads|
      ensures ThreadOk(r, u)
    {
      assert ThreadOk(s, u);
      Weighs(s, u);
    }
  }

  lemma StepOk(s: State, step: Step)
    requires Inv(s) && Enabled(s, step)
    ensures Inv(Next(s, step))
  {
    hide Inv, ThreadOk, Lifetime;
    match step
    case CallAdd(t) => CallOk(s, t, Thread(AddLock, s.threads[t].owned));
    case CallRemove(t) => CallOk(s, t, Thread(RemoveLock, s.threads[t].owned - 1));
    case Give(t, u) => GiveOk(s, t, u);
    case Advance(t) => AdvanceOk(s, t);
  }

  lemma {:induction false} RunOk(s: State, steps: seq<Step>)
    requires Inv(s) && Legal(s, steps)
    ensures Inv(Run(s, steps))
    decreases |steps|
  {
    hide Inv, Enabled;
    if steps != [] {
      StepOk(s, steps[0]);
      RunOk(Next(s, steps[0]), steps[1..]);
    }
  }

  // ---------------------------------------------------------------- every run

  function Owned(ths: seq<Thread>): nat {
    if ths == [] then 0 else Owned(ths[..|ths| - 1]) + ths[|ths| - 1].owned
  }

  predicate Quiet(ths: seq<Thread>) {
    forall t :: 0 <= t < |ths| ==> ths[t].pc == Outside
  }

  lemma {:induction false} QuietOutstanding(ths: seq<Thread>)
    requires Quiet(ths)
    ensures Outstanding(ths) == Owned(ths)
  {
    if ths != [] {
      QuietOutstanding(ths[..|ths| - 1]);
    }
  }

  /** Whoever is about to destroy the buffer is the last: nobody else owns or is using a reference. */
  lemma LastRemover(threads: nat, steps: seq<Step>, t: nat)
    requires threads > 0 && Legal(Init(threads), steps)
    requires t < |Run(Init(threads), steps).threads| && Run(Init(threads), steps).threads[t].pc == DestroyBuffer
    ensures var s := Run(Init(threads), steps);
      s.alive && s.destroyed == 0 && s.threads[t].owned == 0
      && forall u :: 0 <= u < |s.threads| && u != t ==> s.threads[u] == Thread(Outside, 0)
  {
    var s := Run(Init(threads), steps);
    InitOk(threads);
    RunOk(Init(threads), steps);
    assert ThreadOk(s, t);
    Weighs(s, t);
    forall u | 0 <= u < |s.threads| && u != t
      ensures s.threads[u] == Thread(Outside, 0)
    {
      Weighs(s, u);
      assert ThreadOk(s, u);
    }
  }

  /** In every interleaving: no step of addRef or removeRef is taken on a counter that is gone, the buffer is
      destroyed at most once, and between calls the count is the number of references owned. */
  lemma ProtocolSafe(threads: nat, steps: seq<Step>)
    requires threads > 0 && Legal(Init(threads), steps)
    ensures var s := Run(Init(threads), steps);
      && (forall t :: 0 <= t < |s.threads| && s.threads[t].pc != Outside ==> s.alive)
      && (forall t :: 0 <= t < |s.threads| && s.threads[t].owned > 0 ==> s.alive && s.destroyed == 0)
      && s.destroyed <= 1
      && (Quiet(s.threads) ==> s.refcnt == Owned(s.threads))
  {
    var s := Run(Init(threads), steps);
    InitOk(threads);
    RunOk(Init(threads), steps);
    forall t | 0 <= t < |s.threads|
      ensures s.threads[t].pc != Outside ==> s.alive
      ensures s.threads[t].owned > 0 ==> s.alive && s.destroyed == 0
    {
      Weighs(s, t);
      assert ThreadOk(s, t);
    }
    if s.alive && s.refcnt == 0 {
      assert ThreadOk(s, s.lock.t);
    }
    if Quiet(s.threads) {
      QuietOutstanding(s.threads);
    }
  }

  /** Once every call has returned, the buffer has been destroyed, and the counter with it, exactly when no reference
      is left. */
  lemma DestroyedAtZero(threads: nat, steps: seq<Step>)
    requires threads > 0 && Legal(Init(threads), steps) && Quiet(Run(Init(threads), steps).threads)
    ensures var s := Run(Init(threads), steps);
      && (!s.alive <==> Owned(s.threads) == 0)
      && s.destroyed == if Owned(s.threads) == 0 then 1 else 0
  {
    var s := Run(Init(threads), steps);
    InitOk(threads);
    RunOk(Init(threads), steps);
    QuietOutstanding(s.threads);
    if s.lock.HeldBy? {
      assert ThreadOk(s, s.lock.t);
    }
  }

  /** A thread inside a call never waits for ever: some thread can always take its next step. */
  lemma SomeoneCanStep(threads: nat, steps: seq<Step>, t: nat) returns (u: nat)
    requires threads > 0 && Legal(Init(threads), steps)
    requires t < |Run(Init(threads), steps).threads| && Run(Init(threads), steps).threads[t].pc != Outside
    ensures Enabled(Run(Init(threads), steps), Advance(u))
  {
    var s := Run(Init(threads), steps);
    InitOk(threads);
    RunOk(Init(threads), steps);
    u := if s.lock.HeldBy? then s.lock.t else t;
    assert ThreadOk(s, u);
  }

  /** In every interleaving at most one thread is past the lock. */
  lemma OneInside(threads: nat, steps: seq<Step>, t: nat, u: nat)
    requires threads > 0 && Legal(Init(threads), steps)
    requires t < |Run(Init(threads), steps).threads| && u < |Run(Init(threads), steps).threads|
    requires Inside(Run(Init(threads), steps).threads[t].pc) && Inside(Run(Init(threads), steps).threads[u].pc)
    ensures t == u
  {
    var s := Run(Init(threads), steps);
    InitOk(threads);
    RunOk(Init(threads), steps);
    assert ThreadOk(s, t) && ThreadOk(s, u);
  }

  // ---------------------------------------------------------------- what the calls of a run add up to

  /** What a step means for the references of thread t: one more for each addRef it calls and each reference it is
      given, one less for each removeRef it calls and each reference it gives away. */
  function Gain(step: Step, t: nat): int {
    match step
    case CallAdd(v) => if v == t then 1 else 0
    case CallRemove(v) => if v == t then -1 else 0
    case Give(v, u) => (if u == t then 1 else 0) - if v == t then 1 else 0
    case Advance(_) => 0
  }

  function Gains(steps: seq<Step>, t: nat): int {
    if steps == [] then 0 else Gain(steps[0], t) + Gains(steps[1..], t)
  }

  // An addRef that has been called and has not returned.
  function Adding(pc: Pc): nat {
    if pc in {AddLock, AddCount, AddUnlock} then 1 else 0
  }

  lemma StepGains(s: State, step: Step, t: nat)
    requires Enabled(s, step) && t < |s.threads|
    ensures var r := Next(s, step);
      && |r.threads| == |s.threads|
      && r.threads[t].owned + Adding(r.threads[t].pc) == s.threads[t].owned + Adding(s.threads[t].pc) + Gain(step, t)
  {
  }

  lemma {:induction false} RunGains(s: State, steps: seq<Step>, t: nat)
    requires Legal(s, steps) && t < |s.threads|
    ensures var r := Run(s, steps);
      && |r.threads| == |s.threads|
      && r.threads[t].owned + Adding(r.threads[t].pc) == s.threads[t].owned + Adding(s.threads[t].pc) + Gains(steps, t)
    decreases |steps|
  {
    hide Enabled, Next;
    if steps != [] {
      StepGains(s, steps[0], t);
      RunGains(Next(s, steps[0]), steps[1..], t);
    }
  }

  /** What a step means for the count, as soon as it has taken effect. */
  function Change(step: Step): int {
    match step
    case CallAdd(_) => 1
    case CallRemove(_) => -1
    case _ => 0
  }

  function Changes(steps: seq<Step>): int {
    if steps == [] then 0 else Change(steps[0]) + Changes(steps[1..])
  }

  // A call whose effect on the count is still to come.
  function ToCome(pc: Pc): int {
    if pc in {AddLock, AddCount} then 1 else if pc in {RemoveLock, RemoveCount} then -1 else 0
  }

  function AllToCome(ths: seq<Thread>): int {
    if ths == [] then 0 else AllToCome(ths[..|ths| - 1]) + ToCome(ths[|ths| - 1].pc)
  }

  lemma {:induction false} ToComeAt(ths: seq<Thread>, t: nat, th: Thread)
    requires t < |ths|
    ensures AllToCome(ths[t := th]) == AllToCome(ths) - ToCome(ths[t].pc) + ToCome(th.pc)
  {
    var n := |ths| - 1;
    if t < n {
      ToComeAt(ths[..n], t, th);
      assert ths[t := th][..n] == ths[..n][t := th];
    } else {
      assert ths[t := th][..n] == ths[..n];
    }
  }

  lemma StepChanges(s: State, step: Step)
    requires Enabled(s, step)
    ensures var r := Next(s, step);
      r.refcnt + AllToCome(r.threads) == s.refcnt + AllToCome(s.threads) + Change(step)
  {
    var r := Next(s, step);
    match step
    case Give(t, u) =>
      ToComeAt(s.threads, t, r.threads[t]);
      ToComeAt(s.threads[t := r.threads[t]], u, r.threads[u]);
      assert r.threads == s.threads[t := r.threads[t]][u := r.threads[u]];
    case CallAdd(t) => ToComeAt(s.threads, t, r.threads[t]);
    case CallRemove(t) => ToComeAt(s.threads, t, r.threads[t]);
    case Advance(t) =>
      ToComeAt(s.threads, t, r.threads[t]);
      assert r.threads == s.threads[t := r.threads[t]];
  }

  lemma {:induction false} RunChanges(s: State, steps: seq<Step>)
    requires Legal(s, steps)
    ensures var r := Run(s, steps);
      r.refcnt + AllToCome(r.threads) == s.refcnt + AllToCome(s.threads) + Changes(steps)
    decreases |steps|
  {
    hide Enabled, Next;
    if steps != [] {
      StepChanges(s, steps[0]);
      RunChanges(Next(s, steps[0]), steps[1..]);
    }
  }

  lemma {:induction false} NoneToCome(ths: seq<Thread>)
    requires Quiet(ths)
    ensures AllToCome(ths) == 0
  {
    if ths != [] {
      NoneToCome(ths[..|ths| - 1]);
    }
  }

  /** Once every call has returned, in whatever interleaving, each addRef has added one to the count and to what its
      caller owns, and each removeRef has taken one off both. */
  lemma CallsCounted(threads: nat, steps: seq<Step>)
    requires threads > 0 && Legal(Init(threads), steps) && Quiet(Run(Init(threads), steps).threads)
    ensures var s := Run(Init(threads), steps);
      && s.refcnt == 1 + Changes(steps) && |s.threads| == threads
      && forall t :: 0 <= t < threads ==> s.threads[t].owned == (if t == 0 then 1 else 0) + Gains(steps, t)
  {
    var s0, s := Init(threads), Run(Init(threads), steps);
    RunGains(s0, steps, 0);
    forall t | 0 <= t < threads
      ensures s.threads[t].owned == (if t == 0 then 1 else 0) + Gains(steps, t)
    {
      RunGains(s0, steps, t);
    }
    RunChanges(s0, steps);
    NoneToCome(s.threads);
    NoneToCome(s0.threads);
  }
}
