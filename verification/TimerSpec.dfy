/** What one tick of OsclTimer does to the list of pending timers, and what that means for one
    timer over a whole run. */
module TimerSpec {
  import opened SeqEdits

  // An observer; 0 is the null pointer.
  type Observer = nat

  /** A pending timer.  serial tells apart timers that were requested with the same arguments. */
  datatype Entry = Entry(serial: nat, id: int, param: int, counter: int, orig: int, obs: Observer, recurring: bool)

  datatype Action =
    | Request(id: int, param: int, cycles: int, obs: Observer, recurring: bool)
    | Cancel(id: int, param: int)

  datatype Fired = Fired(serial: nat, to: Observer, id: int, param: int)

  // ---------------------------------------------------------------- counting down

  predicate Due(e: Entry) {
    e.counter - 1 <= 0
  }

  function Hit(e: Entry): Entry {
    e.(counter := if Due(e) && e.recurring then e.orig else e.counter - 1)
  }

  function HitAll(es: seq<Entry>): (r: seq<Entry>)
    ensures |r| == |es| && forall i :: 0 <= i < |es| ==> r[i] == Hit(es[i])
  {
    if es == [] then [] else HitAll(es[..|es| - 1]) + [Hit(es[|es| - 1])]
  }

  function Target(g: Observer, e: Entry): Observer {
    if e.obs != 0 then e.obs else g
  }

  /** The callbacks of one tick, in order. */
  function Fires(g: Observer, es: seq<Entry>): seq<Fired> {
    if es == [] then []
    else
      var e, f := es[|es| - 1], Fires(g, es[..|es| - 1]);
      if Due(e) && Target(g, e) != 0 then f + [Fired(e.serial, Target(g, e), e.id, e.param)] else f
  }

  /** What the first n callbacks ask for; cb(i) is what the i-th one does. */
  function Asked(cb: nat -> seq<Action>, n: nat): seq<Action> {
    if n == 0 then [] else Asked(cb, n - 1) + cb(n - 1)
  }

  predicate OneShotDue(es: seq<Entry>) {
    exists i :: 0 <= i < |es| && Due(es[i]) && !es[i].recurring
  }

  // ---------------------------------------------------------------- removing and adding

  function Running(es: seq<Entry>): seq<Entry> {
    if es == [] then []
    else (if es[0].counter > 0 then [es[0]] else []) + Running(es[1..])
  }

  predicate Matches(e: Entry, id: int, param: int) {
    e.id == id && (e.param == param || param == -1)
  }

  /** Cancel: the first match goes. */
  function CancelFirst(es: seq<Entry>, id: int, param: int): seq<Entry> {
    if es == [] then []
    else if Matches(es[0], id, param) then es[1..]
    else [es[0]] + CancelFirst(es[1..], id, param)
  }

  function CancelAll(es: seq<Entry>, acts: seq<Action>): seq<Entry>
    decreases |acts|
  {
    if acts == [] then es
    else CancelAll(if acts[0].Cancel? then CancelFirst(es, acts[0].id, acts[0].param) else es, acts[1..])
  }

  function NewEntry(serial: nat, id: int, param: int, cycles: int, obs: Observer, recurring: bool): Entry {
    Entry(serial, id, param, cycles, cycles, obs, recurring)
  }

  function Requests(acts: seq<Action>): nat {
    if acts == [] then 0 else Requests(acts[1..]) + if acts[0].Request? then 1 else 0
  }

  /** Requests made in callbacks are appended, as one-shot timers whatever was asked. */
  function AddAll(es: seq<Entry>, acts: seq<Action>, next: nat): seq<Entry>
    decreases |acts|
  {
    if acts == [] then es
    else if acts[0].Request? then
      AddAll(es + [NewEntry(next, acts[0].id, acts[0].param, acts[0].cycles, acts[0].obs, false)], acts[1..], next + 1)
    else AddAll(es, acts[1..], next)
  }

  // ---------------------------------------------------------------- one tick

  function Swept(es: seq<Entry>): seq<Entry> {
    if OneShotDue(es) then Running(HitAll(es)) else HitAll(es)
  }

  function TickActions(g: Observer, es: seq<Entry>, cb: nat -> seq<Action>): seq<Action> {
    Asked(cb, |Fires(g, es)|)
  }

  function Tick(g: Observer, es: seq<Entry>, cb: nat -> seq<Action>, next: nat): seq<Entry> {
    var acts := TickActions(g, es, cb);
    AddAll(CancelAll(Swept(es), acts), acts, next)
  }

  lemma {:induction false} CancelAt(es: seq<Entry>, id: int, param: int, k: nat)
    requires k < |es| && Matches(es[k], id, param) && forall j :: 0 <= j < k ==> !Matches(es[j], id, param)
    ensures CancelFirst(es, id, param) == RemoveAt(es, k)
  {
    if k > 0 {
      CancelAt(es[1..], id, param, k - 1);
    }
  }

  lemma {:induction false} CancelNone(es: seq<Entry>, id: int, param: int)
    requires forall j :: 0 <= j < |es| ==> !Matches(es[j], id, param)
    ensures CancelFirst(es, id, param) == es
  {
    if es != [] {
      CancelNone(es[1..], id, param);
    }
  }

  // ---------------------------------------------------------------- the two queues of a tick

  function RequestsOf(acts: seq<Action>): seq<Action> {
    if acts == [] then []
    else
      var r := RequestsOf(acts[..|acts| - 1]);
      if acts[|acts| - 1].Request? then r + [acts[|acts| - 1]] else r
  }

  function CancelsOf(acts: seq<Action>): seq<Action> {
    if acts == [] then []
    else
      var r := CancelsOf(acts[..|acts| - 1]);
      if acts[|acts| - 1].Cancel? then r + [acts[|acts| - 1]] else r
  }

  lemma {:induction false} QueuesJoin(a: seq<Action>, b: seq<Action>)
    ensures RequestsOf(a + b) == RequestsOf(a) + RequestsOf(b)
    ensures CancelsOf(a + b) == CancelsOf(a) + CancelsOf(b)
  {
    if b == [] {
      assert a + b == a;
    } else {
      var n := |b| - 1;
      assert (a + b)[..|a| + n] == a + b[..n];
      QueuesJoin(a, b[..n]);
    }
  }

  lemma {:induction false} OnlyRequests(es: seq<Entry>, acts: seq<Action>, next: nat)
    ensures AddAll(es, acts, next) == AddAll(es, RequestsOf(acts), next) && Requests(acts) == |RequestsOf(acts)|
    decreases |acts|
  {
    if acts != [] {
      var a, rest := acts[0], acts[1..];
      assert acts == [a] + rest;
      QueuesJoin([a], rest);
      if a.Request? {
        assert RequestsOf([a]) == [a];
        assert RequestsOf(acts)[1..] == RequestsOf(rest);
        OnlyRequests(es + [NewEntry(next, a.id, a.param, a.cycles, a.obs, false)], rest, next + 1);
      } else {
        assert RequestsOf([a]) == [] && RequestsOf(acts) == RequestsOf(rest);
        OnlyRequests(es, rest, next);
      }
    }
  }

  lemma {:induction false} OnlyCancels(es: seq<Entry>, acts: seq<Action>)
    ensures CancelAll(es, acts) == CancelAll(es, CancelsOf(acts))
    decreases |acts|
  {
    if acts != [] {
      var a, rest := acts[0], acts[1..];
      assert acts == [a] + rest;
      QueuesJoin([a], rest);
      if a.Cancel? {
        assert CancelsOf([a]) == [a];
        assert CancelsOf(acts)[1..] == CancelsOf(rest);
        OnlyCancels(CancelFirst(es, a.id, a.param), rest);
      } else {
        assert CancelsOf([a]) == [] && CancelsOf(acts) == CancelsOf(rest);
        OnlyCancels(es, rest);
      }
    }
  }

  lemma FiresMore(g: Observer, es: seq<Entry>, k: nat)
    requires k < |es|
    ensures Fires(g, es[..k + 1]) ==
      if Due(es[k]) && Target(g, es[k]) != 0 then
        Fires(g, es[..k]) + [Fired(es[k].serial, Target(g, es[k]), es[k].id, es[k].param)]
      else Fires(g, es[..k])
    ensures OneShotDue(es[..k + 1]) <==> OneShotDue(es[..k]) || (Due(es[k]) && !es[k].recurring)
  {
    var a := es[..k + 1];
    assert a[..k] == es[..k];
    assert Due(a[k]) && !a[k].recurring ==> OneShotDue(a);
    assert forall i :: 0 <= i < k ==> a[i] == es[..k][i];
  }

  // ---------------------------------------------------------------- one more step of each loop

  lemma {:induction false} RunningSkip(es: seq<Entry>, k: nat)
    requires k < |es| && es[k].counter <= 0
    ensures Running(RemoveAt(es, k)) == Running(es)
  {
    if k == 0 {
      assert RemoveAt(es, 0) == es[1..];
    } else {
      RunningSkip(es[1..], k - 1);
      assert RemoveAt(es, k)[1..] == RemoveAt(es[1..], k - 1);
    }
  }

  lemma {:induction false} RunningAll(es: seq<Entry>)
    requires forall i :: 0 <= i < |es| ==> es[i].counter > 0
    ensures Running(es) == es
  {
    if es != [] {
      RunningAll(es[1..]);
    }
  }

  lemma {:induction false} CancelOneMore(es: seq<Entry>, acts: seq<Action>, i: nat)
    requires i < |acts| && acts[i].Cancel?
    ensures CancelAll(es, acts[..i + 1]) == CancelFirst(CancelAll(es, acts[..i]), acts[i].id, acts[i].param)
    decreases i
  {
    if i == 0 {
      assert acts[..1][1..] == [];
    } else {
      var es' := if acts[0].Cancel? then CancelFirst(es, acts[0].id, acts[0].param) else es;
      CancelOneMore(es', acts[1..], i - 1);
      assert acts[..i][1..] == acts[1..][..i - 1] && acts[..i + 1][1..] == acts[1..][..i];
    }
  }

  lemma {:induction false} AddOneMore(es: seq<Entry>, acts: seq<Action>, i: nat, next: nat)
    requires i < |acts| && forall j :: 0 <= j <= i ==> acts[j].Request?
    ensures var a := acts[i];
      AddAll(es, acts[..i + 1], next) ==
      AddAll(es, acts[..i], next) + [NewEntry(next + i, a.id, a.param, a.cycles, a.obs, false)]
    decreases i
  {
    if i == 0 {
      assert acts[..1][1..] == [];
    } else {
      var b := acts[0];
      AddOneMore(es + [NewEntry(next, b.id, b.param, b.cycles, b.obs, false)], acts[1..], i - 1, next + 1);
      assert acts[..i][1..] == acts[1..][..i - 1] && acts[..i + 1][1..] == acts[1..][..i];
    }
  }

  lemma AddNothing(es: seq<Entry>, next: nat)
    ensures AddAll(es, [], next) == es
  {
  }

  lemma {:induction false} AddsAll(es: seq<Entry>, acts: seq<Action>, next: nat)
    ensures |AddAll(es, acts, next)| == |es| + Requests(acts)
    decreases |acts|
  {
    if acts != [] {
      var a := acts[0];
      AddsAll(if a.Request? then es + [NewEntry(next, a.id, a.param, a.cycles, a.obs, false)] else es, acts[1..],
              if a.Request? then next + 1 else next);
    }
  }

  lemma NoFires(g: Observer, es: seq<Entry>)
    ensures Fires(g, es[..0]) == [] && !OneShotDue(es[..0])
  {
  }
}
