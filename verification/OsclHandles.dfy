/** OsclRefCounterDA and OsclRefCounterSA, and the two kinds of handle that hold them: OsclSharedPtr
    and OsclRefCounterMemFrag.  Objects and buffers may contain handles themselves, which are
    destroyed with them.  The ghost heap says which handles and counters there are; nothing may be
    read or written that is gone. */
module OsclHandles {
  import opened SeqEdits
  import opened HandleSpec

  // What is tracked: a buffer elsewhere, or one that the counter is part of.
  datatype Buffer = Self | Other(address: nat)

  datatype Handle = Ptr(p: SharedPtr) | Frag(f: MemFrag)

  datatype Fragment = Fragment(ptr: nat, len: nat)

  type Store = State<RefCounter, Handle>

  ghost function Opt(c: RefCounter?): Option<RefCounter> {
    if c == null then None
    else
      var d: RefCounter := c;
      Some(d)
  }

  /** The counters and handles of a program, mirrored in st. */
  class Heap {
    ghost var st: Store
    ghost var made: set<RefCounter>
    ghost var ptrs: set<SharedPtr>
    ghost var frags: set<MemFrag>
    // Counters whose buffer is being destroyed, and a handle that is being assigned.
    ghost var dying: set<RefCounter>
    ghost var open: set<Handle>

    ghost constructor ()
      ensures Valid() && st == State(map[], map[], multiset{}) && made == {} && ptrs == {} && frags == {}
    {
      st := State(map[], map[], multiset{});
      made, ptrs, frags, dying, open := {}, {}, {}, {}, {};
    }

    /** The buffer of c has been deallocated, once, exactly when c is gone. */
    ghost predicate TiedCounter(c: RefCounter)
      reads `st, c
    {
      if c in st.counters then
        c.alive && c.refcnt == st.counters[c].count && c.inner == st.counters[c].inner && c.deallocated == []
      else !c.alive && c.deallocated == [c.ptr]
    }

    ghost predicate TiedPtr(p: SharedPtr)
      reads `st, p
    {
      Ptr(p) in st.handles ==> st.handles[Ptr(p)].item == Object(p.mpRep) && st.handles[Ptr(p)].ref == Opt(p.refcnt)
    }

    ghost predicate TiedFrag(f: MemFrag)
      reads `st, f
    {
      Frag(f) in st.handles ==>
        st.handles[Frag(f)].item == Memory(f.memfrag.ptr, f.memfrag.len, f.capacity)
          && st.handles[Frag(f)].ref == Opt(f.refcnt)
    }

    // Every counter is as the mirror says.
    ghost predicate Counting()
      reads `st, `made, `dying, made
    {
      && st.counters.Keys <= made - dying && dying <= made
      && (forall c {:trigger TiedCounter(c)} :: c in made && c !in dying ==> TiedCounter(c))
    }

    // Every handle is.
    ghost predicate Handling()
      reads `st, `ptrs, `frags, `open, ptrs, frags
    {
      && (forall p {:trigger TiedPtr(p)} :: p in ptrs && Ptr(p) !in open ==> TiedPtr(p))
      && (forall f {:trigger TiedFrag(f)} :: f in frags && Frag(f) !in open ==> TiedFrag(f))
      && (forall h :: h in st.handles ==> if h.Ptr? then h.p in ptrs else h.f in frags)
    }

    ghost predicate Sync()
      reads this, made, ptrs, frags
    {
      Counting() && Handling()
    }

    // Handles that nobody has written are still in step with what is left of the mirror.
    twostate lemma HandlesTied()
      requires old(Handling())
      requires st.handles.Keys <= old(st.handles.Keys)
      requires forall h :: h in st.handles ==> st.handles[h] == old(st.handles[h])
      requires ptrs == old(ptrs) && frags == old(frags) && open == old(open)
      requires forall p :: p in ptrs && Ptr(p) !in open ==> unchanged(p)
      requires forall f :: f in frags && Frag(f) !in open ==> unchanged(f)
      ensures Handling()
    {
      forall p | p in ptrs && Ptr(p) !in open
        ensures TiedPtr(p)
      {
        assert old(TiedPtr(p));
      }
      forall f | f in frags && Frag(f) !in open
        ensures TiedFrag(f)
      {
        assert old(TiedFrag(f));
      }
    }

    lemma CounterAt(c: RefCounter)
      requires Counting() && c in st.counters
      ensures c in made && c !in dying && dying <= made && TiedCounter(c)
    {
    }

    // The state in which the reference to c just given up may be dropped.
    ghost predicate Ready(c: RefCounter, doomed: set<Handle>)
      reads this, made, ptrs, frags
    {
      && Sync() && c in st.counters && c in made && c !in dying && Wired(st, doomed) && Counted(st, Some(c))
      && open <= DropRef(st, c).handles.Keys
    }

    // The state in which the handles hs, in a buffer that is going, may be destroyed.
    ghost predicate ReadyAll(hs: seq<Handle>, doomed: set<Handle>)
      reads this, made, ptrs, frags
    {
      && Sync() && Wired(st, doomed + Elems(hs)) && Counted(st, None) && NoDup(hs) && Elems(hs) !! doomed
      && open <= KillAll(st, hs).handles.Keys
    }

    lemma NoneReady(hs: seq<Handle>, doomed: set<Handle>)
      requires hs == [] && ReadyAll(hs, doomed)
      ensures Sync() && KillAll(st, hs) == st
    {
    }

    // The state in which the handle h may be destroyed.
    ghost predicate ReadyOne(h: Handle, doomed: set<Handle>)
      reads this, made, ptrs, frags
    {
      && Sync() && Wired(st, doomed) && Counted(st, None) && h in doomed && h in st.handles && h !in open
      && open <= Kill(st, h).handles.Keys
    }

    // A counter that is there and has not begun to go.
    lemma RefMade(h: Handle, doomed: set<Handle>)
      requires Counting() && Wired(st, doomed) && h in st.handles && st.handles[h].ref.Some?
      ensures st.handles[h].ref.value in made && st.handles[h].ref.value !in dying
    {
    }

    // h is destroyed, and with it the reference it holds is given up.
    ghost method Forget(h: Handle, doomed: set<Handle>)
      requires ReadyOne(h, doomed)
      modifies `st
      ensures h in old(st).handles && st == old(st).(handles := old(st).handles - {h})
      ensures var ref := old(st).handles[h].ref;
        && ref == Opt(if h.Ptr? then h.p.refcnt else h.f.refcnt)
        && Kill(old(st), h) == (if ref == None then st else DropRef(st, ref.value))
        && if ref == None then Sync() else Ready(ref.value, doomed - {h})
    {
      hide Wired, Counted, DropRef, Counting, Handling;
      Reading(h);
      KillReady(st, doomed, h);
      if st.handles[h].ref.Some? {
        RefMade(h, doomed);
      }
      st := st.(handles := st.handles - {h});
      CountersTied();
      HandlesTied();
    }

    // What a step that drops references leaves alone.
    twostate predicate KeptBut(new but: RefCounter?)
      reads this, made
    {
      && made == old(made) && ptrs == old(ptrs) && frags == old(frags) && dying == old(dying) && open == old(open)
      && (forall c :: c in dying && c in made && c != but ==> unchanged(c))
      && (forall c :: c in made ==> c.inner == old(c.inner))
    }

    // The same for a step at whose end c has gone.
    twostate predicate KeptPast(c: RefCounter)
      reads this, made
    {
      && made == old(made) && ptrs == old(ptrs) && frags == old(frags) && open == old(open)
      && c in old(dying) && dying == old(dying) - {c}
      && (forall d :: d in dying && d in made ==> unchanged(d))
      && (forall d :: d in made ==> d.inner == old(d.inner))
    }

    twostate predicate Kept()
      reads this, made
    {
      KeptBut(null)
    }

    // A counter on its way out may be written.
    twostate lemma SyncBut(c: RefCounter)
      requires old(Sync()) && unchanged(this) && c in dying
      requires forall d :: d in made && d != c ==> unchanged(d)
      requires (forall p :: p in ptrs ==> unchanged(p)) && forall f :: f in frags ==> unchanged(f)
      ensures Sync()
    {
      hide Handling;
      forall d | d in made && d !in dying
        ensures TiedCounter(d)
      {
        assert old(TiedCounter(d));
      }
      HandlesTied();
    }

    // Only the counter c has been written or made, and it is as the mirror says.
    twostate lemma OtherCounters(new c: RefCounter)
      requires old(Counting()) && c in made && made == old(made) + {c} && dying <= made
      requires st.counters.Keys <= made
      requires forall d :: d in made && d != c ==>
        (d in st.counters <==> d in old(st).counters) && (d in dying <==> d in old(dying))
      requires forall d :: d in old(made) && d != c ==> unchanged(d)
      requires forall d :: d in st.counters && d != c ==> st.counters[d] == old(st).counters[d]
      requires if c in dying then c !in st.counters else TiedCounter(c)
      ensures Counting()
    {
      forall d | d in made && d !in dying
        ensures TiedCounter(d)
      {
        assert d != c ==> d in old(made) && d !in old(dying) && old(TiedCounter(d));
      }
    }

    // All counters stay in step when none is written and the mirror says the same of each.
    twostate lemma CountersTied()
      requires old(Counting())
      requires st.counters == old(st.counters) && made == old(made) && dying == old(dying)
      requires forall c :: c in made ==> unchanged(c)
      ensures Counting()
    {
      forall c | c in made && c !in dying
        ensures TiedCounter(c)
      {
        assert old(TiedCounter(c));
      }
    }

    // A counter has been made.
    ghost method Enroll(c: RefCounter)
      requires Valid() && c !in made && c.refcnt == 1 && c.inner == [] && c.alive && c.deallocated == []
      modifies `st, `made
      ensures Valid() && st == NewCounter(old(st), c) && made == old(made) + {c}
    {
      assert c !in st.counters && c !in dying;
      NewCounterOk(st, c);
      NewCounterIs(st, c);
      st := NewCounter(st, c);
      made := made + {c};
      hide HandleSpec.Valid, Counting, Handling, NewCounter;
      OtherCounters(c);
      HandlesTied();
    }

    // The buffer of home, if any, lists h now as well.
    twostate lemma EnteredCounters(home: RefCounter?, new h: Handle)
      requires old(Counting()) && made == old(made) && dying == old(dying)
      requires forall c :: c in made && c != home ==> unchanged(c)
      requires if home == null then st.counters == old(st).counters
        else
          && home in old(st).counters && unchanged(home`refcnt, home`alive, home`deallocated)
          && home.inner == old(home.inner) + [h]
          && var k := old(st).counters[home];
             st.counters == old(st).counters[home := k.(inner := k.inner + [h])]
      ensures Counting()
    {
      forall c | c in made && c !in dying
        ensures TiedCounter(c)
      {
        assert old(TiedCounter(c));
      }
    }

    // The new handle h is as the mirror says, and no other has been written.
    twostate lemma EnteredHandles(new h: Handle)
      requires old(Handling()) && open == {} == old(open) && h !in old(st).handles && h in st.handles
      requires Shows(h, st.handles[h].item, st.handles[h].ref)
      requires st.handles == old(st).handles[h := st.handles[h]]
      requires ptrs == old(ptrs) + (if h.Ptr? then {h.p} else {}) && frags == old(frags) + if h.Frag? then {h.f} else {}
      requires forall p :: p in old(ptrs) && Ptr(p) != h ==> unchanged(p)
      requires forall f :: f in old(frags) && Frag(f) != h ==> unchanged(f)
      ensures Handling()
    {
      forall p | p in ptrs
        ensures TiedPtr(p)
      {
        assert Ptr(p) != h ==> p in old(ptrs) && old(TiedPtr(p));
      }
      forall f | f in frags
        ensures TiedFrag(f)
      {
        assert Frag(f) != h ==> f in old(frags) && old(TiedFrag(f));
      }
    }

    // The program hands over a reference.
    ghost method HandOver(ref: Option<RefCounter>)
      requires Sync()
      modifies `st
      ensures Sync() && st == TakeOver(old(st), ref)
    {
      hide Counting, Handling;
      st := TakeOver(st, ref);
      CountersTied();
      HandlesTied();
    }

    // The program holds one reference to c more.
    ghost method Hold(c: RefCounter)
      requires Sync()
      modifies `st
      ensures Sync() && st == old(st).(loose := old(st).loose + multiset{c})
    {
      hide Counting, Handling;
      st := st.(loose := st.loose + multiset{c});
      CountersTied();
      HandlesTied();
    }

    lemma LooseMade(c: RefCounter)
      requires Counting() && HandleSpec.Valid(st) && c in st.loose
      ensures c in made && c !in dying
    {
    }

    lemma LooseIs(c: RefCounter)
      requires Valid() && c in st.loose
      ensures c in made && c in st.counters && c.refcnt == st.counters[c].count > 0
    {
      LooseMade(c);
      assert TiedCounter(c);
    }

    // The counter of a handle, if it has one.
    lemma CounterOf(h: Handle)
      requires Valid() && h in st.handles
      ensures Shows(h, st.handles[h].item, st.handles[h].ref)
      ensures var ref := st.handles[h].ref; ref.Some? ==>
        && ref.value in made && ref.value in st.counters
        && ref.value.alive && ref.value.refcnt == st.counters[ref.value].count
    {
      Reading(h);
      CounterThere(h);
      if st.handles[h].ref.Some? {
        assert TiedCounter(st.handles[h].ref.value);
      }
    }

    // What binding p to a new object will do.
    lemma Binding(p: SharedPtr, rep: nat, counter: RefCounter?)
      requires Valid() && Ptr(p) in st.handles && (counter != null ==> counter in st.loose)
      requires BindNew(st, Ptr(p), Object(rep), Opt(counter)).Done?
      ensures BindNew(st, Ptr(p), Object(rep), Opt(counter)).state.loose == st.loose - One(Opt(counter))
    {
      hide Sync, BindNew;
      BindNewIs(st, Ptr(p), Object(rep), Opt(counter));
    }

    lemma BindingCounts(p: SharedPtr, rep: nat, counter: RefCounter)
      requires Valid() && Ptr(p) in st.handles && counter in st.loose
      requires BindNew(st, Ptr(p), Object(rep), Some(counter)).Done?
      ensures counter in made
      ensures p.refcnt == null || (p.refcnt != counter && p.refcnt.refcnt > 1) ==>
        var r := BindNew(st, Ptr(p), Object(rep), Some(counter)).state;
        counter in r.counters && r.counters[counter].count == counter.refcnt
    {
      CounterOf(Ptr(p));
      LooseIs(counter);
      hide Sync, BindNew;
      if p.refcnt == null || (p.refcnt != counter && p.refcnt.refcnt > 1) {
        BindNewCounts(st, Ptr(p), Object(rep), counter);
      }
    }

    // The program is about to give up one of its references to c.
    ghost method Unhold(c: RefCounter)
      requires Valid() && c in st.loose
      modifies `st
      ensures st == old(st).(loose := old(st).loose - multiset{c}) && Ready(c, {}) && HandleSpec.Valid(DropRef(st, c))
    {
      hide Counting, Handling, Wired, Counted, DropRef;
      DropLooseReady(st, c);
      LooseMade(c);
      st := st.(loose := st.loose - multiset{c});
      CountersTied();
      HandlesTied();
    }

    ghost predicate Shows(h: Handle, item: Item, ref: Option<RefCounter>)
      reads if h.Ptr? then {h.p} else {}, if h.Frag? then {h.f} else {}
    {
      match h
      case Ptr(p) => item == Object(p.mpRep) && ref == Opt(p.refcnt)
      case Frag(f) => item == Memory(f.memfrag.ptr, f.memfrag.len, f.capacity) && ref == Opt(f.refcnt)
    }

    // The assignment of h begins: its reference is as good as given up, whatever the field still says.
    ghost method Open(h: Handle)
      requires Sync() && h in st.handles && open == {}
      modifies `st, `open
      ensures Sync() && st == Detach(old(st), h) && open == {h}
    {
      hide Counting;
      open := {h};
      st := Detach(st, h);
      CountersTied();
      forall p | p in ptrs && Ptr(p) !in open
        ensures TiedPtr(p)
      {
        assert old(TiedPtr(p));
      }
      forall f | f in frags && Frag(f) !in open
        ensures TiedFrag(f)
      {
        assert old(TiedFrag(f));
      }
    }

    // The same, ready for the reference to be dropped.
    ghost method BeginAssign(h: Handle)
      requires Valid() && h in st.handles && h in LetGo(st, h).handles
      modifies `st, `open
      ensures Sync() && open == {h} && h in old(st).handles
      ensures var ref := old(st).handles[h].ref;
        && ref == Opt(if h.Ptr? then h.p.refcnt else h.f.refcnt)
        && if ref == None then st == LetGo(old(st), h)
           else Ready(ref.value, {}) && DropRef(st, ref.value) == LetGo(old(st), h)
    {
      hide Counting, Handling, LetGo, Detach, DropRef, Wired, Counted;
      Reading(h);
      GiveUpReady(st, h);
      if st.handles[h].ref.Some? {
        RefMade(h, {});
      }
      Open(h);
    }

    // The assignment ends, with the fields written.
    ghost method Close(h: Handle, item: Item, ref: Option<RefCounter>)
      requires Sync() && h in st.handles && open == {h} && Shows(h, item, ref)
      modifies `st, `open
      ensures Sync() && st == SetSlot(old(st), h, item, ref) && open == {}
    {
      hide Counting;
      open := {};
      st := SetSlot(st, h, item, ref);
      CountersTied();
      forall p | p in ptrs
        ensures TiedPtr(p)
      {
        assert Ptr(p) != h ==> old(TiedPtr(p));
      }
      forall f | f in frags
        ensures TiedFrag(f)
      {
        assert Frag(f) != h ==> old(TiedFrag(f));
      }
    }

    // What the fields of a handle say, read while it is there.
    lemma Reading(h: Handle)
      requires Sync() && h in st.handles && h !in open
      ensures Shows(h, st.handles[h].item, st.handles[h].ref)
    {
      assert if h.Ptr? then TiedPtr(h.p) else TiedFrag(h.f);
    }

    // The counter of a handle that is there is there too.
    lemma CounterThere(h: Handle)
      requires Sync() && HandleSpec.Valid(st) && h in st.handles && h !in open
      ensures st.handles[h].ref.Some? ==> st.handles[h].ref.value in st.counters && st.handles[h].ref.value in made
    {
    }

    lemma Leaving(h: Handle)
      requires Valid() && h in st.handles && st.handles[h].home == None
      ensures ReadyOne(h, {h}) && HandleSpec.Valid(Kill(st, h))
      ensures h !in Kill(st, h).handles && Kill(st, h).loose == st.loose
    {
      OutsideDoomed(st, h);
      DestroyOk(st, h);
    }

    lemma LeavingCounts(h: Handle, c: RefCounter)
      requires Valid() && h in st.handles && c == if h.Ptr? then h.p.refcnt else h.f.refcnt
      ensures c in made && c.refcnt >= 1
      ensures var r := Kill(st, h);
        if c.refcnt > 1 then c in r.counters && r.counters[c].count == c.refcnt - 1 else c !in r.counters
    {
      CounterOf(h);
      hide Sync, Kill;
      KillIs(st, h);
    }

    // c has gone.
    ghost method Bury(c: RefCounter)
      requires Sync() && c in dying && !c.alive && c.deallocated == [c.ptr]
      modifies `dying
      ensures Sync() && dying == old(dying) - {c}
    {
      assert c in made && c !in st.counters;
      hide Counting, Handling;
      dying := dying - {c};
      OtherCounters(c);
      HandlesTied();
    }

    /** Between calls: every count is the number of references, and every handle is where it says. */
    ghost predicate Valid()
      reads this, made, ptrs, frags
    {
      Sync() && dying == {} && open == {} && HandleSpec.Valid(st)
    }

    lemma Unknown(h: Handle)
      requires Valid() && if h.Ptr? then h.p !in ptrs else h.f !in frags
      ensures h !in st.handles
    {
    }

    // A new handle is no handle of the program yet, and the one it copies is there to be read.
    lemma CopyReady(h: Handle, x: Handle)
      requires Valid() && x in st.handles && if h.Ptr? then h.p !in ptrs else h.f !in frags
      ensures h !in st.handles && Shows(x, st.handles[x].item, st.handles[x].ref)
    {
      Reading(x);
    }

    lemma Sound()
      requires Valid()
      ensures HandleSpec.Valid(st)
    {
    }

    lemma CounterIs(c: RefCounter)
      requires Valid() && c in made
      ensures if c in st.counters then c.alive && c.refcnt == st.counters[c].count && c.deallocated == []
              else !c.alive && c.deallocated == [c.ptr]
    {
      assert TiedCounter(c);
    }

    /** Then every counter ever made has its buffer exactly while there are references, and has given
        it back once when there are none. */
    lemma Balanced(c: RefCounter)
      requires Valid() && c in made
      ensures if Held(st, c) > 0 then c.alive && c.refcnt == Held(st, c) && c.deallocated == []
              else !c.alive && c.deallocated == [c.ptr]
    {
      assert TiedCounter(c);
      if c !in st.counters {
        assert Holders(st, c) == {};
      }
    }
  }

  class RefCounter {
    const ptr: Buffer
    var refcnt: int
    // The handles that the buffer contains.
    var inner: seq<Handle>
    ghost var alive: bool
    ghost var deallocated: seq<Buffer>

    /** A counter starts with one reference, its maker's. */
    constructor (ptr: Buffer, ghost heap: Heap)
      requires heap.Valid()
      modifies heap`st, heap`made
      ensures heap.Valid() && heap.st == NewCounter(old(heap.st), this) && heap.made == old(heap.made) + {this}
      ensures this.ptr == ptr && refcnt == 1 && alive && deallocated == []
      ensures this !in old(heap.st).counters && heap.st.loose == old(heap.st.loose) + multiset{this}
    {
      this.ptr := ptr;
      refcnt := 1;
      inner := [];
      alive := true;
      deallocated := [];
      new;
      heap.Enroll(this);
    }

    method AddRef(ghost heap: Heap)
      requires heap.Sync() && this in heap.st.counters
      modifies `refcnt, heap`st
      ensures heap.Sync() && heap.st == AddTo(old(heap.st), Some(this)) && refcnt == old(refcnt) + 1
    {
      heap.CounterAt(this);
      hide Heap.Counting, Heap.Handling;
      refcnt := refcnt + 1;
      heap.st := AddTo(heap.st, Some(this));
      heap.OtherCounters(this);
      heap.HandlesTied();
    }

    // --refcnt; from 0 on, the counter is on its way out.
    method CountDown(ghost heap: Heap) returns (last: bool)
      requires heap.Sync() && this in heap.st.counters
      modifies `refcnt, heap`st, heap`dying
      ensures heap.Sync() && last == (old(heap.st).counters[this].count == 1)
      ensures if last then
          heap.st == old(heap.st).(counters := old(heap.st).counters - {this}) && heap.dying == old(heap.dying) + {this}
          && alive && deallocated == [] && inner == old(heap.st).counters[this].inner
        else heap.st == DropRef(old(heap.st), this) && heap.dying == old(heap.dying)
    {
      heap.CounterAt(this);
      hide Heap.Counting, Heap.Handling, DropRef;
      if heap.st.counters[this].count != 1 {
        DropOne(heap.st, this);
      }
      refcnt := refcnt - 1;
      last := refcnt == 0;
      if last {
        heap.st := heap.st.(counters := heap.st.counters - {this});
        heap.dying := heap.dying + {this};
      } else {
        heap.st := DropRef(heap.st, this);
      }
      heap.OtherCounters(this);
      heap.HandlesTied();
    }

    /** removeRef: at zero the buffer is deallocated, with the handles in it, and this object with it or after it. */
    method RemoveRef(ghost heap: Heap, ghost doomed: set<Handle>)
      requires heap.Ready(this, doomed)
      modifies heap`st, heap`dying, heap.made`refcnt, heap.made`alive, heap.made`deallocated
      ensures heap.Sync() && heap.Kept() && heap.st == DropRef(old(heap.st), this)
      decreases heap.st.counters.Keys, 0, 0
    {
      hide Heap.Sync, Wired, Counted, DropRef, KillAll;
      if heap.st.counters[this].count == 1 {
        LastReady(heap.st, doomed, this);
      }
      var last := CountDown(heap);
      if last {
        Expire(heap, doomed);
      }
    }

    // What removeRef does at zero.
    method Expire(ghost heap: Heap, ghost doomed: set<Handle>)
      requires heap.ReadyAll(inner, doomed) && this in heap.dying && this in heap.made && alive && deallocated == []
      modifies heap`st, heap`dying, heap.made`refcnt, heap.made`alive, heap.made`deallocated
      ensures heap.Sync() && heap.KeptPast(this) && heap.st == KillAll(old(heap.st), inner)
      decreases heap.st.counters.Keys, 4, 0
    {
      hide Heap.Sync, Heap.ReadyAll, KillAll;
      if ptr == Self {
        Dealloc(Self, heap, doomed);
      } else {
        Dealloc(ptr, heap, doomed);
        DeleteSelf(heap);
      }
      heap.Bury(this);
    }

    // destruct_and_dealloc.  A buffer that contains this object goes with it.
    method Dealloc(b: Buffer, ghost heap: Heap, ghost doomed: set<Handle>)
      requires heap.ReadyAll(inner, doomed) && this in heap.dying && this in heap.made && alive && deallocated == []
      modifies this`alive, this`deallocated, heap`st, heap`dying, heap.made`refcnt, heap.made`alive,
        heap.made`deallocated
      ensures heap.Sync() && heap.KeptBut(this) && heap.st == KillAll(old(heap.st), inner)
      ensures alive == (b != Self) && deallocated == [b]
      decreases heap.st.counters.Keys, 3, 0
    {
      hide Heap.Sync, KillAll, Wired, Counted, NoDup;
      deallocated := deallocated + [b];
      heap.SyncBut(this);
      DestroyInner(heap, doomed);
      label D:
      alive := b != Self;
      heap.SyncBut@D(this);
    }

    method DestroyInner(ghost heap: Heap, ghost doomed: set<Handle>)
      requires heap.ReadyAll(inner, doomed) && this in heap.dying && this in heap.made
      modifies heap`st, heap`dying, heap.made`refcnt, heap.made`alive, heap.made`deallocated
      ensures heap.Sync() && heap.Kept() && heap.st == KillAll(old(heap.st), inner)
      decreases heap.st.counters.Keys, 2, 0
    {
      hide Heap.Sync, Heap.ReadyAll, KillAll;
      ghost var target := KillAll(heap.st, inner);
      assert inner[0..] == inner;
      var i := 0;
      while i < |inner|
        invariant 0 <= i <= |inner| && inner == old(inner) && heap.Kept()
        invariant heap.ReadyAll(inner[i..], doomed) && KillAll(heap.st, inner[i..]) == target
        invariant heap.st.counters.Keys <= old(heap.st).counters.Keys
      {
        DestroyFirst(inner[i..], heap, doomed);
        assert inner[i..][1..] == inner[i + 1..];
        i := i + 1;
      }
      heap.NoneReady(inner[i..], doomed);
    }

    method DestroyFirst(hs: seq<Handle>, ghost heap: Heap, ghost doomed: set<Handle>)
      requires hs != [] && heap.ReadyAll(hs, doomed)
      modifies heap`st, heap`dying, heap.made`refcnt, heap.made`alive, heap.made`deallocated
      ensures heap.ReadyAll(hs[1..], doomed) && heap.Kept() && KillAll(heap.st, hs[1..]) == KillAll(old(heap.st), hs)
      ensures heap.st.counters.Keys <= old(heap.st).counters.Keys
      decreases heap.st.counters.Keys, 1, 1
    {
      hide Heap.Sync, Wired, Counted, KillAll, Kill, NoDup;
      NextReady(heap.st, doomed, hs);
      match hs[0]
      case Ptr(p) => p.Release(heap, doomed + Elems(hs));
      case Frag(f) => f.Release(heap, doomed + Elems(hs));
    }

    /** addRef by the program itself, which then holds one reference more. */
    method AddLoose(ghost heap: Heap)
      requires heap.Valid() && this in heap.st.counters
      modifies `refcnt, heap`st
      ensures heap.Valid() && heap.st == HandleSpec.AddLoose(old(heap.st), this)
      ensures refcnt == old(refcnt) + 1 && heap.st.loose == old(heap.st.loose) + multiset{this}
    {
      hide HandleSpec.Valid, Heap.Sync;
      AddLooseOk(heap.st, this);
      AddRef(heap);
      heap.Hold(this);
    }

    /** removeRef by the program itself, of a reference that it holds. */
    method DropLoose(ghost heap: Heap)
      requires heap.Valid() && this in heap.st.loose
      modifies heap`st, heap`dying, heap.made`refcnt, heap.made`alive, heap.made`deallocated
      ensures heap.Valid() && heap.st == HandleSpec.DropLoose(old(heap.st), this)
      ensures heap.st.loose == old(heap.st.loose) - multiset{this}
      ensures if old(refcnt) > 1 then alive && refcnt == old(refcnt) - 1 else !alive && deallocated == [ptr]
    {
      hide HandleSpec.Valid, Heap.Sync, HandleSpec.DropLoose, Recounted, DropRef;
      ghost var s := heap.st;
      heap.LooseIs(this);
      DropLooseIs(s, this);
      heap.Unhold(this);
      RemoveRef(heap, {});
      DropLooseStep(s, this);
      heap.CounterIs(this);
      Fewer(s, heap.st, this);
    }

    method DeleteSelf(ghost heap: Heap)
      requires alive && this in heap.dying && heap.Sync()
      modifies `alive
      ensures !alive && heap.Sync()
    {
      hide Heap.Sync;
      alive := false;
      heap.SyncBut(this);
    }
  }

  lemma DropLooseStep(s: Store, c: RefCounter)
    ensures HandleSpec.DropLoose(s, c) == DropRef(s.(loose := s.loose - multiset{c}), c)
  {
  }

  // What a counter says when a reference to it has been given up that was not the last.
  lemma Fewer(s: Store, r: Store, c: RefCounter)
    requires c in s.counters
    ensures Recounted(s, r, Some(c), None) ==> c in r.counters && r.counters[c].count == s.counters[c].count - 1
  {
  }

  ghost function IfAny(c: RefCounter?): set<RefCounter> {
    if c == null then {} else {c}
  }

  // A new handle, in the buffer of home if there is one.
  method Enter(h: Handle, home: RefCounter?, ghost item: Item, ghost ref: Option<RefCounter>, ghost heap: Heap)
    requires heap.Sync() && heap.open == {} && heap.dying == {} && h !in heap.st.handles && heap.Shows(h, item, ref)
    requires home != null ==> home in heap.st.counters
    modifies heap`st, heap`ptrs, heap`frags, IfAny(home)`inner
    ensures heap.Sync() && heap.st == SetSlot(Place(old(heap.st), h, item, Opt(home)), h, item, ref)
    ensures heap.ptrs == old(heap.ptrs) + (if h.Ptr? then {h.p} else {})
      && heap.frags == old(heap.frags) + if h.Frag? then {h.f} else {}
  {
    hide Heap.Counting, Heap.Handling, Place, SetSlot;
    PlaceSlot(heap.st, h, item, Opt(home), ref);
    if home != null {
      home.inner := home.inner + [h];
    }
    heap.st := SetSlot(Place(heap.st, h, item, Opt(home)), h, item, ref);
    heap.ptrs := heap.ptrs + if h.Ptr? then {h.p} else {};
    heap.frags := heap.frags + if h.Frag? then {h.f} else {};
    heap.EnteredCounters(home, h);
    heap.EnteredHandles(h);
  }

  // The reference just copied is counted.
  method Take(c: RefCounter?, ghost heap: Heap)
    requires heap.Sync() && (c != null ==> c in heap.st.counters)
    modifies heap`st, IfAny(c)`refcnt
    ensures heap.Sync() && (c != null ==> c in old(heap.st).counters) && heap.st == AddTo(old(heap.st), Opt(c))
    ensures c != null ==> c.refcnt == old(c.refcnt) + 1
  {
    if c != null {
      c.AddRef(heap);
    }
  }

  // A new handle that is a copy of another one, with its counter c.
  method EnterCopy(h: Handle, x: Handle, c: RefCounter?, home: RefCounter?, ghost heap: Heap)
    requires heap.Valid() && x in heap.st.handles && (home != null ==> home in heap.st.counters)
    requires h !in heap.st.handles && heap.st.handles[x].ref == Opt(c) && heap.Shows(h, heap.st.handles[x].item, Opt(c))
    modifies heap`st, heap`ptrs, heap`frags, IfAny(home)`inner, IfAny(c)`refcnt
    ensures heap.Valid() && x in old(heap.st).handles && (c != null ==> c in old(heap.st).counters)
    ensures heap.st == HandleSpec.Copy(old(heap.st), h, x, Opt(home))
    ensures c != null ==> c.refcnt == old(c.refcnt) + 1
  {
    hide HandleSpec.Valid, Place, SetSlot, AddTo, Heap.Sync;
    ghost var s := heap.st;
    heap.CounterThere(x);
    CopyOk(s, h, x, Opt(home));
    PlaceKeeps(s, h, s.handles[x].item, Opt(home), Opt(c));
    Enter(h, home, s.handles[x].item, Opt(c), heap);
    Take(c, heap);
  }

  class SharedPtr {
    var mpRep: nat
    var refcnt: RefCounter?

    // A handle takes over the reference given.  home is the counter of the buffer the handle lives in.
    constructor (rep: nat, counter: RefCounter?, home: RefCounter?, ghost heap: Heap)
      requires heap.Valid() && (counter != null ==> counter in heap.st.loose)
        && (home != null ==> home in heap.st.counters)
      modifies heap`st, heap`ptrs, heap`frags, IfAny(home)`inner
      ensures heap.Valid() && heap.st == Make(old(heap.st), Ptr(this), Object(rep), Opt(counter), Opt(home))
      ensures mpRep == rep && refcnt == counter && heap.st.loose == old(heap.st).loose - One(Opt(counter))
    {
      mpRep := rep;
      refcnt := counter;
      new;
      hide Heap.Sync, HandleSpec.Valid, Place, SetSlot, TakeOver;
      MakeOk(heap.st, Ptr(this), Object(rep), Opt(counter), Opt(home));
      heap.Unknown(Ptr(this));
      MakeIs(heap.st, Ptr(this), Object(rep), Opt(counter), Opt(home));
      Enter(Ptr(this), home, Object(rep), Opt(counter), heap);
      heap.HandOver(Opt(counter));
    }

    constructor Copy(x: SharedPtr, home: RefCounter?, ghost heap: Heap)
      requires heap.Valid() && Ptr(x) in heap.st.handles && (home != null ==> home in heap.st.counters)
      modifies heap`st, heap`ptrs, heap`frags, IfAny(home)`inner, IfAny(x.refcnt)`refcnt
      ensures heap.Valid() && heap.st == HandleSpec.Copy(old(heap.st), Ptr(this), Ptr(x), Opt(home))
      ensures mpRep == x.mpRep && refcnt == x.refcnt
      ensures refcnt != null ==> refcnt.refcnt == old(x.refcnt.refcnt) + 1
    {
      mpRep := x.mpRep;
      refcnt := x.refcnt;
      new;
      CopyFrom(x, home, heap);
    }

    // The fields have been copied from x.
    method CopyFrom(x: SharedPtr, home: RefCounter?, ghost heap: Heap)
      requires heap.Valid() && Ptr(x) in heap.st.handles && (home != null ==> home in heap.st.counters)
      requires mpRep == x.mpRep && refcnt == x.refcnt && this !in heap.ptrs
      modifies heap`st, heap`ptrs, heap`frags, IfAny(home)`inner, IfAny(x.refcnt)`refcnt
      ensures heap.Valid() && heap.st == HandleSpec.Copy(old(heap.st), Ptr(this), Ptr(x), Opt(home))
      ensures mpRep == x.mpRep && refcnt == x.refcnt
      ensures refcnt != null ==> refcnt.refcnt == old(refcnt.refcnt) + 1
    {
      hide Heap.Valid, HandleSpec.Copy;
      heap.CopyReady(Ptr(this), Ptr(x));
      EnterCopy(Ptr(this), Ptr(x), refcnt, home, heap);
    }

    /** The destructor of a program variable. */
    method Destroy(ghost heap: Heap)
      requires heap.Valid() && Ptr(this) in heap.st.handles && heap.st.handles[Ptr(this)].home == None
      modifies heap`st, heap`dying, heap.made`refcnt, heap.made`alive, heap.made`deallocated
      ensures heap.Valid() && heap.st == Kill(old(heap.st), Ptr(this)) && Ptr(this) !in heap.st.handles
      ensures heap.st.loose == old(heap.st).loose
      ensures refcnt != null ==>
        if old(refcnt.refcnt) > 1 then refcnt.alive && refcnt.refcnt == old(refcnt.refcnt) - 1
        else !refcnt.alive && refcnt.deallocated == [refcnt.ptr]
    {
      hide HandleSpec.Valid, Kill;
      heap.Leaving(Ptr(this));
      if refcnt != null {
        heap.LeavingCounts(Ptr(this), refcnt);
      }
      Release(heap, {Ptr(this)});
      if refcnt != null {
        heap.CounterIs(refcnt);
      }
    }

    /** Bind to a new object, taking over the reference given. */
    method BindNew(rep: nat, counter: RefCounter?, ghost heap: Heap)
      requires heap.Valid() && Ptr(this) in heap.st.handles && (counter != null ==> counter in heap.st.loose)
      requires HandleSpec.BindNew(heap.st, Ptr(this), Object(rep), Opt(counter)).Done?
      modifies this, heap`st, heap`dying, heap`open, heap.made`refcnt, heap.made`alive, heap.made`deallocated
      ensures heap.Valid() && heap.st == HandleSpec.BindNew(old(heap.st), Ptr(this), Object(rep), Opt(counter)).state
      ensures mpRep == rep && refcnt == counter && heap.st.loose == old(heap.st).loose - One(Opt(counter))
      ensures counter != null && (old(refcnt) == null || (old(refcnt) != counter && old(refcnt.refcnt) > 1)) ==>
        counter.alive && counter.refcnt == old(counter.refcnt)
    {
      hide Heap.Valid, HandleSpec.BindNew;
      heap.Binding(this, rep, counter);
      if counter != null {
        heap.BindingCounts(this, rep, counter);
      }
      Rebind(rep, counter, heap);
      if counter != null {
        heap.CounterIs(counter);
      }
    }

    method Rebind(rep: nat, counter: RefCounter?, ghost heap: Heap)
      requires heap.Valid() && Ptr(this) in heap.st.handles && (counter != null ==> counter in heap.st.loose)
      requires HandleSpec.BindNew(heap.st, Ptr(this), Object(rep), Opt(counter)).Done?
      modifies this, heap`st, heap`dying, heap`open, heap.made`refcnt, heap.made`alive, heap.made`deallocated
      ensures heap.Valid() && heap.st == HandleSpec.BindNew(old(heap.st), Ptr(this), Object(rep), Opt(counter)).state
      ensures mpRep == rep && refcnt == counter
    {
      hide HandleSpec.Valid, LetGo, SetSlot, TakeOver;
      BindNewOk(heap.st, Ptr(this), Object(rep), Opt(counter));
      GiveUp(heap);
      Write(rep, counter, heap);
      heap.HandOver(Opt(counter));
    }

    // removeRef on the reference held, if any.  The fields are stale until they are written.
    method GiveUp(ghost heap: Heap)
      requires heap.Valid() && Ptr(this) in heap.st.handles && Ptr(this) in LetGo(heap.st, Ptr(this)).handles
      modifies heap`st, heap`dying, heap`open, heap.made`refcnt, heap.made`alive, heap.made`deallocated
      ensures heap.Sync() && heap.open == {Ptr(this)} && heap.dying == {}
      ensures heap.st == LetGo(old(heap.st), Ptr(this))
    {
      hide HandleSpec.Valid, LetGo, DropRef, Heap.Ready, Heap.Sync;
      heap.BeginAssign(Ptr(this));
      if refcnt != null {
        refcnt.RemoveRef(heap, {});
      }
    }

    method Write(rep: nat, counter: RefCounter?, ghost heap: Heap)
      requires heap.Sync() && heap.open == {Ptr(this)} && Ptr(this) in heap.st.handles
      modifies this, heap`st, heap`open
      ensures heap.Sync() && heap.open == {} && heap.st == SetSlot(old(heap.st), Ptr(this), Object(rep), Opt(counter))
      ensures mpRep == rep && refcnt == counter
    {
      mpRep := rep;
      refcnt := counter;
      heap.CountersTied();
      heap.HandlesTied();
      heap.Close(Ptr(this), Object(rep), Opt(counter));
    }

    method Unbind(ghost heap: Heap)
      requires heap.Valid() && Ptr(this) in heap.st.handles
      requires HandleSpec.BindNew(heap.st, Ptr(this), Object(0), None).Done?
      modifies this, heap`st, heap`dying, heap`open, heap.made`refcnt, heap.made`alive, heap.made`deallocated
      ensures heap.Valid() && heap.st == HandleSpec.BindNew(old(heap.st), Ptr(this), Object(0), None).state
      ensures mpRep == 0 && refcnt == null && heap.st.loose == old(heap.st).loose
    {
      BindNew(0, null, heap);
    }

    // Only a handle that is there may be read.
    method GetRep(ghost heap: Heap) returns (rep: nat)
      requires Ptr(this) in heap.st.handles
      ensures rep == mpRep
    {
      rep := mpRep;
    }

    method GetRefCounter(ghost heap: Heap) returns (c: RefCounter?)
      requires Ptr(this) in heap.st.handles
      ensures c == refcnt
    {
      c := refcnt;
    }

    /** Bind to what another handle wraps, and operator=.  The old reference is dropped before the other handle is
        read. */
    method Bind(x: SharedPtr, ghost heap: Heap)
      requires heap.Valid() && Ptr(this) in heap.st.handles && Ptr(x) in heap.st.handles
      requires HandleSpec.Bind(heap.st, Ptr(this), Ptr(x)).Done?
      modifies this, heap`st, heap`dying, heap`open, heap.made`refcnt, heap.made`alive, heap.made`deallocated
      ensures heap.Valid() && heap.st == HandleSpec.Bind(old(heap.st), Ptr(this), Ptr(x)).state
      ensures if old(mpRep == x.mpRep) then mpRep == old(mpRep) && refcnt == old(refcnt)
        else mpRep == x.mpRep && refcnt == x.refcnt
      ensures Same(x) <==> old(mpRep != x.mpRep || refcnt == x.refcnt)
    {
      hide HandleSpec.Valid, LetGo, SetSlot, AddTo, Heap.Sync;
      heap.Reading(Ptr(this));
      heap.Reading(Ptr(x));
      if mpRep == x.mpRep {
        return;
      }
      BindOther(x, heap);
    }

    // Bind, past its first test.
    method BindOther(x: SharedPtr, ghost heap: Heap)
      requires heap.Valid() && Ptr(this) in heap.st.handles && Ptr(x) in heap.st.handles && x != this
      requires Assign(heap.st, Ptr(this), Ptr(x)).Done?
      modifies this, heap`st, heap`dying, heap`open, heap.made`refcnt, heap.made`alive, heap.made`deallocated
      ensures heap.Valid() && heap.st == Assign(old(heap.st), Ptr(this), Ptr(x)).state
      ensures mpRep == x.mpRep && refcnt == x.refcnt
    {
      hide HandleSpec.Valid, LetGo, AddTo, Heap.Sync, SetSlot;
      AssignOk(heap.st, Ptr(this), Ptr(x));
      LetGoOk(heap.st, Ptr(this));
      GiveUp(heap);
      heap.Reading(Ptr(x));
      heap.CounterThere(Ptr(x));
      TakeFrom(x, heap);
    }

    // The rest of Bind, once the old reference is gone.
    method TakeFrom(x: SharedPtr, ghost heap: Heap)
      requires heap.Sync() && heap.open == {Ptr(this)} && heap.dying == {} && HandleSpec.Valid(heap.st) && x != this
      requires Ptr(this) in heap.st.handles && Ptr(x) in heap.st.handles
      modifies this, heap`st, heap`open, IfAny(x.refcnt)`refcnt
      ensures heap.Sync() && heap.open == {} && mpRep == x.mpRep && refcnt == x.refcnt
      ensures Ptr(this) in old(heap.st).handles && Ptr(x) in old(heap.st).handles
      ensures var slot := old(heap.st).handles[Ptr(x)];
        && (slot.ref.Some? ==> slot.ref.value in old(heap.st).counters)
        && SetSlot(old(heap.st), Ptr(this), slot.item, slot.ref).counters == old(heap.st).counters
        && heap.st == AddTo(SetSlot(old(heap.st), Ptr(this), slot.item, slot.ref), slot.ref)
    {
      hide HandleSpec.Valid, AddTo, Heap.Sync, SetSlot;
      heap.Reading(Ptr(x));
      heap.CounterThere(Ptr(x));
      var counter := x.GetRefCounter(heap);
      var rep := x.GetRep(heap);
      SetSlotKeeps(heap.st, Ptr(this), Object(rep), Opt(counter));
      Write(rep, counter, heap);
      Take(refcnt, heap);
    }

    /** operator==. */
    predicate Same(x: SharedPtr)
      reads this, x
    {
      mpRep == x.mpRep && refcnt == x.refcnt
    }

    // The destructor's work.
    method Release(ghost heap: Heap, ghost doomed: set<Handle>)
      requires heap.ReadyOne(Ptr(this), doomed)
      modifies heap`st, heap`dying, heap.made`refcnt, heap.made`alive, heap.made`deallocated
      ensures heap.Sync() && heap.Kept() && heap.st == Kill(old(heap.st), Ptr(this))
      decreases heap.st.counters.Keys, 1, 0
    {
      hide Heap.Sync, Wired, Counted, Kill;
      heap.Forget(Ptr(this), doomed);
      if refcnt != null {
        refcnt.RemoveRef(heap, doomed - {Ptr(this)});
      }
    }
  }

  class MemFrag {
    var memfrag: Fragment
    var refcnt: RefCounter?
    var capacity: nat

    // The reference given is taken over.
    constructor (m: Fragment, r: RefCounter?, capacity: nat, home: RefCounter?, ghost heap: Heap)
      requires heap.Valid() && (r != null ==> r in heap.st.loose) && (home != null ==> home in heap.st.counters)
      modifies heap`st, heap`ptrs, heap`frags, IfAny(home)`inner
      ensures heap.Valid()
        && heap.st == Make(old(heap.st), Frag(this), Memory(m.ptr, m.len, capacity), Opt(r), Opt(home))
      ensures memfrag == m && refcnt == r && this.capacity == capacity
      ensures heap.st.loose == old(heap.st).loose - One(Opt(r))
    {
      memfrag := m;
      refcnt := r;
      this.capacity := capacity;
      new;
      hide Heap.Sync, HandleSpec.Valid, Place, SetSlot, TakeOver;
      MakeOk(heap.st, Frag(this), Memory(m.ptr, m.len, capacity), Opt(r), Opt(home));
      heap.Unknown(Frag(this));
      MakeIs(heap.st, Frag(this), Memory(m.ptr, m.len, capacity), Opt(r), Opt(home));
      Enter(Frag(this), home, Memory(m.ptr, m.len, capacity), Opt(r), heap);
      heap.HandOver(Opt(r));
    }

    constructor Copy(x: MemFrag, home: RefCounter?, ghost heap: Heap)
      requires heap.Valid() && Frag(x) in heap.st.handles && (home != null ==> home in heap.st.counters)
      modifies heap`st, heap`ptrs, heap`frags, IfAny(home)`inner, IfAny(x.refcnt)`refcnt
      ensures heap.Valid() && heap.st == HandleSpec.Copy(old(heap.st), Frag(this), Frag(x), Opt(home))
      ensures memfrag == x.memfrag && refcnt == x.refcnt && capacity == x.capacity
      ensures refcnt != null ==> refcnt.refcnt == old(x.refcnt.refcnt) + 1
    {
      memfrag := x.memfrag;
      refcnt := x.refcnt;
      capacity := x.capacity;
      new;
      CopyFrom(x, home, heap);
    }

    // The fields have been copied from x.
    method CopyFrom(x: MemFrag, home: RefCounter?, ghost heap: Heap)
      requires heap.Valid() && Frag(x) in heap.st.handles && (home != null ==> home in heap.st.counters)
      requires memfrag == x.memfrag && refcnt == x.refcnt && capacity == x.capacity && this !in heap.frags
      modifies heap`st, heap`ptrs, heap`frags, IfAny(home)`inner, IfAny(x.refcnt)`refcnt
      ensures heap.Valid() && heap.st == HandleSpec.Copy(old(heap.st), Frag(this), Frag(x), Opt(home))
      ensures memfrag == x.memfrag && refcnt == x.refcnt && capacity == x.capacity
      ensures refcnt != null ==> refcnt.refcnt == old(refcnt.refcnt) + 1
    {
      hide Heap.Valid, HandleSpec.Copy;
      heap.CopyReady(Frag(this), Frag(x));
      EnterCopy(Frag(this), Frag(x), refcnt, home, heap);
    }

    /** The destructor of a program variable. */
    method Destroy(ghost heap: Heap)
      requires heap.Valid() && Frag(this) in heap.st.handles && heap.st.handles[Frag(this)].home == None
      modifies heap`st, heap`dying, heap.made`refcnt, heap.made`alive, heap.made`deallocated
      ensures heap.Valid() && heap.st == Kill(old(heap.st), Frag(this)) && Frag(this) !in heap.st.handles
      ensures heap.st.loose == old(heap.st).loose
      ensures refcnt != null ==>
        if old(refcnt.refcnt) > 1 then refcnt.alive && refcnt.refcnt == old(refcnt.refcnt) - 1
        else !refcnt.alive && refcnt.deallocated == [refcnt.ptr]
    {
      hide HandleSpec.Valid, Kill;
      heap.Leaving(Frag(this));
      if refcnt != null {
        heap.LeavingCounts(Frag(this), refcnt);
      }
      Release(heap, {Frag(this)});
      if refcnt != null {
        heap.CounterIs(refcnt);
      }
    }

    // removeRef on the reference held, if any.  The fields are stale until they are written.
    method GiveUp(ghost heap: Heap)
      requires heap.Valid() && Frag(this) in heap.st.handles && Frag(this) in LetGo(heap.st, Frag(this)).handles
      modifies heap`st, heap`dying, heap`open, heap.made`refcnt, heap.made`alive, heap.made`deallocated
      ensures heap.Sync() && heap.open == {Frag(this)} && heap.dying == {}
      ensures heap.st == LetGo(old(heap.st), Frag(this))
    {
      hide HandleSpec.Valid, LetGo, DropRef, Heap.Ready, Heap.Sync;
      heap.BeginAssign(Frag(this));
      if refcnt != null {
        refcnt.RemoveRef(heap, {});
      }
    }

    // Only a fragment that is there may be read.
    method Get(ghost heap: Heap) returns (m: Fragment, c: RefCounter?, cap: nat)
      requires Frag(this) in heap.st.handles
      ensures m == memfrag && c == refcnt && cap == capacity
    {
      m, c, cap := memfrag, refcnt, capacity;
    }

    method Write(m: Fragment, r: RefCounter?, cap: nat, ghost heap: Heap)
      requires heap.Sync() && heap.open == {Frag(this)} && Frag(this) in heap.st.handles
      modifies this, heap`st, heap`open
      ensures heap.Sync() && heap.open == {}
        && heap.st == SetSlot(old(heap.st), Frag(this), Memory(m.ptr, m.len, cap), Opt(r))
      ensures memfrag == m && refcnt == r && capacity == cap
    {
      memfrag := m;
      refcnt := r;
      capacity := cap;
      heap.CountersTied();
      heap.HandlesTied();
      heap.Close(Frag(this), Memory(m.ptr, m.len, cap), Opt(r));
    }

    /** operator=. */
    method Assign(x: MemFrag, ghost heap: Heap)
      requires heap.Valid() && Frag(this) in heap.st.handles && Frag(x) in heap.st.handles
      requires this != x ==> HandleSpec.Assign(heap.st, Frag(this), Frag(x)).Done?
      modifies this, heap`st, heap`dying, heap`open, heap.made`refcnt, heap.made`alive, heap.made`deallocated
      ensures heap.Valid()
      ensures heap.st == if this == x then old(heap.st) else HandleSpec.Assign(old(heap.st), Frag(this), Frag(x)).state
      ensures memfrag == old(x.memfrag) && refcnt == old(x.refcnt) && capacity == old(x.capacity)
    {
      hide HandleSpec.Valid, LetGo, AddTo, Heap.Sync;
      if this == x {
        return;
      }
      ghost var s := heap.st;
      AssignOk(s, Frag(this), Frag(x));
      LetGoOk(s, Frag(this));
      GiveUp(heap);
      heap.Reading(Frag(x));
      heap.CounterThere(Frag(x));
      var m, r, cap := x.Get(heap);
      SetSlotKeeps(heap.st, Frag(this), Memory(m.ptr, m.len, cap), Opt(r));
      Write(m, r, cap, heap);
      Take(refcnt, heap);
    }

    // The destructor's work.
    method Release(ghost heap: Heap, ghost doomed: set<Handle>)
      requires heap.ReadyOne(Frag(this), doomed)
      modifies heap`st, heap`dying, heap.made`refcnt, heap.made`alive, heap.made`deallocated
      ensures heap.Sync() && heap.Kept() && heap.st == Kill(old(heap.st), Frag(this))
      decreases heap.st.counters.Keys, 1, 0
    {
      hide Heap.Sync, Wired, Counted, Kill;
      heap.Forget(Frag(this), doomed);
      if refcnt != null {
        refcnt.RemoveRef(heap, doomed - {Frag(this)});
      }
    }
  }

  /** A variable bound to a fresh counter is the only one to hold it: when it goes the buffer is deallocated. */
  method BindAndDestroy(p: SharedPtr, rep: nat, b: Buffer, ghost heap: Heap) returns (c: RefCounter)
    requires heap.Valid() && Ptr(p) in heap.st.handles && heap.st.handles[Ptr(p)].home == None
    modifies p, heap`st, heap`made, heap`dying, heap`open, heap.made`refcnt, heap.made`alive, heap.made`deallocated
    ensures heap.Valid() && fresh(c) && c.ptr == b && !c.alive && c.deallocated == [b]
  {
    hide Heap.Valid, HandleSpec.Valid, NewCounter, HandleSpec.BindNew, Kill, Held;
    ghost var s := heap.st;
    heap.Sound();
    c := new RefCounter(b, heap);
    BoundAlone(s, Ptr(p), Object(rep), c);
    NewCounterIs(s, c);
    p.BindNew(rep, c, heap);
    heap.CounterIs(c);
    p.Destroy(heap);
  }
}
