/** Groups of memory fragments over shared, reference-counted buffers. */
module OsclMediaData {
  import opened Words
  import opened FragSpec

  datatype Status = SUCCESS | TOO_MANY_FRAGS | EMPTY_FRAGMENT | NOT_ENOUGH_SPACE

  class BufferState {
    var refcount: int
    var ptr: Ptr
    const hasMgr: bool
    const hasFree: bool
    // What the manager or the free function has been called with.
    ghost var released: seq<Ptr>

    constructor (hasMgr: bool, hasFree: bool, ptr: Ptr)
      ensures refcount == 0 && this.ptr == ptr && released == []
      ensures this.hasMgr == hasMgr && this.hasFree == hasFree
    {
      refcount := 0;
      this.ptr := ptr;
      this.hasMgr := hasMgr;
      this.hasFree := hasFree;
      released := [];
    }

    method Increment()
      modifies `refcount
      ensures refcount == old(refcount) + 1
    {
      refcount := refcount + 1;
    }

    /** The buffer is handed back exactly when the count comes down to zero. */
    method Decrement()
      modifies this
      ensures refcount == old(refcount) - 1
      ensures released == old(released) + if refcount == 0 && (hasMgr || hasFree) then [old(ptr)] else []
      ensures ptr == if refcount == 0 && !hasMgr && hasFree then Null else old(ptr)
    {
      refcount := refcount - 1;
      if refcount == 0 {
        if hasMgr {
          released := released + [ptr];
        } else if hasFree {
          released := released + [ptr];
          ptr := Null;
        }
      }
    }
  }

  // Array b is array a with x stored at position at of its first num elements, in an empty slot or before what is
  // there, or after them if there is no such position.
  ghost predicate Stored<T>(a: seq<T>, b: seq<T>, num: nat, taken: bool, at: int, x: T) {
    && |a| == |b| && num <= |a| && (num == |a| ==> 0 <= at < num && !taken)
    && var k := if 0 <= at < num then at else num;
      forall i :: 0 <= i < |b| ==> b[i] == if i == k then x else a[if taken && k < i <= num then i - 1 else i]
  }

  lemma StoredIs<T>(a: seq<T>, b: seq<T>, num: nat, taken: bool, at: int, x: T)
    requires Stored(a, b, num, taken, at, x) && (taken ==> 0 <= at < num)
    ensures b[..|Place(a[..num], taken, at, x)|] == Place(a[..num], taken, at, x)
  {
  }

  lemma StoredFits<T>(a: seq<T>, b: seq<T>, num: nat, taken: bool, at: int, x: T)
    requires Stored(a, b, num, taken, at, x)
    ensures num + (if 0 <= at < num && !taken then 0 else 1) <= |b|
  {
  }

  lemma LastStored<T>(a: seq<T>, b: seq<T>, num: nat, taken: bool, at: int, x: T)
    requires Stored(a, b, num, taken, at, x) && (taken ==> 0 <= at < num) && LastWritten(num, taken, at) < |a|
    ensures var last := LastWritten(num, taken, at);
      && (PlaceAt(num, at) != last ==> last > 0)
      && b[last] == (if PlaceAt(num, at) == last then x else a[last - 1])
      && forall i :: last < i < |b| ==> b[i] == a[i]
  {
  }

  // An empty slot counts for nothing, and past the last fragment all slots are empty.
  ghost predicate Tidy(f: seq<Fragment>, b: seq<BufferState?>, num: nat)
    requires |f| == |b|
  {
    forall i :: 0 <= i < |f| && (i >= num || f[i].ptr == Null) ==> f[i] == EMPTY && b[i] == null
  }

  lemma StillTidy(f: seq<Fragment>, f1: seq<Fragment>, b: seq<BufferState?>, b1: seq<BufferState?>,
                  num: nat, taken: bool, at: int, frag: Fragment, state: BufferState?)
    requires |f| == |b| && Tidy(f, b, num) && frag.ptr != Null && (taken ==> 0 <= at < num)
    requires Stored(f, f1, num, taken, at, frag) && Stored(b, b1, num, taken, at, state)
    ensures Tidy(f1, b1, num + if 0 <= at < num && !taken then 0 else 1)
  {
  }

  ghost function One(state: BufferState?): set<BufferState> {
    if state == null then {} else {state}
  }

  class FragGroup {
    const fragments: array<Fragment>
    const bufferStates: array<BufferState?>
    var numFragments: nat
    var length: int

    ghost predicate Bounded()
      reads `numFragments
    {
      numFragments <= fragments.Length == bufferStates.Length
    }

    ghost function Frags(): (r: seq<Fragment>)
      requires Bounded()
      reads `numFragments, fragments
      ensures |r| == numFragments
    {
      fragments[..numFragments]
    }

    ghost function States(): (r: seq<BufferState?>)
      requires Bounded()
      reads `numFragments, bufferStates
      ensures |r| == numFragments
    {
      bufferStates[..numFragments]
    }

    ghost predicate Valid()
      reads this, fragments, bufferStates
    {
      && Bounded()
      && Tidy(fragments[..], bufferStates[..], numFragments)
      && length == U32(Sum(Frags()))
    }

    constructor (maxFrags: nat)
      ensures Valid() && fragments.Length == maxFrags && numFragments == 0 && fresh(fragments) && fresh(bufferStates)
    {
      fragments := new Fragment[maxFrags](i => EMPTY);
      bufferStates := new BufferState?[maxFrags](i => null);
      numFragments := 0;
      length := 0;
    }

    predicate Taken(at: int)
      requires Bounded()
      reads `numFragments, fragments
    {
      0 <= at < numFragments && fragments[at].ptr != Null
    }

    // Whether all slots written to insert a fragment at this position are slots of the arrays.
    predicate Room(at: int)
      requires Bounded()
      reads `numFragments, fragments
    {
      LastWritten(numFragments, Taken(at), at) < fragments.Length
    }

    // The two moves that open a slot.
    method MakeRoom(at: nat)
      requires Bounded() && at < numFragments < fragments.Length
      modifies `numFragments, fragments, bufferStates
      ensures numFragments == old(numFragments) + 1
      ensures forall i :: 0 <= i < fragments.Length ==>
        && fragments[i] == old(fragments[if at < i <= numFragments then i - 1 else i])
        && bufferStates[i] == old(bufferStates[if at < i <= numFragments then i - 1 else i])
    {
      forall i | at <= i < numFragments {
        fragments[i + 1] := fragments[i];
      }
      forall i | at <= i < numFragments {
        bufferStates[i + 1] := bufferStates[i];
      }
      numFragments := numFragments + 1;
    }

    lemma EmptySlot(at: int)
      requires Bounded() && Valid() && 0 <= at < numFragments && !Taken(at)
      ensures States()[at] == null
    {
    }

    // The writes to the arrays.
    method Put(frag: Fragment, state: BufferState?, at: int)
      requires Bounded() && Room(at)
      modifies `numFragments, fragments, bufferStates
      ensures numFragments == old(numFragments) + if 0 <= at < old(numFragments) && !old(Taken(at)) then 0 else 1
      ensures Stored(old(fragments[..]), fragments[..], old(numFragments), old(Taken(at)), at, frag)
      ensures Stored(old(bufferStates[..]), bufferStates[..], old(numFragments), old(Taken(at)), at, state)
    {
      if 0 <= at < numFragments {
        if fragments[at].ptr != Null {
          MakeRoom(at);
        }
        fragments[at] := frag;
        bufferStates[at] := state;
      } else {
        fragments[numFragments] := frag;
        bufferStates[numFragments] := state;
        numFragments := numFragments + 1;
      }
    }

    // The same, as what happens to the two lists.
    method PutInLists(frag: Fragment, state: BufferState?, at: int)
      requires Bounded() && Room(at)
      modifies `numFragments, fragments, bufferStates
      ensures numFragments == old(numFragments) + if 0 <= at < old(numFragments) && !old(Taken(at)) then 0 else 1
      ensures Bounded()
      ensures Frags() == Place(old(Frags()), old(Taken(at)), at, frag)
      ensures States() == Place(old(States()), old(Taken(at)), at, state)
      ensures Stored(old(fragments[..]), fragments[..], old(numFragments), old(Taken(at)), at, frag)
      ensures Stored(old(bufferStates[..]), bufferStates[..], old(numFragments), old(Taken(at)), at, state)
    {
      ghost var f, b, n, taken := fragments[..], bufferStates[..], numFragments, Taken(at);
      assert taken ==> 0 <= at < n;
      assert f[..n] == Frags() && b[..n] == States();
      hide Place, Stored, Room, Taken;
      Put(frag, state, at);
      StoredIs(f, fragments[..], n, taken, at, frag);
      StoredIs(b, bufferStates[..], n, taken, at, state);
      StoredFits(f, fragments[..], n, taken, at, frag);
    }

    // With the slots not in use left empty.
    method PutTidily(frag: Fragment, state: BufferState?, at: int)
      requires Bounded() && Valid() && Room(at) && frag.ptr != Null
      modifies `numFragments, fragments, bufferStates
      ensures Bounded()
      ensures Frags() == Place(old(Frags()), old(Taken(at)), at, frag)
      ensures States() == Place(old(States()), old(Taken(at)), at, state)
      ensures Stored(old(fragments[..]), fragments[..], old(numFragments), old(Taken(at)), at, frag)
      ensures Stored(old(bufferStates[..]), bufferStates[..], old(numFragments), old(Taken(at)), at, state)
      ensures Tidy(fragments[..], bufferStates[..], numFragments)
    {
      ghost var f, b, n, taken := fragments[..], bufferStates[..], numFragments, Taken(at);
      assert taken ==> 0 <= at < n;
      hide Place, Sum, Stored, Tidy, Taken, Room;
      PutInLists(frag, state, at);
      StillTidy(f, fragments[..], b, bufferStates[..], n, taken, at, frag, state);
    }

    // The part of AddFragment and AddLocalFragment that stores the fragment and its buffer.
    method Store(frag: Fragment, state: BufferState?, at: int)
      requires Valid() && Room(at) && frag.ptr != Null
      modifies `numFragments, fragments, bufferStates
      ensures Bounded()
      ensures Frags() == Place(old(Frags()), old(Taken(at)), at, frag)
      ensures States() == Place(old(States()), old(Taken(at)), at, state)
      ensures var last := LastWritten(old(numFragments), old(Taken(at)), at);
        && fragments[last] == (if PlaceAt(old(numFragments), at) == last then frag else old(fragments[last - 1]))
        && forall i :: last < i < fragments.Length ==> fragments[i] == old(fragments[i])
      ensures Stored(old(fragments[..]), fragments[..], old(numFragments), old(Taken(at)), at, frag)
      ensures Stored(old(bufferStates[..]), bufferStates[..], old(numFragments), old(Taken(at)), at, state)
      ensures Tidy(fragments[..], bufferStates[..], numFragments)
    {
      ghost var f, n, taken := fragments[..], numFragments, Taken(at);
      assert taken ==> 0 <= at < n;
      assert LastWritten(n, taken, at) < |f|;
      hide Place, Sum, Stored, Tidy, LastWritten, PlaceAt, Taken, Valid, Room;
      PutTidily(frag, state, at);
      LastStored(f, fragments[..], n, taken, at, frag);
    }

    lemma LocalCounted(f: Fragment, at: int)
      requires Bounded() && Valid()
      ensures LocalBytes(Place(Frags(), Taken(at), at, f)) == LocalBytes(Frags()) + if f.ptr.Local? then f.len else 0
    {
      LocalPlace(Frags(), Taken(at), at, f);
    }

    // Store, with the new length.
    method StoreCounted(frag: Fragment, state: BufferState?, at: int)
      requires Valid() && Room(at) && frag.ptr != Null
      modifies `numFragments, `length, fragments, bufferStates
      ensures Bounded() && Valid() && Buffers() <= old(Buffers()) + One(state)
      ensures Frags() == Place(old(Frags()), old(Taken(at)), at, frag)
      ensures States() == Place(old(States()), old(Taken(at)), at, state)
      ensures Stored(old(fragments[..]), fragments[..], old(numFragments), old(Taken(at)), at, frag)
      ensures Stored(old(bufferStates[..]), bufferStates[..], old(numFragments), old(Taken(at)), at, state)
      ensures length == U32(old(length) + frag.len)
    {
      hide Place, Stored;
      SumPlace(Frags(), Taken(at), at, frag);
      PlaceMembers(States(), Taken(at), at, state);
      U32Plus(Sum(Frags()), frag.len);
      Store(frag, state, at);
      length := U32(length + frag.len);
    }

    /** AddFragment.  Only the guard's own test stands before the number of fragments is known to fit. */
    method AddFragment(frag: Fragment, state: BufferState?, at: int) returns (s: Status)
      requires numFragments <= fragments.Length ==> Valid() && (frag.ptr != Null ==> Room(at))
      modifies `numFragments, `length, fragments, bufferStates, One(state)`refcount
      ensures s == if old(numFragments) > fragments.Length then TOO_MANY_FRAGS
                   else if frag.ptr == Null then EMPTY_FRAGMENT
                   else SUCCESS
      ensures s != SUCCESS ==>
        numFragments == old(numFragments) && length == old(length) && unchanged(fragments, bufferStates)
      ensures state != null ==> state.refcount == old(state.refcount) + if s == SUCCESS then 1 else 0
      ensures s != TOO_MANY_FRAGS ==> Bounded() && Valid() && Buffers() <= old(Buffers()) + One(state)
      ensures s == SUCCESS ==>
        && Frags() == Place(old(Frags()), old(Taken(at)), at, frag)
        && States() == Place(old(States()), old(Taken(at)), at, state)
        && Stored(old(fragments[..]), fragments[..], old(numFragments), old(Taken(at)), at, frag)
        && Stored(old(bufferStates[..]), bufferStates[..], old(numFragments), old(Taken(at)), at, state)
        && length == U32(old(length) + frag.len)
    {
      hide Stored;
      if numFragments > fragments.Length {
        return TOO_MANY_FRAGS;
      }
      if frag.ptr == Null {
        return EMPTY_FRAGMENT;
      }
      StoreCounted(frag, state, at);
      if state != null {
        state.Increment();
      }
      return SUCCESS;
    }

    // The buffers the group refers to.
    ghost function Buffers(): set<BufferState>
      requires Bounded()
      reads `numFragments, bufferStates
    {
      set b: BufferState? | b in States() && b != null
    }

    /** Clear: every slot gives back its reference. */
    method Clear()
      requires Valid() && forall b :: b in Buffers() ==> b.refcount >= Count(States(), b)
      modifies this, fragments, bufferStates, Buffers()
      ensures Bounded() && Valid() && numFragments == 0 && Buffers() == {}
      ensures forall b :: b in old(Buffers()) ==> Dropped(b, old(Count(States(), b)))
    {
      hide Count;
      ghost var all, held := States(), Buffers();
      forall b | b in held
        ensures Count(all, b) > 0 && Count(all[..0], b) == 0
      {
        var i :| 0 <= i < numFragments && bufferStates[i] == b;
        CountMember(all, i);
        CountNone(all[..0], b);
      }
      var ii := 0;
      while ii < numFragments
        invariant 0 <= ii <= numFragments == old(numFragments) && bufferStates[..] == old(bufferStates[..])
        invariant forall b :: b in held ==> Dropped(b, Count(all[..ii], b))
      {
        forall b | b in held
          ensures Count(all[..ii + 1], b) == Count(all[..ii], b) + (if all[ii] == b then 1 else 0) <= Count(all, b)
        {
          CountNext(all, ii, b);
        }
        if bufferStates[ii] != null {
          bufferStates[ii].Decrement();
        }
        ii := ii + 1;
      }
      assert all[..ii] == all;
      numFragments, length := 0, 0;
      forall i | 0 <= i < bufferStates.Length {
        bufferStates[i] := null;
      }
      forall i | 0 <= i < fragments.Length {
        fragments[i] := EMPTY;
      }
    }
  }

  /** b has given up k references; its buffer was handed back if those were all. */
  twostate predicate Dropped(b: BufferState, k: nat)
    reads b
  {
    && b.refcount == old(b.refcount) - k
    && b.released == old(b.released) + (if b.refcount == 0 && (b.hasMgr || b.hasFree) then [old(b.ptr)] else [])
    && b.ptr == if b.refcount == 0 && !b.hasMgr && b.hasFree then Null else old(b.ptr)
  }

  // ---------------------------------------------------------------- several groups

  /** The slots of each group. */
  ghost function Slots(gs: seq<FragGroup>): (r: seq<seq<BufferState?>>)
    requires forall i :: 0 <= i < |gs| ==> gs[i].Bounded()
    reads gs, set g | g in gs :: g.bufferStates
    ensures |r| == |gs| && forall i :: 0 <= i < |gs| ==> r[i] == gs[i].States()
  {
    seq(|gs|, i requires 0 <= i < |gs| && gs[i].Bounded() reads gs, set g | g in gs :: g.bufferStates => gs[i].States())
  }

  ghost predicate Distinct(gs: seq<FragGroup>) {
    forall i, j :: 0 <= i < j < |gs| ==>
      gs[i] != gs[j] && gs[i].fragments != gs[j].fragments && gs[i].bufferStates != gs[j].bufferStates
  }

  /** b was handed back in this step exactly when its last slot went. */
  twostate predicate HandedBack(b: BufferState)
    reads b
  {
    b.released == old(b.released)
      + if old(b.refcount) > 0 == b.refcount && (b.hasMgr || b.hasFree) then [old(b.ptr)] else []
  }

  lemma StoredCount(s: seq<BufferState?>, taken: bool, at: int, state: BufferState?, b: BufferState)
    requires 0 <= at < |s| && !taken ==> s[at] == null
    ensures Count(Place(s, taken, at, state), b) == Count(s, b) + if state == b then 1 else 0
  {
    CountPlace<BufferState?>(s, taken, at, state, b);
    CountOne<BufferState?>(state, b);
    if 0 <= at < |s| && !taken {
      CountOne<BufferState?>(s[at], b);
    }
  }

  /** Any number of groups that share buffers. */
  class World {
    const groups: seq<FragGroup>
    const buffers: set<BufferState>

    // Every count is the number of slots that hold the buffer.
    ghost predicate Valid()
      reads groups, (set g | g in groups :: g.fragments), (set g | g in groups :: g.bufferStates), buffers
    {
      && Distinct(groups)
      && (forall i :: 0 <= i < |groups| ==> groups[i].Bounded() && groups[i].Valid() && groups[i].Buffers() <= buffers)
      && (forall b :: b in buffers ==> b.refcount == Total(Slots(groups), b))
    }

    constructor (groups: seq<FragGroup>, buffers: set<BufferState>)
      requires Distinct(groups) && forall i :: 0 <= i < |groups| ==> groups[i].Valid() && groups[i].Buffers() == {}
      requires forall b :: b in buffers ==> b.refcount == 0
      ensures Valid() && this.groups == groups && this.buffers == buffers
    {
      this.groups := groups;
      this.buffers := buffers;
      new;
      forall b | b in buffers
        ensures Total(Slots(groups), b) == 0
      {
        forall i | 0 <= i < |groups|
          ensures b !in Slots(groups)[i]
        {
          assert b !in groups[i].Buffers();
        }
        TotalNone(Slots(groups), b);
      }
    }

    // All groups are in order, and all but the i-th hold what they did.
    twostate predicate OthersKept(i: nat)
      requires old(Valid())
      reads groups, (set g | g in groups :: g.fragments), (set g | g in groups :: g.bufferStates)
    {
      && (forall j :: 0 <= j < |groups| ==> groups[j].Bounded() && groups[j].Valid() && groups[j].Buffers() <= buffers)
      && (forall j :: 0 <= j < |groups| && j != i ==> groups[j].States() == old(groups[j].States()))
    }

    method AddTo(i: nat, frag: Fragment, state: BufferState?, at: int) returns (s: Status)
      requires Valid() && i < |groups| && (frag.ptr != Null ==> groups[i].Room(at))
        && (state != null ==> state in buffers)
      modifies groups[i], groups[i].fragments, groups[i].bufferStates, One(state)`refcount
      ensures s == (if frag.ptr == Null then EMPTY_FRAGMENT else SUCCESS) && OthersKept(i)
      ensures groups[i].States() ==
        if s == SUCCESS then Place(old(groups[i].States()), old(groups[i].Taken(at)), at, state)
        else old(groups[i].States())
      ensures state != null ==> state.refcount == old(state.refcount) + if s == SUCCESS then 1 else 0
    {
      hide Distinct, FragGroup.Valid, FragGroup.Room, FragGroup.Frags, Place, U32, Sum, Total, Count;
      OtherGroups(i);
      s := groups[i].AddFragment(frag, state, at);
    }

    method ClearOne(i: nat)
      requires Valid() && i < |groups|
      requires forall b :: b in groups[i].Buffers() ==> b.refcount >= Count(groups[i].States(), b)
      modifies groups[i], groups[i].fragments, groups[i].bufferStates, groups[i].Buffers()
      ensures OthersKept(i) && groups[i].numFragments == 0
      ensures forall b :: b in old(groups[i].Buffers()) ==> Dropped(b, old(Count(groups[i].States(), b)))
    {
      hide Distinct, FragGroup.Valid, FragGroup.Room, FragGroup.Frags, U32, Sum, Total, Count, Dropped;
      OtherGroups(i);
      groups[i].Clear();
    }

    method AddFragment(i: nat, frag: Fragment, state: BufferState?, at: int) returns (s: Status)
      requires Valid() && i < |groups| && (frag.ptr != Null ==> groups[i].Room(at))
        && (state != null ==> state in buffers)
      modifies groups[i], groups[i].fragments, groups[i].bufferStates, One(state)`refcount
      ensures Valid() && s == if frag.ptr == Null then EMPTY_FRAGMENT else SUCCESS
      ensures forall b :: b in buffers ==> HandedBack(b)
    {
      hide Distinct, FragGroup.Valid, FragGroup.Room, FragGroup.Frags, FragGroup.Buffers, Place, U32, Sum, Total, Count;
      ghost var slots, refs, taken := Slots(groups), map b | b in buffers :: b.refcount, groups[i].Taken(at);
      if 0 <= at < groups[i].numFragments && !taken {
        groups[i].EmptySlot(at);
      }
      s := AddTo(i, frag, state, at);
      forall b | b in buffers
        ensures b.refcount == refs[b] + Count(groups[i].States(), b) - Count(slots[i], b)
      {
        StoredCount(slots[i], taken, at, state, b);
      }
      Rebalanced(i, slots, refs);
    }

    /** Clear of one group: exactly the buffers that no other slot holds are handed back. */
    method Clear(i: nat)
      requires Valid() && i < |groups|
      modifies groups[i], groups[i].fragments, groups[i].bufferStates, groups[i].Buffers()
      ensures Valid() && groups[i].numFragments == 0
      ensures forall b :: b in buffers ==> HandedBack(b)
    {
      hide Distinct, FragGroup.Valid, FragGroup.Room, FragGroup.Frags, U32, Sum, Total, Count;
      ghost var slots, refs, held := Slots(groups), map b | b in buffers :: b.refcount, groups[i].Buffers();
      forall b | b in buffers
        ensures b.refcount >= Count(slots[i], b) && (b in held <==> Count(slots[i], b) > 0)
      {
        TotalCovers(slots, i, b);
        HeldCount(i, b);
      }
      ClearOne(i);
      forall b | b in buffers
        ensures b.refcount == refs[b] + Count(groups[i].States(), b) - Count(slots[i], b)
      {
        CountNone(groups[i].States(), b);
      }
      Rebalanced(i, slots, refs);
    }

    lemma HeldCount(i: nat, b: BufferState)
      requires i < |groups| && groups[i].Bounded()
      ensures b in groups[i].Buffers() <==> Count(groups[i].States(), b) > 0
    {
      var s := groups[i].States();
      if b in s {
        var k :| 0 <= k < |s| && s[k] == b;
        CountMember(s, k);
      } else {
        CountAbsent(s, b);
      }
    }

    lemma OtherGroups(i: nat)
      requires Distinct(groups) && i < |groups|
      ensures forall j :: 0 <= j < |groups| && j != i ==>
        groups[j] != groups[i] && groups[j].fragments != groups[i].fragments
          && groups[j].bufferStates != groups[i].bufferStates
    {
    }

    lemma Rebalanced(i: nat, slots: seq<seq<BufferState?>>, refs: map<BufferState, int>)
      requires i < |groups| && |slots| == |groups| && refs.Keys == buffers
      requires forall j :: 0 <= j < |groups| ==> groups[j].Bounded()
      requires forall j :: 0 <= j < |groups| && j != i ==> groups[j].States() == slots[j]
      requires forall b :: b in buffers ==> refs[b] == Total(slots, b)
      requires forall b :: b in buffers ==> b.refcount == refs[b] + Count(groups[i].States(), b) - Count(slots[i], b)
      ensures forall b :: b in buffers ==> b.refcount == Total(Slots(groups), b)
    {
      hide Total, Count;
      assert Slots(groups) == slots[i := groups[i].States()];
      forall b | b in buffers
        ensures b.refcount == Total(Slots(groups), b)
      {
        TotalMoves(slots, i, groups[i].States(), b);
      }
    }
  }

  // ---------------------------------------------------------------- local data

  /** MediaData: a group with a buffer of its own, given out from the front. */
  class MediaData {
    const group: FragGroup
    const localbuf: array<byte>
    var availableLocalbuf: nat
    // What memory outside the local buffer holds.
    ghost const outside: Fragment -> seq<byte>

    ghost function Used(): int
      reads `availableLocalbuf
    {
      localbuf.Length - availableLocalbuf
    }

    ghost predicate Valid()
      reads this, group, group.fragments, group.bufferStates
    {
      && group.Bounded()
      && group.Valid()
      && availableLocalbuf <= localbuf.Length
      && Placed(outside, group.Frags(), Used())
    }

    /** The bytes of each fragment, in order. */
    ghost function Pieces(): seq<seq<byte>>
      requires group.Bounded()
      reads group, group.fragments, localbuf
    {
      ReadAll(localbuf[..], outside, group.Frags())
    }

    /** Every byte given out belongs to a fragment of the group. */
    ghost predicate Packed()
      requires group.Bounded()
      reads this, group, group.fragments
    {
      LocalBytes(group.Frags()) == Used()
    }

    constructor (maxFrags: nat, localBufsize: nat, ghost outside: Fragment -> seq<byte>)
      ensures Valid() && Packed() && group.numFragments == 0 && availableLocalbuf == localbuf.Length == localBufsize
      ensures fresh(group) && fresh(group.fragments) && fresh(group.bufferStates) && fresh(localbuf)
      ensures group.fragments.Length == maxFrags && this.outside == outside
    {
      group := new FragGroup(maxFrags);
      localbuf := new byte[localBufsize];
      availableLocalbuf := localBufsize;
      this.outside := outside;
    }

    /** GetLocalFragment: give out the next fragment.len bytes. */
    method GetLocalFragment(fragment: Fragment) returns (r: Fragment, s: Status)
      requires Valid()
      modifies `availableLocalbuf
      ensures Valid() && Pieces() == old(Pieces())
      ensures s == if fragment.len > old(availableLocalbuf) then NOT_ENOUGH_SPACE else SUCCESS
      ensures s != SUCCESS ==>
        r == Fragment(Null, old(availableLocalbuf)) && availableLocalbuf == old(availableLocalbuf)
      ensures s == SUCCESS ==>
        r == Fragment(Local(old(Used())), fragment.len) && Used() == old(Used()) + fragment.len
      ensures s == SUCCESS ==>
        Within(r, Used()) && forall i :: 0 <= i < group.numFragments ==> Apart(group.Frags()[i], r)
    {
      if fragment.len > availableLocalbuf {
        return Fragment(Null, availableLocalbuf), NOT_ENOUGH_SPACE;
      }
      r := Fragment(Local(localbuf.Length - availableLocalbuf), fragment.len);
      availableLocalbuf := availableLocalbuf - fragment.len;
      return r, SUCCESS;
    }

    // Take the next |src| bytes of the buffer and copy src there.
    method CopyIn(src: seq<byte>) returns (f: Fragment)
      requires |src| <= availableLocalbuf <= localbuf.Length
      modifies `availableLocalbuf, localbuf
      ensures availableLocalbuf == old(availableLocalbuf) - |src| && f == Fragment(Local(old(Used())), |src|)
      ensures localbuf[..][..old(Used())] == old(localbuf[..])[..old(Used())]
      ensures localbuf[..][old(Used())..Used()] == src
    {
      f := Fragment(Local(localbuf.Length - availableLocalbuf), |src|);
      availableLocalbuf := availableLocalbuf - |src|;
      forall i | 0 <= i < |src| {
        localbuf[f.ptr.off + i] := src[i];
      }
    }

    method AddCopy(src: seq<byte>, at: int)
      requires Valid() && group.Room(at) && |src| <= availableLocalbuf
      modifies `availableLocalbuf, localbuf, group`numFragments, group`length, group.fragments, group.bufferStates
      ensures Valid() && Used() == old(Used()) + |src| && group.length == U32(old(group.length) + |src|)
      ensures group.Frags() == Place(old(group.Frags()), old(group.Taken(at)), at, Fragment(Local(old(Used())), |src|))
      ensures group.States() == Place(old(group.States()), old(group.Taken(at)), at, null)
      ensures Pieces() == Place(old(Pieces()), old(group.Taken(at)), at, src)
      ensures old(Packed()) ==> Packed()
    {
      hide Place, Placed, U32, Sum, FragGroup.Valid, FragGroup.Room, FragGroup.Taken, FragGroup.Buffers, ReadAll,
        LocalBytes;
      ghost var buf, fs, used, taken := localbuf[..], group.Frags(), Used(), group.Taken(at);
      group.LocalCounted(Fragment(Local(used), |src|), at);
      var localFragment := CopyIn(src);
      CopyPlaced(buf, localbuf[..], outside, fs, taken, at, used, src);
      group.StoreCounted(localFragment, null, at);
    }

    /** AddLocalFragment: copy src, the bytes at frag.ptr, into the local buffer and list the copy. */
    method AddLocalFragment(frag: Fragment, src: seq<byte>, at: int) returns (s: Status)
      requires |src| == frag.len
      requires group.numFragments <= group.fragments.Length ==>
        Valid() && (frag.ptr != Null && 0 < frag.len <= availableLocalbuf ==> group.Room(at))
      modifies `availableLocalbuf, localbuf, group`numFragments, group`length, group.fragments, group.bufferStates
      ensures s == if old(group.numFragments) > group.fragments.Length then TOO_MANY_FRAGS
                   else if frag.ptr == Null || frag.len == 0 then EMPTY_FRAGMENT
                   else if frag.len > old(availableLocalbuf) then NOT_ENOUGH_SPACE
                   else SUCCESS
      ensures s != SUCCESS ==> unchanged(this, localbuf, group, group.fragments, group.bufferStates)
      ensures s == SUCCESS ==>
        && Valid()
        && Used() == old(Used()) + frag.len
        && group.length == U32(old(group.length) + frag.len)
        && group.Frags() == Place(old(group.Frags()), old(group.Taken(at)), at, Fragment(Local(old(Used())), frag.len))
        && group.States() == Place(old(group.States()), old(group.Taken(at)), at, null)
        && Pieces() == Place(old(Pieces()), old(group.Taken(at)), at, src)
        && (old(Packed()) ==> Packed())
    {
      hide Place, Placed, U32, Sum, FragGroup.Valid, FragGroup.Room, FragGroup.Taken, FragGroup.Buffers, ReadAll,
        LocalBytes;
      if group.numFragments > group.fragments.Length {
        return TOO_MANY_FRAGS;
      }
      if frag.ptr == Null || frag.len == 0 {
        return EMPTY_FRAGMENT;
      }
      if frag.len > availableLocalbuf {
        return NOT_ENOUGH_SPACE;
      }
      AddCopy(src, at);
      return SUCCESS;
    }

    /** AddFragment on bytes held elsewhere, or on a part given out that no fragment of the group uses. */
    method AddFragment(frag: Fragment, state: BufferState?, at: int) returns (s: Status)
      requires Valid() && (frag.ptr != Null ==> group.Room(at)) && Within(frag, Used())
      requires frag.ptr.Foreign? ==> |outside(frag)| == frag.len
      requires forall i :: 0 <= i < group.numFragments ==> Apart(group.Frags()[i], frag)
      modifies group`numFragments, group`length, group.fragments, group.bufferStates, One(state)`refcount
      ensures Valid() && s == if frag.ptr == Null then EMPTY_FRAGMENT else SUCCESS
      ensures state != null ==> state.refcount == old(state.refcount) + if s == SUCCESS then 1 else 0
      ensures Pieces() ==
        if s == SUCCESS then Place(old(Pieces()), old(group.Taken(at)), at, Read(localbuf[..], outside, frag))
        else old(Pieces())
      ensures old(Packed()) && !frag.ptr.Local? ==> Packed()
    {
      hide Place, U32, Sum, FragGroup.Valid, FragGroup.Room, FragGroup.Taken, FragGroup.Buffers, ReadAll, Read,
        LocalBytes, Placed;
      if frag.ptr != Null {
        PlacedMore(outside, group.Frags(), group.Taken(at), at, frag, Used(), Used());
        ReadPlace(localbuf[..], outside, group.Frags(), group.Taken(at), at, frag);
        group.LocalCounted(frag, at);
      }
      s := group.AddFragment(frag, state, at);
    }

    method Clear()
      requires Valid() && forall b :: b in group.Buffers() ==> b.refcount >= Count(group.States(), b)
      modifies this, group, group.fragments, group.bufferStates, group.Buffers()
      ensures Valid() && Packed() && group.numFragments == 0 && availableLocalbuf == localbuf.Length && Pieces() == []
      ensures forall b :: b in old(group.Buffers()) ==> Dropped(b, old(Count(group.States(), b)))
    {
      hide Count, FragGroup.Valid, Dropped, U32;
      group.Clear();
      availableLocalbuf := localbuf.Length;
    }

    /** The length of the group is the number of bytes its fragments hold, in 32 bits. */
    lemma LengthIsBytes()
      requires Valid()
      ensures group.length == U32(|Concat(Pieces())|)
    {
      hide Concat, Sum, U32;
      ConcatLength(group.Frags(), Pieces());
    }

    // Every slot in use holds a local fragment.
    ghost predicate Full()
      requires group.Bounded()
      reads group`numFragments, group.fragments
    {
      forall f :: f in group.Frags() ==> f.ptr.Local?
    }

    // The state that the first insertions of a run lead to.
    ghost predicate Reached(ops: seq<(seq<byte>, int)>)
      reads this, localbuf, group, group.fragments, group.bufferStates
    {
      Valid() && Packed() && Full() && Pieces() == Inserted(localbuf.Length, ops) && Used() == |Concat(Pieces())|
    }

    method AddLocalNext(ops: seq<(seq<byte>, int)>, n: nat)
      requires n < |ops| && Reached(ops[..n])
      requires |Inserted(localbuf.Length, ops[..n + 1])| <= group.fragments.Length
      modifies `availableLocalbuf, localbuf, group`numFragments, group`length, group.fragments, group.bufferStates
      ensures Reached(ops[..n + 1])
    {
      hide Place, Placed, U32, Sum, Concat, Inserted, FragGroup.Valid, FragGroup.Buffers, ReadAll, LocalBytes;
      var src, at := ops[n].0, ops[n].1;
      ghost var ps, taken, fs := Pieces(), group.Taken(at), group.Frags();
      InsertedNext(localbuf.Length, ops, n);
      InsertedFits(localbuf.Length, ops[..n]);
      assert 0 <= at < group.numFragments ==> group.Frags()[at].ptr.Local?;
      TakenOutside(ps, taken, at, src);
      ConcatGrows(ps, at, src);
      PlaceMembers(fs, taken, at, Fragment(Local(Used()), |src|));
      var s := AddLocalFragment(Fragment(Foreign(0), |src|), src, at);
    }

    /** A whole run of AddLocalFragment from an empty group: the bytes are those of the same insertions. */
    method AddLocalAll(ops: seq<(seq<byte>, int)>)
      requires Valid() && Packed() && group.numFragments == 0 && availableLocalbuf == localbuf.Length
      requires |Inserted(localbuf.Length, ops)| <= group.fragments.Length
      modifies `availableLocalbuf, localbuf, group`numFragments, group`length, group.fragments, group.bufferStates
      ensures Valid() && Packed()
      ensures Pieces() == Inserted(localbuf.Length, ops) && Used() == |Concat(Pieces())|
    {
      hide Placed, FragGroup.Valid, LocalBytes;
      assert Pieces() == [] && ops[..0] == [];
      for n := 0 to |ops|
        invariant Reached(ops[..n])
      {
        hide Reached;
        InsertedGrows(localbuf.Length, ops, n + 1);
        AddLocalNext(ops, n);
      }
      assert ops[..|ops|] == ops;
    }
  }
}
