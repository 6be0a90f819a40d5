/** Counters, the handles that hold them, and the handles that live inside what is counted.  When a
    count comes down to zero the buffer goes, with every handle inside it, and each of those gives
    up its own reference in turn. */
module HandleSpec {
  import opened SeqEdits

  datatype Option<T> = None | Some(value: T)

  // What a handle gives access to.
  datatype Item = Object(rep: nat) | Memory(ptr: nat, len: nat, capacity: nat)

  /** home is the counter of the buffer the handle lives in; program variables have none. */
  datatype Slot<C> = Slot(item: Item, ref: Option<C>, home: Option<C>)

  // inner lists the handles in the buffer.
  datatype Counter<H> = Counter(count: int, inner: seq<H>)

  /** loose are the references that the program holds in no handle. */
  datatype State<C, H> = State(counters: map<C, Counter<H>>, handles: map<H, Slot<C>>, loose: multiset<C>)

  datatype Outcome<S> = Done(state: S) | Fault

  // ---------------------------------------------------------------- giving up references

  // r is what is left of s: everything that is still there is as it was, but for the counts.
  ghost predicate Shrunk<C, H>(s: State<C, H>, r: State<C, H>) {
    && r.counters.Keys <= s.counters.Keys && r.handles.Keys <= s.handles.Keys && r.loose == s.loose
    && (forall c :: c in r.counters ==> r.counters[c].inner == s.counters[c].inner)
    && (forall h :: h in r.handles ==> r.handles[h] == s.handles[h])
  }

  /** removeRef: the last reference takes the counter, the buffer and the handles in it with it. */
  ghost function DropRef<C, H>(s: State<C, H>, c: C): (r: State<C, H>)
    ensures Shrunk(s, r)
    decreases s.counters.Keys, 0, 0
  {
    if c !in s.counters then s
    else
      var k := s.counters[c];
      if k.count != 1 then s.(counters := s.counters[c := k.(count := k.count - 1)])
      else KillAll(s.(counters := s.counters - {c}), k.inner)
  }

  // Unless it is the last one, a reference given up is only counted.
  lemma DropOne<C, H>(s: State<C, H>, c: C)
    requires c in s.counters && s.counters[c].count != 1
    ensures DropRef(s, c) == s.(counters := s.counters[c := s.counters[c].(count := s.counters[c].count - 1)])
  {
  }

  // The destructor of a handle.
  ghost function Kill<C, H>(s: State<C, H>, h: H): (r: State<C, H>)
    ensures Shrunk(s, r)
    decreases s.counters.Keys, 1, 0
  {
    if h !in s.handles then s
    else
      var s1 := s.(handles := s.handles - {h});
      if s.handles[h].ref == None then s1 else DropRef(s1, s.handles[h].ref.value)
  }

  ghost function KillAll<C, H>(s: State<C, H>, hs: seq<H>): (r: State<C, H>)
    ensures Shrunk(s, r)
    decreases s.counters.Keys, 2, |hs|
  {
    if hs == [] then s else KillAll(Kill(s, hs[0]), hs[1..])
  }

  // ---------------------------------------------------------------- what every call keeps

  ghost function Holders<C, H>(s: State<C, H>, c: C): set<H> {
    set h | h in s.handles && s.handles[h].ref == Some(c)
  }

  /** How many references to c there are. */
  ghost function Held<C, H>(s: State<C, H>, c: C): nat {
    |Holders(s, c)| + s.loose[c]
  }

  /** Every count is the number of references, one more for c when that has just been given up. */
  ghost predicate Counted<C, H>(s: State<C, H>, given: Option<C>) {
    forall c :: c in s.counters ==>
      0 < s.counters[c].count == Held(s, c) + if given == Some(c) then 1 else 0
  }

  // References lead to counters that are there.
  ghost predicate Reaches<C, H>(s: State<C, H>) {
    && (forall h :: h in s.handles && s.handles[h].ref.Some? ==> s.handles[h].ref.value in s.counters)
    && (forall c :: c in s.loose ==> c in s.counters)
  }

  // The handles in the buffer of c are there, each once, and say so.
  ghost predicate Inside<C, H>(s: State<C, H>, doomed: set<H>, c: C)
    requires c in s.counters
  {
    && NoDup(s.counters[c].inner)
    && forall h :: h in s.counters[c].inner ==> h in s.handles && h !in doomed && s.handles[h].home == Some(c)
  }

  // h lives in no buffer, or in one that is there and lists it.
  ghost predicate AtHome<C, H>(s: State<C, H>, h: H)
    requires h in s.handles
  {
    s.handles[h].home.Some? ==>
      s.handles[h].home.value in s.counters && h in s.counters[s.handles[h].home.value].inner
  }

  /** References lead to counters that are there, and homes and the handles inside agree, but for
      the doomed handles, whose buffer is going. */
  ghost predicate Wired<C, H>(s: State<C, H>, doomed: set<H>) {
    && doomed <= s.handles.Keys && Reaches(s)
    && (forall h :: h in s.handles && h !in doomed ==> AtHome(s, h))
    && (forall c :: c in s.counters ==> Inside(s, doomed, c))
  }

  ghost predicate Valid<C, H>(s: State<C, H>) {
    Wired(s, {}) && Counted(s, None)
  }

  // s1 is s but for the handle h, which held c if `had` and holds it now if `has`.
  lemma HeldMoves<C, H>(s: State<C, H>, s1: State<C, H>, h: H, c: C, had: bool, has: bool)
    requires Holders(s1, c) - {h} == Holders(s, c) - {h}
    requires (h in Holders(s, c) <==> had) && (h in Holders(s1, c) <==> has) && s1.loose == s.loose
    ensures Held(s1, c) == Held(s, c) + (if has then 1 else 0) - if had then 1 else 0
  {
    hide Holders;
    var rest := Holders(s, c) - {h};
    assert Holders(s, c) == if had then rest + {h} else rest;
    assert Holders(s1, c) == if has then rest + {h} else rest;
  }

  lemma HoldersLess<C, H>(s: State<C, H>, h: H, c: C)
    requires h in s.handles
    ensures Held(s.(handles := s.handles - {h}), c) == Held(s, c) - if s.handles[h].ref == Some(c) then 1 else 0
  {
    hide Held;
    HeldMoves(s, s.(handles := s.handles - {h}), h, c, s.handles[h].ref == Some(c), false);
  }

  lemma {:induction false} DropOk<C, H>(s: State<C, H>, doomed: set<H>, c: C)
    requires Wired(s, doomed) && Counted(s, Some(c)) && c in s.counters
    ensures Wired(DropRef(s, c), doomed) && Counted(DropRef(s, c), None)
    decreases s.counters.Keys, 0, 0
  {
    var k := s.counters[c];
    if k.count == 1 {
      var s1 := s.(counters := s.counters - {c});
      NobodyHolds(s, c);
      LastWired(s, doomed, c);
      LastCounted(s, c);
      KillAllOk(s1, doomed, k.inner);
    } else {
      OneLess(s, doomed, c);
    }
  }

  lemma NobodyHolds<C, H>(s: State<C, H>, c: C)
    requires Held(s, c) == 0
    ensures c !in s.loose && forall h :: h in s.handles ==> s.handles[h].ref != Some(c)
  {
    forall h | h in s.handles
      ensures s.handles[h].ref != Some(c)
    {
      assert h !in Holders(s, c);
    }
  }

  lemma OneLess<C, H>(s: State<C, H>, doomed: set<H>, c: C)
    requires Wired(s, doomed) && Counted(s, Some(c)) && c in s.counters && s.counters[c].count != 1
    ensures var r := s.(counters := s.counters[c := s.counters[c].(count := s.counters[c].count - 1)]);
      Wired(r, doomed) && Counted(r, None)
  {
    var r := s.(counters := s.counters[c := s.counters[c].(count := s.counters[c].count - 1)]);
    CountedOne(s, c);
    hide Counted;
    OneWired(s, r, doomed);
  }

  lemma CountedOne<C, H>(s: State<C, H>, c: C)
    requires Counted(s, Some(c)) && c in s.counters && s.counters[c].count != 1
    ensures Counted(s.(counters := s.counters[c := s.counters[c].(count := s.counters[c].count - 1)]), None)
  {
    var r := s.(counters := s.counters[c := s.counters[c].(count := s.counters[c].count - 1)]);
    forall d | d in r.counters
      ensures Held(r, d) == Held(s, d)
    {
      assert Holders(r, d) == Holders(s, d);
    }
  }

  // Counts do not matter to the wiring.
  lemma OneWired<C, H>(s: State<C, H>, r: State<C, H>, doomed: set<H>)
    requires Wired(s, doomed) && r.counters.Keys == s.counters.Keys && r.handles == s.handles
    requires (forall c :: c in r.counters ==> r.counters[c].inner == s.counters[c].inner)
    requires forall c :: c in r.loose ==> c in r.counters
    ensures Wired(r, doomed)
  {
  }

  lemma LastWired<C, H>(s: State<C, H>, doomed: set<H>, c: C)
    requires Wired(s, doomed) && c in s.counters && c !in s.loose
    requires forall h :: h in s.handles ==> s.handles[h].ref != Some(c)
    ensures Wired(s.(counters := s.counters - {c}), doomed + Elems(s.counters[c].inner))
    ensures NoDup(s.counters[c].inner) && Elems(s.counters[c].inner) !! doomed
  {
  }

  lemma LastCounted<C, H>(s: State<C, H>, c: C)
    requires Counted(s, Some(c))
    ensures Counted(s.(counters := s.counters - {c}), None)
  {
    var r := s.(counters := s.counters - {c});
    forall d | d in r.counters
      ensures Holders(r, d) == Holders(s, d)
    {
    }
  }

  lemma KillWired<C, H>(s: State<C, H>, doomed: set<H>, h: H)
    requires Wired(s, doomed) && h in doomed
    ensures Wired(s.(handles := s.handles - {h}), doomed - {h})
  {
  }

  lemma KillCounted<C, H>(s: State<C, H>, h: H)
    requires Counted(s, None) && h in s.handles
    ensures Counted(s.(handles := s.handles - {h}), s.handles[h].ref)
  {
    forall c | c in s.counters
      ensures Held(s.(handles := s.handles - {h}), c) == Held(s, c) - if s.handles[h].ref == Some(c) then 1 else 0
    {
      HoldersLess(s, h, c);
    }
  }

  lemma {:induction false} KillOk<C, H>(s: State<C, H>, doomed: set<H>, h: H)
    requires Wired(s, doomed) && Counted(s, None) && h in doomed
    ensures Wired(Kill(s, h), doomed - {h}) && Counted(Kill(s, h), None)
    decreases s.counters.Keys, 1, 0
  {
    var s1, ref := s.(handles := s.handles - {h}), s.handles[h].ref;
    KillWired(s, doomed, h);
    KillCounted(s, h);
    if ref != None {
      DropOk(s1, doomed - {h}, ref.value);
    }
  }

  lemma {:induction false} KillAllOk<C, H>(s: State<C, H>, doomed: set<H>, hs: seq<H>)
    requires Wired(s, doomed + Elems(hs)) && Counted(s, None) && NoDup(hs) && Elems(hs) !! doomed
    ensures Wired(KillAll(s, hs), doomed) && Counted(KillAll(s, hs), None)
    decreases s.counters.Keys, 2, |hs|
  {
    if hs == [] {
      assert doomed + Elems(hs) == doomed;
    } else {
      NextDoomed(hs, doomed);
      KillOk(s, doomed + Elems(hs), hs[0]);
      KillAllOk(Kill(s, hs[0]), doomed, hs[1..]);
    }
  }

  lemma NextDoomed<H>(hs: seq<H>, doomed: set<H>)
    requires hs != [] && NoDup(hs) && Elems(hs) !! doomed
    ensures hs[0] in Elems(hs) && NoDup(hs[1..]) && Elems(hs[1..]) !! doomed
    ensures doomed + Elems(hs) - {hs[0]} == doomed + Elems(hs[1..])
  {
    assert forall i :: 0 < i < |hs| ==> hs[i] == hs[1..][i - 1] && hs[i] != hs[0];
    forall e
      ensures e in Elems(hs) <==> e == hs[0] || e in Elems(hs[1..])
    {
    }
  }

  // What holds when the last reference to c has been given up and c is about to go.
  lemma LastReady<C, H>(s: State<C, H>, doomed: set<H>, c: C)
    requires Wired(s, doomed) && Counted(s, Some(c)) && c in s.counters && s.counters[c].count == 1
    ensures var s1, hs := s.(counters := s.counters - {c}), s.counters[c].inner;
      && Wired(s1, doomed + Elems(hs)) && Counted(s1, None) && NoDup(hs) && Elems(hs) !! doomed
      && DropRef(s, c) == KillAll(s1, hs)
  {
    NobodyHolds(s, c);
    LastWired(s, doomed, c);
    LastCounted(s, c);
  }

  lemma KillReady<C, H>(s: State<C, H>, doomed: set<H>, h: H)
    requires Wired(s, doomed) && Counted(s, None) && h in doomed
    ensures var s1 := s.(handles := s.handles - {h});
      && Wired(s1, doomed - {h}) && Counted(s1, s.handles[h].ref)
      && (s.handles[h].ref.Some? ==> s.handles[h].ref.value in s1.counters)
  {
    KillWired(s, doomed, h);
    KillCounted(s, h);
  }

  // What holds when the first of the handles hs has been destroyed.
  lemma NextReady<C, H>(s: State<C, H>, doomed: set<H>, hs: seq<H>)
    requires hs != [] && Wired(s, doomed + Elems(hs)) && Counted(s, None) && NoDup(hs) && Elems(hs) !! doomed
    ensures var s1 := Kill(s, hs[0]);
      && hs[0] in doomed + Elems(hs) && hs[0] in s.handles && hs[0] !in KillAll(s, hs).handles
      && Wired(s1, doomed + Elems(hs[1..])) && Counted(s1, None) && NoDup(hs[1..]) && Elems(hs[1..]) !! doomed
      && KillAll(s, hs) == KillAll(s1, hs[1..])
  {
    NextDoomed(hs, doomed);
    KillOk(s, doomed + Elems(hs), hs[0]);
    KillAllGone(s, hs, hs[0]);
  }

  // ---------------------------------------------------------------- what survives

  // Handles outside every buffer, and those in a buffer of `kept`.
  ghost predicate Anchored<C, H>(s: State<C, H>, kept: set<C>, h: H) {
    h in s.handles && (s.handles[h].home == None || s.handles[h].home.value in kept)
  }

  /** Each counter of `kept` is held by the program, by an outside handle, or from a buffer of `kept`. */
  ghost predicate Supported<C, H>(s: State<C, H>, kept: set<C>, doomed: set<H>) {
    && kept <= s.counters.Keys
    && forall c :: c in kept ==> Propped(s, kept, doomed, c)
  }

  ghost predicate Propped<C, H>(s: State<C, H>, kept: set<C>, doomed: set<H>, c: C) {
    c in s.loose || exists h :: h in s.handles && h !in doomed && s.handles[h].ref == Some(c) && Anchored(s, kept, h)
  }

  /** h is outside every buffer, or in one that can be supported. */
  ghost predicate Survives<C, H>(s: State<C, H>, h: H) {
    && h in s.handles
    && (s.handles[h].home == None
        || exists kept :: kept <= s.counters.Keys && Supported(s, kept, {}) && s.handles[h].home.value in kept)
  }

  // Nothing that `kept` rests on has gone from s to r.
  ghost predicate Spares<C, H>(s: State<C, H>, r: State<C, H>, kept: set<C>, doomed: set<H>) {
    && kept <= r.counters.Keys
    && forall h :: h in s.handles && Anchored(s, kept, h) && h !in doomed ==> h in r.handles
  }

  lemma StillSupported<C, H>(s: State<C, H>, r: State<C, H>, kept: set<C>, doomed: set<H>)
    requires Supported(s, kept, doomed) && Shrunk(s, r) && Spares(s, r, kept, doomed)
    ensures Supported(r, kept, doomed)
  {
    forall c | c in kept
      ensures Propped(r, kept, doomed, c)
    {
      assert Propped(s, kept, doomed, c);
      if c !in s.loose {
        var h :| h in s.handles && h !in doomed && s.handles[h].ref == Some(c) && Anchored(s, kept, h);
        assert h in r.handles && Anchored(r, kept, h);
      }
    }
  }

  lemma ProppedHeld<C, H>(s: State<C, H>, kept: set<C>, doomed: set<H>, c: C)
    requires Propped(s, kept, doomed, c)
    ensures Held(s, c) > 0
  {
    if c !in s.loose {
      var h :| h in s.handles && h !in doomed && s.handles[h].ref == Some(c) && Anchored(s, kept, h);
      assert h in Holders(s, c);
    }
  }

  lemma {:induction false} DropSpares<C, H>(s: State<C, H>, doomed: set<H>, c: C, kept: set<C>)
    requires Wired(s, doomed) && Counted(s, Some(c)) && c in s.counters && Supported(s, kept, doomed)
    ensures Spares(s, DropRef(s, c), kept, doomed)
    decreases s.counters.Keys, 0, 0
  {
    var k := s.counters[c];
    if k.count == 1 {
      var s1 := s.(counters := s.counters - {c});
      assert c !in kept by {
        if c in kept {
          ProppedHeld(s, kept, doomed, c);
        }
      }
      NobodyHolds(s, c);
      LastWired(s, doomed, c);
      LastCounted(s, c);
      LastSupported(s, doomed, c, kept);
      KillAllSpares(s1, doomed, k.inner, kept);
      LastSpares(s, DropRef(s, c), doomed, c, kept);
    }
  }

  // The handles in c's buffer support nothing that is kept.
  lemma LastSupported<C, H>(s: State<C, H>, doomed: set<H>, c: C, kept: set<C>)
    requires Wired(s, doomed) && Supported(s, kept, doomed) && c in s.counters && c !in kept
    ensures Supported(s.(counters := s.counters - {c}), kept, doomed + Elems(s.counters[c].inner))
  {
    var s1, d1 := s.(counters := s.counters - {c}), doomed + Elems(s.counters[c].inner);
    forall d | d in kept
      ensures Propped(s1, kept, d1, d)
    {
      assert Propped(s, kept, doomed, d);
      if d !in s.loose {
        var h :| h in s.handles && h !in doomed && s.handles[h].ref == Some(d) && Anchored(s, kept, h);
        assert h !in d1 && Anchored(s1, kept, h);
      }
    }
  }

  lemma LastSpares<C, H>(s: State<C, H>, r: State<C, H>, doomed: set<H>, c: C, kept: set<C>)
    requires Wired(s, doomed) && c in s.counters && c !in kept
    requires Spares(s.(counters := s.counters - {c}), r, kept, doomed + Elems(s.counters[c].inner))
    ensures Spares(s, r, kept, doomed)
  {
    forall h | h in s.handles && Anchored(s, kept, h) && h !in doomed
      ensures h in r.handles
    {
      assert Anchored(s.(counters := s.counters - {c}), kept, h);
    }
  }

  lemma {:induction false} KillSpares<C, H>(s: State<C, H>, doomed: set<H>, h: H, kept: set<C>)
    requires Wired(s, doomed) && Counted(s, None) && h in doomed && Supported(s, kept, doomed)
    ensures Spares(s, Kill(s, h), kept, doomed)
    decreases s.counters.Keys, 1, 0
  {
    var s1, ref := s.(handles := s.handles - {h}), s.handles[h].ref;
    KillWired(s, doomed, h);
    KillCounted(s, h);
    KillSupported(s, doomed, h, kept);
    hide Wired, Counted, Supported, DropRef, Spares;
    if ref != None {
      RefThere(s, doomed, h);
      DropSpares(s1, doomed - {h}, ref.value, kept);
    } else {
      SparesAll(s1, kept, doomed - {h});
    }
    SparesToo(s, Kill(s, h), doomed, h, kept);
  }

  lemma SparesAll<C, H>(s: State<C, H>, kept: set<C>, doomed: set<H>)
    requires kept <= s.counters.Keys
    ensures Spares(s, s, kept, doomed)
  {
  }

  lemma SparesToo<C, H>(s: State<C, H>, r: State<C, H>, doomed: set<H>, h: H, kept: set<C>)
    requires h in doomed && Spares(s.(handles := s.handles - {h}), r, kept, doomed - {h})
    ensures Spares(s, r, kept, doomed)
  {
    forall g | g in s.handles && Anchored(s, kept, g) && g !in doomed
      ensures g in r.handles
    {
      assert Anchored(s.(handles := s.handles - {h}), kept, g);
    }
  }

  lemma RefThere<C, H>(s: State<C, H>, doomed: set<H>, h: H)
    requires Wired(s, doomed) && h in s.handles && s.handles[h].ref.Some?
    ensures s.handles[h].ref.value in s.counters
  {
  }

  lemma KillSupported<C, H>(s: State<C, H>, doomed: set<H>, h: H, kept: set<C>)
    requires h in s.handles && h in doomed && Supported(s, kept, doomed)
    ensures Supported(s.(handles := s.handles - {h}), kept, doomed - {h}) && kept <= s.counters.Keys
  {
    var s1 := s.(handles := s.handles - {h});
    forall c | c in kept
      ensures Propped(s1, kept, doomed - {h}, c)
    {
      assert Propped(s, kept, doomed, c);
      if c !in s.loose {
        var g :| g in s.handles && g !in doomed && s.handles[g].ref == Some(c) && Anchored(s, kept, g);
        assert Anchored(s1, kept, g);
      }
    }
  }

  lemma {:induction false} KillAllSpares<C, H>(s: State<C, H>, doomed: set<H>, hs: seq<H>, kept: set<C>)
    requires Wired(s, doomed + Elems(hs)) && Counted(s, None) && NoDup(hs) && Elems(hs) !! doomed
    requires Supported(s, kept, doomed + Elems(hs))
    ensures Spares(s, KillAll(s, hs), kept, doomed + Elems(hs))
    decreases s.counters.Keys, 2, |hs|
  {
    if hs != [] {
      var all, s1 := doomed + Elems(hs), Kill(s, hs[0]);
      NextDoomed(hs, doomed);
      KillOk(s, all, hs[0]);
      KillSpares(s, all, hs[0], kept);
      StillSupported(s, s1, kept, all);
      FewerDoomed(s1, kept, all, doomed + Elems(hs[1..]));
      KillAllSpares(s1, doomed, hs[1..], kept);
      forall g | g in s.handles && Anchored(s, kept, g) && g !in all
        ensures g in KillAll(s, hs).handles
      {
        assert g in s1.handles && Anchored(s1, kept, g);
      }
    }
  }

  lemma FewerDoomed<C, H>(s: State<C, H>, kept: set<C>, all: set<H>, fewer: set<H>)
    requires Supported(s, kept, all) && fewer <= all
    ensures Supported(s, kept, fewer)
  {
    forall c | c in kept
      ensures Propped(s, kept, fewer, c)
    {
      assert Propped(s, kept, all, c);
    }
  }

  // ---------------------------------------------------------------- assignment

  ghost function SetSlot<C, H>(s: State<C, H>, h: H, item: Item, ref: Option<C>): State<C, H>
    requires h in s.handles
  {
    s.(handles := s.handles[h := Slot(item, ref, s.handles[h].home)])
  }

  // h still stands where it did, but its reference has been given up.
  ghost function Detach<C, H>(s: State<C, H>, h: H): State<C, H>
    requires h in s.handles
  {
    SetSlot(s, h, s.handles[h].item, None)
  }

  /** What is left when h has given up its reference. */
  ghost function LetGo<C, H>(s: State<C, H>, h: H): State<C, H>
    requires h in s.handles
  {
    if s.handles[h].ref == None then s else DropRef(Detach(s, h), s.handles[h].ref.value)
  }

  // addRef.
  ghost function AddTo<C, H>(s: State<C, H>, ref: Option<C>): State<C, H>
    requires ref.Some? ==> ref.value in s.counters
  {
    if ref == None then s
    else s.(counters := s.counters[ref.value := s.counters[ref.value].(count := s.counters[ref.value].count + 1)])
  }

  /** The assignment of x to h: give up, then read x and write h, if both are still there, then take. */
  ghost function Assign<C, H>(s: State<C, H>, h: H, x: H): Outcome<State<C, H>>
    requires h in s.handles && x in s.handles
  {
    var r := LetGo(s, h);
    if h !in r.handles || x !in r.handles then Fault
    else if r.handles[x].ref.Some? && r.handles[x].ref.value !in r.counters then Fault
    else Done(AddTo(SetSlot(r, h, r.handles[x].item, r.handles[x].ref), r.handles[x].ref))
  }

  /** Bind(handle) leaves a handle on the same object alone. */
  ghost function Bind<C, H>(s: State<C, H>, h: H, x: H): Outcome<State<C, H>>
    requires h in s.handles && x in s.handles
  {
    if s.handles[h].item == s.handles[x].item then Done(s) else Assign(s, h, x)
  }

  /** Bind(object, counter): the reference given is one the program holds. */
  ghost function BindNew<C, H>(s: State<C, H>, h: H, item: Item, ref: Option<C>): Outcome<State<C, H>>
    requires h in s.handles
  {
    var r := LetGo(s, h);
    if h !in r.handles then Fault else Done(TakeOver(SetSlot(r, h, item, ref), ref))
  }

  // The program's own reference is the handle's now.
  ghost function TakeOver<C, H>(s: State<C, H>, ref: Option<C>): State<C, H> {
    if ref == None then s else s.(loose := s.loose - multiset{ref.value})
  }

  lemma SetSlotHeld<C, H>(s: State<C, H>, h: H, item: Item, ref: Option<C>, c: C)
    requires h in s.handles
    ensures Held(SetSlot(s, h, item, ref), c) ==
      Held(s, c) + (if ref == Some(c) then 1 else 0) - if s.handles[h].ref == Some(c) then 1 else 0
  {
    hide Held;
    HeldMoves(s, SetSlot(s, h, item, ref), h, c, s.handles[h].ref == Some(c), ref == Some(c));
  }

  lemma SetSlotWired<C, H>(s: State<C, H>, h: H, item: Item, ref: Option<C>)
    requires Wired(s, {}) && h in s.handles && (ref.Some? ==> ref.value in s.counters)
    ensures Wired(SetSlot(s, h, item, ref), {})
  {
  }

  lemma DetachCounted<C, H>(s: State<C, H>, h: H)
    requires Counted(s, None) && h in s.handles
    ensures Counted(Detach(s, h), s.handles[h].ref)
  {
    hide Held, SetSlot;
    forall c | c in s.counters
      ensures Held(Detach(s, h), c) == Held(s, c) - if s.handles[h].ref == Some(c) then 1 else 0
    {
      SetSlotHeld(s, h, s.handles[h].item, None, c);
    }
    assert Detach(s, h).counters == s.counters by {
      SetSlotKeeps(s, h, s.handles[h].item, None);
    }
  }

  lemma SetSlotKeeps<C, H>(s: State<C, H>, h: H, item: Item, ref: Option<C>)
    requires h in s.handles
    ensures SetSlot(s, h, item, ref).counters == s.counters && SetSlot(s, h, item, ref).handles.Keys == s.handles.Keys
    ensures SetSlot(s, h, item, ref).loose == s.loose
  {
  }

  lemma LetGoOk<C, H>(s: State<C, H>, h: H)
    requires Valid(s) && h in s.handles
    ensures Valid(LetGo(s, h))
    ensures h in LetGo(s, h).handles ==> LetGo(s, h).handles[h].ref == None
  {
    hide Counted, Wired;
    if s.handles[h].ref != None {
      HasCounter(s, h);
      SetSlotWired(s, h, s.handles[h].item, None);
      DetachCounted(s, h);
      DropOk(Detach(s, h), {}, s.handles[h].ref.value);
    }
  }

  lemma HasCounter<C, H>(s: State<C, H>, h: H)
    requires Valid(s) && h in s.handles && s.handles[h].ref.Some?
    ensures s.handles[h].ref.value in s.counters
  {
  }

  // What removeRef needs once the assignment of h has begun.
  lemma GiveUpReady<C, H>(s: State<C, H>, h: H)
    requires Valid(s) && h in s.handles
    ensures s.handles[h].ref == None ==> LetGo(s, h) == Detach(s, h)
    ensures s.handles[h].ref.Some? ==>
      var s0, c := Detach(s, h), s.handles[h].ref.value;
      LetGo(s, h) == DropRef(s0, c) && c in s0.counters && Wired(s0, {}) && Counted(s0, Some(c))
  {
    hide Wired;
    SetSlotWired(s, h, s.handles[h].item, None);
    DetachCounted(s, h);
    if s.handles[h].ref.Some? {
      HasCounter(s, h);
    } else {
      assert s.handles[h := s.handles[h]] == s.handles;
    }
  }

  lemma AddToWired<C, H>(s: State<C, H>, ref: Option<C>)
    requires Wired(s, {}) && (ref.Some? ==> ref.value in s.counters)
    ensures Wired(AddTo(s, ref), {})
  {
    OneWired(s, AddTo(s, ref), {});
  }

  lemma AddToCount<C, H>(s: State<C, H>, ref: Option<C>, c: C)
    requires ref.Some? ==> ref.value in s.counters
    ensures var r := AddTo(s, ref);
      && (c in r.counters <==> c in s.counters)
      && (c in s.counters ==> r.counters[c].count == s.counters[c].count + if ref == Some(c) then 1 else 0)
      && Held(r, c) == Held(s, c)
  {
    SameHeld(s, AddTo(s, ref), c);
  }

  lemma PointCounted<C, H>(s: State<C, H>, h: H, item: Item, ref: Option<C>)
    requires Counted(s, None) && h in s.handles && s.handles[h].ref == None && (ref.Some? ==> ref.value in s.counters)
    ensures SetSlot(s, h, item, ref).counters == s.counters && Counted(AddTo(SetSlot(s, h, item, ref), ref), None)
  {
    hide Held, SetSlot, AddTo;
    SetSlotKeeps(s, h, item, ref);
    var s1 := SetSlot(s, h, item, ref);
    var r := AddTo(s1, ref);
    forall c | c in r.counters
      ensures 0 < r.counters[c].count == Held(r, c)
    {
      SetSlotHeld(s, h, item, ref, c);
      AddToCount(s1, ref, c);
    }
  }

  lemma PointTo<C, H>(s: State<C, H>, h: H, item: Item, ref: Option<C>)
    requires Valid(s) && h in s.handles && s.handles[h].ref == None && (ref.Some? ==> ref.value in s.counters)
    ensures Valid(AddTo(SetSlot(s, h, item, ref), ref))
  {
    hide Wired, Counted, SetSlot, AddTo;
    PointCounted(s, h, item, ref);
    SetSlotWired(s, h, item, ref);
    AddToWired(SetSlot(s, h, item, ref), ref);
  }

  lemma SameHeld<C, H>(s: State<C, H>, r: State<C, H>, c: C)
    requires r.handles == s.handles && r.loose == s.loose
    ensures Held(r, c) == Held(s, c)
  {
    assert Holders(r, c) == Holders(s, c);
  }

  lemma TakeOverHeld<C, H>(s: State<C, H>, ref: Option<C>, c: C)
    requires ref.Some? ==> ref.value in s.loose
    ensures Held(TakeOver(s, ref), c) == Held(s, c) - if ref == Some(c) then 1 else 0
  {
    assert Holders(TakeOver(s, ref), c) == Holders(s, c);
  }

  lemma TakeOverWired<C, H>(s: State<C, H>, ref: Option<C>)
    requires Wired(s, {}) && (ref.Some? ==> ref.value in s.loose)
    ensures Wired(TakeOver(s, ref), {})
  {
    OneWired(s, TakeOver(s, ref), {});
  }

  lemma TakenCounted<C, H>(s: State<C, H>, h: H, item: Item, ref: Option<C>)
    requires Counted(s, None) && h in s.handles && s.handles[h].ref == None && (ref.Some? ==> ref.value in s.loose)
    ensures Counted(TakeOver(SetSlot(s, h, item, ref), ref), None)
  {
    hide Held, SetSlot;
    SetSlotKeeps(s, h, item, ref);
    var s1 := SetSlot(s, h, item, ref);
    var r := TakeOver(s1, ref);
    forall c | c in r.counters
      ensures 0 < r.counters[c].count == Held(r, c)
    {
      SetSlotHeld(s, h, item, ref, c);
      TakeOverHeld(s1, ref, c);
    }
  }

  lemma TakenOver<C, H>(s: State<C, H>, h: H, item: Item, ref: Option<C>)
    requires Valid(s) && h in s.handles && s.handles[h].ref == None && (ref.Some? ==> ref.value in s.loose)
    ensures Valid(TakeOver(SetSlot(s, h, item, ref), ref))
  {
    hide Counted, Held, SetSlot, TakeOver;
    TakenCounted(s, h, item, ref);
    SetSlotKeeps(s, h, item, ref);
    SetSlotWired(s, h, item, ref);
    TakeOverWired(SetSlot(s, h, item, ref), ref);
  }

  /** Whether y is still there when the reference to c just given up has been dropped. */
  lemma DropSurvives<C, H>(s: State<C, H>, c: C, y: H)
    requires Wired(s, {}) && Counted(s, Some(c)) && c in s.counters && y in s.handles
    ensures y in DropRef(s, c).handles <==> Survives(s, y)
  {
    hide Counted, Wired, Supported, Held;
    var r := DropRef(s, c);
    DropOk(s, {}, c);
    if y in r.handles {
      LeftSurvives(s, r, y);
    }
    if Survives(s, y) {
      var kept := Keeping(s, y);
      DropSpares(s, {}, c, kept);
      assert Anchored(s, kept, y);
    }
  }

  // Counters whose buffers keep y.
  lemma Keeping<C, H>(s: State<C, H>, y: H) returns (kept: set<C>)
    requires Survives(s, y)
    ensures Supported(s, kept, {}) && Anchored(s, kept, y)
  {
    if s.handles[y].home == None {
      kept := {};
    } else {
      kept :| kept <= s.counters.Keys && Supported(s, kept, {}) && s.handles[y].home.value in kept;
    }
  }

  lemma LeftSurvives<C, H>(s: State<C, H>, r: State<C, H>, y: H)
    requires Valid(r) && Shrunk(s, r) && y in r.handles
    ensures Survives(s, y)
  {
    hide Valid;
    LeftSupported(s, r);
    if s.handles[y].home.Some? {
      LeftHome(r, y);
    }
  }

  /** Whether y is still there after h has given up its reference. */
  lemma SurvivesIff<C, H>(s: State<C, H>, h: H, y: H)
    requires Valid(s) && h in s.handles && y in s.handles
    ensures y in LetGo(s, h).handles <==> Survives(Detach(s, h), y)
  {
    hide Wired, Counted, Survives;
    GiveUpReady(s, h);
    if s.handles[h].ref.Some? {
      DropSurvives(Detach(s, h), s.handles[h].ref.value, y);
    } else {
      assert Detach(s, h) == s;
      LeftSurvives(s, s, y);
    }
  }

  /** Whether y is still there after the variable h has gone out of scope. */
  lemma KillSurvives<C, H>(s: State<C, H>, h: H, y: H)
    requires Valid(s) && h in s.handles && s.handles[h].home == None && y in s.handles && y != h
    ensures y in Kill(s, h).handles <==> Survives(s.(handles := s.handles - {h}), y)
  {
    hide Wired, Counted, Survives;
    var s1 := s.(handles := s.handles - {h});
    OutsideDoomed(s, h);
    KillReady(s, {h}, h);
    assert {h} - {h} == {};
    if s.handles[h].ref.Some? {
      DropSurvives(s1, s.handles[h].ref.value, y);
    } else {
      LeftSurvives(s1, s1, y);
    }
  }

  /** Whether y is still there after the program has given up a reference of its own to c. */
  lemma DropLooseSurvives<C, H>(s: State<C, H>, c: C, y: H)
    requires Valid(s) && c in s.loose && y in s.handles
    ensures y in DropLoose(s, c).handles <==> Survives(s.(loose := s.loose - multiset{c}), y)
  {
    hide Wired, Counted, Survives;
    DropLooseReady(s, c);
    DropSurvives(s.(loose := s.loose - multiset{c}), c, y);
  }

  lemma LeftHome<C, H>(r: State<C, H>, y: H)
    requires Valid(r) && y in r.handles && r.handles[y].home.Some?
    ensures r.handles[y].home.value in r.counters
  {
  }

  // What is left supports itself, in the state before.
  lemma LeftSupported<C, H>(s: State<C, H>, r: State<C, H>)
    requires Valid(r) && Shrunk(s, r)
    ensures Supported(s, r.counters.Keys, {})
  {
    hide Valid, Propped;
    forall c | c in r.counters
      ensures Propped(s, r.counters.Keys, {}, c)
    {
      SelfPropped(r, c);
      StillPropped(s, r, c);
    }
  }

  // A counter that is there is held, and what holds it is in a buffer that is there.
  lemma SelfPropped<C, H>(r: State<C, H>, c: C)
    requires Valid(r) && c in r.counters
    ensures Propped(r, r.counters.Keys, {}, c)
  {
    assert Held(r, c) > 0;
    if c !in r.loose {
      var g :| g in Holders(r, c);
      assert AtHome(r, g) && Anchored(r, r.counters.Keys, g);
    }
  }

  lemma StillPropped<C, H>(s: State<C, H>, r: State<C, H>, c: C)
    requires Shrunk(s, r) && Propped(r, r.counters.Keys, {}, c)
    ensures Propped(s, r.counters.Keys, {}, c)
  {
    if c !in r.loose {
      var g :| g in r.handles && r.handles[g].ref == Some(c) && Anchored(r, r.counters.Keys, g);
      assert s.handles[g] == r.handles[g] && Anchored(s, r.counters.Keys, g);
    }
  }

  lemma AssignOk<C, H>(s: State<C, H>, h: H, x: H)
    requires Valid(s) && h in s.handles && x in s.handles && h != x
    ensures Assign(s, h, x).Done? ==> Valid(Assign(s, h, x).state)
    ensures Assign(s, h, x).Done? <==> h in LetGo(s, h).handles && x in LetGo(s, h).handles
  {
    hide Counted, Wired;
    var r := LetGo(s, h);
    LetGoOk(s, h);
    if h in r.handles && x in r.handles {
      if r.handles[x].ref.Some? {
        HasCounter(r, x);
      }
      PointTo(r, h, r.handles[x].item, r.handles[x].ref);
    }
  }

  /** Assignment reads and writes only what is still there exactly when both handles survive the
      loss of the reference that the target gives up. */
  lemma AssignSafeIff<C, H>(s: State<C, H>, h: H, x: H)
    requires Valid(s) && h in s.handles && x in s.handles && h != x
    ensures Assign(s, h, x).Done? <==> Survives(Detach(s, h), h) && Survives(Detach(s, h), x)
  {
    hide *;
    AssignOk(s, h, x);
    SurvivesIff(s, h, h);
    SurvivesIff(s, h, x);
  }

  lemma BindNewOk<C, H>(s: State<C, H>, h: H, item: Item, ref: Option<C>)
    requires Valid(s) && h in s.handles && (ref.Some? ==> ref.value in s.loose)
    ensures BindNew(s, h, item, ref).Done? ==> Valid(BindNew(s, h, item, ref).state)
    ensures BindNew(s, h, item, ref).Done? <==> Survives(Detach(s, h), h)
  {
    hide Valid, Survives;
    LetGoOk(s, h);
    SurvivesIff(s, h, h);
    if h in LetGo(s, h).handles {
      TakenOver(LetGo(s, h), h, item, ref);
    }
  }

  /** Program variables are always safe, and so is giving up a reference that others hold too. */
  lemma SafeCases<C, H>(s: State<C, H>, h: H, x: H)
    requires Valid(s) && h in s.handles && x in s.handles && h != x
    requires (s.handles[h].home == None && s.handles[x].home == None)
      || s.handles[h].ref == None
      || (s.handles[h].ref.value in s.counters && s.counters[s.handles[h].ref.value].count > 1)
    ensures Assign(s, h, x).Done?
  {
    AssignSafeIff(s, h, x);
    AssignOk(s, h, x);
  }

  lemma {:induction false} KillAllGone<C, H>(s: State<C, H>, hs: seq<H>, x: H)
    requires x in hs
    ensures x !in KillAll(s, hs).handles
    decreases |hs|
  {
    if hs[0] != x {
      KillAllGone(Kill(s, hs[0]), hs[1..], x);
    }
  }

  /** Assigning a handle that lives in an object to the only handle on that object always fails. */
  lemma MemberOfLastFails<C, H>(s: State<C, H>, h: H, x: H)
    requires Valid(s) && h in s.handles && x in s.handles && h != x
    requires s.handles[h].ref.Some? && s.handles[x].home == s.handles[h].ref
      && s.counters[s.handles[h].ref.value].count == 1
    ensures Assign(s, h, x) == Fault
  {
    var c, s0 := s.handles[h].ref.value, Detach(s, h);
    KillAllGone(s0.(counters := s0.counters - {c}), s.counters[c].inner, x);
  }

  lemma SharedTwice<C, H>(s: State<C, H>, h: H, x: H)
    requires Valid(s) && h in s.handles && x in s.handles && h != x
    requires s.handles[h].ref.Some? && s.handles[x].ref == s.handles[h].ref
    ensures s.handles[h].ref.value in s.counters && s.counters[s.handles[h].ref.value].count >= 2
  {
    var c := s.handles[h].ref.value;
    HasCounter(s, h);
    hide Wired;
    assert {h, x} <= Holders(s, c);
    SubsetSize({h, x}, Holders(s, c));
  }

  lemma LetGoOne<C, H>(s: State<C, H>, h: H, c: C)
    requires h in s.handles && s.handles[h].ref == Some(c) && c in s.counters && s.counters[c].count >= 2
    ensures var k := s.counters[c];
      LetGo(s, h) == Detach(s, h).(counters := s.counters[c := k.(count := k.count - 1)])
  {
  }

  lemma BackTo<C, H>(s: State<C, H>, h: H, x: H, c: C)
    requires h in s.handles && x in s.handles && h != x && c in s.counters
    requires s.handles[h].ref == Some(c) == s.handles[x].ref
    ensures var k, s0 := s.counters[c], Detach(s, h);
      var r := s0.(counters := s.counters[c := k.(count := k.count - 1)]);
      && h in r.handles && r.handles.Keys == s.handles.Keys && r.handles[x] == s.handles[x] && c in r.counters
      && var b := AddTo(SetSlot(r, h, s.handles[x].item, Some(c)), Some(c));
        b.counters == s.counters && b.handles == s.handles[h := s.handles[h].(item := s.handles[x].item)]
  {
    var k := s.counters[c];
    assert s.counters[c := k.(count := k.count - 1)][c := k] == s.counters;
  }

  /** Between handles that share a counter nothing is destroyed, and the count is as before. */
  lemma SharedIsSafe<C, H>(s: State<C, H>, h: H, x: H)
    requires Valid(s) && h in s.handles && x in s.handles && h != x
    requires s.handles[h].ref.Some? && s.handles[x].ref == s.handles[h].ref
    ensures Assign(s, h, x).Done?
    ensures var r := Assign(s, h, x).state;
      r.counters == s.counters && r.handles == s.handles[h := s.handles[h].(item := s.handles[x].item)]
  {
    hide Valid, LetGo, Detach, SetSlot, AddTo;
    SharedTwice(s, h, x);
    LetGoOne(s, h, s.handles[h].ref.value);
    BackTo(s, h, x, s.handles[h].ref.value);
  }

  lemma SubsetSize<T>(a: set<T>, b: set<T>)
    requires a <= b
    ensures |a| <= |b|
  {
    assert b == a + (b - a);
  }

  // Two handles on one object with a counter each.
  ghost function TwoCounters(): State<nat, nat> {
    State(map[1 := Counter(1, []), 2 := Counter(1, [])],
          map[0 := Slot(Object(7), Some(1), None), 10 := Slot(Object(7), Some(2), None)], multiset{})
  }

  /** Bind leaves such a handle on its own counter, so the two do not compare equal afterwards. */
  lemma SameObjectOtherCounter()
    ensures Valid(TwoCounters()) && Bind(TwoCounters(), 0, 10) == Done(TwoCounters())
    ensures TwoCounters().handles[0].ref != TwoCounters().handles[10].ref
  {
    var s := TwoCounters();
    assert Holders(s, 1) == {0};
    assert Holders(s, 2) == {10};
  }

  // A list of two nodes, with p, handle 0, on the first, and the next fields 10 and 20 in the nodes.
  ghost function TwoNodes(): State<nat, nat> {
    State(map[1 := Counter(1, [10]), 2 := Counter(1, [20])],
          map[0 := Slot(Object(1), Some(1), None), 10 := Slot(Object(2), Some(2), Some(1)),
            20 := Slot(Object(0), None, Some(2))],
          multiset{})
  }

  lemma TwoNodesWired()
    ensures Wired(TwoNodes(), {})
  {
    var s := TwoNodes();
    assert Reaches(s);
    forall c | c in s.counters
      ensures Inside(s, {}, c)
    {
      assert c == 1 || c == 2;
    }
    forall h | h in s.handles
      ensures AtHome(s, h)
    {
      assert h == 0 || h == 10 || h == 20;
    }
  }

  lemma TwoNodesHeld(c: nat)
    requires c == 1 || c == 2
    ensures Held(TwoNodes(), c) == 1 && c in TwoNodes().counters && TwoNodes().counters[c].count == 1
  {
    assert Holders(TwoNodes(), c) == if c == 1 then {0} else {10};
  }

  lemma TwoNodesValid()
    ensures Valid(TwoNodes())
  {
    TwoNodesWired();
    hide Wired, Held;
    TwoNodesHeld(1);
    TwoNodesHeld(2);
  }

  /** p = p->next reads the next field of a node that has just been destroyed. */
  lemma NextOfLastFails()
    ensures Valid(TwoNodes()) && Bind(TwoNodes(), 0, 10) == Fault
  {
    TwoNodesValid();
    hide Valid;
    MemberOfLastFails(TwoNodes(), 0, 10);
  }

  // ---------------------------------------------------------------- making and destroying

  ghost function NewCounter<C, H>(s: State<C, H>, c: C): State<C, H> {
    State(s.counters[c := Counter(1, [])], s.handles, s.loose + multiset{c})
  }

  // A handle without a reference, in the buffer of home if there is one.
  ghost function Place<C, H>(s: State<C, H>, h: H, item: Item, home: Option<C>): State<C, H>
    requires home.Some? ==> home.value in s.counters
  {
    var s1 := s.(handles := s.handles[h := Slot(item, None, home)]);
    if home == None then s1
    else
      var k := s.counters[home.value];
      s1.(counters := s.counters[home.value := k.(inner := k.inner + [h])])
  }

  /** A handle on a reference that the program hands over. */
  ghost function Make<C, H>(s: State<C, H>, h: H, item: Item, ref: Option<C>, home: Option<C>): State<C, H>
    requires home.Some? ==> home.value in s.counters
  {
    TakeOver(SetSlot(Place(s, h, item, home), h, item, ref), ref)
  }

  ghost function Copy<C, H>(s: State<C, H>, h: H, x: H, home: Option<C>): State<C, H>
    requires x in s.handles && (s.handles[x].ref.Some? ==> s.handles[x].ref.value in s.counters)
    requires home.Some? ==> home.value in s.counters
  {
    var from := s.handles[x];
    AddTo(SetSlot(Place(s, h, from.item, home), h, from.item, from.ref), from.ref)
  }

  ghost function AddLoose<C, H>(s: State<C, H>, c: C): State<C, H>
    requires c in s.counters
  {
    AddTo(s, Some(c)).(loose := s.loose + multiset{c})
  }

  ghost function DropLoose<C, H>(s: State<C, H>, c: C): State<C, H> {
    DropRef(s.(loose := s.loose - multiset{c}), c)
  }

  lemma NewCounterIs<C, H>(s: State<C, H>, c: C)
    ensures NewCounter(s, c).counters == s.counters[c := Counter(1, [])] && NewCounter(s, c).handles == s.handles
  {
  }

  lemma NewCounterHeld<C, H>(s: State<C, H>, c: C, d: C)
    requires Valid(s) && c !in s.counters && (d in s.counters || d == c)
    ensures Held(NewCounter(s, c), d) == if d == c then 1 else Held(s, d)
  {
    assert Holders(NewCounter(s, c), d) == Holders(s, d);
    if d == c {
      assert Holders(s, c) == {};
    }
  }

  lemma NewCounterWired<C, H>(s: State<C, H>, c: C)
    requires Wired(s, {}) && c !in s.counters
    ensures Wired(NewCounter(s, c), {})
  {
  }

  lemma NewCounterCounted<C, H>(s: State<C, H>, c: C)
    requires Valid(s) && c !in s.counters
    ensures Counted(NewCounter(s, c), None)
  {
    hide Wired, Held;
    var r := NewCounter(s, c);
    forall d | d in r.counters
      ensures Held(r, d) == if d == c then 1 else Held(s, d)
    {
      NewCounterHeld(s, c, d);
    }
  }

  lemma NewCounterOk<C, H>(s: State<C, H>, c: C)
    requires Valid(s) && c !in s.counters
    ensures Valid(NewCounter(s, c))
  {
    NewCounterWired(s, c);
    hide Wired;
    NewCounterCounted(s, c);
  }

  lemma AppendOnce<T>(q: seq<T>, x: T)
    requires NoDup(q) && x !in q
    ensures NoDup(q + [x]) && forall y :: y in q + [x] <==> y in q || y == x
  {
  }

  lemma PlaceInside<C, H>(s: State<C, H>, h: H, item: Item, home: Option<C>, c: C)
    requires h !in s.handles && (home.Some? ==> home.value in s.counters) && c in s.counters && Inside(s, {}, c)
    ensures c in Place(s, h, item, home).counters && Inside(Place(s, h, item, home), {}, c)
  {
    hide NoDup;
    AppendOnce(s.counters[c].inner, h);
  }

  lemma PlaceAtHome<C, H>(s: State<C, H>, h: H, item: Item, home: Option<C>, g: H)
    requires home.Some? ==> home.value in s.counters
    requires g == h || (g in s.handles && AtHome(s, g))
    ensures g in Place(s, h, item, home).handles && AtHome(Place(s, h, item, home), g)
  {
  }

  lemma PlaceReaches<C, H>(s: State<C, H>, h: H, item: Item, home: Option<C>)
    requires Reaches(s) && (home.Some? ==> home.value in s.counters)
    ensures Reaches(Place(s, h, item, home))
    ensures Place(s, h, item, home).handles.Keys == s.handles.Keys + {h}
    ensures Place(s, h, item, home).counters.Keys == s.counters.Keys
  {
  }

  lemma PlaceWired<C, H>(s: State<C, H>, h: H, item: Item, home: Option<C>)
    requires Wired(s, {}) && h !in s.handles && (home.Some? ==> home.value in s.counters)
    ensures Wired(Place(s, h, item, home), {})
  {
    hide Place, Reaches, Inside, AtHome;
    PlaceReaches(s, h, item, home);
    var r := Place(s, h, item, home);
    forall c | c in r.counters
      ensures Inside(r, {}, c)
    {
      PlaceInside(s, h, item, home, c);
    }
    forall g | g in r.handles
      ensures AtHome(r, g)
    {
      PlaceAtHome(s, h, item, home, g);
    }
  }

  lemma PlaceHeld<C, H>(s: State<C, H>, h: H, item: Item, home: Option<C>, d: C)
    requires h !in s.handles && (home.Some? ==> home.value in s.counters)
    ensures Held(Place(s, h, item, home), d) == Held(s, d)
  {
    assert Holders(Place(s, h, item, home), d) == Holders(s, d);
  }

  lemma PlaceKeeps<C, H>(s: State<C, H>, h: H, item: Item, home: Option<C>, ref: Option<C>)
    requires home.Some? ==> home.value in s.counters
    ensures h in Place(s, h, item, home).handles
    ensures SetSlot(Place(s, h, item, home), h, item, ref).counters.Keys == s.counters.Keys
  {
  }

  lemma PlaceSlot<C, H>(s: State<C, H>, h: H, item: Item, home: Option<C>, ref: Option<C>)
    requires home.Some? ==> home.value in s.counters
    ensures h in Place(s, h, item, home).handles
    ensures var r := SetSlot(Place(s, h, item, home), h, item, ref);
      && r.handles == s.handles[h := Slot(item, ref, home)] && r.loose == s.loose
      && r.counters == if home == None then s.counters
                       else var k := s.counters[home.value]; s.counters[home.value := k.(inner := k.inner + [h])]
  {
  }

  lemma PlaceCounted<C, H>(s: State<C, H>, h: H, item: Item, home: Option<C>)
    requires Counted(s, None) && h !in s.handles && (home.Some? ==> home.value in s.counters)
    ensures Counted(Place(s, h, item, home), None)
  {
    hide Held;
    var r := Place(s, h, item, home);
    forall d | d in r.counters
      ensures Held(r, d) == Held(s, d)
    {
      PlaceHeld(s, h, item, home, d);
    }
  }

  lemma PlaceOk<C, H>(s: State<C, H>, h: H, item: Item, home: Option<C>)
    requires Valid(s) && h !in s.handles && (home.Some? ==> home.value in s.counters)
    ensures Valid(Place(s, h, item, home))
  {
    PlaceWired(s, h, item, home);
    hide Wired;
    PlaceCounted(s, h, item, home);
  }

  lemma MakeOk<C, H>(s: State<C, H>, h: H, item: Item, ref: Option<C>, home: Option<C>)
    requires Valid(s) && h !in s.handles && (ref.Some? ==> ref.value in s.loose)
      && (home.Some? ==> home.value in s.counters)
    ensures Valid(Make(s, h, item, ref, home))
  {
    hide Valid;
    PlaceOk(s, h, item, home);
    TakenOver(Place(s, h, item, home), h, item, ref);
  }

  lemma CopyOk<C, H>(s: State<C, H>, h: H, x: H, home: Option<C>)
    requires Valid(s) && h !in s.handles && x in s.handles && (home.Some? ==> home.value in s.counters)
    ensures s.handles[x].ref.Some? ==> s.handles[x].ref.value in s.counters
    ensures Valid(Copy(s, h, x, home))
  {
    hide Valid;
    if s.handles[x].ref.Some? {
      HasCounter(s, x);
    }
    PlaceOk(s, h, s.handles[x].item, home);
    PointTo(Place(s, h, s.handles[x].item, home), h, s.handles[x].item, s.handles[x].ref);
  }

  lemma OutsideDoomed<C, H>(s: State<C, H>, h: H)
    requires Wired(s, {}) && h in s.handles && s.handles[h].home == None
    ensures Wired(s, {h})
  {
  }

  /** A program variable goes out of scope. */
  lemma DestroyOk<C, H>(s: State<C, H>, h: H)
    requires Valid(s) && h in s.handles && s.handles[h].home == None
    ensures Valid(Kill(s, h)) && h !in Kill(s, h).handles
  {
    OutsideDoomed(s, h);
    KillOk(s, {h}, h);
    assert {h} - {h} == {};
  }

  lemma AddLooseOk<C, H>(s: State<C, H>, c: C)
    requires Valid(s) && c in s.counters
    ensures Valid(AddLoose(s, c))
  {
    hide Counted, AddLoose;
    AddLooseCounted(s, c);
    AddLooseWired(s, c);
  }

  lemma AddLooseWired<C, H>(s: State<C, H>, c: C)
    requires Wired(s, {}) && c in s.counters
    ensures Wired(AddLoose(s, c), {})
  {
    OneWired(s, AddLoose(s, c), {});
  }

  lemma AddLooseCounted<C, H>(s: State<C, H>, c: C)
    requires Counted(s, None) && c in s.counters
    ensures Counted(AddLoose(s, c), None)
  {
    hide Held;
    var r := AddLoose(s, c);
    forall d | d in r.counters
      ensures Held(r, d) == Held(s, d) + if d == c then 1 else 0
    {
      AddLooseHeld(s, c, d);
    }
  }

  lemma AddLooseHeld<C, H>(s: State<C, H>, c: C, d: C)
    requires c in s.counters
    ensures Held(AddLoose(s, c), d) == Held(s, d) + if d == c then 1 else 0
  {
    assert Holders(AddLoose(s, c), d) == Holders(s, d);
  }

  lemma DropLooseReady<C, H>(s: State<C, H>, c: C)
    requires Valid(s) && c in s.loose
    ensures var s1 := s.(loose := s.loose - multiset{c});
      c in s1.counters && Wired(s1, {}) && Counted(s1, Some(c)) && Valid(DropRef(s1, c))
  {
    hide Counted;
    var s1 := s.(loose := s.loose - multiset{c});
    OneWired(s, s1, {});
    DropLooseCounted(s, c);
    hide Wired;
    DropOk(s1, {}, c);
  }

  lemma DropLooseCounted<C, H>(s: State<C, H>, c: C)
    requires Counted(s, None) && c in s.loose
    ensures Counted(s.(loose := s.loose - multiset{c}), Some(c))
  {
    var s1 := s.(loose := s.loose - multiset{c});
    forall d | d in s1.counters
      ensures Held(s1, d) == Held(s, d) - if d == c then 1 else 0
    {
      assert Holders(s1, d) == Holders(s, d);
    }
  }

  // ---------------------------------------------------------------- what each call does

  // One reference, if any, as the program holds it.
  ghost function One<C>(ref: Option<C>): multiset<C> {
    if ref == None then multiset{} else multiset{ref.value}
  }

  /** From s to r every counter is still there, with `less` given up and `more` taken, and lists the same handles. */
  ghost predicate Recounted<C, H>(s: State<C, H>, r: State<C, H>, less: Option<C>, more: Option<C>) {
    && r.counters.Keys == s.counters.Keys
    && forall c :: c in s.counters ==>
      && r.counters[c].inner == s.counters[c].inner
      && r.counters[c].count ==
         s.counters[c].count - (if less == Some(c) then 1 else 0) + (if more == Some(c) then 1 else 0)
  }

  /** h has this slot now, in the buffer it was in, and the handles left are as they were. */
  ghost predicate Repointed<C, H>(s: State<C, H>, r: State<C, H>, h: H, item: Item, ref: Option<C>)
    requires h in s.handles
  {
    && h in r.handles && r.handles[h] == Slot(item, ref, s.handles[h].home)
    && r.handles.Keys <= s.handles.Keys
    && (forall g :: g in r.handles && g != h ==> r.handles[g] == s.handles[g])
    && (forall g :: g in s.handles ==> (g in r.handles <==> Survives(Detach(s, h), g)))
  }

  // The reference of h, if any, is not the last.
  ghost predicate NotLast<C, H>(s: State<C, H>, ref: Option<C>) {
    ref.Some? ==> ref.value in s.counters && s.counters[ref.value].count > 1
  }

  lemma LetGoShrinks<C, H>(s: State<C, H>, h: H)
    requires h in s.handles
    ensures Shrunk(Detach(s, h), LetGo(s, h))
  {
    if s.handles[h].ref == None {
      assert Detach(s, h) == s by {
        assert s.handles[h := s.handles[h]] == s.handles;
      }
    }
  }

  lemma LetGoCounts<C, H>(s: State<C, H>, h: H)
    requires h in s.handles && NotLast(s, s.handles[h].ref)
    ensures Recounted(s, LetGo(s, h), s.handles[h].ref, None) && LetGo(s, h).handles.Keys == s.handles.Keys
  {
  }

  lemma SetRepoints<C, H>(s: State<C, H>, r: State<C, H>, h: H, item: Item, ref: Option<C>)
    requires h in s.handles && h in r.handles && Shrunk(Detach(s, h), r)
    requires forall g :: g in s.handles ==> (g in r.handles <==> Survives(Detach(s, h), g))
    ensures Repointed(s, SetSlot(r, h, item, ref), h, item, ref) && SetSlot(r, h, item, ref).loose == s.loose
  {
    hide Survives;
  }

  lemma LetGoIs<C, H>(s: State<C, H>, h: H, item: Item, ref: Option<C>)
    requires Valid(s) && h in s.handles && h in LetGo(s, h).handles
    ensures Repointed(s, SetSlot(LetGo(s, h), h, item, ref), h, item, ref)
    ensures SetSlot(LetGo(s, h), h, item, ref).loose == s.loose
  {
    LetGoShrinks(s, h);
    hide *;
    forall g | g in s.handles
      ensures g in LetGo(s, h).handles <==> Survives(Detach(s, h), g)
    {
      SurvivesIff(s, h, g);
    }
    SetRepoints(s, LetGo(s, h), h, item, ref);
  }

  lemma AddToIs<C, H>(s: State<C, H>, ref: Option<C>)
    requires ref.Some? ==> ref.value in s.counters
    ensures Recounted(s, AddTo(s, ref), None, ref)
    ensures AddTo(s, ref).handles == s.handles && AddTo(s, ref).loose == s.loose
  {
  }

  /** Assignment: h has the item and the reference of x; only the reference that h held is given up, and one more
      taken to what x holds. */
  lemma AssignIs<C, H>(s: State<C, H>, h: H, x: H)
    requires Valid(s) && h in s.handles && x in s.handles && h != x && Assign(s, h, x).Done?
    ensures var r, from := Assign(s, h, x).state, s.handles[x];
      && Repointed(s, r, h, from.item, from.ref) && r.loose == s.loose
      && (NotLast(s, s.handles[h].ref) ==> Recounted(s, r, s.handles[h].ref, from.ref))
  {
    hide Valid, LetGo, SetSlot, AddTo, Repointed, Recounted;
    AssignOk(s, h, x);
    LetGoIs(s, h, s.handles[x].item, s.handles[x].ref);
    var r0 := LetGo(s, h);
    LetGoOk(s, h);
    LetGoShrinks(s, h);
    DetachOther(s, h, x);
    if r0.handles[x].ref.Some? {
      HasCounter(r0, x);
    }
    SetSlotKeeps(r0, h, s.handles[x].item, s.handles[x].ref);
    AddToIs(SetSlot(r0, h, s.handles[x].item, s.handles[x].ref), s.handles[x].ref);
    SameRepointed(s, SetSlot(r0, h, s.handles[x].item, s.handles[x].ref), Assign(s, h, x).state, h, s.handles[x].item,
                  s.handles[x].ref);
    if NotLast(s, s.handles[h].ref) {
      LetGoCounts(s, h);
      BothCounts(s, r0, SetSlot(r0, h, s.handles[x].item, s.handles[x].ref), Assign(s, h, x).state, s.handles[h].ref,
                 s.handles[x].ref);
    }
  }

  lemma DetachOther<C, H>(s: State<C, H>, h: H, x: H)
    requires h in s.handles && x in s.handles && h != x
    ensures x in Detach(s, h).handles && Detach(s, h).handles[x] == s.handles[x]
  {
  }

  lemma SameRepointed<C, H>(s: State<C, H>, r: State<C, H>, r': State<C, H>, h: H, item: Item, ref: Option<C>)
    requires h in s.handles && Repointed(s, r, h, item, ref) && r'.handles == r.handles
    ensures Repointed(s, r', h, item, ref)
  {
    hide Survives;
  }

  lemma BothCounts<C, H>(s: State<C, H>, r: State<C, H>, r1: State<C, H>, r2: State<C, H>, less: Option<C>,
                         more: Option<C>)
    requires Recounted(s, r, less, None) && r1.counters == r.counters && Recounted(r1, r2, None, more)
    ensures Recounted(s, r2, less, more)
  {
  }

  /** Binding to a new object: h has the object and the reference given, which is the program's no longer and is not
      counted again; only the reference that h held is given up. */
  lemma BindNewIs<C, H>(s: State<C, H>, h: H, item: Item, ref: Option<C>)
    requires Valid(s) && h in s.handles && BindNew(s, h, item, ref).Done?
    ensures var r := BindNew(s, h, item, ref).state;
      && Repointed(s, r, h, item, ref) && r.loose == s.loose - One(ref)
      && (NotLast(s, s.handles[h].ref) ==> Recounted(s, r, s.handles[h].ref, None))
  {
    hide Valid, LetGo, SetSlot, Repointed, Recounted;
    LetGoIs(s, h, item, ref);
    var r0, r := LetGo(s, h), BindNew(s, h, item, ref).state;
    SetSlotKeeps(r0, h, item, ref);
    SameRepointed(s, SetSlot(r0, h, item, ref), r, h, item, ref);
    if NotLast(s, s.handles[h].ref) {
      LetGoCounts(s, h);
      SameCounts(s, r0, r, s.handles[h].ref, None);
    }
  }

  /** The count of the counter given is as before, when it is not the one given up and nothing goes with that. */
  lemma BindNewCounts<C, H>(s: State<C, H>, h: H, item: Item, c: C)
    requires Valid(s) && h in s.handles && c in s.loose && BindNew(s, h, item, Some(c)).Done?
    requires s.handles[h].ref != Some(c) && NotLast(s, s.handles[h].ref)
    ensures c in s.counters
    ensures var r := BindNew(s, h, item, Some(c)).state; c in r.counters && r.counters[c].count == s.counters[c].count
  {
    BindNewIs(s, h, item, Some(c));
    LooseThere(s, c);
    hide Valid, BindNew, Repointed, NotLast;
  }

  // The handles on c that have gone.
  ghost function Lost<C, H>(s: State<C, H>, r: State<C, H>, c: C): set<H> {
    set h | h in s.handles && h !in r.handles && s.handles[h].ref == Some(c)
  }

  lemma HoldersLeft<C, H>(s: State<C, H>, r: State<C, H>, h: H, item: Item, ref: Option<C>, c: C)
    requires h in s.handles && Repointed(s, r, h, item, ref)
    ensures |Holders(r, c)| == |Holders(s, c)| - |Lost(s, r, c)|
      - (if s.handles[h].ref == Some(c) then 1 else 0) + if ref == Some(c) then 1 else 0
  {
    var others := Others(r, h, c);
    OthersAfter(s, r, h, item, ref, c);
    OthersBefore(s, r, h, item, ref, c);
    Adjoin(others, h, ref == Some(c));
    Adjoin(others + Lost(s, r, c), h, s.handles[h].ref == Some(c));
  }

  // The handles on c but h.
  ghost function Others<C, H>(r: State<C, H>, h: H, c: C): set<H> {
    set g | g in r.handles && g != h && r.handles[g].ref == Some(c)
  }

  lemma OthersAfter<C, H>(s: State<C, H>, r: State<C, H>, h: H, item: Item, ref: Option<C>, c: C)
    requires h in s.handles && Repointed(s, r, h, item, ref)
    ensures Holders(r, c) == Others(r, h, c) + if ref == Some(c) then {h} else {}
  {
  }

  lemma OthersBefore<C, H>(s: State<C, H>, r: State<C, H>, h: H, item: Item, ref: Option<C>, c: C)
    requires h in s.handles && Repointed(s, r, h, item, ref)
    ensures Holders(s, c) == Others(r, h, c) + Lost(s, r, c) + if s.handles[h].ref == Some(c) then {h} else {}
    ensures Others(r, h, c) !! Lost(s, r, c) && h !in Lost(s, r, c)
  {
    hide Survives;
  }

  lemma Adjoin<H>(a: set<H>, h: H, also: bool)
    requires h !in a
    ensures |a + if also then {h} else {}| == |a| + if also then 1 else 0
  {
    assert !also ==> a + {} == a;
  }

  /** Whatever goes with it: binding to a new object takes off a count the handles that were lost and the one that
      h gave up, and adds nothing. */
  lemma BindNewCount<C, H>(s: State<C, H>, h: H, item: Item, ref: Option<C>, c: C)
    requires Valid(s) && h in s.handles && (ref.Some? ==> ref.value in s.loose) && BindNew(s, h, item, ref).Done?
    requires c in s.counters && c in BindNew(s, h, item, ref).state.counters
    ensures var r := BindNew(s, h, item, ref).state;
      r.counters[c].count ==
      s.counters[c].count - |Lost(s, r, c)| - if s.handles[h].ref == Some(c) then 1 else 0
  {
    var r := BindNew(s, h, item, ref).state;
    BindNewIs(s, h, item, ref);
    BindNewOk(s, h, item, ref);
    HoldersLeft(s, r, h, item, ref, c);
    hide Wired, Repointed, BindNew, Survives, Holders, Lost;
  }

  /** Assignment does too, but for the one reference that it takes. */
  lemma AssignCount<C, H>(s: State<C, H>, h: H, x: H, c: C)
    requires Valid(s) && h in s.handles && x in s.handles && h != x && Assign(s, h, x).Done?
    requires c in s.counters && c in Assign(s, h, x).state.counters
    ensures var r := Assign(s, h, x).state;
      r.counters[c].count ==
      s.counters[c].count - |Lost(s, r, c)|
        - (if s.handles[h].ref == Some(c) then 1 else 0) + if s.handles[x].ref == Some(c) then 1 else 0
  {
    var r := Assign(s, h, x).state;
    AssignIs(s, h, x);
    AssignOk(s, h, x);
    HoldersLeft(s, r, h, s.handles[x].item, s.handles[x].ref, c);
    hide Wired, Repointed, Assign, Survives, Holders, Lost;
  }

  lemma LooseThere<C, H>(s: State<C, H>, c: C)
    requires Valid(s) && c in s.loose
    ensures c in s.counters
  {
  }

  lemma SameCounts<C, H>(s: State<C, H>, r: State<C, H>, r': State<C, H>, less: Option<C>, more: Option<C>)
    requires Recounted(s, r, less, more) && r'.counters == r.counters
    ensures Recounted(s, r', less, more)
  {
  }

  /** A counter that only h holds goes with h. */
  lemma LastGoes<C, H>(s: State<C, H>, h: H, c: C)
    requires Valid(s) && h in s.handles && s.handles[h].home == None && s.handles[h].ref == Some(c) && Held(s, c) == 1
    ensures c !in Kill(s, h).counters
  {
    var r := Kill(s, h);
    DestroyOk(s, h);
    hide Wired;
    assert Holders(s, c) == {h} by {
      assert h in Holders(s, c);
      SubsetIs({h}, Holders(s, c));
    }
    assert Holders(r, c) == {};
    assert s.loose[c] == 0 && r.loose == s.loose;
  }

  lemma SubsetIs<T>(a: set<T>, b: set<T>)
    requires a <= b && |b| <= |a|
    ensures a == b
  {
    assert b == a + (b - a);
  }

  lemma OnlyHolder<C, H>(s: State<C, H>, r: State<C, H>, h: H, item: Item, c: C)
    requires Valid(s) && h in s.handles && c !in s.counters
    requires Repointed(NewCounter(s, c), r, h, item, Some(c)) && r.loose == NewCounter(s, c).loose - multiset{c}
    ensures h in r.handles && r.handles[h].ref == Some(c) && r.handles[h].home == s.handles[h].home
    ensures Held(r, c) == 1 && c !in r.loose
  {
    assert c !in s.loose && forall g :: g in s.handles ==> s.handles[g].ref != Some(c);
    hide Valid, Survives;
    assert Holders(r, c) == {h};
  }

  /** Bound to a fresh counter, a variable is the only one to hold it: when it goes, so does the counter. */
  lemma BoundAlone<C, H>(s: State<C, H>, h: H, item: Item, c: C)
    requires Valid(s) && h in s.handles && s.handles[h].home == None && c !in s.counters
    ensures BindNew(NewCounter(s, c), h, item, Some(c)).Done?
    ensures var r := BindNew(NewCounter(s, c), h, item, Some(c)).state;
      && h in r.handles && r.handles[h].home == None && c in r.counters && r.counters[c].count == 1 == Held(r, c)
      && c !in Kill(r, h).counters
  {
    var s1 := NewCounter(s, c);
    NewCounterOk(s, c);
    NewCounterIs(s, c);
    hide Valid, BindNew, Repointed, Held, Kill;
    BindNewOk(s1, h, item, Some(c));
    BindNewIs(s1, h, item, Some(c));
    var r := BindNew(s1, h, item, Some(c)).state;
    OnlyHolder(s, r, h, item, c);
    CountIsHeld(r, h);
    LastGoes(r, h, c);
  }

  lemma CountIsHeld<C, H>(s: State<C, H>, h: H)
    requires Valid(s) && h in s.handles && s.handles[h].ref.Some?
    ensures var c := s.handles[h].ref.value; c in s.counters && s.counters[c].count == Held(s, c)
  {
    hide Held;
  }

  /** A new handle has the reference given, which is the program's no longer. */
  lemma MakeIs<C, H>(s: State<C, H>, h: H, item: Item, ref: Option<C>, home: Option<C>)
    requires h !in s.handles && (home.Some? ==> home.value in s.counters)
    ensures var r := Make(s, h, item, ref, home);
      && r.handles == s.handles[h := Slot(item, ref, home)] && r.loose == s.loose - One(ref)
      && Entered(s, r, h, None, home)
  {
    PlaceSlot(s, h, item, home, ref);
  }

  /** From s to r the buffer of home lists h too, and one more reference is counted. */
  ghost predicate Entered<C, H>(s: State<C, H>, r: State<C, H>, h: H, more: Option<C>, home: Option<C>) {
    && r.counters.Keys == s.counters.Keys
    && forall c :: c in s.counters ==>
      && r.counters[c].count == s.counters[c].count + (if more == Some(c) then 1 else 0)
      && r.counters[c].inner == s.counters[c].inner + if home == Some(c) then [h] else []
  }

  /** A copy has the item and the reference of x, which counts one more. */
  lemma CopyIs<C, H>(s: State<C, H>, h: H, x: H, home: Option<C>)
    requires Valid(s) && h !in s.handles && x in s.handles && (home.Some? ==> home.value in s.counters)
    requires s.handles[x].ref.Some? ==> s.handles[x].ref.value in s.counters
    ensures var r, from := Copy(s, h, x, home), s.handles[x];
      && r.handles == s.handles[h := Slot(from.item, from.ref, home)] && r.loose == s.loose
      && Entered(s, r, h, from.ref, home)
  {
    hide Valid;
    PlaceSlot(s, h, s.handles[x].item, home, s.handles[x].ref);
  }

  /** A variable that goes gives up its reference and no other. */
  lemma KillIs<C, H>(s: State<C, H>, h: H)
    requires h in s.handles
    ensures var r := Kill(s, h);
      && (forall g :: g in r.handles ==> g in s.handles && g != h && r.handles[g] == s.handles[g]) && r.loose == s.loose
      && (NotLast(s, s.handles[h].ref) ==>
            Recounted(s, r, s.handles[h].ref, None) && r.handles == s.handles - {h})
      && (s.handles[h].ref.Some? && !NotLast(s, s.handles[h].ref) && Counted(s, None) ==>
            s.handles[h].ref.value !in r.counters)
  {
  }

  /** The program takes a reference of its own, or gives one up. */
  lemma AddLooseIs<C, H>(s: State<C, H>, c: C)
    requires c in s.counters
    ensures var r := AddLoose(s, c);
      Recounted(s, r, None, Some(c)) && r.handles == s.handles && r.loose == s.loose + multiset{c}
  {
  }

  lemma DropLooseIs<C, H>(s: State<C, H>, c: C)
    requires c in s.counters
    ensures var r := DropLoose(s, c);
      && (forall g :: g in r.handles ==> g in s.handles && r.handles[g] == s.handles[g])
      && r.loose == s.loose - multiset{c}
      && (s.counters[c].count > 1 ==> Recounted(s, r, Some(c), None) && r.handles == s.handles)
      && (s.counters[c].count == 1 ==> c !in r.counters)
  {
  }
}
