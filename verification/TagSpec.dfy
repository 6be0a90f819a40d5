/** What a tag tree holds: the value of each stored tag, and which stored tags have a child listed.
    erase never takes a node off the list it is on, so a tag stays worn after its last child is
    gone, for as long as its own node lives. */
module TagSpec {
  import opened TagOrder

  datatype State<V> = State(vals: map<Tag, V>, worn: set<Tag>)

  datatype Op<V> =
    | Insert(t: Tag, x: V)
    | Subscript(t: Tag)
    | SubscriptAssign(t: Tag, x: V)
    | Erase(t: Tag)
    | Clear

  /** Create t with value x, and its missing ancestors with the default value. */
  function Grow<V>(s: State<V>, t: Tag, x: V, none: V): State<V>
    decreases |t|
  {
    if t in s.vals then s
    else if t == [] then State(s.vals[t := x], s.worn)
    else Grow(State(s.vals[t := x], s.worn + {Ancestor(t)}), Ancestor(t), none, none)
  }

  function EraseTag<V>(s: State<V>, t: Tag, none: V): State<V> {
    if t !in s.vals then s
    else if t in s.worn then State(s.vals[t := none], s.worn)
    else State(s.vals - {t}, s.worn)
  }

  function Start<V>(none: V): State<V> {
    State(map[[] := none], {})
  }

  function Step<V>(maxDepth: nat, none: V, s: State<V>, op: Op<V>): State<V> {
    match op
    case Insert(t, x) => Grow(s, Truncate(maxDepth, t), x, none)
    case Subscript(t) => Grow(s, Truncate(maxDepth, t), none, none)
    case SubscriptAssign(t, x) =>
      var r := Grow(s, Truncate(maxDepth, t), none, none);
      State(r.vals[Truncate(maxDepth, t) := x], r.worn)
    case Erase(t) => EraseTag(s, t, none)
    case Clear => State(map[], {})
  }

  function Run<V>(maxDepth: nat, none: V, s: State<V>, ops: seq<Op<V>>): State<V> {
    if ops == [] then s else Step(maxDepth, none, Run(maxDepth, none, s, ops[..|ops| - 1]), ops[|ops| - 1])
  }

  // ---------------------------------------------------------------- what every run keeps

  ghost predicate UpStored<V>(s: State<V>, u: Tag) {
    u in s.vals && u != [] ==> Ancestor(u) in s.vals && Ancestor(u) in s.worn
  }

  /** Stored tags are closed under ancestors, and exactly stored tags can be worn. */
  ghost predicate Closed<V>(s: State<V>) {
    s.worn <= s.vals.Keys && forall u :: UpStored(s, u)
  }

  function Parents(tags: set<Tag>): set<Tag> {
    set u | u in tags && u != [] :: Ancestor(u)
  }

  /** Exactly the ancestors of stored tags are worn. */
  ghost predicate Tight<V>(s: State<V>) {
    s.worn == Parents(s.vals.Keys)
  }

  function Chain(t: Tag): set<Tag>
    decreases |t|
  {
    {t} + if t == [] then {} else Chain(Ancestor(t))
  }

  /** The chain of t is t and its ancestors: whatever stands before a dot of t, and the root. */
  lemma {:induction false} ChainIs(t: Tag, u: Tag)
    ensures u in Chain(t) <==> Above(u, t)
    decreases |t|
  {
    if t != [] {
      ChainIs(Ancestor(t), u);
      if u != t {
        AboveAncestor(u, t);
      }
    }
  }

  lemma {:induction false} ChainStored<V>(s: State<V>, t: Tag)
    requires Closed(s) && t in s.vals
    ensures Chain(t) <= s.vals.Keys
    decreases |t|
  {
    if t != [] {
      assert UpStored(s, t);
      ChainStored(s, Ancestor(t));
    }
  }

  // Closed but for the tag `hole`, which may be missing though it is worn already.
  ghost predicate ClosedBut<V>(s: State<V>, hole: Tag) {
    && s.worn <= s.vals.Keys + {hole}
    && forall u :: u in s.vals && u != [] ==> Ancestor(u) in s.worn && (Ancestor(u) in s.vals || Ancestor(u) == hole)
  }

  lemma GrowOne<V>(s: State<V>, t: Tag, x: V)
    requires ClosedBut(s, t) && t !in s.vals && t != []
    ensures ClosedBut(State(s.vals[t := x], s.worn + {Ancestor(t)}), Ancestor(t))
  {
  }

  lemma {:induction false} GrowFrom<V>(s: State<V>, t: Tag, x: V, none: V)
    requires ClosedBut(s, t)
    ensures var r := Grow(s, t, x, none);
      && Closed(r)
      && r.vals.Keys == s.vals.Keys + Chain(t)
      && (forall u :: u in r.vals ==> r.vals[u] == if u in s.vals then s.vals[u] else if u == t then x else none)
    decreases |t|
  {
    if t in s.vals {
      forall u
        ensures UpStored(s, u)
      {
      }
      ChainStored(s, t);
      assert s.vals.Keys + Chain(t) == s.vals.Keys;
    } else if t == [] {
      var r := Grow(s, t, x, none);
      forall u
        ensures UpStored(r, u)
      {
      }
    } else {
      GrowOne(s, t, x);
      var s1 := State(s.vals[t := x], s.worn + {Ancestor(t)});
      GrowFrom(s1, Ancestor(t), none, none);
    }
  }

  lemma ParentListed(tags: set<Tag>, u: Tag)
    requires u in tags && u != []
    ensures Ancestor(u) in Parents(tags)
  {
  }

  lemma {:induction false} GrowWorn<V>(s: State<V>, t: Tag, x: V, none: V)
    requires s.worn <= Parents(s.vals.Keys)
    ensures Grow(s, t, x, none).worn <= Parents(Grow(s, t, x, none).vals.Keys)
    decreases |t|
  {
    var s1 := State(s.vals[t := x], s.worn);
    assert s.vals.Keys <= s1.vals.Keys;
    if t !in s.vals && t != [] {
      ParentListed(s1.vals.Keys, t);
      GrowWorn(State(s1.vals, s.worn + {Ancestor(t)}), Ancestor(t), none, none);
    }
  }

  lemma ClosedTight<V>(s: State<V>)
    requires Closed(s) && s.worn <= Parents(s.vals.Keys)
    ensures Tight(s)
  {
    forall p | p in Parents(s.vals.Keys)
      ensures p in s.worn
    {
      var u :| u in s.vals && u != [] && Ancestor(u) == p;
      assert UpStored(s, u);
    }
  }

  /** Inserting adds the tag and its missing ancestors, changes no stored value, and keeps the tree closed. */
  lemma GrowIs<V>(s: State<V>, t: Tag, x: V, none: V)
    requires Closed(s)
    ensures var r := Grow(s, t, x, none);
      && Closed(r)
      && r.vals.Keys == s.vals.Keys + Chain(t)
      && (forall u :: u in r.vals ==> r.vals[u] == if u in s.vals then s.vals[u] else if u == t then x else none)
      && (Tight(s) ==> Tight(r))
  {
    assert ClosedBut(s, t) by {
      forall u | u in s.vals && u != []
        ensures Ancestor(u) in s.worn && Ancestor(u) in s.vals
      {
        assert UpStored(s, u);
      }
    }
    GrowFrom(s, t, x, none);
    if Tight(s) {
      GrowWorn(s, t, x, none);
      ClosedTight(Grow(s, t, x, none));
    }
  }

  lemma EraseClosed<V>(s: State<V>, t: Tag, none: V)
    requires Closed(s)
    ensures Closed(EraseTag(s, t, none))
  {
    forall u
      ensures UpStored(EraseTag(s, t, none), u)
    {
      assert UpStored(s, u);
    }
  }

  lemma TagStored(t: Tag)
    ensures t in Chain(t)
  {
  }

  lemma StepClosed<V>(maxDepth: nat, none: V, s: State<V>, op: Op<V>)
    requires Closed(s)
    ensures Closed(Step(maxDepth, none, s, op))
    ensures !op.Erase? && Tight(s) ==> Tight(Step(maxDepth, none, s, op))
  {
    match op
    case Insert(t, x) => GrowIs(s, Truncate(maxDepth, t), x, none);
    case Subscript(t) => GrowIs(s, Truncate(maxDepth, t), none, none);
    case SubscriptAssign(t, x) =>
      var t' := Truncate(maxDepth, t);
      var r := Grow(s, t', none, none);
      GrowIs(s, t', none, none);
      TagStored(t');
      var r' := State(r.vals[t' := x], r.worn);
      assert r'.vals.Keys == r.vals.Keys;
      forall u
        ensures UpStored(r', u)
      {
        assert UpStored(r, u);
      }
    case Erase(t) => EraseClosed(s, t, none);
    case Clear =>
  }

  /** Over every run from a closed tree the stored tags are closed under ancestors; while nothing is
      erased, exactly the ancestors of stored tags are worn. */
  lemma {:induction false} RunClosed<V>(maxDepth: nat, none: V, s: State<V>, ops: seq<Op<V>>)
    requires Closed(s)
    ensures Closed(Run(maxDepth, none, s, ops))
    ensures (forall i :: 0 <= i < |ops| ==> !ops[i].Erase?) && Tight(s) ==> Tight(Run(maxDepth, none, s, ops))
  {
    if ops != [] {
      RunClosed(maxDepth, none, s, ops[..|ops| - 1]);
      StepClosed(maxDepth, none, Run(maxDepth, none, s, ops[..|ops| - 1]), ops[|ops| - 1]);
    }
  }

  lemma StartClosed<V>(none: V)
    ensures Closed(Start(none)) && Tight(Start(none))
  {
    forall u
      ensures UpStored(Start(none), u)
    {
    }
    assert Parents({[]}) == {};
  }

  // ---------------------------------------------------------------- erasing

  /** Erasing takes a stored tag away exactly when it is not worn. */
  lemma EraseIff<V>(s: State<V>, t: Tag, none: V)
    requires t in s.vals
    ensures t !in EraseTag(s, t, none).vals <==> t !in s.worn
  {
  }

  /** An erased tag that lists children loses its value and stays; any other goes.  Nothing else changes. */
  lemma EraseIs<V>(s: State<V>, t: Tag, none: V)
    ensures var r := EraseTag(s, t, none);
      && r.vals.Keys == (if t in s.worn then s.vals.Keys else s.vals.Keys - {t}) && r.worn == s.worn
      && (forall u :: u in r.vals && u != t ==> r.vals[u] == s.vals[u])
      && (t in r.vals ==> r.vals[t] == none)
  {
    assert t !in s.vals ==> s.vals.Keys - {t} == s.vals.Keys;
  }

  /** While nothing was erased before, that is exactly when no stored tag lies below it. */
  lemma EraseLeaf<V>(s: State<V>, t: Tag, none: V)
    requires Closed(s) && Tight(s) && t in s.vals
    ensures t !in EraseTag(s, t, none).vals <==> forall u :: u in s.vals && u != t ==> t !in Chain(u)
  {
    if t in s.worn {
      var u :| u in s.vals && u != [] && Ancestor(u) == t;
      TagStored(t);
      assert t in Chain(u) && u != t;
    } else {
      forall u | u in s.vals && u != t
        ensures t !in Chain(u)
      {
        NotAbove(s, t, u);
      }
    }
  }

  lemma {:induction false} NotAbove<V>(s: State<V>, t: Tag, u: Tag)
    requires Closed(s) && t !in s.worn && u in s.vals && u != t
    ensures t !in Chain(u)
    decreases |u|
  {
    if u != [] {
      assert UpStored(s, u);
      NotAbove(s, t, Ancestor(u));
    }
  }

  // In one step from a to b a child of t was made.
  ghost predicate MadeChild<V>(a: State<V>, b: State<V>, t: Tag) {
    t in Parents(b.vals.Keys - a.vals.Keys)
  }

  /** t is stored, and a child of t was made while its present node was there. */
  ghost predicate HadChild<V>(maxDepth: nat, none: V, s: State<V>, ops: seq<Op<V>>, t: Tag)
    decreases |ops|
  {
    if ops == [] then t in s.worn
    else
      var a, b := Run(maxDepth, none, s, ops[..|ops| - 1]), Run(maxDepth, none, s, ops);
      t in b.vals && (MadeChild(a, b, t) || HadChild(maxDepth, none, s, ops[..|ops| - 1], t))
  }

  lemma {:induction false} GrowWornIs<V>(s: State<V>, t: Tag, x: V, none: V)
    ensures s.vals.Keys <= Grow(s, t, x, none).vals.Keys
    ensures Grow(s, t, x, none).worn == s.worn + Parents(Grow(s, t, x, none).vals.Keys - s.vals.Keys)
    decreases |t|
  {
    var r := Grow(s, t, x, none);
    if t in s.vals {
      assert r.vals.Keys - s.vals.Keys == {};
    } else if t == [] {
      assert r.vals.Keys - s.vals.Keys == {t};
    } else {
      var s1 := State(s.vals[t := x], s.worn + {Ancestor(t)});
      GrowWornIs(s1, Ancestor(t), none, none);
      ParentsMore(r.vals.Keys - s1.vals.Keys, t);
      assert r.vals.Keys - s.vals.Keys == (r.vals.Keys - s1.vals.Keys) + {t};
    }
  }

  lemma ParentsMore(tags: set<Tag>, t: Tag)
    requires t != []
    ensures Parents(tags + {t}) == Parents(tags) + {Ancestor(t)}
  {
    forall p | p in Parents(tags) + {Ancestor(t)}
      ensures p in Parents(tags + {t})
    {
      if p == Ancestor(t) {
        ParentListed(tags + {t}, t);
      }
    }
  }

  lemma StepWorn<V>(maxDepth: nat, none: V, s: State<V>, op: Op<V>, t: Tag)
    requires Closed(s)
    ensures var r := Step(maxDepth, none, s, op);
      t in r.worn <==> t in r.vals && (MadeChild(s, r, t) || t in s.worn)
  {
    StepClosed(maxDepth, none, s, op);
    hide Closed, UpStored, Grow;
    WornStored(s);
    WornStored(Step(maxDepth, none, s, op));
    match op
    case Insert(u, x) => GrowWornIs(s, Truncate(maxDepth, u), x, none);
    case Subscript(u) => GrowWornIs(s, Truncate(maxDepth, u), none, none);
    case SubscriptAssign(u, x) =>
      var u' := Truncate(maxDepth, u);
      var r := Grow(s, u', none, none);
      GrowWornIs(s, u', none, none);
      GrowIs(s, u', none, none);
      TagStored(u');
      assert r.vals[u' := x].Keys == r.vals.Keys;
    case Erase(u) => assert EraseTag(s, u, none).vals.Keys - s.vals.Keys == {};
    case Clear =>
  }

  lemma WornStored<V>(s: State<V>)
    requires Closed(s)
    ensures s.worn <= s.vals.Keys
  {
  }

  /** Over every run, erase takes a stored tag away exactly when no child was ever made below its present node. */
  lemma {:induction false} RunWorn<V>(maxDepth: nat, none: V, s: State<V>, ops: seq<Op<V>>, t: Tag)
    requires Closed(s)
    ensures t in Run(maxDepth, none, s, ops).worn <==> HadChild(maxDepth, none, s, ops, t)
    ensures var r := Run(maxDepth, none, s, ops);
      t in r.vals ==> (t !in EraseTag(r, t, none).vals <==> !HadChild(maxDepth, none, s, ops, t))
  {
    if ops != [] {
      var before := ops[..|ops| - 1];
      RunWorn(maxDepth, none, s, before, t);
      RunClosed(maxDepth, none, s, before);
      StepWorn(maxDepth, none, Run(maxDepth, none, s, before), ops[|ops| - 1], t);
    }
  }

  // ---------------------------------------------------------------- what a run has stored

  /** Whether t is stored after a run: as the last call that concerns it left it. */
  ghost predicate Stored<V>(maxDepth: nat, none: V, s: State<V>, ops: seq<Op<V>>, t: Tag)
    decreases |ops|
  {
    if ops == [] then t in s.vals
    else
      var before := ops[..|ops| - 1];
      match ops[|ops| - 1]
      case Insert(u, _) => Stored(maxDepth, none, s, before, t) || Above(t, Truncate(maxDepth, u))
      case Subscript(u) => Stored(maxDepth, none, s, before, t) || Above(t, Truncate(maxDepth, u))
      case SubscriptAssign(u, _) => Stored(maxDepth, none, s, before, t) || Above(t, Truncate(maxDepth, u))
      case Erase(u) => Stored(maxDepth, none, s, before, t) && (t == u ==> HadChild(maxDepth, none, s, before, t))
      case Clear => false
  }

  /** The value t has after a run: the one it was first inserted or last assigned with, or the default if it was
      erased since, or made by operator[] or as an ancestor. */
  ghost function LastValue<V>(maxDepth: nat, none: V, s: State<V>, ops: seq<Op<V>>, t: Tag): V
    decreases |ops|
  {
    if ops == [] then if t in s.vals then s.vals[t] else none
    else
      var before, op := ops[..|ops| - 1], ops[|ops| - 1];
      var was := if Stored(maxDepth, none, s, before, t) then LastValue(maxDepth, none, s, before, t) else none;
      match op
      case Insert(u, x) => if t == Truncate(maxDepth, u) && !Stored(maxDepth, none, s, before, t) then x else was
      case Subscript(u) => was
      case SubscriptAssign(u, x) => if t == Truncate(maxDepth, u) then x else was
      case Erase(u) => if t == u then none else was
      case Clear => none
  }

  lemma StepStores<V>(maxDepth: nat, none: V, s: State<V>, op: Op<V>, t: Tag)
    requires Closed(s)
    ensures var r := Step(maxDepth, none, s, op); var was := if t in s.vals then s.vals[t] else none;
      match op
      case Insert(u, x) =>
        && (t in r.vals <==> t in s.vals || Above(t, Truncate(maxDepth, u)))
        && (t in r.vals ==> r.vals[t] == if t == Truncate(maxDepth, u) && t !in s.vals then x else was)
      case Subscript(u) =>
        (t in r.vals <==> t in s.vals || Above(t, Truncate(maxDepth, u))) && (t in r.vals ==> r.vals[t] == was)
      case SubscriptAssign(u, x) =>
        && (t in r.vals <==> t in s.vals || Above(t, Truncate(maxDepth, u)))
        && (t in r.vals ==> r.vals[t] == if t == Truncate(maxDepth, u) then x else was)
      case Erase(u) =>
        && (t in r.vals <==> t in s.vals && (t == u ==> t in s.worn))
        && (t in r.vals ==> r.vals[t] == if t == u then none else was)
      case Clear => t !in r.vals
  {
    hide Closed, Above, Truncate;
    match op
    case Insert(u, x) =>
      GrowIs(s, Truncate(maxDepth, u), x, none);
      ChainIs(Truncate(maxDepth, u), t);
    case Subscript(u) =>
      GrowIs(s, Truncate(maxDepth, u), none, none);
      ChainIs(Truncate(maxDepth, u), t);
    case SubscriptAssign(u, x) =>
      GrowIs(s, Truncate(maxDepth, u), none, none);
      ChainIs(Truncate(maxDepth, u), t);
      TagStored(Truncate(maxDepth, u));
    case Erase(u) => EraseIs(s, u, none);
    case Clear =>
  }

  /** What a run has stored, and with which values. */
  lemma {:induction false} RunStores<V>(maxDepth: nat, none: V, s: State<V>, ops: seq<Op<V>>, t: Tag)
    requires Closed(s)
    ensures t in Run(maxDepth, none, s, ops).vals <==> Stored(maxDepth, none, s, ops, t)
    ensures t in Run(maxDepth, none, s, ops).vals ==>
      Run(maxDepth, none, s, ops).vals[t] == LastValue(maxDepth, none, s, ops, t)
  {
    hide Closed, HadChild, Step, Above;
    if ops != [] {
      var before := ops[..|ops| - 1];
      RunStores(maxDepth, none, s, before, t);
      RunClosed(maxDepth, none, s, before);
      RunWorn(maxDepth, none, s, before, t);
      StepStores(maxDepth, none, Run(maxDepth, none, s, before), ops[|ops| - 1], t);
    }
  }

  /** An inner tag that is erased loses the value it was given, and stays: a after a.b was inserted below it. */
  lemma ErasedInner<V>(maxDepth: nat, none: V, x: V, y: V)
    requires maxDepth == 0
    ensures var a, ab := [97], [97, DOT, 98];
      && Run(maxDepth, none, Start(none), [Insert(a, x), Insert(ab, y)]).vals == map[[] := none, a := x, ab := y]
      && Run(maxDepth, none, Start(none), [Insert(a, x), Insert(ab, y), Erase(a)]).vals ==
         map[[] := none, a := none, ab := y]
  {
    var a, ab: Tag := [97], [97, DOT, 98];
    var ops := [Insert(a, x), Insert(ab, y), Erase(a)];
    assert ops[..2] == [Insert(a, x), Insert(ab, y)] && ops[..2][..1] == [Insert(a, x)];
    assert [Insert(a, x)][..0] == [] && Run(maxDepth, none, Start(none), []) == Start(none);
    AncestorDropsComponent(a);
    AncestorDropsComponent(ab);
    assert ab[1] == DOT && ab[..1] == a;
    assert Ancestor(ab) == a && Ancestor(a) == [];
    var s1 := State(map[[] := none, a := x], {[]});
    var s2 := State(map[[] := none, a := x, ab := y], {[], a});
    assert Start(none).vals[a := x] == s1.vals && Start(none).worn + {[]} == s1.worn;
    assert s1.vals[ab := y] == s2.vals && s1.worn + {a} == s2.worn;
    assert Grow(Start(none), a, x, none) == Grow(s1, [], none, none) == s1;
    assert Grow(s1, ab, y, none) == Grow(s2, a, none, none) == s2;
    assert Run(maxDepth, none, Start(none), [Insert(a, x)]) == s1;
    assert Run(maxDepth, none, Start(none), ops[..2]) == s2;
  }

  /** Otherwise it may stay with nothing below it: after a.b is erased, erasing a leaves a behind. */
  lemma WornOut<V>(maxDepth: nat, none: V, x: V)
    requires maxDepth == 0
    ensures var a, ab := [97], [97, DOT, 98];
      var s := Run(maxDepth, none, Start(none), [Insert(ab, x), Erase(ab), Erase(a)]);
      s.vals == map[[] := none, a := none] && a in s.worn
  {
    var a, ab: Tag := [97], [97, DOT, 98];
    var ops := [Insert(ab, x), Erase(ab), Erase(a)];
    assert ops[..2] == [Insert(ab, x), Erase(ab)] && ops[..2][..1] == [Insert(ab, x)];
    assert [Insert(ab, x)][..0] == [] && Run(maxDepth, none, Start(none), []) == Start(none);
    AncestorDropsComponent(a);
    AncestorDropsComponent(ab);
    assert ab[1] == DOT && ab[..1] == a;
    assert Ancestor(ab) == a && Ancestor(a) == [];
    var s1 := Grow(Start(none), ab, x, none);
    var s2 := State(map[[] := none, ab := x], {a});
    var s3 := State(map[[] := none, ab := x, a := none], {a, []});
    assert Start(none).worn + {a} == s2.worn && s2.worn + {[]} == s3.worn;
    assert Start(none).vals[ab := x] == s2.vals && s2.vals[a := none] == s3.vals;
    assert s1 == Grow(s2, a, none, none) && Grow(s2, a, none, none) == Grow(s3, [], none, none) == s3;
    assert Run(maxDepth, none, Start(none), [Insert(ab, x)]) == s1;
    assert Run(maxDepth, none, Start(none), ops[..2]) == State(map[[] := none, a := none], {a, []});
  }
}
