/** Oscl_Rb_Tree: search, insertion and erasure by key over the linked nodes. */
module RbTree {
  import opened SeqEdits
  import opened RbLinks
  import opened RbColors
  import opened RbSteps
  import opened RbClone
  import opened RbSearch
  import opened RbBase
  import SortedMap

  type Entry = (Key, Val)

  ghost function Entries(s: seq<Node>): (e: seq<Entry>)
    reads s
    ensures |e| == |s| && forall i :: 0 <= i < |s| ==> e[i] == (s[i].key, s[i].val)
  {
    if s == [] then [] else Entries(s[..|s| - 1]) + [(s[|s| - 1].key, s[|s| - 1].val)]
  }

  /** A bound found among the nodes is the bound among the entries. */
  lemma BoundIsLower(less: Less, s: seq<Node>, k: Key, i: int)
    requires Bound(less, false, s, k, i, i)
    ensures SortedMap.IsLower(less, Entries(s), k, i)
  {
  }

  lemma BoundIsUpper(less: Less, s: seq<Node>, k: Key, i: int)
    requires Bound(less, true, s, k, i, i)
    ensures SortedMap.IsUpper(less, Entries(s), k, i)
  {
  }

  lemma FitsIsNew(less: Less, s: seq<Node>, k: Key, i: int)
    requires SortedMap.StrictWeak(less) && Rising(less, s) && Fits(less, s, k, i)
    ensures SortedMap.LowerIndex(less, Entries(s), k) == i && !SortedMap.Has(less, Entries(s), k)
  {
    var e := Entries(s);
    forall j | i <= j < |e|
      ensures !less(e[j].0, k)
    {
      assert SortedMap.Lawful(less, k, e[j].0, k);
    }
    SortedMap.LowerUnique(less, Entries(s), k, i);
  }

  lemma FoundIs(less: Less, s: seq<Node>, k: Key, u: int)
    requires SortedMap.StrictWeak(less) && Rising(less, s) && Bound(less, true, s, k, u, u)
    requires u > 0 && !less(s[u - 1].key, k)
    ensures SortedMap.Has(less, Entries(s), k) && SortedMap.LowerIndex(less, Entries(s), k) == u - 1
  {
    var e := Entries(s);
    assert SortedMap.IsLower(less, e, k, u - 1) by {
      forall j | u - 1 <= j < |e|
        ensures !less(e[j].0, k)
      {
        assert SortedMap.Lawful(less, k, e[j].0, k);
      }
      forall j | 0 <= j < u - 1
        ensures less(e[j].0, k)
      {
        assert SortedMap.Lawful(less, s[j].key, k, s[u - 1].key);
      }
    }
    SortedMap.LowerUnique(less, e, k, u - 1);
  }

  lemma InsertRises(less: Less, s: seq<Node>, i: int, z: Node)
    requires Rising(less, s) && Fits(less, s, z.key, i)
    ensures Rising(less, InsertAt(s, i, z))
    ensures Entries(InsertAt(s, i, z)) == InsertAt(Entries(s), i, (z.key, z.val))
  {
  }

  lemma IndexAt(m: Mem, h: Node, s: seq<Node>, i: int, n: Node)
    requires Sound(m, h, s) && 0 <= i < |s| && s[i] == n
    ensures n in m && Index(m, h, s, n) == i
  {
  }

  lemma RemoveRises(less: Less, s: seq<Node>, i: int)
    requires Rising(less, s) && 0 <= i < |s|
    ensures Rising(less, RemoveAt(s, i))
  {
    var r := RemoveAt(s, i);
    forall a, b | 0 <= a < b < |r|
      ensures less(r[a].key, r[b].key)
    {
      var a', b' := if a < i then a else a + 1, if b < i then b else b + 1;
      assert r[a] == s[a'] && r[b] == s[b'];
    }
  }

  lemma EntriesCut(s: seq<Node>, a: int, b: int)
    requires 0 <= a <= b <= |s|
    ensures Entries(s[..a] + s[b..]) == Entries(s)[..a] + Entries(s)[b..]
  {
    hide Entries;
    EntriesPlus(s[..a], s[b..]);
    EntriesPart(s, 0, a);
    EntriesPart(s, b, |s|);
  }

  lemma EntriesPlus(s: seq<Node>, t: seq<Node>)
    ensures Entries(s + t) == Entries(s) + Entries(t)
  {
    hide Entries;
  }

  lemma EntriesPart(s: seq<Node>, a: int, b: int)
    requires 0 <= a <= b <= |s|
    ensures Entries(s[a..b]) == Entries(s)[a..b]
  {
    hide Entries;
  }

  twostate lemma EntriesKept(s: seq<Node>)
    requires forall n :: n in s ==> n.val == old(n.val)
    ensures Entries(s) == old(Entries(s))
  {
    assert forall i :: 0 <= i < |s| ==> s[i] in s;
  }

  lemma Unrepeated(m: Mem, h: Node, s: seq<Node>)
    requires Ordered(m, h, s)
    ensures forall i, j :: 0 <= i < j <= |s| ==> NodeAt(h, s, i) != NodeAt(h, s, j)
  {
  }

  // With s[a..i] already erased, s[i] is next and leaves from position a.
  lemma CutStep(m: Mem, h: Node, s: seq<Node>, t: seq<Node>, a: int, i: int)
    requires 0 <= a <= i < |s| && t == s[..a] + s[i..] && Ordered(m, h, t)
    ensures s[i] in m && s[i] != h && m[s[i]].pos == a < |t|
    ensures NodeAt(h, t, a + 1) == NodeAt(h, s, i + 1) && RemoveAt(t, a) == s[..a] + s[i + 1..]
  {
    assert t[a] == s[i];
  }

  lemma CopyRises(less: Less, s: seq<Node>, t: seq<Node>)
    requires Rising(less, s) && |t| == |s|
    requires forall i :: 0 <= i < |t| ==> t[i].key == s[i].key && t[i].val == s[i].val
    ensures Rising(less, t) && Entries(t) == Entries(s)
  {
    hide Entries;
    forall i, j | 0 <= i < j < |t|
      ensures less(t[i].key, t[j].key)
    {
      assert less(s[i].key, s[j].key);
    }
  }

  // The nodes of a tree are those in its order, and the header.
  lemma AllNodes(m: Mem, h: Node, s: seq<Node>)
    requires Shaped(m, h, s)
    ensures Part(s, 0, |s|) <= m.Keys && m.Keys - Part(s, 0, |s|) == {h}
  {
    forall n | n in m && n != h
      ensures n in Part(s, 0, |s|)
    {
      NearOf(m, h, s, n);
    }
  }

  // The nodes at positions lo..hi.
  ghost function Part(s: seq<Node>, lo: int, hi: int): set<Node>
    requires 0 <= lo <= hi <= |s|
  {
    set i | lo <= i < hi :: s[i]
  }

  // No node stands at two positions.
  lemma PartSplit(m: Mem, h: Node, s: seq<Node>, lo: int, p: int, hi: int)
    requires Ordered(m, h, s) && 0 <= lo <= p < hi <= |s|
    ensures Part(s, lo, hi) == Part(s, lo, p) + {s[p]} + Part(s, p + 1, hi)
    ensures s[p] !in Part(s, p + 1, hi) && Part(s, lo, p) !! {s[p]} + Part(s, p + 1, hi)
  {
  }

  lemma PartJoin(s: seq<Node>, p: int, top: int, hi: int)
    requires 0 <= p < top <= hi <= |s|
    ensures Part(s, p, hi) == {s[p]} + Part(s, p + 1, top) + Part(s, top, hi)
  {
  }

  lemma NoPart(s: seq<Node>, lo: int)
    requires 0 <= lo <= |s|
    ensures Part(s, lo, lo) == {}
  {
  }

  class Tree {
    const base: Base
    var less: Less
    var nodeCount: int
    ghost var live: set<Node>

    ghost predicate Valid()
      reads this, base, base.mem.Keys
    {
      && base.Sync() && Sound(base.mem, base.header, base.order)
      && SortedMap.StrictWeak(less)
      && Rising(less, base.order)
      && nodeCount == |base.order|
      && live == base.mem.Keys
    }

    /** The entries in iteration order. */
    ghost function Contents(): seq<Entry>
      reads base`order, base.order
    {
      Entries(base.order)
    }

    // The position of an iterator that holds n; the header is past the end.
    ghost function Pos(n: Node): int
      requires n in base.mem
      reads base`mem, base`order
    {
      Index(base.mem, base.header, base.order, n)
    }

    constructor (less: Less)
      requires SortedMap.StrictWeak(less)
      ensures Valid() && Contents() == [] && this.less == less && fresh(base) && fresh(base.mem.Keys)
    {
      base := new Base();
      this.less := less;
      nodeCount := 0;
      live := {};
      new;
      live := base.mem.Keys;
    }

    method Begin() returns (r: Node)
      requires Valid()
      ensures r in base.mem && Pos(r) == 0 && r == NodeAt(base.header, base.order, 0)
    {
      r := base.GetKid(base.header, Left);
      if base.order != [] {
        NearOf(base.mem, base.header, base.order, r);
      }
    }

    method LowerBound(k: Key) returns (y: Node)
      requires Valid()
      ensures y in base.mem && SortedMap.IsLower(less, Contents(), k, Pos(y))
    {
      ghost var m, h, s := base.mem, base.header, base.order;
      ghost var lo, hi := 0, |s|;
      RootSpans(m, h, s);
      y := base.header;
      var x := base.GetParent(base.header);
      while x != null
        invariant Bound(less, false, s, k, lo, hi) && Spans(m, h, x, lo, hi) && y == NodeAt(h, s, hi)
        decreases hi - lo
      {
        BoundStep(less, false, m, h, s, k, x, lo, hi);
        if !less(x.key, k) {
          hi := m[x].pos;
          y := x;
          x := base.GetKid(x, Left);
        } else {
          lo := m[x].pos + 1;
          x := base.GetKid(x, Right);
        }
      }
      BoundIsLower(less, s, k, lo);
    }

    method UpperBound(k: Key) returns (y: Node)
      requires Valid()
      ensures y in base.mem && SortedMap.IsUpper(less, Contents(), k, Pos(y))
    {
      ghost var m, h, s := base.mem, base.header, base.order;
      ghost var lo, hi := 0, |s|;
      RootSpans(m, h, s);
      y := base.header;
      var x := base.GetParent(base.header);
      while x != null
        invariant Bound(less, true, s, k, lo, hi) && Spans(m, h, x, lo, hi) && y == NodeAt(h, s, hi)
        decreases hi - lo
      {
        BoundStep(less, true, m, h, s, k, x, lo, hi);
        if less(k, x.key) {
          hi := m[x].pos;
          y := x;
          x := base.GetKid(x, Left);
        } else {
          lo := m[x].pos + 1;
          x := base.GetKid(x, Right);
        }
      }
      BoundIsUpper(less, s, k, lo);
    }

    /** find: the entry with a key equivalent to k, or end(). */
    method Find(k: Key) returns (j: Node)
      requires Valid()
      ensures j in base.mem && (j != base.header <==> SortedMap.Has(less, Contents(), k))
      ensures j != base.header ==> Pos(j) == SortedMap.LowerIndex(less, Contents(), k)
    {
      j := LowerBound(k);
      LowerOf(k, Pos(j));
      IndexOf(base.mem, base.header, base.order, j);
      if j != base.header && less(k, j.key) {
        j := base.header;
      }
    }

    lemma LowerOf(k: Key, i: int)
      requires Valid() && SortedMap.IsLower(less, Contents(), k, i)
      ensures i == SortedMap.LowerIndex(less, Contents(), k)
    {
      SortedMap.LowerUnique(less, Contents(), k, i);
    }

    // The descent of insert_unique: the leaf place at the upper bound of k.
    method Descend(k: Key) returns (y: Node, comp: bool)
      requires Valid()
      ensures y in base.mem && Free(base.mem, base.header, y, if comp then Left else Right)
      ensures var u := LeafPos(base.mem, base.header, y, if comp then Left else Right);
        Bound(less, true, base.order, k, u, u)
      ensures y == base.header <==> base.order == []
      ensures y != base.header ==> comp == less(k, y.key)
    {
      ghost var m, h, s := base.mem, base.header, base.order;
      ghost var lo, hi := 0, |s|;
      RootSpans(m, h, s);
      y := base.header;
      var x := base.GetParent(base.header);
      comp := true;
      while x != null
        invariant Bound(less, true, s, k, lo, hi)
        invariant Place(m, h, s, x, y, if comp then Left else Right, lo, hi)
        invariant y != h ==> comp == less(k, y.key)
        decreases hi - lo
      {
        BoundStep(less, true, m, h, s, k, x, lo, hi);
        y := x;
        comp := less(k, x.key);
        if comp {
          hi := m[x].pos;
          x := base.GetKid(x, Left);
        } else {
          lo := m[x].pos + 1;
          x := base.GetKid(x, Right);
        }
      }
      if y != h {
        NonEmpty(m, h, s, y);
      }
    }

    /** insert(x, y, v): hang a new node on y, on the left when x is given or y is the header. */
    method Insert(x: Node?, y: Node, k: Key, v: Val) returns (z: Node)
      requires Valid() && y in base.mem
      requires var d := if y == base.header || x != null || less(k, y.key) then Left else Right;
        Free(base.mem, base.header, y, d) && Fits(less, base.order, k, LeafPos(base.mem, base.header, y, d))
      modifies `nodeCount, `live, base`mem, base`order
      modifies base.mem.Keys`color, base.mem.Keys`parent, base.mem.Keys`left, base.mem.Keys`right
      ensures Valid() && fresh(z) && base.mem.Keys == old(base.mem.Keys) + {z}
      ensures var i := SortedMap.LowerIndex(less, old(Contents()), k);
        !SortedMap.Has(less, old(Contents()), k) && base.order == InsertAt(old(base.order), i, z) &&
        Contents() == InsertAt(old(Contents()), i, (k, v)) && z != base.header && Pos(z) == i
    {
      var d := if y == base.header || x != null || less(k, y.key) then Left else Right;
      ghost var s, i := base.order, LeafPos(base.mem, base.header, y, d);
      FitsIsNew(less, s, k, i);
      z := new Node(k, v);
      AddNode(y, d, z);
      EntriesKept(s);
      InsertRises(less, s, i, z);
    }

    method AddNode(y: Node, d: Dir, z: Node)
      requires Valid() && y in base.mem && z !in base.mem && Free(base.mem, base.header, y, d)
      requires Fits(less, base.order, z.key, LeafPos(base.mem, base.header, y, d))
      modifies `nodeCount, `live, base`mem, base`order
      modifies base.mem.Keys`color, base.mem.Keys`parent, base.mem.Keys`left, base.mem.Keys`right
      modifies z`color, z`parent, z`left, z`right
      ensures Valid() && base.mem.Keys == old(base.mem.Keys) + {z}
      ensures var i := LeafPos(old(base.mem), base.header, y, d);
        0 <= i <= |old(base.order)| && base.order == InsertAt(old(base.order), i, z) && Pos(z) == i
    {
      hide Sound, Rising, Index, Entries;
      ghost var s, i := base.order, LeafPos(base.mem, base.header, y, d);
      base.Attach(y, d, z);
      nodeCount := nodeCount + 1;
      live := live + {z};
      IndexAt(base.mem, base.header, base.order, i, z);
      InsertRises(less, s, i, z);
    }

    /** insert_unique(v): the position of k's entry, and whether it is new. */
    method InsertUnique(k: Key, v: Val) returns (j: Node, added: bool)
      requires Valid()
      modifies `nodeCount, `live, base`mem, base`order
      modifies base.mem.Keys`color, base.mem.Keys`parent, base.mem.Keys`left, base.mem.Keys`right
      ensures Valid() && fresh(base.mem.Keys - old(base.mem.Keys))
      ensures Contents() == SortedMap.Insert(less, old(Contents()), k, v)
      ensures added == !SortedMap.Has(less, old(Contents()), k)
      ensures added ==> base.order == InsertAt(old(base.order), SortedMap.LowerIndex(less, old(Contents()), k), j)
      ensures !added ==> base.order == old(base.order)
      ensures j in base.mem && j != base.header && Pos(j) == SortedMap.LowerIndex(less, old(Contents()), k)
    {
      hide Sound, SortedMap.StrictWeak, Entries, Base.Sync, Rising;
      var y, comp := Descend(k);
      ghost var d := if comp then Left else Right;
      ghost var s, u := base.order, LeafPos(base.mem, base.header, y, d);
      var before := Preceding(y, comp);
      if before == null || less(before.key, k) {
        NewKeyFits(less, s, k, u);
        j := Insert(null, y, k, v);
        added := true;
      } else {
        FoundIs(less, s, k, u);
        j, added := before, false;
      }
    }

    // The node just before the place on the chosen side of y, if there is one.
    method Preceding(y: Node, comp: bool) returns (j: Node?)
      requires Valid() && y in base.mem && Free(base.mem, base.header, y, if comp then Left else Right)
      ensures var u := LeafPos(base.mem, base.header, y, if comp then Left else Right);
        0 <= u <= |base.order| &&
        if u == 0 then j == null else j == base.order[u - 1] && j in base.mem && j != base.header && Pos(j) == u - 1
    {
      IndexOf(base.mem, base.header, base.order, y);
      if y != base.header {
        NearOf(base.mem, base.header, base.order, y);
      }
      j := y;
      if comp {
        var first := Begin();
        if j == first {
          j := null;
        } else {
          j := base.Prev(y);
        }
      }
    }

    /** insert_unique(position, v): position is a hint that never changes the outcome. */
    method InsertHint(position: Node, k: Key, v: Val) returns (j: Node)
      requires Valid() && position in base.mem
      modifies `nodeCount, `live, base`mem, base`order
      modifies base.mem.Keys`color, base.mem.Keys`parent, base.mem.Keys`left, base.mem.Keys`right
      ensures Valid() && fresh(base.mem.Keys - old(base.mem.Keys))
      ensures Contents() == SortedMap.Insert(less, old(Contents()), k, v)
      ensures j in base.mem && j != base.header && Pos(j) == SortedMap.LowerIndex(less, old(Contents()), k)
      ensures SortedMap.Has(less, old(Contents()), k) ==> base.order == old(base.order)
      ensures !SortedMap.Has(less, old(Contents()), k) ==>
        base.order == InsertAt(old(base.order), SortedMap.LowerIndex(less, old(Contents()), k), j)
    {
      var x, y, taken := Hint(position, k);
      if taken {
        j := Insert(x, y, k, v);
      } else {
        var added;
        j, added := InsertUnique(k, v);
      }
    }

    // Whether k belongs right at the hint, and the arguments for insert() if it does.
    method Hint(position: Node, k: Key) returns (x: Node?, y: Node, taken: bool)
      requires Valid() && position in base.mem
      ensures taken ==> y in base.mem && y != base.header
      ensures taken ==>
        var d := if x != null || less(k, y.key) then Left else Right;
        Free(base.mem, base.header, y, d) && Fits(less, base.order, k, LeafPos(base.mem, base.header, y, d))
    {
      ghost var m, h, s := base.mem, base.header, base.order;
      IndexOf(m, h, s, position);
      if position != h {
        NearOf(m, h, s, position);
      }
      x, y, taken := null, position, false;
      var first := Begin();
      if position == first {
        if nodeCount > 0 && less(k, position.key) {
          FitsBetween(less, s, k, 0);
          x, taken := position, true;
        }
      } else if position == base.header {
        var last := base.GetKid(base.header, Right);
        NearOf(m, h, s, last);
        if less(last.key, k) {
          FitsBetween(less, s, k, |s|);
          assert SortedMap.Lawful(less, k, last.key, k);
          y, taken := last, true;
        }
      } else {
        x, y, taken := HintBetween(position, k);
      }
    }

    // The hint is neither the first node nor the header.
    method HintBetween(position: Node, k: Key) returns (x: Node?, y: Node, taken: bool)
      requires Valid() && position in base.mem && position != base.header && Pos(position) > 0
      ensures taken ==> y in base.mem && y != base.header
      ensures taken ==>
        var d := if x != null || less(k, y.key) then Left else Right;
        Free(base.mem, base.header, y, d) && Fits(less, base.order, k, LeafPos(base.mem, base.header, y, d))
    {
      ghost var m, h, s := base.mem, base.header, base.order;
      NearOf(m, h, s, position);
      x, y, taken := null, position, false;
      var before := base.Prev(position);
      NearOf(m, h, s, before);
      if less(before.key, k) && less(k, position.key) {
        FitsBetween(less, s, k, m[before].pos + 1);
        assert SortedMap.Lawful(less, k, before.key, k);
        taken := true;
        var right := base.GetKid(before, Right);
        if right == null {
          y := before;
        } else {
          NeighbourGap(m, h, s, before, position);
          x := position;
        }
      }
    }

    // ---------------------------------------------------------------- erasure

    // The links of a node may be read only while it is live.
    method LiveKid(x: Node, d: Dir) returns (k: Node?)
      requires x in live && base.Sync() && x in base.mem
      ensures k == base.mem[x].Kid(d)
    {
      k := base.GetKid(x, d);
    }

    // Frees every node of the subtree at x, which occupies lo..hi.
    method EraseWithoutRebalance(x0: Node?, ghost lo: int, ghost hi: int)
      requires base.Sync() && Shaped(base.mem, base.header, base.order)
      requires 0 <= lo <= hi <= |base.order| && Spans(base.mem, base.header, x0, lo, hi)
      requires Part(base.order, lo, hi) <= live
      modifies this`live
      ensures live == old(live) - Part(base.order, lo, hi)
      decreases hi - lo
    {
      hide Shaped, Part, Base.Sync;
      ghost var m, h, s := base.mem, base.header, base.order;
      var x := x0;
      ghost var top := hi;
      NoPart(s, hi);
      while x != null
        invariant lo <= top <= hi && Spans(m, h, x, lo, top)
        invariant live == old(live) - Part(s, top, hi) && Part(s, lo, top) <= live
        decreases top - lo
      {
        ghost var p := SpanStep(m, h, s, x, lo, top);
        PartSplit(m, h, s, lo, p, top);
        PartJoin(s, p, top, hi);
        var right := LiveKid(x, Right);
        EraseWithoutRebalance(right, p + 1, top);
        var y := LiveKid(x, Left);
        DestroyNode(x);
        x := y;
        top := p;
      }
      NoPart(s, lo);
    }

    /** clear() */
    method Clear()
      requires Valid()
      modifies `nodeCount, `live, base`mem, base`order, base.header`parent, base.header`left, base.header`right
      ensures Valid() && base.order == [] && Contents() == [] && base.mem.Keys == {base.header}
      ensures live == {base.header}
    {
      AllNodes(base.mem, base.header, base.order);
      if nodeCount != 0 {
        ghost var s := base.order;
        RootSpans(base.mem, base.header, s);
        var root := base.GetParent(base.header);
        EraseWithoutRebalance(root, 0, |s|);
        base.Reset();
        nodeCount := 0;
      }
    }

    /** erase(position) */
    method EraseAt(position: Node)
      requires Valid() && position in base.mem && position != base.header
      modifies `nodeCount, `live, base`mem, base`order
      modifies base.mem.Keys`color, base.mem.Keys`parent, base.mem.Keys`left, base.mem.Keys`right
      ensures Valid() && base.mem.Keys == old(base.mem.Keys) - {position}
      ensures 0 <= old(Pos(position)) < |old(base.order)|
      ensures base.order == RemoveAt(old(base.order), old(Pos(position)))
      ensures Contents() == RemoveAt(old(Contents()), old(Pos(position)))
    {
      hide Shaped, RedBlack, Entries, Rising;
      ghost var s, i := base.order, Pos(position);
      IndexOf(base.mem, base.header, s, position);
      var y := base.RebalanceForErase(position);
      DestroyNode(y);
      nodeCount := nodeCount - 1;
      RemoveRises(less, s, i);
      EntriesKept(s);
      EntriesCut(s, i, i + 1);
    }

    // Only a live node may be freed, and it is live no longer.
    method DestroyNode(x: Node)
      requires x in live
      modifies this`live
      ensures live == old(live) - {x}
    {
      live := live - {x};
    }

    method Distance(first: Node, last: Node) returns (n: nat)
      requires Valid() && first in base.mem && last in base.mem && Pos(first) <= Pos(last)
      ensures n == Pos(last) - Pos(first)
    {
      n := 0;
      var at := first;
      IndexOf(base.mem, base.header, base.order, last);
      IndexOf(base.mem, base.header, base.order, at);
      while at != last
        invariant at in base.mem && Pos(at) == Pos(first) + n <= Pos(last)
        invariant at == NodeAt(base.header, base.order, Pos(at))
        decreases Pos(last) - Pos(at)
      {
        n := n + 1;
        at := base.Next(at);
      }
    }

    /** equal_range(k) */
    method EqualRange(k: Key) returns (first: Node, last: Node)
      requires Valid()
      ensures first in base.mem && last in base.mem
      ensures Pos(first) == SortedMap.LowerIndex(less, Contents(), k)
      ensures Pos(last) == Pos(first) + (if SortedMap.Has(less, Contents(), k) then 1 else 0)
    {
      first := LowerBound(k);
      last := UpperBound(k);
      RangeOf(k, Pos(first), Pos(last));
    }

    lemma RangeOf(k: Key, l: int, u: int)
      requires Valid() && SortedMap.IsLower(less, Contents(), k, l) && SortedMap.IsUpper(less, Contents(), k, u)
      ensures l == SortedMap.LowerIndex(less, Contents(), k)
      ensures u == l + (if SortedMap.Has(less, Contents(), k) then 1 else 0)
    {
      SortedMap.BoundsMeet(less, Contents(), k, l, u);
    }

    /** count(k) */
    method Count(k: Key) returns (n: nat)
      requires Valid()
      ensures n == if SortedMap.Has(less, Contents(), k) then 1 else 0
    {
      var first, last := EqualRange(k);
      n := Distance(first, last);
    }

    /** erase(first, last) */
    method EraseRange(first: Node, last: Node)
      requires Valid() && first in base.mem && last in base.mem && Pos(first) <= Pos(last)
      modifies `nodeCount, `live, base`mem, base`order
      modifies base.mem.Keys`color, base.mem.Keys`parent, base.mem.Keys`left, base.mem.Keys`right
      ensures Valid() && 0 <= old(Pos(first)) <= old(Pos(last)) <= |old(base.order)|
      ensures base.order == old(base.order[..Pos(first)] + base.order[Pos(last)..])
      ensures Contents() == old(Contents()[..Pos(first)] + Contents()[Pos(last)..])
      ensures base.mem.Keys <= old(base.mem.Keys)
    {
      ghost var s, a, b := base.order, Pos(first), Pos(last);
      IndexOf(base.mem, base.header, s, first);
      IndexOf(base.mem, base.header, s, last);
      var begin := Begin();
      if first == begin && last == base.header {
        Clear();
        assert s[..0] + s[|s|..] == [];
      } else {
        EraseEach(first, last);
      }
      EntriesKept(s);
      EntriesCut(s, a, b);
    }

    method EraseEach(first: Node, last: Node)
      requires Valid() && first in base.mem && last in base.mem && Pos(first) <= Pos(last)
      modifies `nodeCount, `live, base`mem, base`order
      modifies base.mem.Keys`color, base.mem.Keys`parent, base.mem.Keys`left, base.mem.Keys`right
      ensures Valid() && 0 <= old(Pos(first)) <= old(Pos(last)) <= |old(base.order)|
      ensures base.order == old(base.order)[..old(Pos(first))] + old(base.order)[old(Pos(last))..]
      ensures base.mem.Keys <= old(base.mem.Keys)
    {
      hide Valid, NodeAt, Sound, Entries, Pos, Index, Rising;
      ghost var s, a, b := base.order, Pos(first), Pos(last);
      EachStarts(first, last);
      var at := first;
      ghost var i := a;
      while at != last
        invariant Valid() && base.mem.Keys <= old(base.mem.Keys)
        invariant a <= i <= b && base.order == s[..a] + s[i..] && at == NodeAt(base.header, s, i)
        decreases b - i
      {
        at := EraseNext(at, s, a, i);
        i := i + 1;
      }
    }

    lemma EachStarts(first: Node, last: Node)
      requires Valid() && first in base.mem && last in base.mem && Pos(first) <= Pos(last)
      ensures 0 <= Pos(first) <= Pos(last) <= |base.order|
      ensures first == NodeAt(base.header, base.order, Pos(first)) && last == NodeAt(base.header, base.order, Pos(last))
      ensures forall i, j :: 0 <= i < j <= |base.order| ==>
        NodeAt(base.header, base.order, i) != NodeAt(base.header, base.order, j)
    {
      IndexOf(base.mem, base.header, base.order, first);
      IndexOf(base.mem, base.header, base.order, last);
      Unrepeated(base.mem, base.header, base.order);
    }

    // erase(first++), when s[a..i] has been erased already.
    method EraseNext(cur: Node, ghost s: seq<Node>, ghost a: int, ghost i: int) returns (next: Node)
      requires Valid() && 0 <= a <= i < |s| && base.order == s[..a] + s[i..] && cur == NodeAt(base.header, s, i)
      modifies `nodeCount, `live, base`mem, base`order
      modifies base.mem.Keys`color, base.mem.Keys`parent, base.mem.Keys`left, base.mem.Keys`right
      ensures Valid() && base.mem.Keys <= old(base.mem.Keys)
      ensures base.order == s[..a] + s[i + 1..] && next == NodeAt(base.header, s, i + 1)
    {
      CutStep(base.mem, base.header, s, base.order, a, i);
      next := base.Next(cur);
      EraseAt(cur);
    }

    /** erase(k): the number of entries erased. */
    method EraseKey(k: Key) returns (n: nat)
      requires Valid()
      modifies `nodeCount, `live, base`mem, base`order
      modifies base.mem.Keys`color, base.mem.Keys`parent, base.mem.Keys`left, base.mem.Keys`right
      ensures Valid() && base.mem.Keys <= old(base.mem.Keys)
      ensures Contents() == SortedMap.Erase(less, old(Contents()), k)
      ensures n == if SortedMap.Has(less, old(Contents()), k) then 1 else 0
    {
      hide Rising, Sound, SortedMap.StrictWeak, Base.Sync, SortedMap.LowerIndex, SortedMap.Has, SortedMap.Erase;
      ghost var e := Contents();
      var first, last := EqualRange(k);
      RangeErased(e, k, Pos(first), Pos(last));
      n := Distance(first, last);
      EraseRange(first, last);
    }

    lemma RangeErased(e: seq<Entry>, k: Key, l: nat, u: nat)
      requires l == SortedMap.LowerIndex(less, e, k) && u == l + (if SortedMap.Has(less, e, k) then 1 else 0)
      ensures u <= |e| && e[..l] + e[u..] == SortedMap.Erase(less, e, k)
    {
      hide SortedMap.LowerIndex;
      assert l == u ==> e[..l] + e[u..] == e;
    }

    /** insert_unique over an array of values. */
    method InsertAll(v: seq<Entry>)
      requires Valid()
      modifies `nodeCount, `live, base`mem, base`order
      modifies base.mem.Keys`color, base.mem.Keys`parent, base.mem.Keys`left, base.mem.Keys`right
      ensures Valid() && fresh(base.mem.Keys - old(base.mem.Keys))
      ensures Contents() == SortedMap.InsertAll(less, old(Contents()), v)
    {
      hide Valid, Entries, SortedMap.Insert;
      for i := 0 to |v|
        invariant Valid() && fresh(base.mem.Keys - old(base.mem.Keys))
        invariant SortedMap.InsertAll(less, Contents(), v[i..]) == SortedMap.InsertAll(less, old(Contents()), v)
      {
        assert v[i..][1..] == v[i + 1..];
        var j, added := InsertUnique(v[i].0, v[i].1);
      }
    }

    // ---------------------------------------------------------------- copying and teardown

    // The structural copy of x into an empty tree.
    method CopyFrom(x: Tree)
      requires x.Valid() && less == x.less && x != this && x.base != base
      requires base.Sync() && Sound(base.mem, base.header, base.order) && base.order == []
      requires base.mem.Keys == {base.header} && base.header !in x.base.mem
      modifies `nodeCount, `live, base`mem, base`order, base.header`parent, base.header`left, base.header`right
      ensures Valid() && x.Valid() && x.Contents() == old(x.Contents()) && Contents() == x.Contents()
      ensures fresh(base.mem.Keys - {base.header})
      ensures SameForm(x.base.mem, x.base.header, x.base.order, base.mem, base.header, base.order)
    {
      hide RedBlack, Shaped, Rising, SameForm, Entries;
      base.CopyAll(x.base);
      nodeCount := x.nodeCount;
      live := base.mem.Keys;
      CopyRises(less, x.base.order, base.order);
    }

    /** The copy constructor. */
    constructor Copy(x: Tree)
      requires x.Valid()
      ensures Valid() && fresh(base) && fresh(base.mem.Keys) && less == x.less
      ensures Contents() == x.Contents()
      ensures SameForm(x.base.mem, x.base.header, x.base.order, base.mem, base.header, base.order)
    {
      base := new Base();
      less := x.less;
      nodeCount := 0;
      live := {};
      new;
      hide Sound, SameForm, Entries, Rising;
      CopyFrom(x);
    }

    /** operator= */
    method Assign(x: Tree)
      requires Valid() && x.Valid()
      requires x != this ==> x.base != base && base.mem.Keys !! x.base.mem.Keys
      modifies `nodeCount, `live, `less, base`mem, base`order, base.header`parent, base.header`left, base.header`right
      ensures Valid() && x.Valid() && x.Contents() == old(x.Contents()) && Contents() == x.Contents() && less == x.less
      ensures x == this ==> base.mem == old(base.mem)
      ensures x != this ==> fresh(base.mem.Keys - {base.header})
      ensures x != this ==> SameForm(x.base.mem, x.base.header, x.base.order, base.mem, base.header, base.order)
    {
      hide Sound, Rising, SameForm, Entries;
      if x != this {
        Clear();
        less := x.less;
        CopyFrom(x);
      }
    }

    /** The destructor frees every node and then the header. */
    method Destroy()
      requires Valid()
      modifies `nodeCount, `live, base`mem, base`order, base.header`parent, base.header`left, base.header`right
      ensures live == {}
    {
      Clear();
      DestroyNode(base.header);
    }
  }
}
