/** Oscl_Map: the map interface, which forwards to the tree it contains. */
module OsclMap {
  import opened SeqEdits
  import opened RbLinks
  import opened RbSteps
  import opened RbTree
  import SortedMap
  import MapRuns

  class Map {
    const t: Tree
    const none: Val

    ghost predicate Valid()
      reads this, t, t.base, t.base.mem.Keys
    {
      t.Valid()
    }

    ghost function Contents(): seq<Entry>
      reads t.base`order, t.base.order
    {
      t.Contents()
    }

    constructor (less: (Key, Key) -> bool, none: Val)
      requires SortedMap.StrictWeak(less)
      ensures Valid() && Contents() == [] && t.less == less && this.none == none
      ensures fresh(t) && fresh(t.base) && fresh(t.base.mem.Keys)
    {
      t := new Tree(less);
      this.none := none;
    }

    /** operator[]: the node whose value the returned reference denotes. */
    method Subscript(k: Key) returns (j: Node)
      requires Valid()
      modifies t`nodeCount, t`live, t.base`mem, t.base`order
      modifies t.base.mem.Keys`color, t.base.mem.Keys`parent, t.base.mem.Keys`left, t.base.mem.Keys`right
      ensures Valid() && fresh(t.base.mem.Keys - old(t.base.mem.Keys))
      ensures Contents() == SortedMap.Insert(t.less, old(Contents()), k, none)
      ensures j in t.base.mem && j != t.base.header && t.Pos(j) == SortedMap.LowerIndex(t.less, old(Contents()), k)
    {
      var added;
      j, added := t.InsertUnique(k, none);
    }

    /** operator[] on the left of an assignment. */
    method SubscriptAssign(k: Key, v: Val)
      requires Valid()
      modifies t`nodeCount, t`live, t.base`mem, t.base`order, t.base.mem.Keys
      ensures Valid() && fresh(t.base.mem.Keys - old(t.base.mem.Keys))
      ensures Contents() == MapRuns.Put(t.less, old(Contents()), k, v)
    {
      ghost var e := Contents();
      var j := Subscript(k);
      SetValue(j, v);
      MapRuns.PutAfterInsert(t.less, e, k, none, v);
    }

    method SetValue(j: Node, v: Val)
      requires Valid() && j in t.base.mem && j != t.base.header
      modifies j`val
      ensures Valid() && 0 <= t.Pos(j) < |t.base.order|
      ensures Contents() == old(Contents())[t.Pos(j) := (old(Contents())[t.Pos(j)].0, v)]
    {
      ghost var s, p := t.base.order, t.Pos(j);
      IndexOf(t.base.mem, t.base.header, s, j);
      t.base.SetVal(j, v);
      forall i | 0 <= i < |s|
        ensures s[i] == j <==> i == p
      {
        assert s[i] in t.base.mem && t.base.mem[s[i]].pos == i;
      }
    }

    /** The iterator at position i, reached from begin() by i increments. */
    method Walk(i: nat) returns (n: Node)
      requires Valid() && i <= |Contents()|
      ensures n in t.base.mem && t.Pos(n) == i && (n == t.base.header <==> i == |Contents()|)
    {
      n := t.Begin();
      for j := 0 to i
        invariant n in t.base.mem && t.Pos(n) == j && n == NodeAt(t.base.header, t.base.order, j)
      {
        WalkStep(n);
        n := t.base.Next(n);
      }
      WalkStep(n);
    }

    lemma WalkStep(n: Node)
      requires Valid() && n in t.base.mem && 0 <= t.Pos(n) <= |Contents()|
      ensures n == t.base.header <==> t.Pos(n) == |Contents()|
    {
      IndexOf(t.base.mem, t.base.header, t.base.order, n);
      if n != t.base.header {
        NearOf(t.base.mem, t.base.header, t.base.order, n);
      }
    }

    /** erase(position), for the iterator at position i. */
    method EraseAt(i: nat)
      requires Valid() && i < |Contents()|
      modifies t`nodeCount, t`live, t.base`mem, t.base`order, t.base.mem.Keys
      ensures Valid() && fresh(t.base.mem.Keys - old(t.base.mem.Keys))
      ensures Contents() == RemoveAt(old(Contents()), i)
    {
      hide Tree.Valid;
      var position := Walk(i);
      t.EraseAt(position);
    }

    /** erase(first, last), for the iterators at positions i and j. */
    method EraseRange(i: nat, j: nat)
      requires Valid() && i <= j <= |Contents()|
      modifies t`nodeCount, t`live, t.base`mem, t.base`order, t.base.mem.Keys
      ensures Valid() && fresh(t.base.mem.Keys - old(t.base.mem.Keys))
      ensures Contents() == old(Contents())[..i] + old(Contents())[j..]
    {
      hide Tree.Valid;
      var first := Walk(i);
      var last := Walk(j);
      t.EraseRange(first, last);
    }

    lemma HeaderThere()
      requires Valid()
      ensures t.base.header in t.base.mem
    {
    }

    /** One call of the interface. */
    method Apply(op: MapRuns.Op<Key, Val>)
      requires Valid() && MapRuns.Legal(Contents(), op)
      modifies t`nodeCount, t`live, t.base`mem, t.base`order, t.base.mem.Keys
      ensures Valid() && fresh(t.base.mem.Keys - old(t.base.mem.Keys))
      ensures Contents() == MapRuns.Step(t.less, none, old(Contents()), op)
    {
      hide Tree.Valid;
      match op
      case InsertPair(k, v) =>
        var j, added := t.InsertUnique(k, v);
      case InsertNear(hint, k, v) =>
        var position := Walk(hint);
        var j := t.InsertHint(position, k, v);
      case EraseAt(i) =>
        EraseAt(i);
      case EraseRange(i, j) =>
        EraseRange(i, j);
      case EraseKey(k) =>
        var n := t.EraseKey(k);
      case EraseAll =>
        HeaderThere();
        t.Clear();
      case Subscript(k) =>
        var j := Subscript(k);
      case SubscriptAssign(k, v) =>
        SubscriptAssign(k, v);
    }

    /** A whole run; RunRefines says what map its outcome denotes. */
    method Run(ops: seq<MapRuns.Op<Key, Val>>)
      requires Valid() && MapRuns.RunLegal(t.less, none, Contents(), ops)
      modifies t`nodeCount, t`live, t.base`mem, t.base`order, t.base.mem.Keys
      ensures Valid() && fresh(t.base.mem.Keys - old(t.base.mem.Keys))
      ensures Contents() == MapRuns.Run(t.less, none, old(Contents()), ops)
    {
      hide *;
      ghost var e := Contents();
      MapRuns.RunNone(t.less, none, e, ops);
      for i := 0 to |ops|
        invariant Valid() && fresh(t.base.mem.Keys - old(t.base.mem.Keys))
        invariant MapRuns.RunLegal(t.less, none, e, ops[..i])
        invariant Contents() == MapRuns.Run(t.less, none, e, ops[..i])
      {
        MapRuns.RunLast(t.less, none, e, ops, i);
        Apply(ops[i]);
      }
      assert ops[..|ops|] == ops;
    }
  }
}
