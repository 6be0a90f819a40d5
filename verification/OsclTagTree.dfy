/** Oscl_TagTree: a map from tags to nodes whose parent and child links must agree with it. */
module OsclTagTree {
  import opened SeqEdits
  import SortedMap
  import opened TagOrder
  import opened TagSpec
  import opened TagCopy
  import opened TagSort
  import MapRuns

  type Value(!new)

  class TagNode {
    const tag: Tag
    var value: Value
    var parent: TagNode?
    var children: seq<TagNode>

    // parent is left as it comes.
    constructor (tag: Tag, value: Value)
      ensures this.tag == tag && this.value == value && children == []
    {
      this.tag := tag;
      this.value := value;
      children := [];
    }

    // Only a node that is there may be read.
    method GetTag(ghost live: set<TagNode>) returns (t: Tag)
      requires this in live
      ensures t == tag
    {
      t := tag;
    }

    // Two neighbours are swapped if they are out of order.
    method Compare(it: nat, ghost bound: nat, ghost live: set<TagNode>) returns (swapped: bool)
      requires it + 1 < |children| && (forall c :: c in children ==> c in live)
      requires Passing(TagLess, TagsOf(children), it, bound)
      modifies `children
      ensures |children| == |old(children)| && multiset(children) == multiset(old(children))
      ensures forall c :: c in children ==> c in live
      ensures Passing(TagLess, TagsOf(children), it + 1, bound) && (swapped ==> bound > 0)
      ensures !swapped ==> children == old(children) && !TagLess(children[it + 1].tag, children[it].tag)
    {
      hide TagLess, Passing;
      PassStep(children, it, bound);
      var right := children[it + 1].GetTag(live);
      var left := children[it].GetTag(live);
      swapped := TagLess(right, left);
      if swapped {
        children := Swap(children, it);
      }
    }

    /** One pass over the children.  bound says how much of the end is already in its final place. */
    method SortPass(ghost bound: nat, ghost live: set<TagNode>) returns (tryagain: bool)
      requires forall c :: c in children ==> c in live
      requires children != [] && bound <= |children| && Settled(TagLess, TagsOf(children), bound)
      modifies `children
      ensures |children| == |old(children)| && multiset(children) == multiset(old(children))
      ensures forall c :: c in children ==> c in live
      ensures if tryagain then bound > 0 && Settled(TagLess, TagsOf(children), bound - 1)
              else Sorted(TagLess, TagsOf(children))
    {
      hide TagLess, Settled, Sorted, SortedMap.StrictWeak;
      TagOrderTotal();
      tryagain := false;
      var it := 0;
      PassStarts(children, bound);
      while it < |children| - 1
        invariant 0 <= it < |children| == |old(children)| && multiset(children) == multiset(old(children))
        invariant forall c :: c in children ==> c in live
        invariant Passing(TagLess, TagsOf(children), it, bound) && (tryagain ==> bound > 0)
        invariant !tryagain ==> forall k :: 0 <= k < it ==> !TagLess(children[k + 1].tag, children[k].tag)
      {
        var swapped := Compare(it, bound, live);
        tryagain := tryagain || swapped;
        it := it + 1;
      }
      if !tryagain {
        AllSorted(TagLess, TagsOf(children));
      }
    }

    /** sort_children: the same children, ordered by tag.  It reads every child, so none may have been destroyed. */
    method SortChildren(ghost live: set<TagNode>)
      requires forall c :: c in children ==> c in live
      modifies `children
      ensures multiset(children) == multiset(old(children)) && Sorted(TagLess, TagsOf(children))
    {
      if children == [] {
        return;
      }
      ghost var bound := |children|;
      var tryagain := SortPass(bound, live);
      while tryagain
        invariant children != [] && multiset(children) == multiset(old(children)) && 0 <= bound <= |children|
        invariant forall c :: c in children ==> c in live
        invariant if tryagain then bound > 0 && Settled(TagLess, TagsOf(children), bound - 1)
                  else Sorted(TagLess, TagsOf(children))
        decreases if tryagain then bound + 1 else 0
      {
        bound := bound - 1;
        tryagain := SortPass(bound, live);
      }
    }
  }

  function TagsOf(c: seq<TagNode>): (r: seq<Tag>)
    ensures |r| == |c| && forall i :: 0 <= i < |r| ==> r[i] == c[i].tag
  {
    seq(|c|, i requires 0 <= i < |c| => c[i].tag)
  }

  function Swap<T>(c: seq<T>, it: nat): (r: seq<T>)
    requires it + 1 < |c|
    ensures |r| == |c| && multiset(r) == multiset(c) && forall x :: x in r ==> x in c
  {
    c[it := c[it + 1]][it + 1 := c[it]]
  }

  lemma PassStarts(c: seq<TagNode>, bound: nat)
    requires c != [] && bound <= |c| && Settled(TagLess, TagsOf(c), bound)
    ensures Passing(TagLess, TagsOf(c), 0, bound)
  {
  }

  lemma PassStep(c: seq<TagNode>, it: nat, bound: nat)
    requires it + 1 < |c| && Passing(TagLess, TagsOf(c), it, bound)
    ensures if TagLess(c[it + 1].tag, c[it].tag)
            then Passing(TagLess, TagsOf(Swap(c, it)), it + 1, bound) && bound > 0
            else Passing(TagLess, TagsOf(c), it + 1, bound)
  {
    hide TagLess, Settled, Passing;
    TagOrderTotal();
    if TagLess(c[it + 1].tag, c[it].tag) {
      SwapPasses(TagLess, TagsOf(c), it, bound);
      assert TagsOf(Swap(c, it)) == Bubble(TagLess, TagsOf(c), it);
    } else {
      KeepPasses(TagLess, TagsOf(c), it, bound);
    }
  }

  // The children of n are distinct nodes made for tags just below n's; some may have been destroyed since.
  ghost predicate Down(n: TagNode)
    reads n`children
  {
    && NoDup(n.children)
    && forall c :: c in n.children ==> c.tag != [] && Ancestor(c.tag) == n.tag
  }

  ghost predicate Up(live: set<TagNode>, n: TagNode)
    reads n`parent, live`children
  {
    n.tag != [] ==>
      n.parent != null && n.parent in live && n.parent.tag == Ancestor(n.tag) && n in n.parent.children
  }

  // Appending child, if any, to the list of n.
  ghost function WithChild(kids: map<TagNode, seq<TagNode>>, n: TagNode, child: TagNode?): map<TagNode, seq<TagNode>> {
    var listed := if n in kids then kids[n] else [];
    if child == null then kids[n := listed] else var c: TagNode := child; kids[n := listed + [c]]
  }

  lemma ChildOnce(kids: map<TagNode, seq<TagNode>>, n: TagNode, child: TagNode?)
    ensures n in kids ==> WithChild(kids, n, null) == kids
    ensures n !in kids ==> WithChild(kids[n := []], n, child) == WithChild(kids, n, child)
  {
  }

  /** The lists b are the lists a with only nodes made since appended; `before` were there then. */
  ghost predicate Appended(before: set<TagNode>, a: map<TagNode, seq<TagNode>>, b: map<TagNode, seq<TagNode>>) {
    && a.Keys <= b.Keys
    && (forall n :: n in a ==> a[n] <= b[n])
    && (forall n, c :: n in b && c in b[n] && (n !in a || c !in a[n]) ==> c in b && c !in before)
  }

  lemma AppendedNone(before: set<TagNode>, a: map<TagNode, seq<TagNode>>)
    ensures Appended(before, a, a)
  {
  }

  lemma AppendedMore(before: set<TagNode>, a: map<TagNode, seq<TagNode>>, b: map<TagNode, seq<TagNode>>,
                     n: TagNode, child: TagNode?)
    requires Appended(before, a, b) && (child != null ==> child in b && child !in before)
    ensures Appended(before, a, WithChild(b, n, child))
  {
  }

  class TagTree {
    var maxDepth: nat
    const none: Value
    var nodeMap: seq<(Tag, TagNode)>
    ghost var nodes: map<Tag, TagNode>
    ghost var live: set<TagNode>
    // Nodes just made, which no node lists yet.
    ghost var loose: set<TagNode>

    // The map's entries denote `nodes`, and the nodes there are exactly the ones allocated.
    ghost predicate Indexed()
      reads `nodeMap, `nodes, `live
    {
      && MapRuns.Denotes(TagLess, nodeMap, nodes)
      && (forall t :: t in nodes ==> nodes[t] in live && nodes[t].tag == t)
      && (forall n :: n in live ==> n.tag in nodes && nodes[n.tag] == n)
    }

    ghost predicate Mapped()
      reads `maxDepth, `nodeMap, `nodes, `live
    {
      Indexed() && DepthsFit(maxDepth, nodes)
    }

    ghost predicate Listed(n: TagNode)
      reads `live, live`children
    {
      exists p :: p in live && n in p.children
    }

    // Valid but for the upward links of the loose nodes.
    ghost predicate Nearly()
      reads this, live
    {
      && Mapped()
      && (forall n :: n in live ==> Down(n))
      && (forall n :: n in live && n !in loose ==> Up(live, n))
      && (forall n :: n in loose ==> n in live && !Listed(n))
    }

    ghost predicate Valid()
      reads this, live
    {
      Nearly() && loose == {}
    }

    ghost function Values(): map<Tag, Value>
      requires Mapped()
      reads `maxDepth, `nodeMap, `nodes, `live, live`value
    {
      map t | t in nodes :: nodes[t].value
    }

    ghost function Worn(): set<Tag>
      requires Mapped()
      reads `maxDepth, `nodeMap, `nodes, `live, live`children
    {
      set t | t in nodes && nodes[t].children != []
    }

    ghost function View(): State<Value>
      requires Mapped()
      reads `maxDepth, `nodeMap, `nodes, `live, live
    {
      State(Values(), Worn())
    }

    ghost function Kids(): map<TagNode, seq<TagNode>>
      reads `live, live`children
    {
      map n | n in live :: n.children
    }

    lemma KidsNow() returns (kids: map<TagNode, seq<TagNode>>)
      ensures kids == Kids() && kids.Keys == live
    {
      kids := Kids();
    }

    /** The parent of every node but the root is the stored node of its ancestor tag, which lists it. */
    lemma ParentStored(t: Tag)
      requires Valid() && t in nodes && t != []
      ensures Ancestor(t) in nodes && nodes[t].parent == nodes[Ancestor(t)] && nodes[t] in nodes[Ancestor(t)].children
    {
      hide TagLess, MapRuns.Denotes, DepthsFit, Ancestor;
      assert Up(live, nodes[t]);
    }

    /** No node lists a destroyed child. */
    ghost predicate Exact()
      reads `live, live
    {
      forall n, c :: n in live && c in n.children ==> c in live
    }

    /** Then the list of each node is exactly its stored children, each once. */
    lemma ExactChildren(n: TagNode, c: TagNode)
      requires Valid() && Exact() && n in live
      ensures c in n.children <==> c in live && c.tag != [] && Ancestor(c.tag) == n.tag
      ensures NoDup(n.children)
    {
      assert Down(n);
      if c in live && c.tag != [] && Ancestor(c.tag) == n.tag {
        assert Up(live, c);
        assert nodes[n.tag] == n && nodes[c.parent.tag] == c.parent;
      }
    }

    /** A tree with a root only. */
    constructor (maxDepth: nat, none: Value)
      ensures Valid() && Exact() && View() == Start(none) && fresh(live)
      ensures this.maxDepth == maxDepth && this.none == none
      ensures [] in nodes && nodes[[]].parent == null
    {
      this.maxDepth := maxDepth;
      this.none := none;
      nodeMap := [];
      nodes := map[];
      live := {};
      loose := {};
      new;
      hide Nearly, Joined;
      NothingYet();
      var n := Register([], none);
      n.parent := null;
      loose := {};
      RootOnly(n);
    }

    lemma NothingYet()
      requires nodeMap == [] && nodes == map[] && live == {} && loose == {}
      ensures Nearly() && Values() == map[] && Worn() == {} && Exact()
    {
    }

    lemma RootOnly(n: TagNode)
      requires Mapped() && nodes == map[[] := n] && live == {n} && loose == {} && n.tag == [] && n.children == []
      ensures Valid() && Exact() && View() == Start(n.value)
    {
      hide MapRuns.Denotes, TagLess, Ancestor, Depth, DepthsFit;
      assert Values() == map[[] := n.value];
    }

    // n has been allocated and added to the map under t; nothing else has happened.
    twostate predicate Joined(new n: TagNode, new t: Tag, new v: Value)
      reads this, n, live
    {
      && n !in old(live) && n.tag == t && n.value == v && n.children == []
      && live == old(live) + {n} && loose == old(loose) + {n} && nodes == old(nodes)[t := n]
      && maxDepth == old(maxDepth)
      && (forall m :: m in old(live) ==> unchanged(m))
    }

    twostate lemma JoinedMap(new n: TagNode, new t: Tag, new v: Value)
      requires old(Mapped())
      requires Joined(n, t, v)
      requires t !in old(nodes) && (maxDepth > 0 ==> Depth(t) <= maxDepth)
      requires MapRuns.Denotes(TagLess, nodeMap, nodes)
      ensures Mapped() && Values() == old(Values())[t := v] && Worn() == old(Worn())
    {
      hide MapRuns.Denotes, TagLess, Ancestor, Depth;
    }

    twostate lemma JoinedUp(new n: TagNode, new t: Tag, new v: Value)
      requires old(Nearly())
      requires Joined(n, t, v)
      requires Mapped()
      ensures forall m :: m in old(live) && m !in old(loose) ==> Up(live, m)
    {
      hide MapRuns.Denotes, TagLess, Ancestor, Depth, Down, Listed;
      forall m | m in old(live) && m !in old(loose)
        ensures Up(live, m)
      {
        assert old(Up(live, m));
      }
    }

    twostate lemma JoinedDown(new n: TagNode, new t: Tag, new v: Value)
      requires old(Nearly())
      requires Joined(n, t, v)
      requires Mapped()
      requires forall m :: m in old(live) ==> n !in m.children
      ensures forall m :: m in live ==> Down(m)
      ensures forall m :: m in loose ==> m in live && !Listed(m)
    {
      hide MapRuns.Denotes, TagLess, Ancestor, Depth, DepthsFit, Up;
      forall m | m in old(loose)
        ensures !Listed(m)
      {
        assert old(!Listed(m));
      }
      forall m | m in old(live)
        ensures Down(m)
      {
        assert old(Down(m));
      }
    }

    twostate lemma JoinedKids(new n: TagNode, new t: Tag, new v: Value)
      requires Joined(n, t, v)
      ensures Kids() == old(Kids())[n := []] && (old(Exact()) ==> Exact())
    {
    }

    lemma NewEntryDenotes(t: Tag, n: TagNode)
      requires MapRuns.Denotes(TagLess, nodeMap, nodes) && t !in nodes
      ensures MapRuns.Denotes(TagLess, SortedMap.Insert(TagLess, nodeMap, t, n), nodes[t := n])
    {
      hide *;
      TagOrderTotal();
      MapRuns.InsertRefines(TagLess, nodeMap, nodes, t, n);
      MapRuns.TotalIsPlain(TagLess, nodes, t, n);
    }

    // create_node and the insertion into the map.
    method Register(t: Tag, v: Value) returns (n: TagNode)
      requires Nearly() && t !in nodes && (maxDepth > 0 ==> Depth(t) <= maxDepth)
      modifies this`nodeMap, this`nodes, this`live, this`loose
      ensures fresh(n) && live == old(live) + {n} && n.tag == t && nodes == old(nodes)[t := n] && n.children == []
      ensures Nearly() && loose == old(loose) + {n}
      ensures Values() == old(Values())[t := v] && Worn() == old(Worn())
      ensures Kids() == old(Kids())[n := []] && (old(Exact()) ==> Exact())
    {
      hide MapRuns.Denotes, TagLess, Ancestor, Depth, DepthsFit, Up, Down, SortedMap.Insert, Exact, Kids, Listed;
      n := new TagNode(t, v);
      NewEntryDenotes(t, n);
      nodeMap := SortedMap.Insert(TagLess, nodeMap, t, n);
      nodes := nodes[t := n];
      live := live + {n};
      loose := loose + {n};
      JoinedMap(n, t, v);
      JoinedUp(n, t, v);
      JoinedDown(n, t, v);
      JoinedKids(n, t, v);
    }

    method Find(t: Tag) returns (n: TagNode?)
      requires Mapped()
      ensures n == (if t in nodes then nodes[t] else null) && (n != null ==> n in live && n.tag == t)
    {
      TagOrderTotal();
      MapRuns.HasIsIn(TagLess, nodeMap, nodes, t);
      n := if SortedMap.Has(TagLess, nodeMap, t) then nodeMap[SortedMap.LowerIndex(TagLess, nodeMap, t)].1 else null;
    }

    twostate predicate Linked(new child: TagNode, new p: TagNode)
      reads this, live
    {
      && child in old(loose) && p in old(live) && child.tag != [] && p.tag == Ancestor(child.tag)
      && nodeMap == old(nodeMap) && nodes == old(nodes) && live == old(live) && maxDepth == old(maxDepth)
      && loose == old(loose) - {child}
      && (forall m :: m in live ==> m.parent == if m == child then p else old(m.parent))
      && (forall m :: m in live ==> m.children == old(m.children) + if m == p then [child] else [])
    }

    twostate lemma LinkedMap(new child: TagNode, new p: TagNode)
      requires old(Mapped())
      requires Linked(child, p)
      requires forall m :: m in live ==> m.value == old(m.value)
      ensures Mapped() && Values() == old(Values()) && Worn() == old(Worn()) + {p.tag}
    {
      hide MapRuns.Denotes, TagLess, Ancestor, Depth, DepthsFit;
    }

    twostate lemma LinkedUp(new child: TagNode, new p: TagNode)
      requires old(Nearly())
      requires Linked(child, p)
      ensures forall m :: m in live && m !in loose ==> Up(live, m)
    {
      hide Mapped, Down, Listed, Ancestor;
      forall m | m in live && m !in loose && m != child
        ensures Up(live, m)
      {
        assert old(Up(live, m));
      }
    }

    twostate lemma LinkedDown(new child: TagNode, new p: TagNode)
      requires old(Nearly())
      requires Linked(child, p)
      ensures forall m :: m in live ==> Down(m)
      ensures forall m :: m in loose ==> m in live && !Listed(m)
    {
      hide Mapped, Up, Ancestor;
      forall m | m in live
        ensures Down(m)
      {
        assert old(Down(m)) && old(!Listed(child));
        assert m == p ==> child !in old(p.children);
      }
      forall m | m in loose
        ensures !Listed(m)
      {
        assert old(!Listed(m));
      }
    }

    twostate lemma LinkedKids(new child: TagNode, new p: TagNode)
      requires old(loose) <= old(live)
      requires Linked(child, p)
      ensures Kids() == WithChild(old(Kids()), p, child) && (old(Exact()) ==> Exact())
    {
      ghost var r := WithChild(old(Kids()), p, child);
      forall m | m in live
        ensures m in r && r[m] == m.children
      {
      }
    }

    method Link(child: TagNode, p: TagNode)
      requires Nearly() && child in loose && p in live && child.tag != [] && p.tag == Ancestor(child.tag)
      modifies this`loose, child`parent, p`children
      ensures Nearly() && loose == old(loose) - {child} && (old(Exact()) ==> Exact())
      ensures Values() == old(Values()) && Worn() == old(Worn()) + {p.tag} && Kids() == WithChild(old(Kids()), p, child)
    {
      hide Mapped, TagLess, Ancestor, Up, Down, Listed, Exact, Kids, WithChild;
      child.parent := p;
      p.children := p.children + [child];
      loose := loose - {child};
      LinkedMap(child, p);
      LinkedUp(child, p);
      LinkedDown(child, p);
      LinkedKids(child, p);
    }

    // The view once child has been linked.
    ghost function Pending(child: TagNode?): State<Value>
      requires Mapped()
      reads `maxDepth, `nodeMap, `nodes, `live, live
    {
      if child == null || child.tag == [] then View() else State(Values(), Worn() + {Ancestor(child.tag)})
    }

    ghost predicate Loose(child: TagNode?)
      reads this
    {
      loose == if child == null then {} else {child}
    }

    method FindOrMake(current: Tag, v: Value) returns (n: TagNode, found: bool)
      requires Nearly() && (maxDepth > 0 ==> Depth(current) <= maxDepth)
      modifies this`nodeMap, this`nodes, this`live, this`loose
      ensures Nearly() && old(live) <= live && fresh(live - old(live)) && n in live && n.tag == current
      ensures found == (current in old(nodes)) && (if found then n in old(live) else fresh(n))
      ensures loose == old(loose) + if found then {} else {n}
      ensures Values() == (if found then old(Values()) else old(Values())[current := v]) && Worn() == old(Worn())
      ensures Kids() == if found then old(Kids()) else old(Kids())[n := []]
      ensures old(Exact()) ==> Exact()
    {
      hide Mapped, Values, Worn, Exact, Depth, Ancestor, Up, Down, Listed, Kids;
      var node := Find(current);
      found := node != null;
      if node == null {
        n := Register(current, v);
      } else {
        n := node;
      }
    }

    // One pass of the loop in insert, for the tag `current`.
    method Visit(current: Tag, v: Value, child: TagNode?) returns (n: TagNode, found: bool)
      requires Nearly() && Loose(child) && (maxDepth > 0 ==> Depth(current) <= maxDepth)
      requires child != null ==> child.tag != [] && Ancestor(child.tag) == current
      modifies this`nodeMap, this`nodes, this`live, this`loose, live`parent, live`children
      ensures Nearly() && old(live) <= live && fresh(live - old(live)) && n in live && n.tag == current
      ensures found == (current in old(nodes)) && Loose(if found then null else n)
      ensures found ==> View() == old(Pending(child))
      ensures !found ==> View() == State(old(Values())[current := v], old(Pending(child)).worn)
      ensures (!found ==> fresh(n)) && Kids() == WithChild(old(Kids()), n, child)
      ensures old(Exact()) ==> Exact()
    {
      hide Mapped, Values, Worn, Exact, Depth, Ancestor, Up, Down, Listed, Kids, WithChild;
      ghost var kids := KidsNow();
      n, found := FindOrMake(current, v);
      ChildOnce(kids, n, child);
      ChildOnce(if found then kids else kids[n := []], n, null);
      if child != null {
        Link(child, n);
      }
    }

    method TruncateTag(t: Tag) returns (current: Tag)
      ensures current == Truncate(maxDepth, t)
    {
      current := t;
      if maxDepth > 0 && Depth(t) > maxDepth {
        var maxloops := Depth(t) - maxDepth;
        for ii := 0 to maxloops
          invariant Climb(current, maxloops - ii) == Climb(t, maxloops)
        {
          current := Ancestor(current);
        }
      }
    }

    // What the rest of the loop has to bring about, with the tag `current` to be visited next.
    ghost predicate Heading(child: TagNode?, current: Tag, v: Value, target: State<Value>)
      requires Mapped()
      reads this, live
    {
      Grow(Pending(child), current, v, none) == target
    }

    lemma Starting(current: Tag, v: Value)
      requires Valid() && (maxDepth > 0 ==> Depth(current) <= maxDepth)
      ensures Progress(null, current, v, Grow(View(), current, v, none), Depth(current) + 1, false)
    {
    }

    lemma Visiting(child: TagNode?, current: Tag, v: Value, target: State<Value>)
      requires Mapped() && Heading(child, current, v, target)
      ensures Pending(child).vals == Values() && Grow(Pending(child), current, v, none) == target
      ensures current in nodes <==> current in Values()
      ensures current in nodes ==> Pending(child) == target
    {
    }

    lemma Headed(n: TagNode, v: Value, was: State<Value>, target: State<Value>)
      requires Mapped() && Grow(was, n.tag, v, none) == target && n.tag !in was.vals
      requires View() == State(was.vals[n.tag := v], was.worn)
      ensures if n.tag == [] then View() == target else Heading(n, Ancestor(n.tag), none, target)
    {
    }

    lemma DepthDown(t: Tag)
      ensures if t == [] then Depth(t) == 0 else Depth(Ancestor(t)) == Depth(t) - 1
    {
    }

    lemma RootTight(n: TagNode)
      requires Nearly() && loose == {n} && n.tag == []
      ensures forall m :: m in live ==> Up(live, m)
    {
    }

    // Where the loop in insert stands, with `left` rounds to go.
    ghost predicate Progress(child: TagNode?, current: Tag, v: Value, target: State<Value>, left: nat, linked: bool)
      reads this, live
    {
      && Nearly() && Loose(child) && (maxDepth > 0 ==> left <= maxDepth + 1)
      && if linked then child == null && View() == target
         else if left == 0 then child != null && child.tag == [] && View() == target
         else
           && Depth(current) == left - 1 && Heading(child, current, v, target)
           && (child != null ==> child.tag != [] && Ancestor(child.tag) == current)
    }

    // One round of the loop.
    method Round(current: Tag, v: Value, child: TagNode?, ghost target: State<Value>, ghost left: nat)
      returns (n: TagNode, found: bool)
      requires left > 0 && Progress(child, current, v, target, left, false)
      modifies this`nodeMap, this`nodes, this`live, this`loose, live`parent, live`children
      ensures Progress(if found then null else n, Ancestor(current), none, target, left - 1, found)
      ensures old(live) <= live && fresh(live - old(live)) && n in live && n.tag == current
      ensures found == (current in old(nodes)) && (!found ==> fresh(n))
      ensures Kids() == WithChild(old(Kids()), n, child) && (old(Exact()) ==> Exact())
    {
      hide WithChild, Mapped, Exact, Depth, Ancestor, Up, Down, Listed, Values, Worn, Truncate, Grow, Heading, Pending;
      ghost var was := Pending(child);
      Visiting(child, current, v, target);
      DepthDown(current);
      n, found := Visit(current, v, child);
      if !found {
        Headed(n, v, was, target);
      }
    }

    // The loop is over.
    ghost method Finish(child: TagNode?, current: Tag, v: Value, target: State<Value>, left: nat, linked: bool)
      requires Progress(child, current, v, target, left, linked) && (linked || left == 0)
      modifies this`loose
      ensures Valid() && View() == target && (old(Exact()) ==> Exact())
    {
      hide Mapped, Exact, Depth, Ancestor, Up, Down, Listed, Values, Worn, Heading, Pending;
      if loose != {} {
        RootTight(child);
      }
      loose := {};
    }

    /** insert: the node for the tag, and whether it was made here. */
    method Insert(t: Tag, x: Value) returns (first: TagNode, added: bool)
      requires Valid()
      modifies this`nodeMap, this`nodes, this`live, this`loose, live`parent, live`children
      ensures Valid() && old(live) <= live && fresh(live - old(live))
      ensures View() == Grow(old(View()), Truncate(maxDepth, t), x, none)
      ensures first in live && first.tag == Truncate(maxDepth, t)
      ensures added == (Truncate(maxDepth, t) !in old(nodes))
      ensures Appended(old(live), old(Kids()), Kids())
      ensures old(Exact()) ==> Exact()
    {
      hide Appended, WithChild, Progress, Mapped, Exact, Depth, Ancestor, Up, Down, Listed, Values, Worn, Truncate,
        Grow;
      ghost var before, kids0 := live, Kids();
      var current := TruncateTag(t);
      TruncateDepth(maxDepth, t);
      ghost var target, start := Grow(View(), current, x, none), current;
      var maxloops := Depth(current) + 1;
      Starting(current, x);
      AppendedNone(before, kids0);
      var ii, linked := 0, false;
      var child: TagNode?, result: TagNode? := null, null;
      added := false;
      while ii < maxloops && !linked
        invariant 0 <= ii <= maxloops && (linked ==> ii > 0)
        invariant Progress(child, current, if result == null then x else none, target, maxloops - ii, linked)
        invariant before <= live && fresh(live - before) && (old(Exact()) ==> Exact())
        invariant Appended(before, kids0, Kids()) && (child != null ==> child in live && child !in before)
        invariant if ii == 0 then result == null && current == start && nodes == old(nodes)
                  else result != null && result in live && result.tag == start && added == (start !in old(nodes))
      {
        ghost var kids := Kids();
        var n, found := Round(current, if result == null then x else none, child, target, maxloops - ii);
        AppendedMore(before, kids0, kids, n, child);
        if result == null {
          result, added := n, !found;
        }
        linked := found;
        child := if found then null else n;
        current := Ancestor(current);
        ii := ii + 1;
      }
      Finish(child, current, if result == null then x else none, target, maxloops - ii, linked);
      first := result;
    }

    // ---------------------------------------------------------------- erasing

    method DestroyNode(n: TagNode)
      requires n in live
      modifies `live
      ensures live == old(live) - {n}
    {
      live := live - {n};
    }

    twostate predicate Drop(new n: TagNode)
      reads this, live, n
    {
      && n in old(live) && n.children == [] && loose == {} && maxDepth == old(maxDepth)
      && nodes == old(nodes) - {n.tag} && live == old(live) - {n}
      && forall m :: m in old(live) ==> unchanged(m)
    }

    twostate lemma DroppedMap(new n: TagNode)
      requires old(Valid())
      requires Drop(n) && MapRuns.Denotes(TagLess, nodeMap, nodes)
      ensures Mapped() && View() == EraseTag(old(View()), n.tag, none)
    {
      hide MapRuns.Denotes, TagLess, Ancestor, Depth, Up, Down, Listed;
      assert Values() == old(Values()) - {n.tag};
      assert Worn() == old(Worn());
      assert n.tag !in old(Worn());
    }

    twostate lemma DroppedLinks(new n: TagNode)
      requires old(Valid())
      requires Drop(n)
      ensures forall m :: m in live ==> Up(live, m) && Down(m)
    {
      hide MapRuns.Denotes, TagLess, Ancestor, Depth, DepthsFit;
      forall m | m in live
        ensures Up(live, m) && Down(m)
      {
        assert old(Up(live, m)) && old(Down(m));
      }
    }

    twostate predicate Blank(new n: TagNode)
      reads this, live
    {
      && n in live && n.children != [] && n.value == none
      && nodeMap == old(nodeMap) && nodes == old(nodes) && live == old(live) && loose == {} && maxDepth == old(maxDepth)
      && forall m :: m in live ==>
         m.children == old(m.children) && m.parent == old(m.parent) && (m != n ==> m.value == old(m.value))
    }

    twostate lemma BlankedMap(new n: TagNode)
      requires old(Mapped())
      requires Blank(n)
      ensures Mapped() && View() == EraseTag(old(View()), n.tag, none)
    {
      hide MapRuns.Denotes, TagLess, Ancestor, Depth, DepthsFit;
      assert Values() == old(Values())[n.tag := none];
      assert Worn() == old(Worn());
    }

    twostate lemma BlankedLinks(new n: TagNode)
      requires old(Valid())
      requires Blank(n)
      ensures forall m :: m in live ==> Up(live, m) && Down(m)
    {
      hide Mapped, Listed, TagLess, Ancestor;
      forall m | m in live
        ensures Up(live, m) && Down(m)
      {
        assert old(Up(live, m)) && old(Down(m));
      }
    }

    lemma CutTag(t: Tag)
      requires MapRuns.Denotes(TagLess, nodeMap, nodes) && t in nodes
      ensures var i := SortedMap.LowerIndex(TagLess, nodeMap, t);
        i < |nodeMap| && MapRuns.Denotes(TagLess, RemoveAt(nodeMap, i), nodes - {t})
    {
      hide TagLess, MapRuns.Denotes, RemoveAt, SortedMap.LowerIndex;
      TagOrderTotal();
      MapRuns.HasIsIn(TagLess, nodeMap, nodes, t);
      MapRuns.CutOne(TagLess, nodeMap, nodes, SortedMap.LowerIndex(TagLess, nodeMap, t));
    }

    method DestroyLeaf(n: TagNode)
      requires Valid() && n in live && n.children == []
      modifies `nodeMap, `nodes, `live
      ensures Valid() && View() == EraseTag(old(View()), n.tag, none) && live == old(live) - {n}
      ensures n.tag in old(nodes) && nodes == old(nodes) - {n.tag}
    {
      hide EraseTag, Up, Down, Listed, Ancestor, TagLess, MapRuns.Denotes, RemoveAt, SortedMap.LowerIndex, Values,
        Worn, DepthsFit;
      DestroyNode(n);
      CutTag(n.tag);
      nodeMap := RemoveAt(nodeMap, SortedMap.LowerIndex(TagLess, nodeMap, n.tag));
      nodes := nodes - {n.tag};
      DroppedMap(n);
      DroppedLinks(n);
    }

    lemma ErasedValues(n: TagNode)
      requires Valid() && n in live
      ensures n.tag in nodes && nodes[n.tag] == n
      ensures EraseTag(View(), n.tag, none).vals ==
        if n.children != [] then Values()[n.tag := none] else Values() - {n.tag}
    {
      hide MapRuns.Denotes, TagLess, Ancestor, Depth, DepthsFit, Up, Down, Listed;
    }

    /** erase(position): a node that lists children is only emptied. */
    method Erase(position: TagNode)
      requires Valid() && position in live
      modifies `nodeMap, `nodes, `live, position`value
      ensures Valid() && View() == EraseTag(old(View()), position.tag, none)
      ensures live == if position.children == [] then old(live) - {position} else old(live)
      ensures position.children == old(position.children) && position.tag in old(nodes)
      ensures if position.children != [] then
          position.value == none && nodes == old(nodes) && Values() == old(Values())[position.tag := none]
        else nodes == old(nodes) - {position.tag} && Values() == old(Values()) - {position.tag}
    {
      hide EraseTag, Up, Down, Listed, Ancestor, TagLess, Mapped, Values, Worn;
      ErasedValues(position);
      if position.children != [] {
        position.value := none;
        BlankedMap(position);
        BlankedLinks(position);
      } else {
        DestroyLeaf(position);
      }
    }

    /** erase(tag). */
    method EraseByTag(t: Tag) returns (count: nat)
      requires Valid()
      modifies `nodeMap, `nodes, `live, live`value
      ensures Valid() && View() == EraseTag(old(View()), t, none)
      ensures count == (if t in old(nodes) then 1 else 0) && live <= old(live)
      ensures if t !in old(nodes) then nodes == old(nodes) && Values() == old(Values())
        else if old(nodes[t].children) != [] then nodes == old(nodes) && Values() == old(Values())[t := none]
        else nodes == old(nodes) - {t} && Values() == old(Values()) - {t}
    {
      var n := Find(t);
      if n != null {
        Erase(n);
        return 1;
      }
      return 0;
    }

    // The nodes from position i of the map on.
    ghost function NodesFrom(i: nat): set<TagNode>
      reads `nodeMap
    {
      set j | i <= j < |nodeMap| :: nodeMap[j].1
    }

    lemma NodesOnce(i: nat)
      requires MapRuns.Denotes(TagLess, nodeMap, nodes) && (forall t :: t in nodes ==> nodes[t].tag == t)
      requires i < |nodeMap|
      ensures nodeMap[i].1 !in NodesFrom(i + 1) && NodesFrom(i) == {nodeMap[i].1} + NodesFrom(i + 1)
    {
      forall j | i < j < |nodeMap|
        ensures nodeMap[j].1 != nodeMap[i].1
      {
        NeverBoth(nodeMap[i].0, nodeMap[j].0);
      }
    }

    lemma AllNodes()
      requires Indexed()
      ensures live == NodesFrom(0)
    {
      forall n | n in live
        ensures n in NodesFrom(0)
      {
        assert MapRuns.KeyAt(nodeMap, n.tag);
      }
    }

    // Every node in the map is destroyed once.
    method DestroyAll()
      requires Indexed()
      modifies `live
      ensures live == {}
    {
      hide TagLess, MapRuns.Denotes, DepthsFit;
      AllNodes();
      var i := 0;
      while i < |nodeMap|
        invariant 0 <= i <= |nodeMap|
        invariant live == NodesFrom(i)
      {
        NodesOnce(i);
        DestroyNode(nodeMap[i].1);
        i := i + 1;
      }
    }

    method Clear()
      requires Indexed() && loose == {}
      modifies `nodeMap, `nodes, `live
      ensures Valid() && Exact() && live == {} && nodeMap == [] && View() == State(map[], {})
    {
      DestroyAll();
      nodeMap := [];
      nodes := map[];
      NothingYet();
    }

    /** The destructor. */
    method Destroy()
      requires Valid()
      modifies `live
      ensures live == {}
    {
      DestroyAll();
    }

    // ---------------------------------------------------------------- copying

    ghost function Keys(): (r: seq<Tag>)
      reads `nodeMap
      ensures |r| == |nodeMap| && forall i :: 0 <= i < |r| ==> r[i] == nodeMap[i].0
    {
      var e := nodeMap;
      seq(|e|, i requires 0 <= i < |e| => e[i].0)
    }

    /** The view of a valid tree is closed under ancestors. */
    lemma ViewClosed()
      requires Valid()
      ensures Closed(View()) && DepthsFit(maxDepth, Values())
    {
      hide TagLess, Ancestor, Depth;
      forall u
        ensures UpStored(View(), u)
      {
        if u in nodes {
          assert Up(live, nodes[u]);
        }
      }
    }

    /** While no destroyed child is listed, exactly the ancestors of stored tags are worn. */
    lemma ExactTight()
      requires Valid() && Exact()
      ensures Tight(View())
    {
      hide TagLess, Ancestor, Depth, DepthsFit, MapRuns.Denotes;
      ViewClosed();
      forall t | t in Worn()
        ensures t in Parents(Values().Keys)
      {
        var n := nodes[t];
        var c := n.children[0];
        assert Down(n) && c in live;
        ParentListed(Values().Keys, c.tag);
      }
      ClosedTight(View());
    }

    /** While no destroyed child is listed, erase takes a node away exactly when no stored tag lies below it. */
    lemma ErasesLeaf(n: TagNode)
      requires Valid() && Exact() && n in live
      ensures n.children == [] <==> forall u :: u in nodes && u != n.tag ==> n.tag !in Chain(u)
    {
      ViewClosed();
      ExactTight();
      EraseIff(View(), n.tag, none);
      EraseLeaf(View(), n.tag, none);
    }

    /** That is so in every tree reached from the constructor without erase. */
    lemma ReachedErasesLeaf(ops: seq<Op<Value>>, n: TagNode)
      requires Valid() && View() == TagSpec.Run(maxDepth, none, Start(none), ops) && n in live
      requires forall i :: 0 <= i < |ops| ==> !ops[i].Erase?
      ensures n.children == [] <==> forall u :: u in nodes && u != n.tag ==> n.tag !in Chain(u)
    {
      ViewClosed();
      StartClosed(none);
      RunClosed(maxDepth, none, Start(none), ops);
      EraseIff(View(), n.tag, none);
      EraseLeaf(View(), n.tag, none);
    }

    lemma KeysListed()
      requires Valid()
      ensures Lists(Keys(), Values()) && KeysStored()
    {
      forall t | t in Values()
        ensures t in Keys()
      {
        assert MapRuns.KeyAt(nodeMap, t);
        var i :| 0 <= i < |nodeMap| && nodeMap[i].0 == t;
        assert Keys()[i] == t;
      }
    }

    lemma EntryAt(i: nat)
      requires Valid() && i < |nodeMap|
      ensures var n := nodeMap[i].1; n in live && n.tag == Keys()[i] && n.tag in nodes && nodes[n.tag] == n
    {
    }

    method InsertEntry(x: TagTree, i: nat)
      requires Valid() && Exact() && x != this && x.Valid() && maxDepth == x.maxDepth && none == x.none
        && live !! x.live
      requires i < |x.nodeMap| && x.KeysStored() && View() == Fill(maxDepth, none, x.Keys(), x.Values(), i)
      modifies this`nodeMap, this`nodes, this`live, this`loose, live`parent, live`children
      ensures Valid() && Exact() && old(live) <= live && fresh(live - old(live))
      ensures x.Valid() && x.Keys() == old(x.Keys()) && x.Values() == old(x.Values()) && x.KeysStored()
      ensures View() == Fill(maxDepth, none, x.Keys(), x.Values(), i + 1)
    {
      hide Indexed, TagLess, Exact, Depth, DepthsFit, MapRuns.Denotes, Truncate, Grow, Worn, Up, Down, Listed;
      x.EntryAt(i);
      var n := x.nodeMap[i].1;
      var first, added := Insert(n.tag, n.value);
    }

    ghost predicate KeysStored()
      requires Mapped()
      reads `maxDepth, `nodeMap, `nodes, `live, live`value
    {
      forall i :: 0 <= i < |Keys()| ==> Keys()[i] in Values()
    }

    // The nodes and the map entries say the same.
    lemma NothingStored()
      requires Mapped()
      ensures Values() == map[] <==> live == {}
      ensures nodeMap == [] ==> Values() == map[]
    {
      assert forall t :: t in nodes ==> nodes[t] in live;
      assert forall n :: n in live ==> n.tag in Values();
      forall t | t in nodes
        ensures nodeMap != []
      {
        assert MapRuns.KeyAt(nodeMap, t);
      }
    }

    // Insert every entry of x, in the order of its map.
    method InsertAll(x: TagTree)
      requires Valid() && Exact() && View() == State(map[], {}) && live == {}
      requires x != this && x.Valid() && maxDepth == x.maxDepth && none == x.none
      modifies this`nodeMap, this`nodes, this`live, this`loose
      ensures Valid() && Exact() && fresh(live) && View() == State(x.Values(), Parents(x.Values().Keys))
    {
      hide Indexed, TagLess, Exact, Depth, DepthsFit, MapRuns.Denotes, Truncate, Grow, Worn, Up, Down, Listed, Values,
        Parents, Fill;
      x.KeysListed();
      Unfilled(x);
      var i := 0;
      while i < |x.nodeMap|
        invariant 0 <= i <= |x.nodeMap| && Valid() && Exact() && fresh(live)
        invariant x.Valid() && x.Keys() == old(x.Keys()) && x.Values() == old(x.Values()) && x.KeysStored()
        invariant View() == Fill(maxDepth, none, x.Keys(), x.Values(), i)
      {
        InsertEntry(x, i);
        i := i + 1;
      }
      Copied(x);
    }

    lemma Unfilled(x: TagTree)
      requires x.Mapped() && x.KeysStored()
      ensures Fill(maxDepth, none, x.Keys(), x.Values(), 0) == State(map[], {})
    {
    }

    lemma Copied(x: TagTree)
      requires Mapped() && x.Valid() && x.KeysStored() && maxDepth == x.maxDepth
      requires View() == Fill(maxDepth, none, x.Keys(), x.Values(), |x.nodeMap|)
      ensures View() == State(x.Values(), Parents(x.Values().Keys))
    {
      x.ViewClosed();
      x.KeysListed();
      CopyExact(maxDepth, none, x.View(), x.Keys());
    }

    /** The copy constructor. */
    constructor Copy(x: TagTree)
      requires x.Valid()
      ensures Valid() && Exact() && fresh(live) && maxDepth == x.maxDepth && none == x.none
      ensures View() == State(x.Values(), Parents(x.Values().Keys))
    {
      maxDepth := x.maxDepth;
      none := x.none;
      nodeMap := [];
      nodes := map[];
      live := {};
      loose := {};
      new;
      NothingYet();
      InsertAll(x);
    }

    /** operator=.  A tree assigned to itself is cleared first and then has nothing left to insert:
        not even the root is kept. */
    method Assign(x: TagTree)
      requires Valid() && x.Valid() && none == x.none
      modifies this`maxDepth, this`nodeMap, this`nodes, this`live, this`loose
      ensures Valid() && Exact() && fresh(live) && maxDepth == old(x.maxDepth)
      ensures View() == if x == this then State(map[], {}) else State(old(x.Values()), Parents(old(x.Values()).Keys))
      ensures Values() == old(x.Values()) <==> x != this || old(live) == {}
    {
      hide Indexed, TagLess, Exact, Depth, DepthsFit, MapRuns.Denotes, Up, Down, Listed;
      NothingStored();
      maxDepth := x.maxDepth;
      Clear();
      x.NothingStored();
      if x.nodeMap != [] {
        InsertAll(x);
      }
    }

    // ---------------------------------------------------------------- operator[] and whole runs

    // A write through the reference that operator[] returns.
    method SetValue(n: TagNode, x: Value)
      requires Valid() && n in live
      modifies n`value
      ensures Valid() && n.tag in old(nodes) && (old(Exact()) ==> Exact())
      ensures View() == State(old(Values())[n.tag := x], old(Worn()))
    {
      hide MapRuns.Denotes, TagLess, Ancestor, Depth, DepthsFit, Up, Down, Listed;
      n.value := x;
      assert Values() == old(Values())[n.tag := x];
    }

    /** operator[]. */
    method Subscript(t: Tag) returns (n: TagNode)
      requires Valid()
      modifies this`nodeMap, this`nodes, this`live, this`loose, live`parent, live`children
      ensures Valid() && old(live) <= live && fresh(live - old(live)) && n in live && n.tag == Truncate(maxDepth, t)
      ensures View() == Grow(old(View()), Truncate(maxDepth, t), none, none)
      ensures old(Exact()) ==> Exact()
    {
      var added;
      n, added := Insert(t, none);
    }

    /** One call of the interface. */
    method Apply(op: Op<Value>)
      requires Valid()
      modifies this`nodeMap, this`nodes, this`live, this`loose, live
      ensures Valid() && fresh(live - old(live)) && View() == Step(maxDepth, none, old(View()), op)
      ensures !op.Erase? && old(Exact()) ==> Exact()
    {
      hide Grow, Truncate, Indexed, DepthsFit, Up, Down, Listed, Exact, EraseTag, Values, Worn;
      match op
      case Insert(t, x) =>
        var n, added := Insert(t, x);
      case Subscript(t) =>
        var n := Subscript(t);
      case SubscriptAssign(t, x) =>
        var n := Subscript(t);
        SetValue(n, x);
      case Erase(t) =>
        var count := EraseByTag(t);
      case Clear =>
        Clear();
    }

    /** A whole run; RunClosed says what every run keeps. */
    method Run(ops: seq<Op<Value>>)
      requires Valid()
      modifies this`nodeMap, this`nodes, this`live, this`loose, live
      ensures Valid() && fresh(live - old(live)) && View() == TagSpec.Run(maxDepth, none, old(View()), ops)
      ensures (forall i :: 0 <= i < |ops| ==> !ops[i].Erase?) && old(Exact()) ==> Exact()
    {
      hide Indexed, DepthsFit, Up, Down, Listed, Exact, Step, Values, Worn;
      for i := 0 to |ops|
        invariant Valid() && fresh(live - old(live)) && View() == TagSpec.Run(maxDepth, none, old(View()), ops[..i])
        invariant (forall j :: 0 <= j < i ==> !ops[j].Erase?) && old(Exact()) ==> Exact()
      {
        assert ops[..i + 1][..i] == ops[..i];
        Apply(ops[i]);
      }
      assert ops[..|ops|] == ops;
    }
  }
}
