/** Oscl_Rb_Tree_Base: the pointer algorithms of the tree over real nodes, each kept in step with a
    snapshot of its links. */
module RbBase {
  import opened SeqEdits
  import opened RbLinks
  import opened RbColors
  import opened RbSteps
  import opened RbClone

  ghost predicate SameItems(cl: Clones)
    reads cl.Keys`val, cl.Values`val
  {
    forall n {:trigger cl[n]} :: n in cl ==> cl[n].key == n.key && cl[n].val == n.val
  }

  lemma AddedItem(cl: Clones, x: Node, top: Node)
    requires SameItems(cl) && top.key == x.key && top.val == x.val
    ensures SameItems(cl[x := top]) && cl[x := top].Values <= cl.Values + {top}
  {
  }

  lemma LoneItem(x: Node, top: Node)
    requires top.key == x.key && top.val == x.val
    ensures SameItems(map[x := top])
  {
  }

  lemma CopiedItems(cl: Clones, s: seq<Node>)
    requires SameItems(cl) && forall i :: 0 <= i < |s| ==> s[i] in cl
    ensures var t := CloneOrder(cl, s);
      forall i :: 0 <= i < |s| ==> t[i].key == s[i].key && t[i].val == s[i].val
  {
  }

  lemma MergedItems(cl: Clones, cl2: Clones)
    requires SameItems(cl) && SameItems(cl2)
    ensures SameItems(cl + cl2) && (cl + cl2).Values <= cl.Values + cl2.Values
  {
    var c := cl + cl2;
    forall n | n in c
      ensures c[n].key == n.key && c[n].val == n.val && c[n] in cl.Values + cl2.Values
    {
      assert n in cl2 ==> c[n] == cl2[n];
      assert n !in cl2 ==> c[n] == cl[n];
    }
  }

  class Base {
    const header: Node
    ghost var mem: Mem
    ghost var order: seq<Node>

    constructor ()
      ensures Sync() && Sound(mem, header, order) && order == [] && mem.Keys == {header} && fresh(header)
    {
      header := new Node.Header();
      mem := map[];
      order := [];
      new;
      mem := map[header := Cell(Red, null, header, header, 0, 0, 0, 0)];
      assert Tied(header);
    }

    ghost predicate Tied(n: Node)
      requires n in mem
      reads `mem, n
    {
      n.color == mem[n].color && n.parent == mem[n].parent && n.left == mem[n].left && n.right == mem[n].right
    }

    ghost predicate Sync()
      reads `mem, mem.Keys
    {
      header in mem && forall n {:trigger Tied(n)} :: n in mem ==> Tied(n)
    }

    ghost method Regauge(m: Mem)
      requires Sync() && SameLinks(mem, m) && header in m
      modifies this`mem
      ensures Sync() && mem == m
    {
      mem := m;
      forall k | k in mem ensures Tied(k) { assert old(Tied(k)); }
    }

    method SetParent(n: Node, p: Node?)
      requires Sync() && n in mem
      modifies this`mem, n`parent
      ensures Sync() && mem == old(mem)[n := old(mem)[n].(parent := p)]
    {
      n.parent := p;
      mem := mem[n := mem[n].(parent := p)];
      forall k | k in mem ensures Tied(k) { assert old(Tied(k)); }
    }

    method SetKid(n: Node, d: Dir, k: Node?)
      requires Sync() && n in mem
      modifies this`mem, n`left, n`right
      ensures Sync() && mem == old(mem)[n := old(mem)[n].WithKid(d, k)]
    {
      if d == Left { n.left := k; } else { n.right := k; }
      mem := mem[n := mem[n].WithKid(d, k)];
      forall k | k in mem ensures Tied(k) { assert old(Tied(k)); }
    }

    method SetVal(n: Node, v: Val)
      requires Sync() && n in mem
      modifies n`val
      ensures Sync() && n.val == v
    {
      n.val := v;
      forall k | k in mem ensures Tied(k) { assert old(Tied(k)); }
    }

    method GetKid(n: Node, d: Dir) returns (k: Node?)
      requires Sync() && n in mem
      ensures k == mem[n].Kid(d)
    {
      k := if d == Left then n.left else n.right;
      assert Tied(n);
    }

    // header.parent, or the child link of p, that pointed at x now points at y.
    method SetChildOf(p: Node, x: Node, y: Node?)
      requires Sync() && p in mem
      requires p != header ==> mem[p].left == x || mem[p].right == x
      modifies this`mem, p`parent, p`left, p`right
      ensures Sync()
      ensures mem == old(mem)[p := ChildCell(header, p, old(mem)[p], x, y)]
    {
      assert Tied(p);
      if p == header {
        SetParent(header, y);
      } else if p.left == x {
        SetKid(p, Left, y);
      } else {
        SetKid(p, Right, y);
      }
    }

    method Rotate(d: Dir, x: Node)
      requires Sync() && Shaped(mem, header, order) && x in mem && x != header && mem[x].Kid(d.Opp()) != null
      modifies this`mem, mem.Keys`color, mem.Keys`parent, mem.Keys`left, mem.Keys`right
      ensures Sync() && Shaped(mem, header, order)
      ensures IsRot(old(mem), mem, header, d, x, old(mem)[x].Kid(d.Opp()))
    {
      hide Shaped, RelinkMem, RotMem, SameLinks;
      ghost var m, s := mem, order;
      RotNames(m, header, s, d, x);
      assert Tied(x);
      var y := GetKid(x, d.Opp());
      var b := GetKid(y, d);
      var p := x.parent;
      Relink(d, x, y, b, p);
      RelinkIsRot(m, header, d, x, y, b, p);
      Regauge(RotMem(m, header, d, x, y));
      RotShaped(m, mem, header, s, d, x, y);
    }

    method Relink(d: Dir, x: Node, y: Node, b: Node?, p: Node)
      requires Sync() && x in mem && y in mem && p in mem && (b != null ==> b in mem)
      requires Apart(mem, header, d, x, y, b, p)
      modifies this`mem, mem.Keys`color, mem.Keys`parent, mem.Keys`left, mem.Keys`right
      ensures Sync() && mem == RelinkMem(old(mem), header, d, x, y, b, p)
    {
      SetKid(x, d.Opp(), b);
      if b != null {
        SetParent(b, x);
      }
      SetParent(y, p);
      SetChildOf(p, x, y);
      SetKid(y, d, x);
      SetParent(x, y);
    }

    method SetColor(n: Node, c: Color, ghost b: int)
      requires Sync() && n in mem
      modifies this`mem, n`color
      ensures Sync() && mem == PaintMem(old(mem), n, c, b)
    {
      n.color := c;
      mem := PaintMem(mem, n, c, b);
      forall k | k in mem ensures Tied(k) { assert old(Tied(k)); }
    }

    method SetColors2(a: Node, ca: Color, ghost ba: int, b: Node, cb: Color, ghost bb: int)
      requires Sync() && a in mem && b in mem
      modifies this`mem, a`color, b`color
      ensures Sync() && mem == PaintMem(PaintMem(old(mem), a, ca, ba), b, cb, bb)
    {
      SetColor(a, ca, ba);
      SetColor(b, cb, bb);
    }

    method SetColors3(a: Node, ca: Color, ghost ba: int, b: Node, cb: Color, ghost bb: int, c: Node, cc: Color,
                      ghost bc: int)
      requires Sync() && a in mem && b in mem && c in mem
      modifies this`mem, a`color, b`color, c`color
      ensures Sync() && mem == PaintMem(PaintMem(PaintMem(old(mem), a, ca, ba), b, cb, bb), c, cc, bc)
    {
      SetColors2(a, ca, ba, b, cb, bb);
      SetColor(c, cc, bc);
    }

    // ---------------------------------------------------------------- rebalance

    ghost predicate AtRest(x: Node)
      requires x in mem && header in mem
      reads this
    {
      mem[header].parent == x || (mem[x].parent in mem && mem[mem[x].parent].color == Black)
    }

    method HasRed(n: Node?) returns (r: bool)
      requires Sync() && (n != null ==> n in mem)
      ensures r == IsRed(mem, n)
    {
      assert n != null ==> Tied(n);
      r := n != null && n.color == Red;
    }

    method GetParent(n: Node) returns (p: Node?)
      requires Sync() && n in mem
      ensures p == mem[n].parent
    {
      assert Tied(n);
      p := n.parent;
    }

    method RebalanceStep(x: Node) returns (x': Node)
      requires Sync() && Blush(mem, header, order, x) && !AtRest(x)
      modifies this`mem, mem.Keys`color, mem.Keys`parent, mem.Keys`left, mem.Keys`right
      ensures Sync() && Blush(mem, header, order, x') && SameEnds(old(mem), mem, header)
      ensures AtRest(x') || mem[x'].hi - mem[x'].lo > old(mem)[x].hi - old(mem)[x].lo
    {
      hide Sync, Shaped, Painted;
      ghost var m, s := mem, order;
      FamilyOf(m, header, s, x);
      var p := GetParent(x);
      var g := GetParent(p);
      var l := GetKid(g, Left);
      var d := if l == p then Left else Right;
      var u := GetKid(g, d.Opp());
      var red := HasRed(u);
      if red {
        FlipStep(m, header, s, x, p, u, g, d);
        SetColors3(p, Black, m[p].bh + 1, u, Black, m[u].bh + 1, g, Red, m[g].bh);
        x' := g;
      } else {
        x' := RebalanceTurn(x, p, g, d);
      }
    }

    method RebalanceTurn(x0: Node, p0: Node, g: Node, d: Dir) returns (x: Node)
      requires Sync() && Blush(mem, header, order, x0) && Family(mem, header, x0, p0, g, d)
      requires mem[p0].left == x0 || mem[p0].right == x0
      requires mem[g].Kid(d.Opp()) != null ==> mem[g].Kid(d.Opp()) in mem && mem[mem[g].Kid(d.Opp())].color == Black
      modifies this`mem, mem.Keys`color, mem.Keys`parent, mem.Keys`left, mem.Keys`right
      ensures Sync() && Blush(mem, header, order, x) && SameEnds(old(mem), mem, header) && AtRest(x)
    {
      var inner := GetKid(p0, d.Opp());
      if x0 == inner {
        ghost var m := mem;
        FamilyApart(m, header, order, x0, p0, g, d);
        Rotate(d, p0);
        InnerStep(m, mem, header, order, x0, p0, g, d);
        RaiseOuter(p0, x0, g, d);
        x := p0;
      } else {
        RaiseOuter(x0, p0, g, d);
        x := x0;
      }
    }

    method RaiseOuter(x: Node, p: Node, g: Node, d: Dir)
      requires Sync() && Blush(mem, header, order, x) && Family(mem, header, x, p, g, d) && mem[p].Kid(d) == x
      requires mem[g].Kid(d.Opp()) != null ==> mem[g].Kid(d.Opp()) in mem && mem[mem[g].Kid(d.Opp())].color == Black
      modifies this`mem, mem.Keys`color, mem.Keys`parent, mem.Keys`left, mem.Keys`right
      ensures Sync() && Blush(mem, header, order, x) && SameEnds(old(mem), mem, header) && AtRest(x)
    {
      hide Sync, Shaped, Painted;
      ghost var m := mem;
      Rotate(d.Opp(), g);
      OuterStep(m, mem, header, order, x, p, g, d);
      SetColors2(p, Black, m[p].bh + 1, g, Red, m[g].bh - 1);
    }

    method Rebalance(z: Node)
      requires Sync() && Blush(mem, header, order, z) && Ends(mem, header, order)
      modifies this`mem, mem.Keys`color, mem.Keys`parent, mem.Keys`left, mem.Keys`right
      ensures Sync() && Sound(mem, header, order) && mem.Keys == old(mem.Keys)
    {
      hide Sync, Shaped, Painted;
      var x := z;
      var going := NotAtRest(x);
      while going
        invariant Sync() && Blush(mem, header, order, x) && Ends(mem, header, order) && mem.Keys == old(mem.Keys)
        invariant going == !AtRest(x)
        decreases if going then |order| + 1 - (mem[x].hi - mem[x].lo) else 0
      {
        NearOf(mem, header, order, x);
        x := RebalanceStep(x);
        NearOf(mem, header, order, x);
        going := NotAtRest(x);
      }
      NonEmpty(mem, header, order, x);
      RootSpan(mem, header, order);
      BlackenRoot(x);
    }

    method BlackenRoot(ghost x: Node)
      requires Sync() && Blush(mem, header, order, x) && AtRest(x) && Ends(mem, header, order)
        && mem[header].parent != null
      modifies this`mem, mem.Keys`color
      ensures Sync() && Sound(mem, header, order) && mem.Keys == old(mem.Keys)
    {
      hide Sync, Shaped, Painted;
      RootStep(mem, header, order, x);
      RootIsBelow(mem, header, order);
      var root := GetParent(header);
      SetColor(root, Black, if mem[root].color == Red then mem[root].bh + 1 else mem[root].bh);
    }

    method NotAtRest(x: Node) returns (r: bool)
      requires Sync() && Blush(mem, header, order, x)
      ensures r == !AtRest(x)
    {
      NearOf(mem, header, order, x);
      assert Tied(x) && Tied(header) && Tied(mem[x].parent);
      r := x != header.parent && x.parent.color == Red;
    }

    ghost method Adopt(z: Node)
      requires Sync() && z !in mem
      modifies this`mem
      ensures Sync() && mem == old(mem)[z := Cell(z.color, z.parent, z.left, z.right, 0, 0, 0, 0)]
    {
      mem := mem[z := Cell(z.color, z.parent, z.left, z.right, 0, 0, 0, 0)];
      forall k | k in mem ensures Tied(k) { assert k != z ==> old(Tied(k)); }
    }

    // The writes with which a new node z becomes child d of y, or the root of an empty tree.
    method Hang(y: Node, d: Dir, z: Node)
      requires Sync() && Free(mem, header, y, d) && z !in mem
      modifies this`mem, y`left, y`right, header`parent, header`left, header`right, z`color, z`parent, z`left, z`right
      ensures Sync()
      ensures mem == AttachMem(old(mem), header, y, d, z,
                               Cell(old(z.color), old(z.parent), old(z.left), old(z.right), 0, 0, 0, 0))
    {
      Adopt(z);
      SetKid(y, d, z);
      var first := GetKid(header, Left);
      var last := GetKid(header, Right);
      if y == header {
        SetParent(header, z);
        SetKid(header, Right, z);
      } else if d == Left && y == first {
        SetKid(header, Left, z);
      } else if d == Right && y == last {
        SetKid(header, Right, z);
      }
      SetParent(z, y);
      SetKid(z, Left, null);
      SetKid(z, Right, null);
      SetColor(z, Red, 0);
    }

    method Attach(y: Node, d: Dir, z: Node)
      requires Sync() && Sound(mem, header, order) && Free(mem, header, y, d) && z !in mem
      modifies this`mem, this`order, mem.Keys`color, mem.Keys`parent, mem.Keys`left, mem.Keys`right
      modifies z`color, z`parent, z`left, z`right
      ensures Sync() && Sound(mem, header, order) && mem.Keys == old(mem.Keys) + {z}
      ensures 0 <= LeafPos(old(mem), header, y, d) <= old(|order|)
      ensures order == InsertAt(old(order), LeafPos(old(mem), header, y, d), z)
    {
      hide Shaped, Painted, AttachMem, LeafMem, Sync, SameLinks, InsertAt;
      ghost var m := mem;
      AttachStep(m, header, order, y, d, z, Cell(z.color, z.parent, z.left, z.right, 0, 0, 0, 0));
      Hang(y, d, z);
      Regauge(LeafMem(m, header, y, d, z));
      order := InsertAt(order, LeafPos(m, header, y, d), z);
      Rebalance(z);
    }

    // ---------------------------------------------------------------- rebalance for erase

    ghost method SetBh(n: Node, b: int)
      requires Sync() && n in mem
      modifies this`mem
      ensures Sync() && mem == PaintMem(old(mem), n, old(mem)[n].color, b)
    {
      mem := PaintMem(mem, n, mem[n].color, b);
      forall k | k in mem ensures Tied(k) { assert old(Tied(k)); }
    }

    method RaiseFar(ghost x: Node?, xp: Node, d: Dir, w: Node, k: Node)
      requires Sync() && Sibling(mem, header, order, x, xp, d, w) && mem[w].color == Black
      requires mem[w].Kid(d.Opp()) == k && k in mem && mem[k].color == Red
      modifies this`mem, mem.Keys`color, mem.Keys`parent, mem.Keys`left, mem.Keys`right
      ensures Sync() && Shaped(mem, header, order) && RedBlack(mem, header) && SameEnds(old(mem), mem, header)
    {
      hide Sync, Shaped, Painted;
      ghost var m := mem;
      SiblingExists(m, header, order, x, xp, d);
      var c := HasRed(xp);
      Rotate(d, xp);
      FarRedStep(m, mem, header, order, x, xp, d, w, k);
      SetColors3(w, if c then Red else Black, m[xp].bh, xp, Black, m[w].bh, k, Black, m[k].bh + 1);
    }

    method RaiseNear(ghost x: Node?, xp: Node, d: Dir, w: Node, k: Node)
      requires Sync() && Sibling(mem, header, order, x, xp, d, w) && mem[w].color == Black
      requires mem[w].Kid(d) == k && k in mem && mem[k].color == Red
      requires mem[w].Kid(d.Opp()) != null ==> mem[w].Kid(d.Opp()) in mem
      requires !IsRed(mem, mem[w].Kid(d.Opp()))
      modifies this`mem, mem.Keys`color, mem.Keys`parent, mem.Keys`left, mem.Keys`right
      ensures Sync() && SameEnds(old(mem), mem, header) && Sibling(mem, header, order, x, xp, d, k)
      ensures mem[k].color == Black && mem[k].Kid(d.Opp()) == w && w in mem && mem[w].color == Red
    {
      hide Sync, Shaped, Painted;
      ghost var m := mem;
      SiblingExists(m, header, order, x, xp, d);
      NearOf(m, header, order, w);
      Rotate(d.Opp(), w);
      NearRedStep(m, mem, header, order, x, xp, d, w, k);
      SetColors2(k, Black, m[w].bh, w, Red, m[w].bh - 1);
    }

    method LowerSibling(ghost x: Node?, xp: Node, d: Dir, w: Node)
      requires Sync() && Sibling(mem, header, order, x, xp, d, w) && mem[w].color == Red
      modifies this`mem, mem.Keys`color, mem.Keys`parent, mem.Keys`left, mem.Keys`right
      ensures Sync() && SameEnds(old(mem), mem, header)
      ensures Short(mem, header, order, x, xp, d) && !IsRed(mem, x) && mem[xp].color == Red
      ensures var k := mem[xp].Kid(d.Opp()); k != null && k in mem && mem[k].color == Black
    {
      hide Sync, Shaped, Painted;
      ghost var m := mem;
      SiblingExists(m, header, order, x, xp, d);
      Rotate(d, xp);
      RedSiblingStep(m, mem, header, order, x, xp, d, w);
      SetColors2(w, Black, m[xp].bh, xp, Red, m[xp].bh - 1);
    }

    method PassUp(ghost x: Node?, xp: Node, ghost d: Dir, w: Node) returns (xp': Node?, d': Dir)
      requires Sync() && Sibling(mem, header, order, x, xp, d, w) && mem[w].color == Black
      requires (mem[w].left != null ==> mem[w].left in mem) && (mem[w].right != null ==> mem[w].right in mem)
      requires !IsRed(mem, mem[w].left) && !IsRed(mem, mem[w].right)
      modifies this`mem, mem.Keys`color
      ensures Sync() && SameEnds(old(mem), mem, header)
      ensures Short(mem, header, order, xp, xp', d') && xp in mem && mem[xp].color == old(mem)[xp].color
      ensures xp' != null ==> mem[xp'].hi - mem[xp'].lo > old(mem)[xp].hi - old(mem)[xp].lo
    {
      hide Sync, Shaped, Painted;
      ghost var m := mem;
      xp', d' := SlotAbove(xp);
      PaleStep(m, header, order, x, xp, d, w, xp', d');
      SetColor(w, Red, m[w].bh - 1);
      SetBh(xp, m[xp].bh - 1);
    }

    // One round below xp, whose child w opposite the short side is black.  Either the debt is
    // settled (ok) or it moves up to the slot of xp itself.
    method ShortTail(ghost x: Node?, xp: Node, d: Dir, w: Node) returns (ok: bool, xp': Node?, d': Dir)
      requires Sync() && Sibling(mem, header, order, x, xp, d, w) && mem[w].color == Black
      modifies this`mem, mem.Keys`color, mem.Keys`parent, mem.Keys`left, mem.Keys`right
      ensures Sync() && SameEnds(old(mem), mem, header) && Shaped(mem, header, order)
      ensures ok ==> RedBlack(mem, header)
      ensures !ok ==> Short(mem, header, order, xp, xp', d') && xp in mem && mem[xp].color == old(mem)[xp].color
      ensures !ok && xp' != null ==> mem[xp'].hi - mem[xp'].lo > old(mem)[xp].hi - old(mem)[xp].lo
    {
      NearOf(mem, header, order, w);
      var near := GetKid(w, d);
      var far := GetKid(w, d.Opp());
      var nearRed := HasRed(near);
      var farRed := HasRed(far);
      if !nearRed && !farRed {
        xp', d' := PassUp(x, xp, d, w);
        ok := false;
      } else {
        if !farRed {
          RaiseNear(x, xp, d, w, near);
          RaiseFar(x, xp, d, near, w);
        } else {
          RaiseFar(x, xp, d, w, far);
        }
        ok, xp', d' := true, null, Left;
      }
    }

    method SlotAbove(y: Node) returns (xp: Node?, d: Dir)
      requires Sync() && Shaped(mem, header, order) && y in mem && y != header
      ensures IsSlot(mem, header, y, xp, d)
    {
      SlotOf(mem, header, order, y);
      var p := GetParent(y);
      var l := GetKid(p, Left);
      d := if l == y then Left else Right;
      xp := if p == header then null else p;
    }

    method ShortStep(x: Node?, xp: Node, d: Dir) returns (ok: bool, xp': Node?, d': Dir)
      requires Sync() && Short(mem, header, order, x, xp, d) && !IsRed(mem, x)
      modifies this`mem, mem.Keys`color, mem.Keys`parent, mem.Keys`left, mem.Keys`right
      ensures Sync() && SameEnds(old(mem), mem, header) && Shaped(mem, header, order)
      ensures ok ==> RedBlack(mem, header)
      ensures !ok ==> Short(mem, header, order, xp, xp', d') && xp in mem
      ensures !ok && xp' != null ==>
        mem[xp].color == Red || mem[xp'].hi - mem[xp'].lo > old(mem)[xp].hi - old(mem)[xp].lo
    {
      SiblingExists(mem, header, order, x, xp, d);
      var w := GetKid(xp, d.Opp());
      var red := HasRed(w);
      if red {
        LowerSibling(x, xp, d, w);
        SiblingExists(mem, header, order, x, xp, d);
        w := GetKid(xp, d.Opp());
      }
      ok, xp', d' := ShortTail(x, xp, d, w);
    }

    method RepairShort(x0: Node?, xp0: Node?, d0: Dir)
      requires Sync() && Short(mem, header, order, x0, xp0, d0)
      modifies this`mem, mem.Keys`color, mem.Keys`parent, mem.Keys`left, mem.Keys`right
      ensures Sync() && SameEnds(old(mem), mem, header) && Shaped(mem, header, order) && RedBlack(mem, header)
    {
      var x, xp, d, ok := x0, xp0, d0, false;
      var red := HasRed(x);
      while !ok && xp != null && !red
        invariant Sync() && SameEnds(old(mem), mem, header) && Shaped(mem, header, order)
        invariant ok ==> RedBlack(mem, header)
        invariant !ok ==> Short(mem, header, order, x, xp, d) && red == IsRed(mem, x)
        decreases if ok || xp == null || red then 0 else |order| + 2 - (mem[xp].hi - mem[xp].lo)
      {
        NearOf(mem, header, order, xp);
        var xp', d';
        ok, xp', d' := ShortStep(x, xp, d);
        if !ok {
          x, xp, d := xp, xp', d';
          red := HasRed(x);
          if xp != null {
            NearOf(mem, header, order, xp);
          }
        }
      }
      if !ok {
        if red {
          LastStep(mem, header, order, x, xp, d);
          SetColor(x, Black, mem[x].bh + 1);
        } else {
          DoneStep(mem, header, order, x, d);
        }
      }
    }

    // ---------------------------------------------------------------- unlinking

    method Unlink(y: Node, x: Node?)
      requires Sync() && Shaped(mem, header, order) && y in mem && y != header && OnlyKid(mem, y, x)
      modifies this`mem, mem.Keys`parent, mem.Keys`left, mem.Keys`right
      ensures Sync() && mem == SpliceMem(old(mem), header, y, x) && IsSplice(old(mem), mem, header, y, x)
    {
      ghost var m := mem;
      UnlinkNames(m, header, order, y, x);
      var p := GetParent(y);
      if x != null {
        SetParent(x, p);
      }
      SetChildOf(p, y, x);
      UnlinkLinks(m, header, order, y, x);
      Regauge(SpliceMem(m, header, y, x));
    }

    method CopyLinks(z: Node, y: Node)
      requires Sync() && z in mem && y !in mem
      modifies this`mem, y`color, y`parent, y`left, y`right
      ensures Sync()
      ensures mem == CopyMem(old(mem), z, y, Cell(old(y.color), old(y.parent), old(y.left), old(y.right), 0, 0, 0, 0))
    {
      var p := GetParent(z);
      var l := GetKid(z, Left);
      var r := GetKid(z, Right);
      var red := HasRed(z);
      ghost var b := mem[z].bh;
      Adopt(y);
      SetParent(y, p);
      SetKid(y, Left, l);
      SetKid(y, Right, r);
      SetColor(y, if red then Red else Black, b);
    }

    method Substitute(z: Node, y: Node)
      requires Sync() && Shaped(mem, header, order) && z in mem && z != header && y !in mem
      requires mem[header].left != z && mem[header].right != z
      modifies this`mem, mem.Keys`parent, mem.Keys`left, mem.Keys`right, y`color, y`parent, y`left, y`right
      ensures Sync() && mem == RenameMem(old(mem), z, y) && IsRename(old(mem), mem, header, z, y)
    {
      hide Sync, Shaped, Painted;
      ghost var m := mem;
      ghost var c0 := Cell(y.color, y.parent, y.left, y.right, 0, 0, 0, 0);
      SubstituteNames(m, header, order, z);
      Redirect(z, y);
      SubstituteLinks(m, header, order, z, y, c0);
      Regauge(RenameMem(m, z, y));
    }

    // The writes that put y where z stands.
    method Redirect(z: Node, y: Node)
      requires Sync() && z in mem && z != header && y !in mem && Stands(mem, header, z)
      modifies this`mem, mem.Keys`parent, mem.Keys`left, mem.Keys`right, y`color, y`parent, y`left, y`right
      ensures Sync() && Stands(old(mem), header, z)
      ensures mem ==
        SubstituteMem(old(mem), header, z, y, Cell(old(y.color), old(y.parent), old(y.left), old(y.right), 0, 0, 0, 0))
    {
      var p := GetParent(z);
      var l := GetKid(z, Left);
      var r := GetKid(z, Right);
      CopyLinks(z, y);
      if l != null {
        SetParent(l, y);
      }
      if r != null {
        SetParent(r, y);
      }
      SetChildOf(p, z, y);
    }

    // ---------------------------------------------------------------- minimum and maximum

    method Minimum(x: Node) returns (y: Node)
      requires Sync() && Shaped(mem, header, order) && x in mem && x != header
      ensures y in mem && y != header && mem[y].pos == mem[x].lo && mem[y].left == null
    {
      y := x;
      NearOf(mem, header, order, y);
      var l := GetKid(y, Left);
      while l != null
        invariant y in mem && y != header && mem[y].lo == mem[x].lo && l == mem[y].left
        invariant mem[y].lo <= mem[y].pos < mem[y].hi
        decreases mem[y].hi
      {
        NearOf(mem, header, order, y);
        y := l;
        NearOf(mem, header, order, y);
        l := GetKid(y, Left);
      }
      NearOf(mem, header, order, y);
    }

    method Maximum(x: Node) returns (y: Node)
      requires Sync() && Shaped(mem, header, order) && x in mem && x != header
      ensures y in mem && y != header && mem[y].pos == mem[x].hi - 1 && mem[y].right == null
    {
      y := x;
      NearOf(mem, header, order, y);
      var r := GetKid(y, Right);
      while r != null
        invariant y in mem && y != header && mem[y].hi == mem[x].hi && r == mem[y].right
        invariant mem[y].lo <= mem[y].pos < mem[y].hi
        decreases mem[y].hi - mem[y].lo
      {
        NearOf(mem, header, order, y);
        y := r;
        NearOf(mem, header, order, y);
        r := GetKid(y, Right);
      }
      NearOf(mem, header, order, y);
    }

    // ---------------------------------------------------------------- erase

    // Unlinks y, which has at most one child x, and settles the colours.
    method Excise(y: Node, x: Node?)
      requires Sync() && Shaped(mem, header, order) && RedBlack(mem, header)
      requires y in mem && y != header && OnlyKid(mem, y, x)
      modifies this`mem, this`order, mem.Keys`color, mem.Keys`parent, mem.Keys`left, mem.Keys`right
      ensures Sync() && Shaped(mem, header, order) && RedBlack(mem, header)
      ensures 0 <= old(mem)[y].pos < old(|order|) && order == RemoveAt(old(order), old(mem)[y].pos)
      ensures mem.Keys == old(mem.Keys) - {y}
      ensures mem[header].left == old(mem)[header].left && mem[header].right == old(mem)[header].right
      ensures mem[header].color == old(mem)[header].color
    {
      hide Sync, Shaped, Painted;
      ghost var m, s := mem, order;
      var red := HasRed(y);
      var xp, d := SlotAbove(y);
      Unlink(y, x);
      assert mem[header] == SpliceCell(m, header, y, x, header);
      if red {
        SpliceRedStep(m, mem, header, s, y, x);
        order := RemoveAt(s, m[y].pos);
      } else {
        SpliceStep(m, mem, header, s, y, x, xp, d);
        order := RemoveAt(s, m[y].pos);
        RepairShort(x, xp, d);
      }
    }

    // The unlinked node y moves to where z stands.
    method TakePlace(z: Node, y: Node)
      requires Sync() && Shaped(mem, header, order) && RedBlack(mem, header) && z in mem && z != header && y !in mem
      requires mem[header].left != z && mem[header].right != z
      modifies this`mem, this`order, mem.Keys`parent, mem.Keys`left, mem.Keys`right, y`color, y`parent, y`left, y`right
      ensures Sync() && Shaped(mem, header, order) && RedBlack(mem, header) && mem.Keys == old(mem.Keys) - {z} + {y}
      ensures 0 <= old(mem)[z].pos < old(|order|) && order == old(order)[old(mem)[z].pos := y]
      ensures mem[header].left == old(mem)[header].left && mem[header].right == old(mem)[header].right
      ensures mem[header].color == old(mem)[header].color
    {
      ghost var m, s := mem, order;
      Substitute(z, y);
      RenameStep(m, mem, header, s, z, y);
      order := s[m[z].pos := y];
      assert mem[header] == RenameCell(m, z, y, header);
    }

    // z has two children: the node after z leaves its own place and takes z's.
    method EraseInner(z: Node, r: Node)
      requires Sync() && Sound(mem, header, order) && z in mem && z != header && mem[z].left != null
        && mem[z].right == r
      modifies this`mem, this`order, mem.Keys`color, mem.Keys`parent, mem.Keys`left, mem.Keys`right
      ensures Sync() && Sound(mem, header, order) && mem.Keys == old(mem.Keys) - {z}
      ensures 0 <= old(mem)[z].pos < old(|order|) && order == RemoveAt(old(order), old(mem)[z].pos)
    {
      hide Shaped, RedBlack, SpliceMem, RenameMem;
      ghost var m, s := mem, order;
      ghost var k := m[z].pos;
      BelowRight(m, header, s, z);
      var y := Minimum(r);
      InnerPair(m, header, s, z, r, y);
      var x := GetKid(y, Right);
      Excise(y, x);
      StandsAt(mem, header, order, k);
      TakePlace(z, y);
    }

    // z has at most one child x, which takes its place.
    method EraseEdge(z: Node, x: Node?)
      requires Sync() && Sound(mem, header, order) && z in mem && z != header && OnlyKid(mem, z, x)
      modifies this`mem, this`order, mem.Keys`color, mem.Keys`parent, mem.Keys`left, mem.Keys`right
      ensures Sync() && Sound(mem, header, order) && mem.Keys == old(mem.Keys) - {z}
      ensures 0 <= old(mem)[z].pos < old(|order|) && order == RemoveAt(old(order), old(mem)[z].pos)
    {
      hide Sync, Shaped, Painted;
      ghost var m, s := mem, order;
      var first := NewEnd(z, x, Left);
      var last := NewEnd(z, x, Right);
      Excise(z, x);
      ghost var m1 := mem;
      SetKid(header, Left, first);
      SetKid(header, Right, last);
      EndsStep(m1, mem, header, order);
    }

    // The header's link on side d once z, with at most the child x, is gone.
    method NewEnd(z: Node, x: Node?, d: Dir) returns (e: Node)
      requires Sync() && Sound(mem, header, order) && z in mem && z != header && OnlyKid(mem, z, x)
      ensures 0 <= mem[z].pos < |order|
      ensures var s := RemoveAt(order, mem[z].pos);
        e == if s == [] then header else if d == Left then s[0] else s[|s| - 1]
    {
      EdgeParent(mem, header, order, z);
      NearOf(mem, header, order, z);
      var c := GetKid(header, d);
      if c != z {
        e := c;
      } else if x == null {
        e := GetParent(z);
      } else if d == Left {
        NearOf(mem, header, order, x);
        e := Minimum(x);
        NearOf(mem, header, order, e);
      } else {
        NearOf(mem, header, order, x);
        e := Maximum(x);
        NearOf(mem, header, order, e);
      }
    }

    method RebalanceForErase(z: Node) returns (y: Node)
      requires Sync() && Sound(mem, header, order) && z in mem && z != header
      modifies this`mem, this`order, mem.Keys`color, mem.Keys`parent, mem.Keys`left, mem.Keys`right
      ensures Sync() && Sound(mem, header, order) && y == z && mem.Keys == old(mem.Keys) - {z}
      ensures 0 <= old(mem)[z].pos < old(|order|) && order == RemoveAt(old(order), old(mem)[z].pos)
    {
      var l := GetKid(z, Left);
      var r := GetKid(z, Right);
      y := z;
      if l == null {
        EraseEdge(z, r);
      } else if r == null {
        EraseEdge(z, l);
      } else {
        EraseInner(z, r);
      }
    }

    // ---------------------------------------------------------------- iterators

    /** Oscl_Rb_Tree_Iterator::operator++ */
    method Next(n: Node) returns (r: Node)
      requires Sync() && Sound(mem, header, order) && n in mem && n != header
      ensures 0 <= mem[n].pos < |order| && r == NodeAt(header, order, mem[n].pos + 1)
      ensures r in mem && Index(mem, header, order, r) == mem[n].pos + 1
    {
      NearOf(mem, header, order, n);
      var right := GetKid(n, Right);
      if right != null {
        r := Minimum(right);
        NearOf(mem, header, order, r);
      } else {
        r := ClimbNext(n);
      }
    }

    method ClimbNext(n: Node) returns (node: Node)
      requires Sync() && Sound(mem, header, order) && n in mem && n != header && mem[n].right == null
      ensures 0 <= mem[n].pos < |order| && node == NodeAt(header, order, mem[n].pos + 1)
    {
      NearOf(mem, header, order, n);
      ghost var i := mem[n].pos;
      node := n;
      var y := GetParent(node);
      var up := GetKid(y, Right);
      while node == up
        invariant ClimbsRight(mem, header, order, i, node, y) && up == mem[y].right
        decreases if node == header then 0 else 1 + |order| - (mem[node].hi - mem[node].lo)
      {
        ClimbStep(mem, header, order, i, node, y);
        node := y;
        y := GetParent(y);
        up := GetKid(y, Right);
      }
      ClimbStep(mem, header, order, i, node, y);
      var right := GetKid(node, Right);
      if right != y {
        node := y;
      }
    }

    /** Oscl_Rb_Tree_Iterator::operator-- */
    method Prev(n: Node) returns (r: Node)
      requires Sync() && Sound(mem, header, order) && n in mem && Index(mem, header, order, n) > 0
      ensures 0 <= Index(mem, header, order, n) - 1 < |order| && r == order[Index(mem, header, order, n) - 1]
      ensures r in mem && r != header && mem[r].pos == Index(mem, header, order, n) - 1
    {
      IndexOf(mem, header, order, n);
      HeaderKnown(mem, header, order, n);
      var red := HasRed(n);
      var p := GetParent(n);
      var gp := GetParent(p);
      var left := GetKid(n, Left);
      if red && gp == n {
        r := GetKid(n, Right);
      } else {
        NearOf(mem, header, order, n);
        if left != null {
          r := Maximum(left);
          NearOf(mem, header, order, r);
        } else {
          r := ClimbPrev(n);
        }
      }
    }

    method ClimbPrev(n: Node) returns (y: Node)
      requires Sync() && Sound(mem, header, order) && n in mem && n != header && mem[n].left == null && mem[n].pos > 0
      ensures y in mem && y != header && mem[y].pos == mem[n].pos - 1 < |order| && y == order[mem[n].pos - 1]
    {
      hide Sync, Shaped, Painted;
      NearOf(mem, header, order, n);
      var node := n;
      y := GetParent(node);
      var up := GetKid(y, Left);
      while node == up
        invariant node in mem && node != header && y == mem[node].parent && y in mem && up == mem[y].left
        invariant Near(mem, header, order, node) && mem[node].lo == mem[n].pos
        decreases |order| - mem[node].hi
      {
        NearOf(mem, header, order, y);
        node := y;
        NearOf(mem, header, order, node);
        y := GetParent(y);
        up := GetKid(y, Left);
      }
      NearOf(mem, header, order, y);
    }

    // ---------------------------------------------------------------- clear

    // The writes of clear(): only the header is left.
    method Reset()
      requires Sync()
      modifies `mem, `order, header`parent, header`left, header`right
      ensures Sync() && mem.Keys == {header} && order == []
      ensures old(mem)[header].color == Red ==> Sound(mem, header, order)
    {
      SetKid(header, Left, header);
      SetParent(header, null);
      SetKid(header, Right, header);
      Regauge(map[header := mem[header]]);
      order := [];
    }

    // ---------------------------------------------------------------- structural copy

    // The new node gets its colour and parent.
    method PaintClone(top: Node, color: Color, ghost c: Cell, p: Node)
      requires Sync() && top !in mem && top.left == top.right == null && color == c.color
      modifies this`mem, top`color, top`parent, top`left, top`right
      ensures Sync() && mem == old(mem)[top := c.(parent := p, left := null, right := null)]
    {
      ghost var m, bare := mem, c.(parent := p, left := null, right := null);
      Adopt(top);
      SetColor(top, color, c.bh);
      SetParent(top, p);
      assert mem == m[top := mem[top]];
      SameButOne(mem, top, bare);
      Regauge(m[top := bare]);
    }

    // A clone of x hung on p, with no children yet.
    method CloneNode(src: Base, x: Node, p: Node) returns (top: Node)
      requires Sync() && p in mem && src.Sync() && x in src.mem && src != this
      modifies this`mem
      ensures Sync() && fresh(top) && top !in old(mem) && top.key == x.key && top.val == x.val
      ensures mem == old(mem)[top := src.mem[x].(parent := p, left := null, right := null)]
    {
      top := new Node(x.key, x.val);
      var red := src.HasRed(x);
      PaintClone(top, if red then Red else Black, src.mem[x], p);
    }

    method CopyTop(src: Base, x: Node, p: Node) returns (top: Node, ghost cl: Clones)
      requires Sync() && p in mem && src != this && mem.Keys !! src.mem.Keys
      requires src.Sync() && Shaped(src.mem, src.header, src.order) && x in src.mem && x != src.header
      modifies this`mem
      ensures Sync() && SameItems(cl)
      ensures old(mem.Keys) <= mem.Keys && forall n :: n in mem && n !in old(mem) ==> fresh(n)
      ensures CopyOf(src.mem, src.header, old(mem), mem, cl, x, p, src.mem[x].pos, src.mem[x].hi)
      ensures x in cl && top == cl[x] && top in mem && top !in old(mem)
      decreases src.mem[x].hi - src.mem[x].pos, 1
    {
      hide CopyOf, Shaped, SameItems;
      ghost var m0 := mem;
      top := CloneNode(src, x, p);
      var r := src.GetKid(x, Right);
      if r == null {
        LoneStep(src.mem, src.header, src.order, m0, x, top, p);
        LoneItem(x, top);
        cl := map[x := top];
      } else {
        cl := CopyRight(src, m0, x, r, p, top);
      }
    }

    // Copies the right subtree r of x below the clone of x, which is there already.
    method CopyRight(src: Base, ghost m0: Mem, x: Node, r: Node, ghost p: Node, top: Node) returns (ghost cl: Clones)
      requires Sync() && src != this && mem.Keys !! src.mem.Keys
      requires src.Sync() && Shaped(src.mem, src.header, src.order) && x in src.mem && x != src.header
        && src.mem[x].right == r
      requires top !in m0 && mem == m0[top := BareCell(src.mem, x, p)] && top.key == x.key && top.val == x.val
      modifies this`mem, top`left, top`right
      ensures Sync() && SameItems(cl)
      ensures old(mem.Keys) <= mem.Keys && forall n :: n in mem && n !in old(mem) ==> fresh(n)
      ensures CopyOf(src.mem, src.header, m0, mem, cl, x, p, src.mem[x].pos, src.mem[x].hi) && x in cl && top == cl[x]
      decreases src.mem[x].hi - src.mem[x].pos, 0
    {
      hide CopyOf, Shaped, SameItems;
      NearOf(src.mem, src.header, src.order, x);
      var twin;
      ghost var cl1;
      twin, cl1 := Copy(src, r, top);
      TopStep(src.mem, src.header, src.order, m0, mem, cl1, x, r, top, p);
      SetKid(top, Right, twin);
      AddedItem(cl1, x, top);
      cl := cl1[x := top];
    }

    // The left spine is copied from x0, whose clone is top, down to q, whose clone is twin.
    ghost predicate Spine(src: Base, m0: Mem, cl: Clones, x0: Node, p: Node, top: Node, q: Node, twin: Node)
      reads this, mem.Keys, src, src.mem.Keys, cl.Keys`val, cl.Values`val
    {
      && Sync() && src != this && mem.Keys !! src.mem.Keys && src.Sync() && Shaped(src.mem, src.header, src.order)
      && x0 in src.mem && q in src.mem && q != src.header && x0 in cl && q in cl
      && top == cl[x0] && top in mem && twin == cl[q] && twin in mem
      && src.mem[q].pos <= src.mem[x0].hi && src.mem[q].lo == src.mem[x0].lo
      && CopyOf(src.mem, src.header, m0, mem, cl, x0, p, src.mem[q].pos, src.mem[x0].hi) && SameItems(cl)
    }

    // The node below q on the spine.
    lemma SpineBelow(src: Base, m0: Mem, cl: Clones, x0: Node, p: Node, top: Node, q: Node, twin: Node)
      requires Spine(src, m0, cl, x0, p, top, q, twin)
      ensures Sync() && src.Sync() && src != this && SameItems(cl) && twin in mem && x0 in cl && cl[x0] == top
        && top in mem
      ensures q in src.mem && x0 in src.mem && q != src.header
      ensures 0 <= src.mem[q].lo == src.mem[x0].lo <= src.mem[q].pos < src.mem[q].hi
      ensures var l := src.mem[q].left;
        if l == null then src.mem[q].lo == src.mem[q].pos
        else
          && l in src.mem && l != src.header && src.mem[l].lo == src.mem[x0].lo
          && 0 <= src.mem[l].lo <= src.mem[l].pos < src.mem[l].hi == src.mem[q].pos
      ensures src.mem[q].pos <= src.mem[x0].hi
      ensures CopyOf(src.mem, src.header, m0, mem, cl, x0, p, src.mem[q].pos, src.mem[x0].hi)
    {
      hide CopyOf, SameItems, Sync;
      LeftKidOf(src.mem, src.header, src.order, q);
    }

    lemma SpineLink(src: Base, m0: Mem, cl: Clones, x0: Node, p: Node, top: Node, q: Node, twin: Node)
      requires Spine(src, m0, cl, x0, p, top, q, twin)
      ensures src.Sync() && src != this && twin in mem && q in src.mem && src.mem[q].pos >= 0
      ensures var l := src.mem[q].left;
        l != null ==>
          && l in src.mem && x0 in src.mem && src.mem[l].pos < src.mem[q].pos
          && 0 <= src.mem[l].hi - src.mem[l].pos <= src.mem[x0].hi - src.mem[x0].lo
    {
      SpineBelow(src, m0, cl, x0, p, top, q, twin);
    }

    // Copies the next node x of the left spine, with its right subtree, below the clone of q.
    method CopyNext(src: Base, ghost m0: Mem, ghost cl: Clones, ghost x0: Node, ghost p: Node, ghost top: Node,
                    ghost q: Node, twin: Node, x: Node)
      returns (y: Node, ghost cl': Clones)
      requires Spine(src, m0, cl, x0, p, top, q, twin) && x in src.mem && src.mem[q].left == x
      modifies this`mem, twin`left, twin`right
      ensures Spine(src, m0, cl', x0, p, top, x, y) && y !in old(mem)
      ensures old(mem.Keys) <= mem.Keys && forall n :: n in mem && n !in old(mem) ==> fresh(n)
      decreases src.mem[x].hi - src.mem[x].pos, 3
    {
      hide CopyOf, Shaped, SameItems, Sync;
      SpineBelow(src, m0, cl, x0, p, top, q, twin);
      y, cl' := CopyBelow(src, m0, cl, x0, p, q, twin, x);
    }

    // The copying itself.
    method CopyBelow(src: Base, ghost m0: Mem, ghost cl: Clones, ghost x0: Node, ghost p: Node,
                     ghost q: Node, twin: Node, x: Node)
      returns (y: Node, ghost cl': Clones)
      requires Sync() && src != this && mem.Keys !! src.mem.Keys && src.Sync() && Shaped(src.mem, src.header, src.order)
      requires x0 in src.mem && q in src.mem && q != src.header && x0 in cl && q in cl && twin == cl[q] && twin in mem
      requires x in src.mem && x != src.header && src.mem[q].left == x && src.mem[q].pos <= src.mem[x0].hi
      requires CopyOf(src.mem, src.header, m0, mem, cl, x0, p, src.mem[q].pos, src.mem[x0].hi) && SameItems(cl)
      modifies this`mem, twin`left, twin`right
      ensures Sync() && SameItems(cl') && x0 in cl && x0 in cl' && cl'[x0] == cl[x0]
      ensures x in cl' && y == cl'[x] && y in mem && y !in old(mem)
      ensures old(mem.Keys) <= mem.Keys && forall n :: n in mem && n !in old(mem) ==> fresh(n)
      ensures CopyOf(src.mem, src.header, m0, mem, cl', x0, p, src.mem[x].pos, src.mem[x0].hi)
      decreases src.mem[x].hi - src.mem[x].pos, 2
    {
      hide CopyOf, Shaped, SameItems, Sync;
      ghost var m1 := mem;
      ghost var cl2;
      y, cl2 := CopyTop(src, x, twin);
      LeftStep(src.mem, src.header, src.order, m0, m1, mem, cl, cl2, x0, q, x, p);
      SetKid(twin, Left, y);
      MergedItems(cl, cl2);
      cl' := cl + cl2;
    }

    // The loop of Copy, once x0 itself and its right subtree are copied.
    method CopySpine(src: Base, ghost m0: Mem, ghost cl0: Clones, x0: Node, ghost p: Node, top: Node)
      returns (ghost cl: Clones)
      requires Spine(src, m0, cl0, x0, p, top, x0, top)
      modifies this`mem, top`left, top`right
      ensures Sync() && SameItems(cl)
      ensures old(mem.Keys) <= mem.Keys && forall n :: n in mem && n !in old(mem) ==> fresh(n)
      ensures x0 in src.mem && CopyOf(src.mem, src.header, m0, mem, cl, x0, p, src.mem[x0].lo, src.mem[x0].hi)
      ensures x0 in cl && cl[x0] == top && top in mem
      decreases src.mem[x0].hi - src.mem[x0].lo, 4
    {
      hide CopyOf, SameItems, Sync, Spine;
      cl := cl0;
      ghost var q: Node := x0;
      var twin: Node := top;
      SpineLink(src, m0, cl, x0, p, top, q, twin);
      var x := src.GetKid(x0, Left);
      while x != null
        invariant Spine(src, m0, cl, x0, p, top, q, twin) && q in src.mem && x == src.mem[q].left && src.mem[q].pos >= 0
        invariant twin == top || twin !in old(mem)
        invariant old(mem.Keys) <= mem.Keys && forall n :: n in mem && n !in old(mem) ==> fresh(n)
        decreases src.mem[q].pos
      {
        SpineLink(src, m0, cl, x0, p, top, q, twin);
        twin, cl := CopyNext(src, m0, cl, x0, p, top, q, twin, x);
        q := x;
        SpineLink(src, m0, cl, x0, p, top, q, twin);
        x := src.GetKid(x, Left);
      }
      SpineBelow(src, m0, cl, x0, p, top, q, twin);
    }

    /** copy(x, p): recursion copies the right subtrees, the loop goes down the left spine. */
    method Copy(src: Base, x0: Node, p: Node) returns (top: Node, ghost cl: Clones)
      requires Sync() && p in mem && src != this && mem.Keys !! src.mem.Keys
      requires src.Sync() && Shaped(src.mem, src.header, src.order) && x0 in src.mem && x0 != src.header
      modifies this`mem
      ensures Sync() && SameItems(cl)
      ensures old(mem.Keys) <= mem.Keys && forall n :: n in mem && n !in old(mem) ==> fresh(n)
      ensures CopyOf(src.mem, src.header, old(mem), mem, cl, x0, p, src.mem[x0].lo, src.mem[x0].hi)
      ensures x0 in cl && top == cl[x0] && top in mem
      decreases src.mem[x0].hi - src.mem[x0].lo, 5
    {
      hide CopyOf, Shaped, SameItems, Sync;
      LeftKidOf(src.mem, src.header, src.order, x0);
      top, cl := CopyTop(src, x0, p);
      cl := CopySpine(src, old(mem), cl, x0, p, top);
    }

    // leftmost() = minimum(root()); rightmost() = maximum(root())
    method SetEnds()
      requires Sync() && Shaped(mem, header, order) && RedBlack(mem, header) && order != [] && mem[header].color == Red
      modifies `mem, header`left, header`right
      ensures Sync() && Sound(mem, header, order)
      ensures mem.Keys == old(mem.Keys)
      ensures forall n {:trigger mem[n]} :: n in mem && n != header ==> mem[n] == old(mem)[n]
    {
      var top := GetParent(header);
      RootSpan(mem, header, order);
      var first := Minimum(top);
      var last := Maximum(top);
      FirstAndLast(mem, header, order, top, first, last);
      ghost var m := mem;
      SetKid(header, Left, first);
      SetKid(header, Right, last);
      EndsStep(m, mem, header, order);
    }

    method CopyLinked(src: Base, r: Node)
      requires Sync() && Sound(mem, header, order) && order == [] && mem.Keys == {header}
      requires src != this && header !in src.mem && src.Sync() && Sound(src.mem, src.header, src.order)
      requires src.mem[src.header].parent == r
      modifies `mem, `order, header`parent, header`left, header`right
      ensures Sync() && Shaped(mem, header, order) && RedBlack(mem, header) && mem[header].color == Red
      ensures fresh(mem.Keys - {header}) && order != []
      ensures SameForm(src.mem, src.header, src.order, mem, header, order)
      ensures |order| == |src.order|
      ensures forall i :: 0 <= i < |order| ==> order[i].key == src.order[i].key && order[i].val == src.order[i].val
    {
      hide CopyOf, Shaped, SameItems, RedBlack, SameForm, Sync;
      ghost var m, h, s := src.mem, src.header, src.order;
      RootIn(m, h, s);
      ghost var m0 := mem;
      var top;
      ghost var cl;
      top, cl := Copy(src, r, header);
      FinishCopy(m, h, s, m0, mem, cl, header, r);
      SetParent(header, top);
      order := CloneOrder(cl, s);
      CopiedItems(cl, s);
    }

    /** The copy constructor's work on an empty tree. */
    method CopyAll(src: Base)
      requires Sync() && Sound(mem, header, order) && order == [] && mem.Keys == {header}
      requires src != this && header !in src.mem && src.Sync() && Sound(src.mem, src.header, src.order)
      modifies `mem, `order, header`parent, header`left, header`right
      ensures Sync() && Sound(mem, header, order) && fresh(mem.Keys - {header})
      ensures SameForm(src.mem, src.header, src.order, mem, header, order)
      ensures |order| == |src.order|
      ensures forall i :: 0 <= i < |order| ==> order[i].key == src.order[i].key && order[i].val == src.order[i].val
    {
      RootIn(src.mem, src.header, src.order);
      var r := src.GetParent(src.header);
      if r != null {
        CopyLinked(src, r);
        ghost var m := mem;
        SetEnds();
        SameFormKept(src.mem, src.header, src.order, m, mem, header, order);
      }
    }
  }
}
