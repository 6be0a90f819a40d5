/** Whole-tree steps of the red-black algorithms, on snapshots: what each group of writes
    does, and what it leaves true of every node. */
module RbSteps {
  import opened SeqEdits
  import opened RbLinks
  import opened RbColors

  ghost predicate IsRelink(m: Mem, m': Mem, h: Node, d: Dir, x: Node, y: Node, b: Node?, p: Node) {
    && m'.Keys == m.Keys && x in m && y in m && p in m && (b != null ==> b in m)
    && (b != null ==> m'[b] == m[b].(parent := x))
    && m'[x] == m[x].WithKid(d.Opp(), b).(parent := y)
    && m'[y] == m[y].WithKid(d, x).(parent := p)
    && m'[p] == ChildCell(h, p, m[p], x, y)
    && forall n {:trigger m'[n]} :: n in m && n != x && n != y && n != b && n != p ==> m'[n] == m[n]
  }

  ghost function ChildCell(h: Node, p: Node, c: Cell, x: Node, y: Node?): Cell {
    if p == h then c.(parent := y) else if c.left == x then c.(left := y) else c.(right := y)
  }

  // The five cells a rotation touches are distinct.
  ghost predicate Apart(m: Mem, h: Node, d: Dir, x: Node, y: Node?, b: Node?, p: Node?) {
    && x in m && y != null && y in m && p != null && p in m && (b != null ==> b in m)
    && m[x].Kid(d.Opp()) == y && m[x].parent == p && m[y].Kid(d) == b
    && x != y && b != x && b != y && p != x && p != y && b != p && h != x && h != y && h != b
    && (p != h ==> (m[p].left == x || m[p].right == x) && m[p].left != m[p].right)
  }

  // The five writes of a rotation, in order.
  ghost function RelinkMem(m: Mem, h: Node, d: Dir, x: Node, y: Node, b: Node?, p: Node): (m': Mem)
    requires x in m && y in m && p in m && (b != null ==> b in m)
  {
    var m1 := m[x := m[x].WithKid(d.Opp(), b)];
    var m2 := if b != null then m1[b := m1[b].(parent := x)] else m1;
    var m3 := m2[y := m2[y].(parent := p)];
    var m4 := m3[p := ChildCell(h, p, m3[p], x, y)];
    var m5 := m4[y := m4[y].WithKid(d, x)];
    m5[x := m5[x].(parent := y)]
  }

  lemma RelinkMemIs(m: Mem, h: Node, d: Dir, x: Node, y: Node, b: Node?, p: Node)
    requires Apart(m, h, d, x, y, b, p)
    ensures IsRelink(m, RelinkMem(m, h, d, x, y, b, p), h, d, x, y, b, p)
  {
  }

  lemma RotNames(m: Mem, h: Node, s: seq<Node>, d: Dir, x: Node)
    requires Shaped(m, h, s) && x in m && x != h && m[x].Kid(d.Opp()) != null
    ensures var y := m[x].Kid(d.Opp());
      y in m && Apart(m, h, d, x, y, m[y].Kid(d), m[x].parent)
  {
    NearOf(m, h, s, x);
    NearOf(m, h, s, m[x].Kid(d.Opp()));
  }

  ghost predicate EqualLinks(a: Cell, c: Cell) {
    a.color == c.color && a.parent == c.parent && a.left == c.left && a.right == c.right
  }

  // m' keeps some nodes of m with the links they have there; coordinates are free.
  ghost predicate SameLinks(m: Mem, m': Mem) {
    && m'.Keys <= m.Keys
    && forall n {:trigger m'[n]} :: n in m' ==> EqualLinks(m'[n], m[n])
  }

  lemma SameButOne(m: Mem, n: Node, c: Cell)
    requires n in m && EqualLinks(m[n], c)
    ensures SameLinks(m[n := c], m) && SameLinks(m, m[n := c])
  {
  }

  ghost function RotMem(m: Mem, h: Node, d: Dir, x: Node, y: Node): Mem
    requires x in m && y in m
  {
    map n | n in m :: RotCell(m, h, d, x, y, n)
  }

  lemma RelinkIsRot(m: Mem, h: Node, d: Dir, x: Node, y: Node, b: Node?, p: Node)
    requires Apart(m, h, d, x, y, b, p)
    ensures SameLinks(RelinkMem(m, h, d, x, y, b, p), RotMem(m, h, d, x, y))
    ensures IsRot(m, RotMem(m, h, d, x, y), h, d, x, y)
  {
    RelinkMemIs(m, h, d, x, y, b, p);
    RotMemIs(m, h, d, x, y);
    hide Apart, IsRelink, RelinkMem, RotMem, RotCell;
    var m' := RelinkMem(m, h, d, x, y, b, p);
    RelinkKeys(m, m', h, d, x, y, b, p);
    forall n | n in m
      ensures EqualLinks(m'[n], RotCell(m, h, d, x, y, n))
    {
      RelinkLink(m, m', h, d, x, y, b, p, n);
    }
  }

  lemma RotMemIs(m: Mem, h: Node, d: Dir, x: Node, y: Node)
    requires x in m && y in m
    ensures var r := RotMem(m, h, d, x, y);
      r.Keys == m.Keys && forall n {:trigger r[n]} :: n in m ==> r[n] == RotCell(m, h, d, x, y, n)
  {
  }

  lemma RelinkKeys(m: Mem, m': Mem, h: Node, d: Dir, x: Node, y: Node, b: Node?, p: Node)
    requires Apart(m, h, d, x, y, b, p) && IsRelink(m, m', h, d, x, y, b, p)
    ensures m'.Keys == m.Keys && x != h && m[x].Kid(d.Opp()) == y
  {
  }

  lemma RelinkLink(m: Mem, m': Mem, h: Node, d: Dir, x: Node, y: Node, b: Node?, p: Node, n: Node)
    requires Apart(m, h, d, x, y, b, p) && IsRelink(m, m', h, d, x, y, b, p) && n in m
    ensures EqualLinks(m'[n], RotCell(m, h, d, x, y, n))
  {
    if d == Left {} else {}
  }

  ghost function PaintMem(m: Mem, n: Node, c: Color, b: int): Mem
    requires n in m
  {
    m[n := m[n].(color := c, bh := b)]
  }

  lemma PaintShaped(m: Mem, m': Mem, h: Node, s: seq<Node>, a: Coat, b: Coat, c: Coat)
    requires Shaped(m, h, s) && IsPaint(m, m', a, b, c)
    ensures Shaped(m', h, s)
  {
    forall n | n in m' && n != h
      ensures At(m', h, s, n)
    {
      NearOf(m, h, s, n);
      PaintAt(m, m', h, s, a, b, c, n);
    }
  }

  lemma PaintAt(m: Mem, m': Mem, h: Node, s: seq<Node>, a: Coat, b: Coat, c: Coat, n: Node)
    requires Near(m, h, s, n) && IsPaint(m, m', a, b, c)
    ensures At(m', h, s, n)
  {
  }

  // m' has m's nodes, and the header still names the same first and last node.
  ghost predicate SameEnds(m: Mem, m': Mem, h: Node) {
    m'.Keys == m.Keys && h in m && m'[h].left == m[h].left && m'[h].right == m[h].right && m'[h].color == m[h].color
  }

  ghost const NoCoat: Coat := Coat(null, Red, 0)

  // ---------------------------------------------------------------- insertion

  /** x is red, and only x may be red under a red parent. */
  ghost predicate Blush(m: Mem, h: Node, s: seq<Node>, x: Node) {
    && Shaped(m, h, s)
    && x in m && x != h && m[x].color == Red
    && Painted(m, h, x, null, null, Left)
    && RootBlackOr(m, h, x)
  }

  ghost predicate RootBlackOr(m: Mem, h: Node, x: Node?) {
    h in m && (m[h].parent == null || m[h].parent == x || (m[h].parent in m && m[m[h].parent].color == Black))
  }

  ghost function FlipMem(m: Mem, p: Node, u: Node, g: Node): Mem
    requires p in m && u in m && g in m
  {
    PaintMem(PaintMem(PaintMem(m, p, Black, m[p].bh + 1), u, Black, m[u].bh + 1), g, Red, m[g].bh)
  }

  ghost predicate Family(m: Mem, h: Node, x: Node, p: Node, g: Node, d: Dir) {
    && x in m && p in m && g in m && x != h && p != h && g != h
    && m[x].parent == p && m[p].parent == g && m[g].Kid(d) == p && m[p].color == Red
  }

  lemma FlipPaints(m: Mem, p: Node, u: Node, g: Node)
    requires p in m && u in m && g in m && p != u && p != g && u != g
    ensures IsPaint(m, FlipMem(m, p, u, g),
                    Coat(p, Black, m[p].bh + 1), Coat(u, Black, m[u].bh + 1), Coat(g, Red, m[g].bh))
  {
  }

  lemma FamilyApart(m: Mem, h: Node, s: seq<Node>, x: Node, p: Node, g: Node, d: Dir)
    requires Shaped(m, h, s) && Family(m, h, x, p, g, d)
    ensures x != p && x != g && p != g && m[g].Kid(d.Opp()) != p
    ensures m[g].hi - m[g].lo > m[p].hi - m[p].lo > m[x].hi - m[x].lo
    ensures m[h].parent != p && m[h].parent != x
    ensures var u := m[g].Kid(d.Opp()); u != null ==> u in m && u != g && u != h && m[h].parent != u
  {
    NearOf(m, h, s, x);
    NearOf(m, h, s, p);
    NearOf(m, h, s, g);
  }

  lemma FamilyOf(m: Mem, h: Node, s: seq<Node>, x: Node)
    requires Blush(m, h, s, x) && m[h].parent != x && !(m[x].parent in m && m[m[x].parent].color == Black)
    ensures var p := m[x].parent;
      p != null && p in m && p != h && m[p].color == Red && (m[p].left == x || m[p].right == x) &&
      var g := m[p].parent;
      g != null && g in m && Family(m, h, x, p, g, if m[g].left == p then Left else Right)
    ensures var g := m[m[x].parent].parent;
      (m[g].left != null ==> m[g].left in m) && (m[g].right != null ==> m[g].right in m)
  {
    NearOf(m, h, s, x);
    var p := m[x].parent;
    NearOf(m, h, s, p);
    NearOf(m, h, s, m[p].parent);
  }

  lemma FlipStep(m: Mem, h: Node, s: seq<Node>, x: Node, p: Node, u: Node, g: Node, d: Dir)
    requires Blush(m, h, s, x) && Family(m, h, x, p, g, d)
    requires u in m && m[g].Kid(d.Opp()) == u && m[u].color == Red
    ensures Blush(FlipMem(m, p, u, g), h, s, g) && SameEnds(m, FlipMem(m, p, u, g), h) && p != u && p != g && u != g
    ensures m[g].hi - m[g].lo > m[x].hi - m[x].lo
  {
    var m' := FlipMem(m, p, u, g);
    FamilyApart(m, h, s, x, p, g, d);
    FlipPaints(m, p, u, g);
    PaintShaped(m, m', h, s, Coat(p, Black, m[p].bh + 1), Coat(u, Black, m[u].bh + 1), Coat(g, Red, m[g].bh));
    forall n | n in m' && n != h
      ensures Tint(m', h, n, g, null, null, Left)
    {
      LinkedOf(m, h, s, n);
      LinkedOf(m, h, s, p);
      LinkedOf(m, h, s, g);
      assert Tint(m, h, n, x, null, null, Left) && Tint(m, h, p, x, null, null, Left);
      FlipTint(m, m', h, x, p, u, g, d, n);
    }
  }

  lemma LeafStep(m: Mem, m': Mem, h: Node, s: seq<Node>, y: Node, d: Dir, z: Node)
    requires Shaped(m, h, s) && RedBlack(m, h) && IsLeaf(m, m', h, y, d, z)
    requires m'[z].color == Red && m'[z].bh == 0
    ensures 0 <= LeafPos(m, h, y, d) <= |s|
    ensures Blush(m', h, InsertAt(s, LeafPos(m, h, y, d), z), z)
  {
    LeafShaped(m, m', h, s, y, d, z);
    forall n | n in m' && n != h
      ensures Tint(m', h, n, z, null, null, Left)
    {
      if n != z {
        LinkedOf(m, h, s, n);
        assert Tint(m, h, n, null, null, null, Left);
      }
      LeafTint(m, m', h, y, d, z, n);
    }
  }

  lemma InnerStep(m: Mem, m1: Mem, h: Node, s: seq<Node>, x: Node, p: Node, g: Node, d: Dir)
    requires Blush(m, h, s, x) && Family(m, h, x, p, g, d)
    requires m[p].Kid(d.Opp()) == x && IsRot(m, m1, h, d, p, x)
    ensures Blush(m1, h, s, p) && Family(m1, h, p, x, g, d) && m1[x].Kid(d) == p && SameEnds(m, m1, h)
    ensures m1[g].Kid(d.Opp()) == m[g].Kid(d.Opp())
  {
    FamilyApart(m, h, s, x, p, g, d);
    RotShaped(m, m1, h, s, d, p, x);
    assert m1[h] == RotCell(m, h, d, p, x, h);
    LinkedOf(m, h, s, p);
    LinkedOf(m, h, s, x);
    forall n | n in m1 && n != h
      ensures Tint(m1, h, n, p, null, null, Left)
    {
      LinkedOf(m, h, s, n);
      assert Tint(m, h, n, x, null, null, Left) && Tint(m, h, p, x, null, null, Left)
        && Tint(m, h, x, x, null, null, Left);
      InnerTint(m, m1, h, d, p, x, n);
    }
  }

  ghost function OuterMem(m: Mem, m1: Mem, p: Node, g: Node): Mem
    requires p in m && g in m && m1.Keys == m.Keys
  {
    PaintMem(PaintMem(m1, p, Black, m[p].bh + 1), g, Red, m[g].bh - 1)
  }

  lemma OuterShape(m: Mem, m1: Mem, h: Node, s: seq<Node>, x: Node, p: Node, g: Node, d: Dir)
    requires Blush(m, h, s, x) && Family(m, h, x, p, g, d)
    requires m[p].Kid(d) == x && IsRot(m, m1, h, d.Opp(), g, p)
    requires m[g].Kid(d.Opp()) != null ==> m[g].Kid(d.Opp()) in m && m[m[g].Kid(d.Opp())].color == Black
    ensures p != g && Shaped(OuterMem(m, m1, p, g), h, s)
      && IsPaint(m1, OuterMem(m, m1, p, g), Coat(p, Black, m[p].bh + 1), Coat(g, Red, m[g].bh - 1), NoCoat)
  {
    FamilyApart(m, h, s, x, p, g, d);
    RotShaped(m, m1, h, s, d.Opp(), g, p);
    PaintShaped(m1, OuterMem(m, m1, p, g), h, s, Coat(p, Black, m[p].bh + 1), Coat(g, Red, m[g].bh - 1), NoCoat);
  }

  // The cells around the rotation, after it.
  lemma OuterLinks(m: Mem, m1: Mem, h: Node, s: seq<Node>, x: Node, p: Node, g: Node, d: Dir)
    requires Blush(m, h, s, x) && Family(m, h, x, p, g, d)
    requires m[p].Kid(d) == x && IsRot(m, m1, h, d.Opp(), g, p)
    requires m[g].Kid(d.Opp()) != null ==> m[g].Kid(d.Opp()) in m && m[m[g].Kid(d.Opp())].color == Black
    ensures var m' := OuterMem(m, m1, p, g);
      && SameEnds(m, m', h) && RootBlackOr(m', h, x)
      && m'[x].color == Red && m'[x].parent == p && m'[p].color == Black
  {
    FamilyApart(m, h, s, x, p, g, d);
    LinkedOf(m, h, s, p);
    OuterRoot(m, m1, h, s, x, p, g, d);
    assert m1[x].parent == p && m1[x].color == Red;
  }

  lemma OuterStep(m: Mem, m1: Mem, h: Node, s: seq<Node>, x: Node, p: Node, g: Node, d: Dir)
    requires Blush(m, h, s, x) && Family(m, h, x, p, g, d)
    requires m[p].Kid(d) == x && IsRot(m, m1, h, d.Opp(), g, p)
    requires m[g].Kid(d.Opp()) != null ==> m[g].Kid(d.Opp()) in m && m[m[g].Kid(d.Opp())].color == Black
    ensures var m' := OuterMem(m, m1, p, g);
      p != g && SameEnds(m, m', h) && Blush(m', h, s, x) && m'[x].parent == p && m'[p].color == Black
  {
    OuterShape(m, m1, h, s, x, p, g, d);
    OuterLinks(m, m1, h, s, x, p, g, d);
    var m' := OuterMem(m, m1, p, g);
    forall n | n in m' && n != h
      ensures Tint(m', h, n, x, null, null, Left)
    {
      OuterTint(m, m1, m', h, s, x, p, g, d, n);
    }
    hide Shaped, IsRot, IsPaint, Tint;
  }

  lemma OuterRoot(m: Mem, m1: Mem, h: Node, s: seq<Node>, x: Node, p: Node, g: Node, d: Dir)
    requires Blush(m, h, s, x) && Family(m, h, x, p, g, d) && IsRot(m, m1, h, d.Opp(), g, p)
    ensures m1[h] == m[h].(parent := if m[h].parent == g then p else m[h].parent)
  {
    NearOf(m, h, s, g);
    NearOf(m, h, s, p);
    assert m1[h] == RotCell(m, h, d.Opp(), g, p, h);
  }

  lemma OuterTint(m: Mem, m1: Mem, m': Mem, h: Node, s: seq<Node>, x: Node, p: Node, g: Node, d: Dir, n: Node)
    requires Blush(m, h, s, x) && Family(m, h, x, p, g, d)
    requires m[p].Kid(d) == x && IsRot(m, m1, h, d.Opp(), g, p)
    requires m[g].Kid(d.Opp()) != null ==> m[g].Kid(d.Opp()) in m && m[m[g].Kid(d.Opp())].color == Black
    requires IsPaint(m1, m', Coat(p, Black, m[p].bh + 1), Coat(g, Red, m[g].bh - 1), NoCoat)
    requires n in m && n != h
    ensures Tint(m', h, n, x, null, null, Left)
  {
    LinkedOf(m, h, s, n);
    LinkedOf(m, h, s, p);
    LinkedOf(m, h, s, g);
    FamilyApart(m, h, s, x, p, g, d);
    assert Tint(m, h, n, x, null, null, Left) && Tint(m, h, p, x, null, null, Left)
      && Tint(m, h, g, x, null, null, Left);
    OuterWays(m, m1, m', h, d.Opp(), g, p, x, n);
    OuterReds(m, m1, m', h, d.Opp(), g, p, x, n);
  }

  ghost function RootMem(m: Mem, r: Node): Mem
    requires r in m
  {
    PaintMem(m, r, Black, if m[r].color == Red then m[r].bh + 1 else m[r].bh)
  }

  lemma RootIsBelow(m: Mem, h: Node, s: seq<Node>)
    requires Shaped(m, h, s) && m[h].parent != null
    ensures m[h].parent in m && m[h].parent != h
  {
  }

  lemma RootStep(m: Mem, h: Node, s: seq<Node>, x: Node)
    requires Blush(m, h, s, x) && m[h].parent != null
    requires m[h].parent == x || (m[x].parent in m && m[m[x].parent].color == Black)
    ensures var m' := RootMem(m, m[h].parent); Shaped(m', h, s) && RedBlack(m', h)
  {
    var r := m[h].parent;
    var m' := RootMem(m, r);
    var c := Coat(r, Black, m'[r].bh);
    assert IsPaint(m, m', c, NoCoat, NoCoat);
    PaintShaped(m, m', h, s, c, NoCoat, NoCoat);
    NearOf(m, h, s, r);
    forall n | n in m' && n != h
      ensures Tint(m', h, n, null, null, null, Left)
    {
      LinkedOf(m, h, s, n);
      LinkedOf(m, h, s, r);
      assert Tint(m, h, n, x, null, null, Left);
      if m[r].color == Red {
        RootTint(m, m', h, r, n);
      } else {
        assert m'[n] == m[n];
      }
    }
  }

  // ---------------------------------------------------------------- erasure

  /** The way down through x, on side d of xp, is one black node short. */
  ghost predicate Short(m: Mem, h: Node, s: seq<Node>, x: Node?, xp: Node?, d: Dir) {
    && Shaped(m, h, s)
    && (x != null ==> x in m && x != h)
    && (if xp == null then m[h].parent == x else xp in m && xp != h && m[xp].Kid(d) == x)
    && Painted(m, h, x, x, xp, d)
    && RootBlackOr(m, h, x)
  }

  lemma SpliceStep(m: Mem, m': Mem, h: Node, s: seq<Node>, y: Node, x: Node?, xp: Node?, d: Dir)
    requires Shaped(m, h, s) && RedBlack(m, h) && IsSplice(m, m', h, y, x)
    requires m[y].color == Black && IsSlot(m, h, y, xp, d)
    ensures 0 <= m[y].pos < |s| && s[m[y].pos] == y
    ensures Short(m', h, RemoveAt(s, m[y].pos), x, xp, d)
  {
    SpliceShaped(m, m', h, s, y, x);
    NearOf(m, h, s, y);
    LinkedOf(m, h, s, y);
    forall n | n in m' && n != h
      ensures Tint(m', h, n, x, x, xp, d)
    {
      LinkedOf(m, h, s, n);
      assert Tint(m, h, n, null, null, null, Left) && Tint(m, h, y, null, null, null, Left);
      SpliceTint(m, m', h, y, x, xp, d, n);
    }
  }

  lemma SpliceRedStep(m: Mem, m': Mem, h: Node, s: seq<Node>, y: Node, x: Node?)
    requires Shaped(m, h, s) && RedBlack(m, h) && IsSplice(m, m', h, y, x) && m[y].color == Red
    ensures 0 <= m[y].pos < |s| && s[m[y].pos] == y
    ensures Shaped(m', h, RemoveAt(s, m[y].pos)) && RedBlack(m', h)
  {
    SpliceShaped(m, m', h, s, y, x);
    NearOf(m, h, s, y);
    LinkedOf(m, h, s, y);
    forall n | n in m' && n != h
      ensures Tint(m', h, n, null, null, null, Left)
    {
      LinkedOf(m, h, s, n);
      assert Tint(m, h, n, null, null, null, Left) && Tint(m, h, y, null, null, null, Left);
      assert x != null ==> Tint(m, h, x, null, null, null, Left);
      SpliceRedTint(m, m', h, y, x, n);
    }
  }

  lemma RenameStep(m: Mem, m': Mem, h: Node, s: seq<Node>, z: Node, y: Node)
    requires Shaped(m, h, s) && RedBlack(m, h) && IsRename(m, m', h, z, y)
    ensures 0 <= m[z].pos < |s| && s[m[z].pos] == z
    ensures Shaped(m', h, s[m[z].pos := y]) && RedBlack(m', h)
  {
    RenameShaped(m, m', h, s, z, y);
    LinkedOf(m, h, s, z);
    forall n | n in m' && n != h
      ensures Tint(m', h, n, null, null, null, Left)
    {
      var n0 := if n == y then z else n;
      LinkedOf(m, h, s, n0);
      assert Tint(m, h, n0, null, null, null, Left);
      RenameTint(m, m', h, z, y, n0);
    }
  }

  // xp and its child w on the side that is not short, before a step that rotates or repaints them.
  ghost predicate Sibling(m: Mem, h: Node, s: seq<Node>, x: Node?, xp: Node, d: Dir, w: Node) {
    && Short(m, h, s, x, xp, d) && !IsRed(m, x)
    && w in m && w != h && m[xp].Kid(d.Opp()) == w
  }

  lemma PaintedOff(m: Mem, h: Node, s: seq<Node>, x: Node?, xp: Node?, d: Dir, n: Node)
    requires Short(m, h, s, x, xp, d) && !IsRed(m, x) && n in m && n != h
    ensures Tint(m, h, n, null, null, xp, d) && Linked(m, h, n)
  {
    assert Tint(m, h, n, x, x, xp, d);
    LinkedOf(m, h, s, n);
  }

  lemma SiblingExists(m: Mem, h: Node, s: seq<Node>, x: Node?, xp: Node, d: Dir)
    requires Short(m, h, s, x, xp, d) && !IsRed(m, x)
    ensures var w := m[xp].Kid(d.Opp());
      w != null && w in m && w != h && w != xp && Sibling(m, h, s, x, xp, d, w)
  {
    PaintedOff(m, h, s, x, xp, d, xp);
    assert x != null ==> Tint(m, h, x, x, x, xp, d);
    NearOf(m, h, s, xp);
  }

  ghost function RedSiblingMem(m: Mem, m1: Mem, xp: Node, w: Node): Mem
    requires xp in m && w in m && m1.Keys == m.Keys
  {
    PaintMem(PaintMem(m1, w, Black, m[xp].bh), xp, Red, m[xp].bh - 1)
  }

  lemma RedSiblingStep(m: Mem, m1: Mem, h: Node, s: seq<Node>, x: Node?, xp: Node, d: Dir, w: Node)
    requires Sibling(m, h, s, x, xp, d, w) && m[w].color == Red && IsRot(m, m1, h, d, xp, w)
    ensures var m' := RedSiblingMem(m, m1, xp, w);
      w != xp && SameEnds(m, m', h) &&
      Short(m', h, s, x, xp, d) && !IsRed(m', x) && m'[xp].color == Red &&
      var k := m'[xp].Kid(d.Opp()); k != null && k in m' && m'[k].color == Black
  {
    var m' := RedSiblingMem(m, m1, xp, w);
    SiblingExists(m, h, s, x, xp, d);
    RedSiblingShape(m, m1, h, s, x, xp, d, w);
    PaintedOff(m, h, s, x, xp, d, xp);
    PaintedOff(m, h, s, x, xp, d, w);
    forall n | n in m' && n != h
      ensures Tint(m', h, n, x, x, xp, d)
    {
      PaintedOff(m, h, s, x, xp, d, n);
      RedSiblingWays(m, m1, m', h, d, xp, w, n);
      RedSiblingReds(m, m1, m', h, d, xp, w, n);
    }
    RedSiblingNephew(m, h, s, x, xp, d, w);
  }

  lemma RedSiblingShape(m: Mem, m1: Mem, h: Node, s: seq<Node>, x: Node?, xp: Node, d: Dir, w: Node)
    requires Sibling(m, h, s, x, xp, d, w) && m[w].color == Red && IsRot(m, m1, h, d, xp, w)
    ensures var m' := RedSiblingMem(m, m1, xp, w);
      Shaped(m', h, s) && IsPaint(m1, m', Coat(w, Black, m[xp].bh), Coat(xp, Red, m[xp].bh - 1), NoCoat)
    ensures m1[h].parent == if m[h].parent == xp then w else m[h].parent
  {
    var m' := RedSiblingMem(m, m1, xp, w);
    SiblingExists(m, h, s, x, xp, d);
    NearOf(m, h, s, xp);
    RotShaped(m, m1, h, s, d, xp, w);
    PaintShaped(m1, m', h, s, Coat(w, Black, m[xp].bh), Coat(xp, Red, m[xp].bh - 1), NoCoat);
  }

  lemma RedSiblingNephew(m: Mem, h: Node, s: seq<Node>, x: Node?, xp: Node, d: Dir, w: Node)
    requires Sibling(m, h, s, x, xp, d, w) && m[w].color == Red
    ensures var k := m[w].Kid(d); k != null && k in m && k != h && k != xp && k != w && m[k].color == Black
  {
    PaintedOff(m, h, s, x, xp, d, xp);
    PaintedOff(m, h, s, x, xp, d, w);
    if m[w].Kid(d) != null {
      PaintedOff(m, h, s, x, xp, d, m[w].Kid(d));
    }
    assert x != null ==> Tint(m, h, x, x, x, xp, d);
  }

  ghost function PaleMem(m: Mem, xp: Node, w: Node): Mem
    requires xp in m && w in m
  {
    var m1 := PaintMem(m, w, Red, m[w].bh - 1);
    PaintMem(m1, xp, m[xp].color, m[xp].bh - 1)
  }

  lemma PaleShape(m: Mem, h: Node, s: seq<Node>, x: Node?, xp: Node, d: Dir, w: Node)
    requires Sibling(m, h, s, x, xp, d, w)
    ensures xp != w && Shaped(PaleMem(m, xp, w), h, s)
      && IsPaint(m, PaleMem(m, xp, w), Coat(w, Red, m[w].bh - 1), Coat(xp, m[xp].color, m[xp].bh - 1), NoCoat)
  {
    SiblingExists(m, h, s, x, xp, d);
    PaintShaped(m, PaleMem(m, xp, w), h, s, Coat(w, Red, m[w].bh - 1), Coat(xp, m[xp].color, m[xp].bh - 1), NoCoat);
  }

  lemma PalePainted(m: Mem, h: Node, s: seq<Node>, x: Node?, xp: Node, d: Dir, w: Node, xp': Node?, d': Dir)
    requires Sibling(m, h, s, x, xp, d, w) && m[w].color == Black
    requires (m[w].left != null ==> m[w].left in m) && (m[w].right != null ==> m[w].right in m)
    requires !IsRed(m, m[w].left) && !IsRed(m, m[w].right) && IsSlot(m, h, xp, xp', d')
    ensures Painted(PaleMem(m, xp, w), h, xp, xp, xp', d')
  {
    var m' := PaleMem(m, xp, w);
    PaleShape(m, h, s, x, xp, d, w);
    PaintedOff(m, h, s, x, xp, d, xp);
    PaintedOff(m, h, s, x, xp, d, w);
    forall n | n in m' && n != h
      ensures Tint(m', h, n, xp, xp, xp', d')
    {
      PaintedOff(m, h, s, x, xp, d, n);
      PaleTint(m, m', h, d, xp, w, xp', d', n);
    }
  }

  // The slot above, and the root.
  lemma PaleLinks(m: Mem, h: Node, s: seq<Node>, x: Node?, xp: Node, d: Dir, w: Node, xp': Node?, d': Dir)
    requires Sibling(m, h, s, x, xp, d, w) && m[w].color == Black
    requires (m[w].left != null ==> m[w].left in m) && (m[w].right != null ==> m[w].right in m)
    requires !IsRed(m, m[w].left) && !IsRed(m, m[w].right) && IsSlot(m, h, xp, xp', d')
    ensures var m' := PaleMem(m, xp, w);
      && SameEnds(m, m', h) && m'[h].parent == m[h].parent && RootBlackOr(m', h, xp)
      && if xp' == null then m'[h].parent == xp else xp' in m && xp' != h && m'[xp'].Kid(d') == xp
    ensures xp' != null ==> m[xp'].hi - m[xp'].lo > m[xp].hi - m[xp].lo
  {
    SiblingExists(m, h, s, x, xp, d);
    NearOf(m, h, s, xp);
    NearOf(m, h, s, w);
    PaintedOff(m, h, s, x, xp, d, xp);
    assert x != null ==> Tint(m, h, x, x, x, xp, d);
  }

  lemma PaleStep(m: Mem, h: Node, s: seq<Node>, x: Node?, xp: Node, d: Dir, w: Node, xp': Node?, d': Dir)
    requires Sibling(m, h, s, x, xp, d, w) && m[w].color == Black
    requires (m[w].left != null ==> m[w].left in m) && (m[w].right != null ==> m[w].right in m)
    requires !IsRed(m, m[w].left) && !IsRed(m, m[w].right) && IsSlot(m, h, xp, xp', d')
    ensures Short(PaleMem(m, xp, w), h, s, xp, xp', d') && SameEnds(m, PaleMem(m, xp, w), h) && xp != w
    ensures xp' != null ==> xp' in m && m[xp'].hi - m[xp'].lo > m[xp].hi - m[xp].lo
  {
    PaleShape(m, h, s, x, xp, d, w);
    PalePainted(m, h, s, x, xp, d, w, xp', d');
    PaleLinks(m, h, s, x, xp, d, w, xp', d');
    hide Shaped, Painted, IsPaint;
  }

  ghost function NearRedMem(m: Mem, m1: Mem, w: Node, k: Node): Mem
    requires w in m && k in m && m1.Keys == m.Keys
  {
    PaintMem(PaintMem(m1, k, Black, m[w].bh), w, Red, m[w].bh - 1)
  }

  lemma NearRedShape(m: Mem, m1: Mem, h: Node, s: seq<Node>, x: Node?, xp: Node, d: Dir, w: Node, k: Node)
    requires Sibling(m, h, s, x, xp, d, w) && m[w].color == Black
    requires m[w].Kid(d) == k && k in m && m[k].color == Red
    requires m[w].Kid(d.Opp()) != null ==> m[w].Kid(d.Opp()) in m
    requires !IsRed(m, m[w].Kid(d.Opp()))
    requires IsRot(m, m1, h, d.Opp(), w, k)
    ensures var m' := NearRedMem(m, m1, w, k);
      && k != w && k != h && Shaped(m', h, s)
      && IsPaint(m1, m', Coat(k, Black, m[w].bh), Coat(w, Red, m[w].bh - 1), NoCoat)
  {
    var m' := NearRedMem(m, m1, w, k);
    NearOf(m, h, s, w);
    RotShaped(m, m1, h, s, d.Opp(), w, k);
    PaintShaped(m1, m', h, s, Coat(k, Black, m[w].bh), Coat(w, Red, m[w].bh - 1), NoCoat);
  }

  lemma NearRedPainted(m: Mem, m1: Mem, h: Node, s: seq<Node>, x: Node?, xp: Node, d: Dir, w: Node, k: Node)
    requires Sibling(m, h, s, x, xp, d, w) && m[w].color == Black
    requires m[w].Kid(d) == k && k in m && m[k].color == Red
    requires m[w].Kid(d.Opp()) != null ==> m[w].Kid(d.Opp()) in m
    requires !IsRed(m, m[w].Kid(d.Opp()))
    requires IsRot(m, m1, h, d.Opp(), w, k)
    ensures Painted(NearRedMem(m, m1, w, k), h, x, x, xp, d)
  {
    var m' := NearRedMem(m, m1, w, k);
    NearRedShape(m, m1, h, s, x, xp, d, w, k);
    SiblingExists(m, h, s, x, xp, d);
    PaintedOff(m, h, s, x, xp, d, xp);
    PaintedOff(m, h, s, x, xp, d, w);
    PaintedOff(m, h, s, x, xp, d, k);
    forall n | n in m' && n != h
      ensures Tint(m', h, n, x, x, xp, d)
    {
      PaintedOff(m, h, s, x, xp, d, n);
      NearRedWays(m, m1, m', h, d, xp, w, k, n);
      NearRedReds(m, m1, m', h, d, xp, w, k, n);
    }
  }

  // The cells around the rotation, after it.
  lemma NearRedLinks(m: Mem, m1: Mem, h: Node, s: seq<Node>, x: Node?, xp: Node, d: Dir, w: Node, k: Node)
    requires Sibling(m, h, s, x, xp, d, w) && m[w].color == Black
    requires m[w].Kid(d) == k && k in m && m[k].color == Red
    requires m[w].Kid(d.Opp()) != null ==> m[w].Kid(d.Opp()) in m
    requires !IsRed(m, m[w].Kid(d.Opp()))
    requires IsRot(m, m1, h, d.Opp(), w, k)
    ensures var m' := NearRedMem(m, m1, w, k);
      && SameEnds(m, m', h) && m'[h].parent == m[h].parent && w != h && m[h].parent != w && m[h].parent != k
      && m'[xp].Kid(d) == x && m'[xp].Kid(d.Opp()) == k && m'[k].Kid(d.Opp()) == w
      && (x != null ==> x in m && x != w && x != k && m'[x].color == m[x].color)
  {
    SiblingExists(m, h, s, x, xp, d);
    NearOf(m, h, s, w);
    NearOf(m, h, s, xp);
    assert m1[h] == RotCell(m, h, d.Opp(), w, k, h);
    assert m1[xp] == RotCell(m, h, d.Opp(), w, k, xp);
  }

  lemma NearRedStep(m: Mem, m1: Mem, h: Node, s: seq<Node>, x: Node?, xp: Node, d: Dir, w: Node, k: Node)
    requires Sibling(m, h, s, x, xp, d, w) && m[w].color == Black
    requires m[w].Kid(d) == k && k in m && m[k].color == Red
    requires m[w].Kid(d.Opp()) != null ==> m[w].Kid(d.Opp()) in m
    requires !IsRed(m, m[w].Kid(d.Opp()))
    requires IsRot(m, m1, h, d.Opp(), w, k)
    ensures var m' := NearRedMem(m, m1, w, k);
      k != w && k != h && w != h && SameEnds(m, m', h) &&
      Sibling(m', h, s, x, xp, d, k) && m'[k].color == Black && m'[k].Kid(d.Opp()) == w && m'[w].color == Red
  {
    NearRedShape(m, m1, h, s, x, xp, d, w, k);
    NearRedPainted(m, m1, h, s, x, xp, d, w, k);
    NearRedLinks(m, m1, h, s, x, xp, d, w, k);
    hide Shaped, Painted, IsRot, IsPaint;
  }

  ghost function FarRedMem(m: Mem, m1: Mem, xp: Node, w: Node, k: Node): Mem
    requires xp in m && w in m && k in m && m1.Keys == m.Keys
  {
    PaintMem(PaintMem(PaintMem(m1, w, m[xp].color, m[xp].bh), xp, Black, m[w].bh), k, Black, m[k].bh + 1)
  }

  lemma FarRedStep(m: Mem, m1: Mem, h: Node, s: seq<Node>, x: Node?, xp: Node, d: Dir, w: Node, k: Node)
    requires Sibling(m, h, s, x, xp, d, w) && m[w].color == Black
    requires m[w].Kid(d.Opp()) == k && k in m && m[k].color == Red
    requires IsRot(m, m1, h, d, xp, w)
    ensures xp != w && xp != k && w != k && w != h && k != h
    ensures var m' := FarRedMem(m, m1, xp, w, k); Shaped(m', h, s) && RedBlack(m', h) && SameEnds(m, m', h)
  {
    FarRedShape(m, m1, h, s, x, xp, d, w, k);
    FarRedPainted(m, m1, h, s, x, xp, d, w, k);
    FarRedRoot(m, m1, h, s, x, xp, d, w, k);
    hide Shaped, Painted, IsRot, IsPaint;
  }

  lemma FarRedShape(m: Mem, m1: Mem, h: Node, s: seq<Node>, x: Node?, xp: Node, d: Dir, w: Node, k: Node)
    requires Sibling(m, h, s, x, xp, d, w) && m[w].color == Black
    requires m[w].Kid(d.Opp()) == k && k in m && m[k].color == Red
    requires IsRot(m, m1, h, d, xp, w)
    ensures xp != w && xp != k && w != k && w != h && k != h
    ensures var m' := FarRedMem(m, m1, xp, w, k);
      && Shaped(m', h, s)
      && IsPaint(m1, m', Coat(w, m[xp].color, m[xp].bh), Coat(xp, Black, m[w].bh), Coat(k, Black, m[k].bh + 1))
  {
    var m' := FarRedMem(m, m1, xp, w, k);
    FarRedApart(m, h, s, x, xp, d, w, k);
    RotShaped(m, m1, h, s, d, xp, w);
    PaintShaped(m1, m', h, s, Coat(w, m[xp].color, m[xp].bh), Coat(xp, Black, m[w].bh), Coat(k, Black, m[k].bh + 1));
  }

  lemma FarRedPainted(m: Mem, m1: Mem, h: Node, s: seq<Node>, x: Node?, xp: Node, d: Dir, w: Node, k: Node)
    requires Sibling(m, h, s, x, xp, d, w) && m[w].color == Black
    requires m[w].Kid(d.Opp()) == k && k in m && m[k].color == Red
    requires IsRot(m, m1, h, d, xp, w)
    ensures Painted(FarRedMem(m, m1, xp, w, k), h, null, null, null, Left)
  {
    var m' := FarRedMem(m, m1, xp, w, k);
    FarRedShape(m, m1, h, s, x, xp, d, w, k);
    PaintedOff(m, h, s, x, xp, d, xp);
    PaintedOff(m, h, s, x, xp, d, w);
    forall n | n in m' && n != h
      ensures Tint(m', h, n, null, null, null, Left)
    {
      PaintedOff(m, h, s, x, xp, d, n);
      FarRedWays(m, m1, m', h, d, xp, w, k, n);
      FarRedReds(m, m1, m', h, d, xp, w, k, n);
    }
  }

  lemma FarRedRoot(m: Mem, m1: Mem, h: Node, s: seq<Node>, x: Node?, xp: Node, d: Dir, w: Node, k: Node)
    requires Sibling(m, h, s, x, xp, d, w) && m[w].color == Black
    requires m[w].Kid(d.Opp()) == k && k in m && m[k].color == Red
    requires IsRot(m, m1, h, d, xp, w)
    ensures var m' := FarRedMem(m, m1, xp, w, k);
      SameEnds(m, m', h) && RootBlackOr(m', h, null) && m'[h].parent != null
  {
    FarRedApart(m, h, s, x, xp, d, w, k);
    NearOf(m, h, s, w);
    NearOf(m, h, s, xp);
    PaintedOff(m, h, s, x, xp, d, xp);
    assert m1[h] == RotCell(m, h, d, xp, w, h);
  }

  lemma FarRedApart(m: Mem, h: Node, s: seq<Node>, x: Node?, xp: Node, d: Dir, w: Node, k: Node)
    requires Sibling(m, h, s, x, xp, d, w) && m[w].Kid(d.Opp()) == k && k in m
    ensures xp != w && xp != k && w != k && k != h
  {
    NearOf(m, h, s, xp);
    NearOf(m, h, s, w);
    NearOf(m, h, s, k);
  }

  lemma LastStep(m: Mem, h: Node, s: seq<Node>, x: Node, xp: Node?, d: Dir)
    requires Short(m, h, s, x, xp, d) && m[x].color == Red
    ensures var m' := PaintMem(m, x, Black, m[x].bh + 1); Shaped(m', h, s) && RedBlack(m', h)
  {
    var m' := PaintMem(m, x, Black, m[x].bh + 1);
    var c := Coat(x, Black, m[x].bh + 1);
    assert IsPaint(m, m', c, NoCoat, NoCoat);
    PaintShaped(m, m', h, s, c, NoCoat, NoCoat);
    NearOf(m, h, s, x);
    LinkedOf(m, h, s, x);
    if xp != null {
      NearOf(m, h, s, xp);
    }
    forall n | n in m' && n != h
      ensures Tint(m', h, n, null, null, null, Left)
    {
      LinkedOf(m, h, s, n);
      assert Tint(m, h, n, x, x, xp, d) && Tint(m, h, x, x, x, xp, d);
      LastTint(m, m', h, x, xp, d, n);
    }
  }

  lemma DoneStep(m: Mem, h: Node, s: seq<Node>, x: Node?, d: Dir)
    requires Short(m, h, s, x, null, d) && !IsRed(m, x)
    ensures RedBlack(m, h)
  {
    forall n | n in m && n != h
      ensures Tint(m, h, n, null, null, null, Left)
    {
      PaintedOff(m, h, s, x, null, d, n);
    }
  }

  // ---------------------------------------------------------------- the header and whole operations

  /** The header is red and names the first and the last node, or itself when there are none. */
  ghost predicate Ends(m: Mem, h: Node, s: seq<Node>) {
    && h in m && m[h].color == Red
    && m[h].left == (if s == [] then h else s[0])
    && m[h].right == (if s == [] then h else s[|s| - 1])
  }

  /** Everything that holds of the links between two operations. */
  ghost predicate Sound(m: Mem, h: Node, s: seq<Node>) {
    Shaped(m, h, s) && RedBlack(m, h) && Ends(m, h, s)
  }

  ghost function LeafHeader(m: Mem, h: Node, y: Node, d: Dir, z: Node): Cell
    requires h in m
  {
    m[h].(parent := if y == h then z else m[h].parent,
          left := if y == h || (d == Left && m[h].left == y) then z else m[h].left,
          right := if y == h || (d == Right && m[h].right == y) then z else m[h].right)
  }

  ghost function LeafMem(m: Mem, h: Node, y: Node, d: Dir, z: Node): Mem
    requires h in m && y in m
  {
    var k := LeafPos(m, h, y, d);
    map n | n in m.Keys + {z} ::
      if n == z then Cell(Red, y, null, null, k, k, k + 1, 0)
      else if n == h then LeafHeader(m, h, y, d, z)
      else LeafCell(m, h, y, d, z, n)
  }

  // The writes that hang z: c0 is whatever the new node holds before them.
  ghost function AttachMem(m: Mem, h: Node, y: Node, d: Dir, z: Node, c0: Cell): Mem
    requires h in m && y in m
  {
    var m1 := m[z := c0];
    var m2 := m1[y := m1[y].WithKid(d, z)];
    var m3 :=
      if y == h then
        var a := m2[h := m2[h].(parent := z)];
        a[h := a[h].WithKid(Right, z)]
      else if d == Left && m2[h].left == y then m2[h := m2[h].WithKid(Left, z)]
      else if d == Right && m2[h].right == y then m2[h := m2[h].WithKid(Right, z)]
      else m2;
    var m4 := m3[z := m3[z].(parent := y)];
    var m5 := m4[z := m4[z].WithKid(Left, null)];
    var m6 := m5[z := m5[z].WithKid(Right, null)];
    PaintMem(m6, z, Red, 0)
  }

  ghost predicate Free(m: Mem, h: Node, y: Node, d: Dir) {
    h in m && y in m && if y == h then m[h].parent == null && d == Left else m[y].Kid(d) == null
  }

  lemma AttachLinks(m: Mem, h: Node, y: Node, d: Dir, z: Node, c0: Cell)
    requires Free(m, h, y, d) && z !in m
    ensures SameLinks(AttachMem(m, h, y, d, z, c0), LeafMem(m, h, y, d, z))
    ensures IsLeaf(m, LeafMem(m, h, y, d, z), h, y, d, z)
  {
    LeafMemIs(m, h, y, d, z);
    AttachKeys(m, h, y, d, z, c0);
    hide AttachMem, LeafMem, IsLeaf, LeafCell;
    forall n | n in m.Keys + {z}
      ensures EqualLinks(AttachMem(m, h, y, d, z, c0)[n], LeafMem(m, h, y, d, z)[n])
    {
      AttachLink(m, h, y, d, z, c0, n);
    }
  }

  lemma LeafMemIs(m: Mem, h: Node, y: Node, d: Dir, z: Node)
    requires Free(m, h, y, d) && z !in m
    ensures IsLeaf(m, LeafMem(m, h, y, d, z), h, y, d, z) && LeafMem(m, h, y, d, z).Keys == m.Keys + {z}
  {
    hide LeafCell;
  }

  lemma AttachKeys(m: Mem, h: Node, y: Node, d: Dir, z: Node, c0: Cell)
    requires Free(m, h, y, d) && z !in m
    ensures AttachMem(m, h, y, d, z, c0).Keys == m.Keys + {z}
  {
  }

  lemma AttachLink(m: Mem, h: Node, y: Node, d: Dir, z: Node, c0: Cell, n: Node)
    requires Free(m, h, y, d) && z !in m && (n in m || n == z)
    ensures n in AttachMem(m, h, y, d, z, c0)
    ensures EqualLinks(AttachMem(m, h, y, d, z, c0)[n], LeafMem(m, h, y, d, z)[n])
  {
    if y == h {} else if d == Left {} else {}
  }

  lemma AttachEnds(m: Mem, h: Node, s: seq<Node>, y: Node, d: Dir, z: Node)
    requires Sound(m, h, s) && Free(m, h, y, d) && z !in m
    ensures 0 <= LeafPos(m, h, y, d) <= |s|
    ensures Ends(LeafMem(m, h, y, d, z), h, InsertAt(s, LeafPos(m, h, y, d), z))
  {
    if y != h {
      NearOf(m, h, s, y);
      assert s[0] == y <==> m[y].pos == 0;
    }
  }

  lemma AttachStep(m: Mem, h: Node, s: seq<Node>, y: Node, d: Dir, z: Node, c0: Cell)
    requires Sound(m, h, s) && Free(m, h, y, d) && z !in m
    ensures SameLinks(AttachMem(m, h, y, d, z, c0), LeafMem(m, h, y, d, z))
    ensures 0 <= LeafPos(m, h, y, d) <= |s|
    ensures var m', s' := LeafMem(m, h, y, d, z), InsertAt(s, LeafPos(m, h, y, d), z);
      m'.Keys == m.Keys + {z} && Blush(m', h, s', z) && Ends(m', h, s')
  {
    AttachLinks(m, h, y, d, z, c0);
    LeafStep(m, LeafMem(m, h, y, d, z), h, s, y, d, z);
    AttachEnds(m, h, s, y, d, z);
  }

  // The writes that unlink y, whose only child (if any) is x.
  ghost function UnlinkMem(m: Mem, h: Node, y: Node, x: Node?): Mem
    requires y in m && (x != null ==> x in m) && m[y].parent != null && m[y].parent in m
  {
    var p := m[y].parent;
    var m1 := if x != null then m[x := m[x].(parent := p)] else m;
    m1[p := ChildCell(h, p, m1[p], y, x)]
  }

  ghost function SpliceMem(m: Mem, h: Node, y: Node, x: Node?): Mem
    requires y in m
  {
    map n | n in m && n != y :: SpliceCell(m, h, y, x, n)
  }

  ghost predicate OnlyKid(m: Mem, y: Node, x: Node?)
    requires y in m
  {
    (m[y].left == null && m[y].right == x) || (m[y].right == null && m[y].left == x)
  }

  lemma UnlinkNames(m: Mem, h: Node, s: seq<Node>, y: Node, x: Node?)
    requires Shaped(m, h, s) && y in m && y != h && OnlyKid(m, y, x)
    ensures var p := m[y].parent;
      p != null && p in m && p != y && x != y && p != x && x != h && (x != null ==> x in m && m[x].parent == y) &&
      (p != h ==> m[p].left == y || m[p].right == y) && (p == h <==> m[h].parent == y)
  {
    NearOf(m, h, s, y);
  }

  lemma UnlinkLinks(m: Mem, h: Node, s: seq<Node>, y: Node, x: Node?)
    requires Shaped(m, h, s) && y in m && y != h && OnlyKid(m, y, x)
    requires m[y].parent != null && m[y].parent in m && (x != null ==> x in m)
    ensures SameLinks(UnlinkMem(m, h, y, x), SpliceMem(m, h, y, x))
    ensures IsSplice(m, SpliceMem(m, h, y, x), h, y, x)
  {
    UnlinkNames(m, h, s, y, x);
    forall n | n in m && n != y
      ensures EqualLinks(UnlinkMem(m, h, y, x)[n], SpliceCell(m, h, y, x, n))
    {
      UnlinkLink(m, h, s, y, x, n);
    }
  }

  lemma UnlinkLink(m: Mem, h: Node, s: seq<Node>, y: Node, x: Node?, n: Node)
    requires Shaped(m, h, s) && y in m && y != h && OnlyKid(m, y, x) && n in m && n != y
    requires m[y].parent != null && m[y].parent in m && (x != null ==> x in m)
    ensures EqualLinks(UnlinkMem(m, h, y, x)[n], SpliceCell(m, h, y, x, n))
  {
    UnlinkNames(m, h, s, y, x);
    LinkedOf(m, h, s, y);
    if n == h {
    } else {
      LinkedOf(m, h, s, n);
    }
  }

  // y, which holds c0, takes over z's links and colour.
  ghost function CopyMem(m: Mem, z: Node, y: Node, c0: Cell): Mem
    requires z in m
  {
    var m1 := m[y := c0];
    var m2 := m1[y := m1[y].(parent := m[z].parent)];
    var m3 := m2[y := m2[y].WithKid(Left, m[z].left)];
    var m4 := m3[y := m3[y].WithKid(Right, m[z].right)];
    PaintMem(m4, y, m[z].color, m[z].bh)
  }

  // The writes that put y, which holds c0, where z stands.
  ghost function SubstituteMem(m: Mem, h: Node, z: Node, y: Node, c0: Cell): Mem
    requires z in m && m[z].parent != null && m[z].parent in m && y !in m
    requires (m[z].left != null ==> m[z].left in m) && (m[z].right != null ==> m[z].right in m)
  {
    var l, r, p := m[z].left, m[z].right, m[z].parent;
    var m5 := CopyMem(m, z, y, c0);
    var m6 := if l != null then m5[l := m5[l].(parent := y)] else m5;
    var m7 := if r != null then m6[r := m6[r].(parent := y)] else m6;
    m7[p := ChildCell(h, p, m7[p], z, y)]
  }

  ghost function RenameMem(m: Mem, z: Node, y: Node): Mem
    requires z in m
  {
    map n | n in m.Keys - {z} + {y} :: if n == y then m[z] else RenameCell(m, z, y, n)
  }

  // z and the nodes around it are distinct and point at each other.
  ghost predicate Stands(m: Mem, h: Node, z: Node)
    requires h in m && z in m
  {
    var l, r, p := m[z].left, m[z].right, m[z].parent;
    && p != null && p in m && p != z && l != z && r != z && p != l && p != r && l != h && r != h
    && (l != null ==> l != r)
    && (l != null ==> l in m && m[l].parent == z) && (r != null ==> r in m && m[r].parent == z)
    && (p != h ==> (m[p].left == z || m[p].right == z) && m[p].left != m[p].right)
    && (p == h <==> m[h].parent == z)
  }

  lemma SubstituteNames(m: Mem, h: Node, s: seq<Node>, z: Node)
    requires Shaped(m, h, s) && z in m && z != h
    ensures Stands(m, h, z)
  {
    NearOf(m, h, s, z);
  }

  lemma ShapedHeader(m: Mem, h: Node, s: seq<Node>)
    requires Shaped(m, h, s)
    ensures h in m
  {
  }

  lemma RenameIs(m: Mem, h: Node, z: Node, y: Node)
    requires h in m && z in m && z != h && y !in m
    ensures IsRename(m, RenameMem(m, z, y), h, z, y)
  {
    hide RenameCell;
  }

  // The writes change no key, and y has the links of z.
  lemma SubstituteKeys(m: Mem, h: Node, z: Node, y: Node, c0: Cell)
    requires z in m && y !in m && m[z].parent != null && m[z].parent in m && m[z].parent != z && m[z].left != z
      && m[z].right != z
    requires (m[z].left != null ==> m[z].left in m) && (m[z].right != null ==> m[z].right in m)
    ensures var a := SubstituteMem(m, h, z, y, c0);
      a.Keys == m.Keys + {y}
      && a[y].color == m[z].color && a[y].parent == m[z].parent && a[y].left == m[z].left && a[y].right == m[z].right
  {
  }

  lemma SubstituteLinks(m: Mem, h: Node, s: seq<Node>, z: Node, y: Node, c0: Cell)
    requires Shaped(m, h, s) && z in m && z != h && y !in m && m[h].left != z && m[h].right != z
    requires m[z].parent != null && m[z].parent in m
    requires (m[z].left != null ==> m[z].left in m) && (m[z].right != null ==> m[z].right in m)
    ensures SameLinks(SubstituteMem(m, h, z, y, c0), RenameMem(m, z, y))
    ensures IsRename(m, RenameMem(m, z, y), h, z, y)
  {
    SubstituteNames(m, h, s, z);
    ShapedHeader(m, h, s);
    RenameIs(m, h, z, y);
    SubstituteKeys(m, h, z, y, c0);
    hide Shaped, SubstituteMem, RenameMem, RenameCell;
    forall n | n in m && n != z
      ensures EqualLinks(SubstituteMem(m, h, z, y, c0)[n], RenameCell(m, z, y, n))
    {
      SubstituteLink(m, h, s, z, y, c0, n);
    }
  }

  lemma SubstituteLink(m: Mem, h: Node, s: seq<Node>, z: Node, y: Node, c0: Cell, n: Node)
    requires Shaped(m, h, s) && z in m && z != h && y !in m && m[h].left != z && m[h].right != z && n in m && n != z
    requires m[z].parent != null && m[z].parent in m
    requires (m[z].left != null ==> m[z].left in m) && (m[z].right != null ==> m[z].right in m)
    ensures EqualLinks(SubstituteMem(m, h, z, y, c0)[n], RenameCell(m, z, y, n))
  {
    SubstituteNames(m, h, s, z);
    if n != h {
      LinkedOf(m, h, s, n);
    }
    hide Shaped;
    SubstituteCell(m, h, z, y, c0, n);
  }

  lemma SubstituteCell(m: Mem, h: Node, z: Node, y: Node, c0: Cell, n: Node)
    requires h in m && z in m && z != h && y !in m && n in m && n != z && Stands(m, h, z)
    requires if n == h then m[h].left != z && m[h].right != z else Linked(m, h, n)
    ensures EqualLinks(SubstituteMem(m, h, z, y, c0)[n], RenameCell(m, z, y, n))
  {
    if n == m[z].parent {
    } else {
    }
  }

  lemma EraseAgain<T>(s: seq<T>, k: int, y: T)
    requires 0 <= k && k + 1 < |s| && s[k + 1] == y
    ensures RemoveAt(s, k + 1)[k := y] == RemoveAt(s, k)
  {
  }

  lemma BelowRight(m: Mem, h: Node, s: seq<Node>, z: Node)
    requires Sound(m, h, s) && z in m && z != h && m[z].right != null
    ensures m[z].right in m && m[z].right != h
  {
    NearOf(m, h, s, z);
  }

  // z has two children, and y is the first node below the right one.
  lemma InnerPair(m: Mem, h: Node, s: seq<Node>, z: Node, r: Node, y: Node)
    requires Sound(m, h, s) && z in m && z != h && m[z].left != null && m[z].right == r
    requires r in m && y in m && y != h && m[y].pos == m[r].lo && m[y].left == null
    ensures var k := m[z].pos;
      && 0 < k && k + 1 < |s| && m[y].pos == k + 1 && y != z && OnlyKid(m, y, m[y].right)
      && RemoveAt(s, k + 1)[k] == z && RemoveAt(s, k + 1)[k := y] == RemoveAt(s, k)
      && m[h].left != z && m[h].right != z
      && m[h].left == RemoveAt(s, k)[0] && m[h].right == RemoveAt(s, k)[|s| - 2]
  {
    NearOf(m, h, s, z);
    NearOf(m, h, s, y);
    EraseAgain(s, m[z].pos, y);
  }

  lemma StandsAt(m: Mem, h: Node, s: seq<Node>, k: int)
    requires Shaped(m, h, s) && 0 <= k < |s|
    ensures s[k] in m && s[k] != h && m[s[k]].pos == k
  {
  }

  // Where y hangs, as the slot its unlinking may leave short.
  lemma SlotOf(m: Mem, h: Node, s: seq<Node>, y: Node)
    requires Shaped(m, h, s) && y in m && y != h
    ensures var p := m[y].parent;
      p != null && p in m &&
      IsSlot(m, h, y, if p == h then null else p, if m[p].left == y then Left else Right)
  {
    NearOf(m, h, s, y);
  }

  // The node that follows z, or precedes it, when z has no child on that side and is the
  // last, or the first, of all.
  lemma EdgeParent(m: Mem, h: Node, s: seq<Node>, z: Node)
    requires Shaped(m, h, s) && z in m && z != h
    ensures SpanOk(m, s, z)
    ensures m[z].pos == 0 && m[z].left == null && m[z].right == null ==>
      m[z].parent == (if |s| == 1 then h else s[1])
    ensures m[z].pos == |s| - 1 && m[z].left == null && m[z].right == null ==>
      m[z].parent == (if |s| == 1 then h else s[|s| - 2])
    ensures (m[z].pos == 0 ==> m[z].left == null) && (m[z].pos == |s| - 1 ==> m[z].right == null)
  {
    NearOf(m, h, s, z);
  }

  // Only the header's end links change.
  lemma EndsStep(m: Mem, m': Mem, h: Node, s: seq<Node>)
    requires Shaped(m, h, s) && RedBlack(m, h)
    requires m'.Keys == m.Keys && forall n {:trigger m'[n]} :: n in m && n != h ==> m'[n] == m[n]
    requires m'[h].parent == m[h].parent
    ensures Shaped(m', h, s) && RedBlack(m', h)
  {
    forall n | n in m' && n != h
      ensures At(m', h, s, n) && Tint(m', h, n, null, null, null, Left)
    {
      NearOf(m, h, s, n);
      assert Tint(m, h, n, null, null, null, Left);
    }
  }

  // ---------------------------------------------------------------- positions

  /** The node an iterator at position i holds: the header stands past the end. */
  ghost function NodeAt(h: Node, s: seq<Node>, i: int): Node
    requires 0 <= i <= |s|
  {
    if i == |s| then h else s[i]
  }

  /** The position of an iterator that holds n. */
  ghost function Index(m: Mem, h: Node, s: seq<Node>, n: Node): int
    requires n in m
  {
    if n == h then |s| else m[n].pos
  }

  lemma IndexOf(m: Mem, h: Node, s: seq<Node>, n: Node)
    requires Shaped(m, h, s) && n in m
    ensures 0 <= Index(m, h, s, n) <= |s| && NodeAt(h, s, Index(m, h, s, n)) == n
  {
    if n != h {
      NearOf(m, h, s, n);
    }
  }

  // Only the header is red and its own grandparent.
  lemma HeaderKnown(m: Mem, h: Node, s: seq<Node>, n: Node)
    requires Sound(m, h, s) && n in m && s != []
    ensures m[n].parent != null && m[n].parent in m
    ensures n == h <==> m[n].color == Red && m[m[n].parent].parent == n
  {
    NearOf(m, h, s, m[h].parent);
    if n != h {
      NearOf(m, h, s, n);
      if m[n].parent != h {
        NearOf(m, h, s, m[n].parent);
      }
    }
  }

  // What -- tests.
  ghost predicate LooksLikeHeader(m: Mem, n: Node)
    requires n in m
  {
    m[n].color == Red && m[n].parent != null && m[n].parent in m && m[m[n].parent].parent == n
  }

  /** The test that -- makes tells the header from every other node exactly when the root is black:
      a red root passes it too. */
  lemma HeaderTestIff(m: Mem, h: Node, s: seq<Node>)
    requires Shaped(m, h, s) && Ends(m, h, s) && s != []
    ensures var r := m[h].parent;
      && r != null && r in m && r != h && (LooksLikeHeader(m, r) <==> m[r].color == Red)
      && ((forall n :: n in m ==> (LooksLikeHeader(m, n) <==> n == h)) <==> m[r].color == Black)
  {
    var r := m[h].parent;
    NearOf(m, h, s, r);
    forall n | n in m && n != h && n != r
      ensures !LooksLikeHeader(m, n)
    {
      NearOf(m, h, s, n);
      NearOf(m, h, s, m[n].parent);
    }
  }

  // Climbing from node to its parent y, on the way to the node after position i.
  ghost predicate ClimbsRight(m: Mem, h: Node, s: seq<Node>, i: int, node: Node, y: Node?) {
    && node in m && y == m[node].parent && y != null && y in m
    && if node == h then i + 1 == |s| && m[y].right == null && m[h].right == y
       else Near(m, h, s, node) && m[node].hi == i + 1
  }

  lemma ClimbStep(m: Mem, h: Node, s: seq<Node>, i: int, node: Node, y: Node)
    requires Sound(m, h, s) && s != [] && ClimbsRight(m, h, s, i, node, y)
    ensures m[y].right == node ==> node != h && ClimbsRight(m, h, s, i, y, m[y].parent)
    ensures m[y].right == node && y != h ==> m[y].hi - m[y].lo > m[node].hi - m[node].lo
    ensures m[y].right != node ==> 0 <= i + 1 <= |s|
    ensures m[y].right != node ==> NodeAt(h, s, i + 1) == (if m[node].right != y then y else node)
  {
    if y != h {
      NearOf(m, h, s, y);
    }
    NearOf(m, h, s, m[h].parent);
    if node != h {
      NearOf(m, h, s, node);
    }
  }

  // ---------------------------------------------------------------- height

  ghost function Pow2(n: nat): nat {
    if n == 0 then 1 else 2 * Pow2(n - 1)
  }

  /** The number of nodes from the root down to n, which bounds every search that ends there. */
  ghost function Steps(m: Mem, h: Node, s: seq<Node>, n: Node): nat
    requires Shaped(m, h, s) && n in m && n != h
    decreases |s| - (m[n].hi - m[n].lo)
  {
    NearOf(m, h, s, n);
    if m[n].parent == h then 1 else 1 + Steps(m, h, s, m[n].parent)
  }

  lemma {:induction false} StepsBound(m: Mem, h: Node, s: seq<Node>, n: Node)
    requires Shaped(m, h, s) && RedBlack(m, h) && n in m && n != h
    ensures m[h].parent != null
    ensures Steps(m, h, s, n) + 2 * m[n].bh <= 2 * m[m[h].parent].bh + Weight(m[n].color)
    decreases |s| - (m[n].hi - m[n].lo)
  {
    NearOf(m, h, s, n);
    assert Tint(m, h, n, null, null, null, Left);
    var p := m[n].parent;
    if p != h {
      NearOf(m, h, s, p);
      assert Tint(m, h, p, null, null, null, Left);
      StepsBound(m, h, s, p);
    }
  }

  lemma {:induction false} SizeBound(m: Mem, h: Node, s: seq<Node>, n: Node)
    requires Shaped(m, h, s) && RedBlack(m, h) && n in m && n != h
    ensures m[n].bh >= 0 && Pow2(m[n].bh) <= m[n].hi - m[n].lo + 1
    decreases m[n].hi - m[n].lo
  {
    NearOf(m, h, s, n);
    assert Tint(m, h, n, null, null, null, Left);
    if m[n].left != null {
      SizeBound(m, h, s, m[n].left);
    }
    if m[n].right != null {
      SizeBound(m, h, s, m[n].right);
    }
  }

  /** With |s| nodes no node is deeper than 2 * log2(|s| + 1). */
  lemma HeightBound(m: Mem, h: Node, s: seq<Node>, n: Node)
    requires Shaped(m, h, s) && RedBlack(m, h) && n in m && n != h
    ensures exists b: nat :: Pow2(b) <= |s| + 1 && Steps(m, h, s, n) <= 2 * b
  {
    StepsBound(m, h, s, n);
    var r := m[h].parent;
    NearOf(m, h, s, r);
    SizeBound(m, h, s, r);
    assert Tint(m, h, n, null, null, null, Left);
    var b: nat := m[r].bh;
    assert Pow2(b) <= |s| + 1 && Steps(m, h, s, n) <= 2 * b;
  }
}
